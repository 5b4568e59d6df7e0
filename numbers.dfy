/** Python's int() on one word of the response, restricted to an optional sign
    followed by ASCII decimal digits, and the decimal numerals that int() reads back. */
module Numbers {
  import opened Wrappers

  predicate IsDigit(c: char) {
    '0' <= c <= '9'
  }

  predicate AllDigits(s: string) {
    forall i :: 0 <= i < |s| ==> IsDigit(s[i])
  }

  function DigitValue(c: char): (d: nat)
    requires IsDigit(c)
    ensures d < 10
  {
    c as int - '0' as int
  }

  function DigitChar(d: nat): (c: char)
    requires d < 10
    ensures IsDigit(c) && DigitValue(c) == d
  {
    ('0' as int + d) as char
  }

  /** The value of a string of decimal digits, most significant first. */
  function DigitsValue(s: string): nat
    requires AllDigits(s)
  {
    if s == [] then 0 else DigitsValue(s[..|s| - 1]) * 10 + DigitValue(s[|s| - 1])
  }

  /** int(w): an optional '+' or '-' and at least one decimal digit, as many as there are;
      anything else raises ValueError, modelled as None. */
  function ParseInt(w: string): (r: Option<int>)
    ensures r.Some? ==> w != []
  {
    if w != [] && (w[0] == '+' || w[0] == '-') then
      var digits := w[1..];
      if digits != [] && AllDigits(digits) then
        var v: int := DigitsValue(digits);
        Some(if w[0] == '-' then -v else v)
      else None
    else if w != [] && AllDigits(w) then Some(DigitsValue(w))
    else None
  }

  /** The decimal numeral of k, as str(k) writes it. */
  function Decimal(k: nat): (s: string)
    ensures s != [] && AllDigits(s)
    ensures DigitsValue(s) == k
  {
    if k < 10 then [DigitChar(k)]
    else
      var s := Decimal(k / 10) + [DigitChar(k % 10)];
      assert s[..|s| - 1] == Decimal(k / 10);
      s
  }

  /** int() reads a non-empty run of digits of any length, leading zeros included ("007" is 7,
      "-0" is 0), with or without a sign, as its decimal value. */
  lemma ParseDigits(d: string)
    requires d != [] && AllDigits(d)
    ensures ParseInt(d) == Some(DigitsValue(d))
    ensures ParseInt("+" + d) == Some(DigitsValue(d))
    ensures ParseInt("-" + d) == Some(-(DigitsValue(d) as int))
  {
    assert IsDigit(d[0]);
    assert ("+" + d)[1..] == d;
    assert ("-" + d)[1..] == d;
  }

  /** int() reads back every numeral str() writes, with or without a sign. */
  lemma ParseDecimal(k: nat)
    ensures ParseInt(Decimal(k)) == Some(k)
    ensures ParseInt("+" + Decimal(k)) == Some(k)
    ensures ParseInt("-" + Decimal(k)) == Some(-(k as int))
  {
    ParseDigits(Decimal(k));
  }

  /** Leading zeros do not change the value of a run of digits. */
  lemma {:induction false} LeadingZero(d: string)
    requires AllDigits(d)
    ensures AllDigits("0" + d) && DigitsValue("0" + d) == DigitsValue(d)
    decreases |d|
  {
    var z := "0" + d;
    assert AllDigits(z) by {
      forall i | 0 <= i < |z| ensures IsDigit(z[i]) {
        if i > 0 {
          assert z[i] == d[i - 1];
        }
      }
    }
    if d != [] {
      var init := d[..|d| - 1];
      assert z[..|z| - 1] == "0" + init;
      assert z[|z| - 1] == d[|d| - 1];
      LeadingZero(init);
    }
  }

  /** A character other than a digit, except a leading sign, makes int() fail. */
  lemma ParseIntRejects(w: string, i: nat)
    requires i < |w| && !IsDigit(w[i])
    requires i == 0 ==> w[0] != '+' && w[0] != '-'
    ensures ParseInt(w) == None
  {
    if w[0] == '+' || w[0] == '-' {
      assert w[1..][i - 1] == w[i];
    }
  }

  /** A lone sign makes int() fail. */
  lemma ParseIntSignOnly(w: string)
    requires w == "+" || w == "-"
    ensures ParseInt(w) == None
  {
    assert w[1..] == [];
  }
}

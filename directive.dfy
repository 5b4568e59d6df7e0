/** parse_directive and format_directive: the tokens of a `scanfor` or `showtools`
    line and the line written back from a name and tokens. */
module Directive {
  import opened Text

  /** What a token of a directive is: non-empty, no surrounding whitespace, no comma. */
  predicate IsItem(t: string) {
    t != [] && Trimmed(t) && ',' !in t
  }

  /** The remainder holds no token: nothing but whitespace and commas. */
  predicate OnlySeparators(s: string) {
    forall i :: 0 <= i < |s| ==> IsSpace(s[i]) || s[i] == ','
  }

  /** [item.strip() for item in pieces if item.strip()] */
  function KeepStripped(pieces: seq<string>): (r: seq<string>)
    ensures |r| <= |pieces|
  {
    if pieces == [] then []
    else
      var t := Strip(pieces[0]);
      (if t == [] then [] else [t]) + KeepStripped(pieces[1..])
  }

  /** The tokens of the text after the keyword: split on commas, strip each piece,
      drop empty pieces. */
  function Items(rest: string): (r: seq<string>)
    ensures forall k :: 0 <= k < |r| ==> IsItem(r[k])
  {
    var pieces := SplitOn(rest, ',');
    KeepStrippedClean(pieces);
    KeepStrippedNoChar(pieces, ',');
    KeepStripped(pieces)
  }

  /** parse_directive: drop everything from the first '#', split keyword from the
      remainder at the first run of whitespace, and take the remainder's tokens;
      no remainder means no tokens. */
  function ParseDirective(line: string): (r: seq<string>)
    ensures forall k :: 0 <= k < |r| ==> IsItem(r[k]) && '#' !in r[k]
  {
    var code := BeforeFirst(line, '#');
    var parts := SplitOnce(code);
    if |parts| < 2 then []
    else
      SplitOnceNoChar(code, '#');
      var pieces := SplitOn(parts[1], ',');
      SplitOnNoChar(parts[1], ',', '#');
      KeepStrippedNoChar(pieces, '#');
      Items(parts[1])
  }

  /** format_directive: the name, one space, the tokens joined by commas, a newline. */
  function FormatDirective(name: string, items: seq<string>): (r: string)
    ensures name <= r && |r| > |name| && r[|name|] == ' '
    ensures r[|r| - 1] == '\n'
  {
    name + " " + Join(items, ",") + "\n"
  }

  // ---------------------------------------------------------------------------
  // Lemmas about the comprehension on the pieces

  /** The comprehension keeps only non-empty pieces with no surrounding whitespace. */
  lemma {:induction false} KeepStrippedClean(pieces: seq<string>)
    ensures forall k :: 0 <= k < |KeepStripped(pieces)| ==>
      KeepStripped(pieces)[k] != [] && Trimmed(KeepStripped(pieces)[k])
  {
    if pieces != [] {
      KeepStrippedClean(pieces[1..]);
      var t := Strip(pieces[0]);
      var head: seq<string> := if t == [] then [] else [t];
      var tail := KeepStripped(pieces[1..]);
      assert KeepStripped(pieces) == head + tail;
      forall k | 0 <= k < |head + tail| ensures (head + tail)[k] != [] && Trimmed((head + tail)[k]) {
        if k < |head| {
          assert (head + tail)[k] == t;
        } else {
          assert (head + tail)[k] == tail[k - |head|];
        }
      }
    }
  }

  /** The comprehension keeps no character the pieces do not have. */
  lemma {:induction false} KeepStrippedNoChar(pieces: seq<string>, c: char)
    requires forall i :: 0 <= i < |pieces| ==> c !in pieces[i]
    ensures forall k :: 0 <= k < |KeepStripped(pieces)| ==> c !in KeepStripped(pieces)[k]
  {
    if pieces != [] {
      StripNoChar(pieces[0], c);
      KeepStrippedNoChar(pieces[1..], c);
    }
  }

  /** The comprehension works piece by piece, left to right. */
  lemma {:induction false} KeepStrippedConcat(p: seq<string>, q: seq<string>)
    ensures KeepStripped(p + q) == KeepStripped(p) + KeepStripped(q)
  {
    if p == [] {
      assert p + q == q;
    } else {
      assert (p + q)[0] == p[0];
      assert (p + q)[1..] == p[1..] + q;
      KeepStrippedConcat(p[1..], q);
      var t := Strip(p[0]);
      var head: seq<string> := if t == [] then [] else [t];
      assert KeepStripped(p + q) == head + (KeepStripped(p[1..]) + KeepStripped(q));
      assert KeepStripped(p) == head + KeepStripped(p[1..]);
    }
  }

  // ---------------------------------------------------------------------------
  // Tokens of the remainder

  /** Tokens are taken left to right: those before a comma come before those after it. */
  lemma ItemsConcat(a: string, b: string)
    ensures Items(a + [','] + b) == Items(a) + Items(b)
  {
    SplitOnConcat(a, b, ',');
    KeepStrippedConcat(SplitOn(a, ','), SplitOn(b, ','));
  }

  /** A single clean token followed by whitespace is that token. */
  lemma ItemsOne(x: string, tail: string)
    requires IsItem(x) && AllSpace(tail)
    ensures Items(x + tail) == [x]
  {
    assert ',' !in tail by {
      PrintableNotSpace(',');
      forall i | 0 <= i < |tail| ensures tail[i] != ',' { assert IsSpace(tail[i]); }
    }
    assert ',' !in x + tail;
    SplitOnNone(x + tail, ',');
    StripTrailing(x, tail);
  }

  /** Clean tokens joined by commas, with trailing whitespace such as the newline,
      give back exactly those tokens. */
  lemma {:induction false} ItemsJoin(xs: seq<string>, tail: string)
    requires |xs| > 0
    requires forall k :: 0 <= k < |xs| ==> IsItem(xs[k])
    requires AllSpace(tail)
    ensures Items(Join(xs, ",") + tail) == xs
  {
    if |xs| == 1 {
      ItemsOne(xs[0], tail);
    } else {
      ItemsJoin(xs[1..], tail);
      ItemsJoinStep(xs, tail);
    }
  }

  lemma ItemsJoinStep(xs: seq<string>, tail: string)
    requires |xs| > 1 && IsItem(xs[0])
    ensures Items(Join(xs, ",") + tail) == [xs[0]] + Items(Join(xs[1..], ",") + tail)
  {
    JoinCons(xs, ",");
    var rest := Join(xs[1..], ",") + tail;
    assert Join(xs, ",") + tail == xs[0] + [','] + rest;
    ItemsConcat(xs[0], rest);
    ItemsOne(xs[0], []);
    assert xs[0] + [] == xs[0];
  }

  /** The empty remainder has no token. */
  lemma ItemsEmptyText()
    ensures Items([]) == []
  {
    var pieces: seq<string> := [[]];
    assert SplitOn([], ',') == pieces;
    assert Strip(pieces[0]) == [];
    assert pieces[1..] == [];
    assert KeepStripped(pieces) == KeepStripped(pieces[1..]);
  }

  /** A leading comma contributes no token. */
  lemma ItemsComma(r: string)
    ensures Items([','] + r) == Items(r)
  {
    calc {
      Items([','] + r);
      { assert [','] + r == [] + [','] + r; }
      Items([] + [','] + r);
      { ItemsConcat([], r); }
      Items([]) + Items(r);
      { ItemsEmptyText(); }
      Items(r);
    }
  }

  /** Only the stripped first piece matters to the comprehension. */
  lemma KeepStrippedHead(a: string, b: string, ps: seq<string>)
    requires Strip(a) == Strip(b)
    ensures KeepStripped([a] + ps) == KeepStripped([b] + ps)
  {
    assert ([a] + ps)[1..] == ps;
    assert ([b] + ps)[1..] == ps;
  }

  /** Stripping ignores a leading whitespace character. */
  lemma StripSpaceCons(x: char, t: string)
    requires IsSpace(x)
    ensures Strip([x] + t) == Strip(t)
  {
    StripParts([x] + t);
    StripParts(t);
    assert ([x] + t)[1..] == t;
  }

  /** Splitting on commas puts a leading non-comma character into the first piece. */
  lemma SplitOnCons(x: char, r: string)
    requires x != ','
    ensures SplitOn([x] + r, ',') == [[x] + SplitOn(r, ',')[0]] + SplitOn(r, ',')[1..]
  {
    assert ([x] + r)[1..] == r;
  }

  /** Leading whitespace contributes no token. */
  lemma ItemsSpace(x: char, r: string)
    requires IsSpace(x)
    ensures Items([x] + r) == Items(r)
  {
    var p := SplitOn(r, ',');
    calc {
      Items([x] + r);
      { SplitOnCons(x, r); }
      KeepStripped([[x] + p[0]] + p[1..]);
      { StripSpaceCons(x, p[0]); KeepStrippedHead([x] + p[0], p[0], p[1..]); }
      KeepStripped([p[0]] + p[1..]);
      { assert p == [p[0]] + p[1..]; }
      Items(r);
    }
  }

  /** Any other character starts a token. */
  lemma ItemsWord(x: char, r: string)
    requires !IsSpace(x) && x != ','
    ensures Items([x] + r) != []
  {
    var p := SplitOn(r, ',');
    assert ([x] + r)[1..] == r;
    assert SplitOn([x] + r, ',') == [[x] + p[0]] + p[1..];
    assert !AllSpace([x] + p[0]) by { assert ([x] + p[0])[0] == x; }
  }

  /** The remainder yields no token exactly when it holds only whitespace and commas. */
  lemma {:induction false} ItemsEmpty(rest: string)
    ensures Items(rest) == [] <==> OnlySeparators(rest)
  {
    if rest == [] {
      ItemsEmptyText();
    } else {
      var x, r := rest[0], rest[1..];
      assert rest == [x] + r;
      ItemsEmpty(r);
      assert OnlySeparators(rest) <==> (IsSpace(x) || x == ',') && OnlySeparators(r) by {
        if OnlySeparators(rest) {
          forall i | 0 <= i < |r| ensures IsSpace(r[i]) || r[i] == ',' { assert r[i] == rest[i + 1]; }
        }
        if (IsSpace(x) || x == ',') && OnlySeparators(r) {
          forall i | 0 <= i < |rest| ensures IsSpace(rest[i]) || rest[i] == ',' {
            if i > 0 { assert rest[i] == r[i - 1]; }
          }
        }
      }
      if x == ',' {
        ItemsComma(r);
      } else if IsSpace(x) {
        ItemsSpace(x, r);
      } else {
        ItemsWord(x, r);
      }
    }
  }

  // ---------------------------------------------------------------------------
  // Lines

  /** Everything from the first '#' is ignored: comment text never yields tokens. */
  lemma ParseComment(a: string, b: string)
    ensures ParseDirective(a + "#" + b) == ParseDirective(a)
  {
    BeforeFirstConcat(a, b, '#');
  }

  /** A keyword with no remainder, such as `showtools` or `showtools   \n`, has no tokens,
      whatever comment follows it. */
  lemma ParseKeywordOnly(lead: string, keyword: string, trail: string)
    requires AllSpace(lead) && AllSpace(trail)
    requires IsWord(keyword) && '#' !in keyword
    ensures ParseDirective(lead + keyword + trail) == []
  {
    var line := lead + keyword + trail;
    PrintableNotSpace('#');
    assert '#' !in line by {
      forall i | 0 <= i < |line| ensures line[i] != '#' {
        if i < |lead| { assert line[i] == lead[i]; assert IsSpace(lead[i]); }
        else if i < |lead| + |keyword| { assert line[i] == keyword[i - |lead|]; }
        else { assert line[i] == trail[i - |lead| - |keyword|]; assert IsSpace(trail[i - |lead| - |keyword|]); }
      }
    }
    BeforeFirstNone(line, '#');
    SplitOnceOf(lead, keyword, trail);
    LStripSpaces(trail, []);
    assert trail + [] == trail;
  }

  /** Without a '#', the whole line is code. */
  lemma ParseUncommented(line: string)
    requires '#' !in line
    ensures ParseDirective(line) == (var parts := SplitOnce(line); if |parts| < 2 then [] else Items(parts[1]))
  {
    BeforeFirstNone(line, '#');
  }

  /** A formatted line has no '#' when neither its name nor its tokens do. */
  lemma LineNoHash(name: string, items: seq<string>, tail: string)
    requires '#' !in name && AllSpace(tail)
    requires forall k :: 0 <= k < |items| ==> '#' !in items[k]
    ensures '#' !in name + " " + Join(items, ",") + tail
  {
    JoinNoChar(items, ",", '#');
    assert '#' !in tail by {
      forall i | 0 <= i < |tail| ensures tail[i] != '#' { assert IsSpace(tail[i]); }
    }
  }

  /** The keyword and the remainder of a formatted line with no tokens. */
  lemma SplitEmptyLine(name: string, tail: string)
    requires IsWord(name) && AllSpace(tail)
    ensures SplitOnce(name + " " + Join([], ",") + tail) == [name]
  {
    var after := " " + tail;
    Blanks();
    assert AllSpace(after) by {
      forall i | 0 <= i < |after| ensures IsSpace(after[i]) {
        if i > 0 { assert after[i] == tail[i - 1]; }
      }
    }
    assert LStrip(after) == [] by {
      LStripSpaces(after, []);
      assert after + [] == after;
    }
    calc {
      SplitOnce(name + " " + Join([], ",") + tail);
      { assert name + " " + Join([], ",") + tail == [] + name + after; }
      SplitOnce([] + name + after);
      { SplitOnceOf([], name, after); }
      [name];
    }
  }

  /** A formatted line as the keyword preceded by nothing and followed by the rest. */
  lemma Regroup(name: string, joined: string, tail: string)
    ensures name + " " + joined + tail == [] + name + (" " + (joined + tail))
  {
  }

  /** The keyword and the remainder of a formatted line with tokens. */
  lemma SplitFullLine(name: string, items: seq<string>, tail: string)
    requires IsWord(name) && |items| > 0 && IsItem(items[0])
    ensures SplitOnce(name + " " + Join(items, ",") + tail) == [name, Join(items, ",") + tail]
  {
    var rest := Join(items, ",") + tail;
    Blanks();
    assert LStrip(" " + rest) == rest by {
      assert rest[0] == items[0][0] by { assert items[0] <= Join(items, ","); }
      LStripSpaces(" ", rest);
    }
    calc {
      SplitOnce(name + " " + Join(items, ",") + tail);
      { Regroup(name, Join(items, ","), tail); }
      SplitOnce([] + name + (" " + rest));
      { SplitOnceOf([], name, " " + rest); }
      [name, rest];
    }
  }

  /** A keyword, one space, clean tokens joined by commas and trailing whitespace
      parse back to exactly those tokens. */
  lemma ParseLine(name: string, items: seq<string>, tail: string)
    requires IsWord(name) && '#' !in name
    requires forall k :: 0 <= k < |items| ==> IsItem(items[k]) && '#' !in items[k]
    requires AllSpace(tail)
    ensures ParseDirective(name + " " + Join(items, ",") + tail) == items
  {
    LineNoHash(name, items, tail);
    ParseUncommented(name + " " + Join(items, ",") + tail);
    if items == [] {
      SplitEmptyLine(name, tail);
    } else {
      SplitFullLine(name, items, tail);
      ItemsJoin(items, tail);
    }
  }

  /** parse_directive(format_directive(name, items)) == items for a name that is one
      word without '#' and tokens that are clean and without '#'. */
  lemma ParseFormat(name: string, items: seq<string>)
    requires IsWord(name) && '#' !in name
    requires forall k :: 0 <= k < |items| ==> IsItem(items[k]) && '#' !in items[k]
    ensures ParseDirective(FormatDirective(name, items)) == items
  {
    Blanks();
    ParseLine(name, items, "\n");
  }
}

/** The Python string built-ins the script relies on (strip, lstrip, split, join).
    Whitespace is the fixed set of characters str.isspace() accepts. */
module Text {

  /** Python's whitespace, the characters str.isspace() accepts. The table itself is
      SpaceTable; IsSpace reaches it through a short countdown so that the verifier
      expands the table only where a proof asks for it (SpaceChars). */
  predicate IsSpace(c: char) {
    SpaceAt(c, 3)
  }

  /** The countdown in front of the table. */
  predicate SpaceAt(c: char, depth: nat) {
    if depth > 0 then SpaceAt(c, depth - 1) else SpaceTable(c)
  }

  /** Tab, line feed, vertical tab, form feed, carriage return (9-13), the four
      information separators (28-31), space (32), next line (0x85), no-break space
      (0xA0), the ogham space mark (0x1680), the typographic spaces 0x2000-0x200A, the
      line and paragraph separators (0x2028, 0x2029), the narrow no-break space
      (0x202F), the mathematical space (0x205F) and the ideographic space (0x3000). */
  predicate SpaceTable(c: char) {
    if c <= ' ' then '\t' <= c <= '\r' || '\U{1C}' <= c
    else
      (c == '\U{85}' || c == '\U{A0}' || c == '\U{1680}' || '\U{2000}' <= c <= '\U{200A}'
       || c == '\U{2028}' || c == '\U{2029}' || c == '\U{202F}' || c == '\U{205F}' || c == '\U{3000}')
  }

  lemma {:induction false} SpaceAtTable(c: char, depth: nat)
    ensures SpaceAt(c, depth) == SpaceTable(c)
  {
    if depth > 0 {
      SpaceAtTable(c, depth - 1);
    }
  }

  /** IsSpace is the table. */
  lemma SpaceChars(c: char)
    ensures IsSpace(c) == SpaceTable(c)
  {
    SpaceAtTable(c, 3);
  }

  /** Printable ASCII characters other than the space are not whitespace. */
  lemma PrintableNotSpace(c: char)
    requires '!' <= c <= '~'
    ensures !IsSpace(c)
  {
    SpaceChars(c);
  }

  /** A text of printable ASCII characters has no whitespace. */
  lemma PrintableNoSpace(s: string)
    requires forall i :: 0 <= i < |s| ==> '!' <= s[i] <= '~'
    ensures NoSpace(s)
  {
    forall i | 0 <= i < |s| ensures !IsSpace(s[i]) {
      PrintableNotSpace(s[i]);
    }
  }

  /** The space and the newline are whitespace. */
  lemma Blanks()
    ensures IsSpace(' ') && IsSpace('\n')
    ensures AllSpace(" ") && AllSpace("\n")
  {
    SpaceChars(' ');
    SpaceChars('\n');
    assert " "[0] == ' ' && "\n"[0] == '\n';
  }

  /** A character that the regular expression `\b` counts as part of a word (ASCII). */
  predicate IsWordChar(c: char) {
    ('a' <= c <= 'z') || ('A' <= c <= 'Z') || ('0' <= c <= '9') || c == '_'
  }

  predicate AllSpace(s: string) {
    forall i :: 0 <= i < |s| ==> IsSpace(s[i])
  }

  predicate NoSpace(s: string) {
    forall i :: 0 <= i < |s| ==> !IsSpace(s[i])
  }

  /** No whitespace at either end (what str.strip() leaves). */
  predicate Trimmed(s: string) {
    s == [] || (!IsSpace(s[0]) && !IsSpace(s[|s| - 1]))
  }

  /** str.lstrip(): the suffix left after dropping every leading whitespace character. */
  function LStrip(s: string): (r: string)
    ensures |r| <= |s| && r == s[|s| - |r|..]
    ensures AllSpace(s[..|s| - |r|])
    ensures r == [] || !IsSpace(r[0])
  {
    if s != [] && IsSpace(s[0]) then
      var r := LStrip(s[1..]);
      assert s[..|s| - |r|] == [s[0]] + s[1..][..|s| - 1 - |r|];
      r
    else s
  }

  /** str.rstrip(): the prefix left after dropping every trailing whitespace character. */
  function RStrip(s: string): (r: string)
    ensures |r| <= |s| && r == s[..|r|]
    ensures AllSpace(s[|r|..])
    ensures r == [] || !IsSpace(r[|r| - 1])
  {
    if s != [] && IsSpace(s[|s| - 1]) then
      var r := RStrip(s[..|s| - 1]);
      assert s[|r|..] == s[..|s| - 1][|r|..] + [s[|s| - 1]];
      r
    else s
  }

  /** str.strip(). Its body, lstrip then rstrip, sits behind a short countdown
      (StripAt) so that the verifier unfolds it only where StripParts is called. */
  function Strip(s: string): (r: string)
    ensures Trimmed(r)
    ensures r == [] <==> AllSpace(s)
    ensures Trimmed(s) ==> r == s
  {
    StripAt(s, 2)
  }

  /** The countdown in front of the body of Strip. */
  function StripAt(s: string, depth: nat): (r: string)
    ensures Trimmed(r)
    ensures r == [] <==> AllSpace(s)
    ensures Trimmed(s) ==> r == s
  {
    if depth > 0 then StripAt(s, depth - 1) else
    var t := LStrip(s);
    var r := RStrip(t);
    assert r != [] ==> r[0] == t[0];
    assert t == [] ==> s[..|s|] == s;
    assert t != [] ==> !IsSpace(s[|s| - |t|]);
    assert Trimmed(s) && s != [] ==> t == s;
    r
  }

  /** str.lstrip(c) for a single character c. */
  function LStripChar(s: string, c: char): (r: string)
    ensures |r| <= |s| && r == s[|s| - |r|..]
    ensures forall i :: 0 <= i < |s| - |r| ==> s[i] == c
    ensures r == [] || r[0] != c
  {
    if s != [] && s[0] == c then
      var r := LStripChar(s[1..], c);
      assert forall i :: 1 <= i < |s| - |r| ==> s[i] == s[1..][i - 1];
      r
    else s
  }

  /** The longest prefix of s that holds no whitespace. */
  function TakeWord(s: string): (w: string)
    ensures |w| <= |s| && w == s[..|w|] && NoSpace(w)
    ensures |w| == |s| || IsSpace(s[|w|])
  {
    if s != [] && !IsSpace(s[0]) then [s[0]] + TakeWord(s[1..]) else []
  }

  /** A word of str.split(): non-empty and free of whitespace. */
  predicate IsWord(w: string) {
    w != [] && NoSpace(w)
  }

  /** The first word of a text that starts with a non-whitespace character. */
  lemma TakeWordIsWord(t: string)
    requires t != [] && !IsSpace(t[0])
    ensures IsWord(TakeWord(t)) && |TakeWord(t)| > 0
  {
  }

  /** A word in front of a list of words makes a list of words. */
  lemma ConsWord(w: string, ws: seq<string>)
    requires IsWord(w) && forall k :: 0 <= k < |ws| ==> IsWord(ws[k])
    ensures forall k :: 0 <= k < |[w] + ws| ==> IsWord(([w] + ws)[k])
  {
    forall k | 0 <= k < |[w] + ws| ensures IsWord(([w] + ws)[k]) {
      if k > 0 {
        assert ([w] + ws)[k] == ws[k - 1];
      }
    }
  }

  /** str.split() with no separator: the maximal runs of non-whitespace, left to right. */
  function Words(s: string): (r: seq<string>)
    ensures forall k :: 0 <= k < |r| ==> IsWord(r[k])
    decreases |s|
  {
    var t := LStrip(s);
    if t == [] then []
    else
      TakeWordIsWord(t);
      var w := TakeWord(t);
      var ws := Words(t[|w|..]);
      ConsWord(w, ws);
      [w] + ws
  }

  /** str.split(None, 1): the first word and, when anything but whitespace follows it,
      the rest of the text after the whitespace run that ends the word. */
  function SplitOnce(s: string): (r: seq<string>)
    ensures |r| <= 2
    ensures |r| >= 1 ==> IsWord(r[0])
    ensures |r| == 2 ==> r[1] != [] && !IsSpace(r[1][0])
  {
    var t := LStrip(s);
    if t == [] then []
    else
      var w := TakeWord(t);
      var rest := LStrip(t[|w|..]);
      if rest == [] then [w] else [w, rest]
  }

  /** The rest that str.split(None, 1) returns holds no character the text lacks. */
  lemma SplitOnceNoChar(s: string, c: char)
    requires c !in s
    ensures |SplitOnce(s)| == 2 ==> c !in SplitOnce(s)[1]
  {
    var t := LStrip(s);
    NotInSuffix(s, c, |s| - |t|);
    if t != [] {
      var after := t[|TakeWord(t)|..];
      NotInSuffix(t, c, |TakeWord(t)|);
      NotInSuffix(after, c, |after| - |LStrip(after)|);
    }
  }

  /** str.split(c): the pieces between the occurrences of c (always at least one). */
  function SplitOn(s: string, c: char): (r: seq<string>)
    ensures |r| >= 1
    ensures forall k :: 0 <= k < |r| ==> c !in r[k]
  {
    if s == [] then [[]]
    else
      var tail := SplitOn(s[1..], c);
      if s[0] == c then [[]] + tail else [[s[0]] + tail[0]] + tail[1..]
  }

  /** sep.join(xs) */
  function Join(xs: seq<string>, sep: string): (r: string)
    ensures |xs| > 0 ==> xs[0] <= r
  {
    if |xs| == 0 then []
    else if |xs| == 1 then xs[0]
    else xs[0] + sep + Join(xs[1..], sep)
  }

  /** s.split(c, 1)[0]: everything before the first c. */
  function BeforeFirst(s: string, c: char): (r: string)
    ensures r <= s && c !in r
    ensures |r| < |s| ==> s[|r|] == c
  {
    if s == [] || s[0] == c then [] else [s[0]] + BeforeFirst(s[1..], c)
  }

  /** ASCII case folding, as re.IGNORECASE applies it to ASCII letters. */
  function Lower(c: char): (d: char)
    ensures 'a' <= d <= 'z' ==> ('a' <= c <= 'z' || 'A' <= c <= 'Z')
  {
    if 'A' <= c <= 'Z' then (c as int + 32) as char else c
  }

  function LowerAll(s: string): (r: string)
    ensures |r| == |s| && forall i :: 0 <= i < |s| ==> r[i] == Lower(s[i])
  {
    seq(|s|, i requires 0 <= i < |s| => Lower(s[i]))
  }

  /** The upper-case partner of a lower-case ASCII letter. */
  function Capital(c: char): (d: char)
    requires 'a' <= c <= 'z'
    ensures 'A' <= d <= 'Z' && Lower(d) == c
  {
    (c as int - 32) as char
  }

  /** A lower-case letter k comes out of lower-casing exactly k and its capital. */
  lemma LowerIs(c: char, k: char)
    requires 'a' <= k <= 'z'
    ensures Lower(c) == k <==> c == k || c == Capital(k)
  {
  }

  /** IGNORECASE against a lower-case ASCII keyword: a text lower-cases to the keyword
      exactly when it has the keyword's length and each of its characters is the
      keyword's letter or that letter's capital. */
  lemma LowerAllIs(t: string, kw: string)
    requires forall i :: 0 <= i < |kw| ==> 'a' <= kw[i] <= 'z'
    ensures LowerAll(t) == kw <==>
      |t| == |kw| && forall i :: 0 <= i < |t| ==> t[i] == kw[i] || t[i] == Capital(kw[i])
  {
    if |t| == |kw| {
      forall i | 0 <= i < |t|
        ensures Lower(t[i]) == kw[i] <==> t[i] == kw[i] || t[i] == Capital(kw[i])
      {
        LowerIs(t[i], kw[i]);
      }
      if forall i :: 0 <= i < |t| ==> Lower(t[i]) == kw[i] {
        assert LowerAll(t) == kw;
      }
    }
  }

  // ---------------------------------------------------------------------------
  // Lemmas about the built-ins

  /** str.split() finds no word exactly when the text is all whitespace. */
  lemma WordsNone(s: string)
    ensures Words(s) == [] <==> AllSpace(s)
  {
    var t := LStrip(s);
    if t == [] {
      assert s[..|s| - |t|] == s;
    } else {
      assert Words(s) != [];
      assert s[|s| - |t|] == t[0];
    }
  }

  /** Leading whitespace in front of a word is exactly what lstrip() removes. */
  lemma {:induction false} LStripSpaces(sp: string, t: string)
    requires AllSpace(sp)
    requires t == [] || !IsSpace(t[0])
    ensures LStrip(sp + t) == t
  {
    if sp == [] {
      assert sp + t == t;
    } else {
      assert (sp + t)[1..] == sp[1..] + t;
      LStripSpaces(sp[1..], t);
    }
  }

  /** A word followed by whitespace (or nothing) is what TakeWord returns. */
  lemma {:induction false} TakeWordOf(w: string, t: string)
    requires NoSpace(w)
    requires t == [] || IsSpace(t[0])
    ensures TakeWord(w + t) == w
  {
    if w == [] {
      assert w + t == t;
    } else {
      assert (w + t)[1..] == w[1..] + t;
      TakeWordOf(w[1..], t);
      assert w == [w[0]] + w[1..];
    }
  }

  /** Appending to a string that does not start with whitespace appends to its lstrip(). */
  lemma {:induction false} LStripAppend(u: string, x: string)
    requires !AllSpace(u)
    ensures LStrip(u + x) == LStrip(u) + x
  {
    if IsSpace(u[0]) {
      assert (u + x)[1..] == u[1..] + x;
      assert !AllSpace(u[1..]) by {
        var i :| 0 <= i < |u| && !IsSpace(u[i]);
        assert u[1..][i - 1] == u[i];
      }
      LStripAppend(u[1..], x);
    }
  }

  /** str.split() skips leading whitespace. */
  lemma WordsLStrip(s: string)
    ensures Words(LStrip(s)) == Words(s)
  {
    var t := LStrip(s);
    LStripSpaces([], t);
    assert [] + t == t;
  }

  /** A word followed by whitespace (or by nothing) is the first word of str.split(). */
  lemma WordsCons(w: string, rest: string)
    requires IsWord(w)
    requires rest == [] || IsSpace(rest[0])
    ensures Words(w + rest) == [w] + Words(rest)
  {
    var s := w + rest;
    LStripSpaces([], s);
    assert [] + s == s;
    TakeWordOf(w, rest);
    assert s[|w|..] == rest;
  }

  /** The text after the first word of s, once leading whitespace is skipped. */
  function AfterFirstWord(s: string): string {
    var t := LStrip(s);
    t[|TakeWord(t)|..]
  }

  /** Text that is not all whitespace keeps something after lstrip(). */
  lemma LStripNonEmpty(u: string)
    requires !AllSpace(u)
    ensures LStrip(u) != []
  {
    var i :| 0 <= i < |u| && !IsSpace(u[i]);
    var cut := |u| - |LStrip(u)|;
    forall j | 0 <= j < cut ensures IsSpace(u[j]) {
      assert u[..cut][j] == u[j];
    }
    assert cut <= i;
  }

  /** The first word of str.split() and what follows it. */
  lemma WordsFirst(u: string)
    requires !AllSpace(u)
    ensures |AfterFirstWord(u)| < |u|
    ensures Words(u) == [TakeWord(LStrip(u))] + Words(AfterFirstWord(u))
  {
    LStripNonEmpty(u);
  }

  /** Whitespace appended after a word does not change the word. */
  lemma TakeWordAppend(t: string, sp: string)
    requires AllSpace(sp)
    ensures TakeWord(t + sp) == TakeWord(t)
    ensures (t + sp)[|TakeWord(t)|..] == t[|TakeWord(t)|..] + sp
  {
    var w := TakeWord(t);
    var rest := t[|w|..];
    assert t + sp == w + (rest + sp) by {
      assert t == t[..|w|] + t[|w|..];
    }
    if rest == [] {
      assert rest + sp == sp;
    } else {
      assert (rest + sp)[0] == rest[0];
    }
    TakeWordOf(w, rest + sp);
  }

  /** Whitespace appended after the text does not change the first word. */
  lemma WordsFirstAppend(u: string, sp: string)
    requires !AllSpace(u)
    requires AllSpace(sp)
    ensures Words(u + sp) == [TakeWord(LStrip(u))] + Words(AfterFirstWord(u) + sp)
  {
    LStripNonEmpty(u);
    LStripAppend(u, sp);
    TakeWordAppend(LStrip(u), sp);
  }

  lemma AllSpaceAppend(u: string, sp: string)
    requires AllSpace(u) && AllSpace(sp)
    ensures AllSpace(u + sp)
  {
    forall i | 0 <= i < |u + sp| ensures IsSpace((u + sp)[i]) {
      if i < |u| { assert (u + sp)[i] == u[i]; } else { assert (u + sp)[i] == sp[i - |u|]; }
    }
  }

  /** Trailing whitespace never adds a word to str.split(). */
  lemma {:induction false} WordsTrailing(u: string, sp: string)
    requires AllSpace(sp)
    ensures Words(u + sp) == Words(u)
    decreases |u|
  {
    if AllSpace(u) {
      AllSpaceAppend(u, sp);
      WordsNone(u);
      WordsNone(u + sp);
    } else {
      WordsFirst(u);
      WordsFirstAppend(u, sp);
      WordsTrailing(AfterFirstWord(u), sp);
    }
  }

  /** str.split() gives the same words before and after str.strip(). */
  lemma WordsStrip(s: string)
    ensures Words(Strip(s)) == Words(s)
  {
    StripParts(s);
    RStripRest(LStrip(s));
    WordsTrailing(RStrip(LStrip(s)), LStrip(s)[|RStrip(LStrip(s))|..]);
    WordsLStrip(s);
  }

  /** rstrip() leaves a prefix that the removed whitespace completes. */
  lemma RStripRest(t: string)
    ensures RStrip(t) + t[|RStrip(t)|..] == t
    ensures AllSpace(t[|RStrip(t)|..])
  {
    assert t[..|RStrip(t)|] + t[|RStrip(t)|..] == t;
  }

  /** strip() is rstrip() after lstrip(). */
  lemma StripParts(s: string)
    ensures Strip(s) == RStrip(LStrip(s))
  {
    StripAtParts(s, 2);
  }

  lemma {:induction false} StripAtParts(s: string, depth: nat)
    ensures StripAt(s, depth) == RStrip(LStrip(s))
  {
    if depth > 0 {
      StripAtParts(s, depth - 1);
    }
  }

  /** One space in front of a word is skipped by str.split(). */
  lemma WordsSpace(rest: string)
    requires rest == [] || !IsSpace(rest[0])
    ensures Words(" " + rest) == Words(rest)
  {
    Blanks();
    LStripSpaces(" ", rest);
    WordsLStrip(" " + rest);
  }

  /** Two pieces joined. */
  lemma JoinTwo(a: string, b: string, sep: string)
    ensures Join([a, b], sep) == a + sep + b
  {
    assert [a, b][1..] == [b];
  }

  /** Three pieces joined. */
  lemma JoinThree(a: string, b: string, c: string, sep: string)
    ensures Join([a, b, c], sep) == a + sep + b + sep + c
  {
    assert [a, b, c][1..] == [b, c];
    JoinTwo(b, c, sep);
  }

  lemma JoinCons(xs: seq<string>, sep: string)
    requires |xs| > 1
    ensures Join(xs, sep) == xs[0] + (sep + Join(xs[1..], sep))
  {
  }

  /** Joining two non-empty lists one after the other puts a separator between
      their joins. */
  lemma {:induction false} JoinConcat(xs: seq<string>, ys: seq<string>, sep: string)
    requires xs != [] && ys != []
    ensures Join(xs + ys, sep) == Join(xs, sep) + sep + Join(ys, sep)
  {
    if |xs| == 1 {
      assert (xs + ys)[1..] == ys;
    } else {
      assert (xs + ys)[1..] == xs[1..] + ys;
      JoinConcat(xs[1..], ys, sep);
    }
  }

  lemma WordsOne(w: string)
    requires IsWord(w)
    ensures Words(w) == [w]
  {
    WordsCons(w, []);
    assert w + [] == w;
    WordsNone([]);
  }

  lemma WordsJoinStep(ws: seq<string>)
    requires |ws| > 1 && IsWord(ws[0]) && IsWord(ws[1])
    ensures Words(Join(ws, " ")) == [ws[0]] + Words(Join(ws[1..], " "))
  {
    var w, tail := ws[0], ws[1..];
    var rest := Join(tail, " ");
    Blanks();
    JoinCons(ws, " ");
    WordsCons(w, " " + rest);
    assert tail[0] <= rest;
    assert !IsSpace(rest[0]) by { assert rest[0] == tail[0][0]; }
    WordsSpace(rest);
  }

  /** Joining clean words with one space and splitting on whitespace gives the words back. */
  lemma {:induction false} WordsJoin(ws: seq<string>)
    requires forall k :: 0 <= k < |ws| ==> IsWord(ws[k])
    ensures Words(Join(ws, " ")) == ws
  {
    if |ws| == 0 {
      WordsNone([]);
    } else if |ws| == 1 {
      WordsOne(ws[0]);
    } else {
      WordsJoin(ws[1..]);
      WordsJoinStep(ws);
    }
  }

  /** Splitting on c at an occurrence of c splits each side separately. */
  lemma {:induction false} SplitOnConcat(a: string, b: string, c: char)
    ensures SplitOn(a + [c] + b, c) == SplitOn(a, c) + SplitOn(b, c)
  {
    if a == [] {
      assert a + [c] + b == [c] + b;
      assert ([c] + b)[1..] == b;
    } else {
      assert (a + [c] + b)[1..] == a[1..] + [c] + b;
      SplitOnConcat(a[1..], b, c);
    }
  }

  /** A string without c is a single piece. */
  lemma {:induction false} SplitOnNone(s: string, c: char)
    requires c !in s
    ensures SplitOn(s, c) == [s]
  {
    if s != [] {
      assert c !in s[1..];
      SplitOnNone(s[1..], c);
      assert s == [s[0]] + s[1..];
    }
  }

  /** Splitting on c ignores everything from the first c for split(c, 1)[0]. */
  lemma {:induction false} BeforeFirstConcat(a: string, b: string, c: char)
    ensures BeforeFirst(a + [c] + b, c) == BeforeFirst(a, c)
  {
    if a == [] {
      assert a + [c] + b == [c] + b;
    } else {
      assert (a + [c] + b)[1..] == a[1..] + [c] + b;
      BeforeFirstConcat(a[1..], b, c);
    }
  }

  /** A string without c comes back whole. */
  lemma {:induction false} BeforeFirstNone(s: string, c: char)
    requires c !in s
    ensures BeforeFirst(s, c) == s
  {
    if s != [] {
      assert s[0] != c && c !in s[1..];
      BeforeFirstNone(s[1..], c);
      assert s == [s[0]] + s[1..];
    }
  }

  /** A trimmed non-empty string followed by whitespace strips back to itself. */
  lemma {:induction false} StripTrailing(x: string, sp: string)
    requires x != [] && Trimmed(x)
    requires AllSpace(sp)
    ensures Strip(x + sp) == x
  {
    StripParts(x + sp);
    LStripSpaces([], x + sp);
    assert [] + (x + sp) == x + sp;
    RStripPrefix(x, sp);
  }

  lemma {:induction false} RStripPrefix(x: string, sp: string)
    requires x != [] && !IsSpace(x[|x| - 1])
    requires AllSpace(sp)
    ensures RStrip(x + sp) == x
    decreases |sp|
  {
    if sp == [] {
      assert x + sp == x;
    } else {
      var s := x + sp;
      assert s[..|s| - 1] == x + sp[..|sp| - 1];
      RStripPrefix(x, sp[..|sp| - 1]);
    }
  }

  /** A character absent from a string is absent from every suffix of it. */
  lemma NotInSuffix(s: string, c: char, d: nat)
    requires c !in s && d <= |s|
    ensures c !in s[d..]
  {
    forall i | 0 <= i < |s[d..]| ensures s[d..][i] != c {
      assert s[d..][i] == s[d + i];
    }
  }

  /** strip() only removes characters. */
  lemma StripNoChar(s: string, c: char)
    requires c !in s
    ensures c !in Strip(s)
  {
    StripParts(s);
    var t := LStrip(s);
    NotInSuffix(s, c, |s| - |t|);
    var r := RStrip(t);
    forall i | 0 <= i < |r| ensures r[i] != c {
      assert r[i] == t[i];
    }
  }

  /** The pieces of str.split(c) only hold characters of the text. */
  lemma {:induction false} SplitOnNoChar(s: string, c: char, d: char)
    requires d !in s
    ensures forall k :: 0 <= k < |SplitOn(s, c)| ==> d !in SplitOn(s, c)[k]
  {
    if s != [] {
      assert d !in s[1..];
      SplitOnNoChar(s[1..], c, d);
    }
  }

  /** A join holds only the characters of its elements and of the separator. */
  lemma {:induction false} JoinNoChar(xs: seq<string>, sep: string, c: char)
    requires c !in sep
    requires forall k :: 0 <= k < |xs| ==> c !in xs[k]
    ensures c !in Join(xs, sep)
  {
    if |xs| > 1 {
      JoinNoChar(xs[1..], sep, c);
      JoinCons(xs, sep);
    }
  }

  /** str.split(None, 1) on leading whitespace, a word, and what follows the word. */
  lemma SplitOnceOf(lead: string, w: string, rest: string)
    requires AllSpace(lead) && IsWord(w)
    requires rest == [] || IsSpace(rest[0])
    ensures SplitOnce(lead + w + rest) == if LStrip(rest) == [] then [w] else [w, LStrip(rest)]
  {
    var s := lead + w + rest;
    assert s == lead + (w + rest);
    LStripSpaces(lead, w + rest);
    TakeWordOf(w, rest);
    assert (w + rest)[|w|..] == rest;
  }
}

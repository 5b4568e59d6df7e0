/** process_file: every line whose text, after a run of '#' and then of whitespace,
    starts with the keyword `scanfor` or `showtools` (any letter case, followed by a
    word boundary) and that has tokens is rewritten in the order the next answer
    names; all other lines are copied unchanged. The lines read from the file and
    the answers typed at the prompts are parameters. */
module Rewriter {
  import opened Wrappers
  import opened Text
  import opened Directive
  import opened Reorderer
  import opened Pass

  const ScanFor: string := "scanfor"
  const ShowTools: string := "showtools"

  /** The first n characters of line are a run of comment marks followed by a run
      of whitespace: each is one or the other, and no whitespace comes before a
      comment mark. */
  predicate HashesThenSpaces(line: string, n: int) {
    0 <= n <= |line| &&
    (forall i :: 0 <= i < n ==> line[i] == '#' || IsSpace(line[i])) &&
    (forall i, j :: 0 <= i < j < n && line[j] == '#' ==> line[i] == '#')
  }

  /** line.lstrip('#').lstrip(): the text the keyword is looked for in. */
  function DetectionText(line: string): (r: string)
    ensures |r| <= |line|
    ensures r == [] || !IsSpace(r[0])
  {
    LStrip(LStripChar(line, '#'))
  }

  /** The detection text is the line without a leading run of comment marks and
      then a run of whitespace, and it does not start with whitespace. */
  lemma DetectionSuffix(line: string)
    ensures |DetectionText(line)| <= |line|
    ensures DetectionText(line) == line[|line| - |DetectionText(line)|..]
    ensures HashesThenSpaces(line, |line| - |DetectionText(line)|)
    ensures DetectionText(line) == [] || !IsSpace(DetectionText(line)[0])
  {
    StrippedPrefix(line, LStripChar(line, '#'), DetectionText(line));
  }

  /** Dropping leading '#' and then leading whitespace drops only those. */
  lemma StrippedPrefix(line: string, h: string, s: string)
    requires |h| <= |line| && h == line[|line| - |h|..]
    requires forall i :: 0 <= i < |line| - |h| ==> line[i] == '#'
    requires |s| <= |h| && s == h[|h| - |s|..] && AllSpace(h[..|h| - |s|])
    ensures |s| <= |line| && s == line[|line| - |s|..]
    ensures HashesThenSpaces(line, |line| - |s|)
  {
    assert h[|h| - |s|..] == line[|line| - |s|..];
    var n := |line| - |s|;
    forall i | 0 <= i < n ensures line[i] == '#' || IsSpace(line[i]) {
      if i >= |line| - |h| {
        assert line[i] == h[..|h| - |s|][i - (|line| - |h|)];
      }
    }
    PrintableNotSpace('#');
    forall i, j | 0 <= i < j < n && line[j] == '#' ensures line[i] == '#' {
    }
  }

  /** The keyword kw (lower case) starts s, in any letter case, and is not followed
      by a word character. */
  predicate KeywordAt(s: string, kw: string) {
    |kw| <= |s| && LowerAll(s[..|kw|]) == kw && (|s| == |kw| || !IsWordChar(s[|kw|]))
  }

  /** The keyword kw (lower case) spelled at the start of s with each letter in
      either case. */
  predicate SpelledAt(s: string, kw: string)
    requires forall i :: 0 <= i < |kw| ==> 'a' <= kw[i] <= 'z'
  {
    |kw| <= |s| && forall i :: 0 <= i < |kw| ==> s[i] == kw[i] || s[i] == Capital(kw[i])
  }

  /** The match ignores letter case: the keyword is found exactly when each of its
      letters starts the text in lower or upper case and no word character follows. */
  lemma KeywordSpelled(s: string, kw: string)
    requires forall i :: 0 <= i < |kw| ==> 'a' <= kw[i] <= 'z'
    ensures KeywordAt(s, kw) <==> SpelledAt(s, kw) && (|s| == |kw| || !IsWordChar(s[|kw|]))
  {
    if |kw| <= |s| {
      LowerAllIs(s[..|kw|], kw);
      forall i | 0 <= i < |kw| ensures s[..|kw|][i] == s[i] {
      }
    }
  }

  /** ^(scanfor|showtools)\b with IGNORECASE: the keyword as written in s, if any. */
  function MatchDirective(s: string): (r: Option<string>)
    ensures r.Some? <==> KeywordAt(s, ScanFor) || KeywordAt(s, ShowTools)
    ensures r.Some? ==> r.value <= s && (LowerAll(r.value) == ScanFor || LowerAll(r.value) == ShowTools)
    ensures r.Some? ==> KeywordAt(s, LowerAll(r.value))
  {
    if KeywordAt(s, ScanFor) then Some(s[..|ScanFor|])
    else if KeywordAt(s, ShowTools) then Some(s[..|ShowTools|])
    else None
  }

  /** The tokens of a line, read from its detection text. */
  function Tokens(line: string): seq<string> {
    ParseDirective(DetectionText(line))
  }

  /** The keyword of a directive line, as written. */
  function Keyword(line: string): string
    requires MatchDirective(DetectionText(line)).Some?
  {
    MatchDirective(DetectionText(line)).value
  }

  /** A line the loop stops at to ask for an answer: a directive with tokens. */
  predicate NeedsAnswer(line: string) {
    MatchDirective(DetectionText(line)).Some? && Tokens(line) != []
  }

  /** The loop body for one line, given the answer it would be asked for. */
  function RewriteLine(line: string, response: string): (r: string)
    ensures !NeedsAnswer(line) ==> r == line
  {
    var s := DetectionText(line);
    match MatchDirective(s)
    case None => line
    case Some(name) =>
      var items := ParseDirective(s);
      if items == [] then line else FormatDirective(name, Reorder(items, response))
  }

  /** How many prompts the lines cause. */
  function Prompts(lines: seq<string>): (n: nat)
    ensures n <= |lines|
  {
    Asked(lines, NeedsAnswer)
  }

  /** The new contents of the file: each prompting line rewritten with its answer,
      the k-th prompting line with the k-th answer. */
  function Rewritten(lines: seq<string>, responses: seq<string>): (r: seq<string>)
    requires Prompts(lines) <= |responses|
    ensures |r| == |lines|
  {
    RewriteAll(lines, responses, NeedsAnswer, RewriteLine)
  }

  /** process_file's loop. None: the answers ran out at a prompt (input() raises
      EOFError and nothing is written back). */
  method ProcessLines(lines: seq<string>, responses: seq<string>) returns (r: Option<seq<string>>)
    ensures r.None? <==> |responses| < Prompts(lines)
    ensures r.Some? ==> r.value == Rewritten(lines, responses)
  {
    var updated: seq<string> := [];
    var k := 0;
    for i := 0 to |lines|
      invariant k == Prompts(lines[..i]) && k <= |responses|
      invariant updated == Rewritten(lines[..i], responses)
    {
      var line := lines[i];
      var s := DetectionText(line);
      var found := MatchDirective(s);
      var asked := false;
      if found.Some? {
        var items := ParseDirective(s);
        if items != [] {
          if k == |responses| {
            AskedLine(lines[i], [], s, found.value, items);
            AskedBeyond(lines, NeedsAnswer, i);
            return None;
          }
          items := Reorder(items, responses[k]);
          line := FormatDirective(found.value, items);
          AskedLine(lines[i], responses[k], s, found.value, ParseDirective(s));
          asked := true;
        }
      }
      if !asked {
        SkippedLine(lines[i], s);
      }
      AskedStep(lines, responses, NeedsAnswer, RewriteLine, i, k, line);
      if asked {
        k := k + 1;
      }
      updated := updated + [line];
    }
    assert lines[..|lines|] == lines;
    return Some(updated);
  }

  /** The loop body on a directive with tokens computes RewriteLine. */
  lemma AskedLine(x: string, response: string, s: string, name: string, items: seq<string>)
    requires s == DetectionText(x) && MatchDirective(s) == Some(name)
    requires items == ParseDirective(s) && items != []
    ensures NeedsAnswer(x)
    ensures RewriteLine(x, response) == FormatDirective(name, Reorder(items, response))
  {
  }

  /** The loop body on any other line leaves it alone. */
  lemma SkippedLine(x: string, s: string)
    requires s == DetectionText(x)
    requires MatchDirective(s).None? || ParseDirective(s) == []
    ensures !NeedsAnswer(x)
  {
  }

  // ---------------------------------------------------------------------------
  // The rewritten file, line by line

  /** Rewriting keeps the number and order of the lines: line i of the result comes
      from line i of the input. A line that prompts is rewritten with the answer given
      at its own prompt, the one after the answers of the lines before it; every
      other line is copied as it was. */
  lemma RewrittenAt(lines: seq<string>, responses: seq<string>, i: nat)
    requires Prompts(lines) <= |responses| && i < |lines|
    ensures NeedsAnswer(lines[i]) ==> Prompts(lines[..i]) < |responses|
    ensures Rewritten(lines, responses)[i]
      == if NeedsAnswer(lines[i]) then RewriteLine(lines[i], responses[Prompts(lines[..i])]) else lines[i]
  {
    RewriteAllAt(lines, responses, NeedsAnswer, RewriteLine, i);
  }

  /** Lines that are not directives with tokens come out exactly as they went in. */
  lemma UntouchedLines(lines: seq<string>, responses: seq<string>, i: nat)
    requires Prompts(lines) <= |responses| && i < |lines|
    requires !NeedsAnswer(lines[i])
    ensures Rewritten(lines, responses)[i] == lines[i]
  {
    RewriteAllAt(lines, responses, NeedsAnswer, RewriteLine, i);
  }

  /** A file without prompting lines is written back unchanged. */
  lemma NothingToAsk(lines: seq<string>, responses: seq<string>)
    requires Prompts(lines) == 0
    ensures Rewritten(lines, responses) == lines
  {
    NoneAsked(lines, responses, NeedsAnswer, RewriteLine);
  }

  // ---------------------------------------------------------------------------
  // One rewritten line

  /** A keyword as matched: ASCII letters only, so one word with no '#'. */
  lemma KeywordName(s: string, name: string)
    requires MatchDirective(s) == Some(name)
    ensures IsWord(name) && '#' !in name
    ensures forall i :: 0 <= i < |name| ==> IsWordChar(name[i])
  {
    var low := LowerAll(name);
    forall i | 0 <= i < |name| ensures ('a' <= name[i] <= 'z' || 'A' <= name[i] <= 'Z') && !IsSpace(name[i]) {
      assert low[i] == Lower(name[i]);
      assert 'a' <= low[i] <= 'z';
      PrintableNotSpace(name[i]);
    }
  }

  /** Every token of a reordered list is one of the original tokens. */
  lemma ReorderedTokens(items: seq<string>, response: string)
    requires forall k :: 0 <= k < |items| ==> IsItem(items[k]) && '#' !in items[k]
    ensures forall k :: 0 <= k < |Reorder(items, response)| ==>
      IsItem(Reorder(items, response)[k]) && '#' !in Reorder(items, response)[k]
  {
    var r := Reorder(items, response);
    forall k | 0 <= k < |r| ensures IsItem(r[k]) && '#' !in r[k] {
      assert r[k] in multiset(items);
      var j :| 0 <= j < |items| && items[j] == r[k];
    }
  }

  /** A rewritten directive line is the keyword as written, one space, the reordered
      tokens joined by commas and a newline, whatever the line looked like before:
      leading '#' and whitespace (a commented-out directive), the spacing around the
      tokens and the trailing comment are gone. */
  lemma RewriteDirective(line: string, response: string)
    requires NeedsAnswer(line)
    ensures RewriteLine(line, response) == FormatDirective(Keyword(line), Reorder(Tokens(line), response))
    ensures '#' !in RewriteLine(line, response)
  {
    var s, name, tokens := DetectionText(line), Keyword(line), Tokens(line);
    AskedLine(line, response, s, name, tokens);
    ReorderedTokens(tokens, response);
    FormattedNoHash(s, name, Reorder(tokens, response));
  }

  /** The formatted line for a matched keyword and tokens without '#' has no '#'. */
  lemma FormattedNoHash(s: string, name: string, tokens: seq<string>)
    requires MatchDirective(s) == Some(name)
    requires forall k :: 0 <= k < |tokens| ==> '#' !in tokens[k]
    ensures '#' !in FormatDirective(name, tokens)
  {
    KeywordName(s, name);
    Blanks();
    LineNoHash(name, tokens, "\n");
  }

  /** A rewritten directive line reads back as the same keyword with exactly the
      reordered tokens, which are the original tokens rearranged. */
  lemma RewriteReadsBack(line: string, response: string)
    requires NeedsAnswer(line)
    ensures DetectionText(RewriteLine(line, response)) == RewriteLine(line, response)
    ensures MatchDirective(RewriteLine(line, response)) == MatchDirective(DetectionText(line))
    ensures Tokens(RewriteLine(line, response)) == Reorder(Tokens(line), response)
    ensures multiset(Tokens(RewriteLine(line, response))) == multiset(Tokens(line))
  {
    var s, name, tokens := DetectionText(line), Keyword(line), Tokens(line);
    AskedLine(line, response, s, name, tokens);
    ReorderedTokens(tokens, response);
    FormattedReadsBack(s, name, Reorder(tokens, response));
  }

  /** The formatted line for a matched keyword and clean tokens is detected with the
      same keyword and parses back to the tokens. */
  lemma FormattedReadsBack(s: string, name: string, tokens: seq<string>)
    requires MatchDirective(s) == Some(name)
    requires forall k :: 0 <= k < |tokens| ==> IsItem(tokens[k]) && '#' !in tokens[k]
    ensures DetectionText(FormatDirective(name, tokens)) == FormatDirective(name, tokens)
    ensures MatchDirective(FormatDirective(name, tokens)) == Some(name)
    ensures ParseDirective(FormatDirective(name, tokens)) == tokens
  {
    KeywordName(s, name);
    FormattedDetection(name, tokens);
    FormattedMatch(s, name, tokens);
    ParseFormat(name, tokens);
  }

  /** A formatted line starts with a letter, so nothing is stripped in front of it. */
  lemma FormattedDetection(name: string, tokens: seq<string>)
    requires IsWord(name) && '#' !in name
    ensures DetectionText(FormatDirective(name, tokens)) == FormatDirective(name, tokens)
  {
    var out := FormatDirective(name, tokens);
    assert out[0] == name[0];
  }

  /** The keyword of a formatted line is followed by a space, a word boundary. */
  lemma FormattedMatch(s: string, name: string, tokens: seq<string>)
    requires MatchDirective(s) == Some(name)
    ensures MatchDirective(FormatDirective(name, tokens)) == Some(name)
  {
    var out := FormatDirective(name, tokens);
    var low := LowerAll(name);
    assert out[..|name|] == name;
    assert !IsWordChar(out[|name|]);
    assert KeywordAt(out, low);
  }

  /** A directive already in the formatted shape, answered with Enter, is written
      back unchanged. */
  lemma FormattedKept(s: string, name: string, tokens: seq<string>)
    requires MatchDirective(s) == Some(name)
    requires tokens != []
    requires forall k :: 0 <= k < |tokens| ==> IsItem(tokens[k]) && '#' !in tokens[k]
    ensures NeedsAnswer(FormatDirective(name, tokens))
    ensures RewriteLine(FormatDirective(name, tokens), "") == FormatDirective(name, tokens)
  {
    FormattedReadsBack(s, name, tokens);
    ReorderKeeps(tokens, "");
  }

  /** Rewriting is stable: pressing Enter at the prompt for a line the tool wrote
      leaves it as it is. */
  lemma RewriteStable(line: string, response: string)
    requires NeedsAnswer(line)
    ensures NeedsAnswer(RewriteLine(line, response))
    ensures RewriteLine(RewriteLine(line, response), "") == RewriteLine(line, response)
  {
    RewriteDirective(line, response);
    RewriteReadsBack(line, response);
    var s := DetectionText(line);
    var tokens := Reorder(ParseDirective(s), response);
    assert |tokens| == |ParseDirective(s)|;
    ReorderKeeps(tokens, "");
  }

  /** Pressing Enter still normalises the line: commented-out directives are
      uncommented and the trailing comment is dropped. */
  lemma KeepNormalises(line: string)
    requires NeedsAnswer(line)
    ensures RewriteLine(line, "") == FormatDirective(Keyword(line), Tokens(line))
  {
    var s := DetectionText(line);
    ReorderKeeps(ParseDirective(s), "");
  }
}

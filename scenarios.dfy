/** Concrete lines of a rEFInd configuration file and what the tool makes of them.
    Each literal fact has a lemma of its own, which keeps every proof small enough
    for the verifier; the scenarios only combine them. */
module Scenarios {
  import opened Wrappers
  import opened Text
  import opened Numbers
  import opened Sorting
  import opened Directive
  import opened Reorderer
  import opened Rewriter
  import opened Pass

  const Example: string := "scanfor internal,hdbios,biosexternal\n"
  const Reordered: string := "scanfor hdbios,internal,biosexternal\n"
  const Commented: string := "# scanfor a, b # note\n"
  const Mixed: string := "#ShowTools a,b\n"
  const Indented: string := " #scanfor a,b\n"
  const Glued: string := "scanfor,a b\n"
  /** `showtools shell,memtest,gdisk,apple_recovery,windows_recovery,mok_tool,about,reboot,exit`,
      written in three parts so that its proofs compare short strings. */
  const Tools: string :=
    "showtools " + "shell,memtest,gdisk" + "," + "apple_recovery,windows_recovery,mok_tool" + "," + "about,reboot,exit" + "\n"
  const ToolNames: seq<string> :=
    ["shell", "memtest", "gdisk", "apple_recovery", "windows_recovery", "mok_tool", "about", "reboot", "exit"]

  /** A non-empty run of printable characters other than ',' and '#' is a clean
      token and a word. */
  lemma Clean(w: string)
    requires w != [] && forall i :: 0 <= i < |w| ==> '!' <= w[i] <= '~' && w[i] != ',' && w[i] != '#'
    ensures IsWord(w) && IsItem(w) && '#' !in w
  {
    PrintableNoSpace(w);
  }

  /** A line that starts with a letter is its own detection text. */
  lemma PlainDetection(line: string)
    requires line != [] && 'a' <= line[0] <= 'z'
    ensures DetectionText(line) == line
  {
    PrintableNotSpace(line[0]);
  }

  // ---------------------------------------------------------------------------
  // A trailing comment

  lemma CommentSplit()
    ensures "scanfor manual,internal # comment" == "scanfor manual,internal " + "#" + " comment"
  {
  }

  lemma CommentCode()
    ensures "scanfor manual,internal " == "scanfor" + " " + Join(["manual", "internal"], ",") + " "
  {
  }

  /** Two clean tokens make a clean token list. */
  lemma TwoTokens(x: string, y: string)
    requires IsItem(x) && '#' !in x && IsItem(y) && '#' !in y
    ensures forall k :: 0 <= k < |[x, y]| ==> IsItem([x, y][k]) && '#' !in [x, y][k]
  {
  }

  lemma CommentTokens()
    ensures IsItem("manual") && '#' !in "manual" && IsItem("internal") && '#' !in "internal"
  {
    Clean("manual");
    Clean("internal");
  }

  /** `scanfor manual,internal # comment` has the tokens manual and internal. */
  lemma CommentScenario()
    ensures ParseDirective("scanfor manual,internal # comment") == ["manual", "internal"]
  {
    CommentSplit();
    ParseComment("scanfor manual,internal ", " comment");
    CommentCode();
    CommentTokens();
    TwoTokens("manual", "internal");
    ScanforWord();
    Blanks();
    ParseLine("scanfor", ["manual", "internal"], " ");
  }

  // ---------------------------------------------------------------------------
  // A keyword without tokens

  lemma BareParts()
    ensures "showtools" == [] + "showtools" + []
    ensures IsWord("showtools") && '#' !in "showtools"
  {
    Clean("showtools");
  }

  /** `showtools` on its own has no tokens, is not asked about and is left as it is. */
  lemma BareKeywordScenario(response: string)
    ensures ParseDirective("showtools") == []
    ensures !NeedsAnswer("showtools")
    ensures RewriteLine("showtools", response) == "showtools"
  {
    BareParts();
    ParseKeywordOnly([], "showtools", []);
    PlainDetection("showtools");
  }

  // ---------------------------------------------------------------------------
  // The end-to-end example

  lemma ExampleItems()
    ensures Join(["internal", "hdbios", "biosexternal"], ",") == "internal,hdbios,biosexternal"
    ensures forall k :: 0 <= k < 3 ==>
      IsItem(["internal", "hdbios", "biosexternal"][k]) && '#' !in ["internal", "hdbios", "biosexternal"][k]
  {
    JoinThree("internal", "hdbios", "biosexternal", ",");
    ExampleTokens();
    ThreeTokens("internal", "hdbios", "biosexternal");
  }

  lemma ExampleTokens()
    ensures IsItem("internal") && '#' !in "internal"
    ensures IsItem("hdbios") && '#' !in "hdbios"
    ensures IsItem("biosexternal") && '#' !in "biosexternal"
  {
    Clean("internal");
    Clean("hdbios");
    Clean("biosexternal");
  }

  /** Three clean tokens make a clean token list. */
  lemma ThreeTokens(x: string, y: string, z: string)
    requires IsItem(x) && '#' !in x && IsItem(y) && '#' !in y && IsItem(z) && '#' !in z
    ensures forall k :: 0 <= k < 3 ==> IsItem([x, y, z][k]) && '#' !in [x, y, z][k]
  {
  }

  lemma ExampleFormat()
    ensures FormatDirective("scanfor", ["internal", "hdbios", "biosexternal"]) == Example
  {
    ExampleItems();
    assert FormatDirective("scanfor", ["internal", "hdbios", "biosexternal"])
      == "scanfor" + " " + "internal,hdbios,biosexternal" + "\n";
    ExampleText();
  }

  lemma ExampleText()
    ensures "scanfor" + " " + "internal,hdbios,biosexternal" + "\n" == Example
  {
  }

  lemma ExampleKeyword()
    ensures MatchDirective(Example) == Some("scanfor")
  {
    assert Example[..7] == "scanfor";
    assert LowerAll("scanfor") == "scanfor";
  }

  lemma ScanforWord()
    ensures IsWord("scanfor") && '#' !in "scanfor"
  {
    Clean("scanfor");
  }

  /** The example line is detected as `scanfor` with three tokens. */
  lemma ExampleLine()
    ensures DetectionText(Example) == Example
    ensures MatchDirective(Example) == Some("scanfor")
    ensures ParseDirective(Example) == ["internal", "hdbios", "biosexternal"]
    ensures NeedsAnswer(Example)
  {
    PlainDetection(Example);
    ExampleKeyword();
    ExampleItems();
    ScanforWord();
    ParseFormat("scanfor", ["internal", "hdbios", "biosexternal"]);
    ExampleFormat();
  }

  lemma ExampleNumerals()
    ensures Numerals([1, 0, 2]) == ["2", "1", "3"]
  {
    assert Decimal(2) == "2" && Decimal(1) == "1" && Decimal(3) == "3";
  }

  lemma ExampleJoin()
    ensures Join(["2", "1", "3"], " ") == "2 1 3"
  {
  }

  lemma ExamplePermutation()
    ensures IsPermutation([1, 0, 2], 3)
  {
  }

  /** The answer `2 1 3` names the positions 1, 0, 2. */
  lemma ExampleAnswer()
    ensures Render([1, 0, 2]) == "2 1 3"
  {
    ExampleNumerals();
    ExampleJoin();
  }

  lemma ExampleResult()
    ensures Pick(["internal", "hdbios", "biosexternal"], [1, 0, 2]) == ["hdbios", "internal", "biosexternal"]
  {
  }

  lemma ReorderedFormat()
    ensures FormatDirective("scanfor", ["hdbios", "internal", "biosexternal"]) == Reordered
  {
    ReorderedJoin();
    assert FormatDirective("scanfor", ["hdbios", "internal", "biosexternal"])
      == "scanfor" + " " + "hdbios,internal,biosexternal" + "\n";
    ReorderedText();
  }

  lemma ReorderedText()
    ensures "scanfor" + " " + "hdbios,internal,biosexternal" + "\n" == Reordered
  {
  }

  lemma ReorderedJoin()
    ensures Join(["hdbios", "internal", "biosexternal"], ",") == "hdbios,internal,biosexternal"
  {
    JoinThree("hdbios", "internal", "biosexternal", ",");
  }

  /** `scanfor internal,hdbios,biosexternal` answered with `2 1 3` becomes
      `scanfor hdbios,internal,biosexternal`. */
  lemma EndToEndScenario()
    ensures RewriteLine(Example, "2 1 3") == Reordered
  {
    ExampleLine();
    ExampleAnswer();
    ExamplePermutation();
    ReorderRendered(["internal", "hdbios", "biosexternal"], [1, 0, 2]);
    ExampleResult();
    RewriteDirective(Example, "2 1 3");
    ReorderedFormat();
  }

  /** Pressing Enter at a clean directive line writes it back exactly as it was. */
  lemma EnterKeepsScenario()
    ensures RewriteLine(Example, "") == Example
  {
    ExampleLine();
    KeepNormalises(Example);
    ExampleFormat();
  }

  // ---------------------------------------------------------------------------
  // A commented-out directive

  lemma CommentedStrip()
    ensures LStripChar(Commented, '#') == " scanfor a, b # note\n"
  {
    CommentedHash();
    assert LStripChar(Commented, '#') == LStripChar(" scanfor a, b # note\n", '#');
  }

  lemma CommentedHash()
    ensures Commented == "#" + " scanfor a, b # note\n"
    ensures Commented[1..] == " scanfor a, b # note\n"
  {
  }

  lemma CommentedSpace()
    ensures LStrip(" scanfor a, b # note\n") == "scanfor a, b # note\n"
  {
    CommentedBlank();
    LStripSpaces(" ", "scanfor a, b # note\n");
  }

  lemma CommentedBlank()
    ensures " scanfor a, b # note\n" == " " + "scanfor a, b # note\n"
    ensures AllSpace(" ") && !IsSpace("scanfor a, b # note\n"[0])
  {
    Blanks();
    PrintableNotSpace('s');
  }

  lemma CommentedKeyword()
    ensures MatchDirective("scanfor a, b # note\n") == Some("scanfor")
  {
    assert "scanfor a, b # note\n"[..7] == "scanfor";
    assert LowerAll("scanfor") == "scanfor";
  }

  lemma CommentedSplit()
    ensures "scanfor a, b # note\n" == "scanfor a, b " + "#" + " note\n"
  {
  }

  lemma SpacedSplit()
    ensures "scanfor a, b " == [] + "scanfor" + " a, b "
    ensures LStrip(" a, b ") == "a, b "
    ensures '#' !in "scanfor a, b "
  {
    Blanks();
    PrintableNotSpace('a');
    LStripSpaces(" ", "a, b ");
  }

  lemma SpacedItems()
    ensures "a, b " == "a" + [','] + " b "
    ensures " b " == [' '] + "b "
    ensures "b " == "b" + " "
    ensures "a" == "a" + []
    ensures IsItem("a") && IsItem("b") && AllSpace(" ")
  {
    Clean("a");
    Clean("b");
    Blanks();
  }

  lemma SpacedParts()
    ensures SplitOnce("scanfor a, b ") == ["scanfor", "a, b "]
  {
    SpacedSplit();
    ScanforWord();
    Blanks();
    SplitOnceOf([], "scanfor", " a, b ");
  }

  lemma SpacedTokens()
    ensures Items("a, b ") == ["a", "b"]
  {
    SpacedItems();
    calc {
      Items("a, b ");
      Items("a" + [','] + " b ");
      { ItemsConcat("a", " b "); }
      Items("a") + Items(" b ");
      { ItemsOne("a", []); }
      ["a"] + Items(" b ");
      { ItemsSpace(' ', "b "); }
      ["a"] + Items("b ");
      { ItemsOne("b", " "); }
      ["a", "b"];
    }
  }

  /** Spaces after commas are trimmed off the tokens. */
  lemma ParseCommaSpaced()
    ensures ParseDirective("scanfor a, b ") == ["a", "b"]
  {
    SpacedSplit();
    ParseUncommented("scanfor a, b ");
    SpacedParts();
    SpacedTokens();
  }

  lemma CommentedNumerals()
    ensures Render([1, 0]) == "2 1"
  {
    assert Decimal(2) == "2" && Decimal(1) == "1";
    assert Numerals([1, 0]) == ["2", "1"];
    assert Join(["2", "1"], " ") == "2 1";
  }

  lemma CommentedPermutation()
    ensures IsPermutation([1, 0], 2)
    ensures Pick(["a", "b"], [1, 0]) == ["b", "a"]
  {
  }

  lemma CommentedFormat()
    ensures FormatDirective("scanfor", ["b", "a"]) == "scanfor b,a\n"
  {
    assert Join(["b", "a"], ",") == "b,a";
  }

  /** The commented-out directive `# scanfor a, b # note` is offered too; answering
      `2 1` uncomments it and drops its trailing comment. */
  lemma CommentedOutScenario()
    ensures DetectionText(Commented) == "scanfor a, b # note\n"
    ensures NeedsAnswer(Commented)
    ensures RewriteLine(Commented, "2 1") == "scanfor b,a\n"
  {
    CommentedStrip();
    CommentedSpace();
    CommentedKeyword();
    CommentedSplit();
    ParseComment("scanfor a, b ", " note\n");
    ParseCommaSpaced();
    CommentedNumerals();
    CommentedPermutation();
    CommentedFormat();
    ReorderRendered(["a", "b"], [1, 0]);
    RewriteDirective(Commented, "2 1");
  }

  // ---------------------------------------------------------------------------
  // The tools line, kept

  lemma ToolsFirstThird()
    ensures Join(["shell", "memtest", "gdisk"], ",") == "shell,memtest,gdisk"
  {
    JoinThree("shell", "memtest", "gdisk", ",");
  }

  lemma ToolsMiddleThird()
    ensures Join(["apple_recovery", "windows_recovery", "mok_tool"], ",") == "apple_recovery,windows_recovery,mok_tool"
  {
    JoinThree("apple_recovery", "windows_recovery", "mok_tool", ",");
  }

  lemma ToolsLastThird()
    ensures Join(["about", "reboot", "exit"], ",") == "about,reboot,exit"
  {
    JoinThree("about", "reboot", "exit", ",");
  }

  lemma ToolsJoin()
    ensures Join(ToolNames, ",")
      == "shell,memtest,gdisk" + "," + ("apple_recovery,windows_recovery,mok_tool" + "," + "about,reboot,exit")
  {
    var a, b, c := ["shell", "memtest", "gdisk"], ["apple_recovery", "windows_recovery", "mok_tool"], ["about", "reboot", "exit"];
    assert ToolNames == a + (b + c);
    ToolsFirstThird();
    ToolsMiddleThird();
    ToolsLastThird();
    JoinConcat(b, c, ",");
    JoinConcat(a, b + c, ",");
  }

  lemma ToolsFirst()
    ensures IsItem("shell") && '#' !in "shell"
    ensures IsItem("memtest") && '#' !in "memtest"
    ensures IsItem("gdisk") && '#' !in "gdisk"
  {
    Clean("shell");
    Clean("memtest");
    Clean("gdisk");
  }

  lemma ToolsMiddle()
    ensures IsItem("apple_recovery") && '#' !in "apple_recovery"
    ensures IsItem("windows_recovery") && '#' !in "windows_recovery"
    ensures IsItem("mok_tool") && '#' !in "mok_tool"
  {
    Clean("apple_recovery");
    Clean("windows_recovery");
    Clean("mok_tool");
  }

  lemma ToolsLast()
    ensures IsItem("about") && '#' !in "about"
    ensures IsItem("reboot") && '#' !in "reboot"
    ensures IsItem("exit") && '#' !in "exit"
  {
    Clean("about");
    Clean("reboot");
    Clean("exit");
  }

  lemma ToolsTokens()
    ensures forall k :: 0 <= k < |ToolNames| ==> IsItem(ToolNames[k]) && '#' !in ToolNames[k]
  {
    ToolsFirst();
    ToolsMiddle();
    ToolsLast();
  }

  lemma ToolsText(j: string)
    requires j == "shell,memtest,gdisk" + "," + ("apple_recovery,windows_recovery,mok_tool" + "," + "about,reboot,exit")
    ensures "showtools" + " " + j + "\n" == Tools
  {
    assert "showtools" + " " == "showtools ";
  }

  lemma ToolsFormat()
    ensures FormatDirective("showtools", ToolNames) == Tools
  {
    ToolsJoin();
    ToolsText(Join(ToolNames, ","));
  }

  lemma ShowtoolsKeyword()
    ensures MatchDirective("showtools") == Some("showtools")
  {
    assert !KeywordAt("showtools", ScanFor) by {
      assert LowerAll("showtools"[..7])[1] == 'h';
    }
    assert "showtools"[..9] == "showtools";
    assert LowerAll("showtools") == "showtools";
  }

  /** The nine-token `showtools` line, answered with Enter, is written back exactly
      as it was, token order included. */
  lemma ToolsKeptScenario()
    ensures NeedsAnswer(Tools)
    ensures RewriteLine(Tools, "") == Tools
  {
    ShowtoolsKeyword();
    ToolsTokens();
    FormattedKept("showtools", "showtools", ToolNames);
    ToolsFormat();
  }

  // ---------------------------------------------------------------------------
  // A keyword in mixed case

  lemma MixedDetection()
    ensures DetectionText(Mixed) == "ShowTools a,b\n"
  {
    assert Mixed[1..] == "ShowTools a,b\n";
    assert LStripChar(Mixed, '#') == "ShowTools a,b\n";
    PrintableNotSpace('S');
  }

  lemma MixedKeyword()
    ensures MatchDirective("ShowTools a,b\n") == Some("ShowTools")
  {
    var s := "ShowTools a,b\n";
    assert !KeywordAt(s, ScanFor) by {
      assert LowerAll(s[..7])[1] == 'h';
    }
    KeywordSpelled(s, ShowTools);
    assert SpelledAt(s, ShowTools);
    assert s[..9] == "ShowTools";
  }

  lemma MixedTokens()
    ensures ParseDirective("ShowTools a,b\n") == ["a", "b"]
  {
    JoinTwo("a", "b", ",");
    assert "ShowTools a,b\n" == "ShowTools" + " " + Join(["a", "b"], ",") + "\n";
    Clean("ShowTools");
    Clean("a");
    Clean("b");
    TwoTokens("a", "b");
    Blanks();
    ParseLine("ShowTools", ["a", "b"], "\n");
  }

  lemma MixedFormat()
    ensures FormatDirective("ShowTools", ["b", "a"]) == "ShowTools b,a\n"
  {
    assert Join(["b", "a"], ",") == "b,a";
  }

  /** `#ShowTools a,b` is detected whatever the letter case of its keyword, and it
      asks for an answer. */
  lemma MixedLine()
    ensures DetectionText(Mixed) == "ShowTools a,b\n"
    ensures MatchDirective(DetectionText(Mixed)) == Some("ShowTools")
    ensures Tokens(Mixed) == ["a", "b"]
    ensures NeedsAnswer(Mixed)
  {
    MixedDetection();
    MixedKeyword();
    MixedTokens();
  }

  /** Answering `2 1` at `#ShowTools a,b` writes the keyword back as it was written. */
  lemma MixedCaseScenario()
    ensures RewriteLine(Mixed, "2 1") == "ShowTools b,a\n"
  {
    MixedLine();
    CommentedNumerals();
    CommentedPermutation();
    ReorderRendered(["a", "b"], [1, 0]);
    RewriteDirective(Mixed, "2 1");
    MixedFormat();
  }

  // ---------------------------------------------------------------------------
  // A comment mark after leading whitespace

  lemma IndentedDetection()
    ensures DetectionText(Indented) == "#scanfor a,b\n"
  {
    assert LStripChar(Indented, '#') == Indented;
    assert Indented == " " + "#scanfor a,b\n";
    Blanks();
    PrintableNotSpace('#');
    LStripSpaces(" ", "#scanfor a,b\n");
  }

  /** `#` characters are dropped before whitespace and not after it, so in
      ` #scanfor a,b` the keyword is not found: the line is not a directive and is
      copied whatever the answer. */
  lemma IndentedCommentScenario(response: string)
    ensures DetectionText(Indented) == "#scanfor a,b\n"
    ensures MatchDirective(DetectionText(Indented)) == None
    ensures !NeedsAnswer(Indented)
    ensures RewriteLine(Indented, response) == Indented
  {
    IndentedDetection();
    var s := "#scanfor a,b\n";
    assert !KeywordAt(s, ScanFor) by {
      assert LowerAll(s[..7])[0] == '#';
    }
    assert !KeywordAt(s, ShowTools) by {
      assert LowerAll(s[..9])[0] == '#';
    }
  }

  // ---------------------------------------------------------------------------
  // Text glued to the keyword

  lemma GluedKeyword()
    ensures DetectionText(Glued) == Glued
    ensures MatchDirective(Glued) == Some("scanfor")
  {
    PlainDetection(Glued);
    assert Glued[..7] == "scanfor";
    assert LowerAll("scanfor") == "scanfor";
  }

  lemma GluedParts()
    ensures SplitOnce(Glued) == ["scanfor,a", "b\n"]
  {
    assert Glued == [] + "scanfor,a" + " b\n";
    PrintableNoSpace("scanfor,a");
    Blanks();
    PrintableNotSpace('b');
    LStripSpaces(" ", "b\n");
    SplitOnceOf([], "scanfor,a", " b\n");
  }

  lemma GluedItems()
    ensures Items("b\n") == ["b"]
  {
    Clean("b");
    Blanks();
    assert "b\n" == "b" + "\n";
    ItemsOne("b", "\n");
  }

  lemma GluedParse()
    ensures ParseDirective(Glued) == ["b"]
  {
    assert '#' !in Glued;
    ParseUncommented(Glued);
    GluedParts();
    GluedItems();
  }

  lemma GluedTokens()
    ensures Tokens(Glued) == ["b"]
  {
    GluedKeyword();
    GluedParse();
  }

  /** A single token stays where it is, whatever the answer. */
  lemma OneToken(x: string, response: string)
    ensures Reorder([x], response) == [x]
  {
    var r := Reorder([x], response);
    assert r[0] in multiset(r);
  }

  lemma GluedFormat()
    ensures FormatDirective("scanfor", ["b"]) == "scanfor b\n"
  {
  }

  /** The keyword match stops at a comma but the first word runs on to the first
      whitespace: in `scanfor,a b` the keyword is found, the first word is
      `scanfor,a`, and the only token is `b`. Whatever the answer, the line is
      written back as `scanfor b`, and `a` is gone. */
  lemma GluedTokenScenario(response: string)
    ensures MatchDirective(DetectionText(Glued)) == Some("scanfor")
    ensures Tokens(Glued) == ["b"]
    ensures NeedsAnswer(Glued)
    ensures RewriteLine(Glued, response) == "scanfor b\n"
  {
    GluedKeyword();
    GluedTokens();
    RewriteDirective(Glued, response);
    OneToken("b", response);
    GluedFormat();
  }

  // ---------------------------------------------------------------------------
  // Numbers with leading zeros

  /** int() reads `007` as 7 and `-0` as 0. */
  lemma LeadingZerosScenario()
    ensures ParseInt("007") == Some(7)
    ensures ParseInt("-0") == Some(0)
  {
    assert AllDigits("007") && AllDigits("0");
    ParseDigits("007");
    assert "007"[..2] == "00" && "00"[..1] == "0" && "0"[..0] == [];
    ParseDigits("0");
    assert "-" + "0" == "-0";
  }

  // ---------------------------------------------------------------------------
  // Running out of answers

  lemma TimeoutIgnored()
    ensures !NeedsAnswer("timeout 20\n")
  {
    var line := "timeout 20\n";
    PlainDetection(line);
    assert !KeywordAt(line, ScanFor) by {
      assert LowerAll(line[..7])[0] == 't';
    }
    assert !KeywordAt(line, ShowTools) by {
      assert LowerAll(line[..9])[0] == 't';
    }
    assert MatchDirective(DetectionText(line)) == None;
  }

  /** A file with one directive asks once, so with no answer at all the rewriter
      stops (input() fails and nothing is written back). */
  lemma EndOfInputScenario()
    ensures Prompts(["timeout 20\n", Example]) == 1
  {
    ExampleLine();
    TimeoutIgnored();
    AskedPair("timeout 20\n", Example, NeedsAnswer);
  }
}

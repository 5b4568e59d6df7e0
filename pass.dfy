/** One pass over the lines of a file in which the lines that ask for an answer are
    rewritten with the next answer, in file order, and the other lines are copied.
    Which lines ask and how a line is rewritten are parameters here. */
module Pass {

  /** How many of the lines ask for an answer. */
  function Asked(lines: seq<string>, asks: string -> bool): (n: nat)
    ensures n <= |lines|
  {
    if lines == [] then 0
    else Asked(lines[..|lines| - 1], asks) + (if asks(lines[|lines| - 1]) then 1 else 0)
  }

  /** The lines after the pass: the k-th asking line rewritten with the k-th answer. */
  function RewriteAll(lines: seq<string>, responses: seq<string>, asks: string -> bool,
                      rewrite: (string, string) -> string): (r: seq<string>)
    requires Asked(lines, asks) <= |responses|
    ensures |r| == |lines|
  {
    if lines == [] then []
    else
      var init, last := lines[..|lines| - 1], lines[|lines| - 1];
      RewriteAll(init, responses, asks, rewrite)
        + [if asks(last) then rewrite(last, responses[Asked(init, asks)]) else last]
  }

  /** The first i + 1 lines are the first i and line i. */
  lemma Snoc(lines: seq<string>, i: nat)
    requires i < |lines|
    ensures lines[..i + 1] == lines[..i] + [lines[i]]
  {
  }

  /** A line appended to the file adds its own request, if it makes one. */
  lemma AskedSnoc(init: seq<string>, x: string, asks: string -> bool)
    ensures Asked(init + [x], asks) == Asked(init, asks) + (if asks(x) then 1 else 0)
  {
    assert (init + [x])[..|init|] == init;
  }

  /** A line appended to the file is handled with the answer after those of the
      lines before it. */
  lemma RewriteAllSnoc(init: seq<string>, x: string, responses: seq<string>, asks: string -> bool,
                       rewrite: (string, string) -> string)
    requires Asked(init, asks) + (if asks(x) then 1 else 0) <= |responses|
    ensures Asked(init + [x], asks) <= |responses|
    ensures RewriteAll(init + [x], responses, asks, rewrite)
      == RewriteAll(init, responses, asks, rewrite)
         + [if asks(x) then rewrite(x, responses[Asked(init, asks)]) else x]
  {
    AskedSnoc(init, x, asks);
    assert (init + [x])[..|init|] == init;
  }

  /** A prefix of the lines asks no more often than all of them. */
  lemma {:induction false} AskedPrefix(lines: seq<string>, j: nat, asks: string -> bool)
    requires j <= |lines|
    ensures Asked(lines[..j], asks) <= Asked(lines, asks)
    decreases |lines| - j
  {
    if j < |lines| {
      AskedSnoc(lines[..j], lines[j], asks);
      Snoc(lines, j);
      AskedPrefix(lines, j + 1, asks);
    } else {
      assert lines[..j] == lines;
    }
  }

  /** Line i of the result comes from line i of the input: an asking line is
      rewritten with the answer after those of the asking lines before it, every
      other line is copied. */
  lemma {:induction false} RewriteAllAt(lines: seq<string>, responses: seq<string>, asks: string -> bool,
                                        rewrite: (string, string) -> string, i: nat)
    requires Asked(lines, asks) <= |responses| && i < |lines|
    ensures asks(lines[i]) ==> Asked(lines[..i], asks) < |responses|
    ensures RewriteAll(lines, responses, asks, rewrite)[i]
      == if asks(lines[i]) then rewrite(lines[i], responses[Asked(lines[..i], asks)]) else lines[i]
  {
    var init := lines[..|lines| - 1];
    if i == |lines| - 1 {
      assert lines[..i] == init;
    } else {
      assert init[i] == lines[i] && init[..i] == lines[..i];
      RewriteAllAt(init, responses, asks, rewrite, i);
    }
  }

  /** With no asking line at all, the pass copies every line. */
  lemma {:induction false} NoneAsked(lines: seq<string>, responses: seq<string>, asks: string -> bool,
                                     rewrite: (string, string) -> string)
    requires Asked(lines, asks) == 0
    ensures RewriteAll(lines, responses, asks, rewrite) == lines
  {
    if lines != [] {
      var init := lines[..|lines| - 1];
      NoneAsked(init, responses, asks, rewrite);
    }
  }

  /** One more line of the pass: the count and the result grow by that line. */
  lemma AskedStep(lines: seq<string>, responses: seq<string>, asks: string -> bool,
                  rewrite: (string, string) -> string, i: nat, k: nat, line: string)
    requires i < |lines| && k == Asked(lines[..i], asks) && k <= |responses|
    requires asks(lines[i]) ==> k < |responses|
    requires line == if asks(lines[i]) then rewrite(lines[i], responses[k]) else lines[i]
    ensures Asked(lines[..i + 1], asks) == k + (if asks(lines[i]) then 1 else 0)
    ensures Asked(lines[..i + 1], asks) <= |responses|
    ensures RewriteAll(lines[..i + 1], responses, asks, rewrite)
      == RewriteAll(lines[..i], responses, asks, rewrite) + [line]
  {
    Snoc(lines, i);
    RewriteAllSnoc(lines[..i], lines[i], responses, asks, rewrite);
  }

  /** An asking line at position i needs one more answer than the lines before it. */
  lemma AskedBeyond(lines: seq<string>, asks: string -> bool, i: nat)
    requires i < |lines| && asks(lines[i])
    ensures Asked(lines[..i], asks) < Asked(lines, asks)
  {
    Snoc(lines, i);
    AskedSnoc(lines[..i], lines[i], asks);
    AskedPrefix(lines, i + 1, asks);
  }

  /** Two lines ask as often as each of them does. */
  lemma AskedPair(a: string, b: string, asks: string -> bool)
    ensures Asked([a, b], asks) == (if asks(a) then 1 else 0) + (if asks(b) then 1 else 0)
  {
    assert [a, b] == [a] + [b];
    AskedSnoc([a], b, asks);
    assert [a] == [] + [a];
    AskedSnoc([], a, asks);
  }
}

/** reorder: read the user's answer to the prompt and either keep the tokens, reject
    the answer, or put the tokens in the order it names. The answer is a parameter;
    the prompt and the messages are output and are not modelled. */
module Reorderer {
  import opened Wrappers
  import opened Text
  import opened Numbers
  import opened Sorting

  /** What reorder does with an answer. */
  datatype Outcome =
    | Kept                      // blank answer: the current order stays
    | Rejected                  // "Invalid input; keeping existing order."
    | Reordered(order: seq<int>) // zero-based positions, in their new order

  /** The zero-based positions the answer's words spell, one per word; the whole list
      fails as soon as one word is not an integer. */
  function Indices(ws: seq<string>): (r: Option<seq<int>>)
    ensures r.Some? <==> forall k :: 0 <= k < |ws| ==> ParseInt(ws[k]).Some?
    ensures r.Some? ==> |r.value| == |ws|
    ensures r.Some? ==> forall k :: 0 <= k < |ws| ==> ParseInt(ws[k]) == Some(r.value[k] + 1)
  {
    if forall k :: 0 <= k < |ws| ==> ParseInt(ws[k]).Some? then
      Some(seq(|ws|, k requires 0 <= k < |ws| => ParseInt(ws[k]).value - 1))
    else None
  }

  /** The answer, read as whitespace-separated one-based numbers, names the
      zero-based positions p. */
  predicate Denotes(response: string, p: seq<int>) {
    Spells(Words(response), p)
  }

  /** The words are the one-based numerals of the zero-based positions p. */
  predicate Spells(ws: seq<string>, p: seq<int>) {
    |ws| == |p| && forall k :: 0 <= k < |p| ==> ParseInt(ws[k]) == Some(p[k] + 1)
  }

  /** The decision reorder takes for n tokens and the raw answer. */
  function Decide(n: nat, response: string): (o: Outcome)
    ensures o.Kept? <==> AllSpace(response)
    ensures o.Reordered? ==> IsPermutation(o.order, n) && Denotes(response, o.order)
  {
    var answer := Strip(response);
    if answer == [] then Kept
    else
      match Indices(Words(answer))
      case None => Rejected
      case Some(idx) =>
        if Sort(idx) == Range(n) then
          AnswerDenotes(response, idx);
          SortCheckSound(idx, n);
          Reordered(idx)
        else Rejected
  }

  /** The positions read from the stripped answer are the ones the answer names. */
  lemma AnswerDenotes(response: string, idx: seq<int>)
    requires Indices(Words(Strip(response))) == Some(idx)
    ensures Denotes(response, idx)
  {
    assert Indices(Words(response)) == Some(idx) by {
      WordsStrip(response);
    }
    IndicesDenotes(response, idx);
  }

  /** reorder: the tokens in the order the answer names, or unchanged. */
  function Reorder(items: seq<string>, response: string): (r: seq<string>)
    ensures |r| == |items| && multiset(r) == multiset(items)
    ensures AllSpace(response) ==> r == items
  {
    match Decide(|items|, response)
    case Reordered(p) =>
      PickPermutes(items, p);
      Pick(items, p)
    case _ => items
  }

  // ---------------------------------------------------------------------------
  // The answer determines the positions

  /** Words spell at most one list of positions. */
  lemma SpellsUnique(ws: seq<string>, p: seq<int>, q: seq<int>)
    requires Spells(ws, p) && Spells(ws, q)
    ensures p == q
  {
    forall k | 0 <= k < |p| ensures p[k] == q[k] {
      assert Some(p[k] + 1) == Some(q[k] + 1);
    }
  }

  /** Indices succeeds on words exactly with the positions they spell. */
  lemma IndicesSpells(ws: seq<string>, p: seq<int>)
    ensures Indices(ws) == Some(p) <==> Spells(ws, p)
  {
    if Spells(ws, p) {
      assert Indices(ws).Some?;
      SpellsUnique(ws, p, Indices(ws).value);
    }
  }

  /** An answer names at most one list of positions. */
  lemma DenotesUnique(response: string, p: seq<int>, q: seq<int>)
    requires Denotes(response, p) && Denotes(response, q)
    ensures p == q
  {
    SpellsUnique(Words(response), p, q);
  }

  /** Indices succeeds on the answer's words exactly with the positions it names. */
  lemma IndicesDenotes(response: string, p: seq<int>)
    ensures Indices(Words(response)) == Some(p) <==> Denotes(response, p)
  {
    IndicesSpells(Words(response), p);
  }

  // ---------------------------------------------------------------------------
  // The three paths

  /** A blank answer (empty, or only whitespace such as the newline) keeps the order. */
  lemma ReorderKeeps(items: seq<string>, response: string)
    requires AllSpace(response)
    ensures Decide(|items|, response) == Kept
    ensures Reorder(items, response) == items
  {
  }

  /** An answer naming a permutation of the positions puts the tokens in that order:
      the k-th token of the result is the one at the k-th named position. (With no
      tokens the only such answer is blank, and the empty list is kept.) */
  lemma ReorderAccepts(items: seq<string>, response: string, p: seq<int>)
    requires Denotes(response, p) && IsPermutation(p, |items|)
    ensures items != [] ==> Decide(|items|, response) == Reordered(p)
    ensures Reorder(items, response) == Pick(items, p)
    ensures forall k :: 0 <= k < |p| ==> Reorder(items, response)[k] == items[p[k]]
  {
    if items == [] {
      assert Pick(items, p) == [];
    } else {
      DecideAccepts(|items|, response, p);
      ReorderedPick(items, response, p);
    }
  }

  /** The tokens put in the order of an accepted answer. */
  lemma ReorderedPick(items: seq<string>, response: string, p: seq<int>)
    requires Decide(|items|, response) == Reordered(p)
    ensures Reorder(items, response) == Pick(items, p)
  {
  }

  /** The decision for an answer naming a permutation of at least one position. */
  lemma DecideAccepts(n: nat, response: string, p: seq<int>)
    requires Denotes(response, p) && IsPermutation(p, n) && n > 0
    ensures Decide(n, response) == Reordered(p)
  {
    assert Strip(response) != [] by {
      assert Words(response) != [];
      WordsNone(response);
    }
    assert Indices(Words(Strip(response))) == Some(p) by {
      WordsStrip(response);
      IndicesDenotes(response, p);
    }
    SortCheckComplete(p, n);
  }

  /** Any other answer, one naming no permutation of the positions, is rejected and
      the tokens keep their order. */
  lemma ReorderRejects(items: seq<string>, response: string)
    requires !AllSpace(response)
    requires forall p :: Denotes(response, p) ==> !IsPermutation(p, |items|)
    ensures Decide(|items|, response) == Rejected
    ensures Reorder(items, response) == items
  {
  }

  /** A word that is not an integer rejects the answer. */
  lemma RejectsNonInteger(items: seq<string>, response: string, i: nat)
    requires i < |Words(response)| && ParseInt(Words(response)[i]) == None
    ensures Decide(|items|, response) == Rejected
    ensures Reorder(items, response) == items
  {
    WordsNone(response);
    RejectsNoPositions(items, response);
  }

  /** Helper for the rejection lemmas: no permutation named means rejection. */
  lemma RejectsNoPositions(items: seq<string>, response: string)
    requires Words(response) != []
    requires forall p :: Denotes(response, p) ==> !IsPermutation(p, |items|)
    ensures Decide(|items|, response) == Rejected
  {
    WordsNone(response);
    ReorderRejects(items, response);
  }

  /** An answer with more or fewer numbers than there are tokens is rejected. */
  lemma RejectsWrongCount(items: seq<string>, response: string)
    requires Words(response) != [] && |Words(response)| != |items|
    ensures Decide(|items|, response) == Rejected
    ensures Reorder(items, response) == items
  {
    RejectsNoPositions(items, response);
  }

  /** An answer naming a position twice is rejected. */
  lemma RejectsRepeat(items: seq<string>, response: string, i: nat, j: nat)
    requires i < j < |Words(response)|
    requires ParseInt(Words(response)[i]).Some?
    requires ParseInt(Words(response)[i]) == ParseInt(Words(response)[j])
    ensures Decide(|items|, response) == Rejected
    ensures Reorder(items, response) == items
  {
    forall p | Denotes(response, p) ensures !IsPermutation(p, |items|) {
      SpellsRepeat(Words(response), p, i, j);
    }
    RejectsNoPositions(items, response);
  }

  /** Two equal numerals spell the same position twice. */
  lemma SpellsRepeat(ws: seq<string>, p: seq<int>, i: nat, j: nat)
    requires Spells(ws, p) && i < j < |ws| && ParseInt(ws[i]) == ParseInt(ws[j])
    ensures !Distinct(p)
  {
    assert Some(p[i] + 1) == Some(p[j] + 1);
  }

  /** An answer naming a number outside 1..n is rejected (0 and negatives included). */
  lemma RejectsOutOfRange(items: seq<string>, response: string, i: nat, v: int)
    requires i < |Words(response)| && ParseInt(Words(response)[i]) == Some(v)
    requires v < 1 || v > |items|
    ensures Decide(|items|, response) == Rejected
    ensures Reorder(items, response) == items
  {
    forall p | Denotes(response, p) ensures !IsPermutation(p, |items|) {
      assert p[i] + 1 == v;
    }
    RejectsNoPositions(items, response);
  }

  // ---------------------------------------------------------------------------
  // Answers written as the prompt asks

  /** The one-based numerals of the zero-based order p. */
  function Numerals(p: seq<nat>): (ws: seq<string>)
    ensures |ws| == |p|
    ensures forall k :: 0 <= k < |p| ==> IsWord(ws[k]) && ParseInt(ws[k]) == Some(p[k] + 1)
  {
    var ws := seq(|p|, k requires 0 <= k < |p| => Decimal(p[k] + 1));
    forall k | 0 <= k < |p| ensures IsWord(ws[k]) && ParseInt(ws[k]) == Some(p[k] + 1) {
      DigitsNoSpace(ws[k]);
      ParseDecimal(p[k] + 1);
    }
    ws
  }

  /** Digits are not whitespace. */
  lemma DigitsNoSpace(s: string)
    requires AllDigits(s)
    ensures NoSpace(s)
  {
    forall i | 0 <= i < |s| ensures !IsSpace(s[i]) {
      assert IsDigit(s[i]);
      PrintableNotSpace(s[i]);
    }
  }

  /** The answer "a b c" for the zero-based order p: one-based numerals, one space apart. */
  function Render(p: seq<nat>): (s: string)
    ensures Words(s) == Numerals(p)
    ensures Denotes(s, p)
  {
    var ws := Numerals(p);
    WordsJoin(ws);
    Join(ws, " ")
  }

  /** Reading the numerals of an order back gives the order: Indices inverts Numerals. */
  lemma IndicesNumerals(p: seq<nat>)
    ensures Indices(Numerals(p)) == Some(p)
  {
    IndicesSpells(Numerals(p), p);
  }

  /** Every permutation can be entered as an answer, and entering it reorders the
      tokens accordingly. */
  lemma ReorderRendered(items: seq<string>, p: seq<nat>)
    requires IsPermutation(p, |items|)
    ensures Reorder(items, Render(p)) == Pick(items, p)
  {
    ReorderAccepts(items, Render(p), p);
  }
}

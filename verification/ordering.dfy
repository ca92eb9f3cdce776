/** The parts of the import ordering engine that do not depend on how ranks are
    computed: the greedy out-of-order scan, the search for the record a violator
    belongs before, and the pair of text edits that moves it there. Records are of any
    type `R`; `rankOf` reads a record's cached rank. */
module Ordering {
  import opened Optional
  import opened Text

  function Max(a: nat, b: nat): nat {
    if a < b then b else a
  }

  // ---------------------------------------------------------------------------
  // The greedy scan
  // ---------------------------------------------------------------------------

  /** The greatest rank in `list`, or 0 for the empty list: the scan's running
      maximum after it has seen `list`. */
  function MaxRank<R>(list: seq<R>, rankOf: R -> nat): nat
    decreases |list|
  {
    if |list| == 0 then 0
    else Max(MaxRank(list[..|list| - 1], rankOf), rankOf(list[|list| - 1]))
  }

  /** The running maximum is the least bound of the ranks seen so far. */
  lemma {:induction false} MaxRankAtMost<R>(list: seq<R>, rankOf: R -> nat, x: nat)
    ensures MaxRank(list, rankOf) <= x <==> forall j | 0 <= j < |list| :: rankOf(list[j]) <= x
    decreases |list|
  {
    if |list| > 0 {
      var init := list[..|list| - 1];
      MaxRankAtMost(init, rankOf, x);
      assert forall j | 0 <= j < |init| :: init[j] == list[j];
    }
  }

  /** The record at `i` ranks strictly below some record before it. */
  predicate OutOfOrderAt<R>(list: seq<R>, rankOf: R -> nat, i: int)
    requires 0 <= i < |list|
  {
    rankOf(list[i]) < MaxRank(list[..i], rankOf)
  }

  /** The records among the first `n` of `list` that rank below the maximum of the
      records before them, in list order. */
  function Flagged<R>(list: seq<R>, rankOf: R -> nat, n: nat): seq<R>
    requires n <= |list|
  {
    if n == 0 then []
    else Flagged(list, rankOf, n - 1) + (if OutOfOrderAt(list, rankOf, n - 1) then [list[n - 1]] else [])
  }

  /** `detectOutOfOrder`: one pass with a running maximum starting at 0; a record below
      it is flagged, any other record raises it to its own rank. */
  method DetectOutOfOrder<R>(list: seq<R>, rankOf: R -> nat) returns (out: seq<R>)
    ensures out == Flagged(list, rankOf, |list|)
  {
    var maxRank := 0;
    out := [];
    var i := 0;
    while i < |list|
      invariant 0 <= i <= |list|
      invariant maxRank == MaxRank(list[..i], rankOf)
      invariant out == Flagged(list, rankOf, i)
    {
      assert list[..i + 1][..i] == list[..i];
      if rankOf(list[i]) < maxRank {
        out := out + [list[i]];
      } else {
        maxRank := rankOf(list[i]);
      }
      i := i + 1;
    }
    assert list[..|list|] == list;
  }

  /** Ranks never decrease along the list (ties allowed). */
  predicate NonDecreasing<R>(list: seq<R>, rankOf: R -> nat) {
    forall i, j | 0 <= i < j < |list| :: rankOf(list[i]) <= rankOf(list[j])
  }

  /** The scan flags nothing exactly when the ranks never decrease. */
  lemma {:induction false} NothingFlaggedIffNonDecreasing<R>(list: seq<R>, rankOf: R -> nat, n: nat)
    requires n <= |list|
    ensures Flagged(list, rankOf, n) == [] <==> NonDecreasing(list[..n], rankOf)
  {
    if n > 0 {
      NothingFlaggedIffNonDecreasing(list, rankOf, n - 1);
      NonDecreasingExtend(list[..n], rankOf);
      assert list[..n][..n - 1] == list[..n - 1];
      assert list[..n][n - 1] == list[n - 1];
    }
  }

  /** A non-empty list's ranks never decrease exactly when those of all but its last
      record never decrease and the last is at least their maximum. */
  lemma NonDecreasingExtend<R>(list: seq<R>, rankOf: R -> nat)
    requires |list| > 0
    ensures NonDecreasing(list, rankOf)
            <==> NonDecreasing(list[..|list| - 1], rankOf)
                 && MaxRank(list[..|list| - 1], rankOf) <= rankOf(list[|list| - 1])
  {
    var pre := list[..|list| - 1];
    MaxRankAtMost(pre, rankOf, rankOf(list[|list| - 1]));
    assert forall j | 0 <= j < |pre| :: pre[j] == list[j];
  }

  /** Every flagged record stands at some position where it is out of order. */
  lemma {:induction false} FlaggedAreOutOfOrder<R>(list: seq<R>, rankOf: R -> nat, n: nat, k: nat)
    requires n <= |list|
    requires k < |Flagged(list, rankOf, n)|
    ensures exists i | 0 <= i < n :: OutOfOrderAt(list, rankOf, i) && list[i] == Flagged(list, rankOf, n)[k]
  {
    var prev := Flagged(list, rankOf, n - 1);
    if k < |prev| {
      FlaggedAreOutOfOrder(list, rankOf, n - 1, k);
    } else {
      assert OutOfOrderAt(list, rankOf, n - 1);
    }
  }

  // ---------------------------------------------------------------------------
  // The anchor
  // ---------------------------------------------------------------------------

  /** `list.find(x => rank(x) > r)` from position `from` on, as a position. */
  function FindAnchorFrom<R>(list: seq<R>, rankOf: R -> nat, r: nat, from: nat): (k: Option<nat>)
    requires from <= |list|
    ensures k.Some? ==> from <= k.value < |list| && rankOf(list[k.value]) > r
    ensures k.Some? ==> forall j | from <= j < k.value :: rankOf(list[j]) <= r
    ensures k.None? ==> forall j | from <= j < |list| :: rankOf(list[j]) <= r
    decreases |list| - from
  {
    if from == |list| then None
    else if rankOf(list[from]) > r then Some(from)
    else FindAnchorFrom(list, rankOf, r, from + 1)
  }

  /** `list.find(x => rank(x) > r)`: the first record ranking strictly above `r`. */
  function FindAnchor<R>(list: seq<R>, rankOf: R -> nat, r: nat): Option<nat> {
    FindAnchorFrom(list, rankOf, r, 0)
  }

  /** A record that is out of order always has an anchor, and the anchor comes before
      it in the list. */
  lemma AnchorPrecedesViolator<R>(list: seq<R>, rankOf: R -> nat, i: nat)
    requires i < |list| && OutOfOrderAt(list, rankOf, i)
    ensures FindAnchor(list, rankOf, rankOf(list[i])).Some?
    ensures FindAnchor(list, rankOf, rankOf(list[i])).value < i
  {
    var pre := list[..i];
    MaxRankAtMost(pre, rankOf, rankOf(list[i]));
    var j :| 0 <= j < i && rankOf(pre[j]) > rankOf(list[i]);
    assert pre[j] == list[j];
  }

  // ---------------------------------------------------------------------------
  // The relocation patch
  // ---------------------------------------------------------------------------

  /** Where the removal `[s1, e1 + 1)` stops once the host applies it: its slice
      ends at the end of the text, so a violator that ends the file loses no
      character after it. */
  function RemovalEnd(len: nat, e1: nat): (c: nat)
    requires e1 <= len
    ensures c <= len
    ensures e1 < len ==> c == e1 + 1
    ensures e1 == len ==> c == len
  {
    if e1 < len then e1 + 1 else len
  }

  /** The fix that moves the text `[s1, e1)` (the violator) in front of `[s2, e2)`
      (its anchor): replace the anchor by the violator's text, a newline and the
      anchor's own text, and remove the violator together with the one character
      after it (`removeRange([s1, e1 + 1])`, which stops at the end of the text).
      Both edits use offsets of the original text. */
  function RelocationEdits(text: string, s1: nat, e1: nat, s2: nat, e2: nat): seq<Edit>
    requires e1 <= |text|
  {
    var moved := Substring(text, s1, e1) + "\n";
    var anchor := Substring(text, s2, e2);
    [Edit(s2, e2, moved + anchor), Edit(s1, RemovalEnd(|text|, e1), "")]
  }

  /** Swapping two adjacent pieces of a text keeps its characters. */
  lemma SwapKeepsCharacters(a: string, b: string, c: string, d: string)
    ensures multiset(a + c + b + d) == multiset(a + b + c + d)
  {
  }

  /** Within the text, the pair is literally "replace the anchor, remove the violator
      and its following character, if any". */
  lemma RelocationEditsInRange(text: string, s1: nat, e1: nat, s2: nat, e2: nat)
    requires s2 <= e2 <= s1 <= e1 <= |text|
    ensures RelocationEdits(text, s1, e1, s2, e2)
            == [Edit(s2, e2, text[s1..e1] + "\n" + text[s2..e2]), Edit(s1, RemovalEnd(|text|, e1), "")]
  {
  }

  /** The fix applied as the host applies it: the removal (the later range) first. */
  lemma RelocationAppliedInOrder(text: string, s1: nat, e1: nat, s2: nat, e2: nat)
    requires s2 <= e2 <= s1 <= e1 <= |text|
    ensures ValidEdits(RelocationEdits(text, s1, e1, s2, e2), |text|)
    ensures ApplyAll(text, RelocationEdits(text, s1, e1, s2, e2))
            == Apply(Apply(text, Edit(s1, RemovalEnd(|text|, e1), "")), Edit(s2, e2, text[s1..e1] + "\n" + text[s2..e2]))
  {
    RelocationEditsInRange(text, s1, e1, s2, e2);
    ApplyTwo(text, Edit(s2, e2, text[s1..e1] + "\n" + text[s2..e2]), Edit(s1, RemovalEnd(|text|, e1), ""));
  }

  /** The text with the piece `[s1, e1)` and a newline moved in front of offset
      `s2`, and the character at `e1` dropped when there is one: the length is kept,
      or grows by the newline when the piece ends the text. */
  function Splice(text: string, s1: nat, e1: nat, s2: nat): (r: string)
    requires s2 <= s1 <= e1 <= |text|
    ensures e1 < |text| ==> |r| == |text|
    ensures e1 == |text| ==> |r| == |text| + 1
  {
    text[..s2] + text[s1..e1] + "\n" + text[s2..s1] + text[RemovalEnd(|text|, e1)..]
  }

  /** The two applications composed, as one splice of the original text. */
  lemma RelocationComposed(text: string, s1: nat, e1: nat, s2: nat, e2: nat)
    requires s2 <= e2 <= s1 <= e1 <= |text|
    ensures Apply(Apply(text, Edit(s1, RemovalEnd(|text|, e1), "")), Edit(s2, e2, text[s1..e1] + "\n" + text[s2..e2]))
            == Splice(text, s1, e1, s2)
  {
    var a, b, c, d := text[..s2], text[s2..e2], text[e2..s1], text[RemovalEnd(|text|, e1)..];
    var rep := text[s1..e1] + "\n" + b;
    CutViolator(text, s1, e1, s2, e2);
    ApplyInContext(a, b, c + d, rep);
    assert text[s2..s1] == b + c;
    Regroup(a, text[s1..e1] + "\n", b, c, d);
  }

  /** Removing the violator and the character after it, with the text before it
      seen as the part before the anchor, the anchor, and the part between. */
  lemma CutViolator(text: string, s1: nat, e1: nat, s2: nat, e2: nat)
    requires s2 <= e2 <= s1 <= e1 <= |text|
    ensures Apply(text, Edit(s1, RemovalEnd(|text|, e1), ""))
            == text[..s2] + text[s2..e2] + (text[e2..s1] + text[RemovalEnd(|text|, e1)..])
  {
    var cut := RemovalEnd(|text|, e1);
    var a, b, c, d := text[..s2], text[s2..e2], text[e2..s1], text[cut..];
    assert text == text[..s1] + text[s1..cut] + d;
    ApplyInContext(text[..s1], text[s1..cut], d, "");
    assert text[..s1] == a + b + c;
  }

  /** Concatenation regrouped. */
  lemma Regroup(a: string, m: string, b: string, c: string, d: string)
    ensures a + (m + b) + (c + d) == a + m + (b + c) + d
  {
  }

  /** Replacing the middle of three pieces. */
  lemma ApplyInContext(a: string, b: string, c: string, rep: string)
    ensures FitsIn(Edit(|a|, |a| + |b|, rep), |a + b + c|)
    ensures Apply(a + b + c, Edit(|a|, |a| + |b|, rep)) == a + rep + c
  {
    var t := a + b + c;
    assert t[..|a|] == a;
    assert t[|a| + |b|..] == c;
  }

  /** When the anchor lies before the violator, the fix is a valid edit set and
      applying it moves the violator (and the newline inserted after it) in front of
      the anchor: the text before the anchor and after the removed character is
      untouched. */
  lemma RelocationSplice(text: string, s1: nat, e1: nat, s2: nat, e2: nat)
    requires s2 <= e2 <= s1 <= e1 <= |text|
    ensures ValidEdits(RelocationEdits(text, s1, e1, s2, e2), |text|)
    ensures ApplyAll(text, RelocationEdits(text, s1, e1, s2, e2)) == Splice(text, s1, e1, s2)
  {
    RelocationAppliedInOrder(text, s1, e1, s2, e2);
    RelocationComposed(text, s1, e1, s2, e2);
  }

  /** Moving a newline-terminated piece in front of an earlier piece keeps the
      characters of the text; moving the piece that ends the text adds the one
      newline. */
  lemma SpliceKeepsCharacters(text: string, s1: nat, e1: nat, s2: nat)
    requires s2 <= s1 <= e1 <= |text|
    ensures e1 < |text| && text[e1] == '\n' ==> multiset(Splice(text, s1, e1, s2)) == multiset(text)
    ensures e1 == |text| ==> multiset(Splice(text, s1, e1, s2)) == multiset(text) + multiset{'\n'}
  {
    var cut := RemovalEnd(|text|, e1);
    var a, b, m, d := text[..s2], text[s2..s1], text[s1..e1] + "\n", text[cut..];
    assert Splice(text, s1, e1, s2) == a + m + b + d;
    SwapKeepsCharacters(a, b, m, d);
    if e1 < |text| && text[e1] == '\n' {
      assert m == text[s1..e1 + 1];
      assert text == a + b + m + d;
    } else if e1 == |text| {
      assert text == a + b + text[s1..e1] + d;
    }
  }

  /** The fix only rearranges the characters of the text when the character removed
      after the violator is a newline, and adds just the inserted newline when the
      violator ends the text. */
  lemma RelocationKeepsCharacters(text: string, s1: nat, e1: nat, s2: nat, e2: nat)
    requires s2 <= e2 <= s1 <= e1 <= |text|
    ensures e1 < |text| && text[e1] == '\n' ==>
              multiset(ApplyAll(text, RelocationEdits(text, s1, e1, s2, e2))) == multiset(text)
    ensures e1 == |text| ==>
              multiset(ApplyAll(text, RelocationEdits(text, s1, e1, s2, e2))) == multiset(text) + multiset{'\n'}
  {
    RelocationSplice(text, s1, e1, s2, e2);
    SpliceKeepsCharacters(text, s1, e1, s2);
  }

  // ---------------------------------------------------------------------------
  // The reports
  // ---------------------------------------------------------------------------

  /** Where a record's statement lies in the text: its start, its end, and the end
      of the span that moves with it (the statement end, or later when a trailing
      comment travels along). */
  datatype Layout<!R> = Layout(startOf: R -> nat, endOf: R -> nat, movedEndOf: R -> nat)

  /** The fix for `violator`: move its span in front of `anchor`'s statement. */
  function FixFor<R>(text: string, layout: Layout<R>, violator: R, anchor: R): seq<Edit>
    requires layout.movedEndOf(violator) <= |text|
  {
    RelocationEdits(text, layout.startOf(violator), layout.movedEndOf(violator),
                    layout.startOf(anchor), layout.endOf(anchor))
  }

  /** A report: the record, its message, and the record its fix moves it in front
      of (the fix closure captures these two records and reads the text). */
  datatype Report<R> = Report(record: R, message: string, anchor: R)

  /** The report's fix, against the text. */
  function ReportFix<R>(text: string, layout: Layout<R>, rep: Report<R>): seq<Edit>
    requires layout.movedEndOf(rep.record) <= |text|
  {
    FixFor(text, layout, rep.record, rep.anchor)
  }

  /** The report's anchor is the first record of `list` ranking strictly above its
      record. */
  ghost predicate AnchoredInList<R>(list: seq<R>, rankOf: R -> nat, rep: Report<R>) {
    var anchor := FindAnchor(list, rankOf, rankOf(rep.record));
    && anchor.Some?
    && anchor.value < |list|
    && rep.anchor == list[anchor.value]
  }

  /** Every flagged record has an anchor. */
  lemma FlaggedHaveAnchor<R>(list: seq<R>, rankOf: R -> nat, k: nat)
    requires k < |Flagged(list, rankOf, |list|)|
    ensures FindAnchor(list, rankOf, rankOf(Flagged(list, rankOf, |list|)[k])).Some?
  {
    FlaggedAreOutOfOrder(list, rankOf, |list|, k);
    var i :| 0 <= i < |list| && OutOfOrderAt(list, rankOf, i) && list[i] == Flagged(list, rankOf, |list|)[k];
    AnchorPrecedesViolator(list, rankOf, i);
  }

  /** `rep` is the report for record `v`: about `v`, with the message for it and the
      anchor its fix moves it in front of. */
  ghost predicate Describes<R>(list: seq<R>, rankOf: R -> nat, messageOf: R -> string, v: R, rep: Report<R>) {
    && rep.record == v
    && rep.message == messageOf(v)
    && AnchoredInList(list, rankOf, rep)
  }

  /** The report for a record that has an anchor. */
  function ReportOf<R>(list: seq<R>, rankOf: R -> nat, messageOf: R -> string, v: R): (rep: Report<R>)
    requires FindAnchor(list, rankOf, rankOf(v)).Some?
    ensures Describes(list, rankOf, messageOf, v, rep)
  {
    Report(v, messageOf(v), list[FindAnchor(list, rankOf, rankOf(v)).value])
  }

  /** Every record of `records` has an anchor in `list`. */
  predicate AllAnchored<R>(list: seq<R>, rankOf: R -> nat, records: seq<R>) {
    forall k | 0 <= k < |records| :: FindAnchor(list, rankOf, rankOf(records[k])).Some?
  }

  /** The loop of `generateReport`: the report for each record, in order. */
  method ReportAll<R>(list: seq<R>, rankOf: R -> nat, messageOf: R -> string, records: seq<R>)
    returns (reports: seq<Report<R>>)
    requires AllAnchored(list, rankOf, records)
    ensures |reports| == |records|
    ensures forall k | 0 <= k < |reports| :: Describes(list, rankOf, messageOf, records[k], reports[k])
  {
    reports := [];
    var k := 0;
    while k < |records|
      invariant 0 <= k <= |records|
      invariant |reports| == k
      invariant forall m | 0 <= m < k :: Describes(list, rankOf, messageOf, records[m], reports[m])
    {
      reports := reports + [ReportOf(list, rankOf, messageOf, records[k])];
      k := k + 1;
    }
  }

  /** `generateReport`: one report per out-of-order record, in list order, each with
      the message for it and the anchor its fix moves it in front of. */
  method GenerateReport<R>(list: seq<R>, rankOf: R -> nat, messageOf: R -> string)
    returns (reports: seq<Report<R>>)
    ensures |reports| == |Flagged(list, rankOf, |list|)|
    ensures forall k | 0 <= k < |reports| ::
              Describes(list, rankOf, messageOf, Flagged(list, rankOf, |list|)[k], reports[k])
  {
    var outOfOrder := DetectOutOfOrder(list, rankOf);
    forall k | 0 <= k < |outOfOrder|
      ensures FindAnchor(list, rankOf, rankOf(outOfOrder[k])).Some?
    {
      FlaggedHaveAnchor(list, rankOf, k);
    }
    reports := ReportAll(list, rankOf, messageOf, outOfOrder);
  }

  /** Records registered in source order: each statement's span is well formed and
      ends before the next statement starts. */
  predicate InSourceOrder<R>(list: seq<R>, layout: Layout<R>) {
    && (forall i | 0 <= i < |list| ::
          layout.startOf(list[i]) <= layout.endOf(list[i]) <= layout.movedEndOf(list[i]))
    && (forall i, j | 0 <= i < j < |list| :: layout.endOf(list[i]) <= layout.startOf(list[j]))
  }

  /** The fix for a record whose statement lies after its anchor's is the splice that
      moves it in front of the anchor. */
  lemma FixIsSplice<R>(text: string, layout: Layout<R>, v: R, a: R)
    requires layout.startOf(a) <= layout.endOf(a) <= layout.startOf(v) <= layout.movedEndOf(v) <= |text|
    ensures ValidEdits(FixFor(text, layout, v, a), |text|)
    ensures ApplyAll(text, FixFor(text, layout, v, a))
            == Splice(text, layout.startOf(v), layout.movedEndOf(v), layout.startOf(a))
  {
    RelocationSplice(text, layout.startOf(v), layout.movedEndOf(v), layout.startOf(a), layout.endOf(a));
  }

  /** For records registered in source order, the fix for an out-of-order record is
      a valid edit set that puts its moved span and a newline directly in front of
      its anchor, which precedes it, and leaves the text before the anchor and after
      the removed character untouched. */
  lemma FixMovesViolatorBeforeAnchor<R>(text: string, list: seq<R>, rankOf: R -> nat, layout: Layout<R>, i: nat)
    returns (j: nat)
    requires i < |list| && OutOfOrderAt(list, rankOf, i)
    requires InSourceOrder(list, layout)
    requires layout.movedEndOf(list[i]) <= |text|
    ensures j < i && FindAnchor(list, rankOf, rankOf(list[i])) == Some(j)
    ensures ValidEdits(FixFor(text, layout, list[i], list[j]), |text|)
    ensures ApplyAll(text, FixFor(text, layout, list[i], list[j]))
            == Splice(text, layout.startOf(list[i]), layout.movedEndOf(list[i]), layout.startOf(list[j]))
  {
    AnchorPrecedesViolator(list, rankOf, i);
    j := FindAnchor(list, rankOf, rankOf(list[i])).value;
    var v, a := list[i], list[j];
    assert layout.startOf(a) <= layout.endOf(a);
    assert layout.endOf(a) <= layout.startOf(v);
    assert layout.startOf(v) <= layout.movedEndOf(v);
    FixIsSplice(text, layout, v, a);
  }
}

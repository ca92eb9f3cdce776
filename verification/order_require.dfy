/** The standalone `lib/rules/order-require.js` rule: its own rank table and rank
    function, registration of `const x = require('...')` calls, the climb to the
    statement to move, and the report with its two-edit fix (without any trailing
    comment travelling along). The scan and the anchor search are those of
    `Ordering`. */
module OrderRequire {
  import opened Optional
  import opened Text
  import opened Ast
  import opened Ordering
  import opened Helper
  import OrderCommon

  /** This rule's category table: no trailing slashes, and no `text!` entry. */
  const DefaultOrder: seq<string> := [
    "@roadmunk",
    "lib",
    "common/lib",
    "models",
    "common/models",
    "views",
    "common/views",
    "tests"
  ]

  /** `defaultOrder.indexOf(e)` where `e` may be `undefined`, which is never found. */
  function IndexOfOrUndefined(e: Option<string>): int {
    match e
    case None => -1
    case Some(v) => OrderCommon.IndexOfEntry(DefaultOrder, v)
  }

  /** `computeRank(name)` as written: filter the table for entries the name contains
      and take one more than the table position of the last one; with no match,
      `match[match.length - 1]` is `undefined` and the rank is 0 (the `!match` test
      never fires, since an empty array is truthy). So the rank is one more than the
      last matching position, in `[0, 8]`. */
  function ComputeRank(name: string): (r: nat)
    ensures r == OrderCommon.LastMatchIndex(DefaultOrder, name) + 1
    ensures r <= |DefaultOrder|
    ensures r == 0 <==> forall i | 0 <= i < |DefaultOrder| :: !Includes(name, DefaultOrder[i])
  {
    var found := OrderCommon.Matches(DefaultOrder, name);
    var last := if |found| == 0 then None else Some(found[|found| - 1]);
    OrderCommon.LastOfMatches(DefaultOrder, name);
    DefaultOrderDistinct();
    assert last.Some? ==> DefaultOrder[IndexOfOrUndefined(last)] == DefaultOrder[OrderCommon.LastMatchIndex(DefaultOrder, name)];
    IndexOfOrUndefined(last) + 1
  }

  lemma DefaultOrderDistinct()
    ensures OrderCommon.Distinct(DefaultOrder)
  {
  }

  /** A relative prefix does not change the rank: this rule has no separate rank
      for relative names. */
  lemma RelativePrefixKeepsRank(name: string, prefix: string)
    requires prefix == "./" || prefix == "../"
    ensures ComputeRank(prefix + name) == ComputeRank(name)
  {
    assert forall i | 0 <= i < |DefaultOrder| :: |DefaultOrder[i]| > 0 && DefaultOrder[i][0] !in prefix;
    OrderCommon.LastMatchIgnoresPrefix(DefaultOrder, prefix, name);
  }

  // ---------------------------------------------------------------------------
  // The root statement
  // ---------------------------------------------------------------------------

  /** A node on the way from the call up to the program, the call first: whether it
      has a `body` and the range it covers. */
  datatype Ancestor = Ancestor(hasBody: bool, start: nat, end: nat)

  /** Position `k` of the chain is where the climb stops: no node in between has a
      body, and the next one up is missing or has one. */
  predicate IsRoot(chain: seq<Ancestor>, k: nat) {
    && k < |chain|
    && (forall m | 0 < m <= k :: !chain[m].hasBody)
    && (k == |chain| - 1 || chain[k + 1].hasBody)
  }

  /** `findRootNode(node)`: climb while there is a parent and it has no body. */
  method FindRootNode(chain: seq<Ancestor>) returns (k: nat)
    requires |chain| > 0
    ensures IsRoot(chain, k)
  {
    k := 0;
    while k + 1 < |chain| && !chain[k + 1].hasBody
      invariant k < |chain|
      invariant forall m | 0 < m <= k :: !chain[m].hasBody
      decreases |chain| - k
    {
      k := k + 1;
    }
  }

  /** The climb has one stopping place. */
  lemma RootUnique(chain: seq<Ancestor>, k1: nat, k2: nat)
    requires IsRoot(chain, k1) && IsRoot(chain, k2)
    ensures k1 == k2
  {
  }

  // ---------------------------------------------------------------------------
  // Registration
  // ---------------------------------------------------------------------------

  /** One registered `require`: the module name, its rank and the range of its
      root statement. */
  datatype Required = Required(name: string, rank: nat, start: nat, end: nat)

  function RankOf(r: Required): nat {
    r.rank
  }

  /** The `CallExpression` visitor: a `require` of one literal whose parent is a
      variable declarator is appended with its rank; anything else leaves the list
      as it was. The literal must hold a string (`name.includes` throws otherwise). */
  function RegisterCall(call: Node, parentKind: string, root: Ancestor, list: seq<Required>): (r: seq<Required>)
    requires call.Call?
    requires IsRequire(Some(call)) ==> call.arguments[0].value.Str?
    ensures |r| == |list| || |r| == |list| + 1
    ensures r[..|list|] == list
    ensures |r| == |list| + 1 <==> IsRequire(Some(call)) && parentKind == "VariableDeclarator"
    ensures |r| == |list| + 1 ==>
              exists name ::
                && call == Call(Identifier("require"), [Literal(Str(name))])
                && r[|list|] == Required(name, OrderCommon.LastMatchIndex(DefaultOrder, name) + 1, root.start, root.end)
  {
    if !IsRequire(Some(call)) || parentKind != "VariableDeclarator" then list
    else
      var name := call.arguments[0].value.s;
      list + [Required(name, ComputeRank(name), root.start, root.end)]
  }

  /** The visitor together with `findRootNode`: the range recorded for a registered
      `require` is that of the node the climb from the call stops at (the rule climbs
      when it reports; the tree does not change in between). */
  method RegisterRequire(call: Node, parentKind: string, chain: seq<Ancestor>, list: seq<Required>)
    returns (r: seq<Required>)
    requires call.Call? && |chain| > 0
    requires IsRequire(Some(call)) ==> call.arguments[0].value.Str?
    ensures |r| == |list| || |r| == |list| + 1
    ensures r[..|list|] == list
    ensures |r| == |list| + 1 <==> IsRequire(Some(call)) && parentKind == "VariableDeclarator"
    ensures |r| == |list| + 1 ==>
              exists k: nat | IsRoot(chain, k) :: r[|list|].start == chain[k].start && r[|list|].end == chain[k].end
  {
    var k := FindRootNode(chain);
    r := RegisterCall(call, parentKind, chain[k], list);
  }

  // ---------------------------------------------------------------------------
  // The report
  // ---------------------------------------------------------------------------

  /** The moved span is the root statement itself. */
  const RequireLayout: Layout<Required> :=
    Layout((r: Required) => r.start, (r: Required) => r.end, (r: Required) => r.end)

  function Message(r: Required): string {
    r.name + " was not required in the correct order"
  }

  /** The `Program:exit` handler: one report per out-of-order `require`, in order,
      each naming the module, with the first `require` ranking above it as the
      anchor its fix moves it in front of. */
  method GenerateRequireReport(list: seq<Required>) returns (reports: seq<Report<Required>>)
    ensures |reports| == |Flagged(list, RankOf, |list|)|
    ensures forall k | 0 <= k < |reports| ::
              && reports[k].record == Flagged(list, RankOf, |list|)[k]
              && reports[k].message == reports[k].record.name + " was not required in the correct order"
              && AnchoredInList(list, RankOf, reports[k])
  {
    reports := GenerateReport(list, RankOf, Message);
  }

  /** For `require`s registered in source order, the fix for an out-of-order one
      moves exactly its statement (a comment after it stays behind) and a newline
      in front of its anchor, which precedes it; at the end of the text nothing
      follows the statement to be removed. Two `require`s of one declaration are not
      in source order: see `SharedDeclarationFixOverlaps`. */
  lemma RequireFixMovesStatement(text: string, list: seq<Required>, i: nat) returns (j: nat)
    requires i < |list| && OutOfOrderAt(list, RankOf, i)
    requires InSourceOrder(list, RequireLayout)
    requires list[i].end <= |text|
    ensures j < i && FindAnchor(list, RankOf, list[i].rank) == Some(j)
    ensures ValidEdits(FixFor(text, RequireLayout, list[i], list[j]), |text|)
    ensures ApplyAll(text, FixFor(text, RequireLayout, list[i], list[j]))
            == Splice(text, list[i].start, list[i].end, list[j].start)
  {
    j := FixMovesViolatorBeforeAnchor(text, list, RankOf, RequireLayout, i);
  }

  // ---------------------------------------------------------------------------
  // Two requires in one declaration
  // ---------------------------------------------------------------------------

  /** `const a = require('models/a'), b = require('@roadmunk/b');` spanning `[s, e)`:
      both calls climb to the one declaration, so both records carry its range. */
  function SharedDeclaration(s: nat, e: nat): seq<Required> {
    [Required("models/a", ComputeRank("models/a"), s, e), Required("@roadmunk/b", ComputeRank("@roadmunk/b"), s, e)]
  }

  /** `models/a` contains no entry of the table after `models`. */
  lemma ModelsMatchesNoLater()
    ensures forall k | 4 <= k < |DefaultOrder| :: !Includes("models/a", DefaultOrder[k])
  {
    forall k | 4 <= k < |DefaultOrder|
      ensures !Includes("models/a", DefaultOrder[k])
    {
      var c := if k == 7 then 't' else if k == 5 then 'v' else 'c';
      MissingCharExcludes("models/a", DefaultOrder[k], c);
    }
  }

  /** `models/a` falls in the `models` category. */
  lemma ModelsRank()
    ensures ComputeRank("models/a") == 4
  {
    assert OccursAt("models/a", DefaultOrder[3], 0);
    OccurrenceIncludes("models/a", DefaultOrder[3], 0);
    ModelsMatchesNoLater();
  }

  /** `@roadmunk/b` contains no later entry of the table. */
  lemma RoadmunkMatchesNoLater()
    ensures forall k | 1 <= k < |DefaultOrder| :: !Includes("@roadmunk/b", DefaultOrder[k])
  {
    forall k | 1 <= k < |DefaultOrder|
      ensures !Includes("@roadmunk/b", DefaultOrder[k])
    {
      var c := if k <= 4 then 'l' else 's';
      MissingCharExcludes("@roadmunk/b", DefaultOrder[k], c);
    }
  }

  /** `@roadmunk/b` falls in the `@roadmunk` category. */
  lemma RoadmunkRank()
    ensures ComputeRank("@roadmunk/b") == 1
  {
    assert OccursAt("@roadmunk/b", DefaultOrder[0], 0);
    OccurrenceIncludes("@roadmunk/b", DefaultOrder[0], 0);
    RoadmunkMatchesNoLater();
  }

  /** As written, the second `require` of a shared declaration is out of order with
      the first as its anchor, and its two edits (replace `[s, e)`, remove
      `[s, e + 1)`) overlap, which one fix may not do. */
  lemma SharedDeclarationFixOverlaps(text: string, s: nat, e: nat)
    requires s < e <= |text|
    ensures var list := SharedDeclaration(s, e);
            && OutOfOrderAt(list, RankOf, 1)
            && FindAnchor(list, RankOf, list[1].rank) == Some(0)
            && !ValidEdits(FixFor(text, RequireLayout, list[1], list[0]), |text|)
  {
    var list := SharedDeclaration(s, e);
    ModelsRank();
    RoadmunkRank();
    assert list[..1] == [list[0]];
    var fix := FixFor(text, RequireLayout, list[1], list[0]);
    assert fix[0].end == e && fix[1].start == s;
  }

  /** Records in source order, except that records sharing a declaration carry the
      same range. */
  predicate InSourceOrderShared(list: seq<Required>) {
    && (forall i | 0 <= i < |list| :: list[i].start <= list[i].end)
    && (forall i, j | 0 <= i < j < |list| ::
          list[i].end <= list[j].start || (list[i].start == list[j].start && list[i].end == list[j].end))
  }

  /** The fix as intended: offered only when the anchor's statement ends before the
      violator's begins, so the two edits never overlap. */
  function RequireFixCorrected(text: string, v: Required, a: Required): (r: Option<seq<Edit>>)
    requires v.end <= |text|
    ensures r.Some? <==> a.end <= v.start
    ensures r.Some? ==> r.value == FixFor(text, RequireLayout, v, a)
  {
    if a.end <= v.start then Some(FixFor(text, RequireLayout, v, a)) else None
  }

  /** With shared declarations allowed, the corrected fix for an out-of-order
      `require` is withheld exactly when it shares its anchor's non-empty range, and
      otherwise is a valid edit set that moves the statement in front of its anchor. */
  lemma CorrectedFixNeverOverlaps(text: string, list: seq<Required>, i: nat) returns (j: nat)
    requires i < |list| && OutOfOrderAt(list, RankOf, i)
    requires InSourceOrderShared(list)
    requires list[i].end <= |text|
    ensures j < i && FindAnchor(list, RankOf, list[i].rank) == Some(j)
    ensures RequireFixCorrected(text, list[i], list[j]).None? <==>
              list[j].start == list[i].start && list[j].end == list[i].end && list[i].start < list[i].end
    ensures RequireFixCorrected(text, list[i], list[j]).Some? ==>
              var fix := RequireFixCorrected(text, list[i], list[j]).value;
              && ValidEdits(fix, |text|)
              && ApplyAll(text, fix) == Splice(text, list[i].start, list[i].end, list[j].start)
  {
    AnchorPrecedesViolator(list, RankOf, i);
    j := FindAnchor(list, RankOf, list[i].rank).value;
    var v, a := list[i], list[j];
    if a.end <= v.start {
      FixIsSplice(text, RequireLayout, v, a);
    }
  }
}

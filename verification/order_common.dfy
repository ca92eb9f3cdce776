/** The import ordering engine of `lib/order-common.js`: each registered import gets a
    rank from its module name, the greedy scan flags the imports that rank below an
    earlier one, and each flagged import is moved, with its same-line trailing
    comment, in front of the first import that ranks above it. */
module OrderCommon {
  import opened Optional
  import opened Text
  import opened Ordering

  /** The category table: an import matching an earlier entry sorts first. */
  const DefaultOrder: seq<string> := [
    "@roadmunk/",
    "lib/",
    "common/lib/",
    "models/",
    "common/models/",
    "views/",
    "common/views/",
    "tests/",
    "common/tests",
    "text!"
  ]

  /** `isRelativeRequire`: the name starts with `.`. */
  predicate IsRelativeRequire(name: string) {
    StartsWith(name, ".")
  }

  /** `isSubModule`: the name contains a `/`. */
  predicate IsSubModule(name: string) {
    '/' in name
  }

  // ---------------------------------------------------------------------------
  // computeRank, as written: filter, then indexOf of the last match
  // ---------------------------------------------------------------------------

  /** `table.filter(entry => name.includes(entry))`. */
  function Matches(table: seq<string>, name: string): (m: seq<string>)
    ensures forall k | 0 <= k < |m| :: m[k] in table && Includes(name, m[k])
  {
    if |table| == 0 then []
    else
      var last := table[|table| - 1];
      Matches(table[..|table| - 1], name) + (if Includes(name, last) then [last] else [])
  }

  /** `table.indexOf(e)`, searching from position `from`. */
  function IndexOfEntryFrom(table: seq<string>, e: string, from: nat): (r: int)
    requires from <= |table|
    ensures r == -1 || (from <= r < |table| && table[r] == e)
    ensures r == -1 ==> forall j | from <= j < |table| :: table[j] != e
    ensures r != -1 ==> forall j | from <= j < r :: table[j] != e
    decreases |table| - from
  {
    if from == |table| then -1
    else if table[from] == e then from
    else IndexOfEntryFrom(table, e, from + 1)
  }

  /** `table.indexOf(e)`: the first position of `e`, or -1. */
  function IndexOfEntry(table: seq<string>, e: string): int {
    IndexOfEntryFrom(table, e, 0)
  }

  /** `computeRank` over a category table of `N` entries: no match gives 0 for a bare
      package, `2(N+1)` for a name with a `/` and `2(N+1)+2` for a relative name;
      otherwise twice one more than the table position of the last match, plus one
      for a relative name. */
  function ComputeRankIn(table: seq<string>, name: string): nat {
    var found := Matches(table, name);
    if |found| == 0 then
      if IsSubModule(name) then (|table| + 1) * 2
      else if IsRelativeRequire(name) then (|table| + 1) * 2 + 2
      else 0
    else
      var i := IndexOfEntry(table, found[|found| - 1]);
      assert i >= 0;
      var base := (i + 1) * 2;
      if IsRelativeRequire(name) then base + 1 else base
  }

  // ---------------------------------------------------------------------------
  // The intended classification, stated independently
  // ---------------------------------------------------------------------------

  /** No entry occurs twice in the table. */
  predicate Distinct(table: seq<string>) {
    forall i, j | 0 <= i < j < |table| :: table[i] != table[j]
  }

  /** The highest table position whose entry occurs in `name`, or -1. */
  function LastMatchIndex(table: seq<string>, name: string): (r: int)
    ensures -1 <= r < |table|
    ensures r >= 0 ==> Includes(name, table[r])
    ensures forall j | r < j < |table| :: !Includes(name, table[j])
  {
    if |table| == 0 then -1
    else if Includes(name, table[|table| - 1]) then |table| - 1
    else LastMatchIndex(table[..|table| - 1], name)
  }

  /** What an import is, as far as ordering goes. */
  datatype Category =
    | TopLevel                           // a bare package name such as `lodash`
    | Known(index: nat, relative: bool)  // matches table entry `index` (last match)
    | UnknownSubModule                   // a path that matches no entry
    | UnknownRelative                    // a relative name without `/` that matches no entry

  predicate ValidCategory(n: nat, c: Category) {
    c.Known? ==> c.index < n
  }

  function Categorize(table: seq<string>, name: string): (c: Category)
    ensures ValidCategory(|table|, c)
  {
    var k := LastMatchIndex(table, name);
    if k >= 0 then Known(k, IsRelativeRequire(name))
    else if IsSubModule(name) then UnknownSubModule
    else if IsRelativeRequire(name) then UnknownRelative
    else TopLevel
  }

  /** The rank of each category, for a table of `n` entries. */
  function CategoryRank(n: nat, c: Category): nat {
    match c
    case TopLevel => 0
    case Known(i, rel) => 2 * (i + 1) + (if rel then 1 else 0)
    case UnknownSubModule => 2 * (n + 1)
    case UnknownRelative => 2 * (n + 1) + 2
  }

  /** Reads the category back from a rank. */
  function CategoryOfRank(n: nat, r: nat): Category {
    if r < 2 then TopLevel
    else if r <= 2 * n + 1 then Known(r / 2 - 1, r % 2 == 1)
    else if r == 2 * n + 2 then UnknownSubModule
    else UnknownRelative
  }

  /** Distinct categories get distinct ranks: the rank can be read back. */
  lemma CategoryRankRoundTrip(n: nat, c: Category)
    requires ValidCategory(n, c)
    ensures CategoryOfRank(n, CategoryRank(n, c)) == c
  {
    match c
    case Known(i, rel) =>
      var r := 2 * (i + 1) + (if rel then 1 else 0);
      assert r / 2 == i + 1;
    case _ =>
  }

  /** The last filtered entry is the entry at the last matching position. */
  lemma {:induction false} LastOfMatches(table: seq<string>, name: string)
    ensures |Matches(table, name)| == 0 <==> LastMatchIndex(table, name) == -1
    ensures |Matches(table, name)| > 0 ==>
              Matches(table, name)[|Matches(table, name)| - 1] == table[LastMatchIndex(table, name)]
    decreases |table|
  {
    if |table| > 0 && !Includes(name, table[|table| - 1]) {
      var init := table[..|table| - 1];
      LastOfMatches(init, name);
      assert Matches(table, name) == Matches(init, name);
      if LastMatchIndex(init, name) >= 0 {
        assert init[LastMatchIndex(init, name)] == table[LastMatchIndex(init, name)];
      }
    }
  }

  /** For a table without duplicates, `computeRank` ranks a name by its category:
      the `indexOf` of the last match is the last matching position. */
  lemma ComputeRankByCategory(table: seq<string>, name: string)
    requires Distinct(table)
    ensures ComputeRankIn(table, name) == CategoryRank(|table|, Categorize(table, name))
  {
    LastOfMatches(table, name);
    var found := Matches(table, name);
    if |found| > 0 {
      var k := LastMatchIndex(table, name);
      var i := IndexOfEntry(table, found[|found| - 1]);
      assert table[i] == table[k];
    }
  }

  lemma DefaultOrderDistinct()
    ensures Distinct(DefaultOrder)
  {
  }

  /** `computeRank` with the default table: bare packages rank 0, a name whose last
      matching entry is at position `k` ranks `2(k+1)`, one more when relative,
      unmatched paths rank 22 and unmatched relative names 24, the largest rank. */
  function ComputeRank(name: string): (r: nat)
    ensures r == CategoryRank(|DefaultOrder|, Categorize(DefaultOrder, name))
    ensures LastMatchIndex(DefaultOrder, name) == -1 && !IsSubModule(name) && !IsRelativeRequire(name)
            ==> r == 0
    ensures LastMatchIndex(DefaultOrder, name) >= 0
            ==> r == 2 * (LastMatchIndex(DefaultOrder, name) + 1) + (if IsRelativeRequire(name) then 1 else 0)
    ensures LastMatchIndex(DefaultOrder, name) >= 0 ==> 2 <= r <= 2 * |DefaultOrder| + 1
    ensures LastMatchIndex(DefaultOrder, name) == -1 && IsSubModule(name) ==> r == 2 * (|DefaultOrder| + 1)
    ensures LastMatchIndex(DefaultOrder, name) == -1 && !IsSubModule(name) && IsRelativeRequire(name)
            ==> r == 2 * (|DefaultOrder| + 1) + 2
    ensures r <= 2 * (|DefaultOrder| + 1) + 2
  {
    DefaultOrderDistinct();
    ComputeRankByCategory(DefaultOrder, name);
    ComputeRankIn(DefaultOrder, name)
  }

  /** No default entry is empty or starts with `.` or `/`. */
  lemma DefaultOrderEntriesStartPlain()
    ensures forall i | 0 <= i < |DefaultOrder| ::
              |DefaultOrder[i]| > 0 && DefaultOrder[i][0] != '.' && DefaultOrder[i][0] != '/'
  {
  }

  /** Prefixing a name with characters no entry starts with leaves its last match
      where it was. */
  lemma {:induction false} LastMatchIgnoresPrefix(table: seq<string>, p: string, name: string)
    requires forall i | 0 <= i < |table| :: |table[i]| > 0 && table[i][0] !in p
    ensures LastMatchIndex(table, p + name) == LastMatchIndex(table, name)
    decreases |table|
  {
    if |table| > 0 {
      PrefixKeepsIncludes(p, name, table[|table| - 1]);
      LastMatchIgnoresPrefix(table[..|table| - 1], p, name);
    }
  }

  /** The relative variants `./x` and `../x` of a name that matches a category rank
      exactly one above it. */
  lemma RelativeVariantRanksOneAbove(name: string, prefix: string)
    requires prefix == "./" || prefix == "../"
    requires !IsRelativeRequire(name)
    requires LastMatchIndex(DefaultOrder, name) >= 0
    ensures ComputeRank(prefix + name) == ComputeRank(name) + 1
  {
    DefaultOrderEntriesStartPlain();
    LastMatchIgnoresPrefix(DefaultOrder, prefix, name);
    assert (prefix + name)[..1] == ".";
  }

  // ---------------------------------------------------------------------------
  // Registered imports
  // ---------------------------------------------------------------------------

  /** A comment after the statement: the line it starts on and its end offset. */
  datatype Comment = Comment(startLine: nat, end: nat)

  /** The statement to move: its offsets, the line it ends on and its trailing comments. */
  datatype Root = Root(start: nat, end: nat, endLine: nat, trailing: seq<Comment>)

  /** `ImportData` (the node itself is only used to place the report). */
  datatype ImportData = ImportData(root: Root, moduleName: string, rank: nat)

  function RankOf(d: ImportData): nat {
    d.rank
  }

  /** `registerNode`: appends the import with its rank, computed once. */
  function RegisterNode(root: Root, moduleName: string, list: seq<ImportData>): (r: seq<ImportData>)
    ensures |r| == |list| + 1 && r[..|list|] == list
    ensures r[|list|].moduleName == moduleName && r[|list|].root == root
    ensures r[|list|].rank == CategoryRank(|DefaultOrder|, Categorize(DefaultOrder, moduleName))
  {
    list + [ImportData(root, moduleName, ComputeRank(moduleName))]
  }

  // ---------------------------------------------------------------------------
  // The moved span
  // ---------------------------------------------------------------------------

  /** The end offset pushed past every comment that starts on `line`, in order. */
  function ExtendEnd(end: nat, line: nat, comments: seq<Comment>): nat
    decreases |comments|
  {
    if |comments| == 0 then end
    else
      var c := comments[0];
      var next := if c.startLine == line then Max(end, c.end) else end;
      ExtendEnd(next, line, comments[1..])
  }

  /** The extended end is the larger of the end and the ends of the comments on
      `line`: at least each of them, and equal to one of them. */
  lemma {:induction false} ExtendEndIsMax(end: nat, line: nat, comments: seq<Comment>)
    ensures ExtendEnd(end, line, comments) >= end
    ensures forall c | c in comments && c.startLine == line :: c.end <= ExtendEnd(end, line, comments)
    ensures ExtendEnd(end, line, comments) == end
            || exists c | c in comments :: c.startLine == line && c.end == ExtendEnd(end, line, comments)
    decreases |comments|
  {
    if |comments| > 0 {
      var c := comments[0];
      var next := if c.startLine == line then Max(end, c.end) else end;
      ExtendEndIsMax(next, line, comments[1..]);
      assert comments == [c] + comments[1..];
    }
  }

  /** The end of the moved span: the statement's end, or the end of a trailing
      comment that starts on the line the statement ends on, whichever is later. */
  function MovedEnd(root: Root): (e: nat)
    ensures e >= root.end
    ensures forall c | c in root.trailing && c.startLine == root.endLine :: c.end <= e
    ensures e == root.end || exists c | c in root.trailing :: c.startLine == root.endLine && c.end == e
  {
    ExtendEndIsMax(root.end, root.endLine, root.trailing);
    ExtendEnd(root.end, root.endLine, root.trailing)
  }

  /** A comment starting on another line never moves the end of the span, wherever
      it appears among the trailing comments. */
  lemma {:induction false} OtherLineCommentIgnored(end: nat, line: nat, before: seq<Comment>, c: Comment, after: seq<Comment>)
    requires c.startLine != line
    ensures ExtendEnd(end, line, before + [c] + after) == ExtendEnd(end, line, before + after)
    decreases |before|
  {
    var xs := before + [c] + after;
    var ys := before + after;
    if |before| == 0 {
      assert xs[0] == c && xs[1..] == ys;
    } else {
      var b := before[0];
      var next := if b.startLine == line then Max(end, b.end) else end;
      OtherLineCommentIgnored(next, line, before[1..], c, after);
      assert xs[0] == b && xs[1..] == before[1..] + [c] + after;
      assert ys[0] == b && ys[1..] == before[1..] + after;
      assert ExtendEnd(end, line, xs) == ExtendEnd(next, line, xs[1..]);
      assert ExtendEnd(end, line, ys) == ExtendEnd(next, line, ys[1..]);
    }
  }

  // ---------------------------------------------------------------------------
  // The report and its fix
  // ---------------------------------------------------------------------------

  /** The statement is the import's root node; the moved span runs to `MovedEnd`. */
  const ImportLayout: Layout<ImportData> :=
    Layout((d: ImportData) => d.root.start, (d: ImportData) => d.root.end, (d: ImportData) => MovedEnd(d.root))

  /** `reportOutOfOrderNode`'s fix for one import whose same-line trailing comments
      travel with it: for imports registered in source order it moves the import and
      those comments, followed by a newline, directly in front of the first import
      ranking above it, which lies earlier in the text. An import that ends the text
      has no character after it to remove, so the text grows by the newline. */
  lemma ImportFixMovesCommentToo(text: string, list: seq<ImportData>, i: nat) returns (j: nat)
    requires i < |list| && OutOfOrderAt(list, RankOf, i)
    requires InSourceOrder(list, ImportLayout)
    requires MovedEnd(list[i].root) <= |text|
    ensures j < i && FindAnchor(list, RankOf, list[i].rank) == Some(j)
    ensures ValidEdits(FixFor(text, ImportLayout, list[i], list[j]), |text|)
    ensures ApplyAll(text, FixFor(text, ImportLayout, list[i], list[j]))
            == Splice(text, list[i].root.start, MovedEnd(list[i].root), list[j].root.start)
  {
    j := FixMovesViolatorBeforeAnchor(text, list, RankOf, ImportLayout, i);
  }
}

/** Strings as JavaScript sees them (`includes`, `startsWith`, `endsWith`, `substring`,
    `indexOf`, `split`, `join`) and text edits as the lint host applies them: a range of
    the original text and its replacement. */
module Text {

  // ---------------------------------------------------------------------------
  // Substring search
  // ---------------------------------------------------------------------------

  /** `sub` occurs in `s` at offset `i`. */
  predicate OccursAt(s: string, sub: string, i: int) {
    0 <= i && i + |sub| <= |s| && s[i..i + |sub|] == sub
  }

  /** `s.includes(sub)`. */
  predicate Includes(s: string, sub: string) {
    exists i | 0 <= i <= |s| - |sub| :: OccursAt(s, sub, i)
  }

  /** `s.startsWith(p)`. */
  predicate StartsWith(s: string, p: string) {
    |p| <= |s| && s[..|p|] == p
  }

  /** `s.endsWith(p)`. */
  predicate EndsWith(s: string, p: string) {
    |p| <= |s| && s[|s| - |p|..] == p
  }

  /** A string cannot contain a pattern holding a character the string lacks. */
  lemma MissingCharExcludes(s: string, sub: string, c: char)
    requires c in sub && c !in s
    ensures !Includes(s, sub)
  {
    var k :| 0 <= k < |sub| && sub[k] == c;
    forall i | 0 <= i <= |s| - |sub|
      ensures !OccursAt(s, sub, i)
    {
      assert s[i..i + |sub|][k] == s[i + k] != c;
    }
  }

  /** A pattern occurs at offset `i` of `s` exactly when it is found there. */
  lemma OccurrenceIncludes(s: string, sub: string, i: int)
    requires OccursAt(s, sub, i)
    ensures Includes(s, sub)
  {
  }

  /** Prepending text whose characters never start the pattern creates no new
      occurrence and removes none. */
  lemma PrefixKeepsIncludes(p: string, n: string, e: string)
    requires |e| > 0 && e[0] !in p
    ensures Includes(p + n, e) <==> Includes(n, e)
  {
    if Includes(n, e) {
      var i :| 0 <= i <= |n| - |e| && OccursAt(n, e, i);
      assert (p + n)[i + |p|..i + |p| + |e|] == n[i..i + |e|];
      assert OccursAt(p + n, e, i + |p|);
    }
    if Includes(p + n, e) {
      var i :| 0 <= i <= |p + n| - |e| && OccursAt(p + n, e, i);
      assert (p + n)[i..i + |e|][0] == (p + n)[i];
      assert i >= |p|;
      assert (p + n)[i..i + |e|] == n[i - |p|..i - |p| + |e|];
      assert OccursAt(n, e, i - |p|);
    }
  }

  // ---------------------------------------------------------------------------
  // Positions
  // ---------------------------------------------------------------------------

  /** An index argument clamped into `[0, len]`, as `substring` and `indexOf` do. */
  function Clamp(x: int, len: nat): (r: nat)
    ensures r <= len
    ensures 0 <= x <= len ==> r == x
  {
    if x < 0 then 0 else if x > len then len else x
  }

  /** `s.substring(a, b)`: both ends clamped into the string, swapped when reversed. */
  function Substring(s: string, a: int, b: int): (r: string)
    ensures 0 <= a <= b <= |s| ==> r == s[a..b]
    ensures |r| <= |s|
  {
    var x := Clamp(a, |s|);
    var y := Clamp(b, |s|);
    if x <= y then s[x..y] else s[y..x]
  }

  /** `s.indexOf(c, from)`: the first occurrence of `c` at or after the clamped
      start, or -1. */
  function IndexOfFrom(s: string, c: char, from: int): (r: int)
    ensures r == -1 || (Clamp(from, |s|) <= r < |s| && s[r] == c)
    ensures r == -1 ==> forall j | Clamp(from, |s|) <= j < |s| :: s[j] != c
    ensures r != -1 ==> forall j | Clamp(from, |s|) <= j < r :: s[j] != c
    decreases |s| - Clamp(from, |s|)
  {
    var k := Clamp(from, |s|);
    if k == |s| then -1
    else if s[k] == c then k
    else IndexOfFrom(s, c, k + 1)
  }

  /** `s.indexOf(c)`. */
  function IndexOf(s: string, c: char): int {
    IndexOfFrom(s, c, 0)
  }

  /** `s.lastIndexOf(c)`: the last occurrence of `c`, or -1. */
  function LastIndexOf(s: string, c: char): (r: int)
    ensures -1 <= r < |s|
    ensures r == -1 <==> c !in s
    ensures 0 <= r ==> s[r] == c && forall j | r < j < |s| :: s[j] != c
  {
    if |s| == 0 then -1
    else if s[|s| - 1] == c then |s| - 1
    else LastIndexOf(s[..|s| - 1], c)
  }

  // ---------------------------------------------------------------------------
  // split / join on one separator character
  // ---------------------------------------------------------------------------

  /** `s.split(sep)` for a one-character separator: the pieces between separators,
      at least one, none containing the separator. */
  function Split(s: string, sep: char): (parts: seq<string>)
    ensures |parts| >= 1
    ensures forall i | 0 <= i < |parts| :: sep !in parts[i]
    decreases |s|
  {
    var k := LastIndexOf(s, sep);
    if k < 0 then [s]
    else
      AfterLastSeparator(s, sep);
      Split(s[..k], sep) + [s[k + 1..]]
  }

  /** Nothing after the last separator is a separator. */
  lemma AfterLastSeparator(s: string, sep: char)
    requires LastIndexOf(s, sep) >= 0
    ensures sep !in s[LastIndexOf(s, sep) + 1..]
  {
    var k := LastIndexOf(s, sep);
    var rest := s[k + 1..];
    forall j | 0 <= j < |rest|
      ensures rest[j] != sep
    {
      assert rest[j] == s[k + 1 + j];
    }
  }

  /** `parts.join(sep)`. */
  function Join(parts: seq<string>, sep: char): string {
    if |parts| == 0 then ""
    else if |parts| == 1 then parts[0]
    else Join(parts[..|parts| - 1], sep) + [sep] + parts[|parts| - 1]
  }

  /** Joining the pieces of a split gives back the string. */
  lemma {:induction false} JoinSplit(s: string, sep: char)
    ensures Join(Split(s, sep), sep) == s
    decreases |s|
  {
    var k := LastIndexOf(s, sep);
    if k >= 0 {
      JoinSplit(s[..k], sep);
      var ps := Split(s[..k], sep);
      JoinSnoc(ps, s[k + 1..], sep);
      assert s == s[..k] + [sep] + s[k + 1..];
    }
  }

  /** Joining one more piece appends a separator and the piece. */
  lemma JoinSnoc(ps: seq<string>, x: string, sep: char)
    requires |ps| >= 1
    ensures Join(ps + [x], sep) == Join(ps, sep) + [sep] + x
  {
    assert (ps + [x])[..|ps|] == ps;
  }

  /** Text put in front of the first piece ends up in front of the whole join. */
  lemma {:induction false} JoinPrefixFirst(p: string, ps: seq<string>, sep: char)
    requires |ps| >= 1
    ensures Join([p + ps[0]] + ps[1..], sep) == p + Join(ps, sep)
    decreases |ps|
  {
    if |ps| > 1 {
      var init := ps[..|ps| - 1];
      var q := [p + ps[0]] + ps[1..];
      JoinPrefixFirst(p, init, sep);
      assert q[..|q| - 1] == [p + init[0]] + init[1..];
      assert q[|q| - 1] == ps[|ps| - 1];
    }
  }

  /** The last occurrence of `sep` in `j + [sep] + l`, when `l` holds none, is the one
      between them. */
  lemma LastSeparator(j: string, sep: char, l: string)
    requires sep !in l
    ensures LastIndexOf(j + [sep] + l, sep) == |j|
  {
    var t := j + [sep] + l;
    var r := LastIndexOf(t, sep);
    assert t[|j|] == sep;
    assert r <= |j|;
  }

  /** Splitting a join of separator-free pieces gives back the pieces. */
  lemma {:induction false} SplitJoin(parts: seq<string>, sep: char)
    requires |parts| >= 1
    requires forall i | 0 <= i < |parts| :: sep !in parts[i]
    ensures Split(Join(parts, sep), sep) == parts
    decreases |parts|
  {
    if |parts| > 1 {
      var init := parts[..|parts| - 1];
      var last := parts[|parts| - 1];
      var j := Join(init, sep);
      LastSeparator(j, sep, last);
      var t := j + [sep] + last;
      assert t[..|j|] == j;
      assert t[|j| + 1..] == last;
      SplitJoin(init, sep);
      assert parts == init + [last];
    } else {
      assert LastIndexOf(parts[0], sep) == -1;
    }
  }

  /** Two separator-free words around one separator split into exactly those two. */
  lemma SplitPair(a: string, sep: char, b: string)
    requires sep !in a && sep !in b
    ensures Split(a + [sep] + b, sep) == [a, b]
  {
    assert Join([a, b], sep) == a + [sep] + b;
    SplitJoin([a, b], sep);
  }

  /** `s.split(sep)[0]`. */
  function FirstPiece(s: string, sep: char): string {
    Split(s, sep)[0]
  }

  /** `r` is the run of `s` before its first `sep` (all of `s` when there is none). */
  predicate LeadingRun(s: string, sep: char, r: string) {
    StartsWith(s, r) && sep !in r && (|r| == |s| || s[|r|] == sep)
  }

  /** The first piece of a split is the leading run before the first separator. */
  lemma {:induction false} FirstPieceIsLeadingRun(s: string, sep: char)
    ensures LeadingRun(s, sep, FirstPiece(s, sep))
    decreases |s|
  {
    var k := LastIndexOf(s, sep);
    if k >= 0 {
      FirstPieceIsLeadingRun(s[..k], sep);
      var ps := Split(s[..k], sep);
      assert Split(s, sep)[0] == ps[0];
      var r := ps[0];
      assert s[..k][..|r|] == s[..|r|];
      if |r| < k {
        assert s[..k][|r|] == s[|r|];
      }
    }
  }

  /** A string has only one leading run. */
  lemma LeadingRunUnique(s: string, sep: char, r1: string, r2: string)
    requires LeadingRun(s, sep, r1) && LeadingRun(s, sep, r2)
    ensures r1 == r2
  {
    assert |r1| == |r2|;
  }

  /** A word followed by a separator is the first piece of the string, whatever follows. */
  lemma FirstPieceOfPrefixed(w: string, sep: char, rest: string)
    requires sep !in w
    ensures FirstPiece(w + [sep] + rest, sep) == w
  {
    var s := w + [sep] + rest;
    FirstPieceIsLeadingRun(s, sep);
    assert s[..|w|] == w;
    assert LeadingRun(s, sep, w);
    LeadingRunUnique(s, sep, w, FirstPiece(s, sep));
  }

  /** `name.split('.').slice(0, -1).join('.') || name`: the name without its last
      `.`-separated segment, or the whole name when that leaves nothing. */
  function StripLastExtension(name: string): string {
    var parts := Split(name, '.');
    var base := Join(parts[..|parts| - 1], '.');
    if base != "" then base else name
  }

  /** Stripping keeps exactly the text before the last `.`, unless that text is empty
      or there is no `.`, in which case the name is kept whole. */
  lemma StripLastExtensionSpec(name: string)
    ensures var k := LastIndexOf(name, '.');
            StripLastExtension(name) == if k > 0 then name[..k] else name
  {
    var k := LastIndexOf(name, '.');
    var parts := Split(name, '.');
    if k >= 0 {
      var ps := Split(name[..k], '.');
      assert parts == ps + [name[k + 1..]];
      assert parts[..|parts| - 1] == ps;
      JoinSplit(name[..k], '.');
    } else {
      assert parts == [name];
    }
  }

  // ---------------------------------------------------------------------------
  // Decimal rendering of numbers (`String(n)` / `n.toString()` for integers)
  // ---------------------------------------------------------------------------

  function DigitChar(d: nat): (c: char)
    requires d < 10
    ensures '0' <= c <= '9'
  {
    ['0', '1', '2', '3', '4', '5', '6', '7', '8', '9'][d]
  }

  /** The decimal text of an integer, with a leading `-` when negative. */
  function IntToString(n: int): (r: string)
    ensures |r| >= 1
    ensures ' ' !in r && '.' !in r
    decreases if n < 0 then 1 - n else n
  {
    if n < 0 then "-" + IntToString(-n)
    else if n < 10 then [DigitChar(n)]
    else IntToString(n / 10) + [DigitChar(n % 10)]
  }

  // ---------------------------------------------------------------------------
  // Text edits
  // ---------------------------------------------------------------------------

  /** Replace the text in `[start, end)` of the original text by `replacement`. */
  datatype Edit = Edit(start: nat, end: nat, replacement: string)

  predicate FitsIn(e: Edit, len: nat) {
    e.start <= e.end <= len
  }

  /** One edit applied to the text. */
  function Apply(text: string, e: Edit): (r: string)
    requires FitsIn(e, |text|)
    ensures |r| == |text| - (e.end - e.start) + |e.replacement|
  {
    text[..e.start] + e.replacement + text[e.end..]
  }

  /** Edits in position order that do not overlap, all within a text of length `len`:
      what one atomic fix must be. */
  predicate ValidEdits(edits: seq<Edit>, len: nat) {
    && (forall i | 0 <= i < |edits| :: FitsIn(edits[i], len))
    && (forall i, j | 0 <= i < j < |edits| :: edits[i].end <= edits[j].start)
  }

  /** All edits of one fix applied together, each against the original offsets: the
      last one first, so that the earlier ranges are not shifted. */
  function ApplyAll(text: string, edits: seq<Edit>): string
    requires ValidEdits(edits, |text|)
    decreases |edits|
  {
    if |edits| == 0 then text
    else
      var last := edits[|edits| - 1];
      var t := Apply(text, last);
      assert forall i | 0 <= i < |edits| - 1 :: edits[i].end <= last.start;
      ApplyAll(t, edits[..|edits| - 1])
  }

  /** A fix of one edit is that edit applied. */
  lemma ApplyOne(text: string, a: Edit)
    requires FitsIn(a, |text|)
    ensures ValidEdits([a], |text|)
    ensures ApplyAll(text, [a]) == Apply(text, a)
  {
    assert [a][..0] == [];
  }

  /** A fix of two ordered edits is the later one applied first, then the earlier one. */
  lemma ApplyTwo(text: string, a: Edit, b: Edit)
    requires FitsIn(a, |text|) && FitsIn(b, |text|) && a.end <= b.start
    ensures ValidEdits([a, b], |text|)
    ensures ApplyAll(text, [a, b]) == Apply(Apply(text, b), a)
  {
    var t := Apply(text, b);
    ApplyOne(t, a);
    assert [a, b][..1] == [a];
    assert ApplyAll(text, [a, b]) == ApplyAll(t, [a]);
  }
}

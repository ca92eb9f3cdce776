/** The `align-assign` rule: runs of assignment statements on consecutive lines are
    grouped into blocks, and within a block every `=` is moved, by inserting or
    removing characters after the token before it, to one column: one past the
    rightmost end of those tokens. */
module AlignAssign {
  import opened Optional
  import opened Text
  import opened Ordering

  /** The token before `=`: the line and column where it ends and its end offset. */
  datatype Token = Token(endLine: nat, endColumn: nat, end: nat)

  /** A declarator of a variable declaration: its identifier and whether it has an
      initialiser. */
  datatype Declarator = Declarator(id: Token, hasInit: bool)

  /** The statement kinds the rule tells apart. */
  datatype StmtKind =
    | VariableDeclaration(declarations: seq<Declarator>)
    | AssignmentStatement(operator: string, left: Token)  // an `ExpressionStatement` holding an assignment
    | OtherStatement(kind: string)

  /** A statement of a block or program body: where it starts (offset, line,
      column), the line it ends on, its source text and the end lines of the
      comments before it. */
  datatype Stmt = Stmt(kind: StmtKind, start: nat, startLine: nat, startColumn: nat, endLine: nat,
                       text: string, commentEndLines: seq<nat>)

  /** The body's owner: the program, or a block statement opening on some line. */
  datatype Container = Program | Block(startLine: nat)

  // ---------------------------------------------------------------------------
  // Candidates
  // ---------------------------------------------------------------------------

  /** The first declarator with an initialiser (`declarations.find(decl => decl.init !== null)`). */
  function FirstInitialised(ds: seq<Declarator>): (k: Option<nat>)
    ensures k.Some? ==> k.value < |ds| && ds[k.value].hasInit && forall j | 0 <= j < k.value :: !ds[j].hasInit
    ensures k.None? ==> forall j | 0 <= j < |ds| :: !ds[j].hasInit
  {
    if |ds| == 0 then None
    else if ds[0].hasInit then Some(0)
    else match FirstInitialised(ds[1..])
         case Some(k) => Some(k + 1)
         case None => None
  }

  /** A declaration with some initialiser, or an `=` assignment statement. */
  predicate IsAssignmentLike(s: Stmt) {
    match s.kind
    case VariableDeclaration(ds) => FirstInitialised(ds).Some?
    case AssignmentStatement(op, _) => op == "="
    case OtherStatement(_) => false
  }

  /** The token the `=` follows: the first initialised declarator's identifier, or
      the assignment's left-hand side. */
  function TokenBeforeEquals(s: Stmt): Token
    requires IsAssignmentLike(s)
  {
    match s.kind
    case VariableDeclaration(ds) => ds[FirstInitialised(ds).value].id
    case AssignmentStatement(_, left) => left
  }

  /** `indexOfEquals(node, text)`: for an assignment statement, the first `=` from
      where the left-hand side ends, or -1 when the left-hand side ends on another
      line; for a declaration, the first `=` of the text. */
  function IndexOfEquals(s: Stmt): (r: int)
    requires IsAssignmentLike(s)
    ensures r == -1 || (0 <= r < |s.text| && s.text[r] == '=')
    ensures s.kind.VariableDeclaration? ==> (r == -1 <==> '=' !in s.text)
    ensures s.kind.VariableDeclaration? && r >= 0 ==> '=' !in s.text[..r]
    ensures s.kind.AssignmentStatement? && s.startLine != s.kind.left.endLine ==> r == -1
    ensures s.kind.AssignmentStatement? && s.startLine == s.kind.left.endLine ==>
              var from := Clamp(s.kind.left.endColumn - s.startColumn, |s.text|);
              && (r == -1 <==> forall j | from <= j < |s.text| :: s.text[j] != '=')
              && (r >= 0 ==> from <= r && forall j | from <= j < r :: s.text[j] != '=')
  {
    if s.kind.AssignmentStatement? then
      if s.startLine == s.kind.left.endLine then IndexOfFrom(s.text, '=', s.kind.left.endColumn - s.startColumn)
      else -1
    else
      var r := IndexOf(s.text, '=');
      assert r >= 0 ==> forall j | 0 <= j < r :: s.text[..r][j] != '=';
      assert r == -1 ==> forall j | 0 <= j < |s.text| :: s.text[j] != '=';
      r
  }

  /** The conditions of the body loop for the statement at `i`: an assignment, not on
      the block's opening line, alone on its lines, with no comment ending on its
      first line, and with its `=` found on its first line. */
  predicate IsCandidate(body: seq<Stmt>, container: Container, i: nat)
    requires i < |body|
  {
    var s := body[i];
    && IsAssignmentLike(s)
    && (container.Program? || container.startLine != s.startLine)
    && (i + 1 >= |body| || body[i + 1].startLine > s.endLine)
    && (i < 1 || body[i - 1].endLine < s.startLine)
    && (forall c | c in s.commentEndLines :: c != s.startLine)
    && var equalsPos := IndexOfEquals(s);
       var newline := IndexOf(s.text, '\n');
       equalsPos != -1 && (newline == -1 || equalsPos < newline)
  }

  /** An assignment whose `=` was found: what every candidate is. */
  predicate Alignable(s: Stmt) {
    IsAssignmentLike(s) && IndexOfEquals(s) >= 0
  }

  /** The candidates among the first `n` statements, in order. */
  function Candidates(body: seq<Stmt>, container: Container, n: nat): (r: seq<Stmt>)
    requires n <= |body|
    ensures |r| <= n
    ensures forall k | 0 <= k < |r| :: Alignable(r[k])
  {
    if n == 0 then []
    else Candidates(body, container, n - 1) + (if IsCandidate(body, container, n - 1) then [body[n - 1]] else [])
  }

  /** `x` is one of the first `n` statements and meets the candidate conditions. */
  predicate CandidateAmong(body: seq<Stmt>, container: Container, n: nat, x: Stmt)
    requires n <= |body|
  {
    exists i | 0 <= i < n :: IsCandidate(body, container, i) && x == body[i]
  }

  /** The candidates are exactly the statements that meet the conditions. */
  lemma {:induction false} CandidatesSpec(body: seq<Stmt>, container: Container, n: nat)
    requires n <= |body|
    ensures forall x | x in Candidates(body, container, n) :: CandidateAmong(body, container, n, x)
    ensures forall i | 0 <= i < n && IsCandidate(body, container, i) :: body[i] in Candidates(body, container, n)
  {
    if n > 0 {
      CandidatesSpec(body, container, n - 1);
      var prev := Candidates(body, container, n - 1);
      var r := Candidates(body, container, n);
      forall x | x in prev
        ensures CandidateAmong(body, container, n, x)
      {
        assert CandidateAmong(body, container, n - 1, x);
        var i :| 0 <= i < n - 1 && IsCandidate(body, container, i) && x == body[i];
      }
      if IsCandidate(body, container, n - 1) {
        assert r == prev + [body[n - 1]];
        assert CandidateAmong(body, container, n, body[n - 1]);
      } else {
        assert r == prev;
      }
    }
  }

  /** A candidate's `=` is on its first line. */
  lemma CandidateEqualsOnFirstLine(body: seq<Stmt>, container: Container, i: nat)
    requires i < |body| && IsCandidate(body, container, i)
    ensures 0 <= IndexOfEquals(body[i]) < |body[i].text|
    ensures '\n' !in body[i].text[..IndexOfEquals(body[i])]
  {
    var s := body[i];
    var e := IndexOfEquals(s);
    forall j | 0 <= j < e
      ensures s.text[..e][j] != '\n'
    {
    }
  }

  // ---------------------------------------------------------------------------
  // Blocks
  // ---------------------------------------------------------------------------

  function Flatten(blocks: seq<seq<Stmt>>): seq<Stmt> {
    if |blocks| == 0 then [] else Flatten(blocks[..|blocks| - 1]) + blocks[|blocks| - 1]
  }

  /** Blocks as the grouping loop builds them: none empty, each made of statements
      starting on consecutive lines, and each next block starting on a line other
      than the one after the previous block's last statement. */
  predicate WellGrouped(blocks: seq<seq<Stmt>>) {
    && (forall b | 0 <= b < |blocks| :: |blocks[b]| > 0)
    && (forall b, k | 0 <= b < |blocks| && 0 < k < |blocks[b]| ::
          blocks[b][k].startLine == blocks[b][k - 1].startLine + 1)
    && (forall b | 0 < b < |blocks| ::
          blocks[b][0].startLine != blocks[b - 1][|blocks[b - 1]| - 1].startLine + 1)
  }

  /** The grouping loop: a candidate starting on the line after the previous
      candidate's start line joins the last block; any other opens a new block. */
  function Group(cands: seq<Stmt>): (blocks: seq<seq<Stmt>>)
    ensures Flatten(blocks) == cands
    ensures WellGrouped(blocks)
    ensures |cands| > 0 ==> |blocks| > 0
  {
    if |cands| == 0 then []
    else
      var prefix := cands[..|cands| - 1];
      var init := Group(prefix);
      var s := cands[|cands| - 1];
      assert cands == prefix + [s];
      FlattenLast(init);
      if |cands| > 1 && s.startLine == cands[|cands| - 2].startLine + 1 then
        GroupExtend(init, s);
        init[..|init| - 1] + [init[|init| - 1] + [s]]
      else
        GroupOpen(init, s);
        init + [[s]]
  }

  /** Appending a statement to the last block keeps the grouping well formed when it
      starts on the line after that block's last statement. */
  lemma GroupExtend(blocks: seq<seq<Stmt>>, s: Stmt)
    requires WellGrouped(blocks) && |blocks| > 0
    requires s.startLine == blocks[|blocks| - 1][|blocks[|blocks| - 1]| - 1].startLine + 1
    ensures WellGrouped(blocks[..|blocks| - 1] + [blocks[|blocks| - 1] + [s]])
    ensures Flatten(blocks[..|blocks| - 1] + [blocks[|blocks| - 1] + [s]]) == Flatten(blocks) + [s]
  {
    ExtendWellGrouped(blocks, s);
    var init, last := blocks[..|blocks| - 1], blocks[|blocks| - 1];
    var r := init + [last + [s]];
    assert r[..|r| - 1] == init;
    assert Flatten(r) == Flatten(init) + (last + [s]);
    assert Flatten(blocks) == Flatten(init) + last;
  }

  /** The grouping conditions, block by block, after extending the last block. */
  lemma ExtendWellGrouped(blocks: seq<seq<Stmt>>, s: Stmt)
    requires WellGrouped(blocks) && |blocks| > 0
    requires s.startLine == blocks[|blocks| - 1][|blocks[|blocks| - 1]| - 1].startLine + 1
    ensures WellGrouped(blocks[..|blocks| - 1] + [blocks[|blocks| - 1] + [s]])
  {
    var init, last := blocks[..|blocks| - 1], blocks[|blocks| - 1];
    var r := init + [last + [s]];
    forall b | 0 <= b < |r|
      ensures |r[b]| > 0
    {
      if b < |init| {
        assert r[b] == blocks[b];
      }
    }
    forall b, k | 0 <= b < |r| && 0 < k < |r[b]|
      ensures r[b][k].startLine == r[b][k - 1].startLine + 1
    {
      if b < |init| {
        assert r[b] == blocks[b];
      } else if k < |last| {
        assert r[b][k] == last[k] && r[b][k - 1] == last[k - 1];
      }
    }
    forall b | 0 < b < |r|
      ensures r[b][0].startLine != r[b - 1][|r[b - 1]| - 1].startLine + 1
    {
      assert r[b - 1] == blocks[b - 1];
      if b < |init| {
        assert r[b] == blocks[b];
      } else {
        assert r[b][0] == last[0];
      }
    }
  }

  /** Opening a new block keeps the grouping well formed when the statement does not
      start on the line after the last block's last statement. */
  lemma GroupOpen(blocks: seq<seq<Stmt>>, s: Stmt)
    requires WellGrouped(blocks)
    requires |blocks| > 0 ==> s.startLine != blocks[|blocks| - 1][|blocks[|blocks| - 1]| - 1].startLine + 1
    ensures WellGrouped(blocks + [[s]])
    ensures Flatten(blocks + [[s]]) == Flatten(blocks) + [s]
  {
    assert (blocks + [[s]])[..|blocks|] == blocks;
  }

  /** The last statement of a flattened non-empty grouping is its last block's last;
      an empty grouping flattens to nothing. */
  lemma FlattenLast(blocks: seq<seq<Stmt>>)
    requires WellGrouped(blocks)
    ensures |blocks| == 0 <==> |Flatten(blocks)| == 0
    ensures |blocks| > 0 ==> Flatten(blocks)[|Flatten(blocks)| - 1] == blocks[|blocks| - 1][|blocks[|blocks| - 1]| - 1]
  {
  }

  // ---------------------------------------------------------------------------
  // Target column and reports
  // ---------------------------------------------------------------------------

  /** The column one past where the token before a statement's `=` ends. */
  function LhsColumn(s: Stmt): nat
    requires IsAssignmentLike(s)
  {
    TokenBeforeEquals(s).endColumn + 1
  }

  /** The block's target `=` column: the fold of `Math.max` over the `LhsColumn`s of
      its statements, starting from 0. */
  function TargetColumn(block: seq<Stmt>): nat
    requires AllAlignable(block)
  {
    if |block| == 0 then 0
    else Max(TargetColumn(block[..|block| - 1]), LhsColumn(block[|block| - 1]))
  }

  /** The target column is the largest `LhsColumn` of the block (0 for no
      statements). */
  lemma {:induction false} TargetColumnIsMax(block: seq<Stmt>)
    requires AllAlignable(block)
    ensures forall k | 0 <= k < |block| :: LhsColumn(block[k]) <= TargetColumn(block)
    ensures |block| > 0 ==> exists k | 0 <= k < |block| :: LhsColumn(block[k]) == TargetColumn(block)
    ensures |block| == 0 ==> TargetColumn(block) == 0
  {
    if |block| > 0 {
      var init := block[..|block| - 1];
      AlignablePrefix(block);
      TargetColumnIsMax(init);
      forall k | 0 <= k < |init|
        ensures LhsColumn(block[k]) <= TargetColumn(block)
      {
        assert init[k] == block[k];
      }
      if |init| > 0 && TargetColumn(init) >= LhsColumn(block[|block| - 1]) {
        var k :| 0 <= k < |init| && LhsColumn(init[k]) == TargetColumn(init);
        assert init[k] == block[k];
      }
    }
  }

  /** Dropping the last statement keeps every statement alignable. */
  lemma AlignablePrefix(block: seq<Stmt>)
    requires AllAlignable(block) && |block| > 0
    ensures AllAlignable(block[..|block| - 1])
  {
    var init := block[..|block| - 1];
    forall k | 0 <= k < |init|
      ensures Alignable(init[k])
    {
      assert init[k] == block[k];
    }
  }

  /** The column of the statement's `=` (`currentEqualsPos`). */
  function EqualsColumn(s: Stmt): int
    requires IsAssignmentLike(s)
  {
    IndexOfEquals(s) + s.startColumn
  }

  /** `[...new Array(n + 1)].join(' ')`. */
  function Spaces(n: nat): (r: string)
    ensures |r| == n && forall k | 0 <= k < n :: r[k] == ' '
  {
    var r := Join(seq(n + 1, _ => ""), ' ');
    JoinOfEmpties(n);
    r
  }

  /** Joining `n + 1` empty strings with a space gives `n` spaces. */
  lemma {:induction false} JoinOfEmpties(n: nat)
    ensures Join(seq(n + 1, _ => ""), ' ') == seq(n, _ => ' ')
  {
    if n > 0 {
      JoinOfEmpties(n - 1);
      var parts := seq(n + 1, _ => "");
      assert parts[..n] == seq(n, _ => "");
      assert seq(n, _ => ' ') == seq(n - 1, _ => ' ') + [' '] + "";
    }
  }

  /** The fix for a statement whose `=` is `n` columns short of the target: at the
      end of the token before `=`, `n` spaces inserted when `n > 0`, otherwise the
      `-n` characters there removed. Either way the text grows by exactly `n`. */
  function AlignFix(s: Stmt, n: int): (e: Edit)
    requires IsAssignmentLike(s)
    ensures e.start == TokenBeforeEquals(s).end
    ensures |e.replacement| - (e.end - e.start) == n
    ensures forall k | 0 <= k < |e.replacement| :: e.replacement[k] == ' '
    ensures n > 0 ==> e.end == e.start
    ensures n <= 0 ==> e.replacement == ""
  {
    var token := TokenBeforeEquals(s);
    if n > 0 then Edit(token.end, token.end, Spaces(n))
    else Edit(token.end, token.end - n, "")
  }

  /** A report: the line and column it points at, and its fix. */
  datatype AlignReport = AlignReport(line: nat, column: int, fix: Edit)

  /** The column the report points at, as written: the `=` column plus the
      statement's start column once more. */
  function ReportColumn(s: Stmt): int
    requires IsAssignmentLike(s)
  {
    EqualsColumn(s) + s.startColumn
  }

  /** The column the report is meant to point at: the `=` itself. */
  function ReportColumnCorrected(s: Stmt): (c: int)
    requires IsAssignmentLike(s) && IndexOfEquals(s) >= 0
    ensures c - s.startColumn == IndexOfEquals(s) && s.text[c - s.startColumn] == '='
  {
    EqualsColumn(s)
  }

  /** The report for one statement of a block: made exactly when its `=` is off the
      target column, on the statement's first line at the column as written, with
      the fix that closes the gap. */
  function ReportFor(s: Stmt, target: nat): (r: Option<AlignReport>)
    requires Alignable(s)
    ensures r.Some? <==> EqualsColumn(s) != target
    ensures r.Some? ==> && r.value.line == s.startLine
                        && r.value.column - s.startColumn == EqualsColumn(s)
                        && r.value.fix == AlignFix(s, target - EqualsColumn(s))
  {
    var n := target - EqualsColumn(s);
    if n != 0 then Some(AlignReport(s.startLine, ReportColumn(s), AlignFix(s, n)))
    else None
  }

  /** Every statement of the block is an assignment whose `=` was found. */
  predicate AllAlignable(block: seq<Stmt>) {
    forall k | 0 <= k < |block| :: Alignable(block[k])
  }

  /** The reports of the first `n` statements of a block against `target`. */
  function ReportsUpTo(block: seq<Stmt>, target: nat, n: nat): (r: seq<Option<AlignReport>>)
    requires n <= |block| && AllAlignable(block)
    ensures |r| == n
    ensures forall k | 0 <= k < n :: r[k] == ReportFor(block[k], target)
  {
    if n == 0 then [] else ReportsUpTo(block, target, n - 1) + [ReportFor(block[n - 1], target)]
  }

  /** The reports of one block, statement by statement, against its target column. */
  function BlockReports(block: seq<Stmt>): (r: seq<Option<AlignReport>>)
    requires AllAlignable(block)
    ensures |r| == |block|
  {
    ReportsUpTo(block, TargetColumn(block), |block|)
  }

  /** A block's report for its statement `k` is that statement's report against the
      block's target column: present exactly when the statement's `=` is off that
      column. */
  lemma BlockReportAt(block: seq<Stmt>, k: nat)
    requires AllAlignable(block) && k < |block|
    ensures BlockReports(block)[k] == ReportFor(block[k], TargetColumn(block))
    ensures BlockReports(block)[k].Some? <==> EqualsColumn(block[k]) != TargetColumn(block)
  {
  }

  /** The reports of the first `n` blocks. */
  function BlocksReports(blocks: seq<seq<Stmt>>, n: nat): (r: seq<seq<Option<AlignReport>>>)
    requires n <= |blocks| && BlocksAlignable(blocks)
    ensures |r| == n
  {
    if n == 0 then [] else BlocksReports(blocks, n - 1) + [BlockReports(blocks[n - 1])]
  }

  /** Block `b` of the reports is the reports of block `b`. */
  lemma {:induction false} BlocksReportsSpec(blocks: seq<seq<Stmt>>, n: nat, b: nat)
    requires n <= |blocks| && BlocksAlignable(blocks) && b < n
    ensures BlocksReports(blocks, n)[b] == BlockReports(blocks[b])
  {
    if b < n - 1 {
      BlocksReportsSpec(blocks, n - 1, b);
    }
  }

  /** `checkFunction(node)`: the candidates grouped into blocks, and for each block
      statement, in order, its report or none. */
  function CheckBody(body: seq<Stmt>, container: Container): (r: seq<seq<Option<AlignReport>>>)
    ensures var blocks := Group(Candidates(body, container, |body|));
            && |r| == |blocks|
            && forall b | 0 <= b < |r| :: AllAlignable(blocks[b]) && r[b] == BlockReports(blocks[b])
  {
    var blocks := Group(Candidates(body, container, |body|));
    FlattenAlignable(blocks);
    var r := BlocksReports(blocks, |blocks|);
    forall b | 0 <= b < |r|
      ensures r[b] == BlockReports(blocks[b])
    {
      BlocksReportsSpec(blocks, |blocks|, b);
    }
    r
  }

  /** Every statement of every block is alignable. */
  predicate BlocksAlignable(blocks: seq<seq<Stmt>>) {
    forall b | 0 <= b < |blocks| :: AllAlignable(blocks[b])
  }

  /** When every statement of a flattening is alignable, so is every block. */
  lemma FlattenAlignable(blocks: seq<seq<Stmt>>)
    requires forall k | 0 <= k < |Flatten(blocks)| :: Alignable(Flatten(blocks)[k])
    ensures BlocksAlignable(blocks)
  {
    forall b, k | 0 <= b < |blocks| && 0 <= k < |blocks[b]|
      ensures Alignable(blocks[b][k])
    {
      FlattenMember(blocks, b, k);
    }
  }

  /** Every statement of a block appears in the flattening. */
  lemma {:induction false} FlattenMember(blocks: seq<seq<Stmt>>, b: nat, k: nat)
    requires b < |blocks| && k < |blocks[b]|
    ensures blocks[b][k] in Flatten(blocks)
  {
    var last := |blocks| - 1;
    if b < last {
      FlattenMember(blocks[..last], b, k);
      assert blocks[..last][b] == blocks[b];
    } else {
      assert Flatten(blocks) == Flatten(blocks[..last]) + blocks[last];
    }
  }

  // ---------------------------------------------------------------------------
  // The fix puts `=` on the target column
  // ---------------------------------------------------------------------------

  /** The text with `n` spaces inserted at `p` when `n > 0`, otherwise with the `-n`
      characters at `p` removed. */
  function Shift(t: string, p: nat, n: int): string
    requires p <= |t| && (n > 0 || p - n <= |t|)
  {
    if n > 0 then t[..p] + Spaces(n) + t[p..] else t[..p] + t[p - n..]
  }

  /** Shifting at `p`, at or before the first `=` from `q` and without reaching it,
      moves that `=` by `n` places. */
  lemma ShiftMovesEquals(t: string, q: nat, p: nat, e: nat, n: int)
    requires q <= p <= e < |t| && t[e] == '='
    requires forall j | q <= j < e :: t[j] != '='
    requires n > 0 || p - n <= e
    ensures IndexOfFrom(Shift(t, p, n), '=', q) == e + n
  {
    var u := Shift(t, p, n);
    assert u[e + n] == '=';
    forall j | q <= j < e + n
      ensures u[j] != '='
    {
      if j < p {
        assert u[j] == t[j];
      } else if n > 0 && j >= p + n {
        assert u[j] == t[j - n];
      } else if n <= 0 {
        assert u[j] == t[j - n];
      }
    }
    var r := IndexOfFrom(u, '=', q);
    assert r >= e + n;
  }

  /** The token before `=` ends on the statement's first line, at or before its `=`,
      so its end column and end offset agree. */
  predicate TokenOnFirstLine(s: Stmt)
    requires IsAssignmentLike(s)
  {
    var token := TokenBeforeEquals(s);
    && token.endLine == s.startLine
    && s.start <= token.end
    && token.end - s.start == token.endColumn - s.startColumn
    && 0 <= IndexOfEquals(s)
    && token.end - s.start <= IndexOfEquals(s)
  }

  /** Moving the statement's `=` to `target` removes, at most, the characters
      between the token before `=` and the `=`. */
  predicate Room(s: Stmt, target: nat)
    requires IsAssignmentLike(s) && TokenOnFirstLine(s)
  {
    target >= EqualsColumn(s) || EqualsColumn(s) - target <= IndexOfEquals(s) - (TokenBeforeEquals(s).end - s.start)
  }

  /** The statement with the fix applied to its text (offsets taken relative to it). */
  function Fixed(s: Stmt, target: nat): Stmt
    requires IsAssignmentLike(s) && TokenOnFirstLine(s) && Room(s, target)
  {
    s.(text := Shift(s.text, TokenBeforeEquals(s).end - s.start, target - EqualsColumn(s)))
  }

  /** Where the search for `=` starts: after the left-hand side for an assignment
      statement, at the start for a declaration. */
  function SearchFrom(s: Stmt): nat
    requires IsAssignmentLike(s) && TokenOnFirstLine(s)
  {
    if s.kind.AssignmentStatement? then TokenBeforeEquals(s).end - s.start else 0
  }

  /** `IndexOfEquals` is the search for `=` from `SearchFrom`, in any text. */
  lemma IndexOfEqualsFrom(s: Stmt, t: string)
    requires IsAssignmentLike(s) && TokenOnFirstLine(s)
    ensures IndexOfEquals(s.(text := t)) == IndexOfFrom(t, '=', SearchFrom(s))
  {
  }

  /** No `=` lies between the search start and the statement's `=`. */
  lemma NoEqualsBefore(s: Stmt)
    requires IsAssignmentLike(s) && TokenOnFirstLine(s)
    ensures SearchFrom(s) <= TokenBeforeEquals(s).end - s.start
    ensures forall j | SearchFrom(s) <= j < IndexOfEquals(s) :: s.text[j] != '='
  {
    var e := IndexOfEquals(s);
    IndexOfEqualsFrom(s, s.text);
    assert s.(text := s.text) == s;
  }

  /** The search for `=` in the fixed text finds it moved by the number of spaces
      inserted, or back by the number of characters removed. */
  lemma FixMovesEquals(s: Stmt, target: nat)
    requires IsAssignmentLike(s) && TokenOnFirstLine(s) && Room(s, target)
    ensures IndexOfFrom(Fixed(s, target).text, '=', SearchFrom(s)) == IndexOfEquals(s) + (target - EqualsColumn(s))
  {
    var p := TokenBeforeEquals(s).end - s.start;
    var e := IndexOfEquals(s);
    var n := target - EqualsColumn(s);
    NoEqualsBefore(s);
    ShiftMovesEquals(s.text, SearchFrom(s), p, e, n);
  }

  /** After the fix, the statement's `=` sits on the block's target column, provided
      the characters the fix removes lie between the token and the `=`. */
  lemma FixPutsEqualsOnTarget(s: Stmt, target: nat)
    requires IsAssignmentLike(s) && TokenOnFirstLine(s) && Room(s, target)
    ensures IsAssignmentLike(Fixed(s, target))
    ensures EqualsColumn(Fixed(s, target)) == target
  {
    FixMovesEquals(s, target);
    IndexOfEqualsFrom(s, Fixed(s, target).text);
    assert Fixed(s, target) == s.(text := Fixed(s, target).text);
  }

  /** The edit that shifts `t` at `p` by `n`, placed after `a`. */
  function ShiftEdit(a: string, p: nat, n: int): Edit {
    if n > 0 then Edit(|a| + p, |a| + p, Spaces(n)) else Edit(|a| + p, |a| + p - n, "")
  }

  /** Shifting a piece of a larger text edits only that piece. */
  lemma ShiftInContext(a: string, t: string, b: string, p: nat, n: int)
    requires p <= |t| && (n > 0 || p - n <= |t|)
    ensures FitsIn(ShiftEdit(a, p, n), |a + t + b|)
    ensures Apply(a + t + b, ShiftEdit(a, p, n)) == a + Shift(t, p, n) + b
  {
    var m := if n > 0 then 0 else -n;
    var x, y, z := t[..p], t[p..p + m], t[p + m..];
    var rep := ShiftEdit(a, p, n).replacement;
    ShiftPieces(t, p, n);
    assert rep == ShiftEdit("", p, n).replacement;
    SplitAround(a, x, y, z, b);
    SplitAround(a, x, rep, z, b);
    assert ShiftEdit(a, p, n) == Edit(|a + x|, |a + x| + |y|, rep);
    ApplyInContext(a + x, y, z + b, rep);
  }

  /** The text shifted at `p` is its part before `p`, the inserted spaces (or
      nothing), and its part after the removed characters (or after `p`). */
  lemma ShiftPieces(t: string, p: nat, n: int)
    requires p <= |t| && (n > 0 || p - n <= |t|)
    ensures var m := if n > 0 then 0 else -n;
            && t == t[..p] + t[p..p + m] + t[p + m..]
            && Shift(t, p, n) == t[..p] + ShiftEdit("", p, n).replacement + t[p + m..]
  {
  }

  /** Concatenation regrouped around a middle piece. */
  lemma SplitAround(a: string, x: string, y: string, z: string, b: string)
    ensures a + (x + y + z) + b == (a + x) + y + (z + b)
  {
  }

  /** Applied to the file holding the statement's text at its start offset, the fix
      edits exactly that text, shifting it after the token before `=`. */
  lemma AlignFixInFile(file: string, s: Stmt, n: int)
    requires IsAssignmentLike(s) && TokenOnFirstLine(s)
    requires s.start + |s.text| <= |file| && file[s.start..s.start + |s.text|] == s.text
    requires n > 0 || (TokenBeforeEquals(s).end - s.start) - n <= |s.text|
    ensures FitsIn(AlignFix(s, n), |file|)
    ensures Apply(file, AlignFix(s, n))
            == file[..s.start] + Shift(s.text, TokenBeforeEquals(s).end - s.start, n) + file[s.start + |s.text|..]
  {
    var a, b := file[..s.start], file[s.start + |s.text|..];
    var p := TokenBeforeEquals(s).end - s.start;
    assert file == a + s.text + b;
    assert AlignFix(s, n) == ShiftEdit(a, p, n);
    ShiftInContext(a, s.text, b, p, n);
  }

  /** Every statement of a block, its token ending on its first line, leaves room for
      its fix: the block's target lies past the token, so removing characters never
      reaches the `=`. */
  lemma TargetLeavesRoom(block: seq<Stmt>, k: nat)
    requires AllAlignable(block) && k < |block| && TokenOnFirstLine(block[k])
    ensures Room(block[k], TargetColumn(block))
  {
    TargetColumnIsMax(block);
  }

  /** `fix`, applied to the file holding the statement's text, rewrites just that
      statement, shifting it after the token before `=`, and afterwards its `=` is
      on the `target` column. */
  predicate AlignedBy(file: string, s: Stmt, target: nat, fix: Edit)
    requires IsAssignmentLike(s) && TokenOnFirstLine(s)
  {
    && Room(s, target)
    && FitsIn(fix, |file|)
    && s.start + |s.text| <= |file|
    && Apply(file, fix) == file[..s.start] + Fixed(s, target).text + file[s.start + |s.text|..]
    && IsAssignmentLike(Fixed(s, target))
    && EqualsColumn(Fixed(s, target)) == target
  }

  /** The report's fix aligns the statement it is made for. */
  lemma ReportFixAligns(file: string, s: Stmt, target: nat)
    requires Alignable(s) && TokenOnFirstLine(s) && Room(s, target)
    requires s.start + |s.text| <= |file| && file[s.start..s.start + |s.text|] == s.text
    requires ReportFor(s, target).Some?
    ensures AlignedBy(file, s, target, ReportFor(s, target).value.fix)
  {
    var n := target - EqualsColumn(s);
    var p := TokenBeforeEquals(s).end - s.start;
    assert n > 0 || p - n <= IndexOfEquals(s) < |s.text|;
    assert ReportFor(s, target).value.fix == AlignFix(s, n);
    AlignFixInFile(file, s, n);
    assert Fixed(s, target).text == Shift(s.text, p, n);
    FixPutsEqualsOnTarget(s, target);
  }

  /** For a statement of a block whose token ends on its first line, the block's
      report is made exactly when its `=` is off the target, and its fix aligns the
      statement on the block's target column. */
  lemma BlockFixAligns(file: string, block: seq<Stmt>, k: nat)
    requires AllAlignable(block) && k < |block| && TokenOnFirstLine(block[k])
    requires block[k].start + |block[k].text| <= |file|
    requires file[block[k].start..block[k].start + |block[k].text|] == block[k].text
    ensures BlockReports(block)[k].Some? <==> EqualsColumn(block[k]) != TargetColumn(block)
    ensures BlockReports(block)[k].Some? ==>
              AlignedBy(file, block[k], TargetColumn(block), BlockReports(block)[k].value.fix)
  {
    var s, target := block[k], TargetColumn(block);
    BlockReportAt(block, k);
    if EqualsColumn(s) != target {
      TargetLeavesRoom(block, k);
      ReportFixAligns(file, s, target);
    }
  }

  /** The `=` column the report points at, as written, is off by the start column:
      for a statement indented by one tab, the column of `a = 1;` is 3, and the text
      holds a space there rather than the `=`. */
  lemma ReportColumnOffByIndent()
    ensures var s := Stmt(AssignmentStatement("=", Token(1, 2, 2)), 1, 1, 1, 1, "a = 1;", []);
            && IsAssignmentLike(s)
            && IndexOfEquals(s) == 2
            && ReportColumn(s) == 4
            && ReportColumnCorrected(s) == 3
            && s.text[ReportColumn(s) - s.startColumn] != '='
  {
    var s := Stmt(AssignmentStatement("=", Token(1, 2, 2)), 1, 1, 1, 1, "a = 1;", []);
    assert s.text[1] == ' ' && s.text[2] == '=';
    assert IndexOfFrom(s.text, '=', 1) == 2;
  }

  // ---------------------------------------------------------------------------
  // A default inside a declaration's pattern
  // ---------------------------------------------------------------------------

  /** `const {a = 1} = obj;` at column 0 of line 1: the pattern before the
      declaration's `=` ends at offset 13 and holds an `=` of its own at 9. */
  const PatternDefault: Stmt :=
    Stmt(VariableDeclaration([Declarator(Token(1, 13, 13), true)]), 0, 1, 0, 1, "const {a = 1} = obj;", [])

  /** As written, the search for a declaration's `=` finds the default inside the
      pattern: the statement is reported, its fix inserts five spaces after the
      pattern, and the fixed statement is reported again, so the fix never settles. */
  lemma PatternDefaultReportRepeats()
    ensures Alignable(PatternDefault) && IndexOfEquals(PatternDefault) == 9
    ensures TargetColumn([PatternDefault]) == 14
    ensures ReportFor(PatternDefault, 14) == Some(AlignReport(1, 9, Edit(13, 13, Spaces(5))))
    ensures var fixed := PatternDefault.(text := Apply(PatternDefault.text, Edit(13, 13, Spaces(5))));
            && Alignable(fixed)
            && TargetColumn([fixed]) == 14
            && ReportFor(fixed, 14).Some?
  {
    var s := PatternDefault;
    assert s.text[9] == '=' && forall j | 0 <= j < 9 :: s.text[j] != '=';
    var fixed := s.(text := Apply(s.text, Edit(13, 13, Spaces(5))));
    assert fixed.text[..13] == s.text[..13];
    assert fixed.text[9] == '=' && forall j | 0 <= j < 9 :: fixed.text[j] != '=';
  }

  /** `indexOfEquals` as its documentation describes it: the first `=` after the token
      before it, for declarations as for assignments, or -1 when that token ends on a
      later line. */
  function IndexOfEqualsCorrected(s: Stmt): (r: int)
    requires IsAssignmentLike(s)
    ensures r == -1 || (0 <= r < |s.text| && s.text[r] == '=')
    ensures TokenBeforeEquals(s).endLine != s.startLine ==> r == -1
    ensures TokenBeforeEquals(s).endLine == s.startLine ==>
              var from := Clamp(TokenBeforeEquals(s).endColumn - s.startColumn, |s.text|);
              && (r == -1 <==> forall j | from <= j < |s.text| :: s.text[j] != '=')
              && (r >= 0 ==> from <= r && forall j | from <= j < r :: s.text[j] != '=')
  {
    var token := TokenBeforeEquals(s);
    if token.endLine == s.startLine then IndexOfFrom(s.text, '=', token.endColumn - s.startColumn) else -1
  }

  /** For assignment statements the corrected search is the search as written. */
  lemma CorrectedAgreesOnAssignments(s: Stmt)
    requires IsAssignmentLike(s) && s.kind.AssignmentStatement?
    ensures IndexOfEqualsCorrected(s) == IndexOfEquals(s)
  {
  }

  /** The corrected search never finds an `=` before the token ends, so the fix, which
      works right after the token, always has the `=` ahead of it. */
  lemma CorrectedEqualsFollowsToken(s: Stmt)
    requires IsAssignmentLike(s)
    requires TokenBeforeEquals(s).endColumn >= s.startColumn
    ensures IndexOfEqualsCorrected(s) >= 0 ==>
              TokenBeforeEquals(s).endColumn - s.startColumn <= IndexOfEqualsCorrected(s)
  {
  }

  /** For the pattern with a default, the corrected search finds the declaration's own
      `=`, which already sits on the target column: nothing is reported. */
  lemma CorrectedSettlesPatternDefault()
    ensures IndexOfEqualsCorrected(PatternDefault) == 14
    ensures IndexOfEqualsCorrected(PatternDefault) + PatternDefault.startColumn == TargetColumn([PatternDefault])
  {
    var p := PatternDefault;
    assert p.text[14] == '=' && p.text[13] != '=';
    assert IndexOfEquals(p) == 9 by {
      assert p.text[9] == '=' && forall j | 0 <= j < 9 :: p.text[j] != '=';
    }
  }
}

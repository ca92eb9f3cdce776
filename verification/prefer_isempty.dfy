/** The `prefer-isempty` rule: length comparisons against 0 or 1 that amount to an
    emptiness test are reported and rewritten to `_.isEmpty(collection)`, negated
    when the comparison asks for a non-empty collection. */
module PreferIsEmpty {
  import opened Optional
  import opened Text
  import opened Ast

  /** A `BinaryExpression`: its operator and operands. */
  datatype Binary = Binary(operator: string, left: Node, right: Node)

  /** `isLiteralWithValue(node, value)` for a number. */
  predicate IsLiteralWithValue(n: Node, value: int) {
    n.Literal? && n.value == Num(value)
  }

  /** `isMemberLength(node)`: a read of the property `length`. */
  predicate IsMemberLength(n: Node) {
    n.Member? && TypeOf(n.property) == "Identifier" && NameOf(n.property) == Some("length")
  }

  /** What the rule found: the literal operand, the `.length` operand and whether the
      comparison asks for a non-empty collection. */
  datatype Found = Found(literal: Node, length: Node, negated: bool)

  /** The one-sided forms, each flagged as a non-emptiness test. */
  predicate NonEmptyForm(b: Binary) {
    || (b.operator == ">" && IsMemberLength(b.left) && IsLiteralWithValue(b.right, 0))
    || (b.operator == "<" && IsLiteralWithValue(b.left, 0) && IsMemberLength(b.right))
    || (b.operator == ">=" && IsMemberLength(b.left) && IsLiteralWithValue(b.right, 1))
    || (b.operator == "<=" && IsLiteralWithValue(b.left, 1) && IsMemberLength(b.right))
  }

  /** The (in)equality forms, in either operand order. */
  predicate EqualityForm(b: Binary) {
    && (b.operator == "===" || b.operator == "!==")
    && ((IsLiteralWithValue(b.left, 0) && IsMemberLength(b.right))
        || (IsLiteralWithValue(b.right, 0) && IsMemberLength(b.left)))
  }

  /** The `BinaryExpression` visitor's classification, branch by branch. It finds
      something exactly for the equality forms against 0 (negated for `!==`) and the
      four one-sided forms (always negated), and the length operand is the one that
      reads `.length`. */
  function Classify(b: Binary): (r: Option<Found>)
    ensures r.Some? <==> EqualityForm(b) || NonEmptyForm(b)
    ensures r.Some? ==> (r.value.negated <==> b.operator != "===")
    ensures r.Some? ==> IsMemberLength(r.value.length)
    ensures r.Some? ==> {r.value.literal, r.value.length} == {b.left, b.right}
  {
    if b.operator == "===" || b.operator == "!==" then
      var negated := b.operator == "!==";
      if IsLiteralWithValue(b.left, 0) && IsMemberLength(b.right) then Some(Found(b.left, b.right, negated))
      else if IsLiteralWithValue(b.right, 0) && IsMemberLength(b.left) then Some(Found(b.right, b.left, negated))
      else None
    else if b.operator == ">" && IsMemberLength(b.left) && IsLiteralWithValue(b.right, 0) then
      Some(Found(b.right, b.left, true))
    else if b.operator == "<" && IsMemberLength(b.right) && IsLiteralWithValue(b.left, 0) then
      Some(Found(b.left, b.right, true))
    else if b.operator == ">=" && IsMemberLength(b.left) && IsLiteralWithValue(b.right, 1) then
      Some(Found(b.right, b.left, true))
    else if b.operator == "<=" && IsMemberLength(b.right) && IsLiteralWithValue(b.left, 1) then
      Some(Found(b.left, b.right, true))
    else None
  }

  /** The JavaScript comparison `l op r` on numbers. */
  predicate Compare(op: string, l: int, r: int) {
    if op == "===" then l == r
    else if op == "!==" then l != r
    else if op == ">" then l > r
    else if op == "<" then l < r
    else if op == ">=" then l >= r
    else if op == "<=" then l <= r
    else false
  }

  /** The value of the comparison once the `.length` operand reads `n`. */
  predicate EvaluateWithLength(b: Binary, n: nat)
    requires EqualityForm(b) || NonEmptyForm(b)
  {
    var l := if IsMemberLength(b.left) then n else b.left.value.n;
    var r := if IsMemberLength(b.right) then n else b.right.value.n;
    Compare(b.operator, l, r)
  }

  /** The rewrite keeps the meaning: every flagged comparison, for any length, is
      `_.isEmpty` of the collection, negated exactly when the rule negates it. */
  lemma FlaggedComparisonIsEmptinessTest(b: Binary, n: nat)
    requires Classify(b).Some?
    ensures EvaluateWithLength(b, n) == (if Classify(b).value.negated then n != 0 else n == 0)
  {
  }

  /** The other comparisons with 0 or 1 on a length are left alone. */
  lemma OtherComparisonsNotFlagged(len: Node, lit0: Node, lit1: Node)
    requires IsMemberLength(len) && IsLiteralWithValue(lit0, 0) && IsLiteralWithValue(lit1, 1)
    ensures Classify(Binary("===", len, lit1)).None?
    ensures Classify(Binary("<", len, lit0)).None?
    ensures Classify(Binary(">", lit0, len)).None?
    ensures Classify(Binary("<", lit1, len)).None?
    ensures Classify(Binary(">", len, lit1)).None?
    ensures Classify(Binary("==", len, lit0)).None?
  {
  }

  /** The collection whose emptiness is tested: `arg` for `Object.keys(arg).length`
      with exactly one argument, otherwise the object whose `length` is read. */
  function CollectionOf(length: Node): (c: Node)
    requires length.Member?
    ensures (exists arg :: length.obj == Call(Member(Identifier("Object"), Identifier("keys")), [arg]))
            ==> length.obj == Call(Member(Identifier("Object"), Identifier("keys")), [c])
    ensures (forall arg :: length.obj != Call(Member(Identifier("Object"), Identifier("keys")), [arg]))
            ==> c == length.obj
  {
    var o := length.obj;
    if && o.Call?
       && o.callee.Member?
       && TypeOf(o.callee.obj) == "Identifier" && NameOf(o.callee.obj) == Some("Object")
       && TypeOf(o.callee.property) == "Identifier" && NameOf(o.callee.property) == Some("keys")
       && |o.arguments| == 1
    then
      assert o.arguments == [o.arguments[0]];
      o.arguments[0]
    else o
  }

  /** The replacement text. */
  function FixText(negated: bool, collection: string): string {
    (if negated then "!" else "") + "_.isEmpty(" + collection + ")"
  }

  /** Reads the negation and the collection text back from a replacement. */
  function ParseFix(t: string): (bool, string) {
    if |t| >= 12 && t[0] == '!' then (true, t[11..|t| - 1])
    else if |t| >= 11 then (false, t[10..|t| - 1])
    else (false, "")
  }

  /** The replacement determines the negation and the collection text. */
  lemma FixTextRoundTrip(negated: bool, collection: string)
    ensures ParseFix(FixText(negated, collection)) == (negated, collection)
  {
    var t := FixText(negated, collection);
    if negated {
      assert t == "!_.isEmpty(" + collection + ")";
      assert t[11..|t| - 1] == collection;
    } else {
      assert t[0] == '_';
      assert t[10..|t| - 1] == collection;
    }
  }

  /** The report's fix: the whole binary expression, which covers `[start, end)`,
      becomes the `_.isEmpty` call, with `textOf` giving each node's source. */
  function PreferIsEmptyFix(b: Binary, start: nat, end: nat, textOf: Node -> string): (r: Option<Edit>)
    ensures r.Some? <==> EqualityForm(b) || NonEmptyForm(b)
    ensures r.Some? ==> r.value.start == start && r.value.end == end
    ensures r.Some? ==>
              && StartsWith(r.value.replacement, "!") == Classify(b).value.negated
              && ParseFix(r.value.replacement) == (Classify(b).value.negated, textOf(CollectionOf(Classify(b).value.length)))
  {
    match Classify(b)
    case None => None
    case Some(f) =>
      var t := FixText(f.negated, textOf(CollectionOf(f.length)));
      FixTextRoundTrip(f.negated, textOf(CollectionOf(f.length)));
      Some(Edit(start, end, t))
  }
}

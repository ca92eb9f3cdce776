/** The shared helpers of `lib/helper.js`: property-path checks on nodes, the
    `require(...)` call test, and the autofix that rewrites `_.isNull(x)` and
    `_.isUndefined(x)` into a strict comparison. */
module Helper {
  import opened Optional
  import opened Text
  import opened Ast

  // ---------------------------------------------------------------------------
  // hasPropsWithValues
  // ---------------------------------------------------------------------------

  /** `_.every` over the attribute entries: each path looks up to its value. */
  function EveryPathHasValue<N, V(==)>(node: N, attributes: seq<(string, V)>, get: (N, string) -> Option<V>): (r: bool)
    ensures r <==> forall i | 0 <= i < |attributes| :: get(node, attributes[i].0) == Some(attributes[i].1)
  {
    if |attributes| == 0 then true
    else get(node, attributes[0].0) == Some(attributes[0].1) && EveryPathHasValue(node, attributes[1..], get)
  }

  /** `hasPropsWithValues(node, attributes)`, the attributes given as the entries of
      the object literal and `_.get` as `get`: false without a node, true for no
      attributes, and otherwise true exactly when every path holds its value. */
  function HasPropsWithValues<N, V(==)>(node: Option<N>, attributes: seq<(string, V)>, get: (N, string) -> Option<V>): (r: bool)
    ensures node.None? ==> !r
    ensures node.Some? && |attributes| == 0 ==> r
    ensures r <==> node.Some? && forall i | 0 <= i < |attributes| :: get(node.value, attributes[i].0) == Some(attributes[i].1)
  {
    if node.None? then false
    else if |attributes| == 0 then true
    else EveryPathHasValue(node.value, attributes, get)
  }

  /** Checking two attribute lists together is checking each of them. */
  lemma HasPropsConcat<N, V>(node: Option<N>, a: seq<(string, V)>, b: seq<(string, V)>, get: (N, string) -> Option<V>)
    ensures HasPropsWithValues(node, a + b, get) <==> HasPropsWithValues(node, a, get) && HasPropsWithValues(node, b, get)
  {
    if node.Some? && HasPropsWithValues(node, a, get) && HasPropsWithValues(node, b, get) {
      forall i | 0 <= i < |a + b|
        ensures get(node.value, (a + b)[i].0) == Some((a + b)[i].1)
      {
        if i >= |a| {
          assert (a + b)[i] == b[i - |a|];
        }
      }
    }
    if HasPropsWithValues(node, a + b, get) {
      forall i | 0 <= i < |a|
        ensures get(node.value, a[i].0) == Some(a[i].1)
      {
        assert (a + b)[i] == a[i];
      }
      forall i | 0 <= i < |b|
        ensures get(node.value, b[i].0) == Some(b[i].1)
      {
        assert (a + b)[|a| + i] == b[i];
      }
    }
  }

  /** The named child node of a node, as far as the rules read them. */
  function Child(n: Node, key: string): Option<Node> {
    match n
    case Member(o, p) => if key == "object" then Some(o) else if key == "property" then Some(p) else None
    case Call(c, _) => if key == "callee" then Some(c) else None
    case _ => None
  }

  /** `_.get(node, keys.join('.'))` for paths that end in `type` or `name`. */
  function GetKeys(n: Node, keys: seq<string>): Option<string>
    decreases |keys|
  {
    if |keys| == 0 then None
    else if |keys| == 1 then
      if keys[0] == "type" then Some(TypeOf(n))
      else if keys[0] == "name" && n.Identifier? then Some(n.name)
      else None
    else
      match Child(n, keys[0])
      case Some(c) => GetKeys(c, keys[1..])
      case None => None
  }

  /** `_.get(node, path)` on the syntax tree. */
  function AstGet(n: Node, path: string): Option<string> {
    GetKeys(n, Split(path, '.'))
  }

  /** `isNodeAnIdentifierWithName(node, subNode, name)`. */
  function IsNodeAnIdentifierWithName(node: Option<Node>, subNode: string, name: string): bool {
    HasPropsWithValues(node, [(subNode + ".type", "Identifier"), (subNode + ".name", name)], AstGet)
  }

  /** A two-segment path looks the last segment up on the named child. */
  lemma AstGetChild(n: Node, subNode: string, key: string)
    requires '.' !in subNode && '.' !in key
    ensures AstGet(n, subNode + "." + key)
            == match Child(n, subNode) case Some(c) => GetKeys(c, [key]) case None => None
  {
    assert subNode + "." + key == subNode + ['.'] + key;
    SplitPair(subNode, '.', key);
    assert [subNode, key][1..] == [key];
  }

  /** The two-path check holds exactly when the child is the identifier `name`. */
  lemma IdentifierWithNameSpec(node: Option<Node>, subNode: string, name: string)
    requires '.' !in subNode
    ensures IsNodeAnIdentifierWithName(node, subNode, name)
            <==> node.Some? && Child(node.value, subNode) == Some(Identifier(name))
  {
    if node.Some? {
      var attributes := [(subNode + ".type", "Identifier"), (subNode + ".name", name)];
      AstGetChild(node.value, subNode, "type");
      AstGetChild(node.value, subNode, "name");
      assert attributes[0].0 == subNode + "." + "type";
      assert attributes[1].0 == subNode + "." + "name";
      match Child(node.value, subNode)
      case Some(c) =>
        assert GetKeys(c, ["type"]) == Some(TypeOf(c));
        assert GetKeys(c, ["name"]) == if c.Identifier? then Some(c.name) else None;
      case None =>
    }
  }

  /** `isPropertyAnIdentifierWithName(node, name)`: `node.property` is the identifier `name`. */
  function IsPropertyAnIdentifierWithName(node: Option<Node>, name: string): (r: bool)
    ensures r <==> node.Some? && node.value.Member? && node.value.property == Identifier(name)
  {
    IdentifierWithNameSpec(node, "property", name);
    IsNodeAnIdentifierWithName(node, "property", name)
  }

  /** `isObjectAnIdentifierWithName(node, name)`: `node.object` is the identifier `name`. */
  function IsObjectAnIdentifierWithName(node: Option<Node>, name: string): (r: bool)
    ensures r <==> node.Some? && node.value.Member? && node.value.obj == Identifier(name)
  {
    IdentifierWithNameSpec(node, "object", name);
    IsNodeAnIdentifierWithName(node, "object", name)
  }

  // ---------------------------------------------------------------------------
  // isRequire
  // ---------------------------------------------------------------------------

  /** `isRequire(node)` on a call expression (or no node): the callee is an
      identifier named `require` and the only argument is a literal. */
  function IsRequire(node: Option<Node>): (r: bool)
    requires node.Some? ==> node.value.Call?
    ensures r <==> exists v :: node == Some(Call(Identifier("require"), [Literal(v)]))
  {
    assert node.Some? && |node.value.arguments| == 1 ==> node.value.arguments == [node.value.arguments[0]];
    && node.Some?
    && TypeOf(node.value.callee) == "Identifier"
    && NameOf(node.value.callee) == Some("require")
    && |node.value.arguments| == 1
    && node.value.arguments[0].Literal?
  }

  // ---------------------------------------------------------------------------
  // lodashAutofix
  // ---------------------------------------------------------------------------

  /** A source range `[start, end)`. */
  datatype Range = Range(start: nat, end: nat)

  /** A node enclosing the `_.isNull` member expression, innermost first: its ESTree
      type, its operator (unary and binary expressions), the ranges of its arguments
      (calls) and its own range. */
  datatype Enclosing = Enclosing(kind: string, operator: string, arguments: seq<Range>, range: Range)

  /** `isUnaryExpression(scope, '!')` asks this of `scope.parent`. */
  predicate IsNot(e: Enclosing) {
    e.kind == "UnaryExpression" && e.operator == "!"
  }

  /** The enclosing nodes up to one that is not a `!`, so that every parent the
      autofix reads exists. */
  predicate WellFormedChain(chain: seq<Enclosing>) {
    |chain| >= 2 && !IsNot(chain[|chain| - 1])
  }

  /** `c` leading `!` parents of the call are consumed: they are all `!`, and there
      are two of them or the next parent is not a `!`. */
  predicate Consumes(chain: seq<Enclosing>, c: nat)
    requires WellFormedChain(chain)
  {
    && c <= 2
    && (forall m | 1 <= m <= c :: m < |chain| && IsNot(chain[m]))
    && c + 1 < |chain|
    && (c == 2 || !IsNot(chain[c + 1]))
  }

  /** The number of `!` parents directly above the call, counting at most two. */
  function Consumed(chain: seq<Enclosing>): (c: nat)
    requires WellFormedChain(chain)
    ensures c <= 2 && c + 1 < |chain|
  {
    if !IsNot(chain[1]) then 0
    else if !IsNot(chain[2]) then 1
    else 2
  }

  /** `Consumed` is the one count that `Consumes` describes. */
  lemma ConsumedSpec(chain: seq<Enclosing>, c: nat)
    requires WellFormedChain(chain)
    ensures Consumes(chain, c) <==> c == Consumed(chain)
  {
  }

  /** `getText(arg)`: the source of the argument, or the whole text when the call has
      no argument. */
  function ArgumentText(text: string, call: Enclosing): string {
    if |call.arguments| == 0 then text
    else Substring(text, call.arguments[0].start, call.arguments[0].end)
  }

  /** The replacement text: the argument compared with `typeName`, in parentheses
      when asked. */
  function ComparisonText(argText: string, negate: bool, typeName: string, wrap: bool): string {
    var fixed := argText + (if negate then " !== " else " === ") + typeName;
    if wrap then "(" + fixed + ")" else fixed
  }

  /** The toggles of `lodashAutofix`: one step up per `!` parent, at most twice. */
  function ClimbNots(chain: seq<Enclosing>): (r: (bool, nat))
    requires WellFormedChain(chain)
  {
    var (negate1, scope1) := if IsNot(chain[1]) then (true, 1) else (false, 0);
    if IsNot(chain[scope1 + 1]) then (!negate1, scope1 + 1) else (negate1, scope1)
  }

  /** The autofix, with `wrap` deciding from the replaced node's parent whether the
      comparison is parenthesised: no fix unless the member's parent is a call with at
      most one argument; otherwise it climbs over at most two `!` parents, compares
      the argument with `!==` when it climbed over exactly one and `===` otherwise,
      and replaces the outermost node it climbed to. */
  function AutofixWrapping(text: string, chain: seq<Enclosing>, typeName: string, wrap: Enclosing -> bool): (r: Option<Edit>)
    requires WellFormedChain(chain)
    ensures r.None? <==> chain[0].kind != "CallExpression" || |chain[0].arguments| > 1
    ensures r.Some? ==>
              var c := Consumed(chain);
              r.value == Edit(chain[c].range.start, chain[c].range.end,
                              ComparisonText(ArgumentText(text, chain[0]), c == 1, typeName, wrap(chain[c + 1])))
  {
    var call := chain[0];
    if call.kind != "CallExpression" || |call.arguments| > 1 then None
    else
      var (negate, scope) := ClimbNots(chain);
      var replacement := ComparisonText(ArgumentText(text, call), negate, typeName, wrap(chain[scope + 1]));
      Some(Edit(chain[scope].range.start, chain[scope].range.end, replacement))
  }

  /** `lodashAutofix(node, context, typeName, fixer)` as written: the comparison is
      parenthesised only when the replaced node's parent is a binary expression. */
  function LodashAutofix(text: string, chain: seq<Enclosing>, typeName: string): (r: Option<Edit>)
    requires WellFormedChain(chain)
    ensures r.None? <==> chain[0].kind != "CallExpression" || |chain[0].arguments| > 1
    ensures r.Some? ==>
              var c := Consumed(chain);
              r.value == Edit(chain[c].range.start, chain[c].range.end,
                              ComparisonText(ArgumentText(text, chain[0]), c == 1, typeName,
                                             chain[c + 1].kind == "BinaryExpression"))
  {
    AutofixWrapping(text, chain, typeName, (p: Enclosing) => p.kind == "BinaryExpression")
  }

  /** A parent operator that would otherwise take the argument alone as its operand. */
  predicate IsOperator(parent: Enclosing) {
    parent.kind == "BinaryExpression" || parent.kind == "UnaryExpression"
  }

  /** The autofix as intended: the comparison is parenthesised whenever the replaced
      node is the operand of an operator, so a third `!` (or any other unary
      operator) left above it applies to the whole comparison. */
  function LodashAutofixCorrected(text: string, chain: seq<Enclosing>, typeName: string): (r: Option<Edit>)
    requires WellFormedChain(chain)
    ensures r.None? <==> chain[0].kind != "CallExpression" || |chain[0].arguments| > 1
    ensures r.Some? ==>
              var c := Consumed(chain);
              r.value == Edit(chain[c].range.start, chain[c].range.end,
                              ComparisonText(ArgumentText(text, chain[0]), c == 1, typeName, IsOperator(chain[c + 1])))
  {
    AutofixWrapping(text, chain, typeName, IsOperator)
  }

  /** `!!!_.isNull(x);`: the call, three `!` and the statement around them. */
  const TripleNotText: string := "!!!_.isNull(x);"

  const TripleNotChain: seq<Enclosing> := [
    Enclosing("CallExpression", "", [Range(12, 13)], Range(3, 14)),
    Enclosing("UnaryExpression", "!", [], Range(2, 14)),
    Enclosing("UnaryExpression", "!", [], Range(1, 14)),
    Enclosing("UnaryExpression", "!", [], Range(0, 14)),
    Enclosing("ExpressionStatement", "", [], Range(0, 15))
  ]

  lemma ArgumentOfTripleNot()
    ensures ArgumentText(TripleNotText, TripleNotChain[0]) == "x"
  {
    assert TripleNotText[12..13] == [TripleNotText[12]];
  }

  /** As written, `!!!_.isNull(x)` becomes `!x === null`, which reads as
      `(!x) === null` and is false for every `x`, where `x !== null` was meant. */
  lemma TripleNotLosesParentheses()
    ensures WellFormedChain(TripleNotChain)
    ensures LodashAutofix(TripleNotText, TripleNotChain, "null") == Some(Edit(1, 14, "x === null"))
    ensures Apply(TripleNotText, Edit(1, 14, "x === null")) == "!x === null;"
  {
    assert Consumed(TripleNotChain) == 2;
    ArgumentOfTripleNot();
    assert TripleNotChain[3].kind != "BinaryExpression";
    assert ComparisonText("x", false, "null", false) == "x === null";
    var t := Apply(TripleNotText, Edit(1, 14, "x === null"));
    assert t == TripleNotText[..1] + "x === null" + TripleNotText[14..];
  }

  /** Corrected, `!!!_.isNull(x)` becomes `!(x === null)`. */
  lemma TripleNotKeepsParentheses()
    ensures WellFormedChain(TripleNotChain)
    ensures LodashAutofixCorrected(TripleNotText, TripleNotChain, "null") == Some(Edit(1, 14, "(x === null)"))
    ensures Apply(TripleNotText, Edit(1, 14, "(x === null)")) == "!(x === null);"
  {
    assert Consumed(TripleNotChain) == 2;
    ArgumentOfTripleNot();
    assert IsOperator(TripleNotChain[3]);
    assert ComparisonText("x", false, "null", true) == "(x === null)";
    var t := Apply(TripleNotText, Edit(1, 14, "(x === null)"));
    assert t == TripleNotText[..1] + "(x === null)" + TripleNotText[14..];
  }

  /** The corrected fix parenthesises the comparison whenever an operator encloses the
      replaced node, and agrees with the written one everywhere else. */
  lemma CorrectedWrapsUnderOperators(text: string, chain: seq<Enclosing>, typeName: string)
    requires WellFormedChain(chain)
    requires chain[0].kind == "CallExpression" && |chain[0].arguments| <= 1
    ensures LodashAutofixCorrected(text, chain, typeName).Some?
    ensures IsOperator(chain[Consumed(chain) + 1]) ==>
              var rep := LodashAutofixCorrected(text, chain, typeName).value.replacement;
              |rep| >= 2 && rep[0] == '(' && rep[|rep| - 1] == ')'
    ensures chain[Consumed(chain) + 1].kind != "UnaryExpression" ==>
              LodashAutofixCorrected(text, chain, typeName) == LodashAutofix(text, chain, typeName)
  {
  }

  /** `!` applied `c` times. */
  function Negations(c: nat, b: bool): bool {
    if c == 0 then b else !Negations(c - 1, b)
  }

  /** `!` applied an odd number of times negates, an even number of times keeps. */
  lemma {:induction false} NegationsParity(c: nat, b: bool)
    ensures Negations(c, b) == (if c % 2 == 1 then !b else b)
  {
    if c > 0 {
      NegationsParity(c - 1, b);
    }
  }

  /** The comparison the fix writes has the value of the node it replaces: the
      consumed `!` operators applied to `_.isNull(x)`, whose value is `isType`, give
      the value of the comparison, `!==` negating `isType` and `===` keeping it.
      Spliced under a further unary operator, the bare comparison does not keep that
      value: see `TripleNotLosesParentheses`. */
  lemma AutofixKeepsValue(text: string, chain: seq<Enclosing>, typeName: string, isType: bool)
    requires WellFormedChain(chain)
    requires chain[0].kind == "CallExpression" && |chain[0].arguments| <= 1
    ensures var c := Consumed(chain);
            var negate := Negations(c, isType) != isType;
            && LodashAutofix(text, chain, typeName).Some?
            && LodashAutofix(text, chain, typeName).value.replacement
               == ComparisonText(ArgumentText(text, chain[0]), negate, typeName,
                                 chain[c + 1].kind == "BinaryExpression")
  {
    NegationsParity(Consumed(chain), isType);
  }
}

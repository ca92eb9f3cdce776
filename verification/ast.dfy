/** A small abstract syntax tree standing in for the ESTree nodes the rules inspect.
    Only the node kinds and fields the rules read are kept; every other expression is
    `Other`, remembered only by its ESTree type name. */
module Ast {
  import opened Optional

  /** The value of a `Literal` node. Numbers are kept as integers. */
  datatype Value = Str(s: string) | Num(n: int) | Bool(b: bool) | Null

  datatype Node =
    | Identifier(name: string)
    | Literal(value: Value)
    | TemplateLiteral(quasis: seq<string>)
    | Member(obj: Node, property: Node)
    | Call(callee: Node, arguments: seq<Node>)
    | Other(kind: string)  // never one of the five types above, which have their own constructors

  /** The ESTree `type` of a node. */
  function TypeOf(n: Node): string {
    match n
    case Identifier(_) => "Identifier"
    case Literal(_) => "Literal"
    case TemplateLiteral(_) => "TemplateLiteral"
    case Member(_, _) => "MemberExpression"
    case Call(_, _) => "CallExpression"
    case Other(kind) => kind
  }

  /** `node.name`: present on identifiers only. */
  function NameOf(n: Node): Option<string> {
    if n.Identifier? then Some(n.name) else None
  }

  /** JavaScript truthiness of a literal value. */
  predicate Truthy(v: Value) {
    match v
    case Str(s) => s != ""
    case Num(n) => n != 0
    case Bool(b) => b
    case Null => false
  }
}

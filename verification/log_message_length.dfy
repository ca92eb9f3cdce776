/** The `log-message-length` rule: a literal log message longer than fifty
    characters is reported. */
module LogMessageLength {
  import opened Optional
  import opened Ast
  import opened Helper

  /** The log methods this rule looks at, wider than the context rules' levels. */
  const LogMethods: seq<string> := ["info", "debug", "warn", "error", "command"]

  const MaxLength: nat := 50

  /** `_.get(node, 'arguments[0].value')`: only a literal first argument has a value. */
  function FirstValue(call: Node): Option<Value>
    requires call.Call?
  {
    if |call.arguments| > 0 && call.arguments[0].Literal? then Some(call.arguments[0].value) else None
  }

  /** The `CallExpression` visitor: is `call` reported? Falsy and missing messages are
      skipped first; then the callee must be `log.<method>` for one of the methods
      and the message a string longer than the limit. */
  function TooLong(call: Node): (r: bool)
    requires call.Call?
    ensures r <==> exists m, s | m in LogMethods ::
                     && call.callee == Member(Identifier("log"), Identifier(m))
                     && |call.arguments| > 0 && call.arguments[0] == Literal(Str(s))
                     && |s| > MaxLength
  {
    var argument := FirstValue(call);
    if argument.None? || !Truthy(argument.value) then false
    else
      && IsObjectAnIdentifierWithName(Some(call.callee), "log")
      && (exists m | m in LogMethods :: IsPropertyAnIdentifierWithName(Some(call.callee), m))
      && argument.value.Str?
      && |argument.value.s| > MaxLength
  }

  const Message := "Log messages cannot be more than 50 characters long"

  /** Fifty characters pass and fifty-one do not, for every method. */
  lemma LimitIsFifty(m: string, s: string, rest: seq<Node>)
    requires m in LogMethods
    ensures var call := Call(Member(Identifier("log"), Identifier(m)), [Literal(Str(s))] + rest);
            TooLong(call) <==> |s| > 50
  {
    var call := Call(Member(Identifier("log"), Identifier(m)), [Literal(Str(s))] + rest);
    assert call.arguments[0] == Literal(Str(s));
  }

  /** Template messages, numbers and other expressions are never measured. */
  lemma OnlyStringLiteralsMeasured(call: Node)
    requires call.Call? && |call.arguments| > 0
    requires !(call.arguments[0].Literal? && call.arguments[0].value.Str?)
    ensures !TooLong(call)
  {
  }

  /** Arguments after the first do not change the verdict. */
  lemma ExtraArgumentsIgnored(call: Node, more: seq<Node>)
    requires call.Call? && |call.arguments| > 0
    ensures TooLong(call.(arguments := call.arguments + more)) == TooLong(call)
  {
    assert (call.arguments + more)[0] == call.arguments[0];
  }
}

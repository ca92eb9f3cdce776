/** The `standard-log-context` rule: the same check as `enforce-log-context`, but
    only on string literal messages, with no exemption for first words holding a
    `.`, and without a fix. */
module StandardLogContext {
  import opened Optional
  import opened Text
  import opened Ast
  import opened LogContext
  import EnforceLogContext

  function Message(expected: string): string {
    "Ensure the context starts the log message {" + expected + "}"
  }

  /** The `CallExpression` visitor. `firstArg.split(' ')` throws unless the first
      argument is a string literal, and `node.arguments[0].value` throws when there is
      no argument. */
  function Check(call: Node, chain: seq<Ancestor>, fileName: string): (r: Outcome)
    requires call.Call? && |chain| > 0
    ensures !IsLogCallee(call.callee) ==> r == NoReport
    ensures r == Throws <==>
              IsLogCallee(call.callee)
              && (|call.arguments| == 0 || (call.arguments[0].Literal? && !call.arguments[0].value.Str?))
    ensures r.Reported? ==>
              && call.arguments[0].Literal? && call.arguments[0].value.Str?
              && r == Reported(Message(EnforceLogContext.Expected(chain, fileName)), None)
  {
    var args := call.arguments;
    if !IsLogCallee(call.callee) then NoReport
    else if |args| > 0 && !args[0].Literal? then NoReport
    else if |args| == 0 || !args[0].value.Str? then Throws
    else
      var firstToken := FirstPiece(args[0].value.s, ' ');
      var expected := EnforceLogContext.Expected(chain, fileName);
      if expected != firstToken then Reported(Message(expected), None) else NoReport
  }

  /** A message starting with the context and a space is accepted. */
  lemma ContextFirstAccepted(call: Node, chain: seq<Ancestor>, fileName: string, rest: string)
    requires call.Call? && |chain| > 0 && |call.arguments| > 0
    requires ' ' !in EnforceLogContext.Expected(chain, fileName)
    requires call.arguments[0] == Literal(Str(EnforceLogContext.Expected(chain, fileName) + " " + rest))
    ensures Check(call, chain, fileName) == NoReport
  {
    var expected := EnforceLogContext.Expected(chain, fileName);
    FirstPieceOfPrefixed(expected, ' ', rest);
    assert expected + " " + rest == expected + [' '] + rest;
  }

  /** On a non-empty string message whose first word holds no `.`, the two rules
      agree on whether to report. */
  lemma AgreesWithEnforce(call: Node, chain: seq<Ancestor>, fileName: string, argStart: nat, s: string)
    requires call.Call? && |chain| > 0 && |call.arguments| > 0
    requires call.arguments[0] == Literal(Str(s)) && s != ""
    requires '.' !in FirstPiece(s, ' ')
    ensures Check(call, chain, fileName).Reported? <==>
              EnforceLogContext.Check(call, chain, fileName, argStart).Reported?
  {
  }

  /** A first word holding a `.` is accepted by `enforce-log-context` but reported
      here whenever it is not the context. */
  lemma DottedWordOnlyReportedHere(call: Node, chain: seq<Ancestor>, fileName: string, argStart: nat, s: string)
    requires call.Call? && |chain| > 0 && |call.arguments| > 0
    requires IsLogCallee(call.callee)
    requires call.arguments[0] == Literal(Str(s)) && s != ""
    requires '.' in FirstPiece(s, ' ') && FirstPiece(s, ' ') != EnforceLogContext.Expected(chain, fileName)
    ensures Check(call, chain, fileName).Reported?
    ensures EnforceLogContext.Check(call, chain, fileName, argStart) == NoReport
  {
  }

  /** The context of a named file is never empty. */
  lemma ExpectedNonEmpty(fileName: string, functionName: Option<string>)
    requires fileName != ""
    ensures ExpectedContext(fileName, functionName) != ""
  {
    var k := LastIndexOf(fileName, '.');
    if k > 0 {
      assert fileName[..k][0] == fileName[0];
    }
  }

  /** An empty string message is checked, not thrown on: its first word is empty,
      which no context equals once the file has a name. */
  lemma EmptyMessageReported(call: Node, chain: seq<Ancestor>, fileName: string)
    requires call.Call? && |chain| > 0 && |call.arguments| > 0
    requires IsLogCallee(call.callee) && call.arguments[0] == Literal(Str(""))
    requires fileName != ""
    ensures Check(call, chain, fileName).Reported?
  {
    var expected := EnforceLogContext.Expected(chain, fileName);
    ExpectedNonEmpty(fileName, NamedFunctionName(chain, 0));
    assert LastIndexOf("", ' ') == -1;
    assert FirstPiece("", ' ') == "";
    assert FirstPiece("", ' ') != expected;
  }
}

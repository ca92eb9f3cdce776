/** The `enforce-log-context` rule: the first word of a `log.info`, `log.warn` or
    `log.error` message must be the file name without its extension, followed by
    `.<function>` inside a named function; the fix puts that context in front. */
module EnforceLogContext {
  import opened Optional
  import opened Text
  import opened Ast
  import opened LogContext

  /** `String(value)` for the literal values the model keeps. */
  function ValueText(v: Value): string {
    match v
    case Str(s) => s
    case Num(n) => IntToString(n)
    case Bool(b) => if b then "true" else "false"
    case Null => "null"
  }

  /** `arg.value || arg.quasis.map(q => q.value.raw).join(' ')`, then `toString()`:
      the text of a truthy literal, or the raw pieces of a template joined by spaces.
      `None` where the source throws: a falsy literal has no `quasis` to map. */
  function FirstArgText(arg: Node): (r: Option<string>)
    ensures arg.Literal? ==> (r.Some? <==> Truthy(arg.value))
    ensures arg.TemplateLiteral? ==> r == Some(Join(arg.quasis, ' '))
  {
    match arg
    case Literal(v) => if Truthy(v) then Some(ValueText(v)) else None
    case TemplateLiteral(quasis) => Some(Join(quasis, ' '))
    case _ => None
  }

  function Message(expected: string): string {
    "Ensure the some context starts the log message example: (" + expected + ")"
  }

  /** The fix: `expected ` inserted just inside the opening quote, or, for a number
      (which has no quotes), `'expected ' + ` inserted in front of it. */
  function Fix(arg: Node, argStart: nat, expected: string): (e: Edit)
    ensures e.start == e.end
    ensures arg.Literal? && arg.value.Num? ==> e.start == argStart && StartsWith(e.replacement, "'" + expected + " '")
    ensures !(arg.Literal? && arg.value.Num?) ==> e.start == argStart + 1 && e.replacement == expected + " "
  {
    if arg.Literal? && arg.value.Num? then Edit(argStart, argStart, "'" + expected + " ' + ")
    else Edit(argStart + 1, argStart + 1, expected + " ")
  }

  /** The context this call's message must start with. */
  function Expected(chain: seq<Ancestor>, fileName: string): string
    requires |chain| > 0
  {
    ExpectedContext(fileName, NamedFunctionName(chain, 0))
  }

  /** The `CallExpression` visitor on `call`, whose ancestors (itself first) are
      `chain`, in the file `fileName`, with its first argument starting at offset
      `argStart` of the source. */
  function Check(call: Node, chain: seq<Ancestor>, fileName: string, argStart: nat): (r: Outcome)
    requires call.Call? && |chain| > 0
    ensures !IsLogCallee(call.callee) ==> r == NoReport
    ensures r == Throws <==>
              IsLogCallee(call.callee)
              && (|call.arguments| == 0 || (call.arguments[0].Literal? && !Truthy(call.arguments[0].value)))
    ensures r.Reported? ==>
              && |call.arguments| > 0
              && (call.arguments[0].Literal? || call.arguments[0].TemplateLiteral?)
              && r.message == Message(Expected(chain, fileName))
              && r.fix == Some(Fix(call.arguments[0], argStart, Expected(chain, fileName)))
  {
    var args := call.arguments;
    if !IsLogCallee(call.callee) then NoReport
    else if |args| > 0 && !args[0].Literal? && !args[0].TemplateLiteral? then NoReport
    else if |args| == 0 then Throws
    else
      match FirstArgText(args[0])
      case None => Throws
      case Some(firstArg) =>
        var firstToken := FirstPiece(firstArg, ' ');
        var expected := Expected(chain, fileName);
        if '.' in firstToken then NoReport
        else if expected != firstToken then Reported(Message(expected), Some(Fix(args[0], argStart, expected)))
        else NoReport
  }

  /** The first word of the checked argument's text. */
  function FirstWord(call: Node): string
    requires call.Call? && |call.arguments| > 0
    requires FirstArgText(call.arguments[0]).Some?
  {
    FirstPiece(FirstArgText(call.arguments[0]).value, ' ')
  }

  /** A log call with a text argument is reported exactly when its first word is not
      the expected context and holds no `.`. */
  lemma ReportedIff(call: Node, chain: seq<Ancestor>, fileName: string, argStart: nat)
    requires call.Call? && |chain| > 0
    requires IsLogCallee(call.callee) && |call.arguments| > 0
    requires call.arguments[0].Literal? || call.arguments[0].TemplateLiteral?
    requires FirstArgText(call.arguments[0]).Some?
    ensures Check(call, chain, fileName, argStart).Reported? <==>
              '.' !in FirstWord(call) && FirstWord(call) != Expected(chain, fileName)
    ensures !Check(call, chain, fileName, argStart).Reported? ==> Check(call, chain, fileName, argStart) == NoReport
  {
  }

  /** Fixing a string message settles it: once the context and a space are in front,
      the call is no longer reported (a context is one word, so it has no space). */
  lemma FixSettlesString(call: Node, chain: seq<Ancestor>, fileName: string, argStart: nat, s: string)
    requires call.Call? && |chain| > 0
    requires Check(call, chain, fileName, argStart).Reported?
    requires call.arguments[0] == Literal(Str(s))
    requires ' ' !in Expected(chain, fileName)
    ensures var expected := Expected(chain, fileName);
            var fixed := call.(arguments := [Literal(Str(expected + " " + s))] + call.arguments[1..]);
            Check(fixed, chain, fileName, argStart) == NoReport
  {
    var expected := Expected(chain, fileName);
    FirstPieceOfPrefixed(expected, ' ', s);
    assert expected + " " + s == expected + [' '] + s;
  }

  /** The same for a template message: the context lands in front of its first piece. */
  lemma FixSettlesTemplate(call: Node, chain: seq<Ancestor>, fileName: string, argStart: nat, quasis: seq<string>)
    requires call.Call? && |chain| > 0
    requires Check(call, chain, fileName, argStart).Reported?
    requires call.arguments[0] == TemplateLiteral(quasis) && |quasis| > 0
    requires ' ' !in Expected(chain, fileName)
    ensures var expected := Expected(chain, fileName);
            var fixedQuasis := [expected + " " + quasis[0]] + quasis[1..];
            var fixed := call.(arguments := [TemplateLiteral(fixedQuasis)] + call.arguments[1..]);
            Check(fixed, chain, fileName, argStart) == NoReport
  {
    var expected := Expected(chain, fileName);
    JoinPrefixFirst(expected + " ", quasis, ' ');
    var rest := Join(quasis, ' ');
    FirstPieceOfPrefixed(expected, ' ', rest);
    assert expected + " " + rest == expected + [' '] + rest;
  }

  /** On the source text, the fix of a quoted message turns the literal `q s q` into
      `q expected s q` with a space after the context: the literal of the fixed call. */
  lemma FixQuotedSource(text: string, argStart: nat, argEnd: nat, q: char, s: string, expected: string)
    requires argStart <= argEnd <= |text|
    requires text[argStart..argEnd] == [q] + s + [q]
    ensures var e := Fix(Literal(Str(s)), argStart, expected);
            FitsIn(e, |text|)
            && Apply(text, e)[argStart..argEnd + |expected| + 1] == [q] + (expected + " " + s) + [q]
  {
    var e := Fix(Literal(Str(s)), argStart, expected);
    var t := Apply(text, e);
    assert t == text[..argStart + 1] + (expected + " ") + text[argStart + 1..];
    assert text[argStart + 1..argEnd] == s + [q];
    assert t[argStart..argEnd + |expected| + 1] == [text[argStart]] + (expected + " ") + text[argStart + 1..argEnd];
  }

  /** On the source text, the fix of a number message puts the quoted context and
      a `+` in front of the number, making the argument a concatenation. */
  lemma FixNumberSource(text: string, argStart: nat, n: int, expected: string)
    requires argStart + |IntToString(n)| <= |text|
    requires text[argStart..argStart + |IntToString(n)|] == IntToString(n)
    ensures var e := Fix(Literal(Num(n)), argStart, expected);
            var ins := "'" + expected + " ' + ";
            FitsIn(e, |text|)
            && Apply(text, e)[argStart..argStart + |ins| + |IntToString(n)|] == ins + IntToString(n)
  {
    var ins := "'" + expected + " ' + ";
    var t := Apply(text, Fix(Literal(Num(n)), argStart, expected));
    assert t == text[..argStart] + ins + text[argStart..];
  }
}

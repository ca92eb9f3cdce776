/** What the two log-context rules share: which calls are log calls, the name of
    the function a call sits in, the context a message is expected to start with,
    and the outcome of checking one call. */
module LogContext {
  import opened Optional
  import opened Text
  import opened Ast

  /** The levels the context rules look at (`debug` and `command` are not among them). */
  const Levels: set<string> := {"info", "warn", "error"}

  /** `isLogCallee(callee)`: the callee is `log.<level>` for one of the levels. */
  function IsLogCallee(callee: Node): (r: bool)
    ensures r <==> exists level | level in Levels :: callee == Member(Identifier("log"), Identifier(level))
  {
    && callee.Member?
    && NameOf(callee.obj) == Some("log")
    && NameOf(callee.property).Some?
    && NameOf(callee.property).value in Levels
  }

  // ---------------------------------------------------------------------------
  // getNamedFunctionName
  // ---------------------------------------------------------------------------

  /** One node on the way from a call up to the root: its ESTree type, and the name of
      the identifier in the slot the walk reads for that type (`id` of a function
      declaration or variable declarator, `key` of a property, `left` of an
      assignment); `None` when that slot is empty or not an identifier. */
  datatype Ancestor = Ancestor(kind: string, name: Option<string>)

  predicate IsFunctionExpression(kind: string) {
    kind == "FunctionExpression" || kind == "ArrowFunctionExpression"
  }

  /** The node at `i` ends the walk: a function declaration with a name, a function
      expression bound by a declarator or an assignment, or any property. */
  predicate Names(chain: seq<Ancestor>, i: nat)
    requires i < |chain|
  {
    var n := chain[i];
    || (n.kind == "FunctionDeclaration" && n.name.Some? && n.name.value != "")
    || (IsFunctionExpression(n.kind) && i + 1 < |chain|
        && chain[i + 1].kind in {"VariableDeclarator", "AssignmentExpression"})
    || n.kind == "Property"
  }

  /** The name reported by a node that ends the walk: its own, or its parent's
      when it is a bound function expression. */
  function NameAt(chain: seq<Ancestor>, i: nat): Option<string>
    requires i < |chain|
  {
    if chain[i].kind in {"FunctionDeclaration", "Property"} then chain[i].name
    else if i + 1 < |chain| then chain[i + 1].name
    else None
  }

  /** `getNamedFunctionName(node)` where `chain[i]` is the node and `chain[i + 1]`
      its parent; the call being checked is `chain[0]` and the last entry has no
      parent. */
  function NamedFunctionName(chain: seq<Ancestor>, i: nat): Option<string>
    requires i < |chain|
    decreases |chain| - i
  {
    var n := chain[i];
    var hasParent := i + 1 < |chain|;
    if n.kind == "FunctionDeclaration" && n.name.Some? && n.name.value != "" then n.name
    else if IsFunctionExpression(n.kind) && hasParent && chain[i + 1].kind == "VariableDeclarator" then chain[i + 1].name
    else if n.kind == "Property" then n.name
    else if IsFunctionExpression(n.kind) && hasParent && chain[i + 1].kind == "AssignmentExpression" then chain[i + 1].name
    else if !hasParent then None
    else NamedFunctionName(chain, i + 1)
  }

  /** The walk answers with the nearest node that names, whatever lies above it. */
  lemma {:induction false} NearestNameWins(chain: seq<Ancestor>, i: nat, j: nat)
    requires i <= j < |chain|
    requires Names(chain, j)
    requires forall k | i <= k < j :: !Names(chain, k)
    ensures NamedFunctionName(chain, i) == NameAt(chain, j)
    decreases j - i
  {
    if i < j {
      assert !Names(chain, i);
      NearestNameWins(chain, i + 1, j);
    }
  }

  /** With no naming node from `i` up to the root, there is no name. */
  lemma {:induction false} NoNameWithoutNamer(chain: seq<Ancestor>, i: nat)
    requires i < |chain|
    requires forall k | i <= k < |chain| :: !Names(chain, k)
    ensures NamedFunctionName(chain, i) == None
    decreases |chain| - i
  {
    assert !Names(chain, i);
    if i + 1 < |chain| {
      NoNameWithoutNamer(chain, i + 1);
    }
  }

  // ---------------------------------------------------------------------------
  // The expected context
  // ---------------------------------------------------------------------------

  /** The file name without its last extension, then `.` and the function name when
      there is a non-empty one. */
  function ExpectedContext(fileName: string, functionName: Option<string>): (r: string)
    ensures var k := LastIndexOf(fileName, '.');
            var base := if k > 0 then fileName[..k] else fileName;
            r == if functionName.Some? && functionName.value != "" then base + "." + functionName.value else base
  {
    StripLastExtensionSpec(fileName);
    var expected := StripLastExtension(fileName);
    if functionName.Some? && functionName.value != "" then expected + "." + functionName.value else expected
  }

  // ---------------------------------------------------------------------------
  // Outcome of checking one call
  // ---------------------------------------------------------------------------

  /** What checking one call ends in: nothing, a report (with its fix, if the rule
      has one), or a `TypeError` thrown out of the rule. */
  datatype Outcome = NoReport | Reported(message: string, fix: Option<Edit>) | Throws
}

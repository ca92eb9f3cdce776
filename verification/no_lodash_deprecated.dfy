/** The `no-lodash-deprecated-functions` rule: `_.<old>` for a lodash 3 name that
    lodash 4 dropped is reported, and the fix renames the property to its lodash 4
    replacement. */
module NoLodashDeprecated {
  import opened Optional
  import opened Text
  import opened Ast

  /** The deprecated names and their replacements. */
  const Deprecated: map<string, string> := map[
    "first" := "head", "object" := "zipObject", "rest" := "tail", "unique" := "uniq",
    "all" := "every", "any" := "some", "collect" := "map", "contains" := "includes",
    "detect" := "find", "each" := "forEach", "eachRight" := "forEachRight",
    "foldl" := "reduce", "foldr" := "reduceRight", "include" := "includes",
    "inject" := "reduce", "pluck" := "map", "select" := "filter",
    "backflow" := "flowRight", "compose" := "flowRight",
    "eq" := "isEqual",
    "extend" := "assign", "methods" := "functions",
    "callback" := "iteratee"
  ]

  datatype Report = Report(message: string, fix: Edit)

  function Message(oldName: string, newName: string): string {
    "Use _." + newName + " instead of the deprecated _." + oldName
  }

  /** The `MemberExpression` visitor on `node`, whose property covers
      `[propStart, propEnd)` of the source, looking names up among the table's own
      entries only. */
  function Check(node: Node, propStart: nat, propEnd: nat): (r: Option<Report>)
    requires node.Member?
    ensures r.Some? <==> node.obj == Identifier("_") && node.property.Identifier? && node.property.name in Deprecated
    ensures r.Some? ==> var newName := Deprecated[node.property.name];
                        r.value == Report(Message(node.property.name, newName), Edit(propStart, propEnd, newName))
  {
    var name := NameOf(node.property);
    var fixedName := if name.Some? && name.value in Deprecated then Some(Deprecated[name.value]) else None;
    if NameOf(node.obj) == Some("_") && fixedName.Some? then
      Some(Report(Message(name.value, fixedName.value), Edit(propStart, propEnd, fixedName.value)))
    else None
  }

  /** No replacement is itself deprecated. */
  lemma ReplacementsCurrent()
    ensures forall name | name in Deprecated :: Deprecated[name] !in Deprecated
  {
  }

  /** Renaming the property as the fix does leaves nothing to report. */
  lemma FixSettles(node: Node, propStart: nat, propEnd: nat, newEnd: nat)
    requires node.Member? && Check(node, propStart, propEnd).Some?
    ensures Check(node.(property := Identifier(Deprecated[node.property.name])), propStart, newEnd).None?
  {
    ReplacementsCurrent();
  }

  /** Lookup is by whole name: a longer name that merely starts with a deprecated
      one, or the name under another object, is left alone. */
  lemma WholeNamesOnly(propStart: nat, propEnd: nat)
    ensures Check(Member(Identifier("_"), Identifier("containsWithMoreThingsHere")), propStart, propEnd).None?
    ensures Check(Member(Identifier("lodash"), Identifier("contains")), propStart, propEnd).None?
    ensures Check(Member(Identifier("_"), Identifier("contains")), propStart, propEnd).Some?
  {
    assert "containsWithMoreThingsHere" !in Deprecated;
  }

  // ---------------------------------------------------------------------------
  // The lookup as written
  // ---------------------------------------------------------------------------

  /** The names a plain object literal inherits from `Object.prototype`. */
  const Inherited: set<string> := {
    "constructor", "hasOwnProperty", "isPrototypeOf", "propertyIsEnumerable",
    "toLocaleString", "toString", "valueOf",
    "__defineGetter__", "__defineSetter__", "__lookupGetter__", "__lookupSetter__", "__proto__"
  }

  /** How an inherited member reads when put into a template string. */
  function InheritedText(name: string): string {
    if name == "__proto__" then "[object Object]"
    else "function " + (if name == "constructor" then "Object" else name) + "() { [native code] }"
  }

  /** `DEPRECATED_FUNCTIONS[name]` on the object literal: own entries first, then the
      inherited members, all of which are truthy. */
  function LookupAsWritten(name: string): (r: Option<string>)
    ensures name in Deprecated ==> r == Some(Deprecated[name])
    ensures r.Some? <==> name in Deprecated || name in Inherited
  {
    if name in Deprecated then Some(Deprecated[name])
    else if name in Inherited then Some(InheritedText(name))
    else None
  }

  /** The visitor with the lookup as written. */
  function CheckAsWritten(node: Node, propStart: nat, propEnd: nat): (r: Option<Report>)
    requires node.Member?
    ensures r.Some? <==> node.obj == Identifier("_") && node.property.Identifier?
                          && LookupAsWritten(node.property.name).Some?
    ensures r.Some? ==> r.value.fix == Edit(propStart, propEnd, LookupAsWritten(node.property.name).value)
  {
    var name := NameOf(node.property);
    var fixedName := if name.Some? then LookupAsWritten(name.value) else None;
    if NameOf(node.obj) == Some("_") && fixedName.Some? then
      Some(Report(Message(name.value, fixedName.value), Edit(propStart, propEnd, fixedName.value)))
    else None
  }

  /** As written, `_.toString(x)` is reported as deprecated and its fix writes a
      function's source text, spaces and all, in place of the property name; with own
      entries only it is left alone. */
  lemma InheritedNameReported(propStart: nat, propEnd: nat)
    ensures var node := Member(Identifier("_"), Identifier("toString"));
            && CheckAsWritten(node, propStart, propEnd).Some?
            && ' ' in CheckAsWritten(node, propStart, propEnd).value.fix.replacement
            && Check(node, propStart, propEnd).None?
  {
    var node := Member(Identifier("_"), Identifier("toString"));
    assert "toString" in Inherited;
    assert "toString" !in Deprecated.Keys;
    assert InheritedText("toString")[8] == ' ';
  }

  /** Outside the inherited names, the lookup as written and the corrected one agree. */
  lemma AgreeOnOwnNames(node: Node, propStart: nat, propEnd: nat)
    requires node.Member?
    requires node.property.Identifier? ==> node.property.name !in Inherited
    ensures CheckAsWritten(node, propStart, propEnd) == Check(node, propStart, propEnd)
  {
  }
}

/** The `no-require-path-js` rule: module paths ending in `.js` are reported, and the
    fix rewrites each such string literal to the path without the extension. */
module NoRequirePathJs {
  import opened Optional
  import opened Text

  /** `getFixedModuleName(moduleName)`: the last three characters go exactly when the
      name ends with `.js`; the result is always a prefix of the name. */
  function GetFixedModuleName(name: string): (r: string)
    ensures EndsWith(name, ".js") ==> name == r + ".js"
    ensures !EndsWith(name, ".js") ==> r == name
    ensures StartsWith(name, r)
  {
    if EndsWith(name, ".js") then Substring(name, 0, |name| - 3) else name
  }

  /** Putting the extension back undoes the fix. */
  lemma FixedNameRoundTrip(base: string)
    ensures GetFixedModuleName(base + ".js") == base
  {
    var name := base + ".js";
    assert name[|name| - 3..] == ".js";
  }

  /** Other extensions, and names without any `.`, are not offending. */
  lemma OtherExtensionsAccepted(base: string)
    ensures !EndsWith(base + ".ejs", ".js")
    ensures !EndsWith(base + ".html", ".js")
    ensures '.' !in base ==> !EndsWith(base, ".js")
  {
    var e := base + ".ejs";
    assert e[|e| - 3] == 'e';
    var h := base + ".html";
    assert h[|h| - 3] == 't';
    if EndsWith(base, ".js") {
      assert base[|base| - 3] == '.';
    }
  }

  /** A module-name string literal and the range it covers, quotes included. */
  datatype ModuleLiteral = ModuleLiteral(value: string, start: nat, end: nat)

  predicate Offending(m: ModuleLiteral) {
    EndsWith(m.value, ".js")
  }

  /** `_.filter(moduleNodes, node => node.value.endsWith('.js'))`. */
  function OffendingNodes(nodes: seq<ModuleLiteral>): seq<ModuleLiteral> {
    if |nodes| == 0 then []
    else (if Offending(nodes[0]) then [nodes[0]] else []) + OffendingNodes(nodes[1..])
  }

  /** The filter keeps exactly the offending literals: each kept one is among the
      nodes and offending, and every offending node is kept. */
  lemma {:induction false} OffendingNodesMembers(nodes: seq<ModuleLiteral>)
    ensures forall k | 0 <= k < |OffendingNodes(nodes)| ::
              OffendingNodes(nodes)[k] in nodes && Offending(OffendingNodes(nodes)[k])
    ensures forall m | m in nodes && Offending(m) :: m in OffendingNodes(nodes)
    ensures |OffendingNodes(nodes)| <= |nodes|
    decreases |nodes|
  {
    if |nodes| > 0 {
      OffendingNodesMembers(nodes[1..]);
      assert nodes == [nodes[0]] + nodes[1..];
    }
  }

  /** The filter on a list with a first element. */
  lemma OffendingNodesCons(x: ModuleLiteral, rest: seq<ModuleLiteral>)
    ensures OffendingNodes([x] + rest) == (if Offending(x) then [x] else []) + OffendingNodes(rest)
  {
    assert ([x] + rest)[0] == x && ([x] + rest)[1..] == rest;
  }

  /** Each offending literal is kept as often as it occurs among the nodes, and no
      other literal is kept. */
  lemma {:induction false} OffendingNodesCount(nodes: seq<ModuleLiteral>, m: ModuleLiteral)
    ensures multiset(OffendingNodes(nodes))[m] == if Offending(m) then multiset(nodes)[m] else 0
    decreases |nodes|
  {
    if |nodes| > 0 {
      var x, rest := nodes[0], nodes[1..];
      var h := if Offending(x) then [x] else [];
      assert nodes == [x] + rest;
      OffendingNodesCons(x, rest);
      OffendingNodesCount(rest, m);
      assert multiset(h + OffendingNodes(rest)) == multiset(h) + multiset(OffendingNodes(rest));
      assert multiset([x] + rest) == multiset([x]) + multiset(rest);
    }
  }

  /** The filter keeps list order: filtering two lists one after the other is
      filtering each and putting the results one after the other. */
  lemma {:induction false} OffendingNodesConcat(a: seq<ModuleLiteral>, b: seq<ModuleLiteral>)
    ensures OffendingNodes(a + b) == OffendingNodes(a) + OffendingNodes(b)
    decreases |a|
  {
    if |a| == 0 {
      assert a + b == b;
    } else {
      var x, rest := a[0], a[1..];
      var h := if Offending(x) then [x] else [];
      assert a + b == [x] + (rest + b);
      OffendingNodesCons(x, rest + b);
      assert a == [x] + rest;
      OffendingNodesCons(x, rest);
      OffendingNodesConcat(rest, b);
    }
  }

  /** One literal is kept exactly when it is offending. */
  lemma OffendingNodesSingle(m: ModuleLiteral)
    ensures OffendingNodes([m]) == if Offending(m) then [m] else []
  {
    assert [m][1..] == [];
  }

  /** `getFixedNodes` turned into the fix: one replacement per offending literal,
      over its own range, by the stripped name in single quotes. */
  function FixEdits(offending: seq<ModuleLiteral>): (r: seq<Edit>)
    ensures |r| == |offending|
    ensures forall k | 0 <= k < |r| ::
              && r[k].start == offending[k].start && r[k].end == offending[k].end
              && r[k].replacement == "'" + GetFixedModuleName(offending[k].value) + "'"
  {
    if |offending| == 0 then []
    else [Edit(offending[0].start, offending[0].end, "'" + GetFixedModuleName(offending[0].value) + "'")]
         + FixEdits(offending[1..])
  }

  datatype Report = Report(message: string, fix: seq<Edit>)

  /** The message starts with `Import` exactly for an import declaration. */
  function Message(isImport: bool): (m: string)
    ensures StartsWith(m, "Import") == isImport
    ensures isImport || StartsWith(m, "Require")
  {
    var m := (if isImport then "Import" else "Require") + " statements with paths ending in \".js\" are not allowed";
    assert m[0] == (if isImport then 'I' else 'R');
    assert isImport ==> m[..6] == "Import";
    assert !isImport ==> m[..7] == "Require";
    m
  }

  /** Every edit of the fix covers exactly the range of an offending literal. */
  lemma FixCoversOnlyOffending(nodes: seq<ModuleLiteral>)
    ensures forall e | e in FixEdits(OffendingNodes(nodes)) ::
              exists m | m in nodes :: Offending(m) && e.start == m.start && e.end == m.end
  {
    var offending := OffendingNodes(nodes);
    var fix := FixEdits(offending);
    OffendingNodesMembers(nodes);
    forall e | e in fix
      ensures exists m | m in nodes :: Offending(m) && e.start == m.start && e.end == m.end
    {
      var k :| 0 <= k < |fix| && fix[k] == e;
      assert offending[k] in nodes;
    }
  }

  /** `generateReport(moduleNodes, node)`: nothing when no literal ends in `.js`;
      otherwise one report whose message names the statement kind and whose fix
      rewrites exactly the offending literals, in order. */
  function GenerateReport(nodes: seq<ModuleLiteral>, isImport: bool): (r: Option<Report>)
    ensures r.None? <==> forall m | m in nodes :: !Offending(m)
    ensures r.Some? ==> StartsWith(r.value.message, "Import") == isImport
    ensures r.Some? ==> r.value.fix == FixEdits(OffendingNodes(nodes))
  {
    var offending := OffendingNodes(nodes);
    OffendingNodesMembers(nodes);
    if |offending| == 0 then None
    else Some(Report(Message(isImport), FixEdits(offending)))
  }
}

/** A registration and an import as client code performs them, checked
    end to end against the registry: one registrant publishes and seals
    "$.util", a second session imports one of its exports through
    `codefile`. Literal paths and specifiers reach the registry as
    parameters pinned by a `requires`, which keeps the verifier from
    unrolling `Split` and `Trim` on the literal where it is not needed. */
module Usage {
  import opened Text
  import opened Tree
  import opened Imports
  import opened Jsns

  /** "$.util" after its registrant has exported `double` and sealed it. */
  function UtilNode(double: Value): Node {
    Node(map[SealKey := SealHook, "double" := Val(double)], map[], true, Public)
  }

  /** The tree after a registrant has created "$.util", exported `double`
      into it and sealed it. */
  function UtilTree(double: Value): map<NodeId, Node> {
    map[Root := Node(map[], map["util" := 1], false, Public), 1 := UtilNode(double)]
  }

  lemma UtilTreeOk(double: Value)
    ensures TreeOk(UtilTree(double), 2)
  {
    var t := UtilTree(double);
    assert Closed(t) by {
      forall id | id in t ensures t[id].children.Values <= t.Keys {
        assert id == Root || id == 1;
      }
    }
  }

  /** Creating "util" under the root of a fresh registry. */
  lemma CreateUtil()
    ensures CreateChild(map[Root := RootNode], 1, Some(Root), "util", false, None)
         == Created(map[Root := RootNode.(children := map["util" := 1]), 1 := NewNode(None)], 2, Ok(1))
  {
    assert IsValidName("util");
  }

  /** The tree once "$.util" has been created and nothing written yet. */
  function CreatedTree(): map<NodeId, Node> {
    map[Root := RootNode.(children := map["util" := 1]), 1 := NewNode(None)]
  }

  /** The registrant opens a session on "$" of a fresh registry and
      creates "util", to which the session is rebound. */
  method OpenUtility() returns (reg: Registry, lib: Session)
    ensures fresh(reg) && lib.reg == reg && lib.Valid()
    ensures reg.nodes == CreatedTree() && reg.next == 2 && reg.lastError == None
    ensures lib.node == Some(1)
  {
    reg := new Registry();
    RootFound(reg.nodes);
    var s := reg.Namespace("$");
    lib := s;
    CreateUtil();
    var ok := lib.Create("util", false, None);
  }

  /** The registrant's code: write `double` into the table `code` hands
      out, then seal. */
  method RegisterUtility(double: Value) returns (reg: Registry)
    ensures fresh(reg) && reg.Valid()
    ensures reg.nodes == UtilTree(double) && reg.next == 2 && reg.lastError == None
  {
    var lib;
    reg, lib := OpenUtility();
    var own := lib.Code();
    assert own == Some(CodeCall(lib.sys, 1));
    reg.Publish(own.value.own, "double", double);
    ghost var published := CreatedTree()[1 := UtilNode(double).(sealed := false)];
    assert reg.nodes == published;
    var ok := lib.Seal();
    assert reg.nodes == published[1 := UtilNode(double)] == UtilTree(double);
  }

  /** The tree once a second session has created "$.app" beside "$.util". */
  function AppTree(double: Value): map<NodeId, Node> {
    map[Root := Node(map[], map["util" := 1, "app" := 2], false, Public), 1 := UtilNode(double), 2 := NewNode(None)]
  }

  lemma CreateApp(double: Value)
    ensures TreeOk(UtilTree(double), 2)
    ensures CreateChild(UtilTree(double), 2, Some(Root), "app", false, None) == Created(AppTree(double), 3, Ok(2))
  {
    UtilTreeOk(double);
    assert IsValidName("app");
  }

  lemma AppTreeFound(double: Value, path: string)
    requires path == "$.util"
    ensures TreeOk(AppTree(double), 3)
    ensures FindPath(AppTree(double), path) == Ok(1)
  {
    var t := AppTree(double);
    assert Closed(t) by {
      forall id | id in t ensures t[id].children.Values <= t.Keys {
        assert id == Root || id == 1 || id == 2;
      }
    }
    RootFound(t);
    assert IsValidName("util");
    ChildPath(t, "$", "util");
    assert "$" + "." + "util" == path;
  }

  /** The symbol list "double" names one export. */
  lemma DoubleNames(list: string)
    requires list == "double"
    ensures SymbolNames(list) == ["double"]
  {
    SplitNoSeparator(list, ',');
    TrimUnspaced(list);
  }

  lemma ParseUtil(spec: string, path: string, list: string)
    requires spec == "$.util:double" && path == "$.util" && list == "double"
    ensures ParseImport(spec) == Some(ImportSpec(path, Some(list)))
  {
    var sp := ImportSpec(path, Some(list));
    assert Unparse(sp) == spec;
    ParseUnparse(sp);
  }

  lemma SingleSymbol(exports: map<string, Export>, name: string)
    ensures SymbolValues(exports, [name]) == [Symbol(ExportOf(exports, name))]
  {
  }

  /** "$.util:double", imported from "$" in any tree where "$.util" is
      sealed, public and exports `double`, yields that one export. */
  lemma ImportUtilStep(nodes: map<NodeId, Node>, double: Value, spec: string, path: string, calling: string, u: NodeId)
    requires Root in nodes && Closed(nodes)
    requires spec == "$.util:double" && path == "$.util" && calling == "$"
    requires FindPath(nodes, path) == Ok(u) && u in nodes
    requires nodes[u].sealed && nodes[u].access.Public? && "double" in nodes[u].exports && nodes[u].exports["double"] == Val(double)
    ensures ImportStep(nodes, [], spec, calling) == Done([Symbol(Some(Val(double)))])
  {
    var list := "double";
    ParseUtil(spec, path, list);
    DoubleNames(list);
    var n := nodes[u];
    assert CheckImport(n, path, calling) == None;
    ImportListed(nodes, [], spec, calling, ImportSpec(path, Some(list)), u);
    var vals := SymbolValues(n.exports, SymbolNames(list));
    assert vals == [Symbol(Some(Val(double)))] by {
      SingleSymbol(n.exports, "double");
    }
    assert [] + vals == vals;
  }

  /** The same as the only entry of a `codefile` list: that export and no
      error. */
  lemma ImportUtil(nodes: map<NodeId, Node>, double: Value, spec: string, path: string, calling: string, u: NodeId)
    requires Root in nodes && Closed(nodes)
    requires spec == "$.util:double" && path == "$.util" && calling == "$"
    requires FindPath(nodes, path) == Ok(u) && u in nodes
    requires nodes[u].sealed && nodes[u].access.Public? && "double" in nodes[u].exports && nodes[u].exports["double"] == Val(double)
    ensures Contributions(nodes, [spec], calling) == [Symbol(Some(Val(double)))]
    ensures LastFailure(nodes, None, [spec], calling) == None
  {
    ImportUtilStep(nodes, double, spec, path, calling, u);
    assert Contributions(nodes, [], calling) == [];
    FoldStep(nodes, None, [], [], spec, calling);
    assert [] + [spec] == [spec];
  }

  /** What `codefile(["$.util:double"], ...)` resolves to from "$" in the
      tree with "$.app". */
  lemma ShareFacts(double: Value, spec: string)
    requires spec == "$.util:double"
    ensures TreeOk(AppTree(double), 3)
    ensures Contributions(AppTree(double), [spec], "$") == [Symbol(Some(Val(double)))]
    ensures LastFailure(AppTree(double), None, [spec], "$") == None
  {
    AppTreeFound(double, "$.util");
    assert AppTree(double)[1] == UtilNode(double);
    ImportUtil(AppTree(double), double, spec, "$.util", "$", 1);
  }

  /** A second session on "$" creates "app" and is rebound to it. */
  method OpenApp(reg: Registry, double: Value) returns (app: Session)
    requires reg.Valid() && reg.nodes == UtilTree(double) && reg.next == 2 && reg.lastError == None
    modifies reg
    ensures app.reg == reg && app.Valid() && app.path == "$" && app.node == Some(2)
    ensures reg.nodes == AppTree(double) && reg.lastError == None && !reg.nodes[2].sealed
  {
    RootFound(reg.nodes);
    var s := reg.Namespace("$");
    app := s;
    CreateApp(double);
    var ok := app.Create("app", false, None);
  }

  /** The registration the registry is made for: once "$.util" is sealed
      with `double` in it, a second session on "$" creates "app" and lists
      "$.util:double" in `codefile`, which then receives exactly that
      export, with no error recorded along the way. */
  method ShareUtility(double: Value, spec: string) returns (call: Option<Call>, err: Option<Error>)
    requires spec == "$.util:double"
    ensures call.Some? && call.value.CodeFileCall?
    ensures call.value.imports == [Symbol(Some(Val(double)))]
    ensures err == None
  {
    var reg := RegisterUtility(double);
    var app := OpenApp(reg, double);
    ShareFacts(double, spec);
    call := app.CodeFile([spec]);
    err := reg.lastError;
  }
}

/** The registry of src/jsns.js as objects. `Registry` holds what the
    module closure keeps: the tree of namespaces, the one-time system
    namespace slot `sysns` and `lastError`. `Session` is the handle `mngr`
    that `nsmgr.namespace(path)` returns, with its rebindable current node
    `ns`, its fixed `current_ns_path` and its `_sysns` argument. */
module Jsns {
  import opened Text
  import opened Tree
  import opened Imports

  /** `version()`. */
  const Version: seq<nat> := [1, 0, 0]

  /** The `sys` argument a registrant callback receives: the designator
      closure while no system namespace was set when the session was made,
      otherwise a copy of the system namespace's exports. */
  datatype SysArg = Designator | Snapshot(exports: map<string, Export>)

  /** The arguments `code` and `codefile` pass to the registrant callback.
      The importer closure `code` passes first is the session's Importer
      method; the own export table is passed live, so it stands here as the
      node whose table it is. */
  datatype Call =
    | CodeCall(sys: SysArg, own: NodeId)
    | CodeFileCall(sys: SysArg, own: NodeId, imports: seq<Imported>)

  /** The `for (var k in x) r[k] = x[k]` copy of an export table. */
  method CopyExports(x: map<string, Export>) returns (r: map<string, Export>)
    ensures r == x
  {
    r := map[];
    var todo := x.Keys;
    while todo != {}
      invariant todo <= x.Keys
      invariant r.Keys == x.Keys - todo
      invariant forall k :: k in r ==> r[k] == x[k]
      decreases todo
    {
      var k :| k in todo;
      r := r[k := x[k]];
      todo := todo - {k};
    }
  }

  /** The `for` loop of `importSymbols` that pushes `ns.ns[sym.trim()]`
      for each listed name. */
  method PushSymbols(arr: seq<Imported>, exports: map<string, Export>, names: seq<string>) returns (values: seq<Imported>)
    ensures values == arr + SymbolValues(exports, names)
  {
    values := arr;
    var i := 0;
    while i < |names|
      invariant 0 <= i <= |names|
      invariant values == arr + SymbolValues(exports, names[..i])
    {
      assert SymbolValues(exports, names[..i + 1]) == SymbolValues(exports, names[..i]) + [Symbol(ExportOf(exports, names[i]))];
      values := values + [Symbol(ExportOf(exports, names[i]))];
      i := i + 1;
    }
    assert names[..i] == names;
  }

  class Registry {
    var nodes: map<NodeId, Node>
    var next: NodeId
    var sysns: Option<NodeId>
    var lastError: Option<Error>

    ghost predicate Valid()
      reads this
    {
      TreeOk(nodes, next) && Shaped(nodes) && (sysns.Some? ==> sysns.value in nodes)
    }

    /** The state the module starts in: the root "$", public and open,
        no system namespace and no error. */
    constructor ()
      ensures Valid()
      ensures nodes == map[Root := RootNode] && next == 1 && sysns == None && lastError == None
    {
      nodes := map[Root := RootNode];
      ShapedRoot();
      next := 1;
      sysns := None;
      lastError := None;
    }

    /** `lasterror()`: null while nothing failed, otherwise a text that
        names the last failure and no other. */
    function LastError(): (r: Option<string>)
      reads this
      ensures r.None? <==> lastError.None?
      ensures forall e :: r == Some(Message(e)) <==> lastError.Some? && Reported(e) == Reported(lastError.value)
    {
      if lastError.Some? then
        MessageNames(lastError.value);
        Some(Message(lastError.value))
      else None
    }

    /** `_err(null, desc)`: records the description (the console line it
        also prints is output only). */
    method Report(e: Error)
      modifies this`lastError
      ensures lastError == Some(e)
    {
      lastError := Some(e);
    }

    /** The loop of `findNamespace`: split the path and go down one segment
        at a time from the top-level map. */
    method Locate(path: string) returns (r: Result<NodeId>)
      requires Valid()
      ensures r == FindPath(nodes, path)
    {
      var parts := Split(path, '.');
      ghost var whole := Walk(nodes, Roots(), parts);
      var level: Option<map<string, NodeId>> := Some(Roots());
      var ns: Option<NodeId> := None;
      var i := 0;
      while i < |parts|
        invariant 0 <= i <= |parts|
        invariant i == 0 ==> level == Some(Roots()) && ns.None?
        invariant i > 0 ==> (level.Some? <==> ns.Some?)
        invariant ns.Some? ==> ns.value in nodes && level == Some(nodes[ns.value].children)
        invariant level.Some? ==> level.value.Values <= nodes.Keys
        invariant level.Some? && i < |parts| ==> whole == Walk(nodes, level.value, parts[i..])
        invariant i > 0 && ns.Some? && i == |parts| ==> whole == Found(ns.value)
        invariant i > 0 && ns.None? ==> whole == Absent
      {
        if level.None? {
          return Err(NotFound(path));
        }
        var part := parts[i];
        assert parts[i..][0] == part;
        if IsBlank(part) {
          return Err(EmptyPart(path));
        }
        if part in level.value {
          var id := level.value[part];
          assert id in level.value.Values;
          assert parts[i..][1..] == parts[i + 1..];
          ns := Some(id);
          level := Some(nodes[id].children);
        } else {
          ns := None;
          level := None;
        }
        i := i + 1;
      }
      if ns.Some? {
        r := Ok(ns.value);
      } else {
        r := Err(NotFound(path));
      }
    }

    /** `findNamespace(path)`: the node, or `None` with the error recorded. */
    method FindNamespace(path: string) returns (r: Option<NodeId>)
      requires Valid()
      modifies this`lastError
      ensures r == ToOption(FindPath(nodes, path))
      ensures lastError == if FindPath(nodes, path).Err? then Some(FindPath(nodes, path).error) else old(lastError)
    {
      var found := Locate(path);
      if found.Err? {
        Report(found.error);
        r := None;
      } else {
        r := Some(found.value);
      }
    }

    /** `createNamespace(base, name, joinNS, access)`, inserting the new
        child into the base's children in place. */
    method CreateNamespace(base: Option<NodeId>, name: string, join: bool, access: Option<string>) returns (r: Option<NodeId>)
      requires Valid() && (base.Some? ==> base.value in nodes)
      modifies this`nodes, this`next, this`lastError
      ensures Valid()
      ensures var c := CreateChild(old(nodes), old(next), base, name, join, access);
        && nodes == c.nodes && next == c.next && r == ToOption(c.result)
        && lastError == if c.result.Err? then Some(c.result.error) else old(lastError)
    {
      ghost var c := CreateChild(nodes, next, base, name, join, access);
      ghost var before := nodes;
      var res: Result<NodeId>;
      if !IsValidName(name) {
        res := Err(BadName);
      } else if base.None? {
        res := Err(BaseNull);
      } else {
        var b := nodes[base.value];
        if name in b.children {
          var child := b.children[name];
          assert child in b.children.Values;
          if !join {
            res := Err(AlreadyExists);
          } else if nodes[child].sealed {
            res := Err(JoinSealed);
          } else if access.Some? && access.value != AccessName(nodes[child].access) {
            res := Err(JoinAccess);
          } else {
            res := Ok(child);
          }
        } else if b.sealed {
          res := Err(CreateInSealed);
        } else {
          ghost var added := AddChild(nodes, next, base.value, name, access);
          assert c == added;
          var id := next;
          nodes := nodes[id := NewNode(access)][base.value := b.(children := b.children[name := id])];
          next := next + 1;
          res := Ok(id);
          assert nodes == added.nodes;
        }
      }
      assert res == c.result && nodes == c.nodes && next == c.next;
      CreateChildShaped(before, old(next), base, name, join, access);
      if res.Err? {
        Report(res.error);
        r := None;
      } else {
        r := Some(res.value);
      }
    }

    /** What a registrant does with the live export table `code` hands it:
        `ownns[key] = v`. Nothing checks the seal here. */
    method Publish(id: NodeId, key: string, v: Value)
      requires Valid() && id in nodes
      modifies this`nodes
      ensures Valid()
      ensures nodes == old(nodes)[id := old(nodes)[id].(exports := old(nodes)[id].exports[key := Val(v)])]
    {
      ShapedSameShape(nodes, nodes[id := nodes[id].(exports := nodes[id].exports[key := Val(v)])]);
      nodes := nodes[id := nodes[id].(exports := nodes[id].exports[key := Val(v)])];
    }

    /** `ownns.$seal()`: the function a new namespace's table starts with
        seals the namespace and deletes itself from the table; its argument
        is ignored. When the table holds no such function (deleted, or
        overwritten by the registrant) the call fails and nothing changes. */
    method CallSealHook(id: NodeId) returns (ok: bool)
      requires Valid() && id in nodes
      modifies this`nodes
      ensures Valid()
      ensures ok == (SealKey in old(nodes)[id].exports && old(nodes)[id].exports[SealKey].SealHook?)
      ensures ok ==> nodes == old(nodes)[id := old(nodes)[id].(sealed := true, exports := old(nodes)[id].exports - {SealKey})]
      ensures !ok ==> nodes == old(nodes)
    {
      var n := nodes[id];
      if SealKey !in n.exports || !n.exports[SealKey].SealHook? {
        return false;
      }
      ShapedSameShape(nodes, nodes[id := n.(sealed := true, exports := n.exports - {SealKey})]);
      nodes := nodes[id := n.(sealed := true, exports := n.exports - {SealKey})];
      ok := true;
    }

    /** The body of `importSymbols` without the error recording: parse,
        find, check, then push one value per listed name or one copy. */
    method ResolveImport(arr: seq<Imported>, spec: string, calling: string) returns (o: ImportOutcome)
      requires Valid()
      ensures o == ImportStep(nodes, arr, spec, calling)
    {
      var parsed := ParseImport(spec);
      if parsed.None? {
        return Refused(BadImportSyntax);
      }
      var target := parsed.value.path;
      var found := Locate(target);
      if found.Err? {
        return Missing(found.error);
      }
      var n := nodes[found.value];
      var denial := CheckImport(n, target, calling);
      if denial.Some? {
        return Refused(ImportDenied(denial.value, target, false));
      }
      if parsed.value.symbols.Some? {
        var values := PushSymbols(arr, n.exports, SymbolNames(parsed.value.symbols.value));
        o := Done(values);
      } else {
        var copy := CopyExports(n.exports);
        o := Done(arr + [Whole(copy)]);
      }
    }

    /** `importSymbols(arr, spec, callingns)`: the new accumulator, the old
        one when the path is not found, or `None` when refused. */
    method ImportSymbols(arr: seq<Imported>, spec: string, calling: string) returns (r: Option<seq<Imported>>)
      requires Valid()
      modifies this`lastError
      ensures var o := ImportStep(nodes, arr, spec, calling);
        && r == (match o case Done(v) => Some(v) case Missing(_) => Some(arr) case Refused(_) => None)
        && lastError == if o.Done? then old(lastError) else Some(o.error)
    {
      var o := ResolveImport(arr, spec, calling);
      match o
      case Done(v) =>
        r := Some(v);
      case Missing(e) =>
        Report(e);
        r := Some(arr);
      case Refused(e) =>
        Report(e);
        r := None;
    }

    /** `nsmgr.namespace(path)`: a session on the node the path leads to,
        whose `sys` argument is fixed now. */
    method Namespace(path: string) returns (s: Session?)
      requires Valid()
      modifies this`lastError
      ensures var f := FindPath(nodes, path);
        && (s == null <==> f.Err?)
        && lastError == (if f.Err? then Some(f.error) else old(lastError))
        && (s != null ==>
              && fresh(s) && s.reg == this && s.path == path && s.node == Some(f.value) && s.Valid()
              && s.sys == if sysns.Some? then Snapshot(nodes[sysns.value].exports) else Designator)
    {
      var sys := Designator;
      if sysns.Some? {
        var copy := CopyExports(nodes[sysns.value].exports);
        sys := Snapshot(copy);
      }
      var found := FindNamespace(path);
      if found.None? {
        return null;
      }
      s := new Session(this, path, found.value, sys);
    }
  }

  class Session {
    const reg: Registry
    /** `current_ns_path`: the path the session was made for; `create`
        does not change it. */
    const path: string
    /** `ns`: rebound by every `create`, `None` after a failed one. */
    var node: Option<NodeId>
    /** `_sysns`. */
    var sys: SysArg

    ghost predicate Valid()
      reads this, reg
    {
      reg.Valid() && (node.Some? ==> node.value in reg.nodes)
    }

    constructor (reg: Registry, path: string, node: NodeId, sys: SysArg)
      requires reg.Valid() && node in reg.nodes
      ensures Valid()
      ensures this.reg == reg && this.path == path && this.node == Some(node) && this.sys == sys
    {
      this.reg := reg;
      this.path := path;
      this.node := Some(node);
      this.sys := sys;
    }

    /** What `create(name, join, access)` did: the tree changed as
        CreateChild says, the session was rebound to its result and a
        failure was recorded. */
    twostate predicate Rebound(name: string, join: bool, access: Option<string>, ok: bool)
      requires old(Valid())
      reads this, reg
    {
      var c := CreateChild(old(reg.nodes), old(reg.next), old(node), name, join, access);
      && reg.nodes == c.nodes && reg.next == c.next
      && node == ToOption(c.result) && ok == c.result.Ok?
      && reg.lastError == (if c.result.Err? then Some(c.result.error) else old(reg.lastError))
    }

    /** `create(name, join, access)`: `ok` stands for returning the session. */
    method Create(name: string, join: bool, access: Option<string>) returns (ok: bool)
      requires Valid()
      modifies this`node, reg`nodes, reg`next, reg`lastError
      ensures Valid() && Rebound(name, join, access, ok)
    {
      node := reg.CreateNamespace(node, name, join, access);
      ok := node.Some?;
    }

    /** `join(name)`: `create(name, true)`. */
    method Join(name: string) returns (ok: bool)
      requires Valid()
      modifies this`node, reg`nodes, reg`next, reg`lastError
      ensures Valid() && Rebound(name, true, None, ok)
    {
      ok := Create(name, true, None);
    }

    /** `public(name)`: `create(name, true, "public")`. */
    method Public(name: string) returns (ok: bool)
      requires Valid()
      modifies this`node, reg`nodes, reg`next, reg`lastError
      ensures Valid() && Rebound(name, true, Some("public"), ok)
    {
      ok := Create(name, true, Some("public"));
    }

    /** `protected(name)`: `create(name, true, "protected")`. */
    method Protected(name: string) returns (ok: bool)
      requires Valid()
      modifies this`node, reg`nodes, reg`next, reg`lastError
      ensures Valid() && Rebound(name, true, Some("protected"), ok)
    {
      ok := Create(name, true, Some("protected"));
    }

    /** `private(name)`: `create(name, true, "private")`. */
    method Private(name: string) returns (ok: bool)
      requires Valid()
      modifies this`node, reg`nodes, reg`next, reg`lastError
      ensures Valid() && Rebound(name, true, Some("private"), ok)
    {
      ok := Create(name, true, Some("private"));
    }

    /** `seal()`: seals the current node once; a second call is refused
        and changes nothing. */
    method Seal() returns (ok: bool)
      requires Valid()
      modifies reg`nodes, reg`lastError
      ensures Valid()
      ensures node.None? ==> !ok && reg.nodes == old(reg.nodes) && reg.lastError == old(reg.lastError)
      ensures node.Some? ==>
        var n := old(reg.nodes)[node.value];
        && ok == !n.sealed
        && (n.sealed ==> reg.nodes == old(reg.nodes) && reg.lastError == Some(AlreadySealed))
        && (!n.sealed ==> reg.nodes == old(reg.nodes)[node.value := n.(sealed := true)] && reg.lastError == old(reg.lastError))
    {
      if node.None? {
        return false;
      }
      var n := reg.nodes[node.value];
      if n.sealed {
        reg.Report(AlreadySealed);
        return false;
      }
      ShapedSameShape(reg.nodes, reg.nodes[node.value := n.(sealed := true)]);
      reg.nodes := reg.nodes[node.value := n.(sealed := true)];
      ok := true;
    }

    /** `code(proc)`: the arguments `proc` is called with, unless the node
        is gone or sealed. */
    method Code() returns (r: Option<Call>)
      requires Valid()
      modifies reg`lastError
      ensures node.None? ==> r.None? && reg.lastError == old(reg.lastError)
      ensures node.Some? && reg.nodes[node.value].sealed ==> r.None? && reg.lastError == Some(NamespaceSealed)
      ensures node.Some? && !reg.nodes[node.value].sealed ==>
        r == Some(CodeCall(sys, node.value)) && reg.lastError == old(reg.lastError)
    {
      if node.None? {
        return None;
      }
      if reg.nodes[node.value].sealed {
        reg.Report(NamespaceSealed);
        return None;
      }
      r := Some(CodeCall(sys, node.value));
    }

    /** `codefile(arrimports, proc)`: resolves each specifier in order
        against the session's own path, one `importSymbols` call each, and
        gives the arguments `proc` is applied to. */
    method CodeFile(specs: seq<string>) returns (r: Option<Call>)
      requires Valid()
      modifies reg`lastError
      ensures node.None? ==> r.None? && reg.lastError == old(reg.lastError)
      ensures node.Some? && reg.nodes[node.value].sealed ==> r.None? && reg.lastError == Some(NamespaceSealed)
      ensures node.Some? && !reg.nodes[node.value].sealed ==>
        && r == Some(CodeFileCall(sys, node.value, Contributions(reg.nodes, specs, path)))
        && reg.lastError == LastFailure(reg.nodes, old(reg.lastError), specs, path)
    {
      if node.None? {
        return None;
      }
      if reg.nodes[node.value].sealed {
        reg.Report(NamespaceSealed);
        return None;
      }
      var imps: seq<Imported> := [];
      var i := 0;
      while i < |specs|
        invariant 0 <= i <= |specs|
        invariant imps == Contributions(reg.nodes, specs[..i], path)
        invariant reg.lastError == LastFailure(reg.nodes, old(reg.lastError), specs[..i], path)
      {
        FoldStep(reg.nodes, old(reg.lastError), imps, specs[..i], specs[i], path);
        assert specs[..i + 1] == specs[..i] + [specs[i]];
        var res := reg.ImportSymbols(imps, specs[i], path);
        if res.Some? {
          imps := res.value;
        }
        i := i + 1;
      }
      assert specs[..i] == specs;
      r := Some(CodeFileCall(sys, node.value, imps));
    }

    /** `import()`: a copy of the exports of a public, sealed node; the
        access level is checked before the seal. */
    method Import() returns (r: Option<map<string, Export>>)
      requires Valid()
      modifies reg`lastError
      ensures node.None? ==> r.None? && reg.lastError == old(reg.lastError)
      ensures node.Some? ==>
        var n := reg.nodes[node.value];
        && (r.Some? <==> n.access.Public? && n.sealed)
        && (!n.access.Public? ==> reg.lastError == Some(NotPublic))
        && (n.access.Public? && !n.sealed ==> reg.lastError == Some(NotSealed))
        && (r.Some? ==> r.value == n.exports && reg.lastError == old(reg.lastError))
    {
      if node.None? {
        return None;
      }
      var n := reg.nodes[node.value];
      if !n.access.Public? {
        reg.Report(NotPublic);
        return None;
      }
      if !n.sealed {
        reg.Report(NotSealed);
        return None;
      }
      var copy := CopyExports(n.exports);
      r := Some(copy);
    }

    /** `ref(sym)`: the export itself (absent when not exported) of a
        sealed, public node; the seal is checked before the access level. */
    method Ref(sym: string) returns (r: Option<Option<Export>>)
      requires Valid()
      modifies reg`lastError
      ensures node.None? ==> r.None? && reg.lastError == old(reg.lastError)
      ensures node.Some? ==>
        var n := reg.nodes[node.value];
        && (r.Some? <==> n.sealed && n.access.Public?)
        && (!n.sealed ==> reg.lastError == Some(NotSealed))
        && (n.sealed && !n.access.Public? ==> reg.lastError == Some(NotPublic))
        && (r.Some? ==> r.value == ExportOf(n.exports, sym) && reg.lastError == old(reg.lastError))
    {
      if node.None? {
        return None;
      }
      var n := reg.nodes[node.value];
      if !n.sealed {
        reg.Report(NotSealed);
        return None;
      }
      if n.access.Public? {
        return Some(ExportOf(n.exports, sym));
      }
      reg.Report(NotPublic);
      r := None;
    }

    /** The `importer(nspath, ref)` closure: the same three checks as
        `importSymbols`, made against the session's own path, then one
        export (for a string `ref`) or a copy of the whole table. */
    method Importer(nspath: string, ref: Option<string>) returns (r: Option<Imported>)
      requires Valid()
      modifies reg`lastError
      ensures var f := FindPath(reg.nodes, nspath);
        && (f.Err? ==> r.None? && reg.lastError == Some(f.error))
        && (f.Ok? ==>
              var n := reg.nodes[f.value];
              var d := CheckImport(n, nspath, path);
              && (d.Some? ==> r.None? && reg.lastError == Some(ImportDenied(d.value, nspath, true)))
              && (d.None? ==>
                    && reg.lastError == old(reg.lastError)
                    && r == Some(if ref.Some? then Symbol(ExportOf(n.exports, ref.value)) else Whole(n.exports))))
    {
      var found := reg.FindNamespace(nspath);
      if found.None? {
        return None;
      }
      var n := reg.nodes[found.value];
      var denial := CheckImport(n, nspath, path);
      if denial.Some? {
        reg.Report(ImportDenied(denial.value, nspath, true));
        return None;
      }
      if ref.Some? {
        return Some(Symbol(ExportOf(n.exports, ref.value)));
      }
      var copy := CopyExports(n.exports);
      r := Some(Whole(copy));
    }

    /** `sealsystem()`, and the designator closure passed as `sys`, both of
        which run `_setsysns`: designate the current node once. `ok` false
        stands for the exception thrown when a system namespace is already
        set, or when the current node is null. */
    method SealSystem() returns (ok: bool)
      requires Valid()
      modifies reg`sysns, this`sys
      ensures Valid()
      ensures ok <==> old(reg.sysns).None? && node.Some?
      ensures ok ==> reg.sysns == Some(node.value) && sys == Snapshot(reg.nodes[node.value].exports)
      ensures !ok ==> reg.sysns == old(reg.sysns) && sys == old(sys)
    {
      if reg.sysns.Some? {
        return false;
      }
      if node.None? {
        return false;
      }
      reg.sysns := node;
      var copy := CopyExports(reg.nodes[node.value].exports);
      sys := Snapshot(copy);
      ok := true;
    }
  }
}

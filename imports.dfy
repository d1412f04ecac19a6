/** Import resolution of src/jsns.js: the specifier grammar of `reimp`,
    the three ordered access checks shared by `importSymbols` and the
    session's `importer`, what one specifier appends to the accumulator,
    and what a whole list of specifiers contributes in `codefile`. */
module Imports {
  import opened Text
  import opened Tree

  /** A parsed specifier `path[:symbols]`, the two groups of `reimp`. */
  datatype ImportSpec = ImportSpec(path: string, symbols: Option<string>)

  /** A value `importSymbols` pushes: one export looked up by name (absent
      when the name is not exported), or a copy of a whole export table. */
  datatype Imported = Symbol(value: Option<Export>) | Whole(table: map<string, Export>)

  /** The strings `/^([^:]+)(?::(.+))?$/` matches, split into their groups:
      a non-empty path without a colon, and an optional non-empty symbol
      list without line terminators. */
  predicate WellFormed(sp: ImportSpec) {
    && sp.path != [] && ':' !in sp.path
    && (sp.symbols.Some? ==>
          sp.symbols.value != [] && forall i :: 0 <= i < |sp.symbols.value| ==> !IsLineTerminator(sp.symbols.value[i]))
  }

  /** The specifier text of a parsed specifier. */
  function Unparse(sp: ImportSpec): string {
    sp.path + if sp.symbols.Some? then ":" + sp.symbols.value else ""
  }

  /** `reimp.exec(s)`: `None` when there is no match. */
  function ParseImport(s: string): (r: Option<ImportSpec>)
    ensures r.Some? ==> WellFormed(r.value) && Unparse(r.value) == s
  {
    var k := FirstIndex(s, ':');
    if k == 0 then None
    else if k == |s| then Some(ImportSpec(s, None))
    else
      var rest := s[k + 1..];
      if rest == [] || exists i :: 0 <= i < |rest| && IsLineTerminator(rest[i]) then None
      else
        assert s == s[..k] + ":" + rest;
        Some(ImportSpec(s[..k], Some(rest)))
  }

  /** Every well-formed specifier is matched, with the groups it was made
      of; with the ensures of ParseImport this says that exactly the texts
      of well-formed specifiers are accepted. */
  lemma ParseUnparse(sp: ImportSpec)
    requires WellFormed(sp)
    ensures ParseImport(Unparse(sp)) == Some(sp)
  {
    var s := Unparse(sp);
    var j := |sp.path|;
    assert s[..j] == sp.path;
    FirstIndexAt(s, ':', j);
    if sp.symbols.Some? {
      assert s[j + 1..] == sp.symbols.value;
    }
  }

  /** The three checks made on a found node, in order: private is always
      refused, protected is refused unless the target path is a literal
      string prefix of the calling path (`callingns.indexOf(target) == 0`),
      and an unsealed node is refused. */
  function CheckImport(n: Node, target: string, calling: string): (d: Option<Denial>)
    ensures d.None? <==> n.sealed && (n.access.Public? || (n.access.Protected? && target <= calling))
    ensures n.access.Private? ==> d == Some(DeniedPrivate)
    ensures n.access.Protected? && !(target <= calling) ==> d == Some(DeniedProtected)
    ensures d == Some(DeniedUnsealed) <==> !n.sealed && (n.access.Public? || (n.access.Protected? && target <= calling))
  {
    if n.access.Private? then Some(DeniedPrivate)
    else if n.access.Protected? && !(target <= calling) then Some(DeniedProtected)
    else if !n.sealed then Some(DeniedUnsealed)
    else None
  }

  /** The textual prefix test lets a sibling whose name extends the
      target's pass: "a.bc" may import the protected "a.b", "a.c" may not. */
  lemma ProtectedPrefixIsTextual(exports: map<string, Export>, children: map<string, NodeId>)
    ensures CheckImport(Node(exports, children, true, Protected), "a.b", "a.bc") == None
    ensures CheckImport(Node(exports, children, true, Protected), "a.b", "a.b.c") == None
    ensures CheckImport(Node(exports, children, true, Protected), "a.b", "a.c") == Some(DeniedProtected)
    ensures CheckImport(Node(exports, children, true, Protected), "a.b", "x.y") == Some(DeniedProtected)
  {
    assert "a.b" <= "a.bc" && "a.b" <= "a.b.c";
    assert "a.c"[2] != "a.b"[2];
    assert "x.y"[0] != "a.b"[0];
  }

  /** `ns.ns[sym]`. */
  function ExportOf(exports: map<string, Export>, sym: string): Option<Export> {
    if sym in exports then Some(exports[sym]) else None
  }

  /** The trimmed, comma-separated names of a symbol list. */
  function SymbolNames(list: string): (names: seq<string>)
    ensures |names| == |Split(list, ',')|
  {
    var parts := Split(list, ',');
    seq(|parts|, k requires 0 <= k < |parts| => Trim(parts[k]))
  }

  /** One looked-up value per listed name, in order. */
  function SymbolValues(exports: map<string, Export>, names: seq<string>): seq<Imported> {
    seq(|names|, k requires 0 <= k < |names| => Symbol(ExportOf(exports, names[k])))
  }

  /** What `importSymbols` makes of one specifier. */
  datatype ImportOutcome =
    | Done(values: seq<Imported>)   // the accumulator with the new values pushed
    | Missing(error: Error)         // the path was not found: the accumulator is returned as it was
    | Refused(error: Error)         // syntax or access refused: `null` is returned

  /** The values an admitted specifier pushes: one per listed name, or
      one copy of the whole table. */
  function Pushed(exports: map<string, Export>, symbols: Option<string>): seq<Imported> {
    match symbols
    case None => [Whole(exports)]
    case Some(list) => SymbolValues(exports, SymbolNames(list))
  }

  /** The checks and the push once the target `n` has been found. */
  function Admit(n: Node, sp: ImportSpec, arr: seq<Imported>, calling: string): ImportOutcome {
    match CheckImport(n, sp.path, calling)
    case Some(d) => Refused(ImportDenied(d, sp.path, false))
    case None => Done(arr + Pushed(n.exports, sp.symbols))
  }

  /** `importSymbols(arr, spec, callingns)` on the tree `nodes`. */
  function ImportStep(nodes: map<NodeId, Node>, arr: seq<Imported>, spec: string, calling: string): ImportOutcome
    requires Root in nodes && Closed(nodes)
  {
    match ParseImport(spec)
    case None => Refused(BadImportSyntax)
    case Some(sp) =>
      match FindPath(nodes, sp.path)
      case Err(e) => Missing(e)
      case Ok(id) => Admit(nodes[id], sp, arr, calling)
  }

  /** The outcome of one specifier: a syntax error, a missing path that
      keeps the accumulator, the first failing check of CheckImport, or, when
      all checks pass, the accumulator followed by one lookup per listed
      name in order, or by one copy of the whole export table. */
  lemma ImportStepMeaning(nodes: map<NodeId, Node>, arr: seq<Imported>, spec: string, calling: string)
    requires Root in nodes && Closed(nodes)
    ensures var o := ImportStep(nodes, arr, spec, calling);
      match ParseImport(spec)
      case None => o == Refused(BadImportSyntax)
      case Some(sp) =>
        match FindPath(nodes, sp.path)
        case Err(e) => o == Missing(e)
        case Ok(id) =>
          var d := CheckImport(nodes[id], sp.path, calling);
          var exports := nodes[id].exports;
          && (d.Some? ==> o == Refused(ImportDenied(d.value, sp.path, false)))
          && (d.None? ==> o.Done? && |arr| < |o.values| && o.values[..|arr|] == arr)
          && (d.None? && sp.symbols.None? ==> o.values == arr + [Whole(exports)])
          && (d.None? && sp.symbols.Some? ==>
                var names := SymbolNames(sp.symbols.value);
                && |o.values| == |arr| + |names|
                && forall k :: 0 <= k < |names| ==> o.values[|arr| + k] == Symbol(ExportOf(exports, names[k])))
  {
  }

  /** A specifier listing symbols of an importable namespace pushes one
      looked-up value per listed name. */
  lemma ImportListed(nodes: map<NodeId, Node>, arr: seq<Imported>, spec: string, calling: string, sp: ImportSpec, id: NodeId)
    requires Root in nodes && Closed(nodes)
    requires ParseImport(spec) == Some(sp) && sp.symbols.Some?
    requires FindPath(nodes, sp.path) == Ok(id) && CheckImport(nodes[id], sp.path, calling) == None
    ensures ImportStep(nodes, arr, spec, calling) == Done(arr + SymbolValues(nodes[id].exports, SymbolNames(sp.symbols.value)))
  {
  }

  /** The outcome for one specifier does not depend on the accumulator,
      which is kept as the prefix of what is returned. */
  lemma ImportStepAppends(nodes: map<NodeId, Node>, arr: seq<Imported>, spec: string, calling: string)
    requires Root in nodes && Closed(nodes)
    ensures var o := ImportStep(nodes, arr, spec, calling);
      var o0 := ImportStep(nodes, [], spec, calling);
      && o.Done? == o0.Done?
      && (o.Done? ==> o.values == arr + o0.values)
      && (!o.Done? ==> o == o0)
  {
    match ParseImport(spec)
    case None =>
    case Some(sp) =>
      match FindPath(nodes, sp.path)
      case Err(_) =>
      case Ok(id) =>
        var p := Pushed(nodes[id].exports, sp.symbols);
        assert [] + p == p;
  }

  /** The outcome of each specifier of a list on its own, in order. */
  function Outcomes(nodes: map<NodeId, Node>, specs: seq<string>, calling: string): (os: seq<ImportOutcome>)
    requires Root in nodes && Closed(nodes)
    ensures |os| == |specs|
    ensures forall i :: 0 <= i < |specs| ==> os[i] == ImportStep(nodes, [], specs[i], calling)
  {
    seq(|specs|, i requires 0 <= i < |specs| => ImportStep(nodes, [], specs[i], calling))
  }

  /** The values the successful outcomes push, in order. */
  function Collected(os: seq<ImportOutcome>): seq<Imported> {
    if os == [] then []
    else Collected(os[..|os| - 1]) + if os[|os| - 1].Done? then os[|os| - 1].values else []
  }

  /** The error of the last outcome that is not a success, or `err`. */
  function Failure(err: Option<Error>, os: seq<ImportOutcome>): Option<Error> {
    if os == [] then err
    else if os[|os| - 1].Done? then Failure(err, os[..|os| - 1])
    else Some(os[|os| - 1].error)
  }

  /** The values a list of specifiers contributes, in the listed order. */
  function Contributions(nodes: map<NodeId, Node>, specs: seq<string>, calling: string): seq<Imported>
    requires Root in nodes && Closed(nodes)
  {
    Collected(Outcomes(nodes, specs, calling))
  }

  /** The error the last refused or missing specifier of the list records,
      or `err` when there is none. */
  function LastFailure(nodes: map<NodeId, Node>, err: Option<Error>, specs: seq<string>, calling: string): Option<Error>
    requires Root in nodes && Closed(nodes)
  {
    Failure(err, Outcomes(nodes, specs, calling))
  }

  lemma OutcomesConcat(nodes: map<NodeId, Node>, s1: seq<string>, s2: seq<string>, calling: string)
    requires Root in nodes && Closed(nodes)
    ensures Outcomes(nodes, s1 + s2, calling) == Outcomes(nodes, s1, calling) + Outcomes(nodes, s2, calling)
  {
    var all, a, b := Outcomes(nodes, s1 + s2, calling), Outcomes(nodes, s1, calling), Outcomes(nodes, s2, calling);
    forall i | 0 <= i < |all| ensures all[i] == (a + b)[i] {
      if i < |s1| {
        assert (s1 + s2)[i] == s1[i] && (a + b)[i] == a[i];
      } else {
        assert (s1 + s2)[i] == s2[i - |s1|] && (a + b)[i] == b[i - |s1|];
      }
    }
    assert |all| == |a + b|;
  }

  lemma {:induction false} CollectedConcat(a: seq<ImportOutcome>, b: seq<ImportOutcome>)
    ensures Collected(a + b) == Collected(a) + Collected(b)
    decreases |b|
  {
    if b == [] {
      assert a + b == a;
    } else {
      var init := b[..|b| - 1];
      assert (a + b)[..|a + b| - 1] == a + init;
      assert (a + b)[|a + b| - 1] == b[|b| - 1];
      CollectedConcat(a, init);
    }
  }

  /** Outcomes that each push one value collect to those values. */
  lemma {:induction false} CollectedSingletons(os: seq<ImportOutcome>)
    requires forall i :: 0 <= i < |os| ==> os[i].Done? && |os[i].values| == 1
    ensures |Collected(os)| == |os|
    ensures forall i :: 0 <= i < |os| ==> Collected(os)[i] == os[i].values[0]
    decreases |os|
  {
    if os != [] {
      var init := os[..|os| - 1];
      assert forall i :: 0 <= i < |init| ==> init[i] == os[i];
      CollectedSingletons(init);
    }
  }

  /** One more specifier: `codefile`'s loop step, on an accumulator that
      holds what the earlier specifiers contributed. */
  lemma FoldStep(nodes: map<NodeId, Node>, err: Option<Error>, arr: seq<Imported>, specs: seq<string>, s: string, calling: string)
    requires Root in nodes && Closed(nodes)
    requires arr == Contributions(nodes, specs, calling)
    ensures var o := ImportStep(nodes, arr, s, calling);
      && Contributions(nodes, specs + [s], calling) == (if o.Done? then o.values else arr)
      && LastFailure(nodes, err, specs + [s], calling) == (if o.Done? then LastFailure(nodes, err, specs, calling) else Some(o.error))
  {
    ImportStepAppends(nodes, arr, s, calling);
    OutcomesConcat(nodes, specs, [s], calling);
    var os := Outcomes(nodes, specs + [s], calling);
    assert os[..|os| - 1] == Outcomes(nodes, specs, calling);
  }

  /** The contributions of two lists of specifiers follow one another: the
      imports come in the order the specifiers are declared. */
  lemma ContributionsConcat(nodes: map<NodeId, Node>, s1: seq<string>, s2: seq<string>, calling: string)
    requires Root in nodes && Closed(nodes)
    ensures Contributions(nodes, s1 + s2, calling) == Contributions(nodes, s1, calling) + Contributions(nodes, s2, calling)
  {
    OutcomesConcat(nodes, s1, s2, calling);
    CollectedConcat(Outcomes(nodes, s1, calling), Outcomes(nodes, s2, calling));
  }

  /** A list of specifiers each importing one whole, importable namespace
      contributes exactly one value per specifier, the copy of that
      namespace's table. */
  lemma ContributionsOnePerWhole(nodes: map<NodeId, Node>, specs: seq<string>, calling: string)
    requires Root in nodes && Closed(nodes)
    requires forall i :: 0 <= i < |specs| ==> ImportStep(nodes, [], specs[i], calling).Done? && ParseImport(specs[i]).value.symbols.None?
    ensures |Contributions(nodes, specs, calling)| == |specs|
    ensures forall i :: 0 <= i < |specs| ==>
      Contributions(nodes, specs, calling)[i] == Whole(nodes[FindPath(nodes, ParseImport(specs[i]).value.path).value].exports)
  {
    var os := Outcomes(nodes, specs, calling);
    forall i | 0 <= i < |specs|
      ensures os[i].Done? && os[i].values == [Whole(nodes[FindPath(nodes, ParseImport(specs[i]).value.path).value].exports)]
    {
      ImportStepMeaning(nodes, [], specs[i], calling);
    }
    CollectedSingletons(os);
  }
}

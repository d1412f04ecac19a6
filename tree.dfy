/** The namespace tree of src/jsns.js as a value: node records keyed by
    node identity, dotted-path lookup (`findNamespace`) and the creation or
    joining of a child (`createNamespace`). The class `Registry` in module
    Jsns holds this state and changes it only as these functions say. */
module Tree {
  import opened Text

  datatype Option<+T> = None | Some(value: T)

  datatype Result<+T> = Ok(value: T) | Err(error: Error)

  function ToOption<T>(r: Result<T>): Option<T> {
    if r.Ok? then Some(r.value) else None
  }

  /** Any JavaScript value a registrant stores in an export table. */
  type Value

  /** An entry of an export table: the `$seal` closure every created node
      starts with, or a value a registrant put there. */
  datatype Export = SealHook | Val(v: Value)

  datatype Access = Public | Protected | Private

  /** The string stored in `meta.access`. */
  function AccessName(a: Access): string {
    match a
    case Public => "public"
    case Protected => "protected"
    case Private => "private"
  }

  /** The access level a new node gets from the `access` argument, `None`
      standing for any argument that is not a string. */
  function AccessFor(access: Option<string>): (a: Access)
    ensures access.Some? && access.value in {"public", "protected", "private"} ==> AccessName(a) == access.value
    ensures !a.Public? ==> access == Some(AccessName(a))
  {
    if access == Some("protected") then Protected
    else if access == Some("private") then Private
    else Public
  }

  type NodeId = nat

  /** One namespace: its export table `ns`, its `children` and its `meta`. */
  datatype Node = Node(exports: map<string, Export>, children: map<string, NodeId>, sealed: bool, access: Access)

  /** The node behind the one top-level name "$". */
  const Root: NodeId := 0
  const RootNode: Node := Node(map[], map[], false, Public)

  /** The top-level map `namespaces`; nothing ever adds to it. */
  function Roots(): map<string, NodeId> {
    map["$" := Root]
  }

  /** The key of the self-removing seal closure placed in new export tables. */
  const SealKey: string := "$seal"

  function NewNode(access: Option<string>): Node {
    Node(map[SealKey := SealHook], map[], false, AccessFor(access))
  }

  /** Why an import was refused, in the order the checks are made. */
  datatype Denial = DeniedPrivate | DeniedProtected | DeniedUnsealed

  /** The descriptions `_err` records in `lastError`. */
  datatype Error =
    | NotFound(path: string)
    | EmptyPart(path: string)
    | JoinSealed
    | JoinAccess
    | AlreadyExists
    | CreateInSealed
    | BaseNull
    | BadName
    | ImportDenied(reason: Denial, target: string, byImporter: bool)
    | BadImportSyntax
    | NamespaceSealed
    | AlreadySealed
    | NotPublic
    | NotSealed

  /** The fixed start of the four import refusals. */
  const Refusal: string := "the namespace you are trying to import is "

  /** The exact text of each description. The longer texts are written as
      concatenations of short pieces, which the verifier can read character
      by character. */
  function Message(e: Error): string {
    match e
    case NotFound(p) => "namespace not found:" + p
    case EmptyPart(p) => "empty part in namespace path:" + p
    case JoinSealed => "cannot join namespace, " + "the namespace is sealed"
    case JoinAccess => "cannot join namespace " + "by specifying different access level"
    case AlreadyExists => "namespace already exists"
    case CreateInSealed => "cannot create namespace in a sealed one"
    case BaseNull => "base namespace is null " + "while creating a child namespace"
    case BadName => "incorrect namespace name " + "while creating a new namespace"
    case ImportDenied(DeniedPrivate, t, _) => Refusal + "private: " + t
    case ImportDenied(DeniedProtected, t, false) =>
      Refusal + "protected and can be imported only by " + "inner namespaces: " + t
    case ImportDenied(DeniedProtected, t, true) =>
      Refusal + "protected and can be imported only by " + "nested ones: " + t
    case ImportDenied(DeniedUnsealed, t, _) => Refusal + "not sealed yet: " + t
    case BadImportSyntax => "Wrong import syntax. " + "Import entry looks like " + "(abc.def.gh: sym1, sym2)"
    case NamespaceSealed => "namespace is sealed"
    case AlreadySealed => "namespace is already sealed"
    case NotPublic => "only public namespaces can be imported " + "through this method"
    case NotSealed => "Non-sealed namespaces cannot be imported, " + "because they are considered incomplete."
  }

  /** The failure a description stands for: the private and unsealed
      refusals read the same whether `importSymbols` or the importer made
      them, while the two protected refusals are worded differently. */
  function Reported(e: Error): Error {
    if e.ImportDenied? && !e.reason.DeniedProtected? then e.(byImporter := false) else e
  }

  /** Reads the failure back from a description, by the first characters
      that tell the descriptions apart and the path or target that follows
      the fixed part. */
  function ReadMessage(m: string): Option<Error> {
    if |m| < 19 then None
    else if m[0] == 'n' then
      if m[10] == 'n' && |m| >= 20 then Some(NotFound(m[20..]))
      else if m[10] == 'a' then Some(AlreadyExists)
      else if m[13] == 's' then Some(NamespaceSealed)
      else Some(AlreadySealed)
    else if m[0] == 'e' && |m| >= 29 then Some(EmptyPart(m[29..]))
    else if m[0] == 'c' && |m| > 21 then
      if m[7] == 'c' then Some(CreateInSealed)
      else if m[21] == ',' then Some(JoinSealed)
      else Some(JoinAccess)
    else if m[0] == 'b' then Some(BaseNull)
    else if m[0] == 'i' then Some(BadName)
    else if m[0] == 't' && |m| >= 51 then
      if m[42] == 'n' && |m| >= 58 then Some(ImportDenied(DeniedUnsealed, m[58..], false))
      else if m[44] == 'i' then Some(ImportDenied(DeniedPrivate, m[51..], false))
      else if |m| >= 93 && m[80] == 'n' then Some(ImportDenied(DeniedProtected, m[93..], true))
      else if |m| >= 98 then Some(ImportDenied(DeniedProtected, m[98..], false))
      else None
    else if m[0] == 'W' then Some(BadImportSyntax)
    else if m[0] == 'o' then Some(NotPublic)
    else if m[0] == 'N' then Some(NotSealed)
    else None
  }

  /** The four import refusals read back as themselves. */
  lemma RefusalRead(e: Error)
    requires e.ImportDenied?
    ensures ReadMessage(Message(e)) == Some(Reported(e))
  {
    var m := Message(e);
    var t := e.target;
    match e.reason
    case DeniedPrivate =>
      assert m == Refusal + "private: " + t && Refusal[0] == 't';
      assert m[51..] == t;
    case DeniedUnsealed =>
      assert m == Refusal + "not sealed yet: " + t && Refusal[0] == 't';
      assert m[58..] == t;
    case DeniedProtected =>
      if e.byImporter {
        assert m == Refusal + "protected and can be imported only by " + "nested ones: " + t && Refusal[0] == 't';
        assert m[93..] == t;
      } else {
        assert m == Refusal + "protected and can be imported only by " + "inner namespaces: " + t && Refusal[0] == 't';
        assert m[98..] == t;
      }
  }

  /** The two path descriptions read back with the path they carry. */
  lemma PathRead(e: Error)
    requires e.NotFound? || e.EmptyPart?
    ensures ReadMessage(Message(e)) == Some(Reported(e))
  {
    var m := Message(e);
    if e.NotFound? {
      assert m[20..] == e.path;
    } else {
      assert m[29..] == e.path;
    }
  }

  /** The descriptions of `createNamespace`, read back by their first
      characters. */
  lemma CreateErrorRead(e: Error)
    requires e.JoinSealed? || e.JoinAccess? || e.AlreadyExists? || e.CreateInSealed? || e.BaseNull? || e.BadName?
    ensures ReadMessage(Message(e)) == Some(Reported(e))
  {
  }

  /** The fixed descriptions of import syntax and of the session methods,
      read back by their first characters. */
  lemma SessionErrorRead(e: Error)
    requires e.BadImportSyntax? || e.NamespaceSealed? || e.AlreadySealed? || e.NotPublic? || e.NotSealed?
    ensures ReadMessage(Message(e)) == Some(Reported(e))
  {
  }

  /** A recorded description can be read back: it names its failure and,
      where there is one, the path or target exactly. */
  lemma MessageRead(e: Error)
    ensures ReadMessage(Message(e)) == Some(Reported(e))
  {
    match e
    case NotFound(_) => PathRead(e);
    case EmptyPart(_) => PathRead(e);
    case ImportDenied(_, _, _) => RefusalRead(e);
    case JoinSealed => CreateErrorRead(e);
    case JoinAccess => CreateErrorRead(e);
    case AlreadyExists => CreateErrorRead(e);
    case CreateInSealed => CreateErrorRead(e);
    case BaseNull => CreateErrorRead(e);
    case BadName => CreateErrorRead(e);
    case BadImportSyntax => SessionErrorRead(e);
    case NamespaceSealed => SessionErrorRead(e);
    case AlreadySealed => SessionErrorRead(e);
    case NotPublic => SessionErrorRead(e);
    case NotSealed => SessionErrorRead(e);
  }

  /** Two failures are recorded with the same text exactly when they are
      the same failure. */
  lemma MessageIdentifies(e1: Error, e2: Error)
    ensures Message(e1) == Message(e2) <==> Reported(e1) == Reported(e2)
  {
    MessageRead(e1);
    MessageRead(e2);
    assert Message(Reported(e1)) == Message(e1) && Message(Reported(e2)) == Message(e2);
  }

  /** The text of a failure names it among all failures. */
  lemma MessageNames(e0: Error)
    ensures forall e :: Message(e) == Message(e0) <==> Reported(e) == Reported(e0)
  {
    forall e ensures Message(e) == Message(e0) <==> Reported(e) == Reported(e0) {
      MessageIdentifies(e, e0);
    }
  }

  /** Every child reference names a node of the map. */
  predicate Closed(nodes: map<NodeId, Node>) {
    forall id :: id in nodes ==> nodes[id].children.Values <= nodes.Keys
  }

  /** The shape the registry keeps: the root exists, children are closed
      and `next` is above every identity in use. */
  predicate TreeOk(nodes: map<NodeId, Node>, next: NodeId) {
    Root in nodes && Closed(nodes) && forall id :: id in nodes ==> id < next
  }

  predicate SubMap(a: map<string, NodeId>, b: map<string, NodeId>) {
    forall k :: k in a ==> k in b && b[k] == a[k]
  }

  /** `b` keeps every node of `a` and every child link of it. */
  ghost predicate Extends(a: map<NodeId, Node>, b: map<NodeId, Node>) {
    forall id :: id in a ==> id in b && SubMap(a[id].children, b[id].children)
  }

  /** `b` has the child `s`, and it is `c`. */
  predicate Links(nodes: map<NodeId, Node>, b: NodeId, s: string, c: NodeId) {
    b in nodes && s in nodes[b].children && nodes[b].children[s] == c
  }

  /** The child links form a tree under valid names: the root is no
      node's child, and every other node is the child of exactly one node
      under exactly one name, as `base.children[name] = newns` links each
      new node once. */
  ghost predicate Shaped(nodes: map<NodeId, Node>) {
    && (forall b, s :: !Links(nodes, b, s, Root))
    && (forall b1, s1, b2, s2, c :: Links(nodes, b1, s1, c) && Links(nodes, b2, s2, c) ==> b1 == b2 && s1 == s2)
    && (forall c :: HasParent(nodes, c))
    && (forall b :: NamedLinks(nodes, b))
  }

  /** A node other than the root is some node's child. */
  ghost predicate HasParent(nodes: map<NodeId, Node>, c: NodeId) {
    c in nodes && c != Root ==> exists b, s :: Links(nodes, b, s, c)
  }

  /** The children of `b` are reached under valid names. */
  predicate NamedLinks(nodes: map<NodeId, Node>, b: NodeId) {
    b in nodes ==> forall s :: s in nodes[b].children ==> IsValidName(s)
  }

  /** The tree the registry starts with is shaped. */
  lemma ShapedRoot()
    ensures Shaped(map[Root := RootNode])
  {
  }

  /** Shape is a matter of the child links only. */
  lemma ShapedSameShape(a: map<NodeId, Node>, b: map<NodeId, Node>)
    requires Shaped(a)
    requires a.Keys == b.Keys && forall id :: id in a ==> b[id].children == a[id].children
    ensures Shaped(b)
  {
    forall x, s, c ensures Links(b, x, s, c) == Links(a, x, s, c) {
    }
    forall c ensures HasParent(b, c) {
      if c in b && c != Root {
        assert HasParent(a, c);
        var x, s :| Links(a, x, s, c);
        assert Links(b, x, s, c);
      }
    }
    forall x ensures NamedLinks(b, x) {
      assert NamedLinks(a, x);
    }
  }

  /** What the descent of `findNamespace` ends in. */
  datatype Lookup = Found(id: NodeId) | Absent | BlankSegment

  /** The descent of `findNamespace` from the name map `level` along the
      segments `parts`. A segment is tested for blankness only once the
      segment before it was found, so a blank segment after a missing one
      reports "not found". */
  function Walk(nodes: map<NodeId, Node>, level: map<string, NodeId>, parts: seq<string>): (r: Lookup)
    requires Closed(nodes) && level.Values <= nodes.Keys
    ensures r.Found? ==> r.id in nodes
    decreases parts
  {
    if parts == [] then Absent
    else if IsBlank(parts[0]) then BlankSegment
    else if parts[0] !in level then Absent
    else
      var id := level[parts[0]];
      assert id in level.Values;
      if |parts| == 1 then Found(id)
      else Walk(nodes, nodes[id].children, parts[1..])
  }

  /** `findNamespace(path)` for a string path: the node the dotted path
      leads to, or the error it records. */
  function FindPath(nodes: map<NodeId, Node>, path: string): (r: Result<NodeId>)
    requires Root in nodes && Closed(nodes)
    ensures r.Ok? <==> Walk(nodes, Roots(), Split(path, '.')).Found?
    ensures r.Ok? ==> r.value in nodes
    ensures r.Err? ==> r.error == NotFound(path) || r.error == EmptyPart(path)
  {
    match Walk(nodes, Roots(), Split(path, '.'))
    case Found(id) => Ok(id)
    case Absent => Err(NotFound(path))
    case BlankSegment => Err(EmptyPart(path))
  }

  /** The path "$" leads to the root in every tree. */
  lemma RootFound(nodes: map<NodeId, Node>)
    requires Root in nodes && Closed(nodes)
    ensures FindPath(nodes, "$") == Ok(Root)
  {
    SplitNoSeparator("$", '.');
    assert !IsSpace('$');
  }

  /** The walk goes one segment at a time: walking `q + [s]` is walking `q`
      and then taking the child `s` of the node reached. */
  lemma {:induction false} WalkSnoc(nodes: map<NodeId, Node>, level: map<string, NodeId>, q: seq<string>, s: string)
    requires Closed(nodes) && level.Values <= nodes.Keys && q != []
    ensures Walk(nodes, level, q + [s]) ==
      match Walk(nodes, level, q)
      case Found(b) => Walk(nodes, nodes[b].children, [s])
      case other => other
    decreases q
  {
    var qs := q + [s];
    assert qs[0] == q[0];
    if !IsBlank(q[0]) && q[0] in level {
      var id := level[q[0]];
      assert id in level.Values;
      if |q| == 1 {
        assert qs[1..] == [s];
      } else {
        assert qs[1..] == q[1..] + [s];
        WalkSnoc(nodes, nodes[id].children, q[1..], s);
      }
    }
  }

  /** A blank segment makes the lookup fail whatever the tree holds; it is
      reported as blank when every segment before it was found. */
  lemma {:induction false} WalkBlankFails(nodes: map<NodeId, Node>, level: map<string, NodeId>, parts: seq<string>, k: nat)
    requires Closed(nodes) && level.Values <= nodes.Keys
    requires k < |parts| && IsBlank(parts[k])
    ensures !Walk(nodes, level, parts).Found?
    ensures k == 0 || Walk(nodes, level, parts[..k]).Found? ==> Walk(nodes, level, parts) == BlankSegment
    decreases k
  {
    if k > 0 && !IsBlank(parts[0]) && parts[0] in level {
      var id := level[parts[0]];
      assert id in level.Values;
      assert parts[1..][k - 1] == parts[k];
      WalkBlankFails(nodes, nodes[id].children, parts[1..], k - 1);
      if k > 1 {
        assert parts[..k][0] == parts[0];
        assert parts[..k][1..] == parts[1..][..k - 1];
      }
    }
  }

  /** Whatever the tree, a dotted path with an empty or blank segment
      (such as "a..b") is not found. */
  lemma BlankSegmentNotFound(nodes: map<NodeId, Node>, path: string, k: nat)
    requires Root in nodes && Closed(nodes)
    requires k < |Split(path, '.')| && IsBlank(Split(path, '.')[k])
    ensures FindPath(nodes, path).Err?
  {
    WalkBlankFails(nodes, Roots(), Split(path, '.'), k);
  }

  /** Adding nodes and child links never changes where a path that
      resolved before leads. */
  lemma {:induction false} WalkExtends(a: map<NodeId, Node>, b: map<NodeId, Node>, la: map<string, NodeId>, lb: map<string, NodeId>, parts: seq<string>)
    requires Closed(a) && Closed(b) && la.Values <= a.Keys && lb.Values <= b.Keys
    requires Extends(a, b) && SubMap(la, lb)
    requires Walk(a, la, parts).Found?
    ensures Walk(b, lb, parts) == Walk(a, la, parts)
    decreases parts
  {
    var id := la[parts[0]];
    assert id in la.Values;
    if |parts| > 1 {
      WalkExtends(a, b, a[id].children, b[id].children, parts[1..]);
    }
  }

  /** Paths compose: when `parent` leads to a node with a child `name`,
      the dotted path `parent.name` leads to that child. */
  lemma ChildPath(nodes: map<NodeId, Node>, parent: string, name: string)
    requires Root in nodes && Closed(nodes) && FindPath(nodes, parent).Ok?
    requires IsValidName(name) && name in nodes[FindPath(nodes, parent).value].children
    ensures FindPath(nodes, parent + "." + name) == Ok(nodes[FindPath(nodes, parent).value].children[name])
  {
    var parts := Split(parent, '.');
    ValidNameIsSegment(name);
    SplitConcat(parent, name, '.');
    SplitNoSeparator(name, '.');
    assert Split(parent + "." + name, '.') == parts + [name];
    WalkSnoc(nodes, Roots(), parts, name);
    var b := FindPath(nodes, parent).value;
    assert nodes[b].children[name] in nodes[b].children.Values;
  }

  /** A segment that is not blank and not among the children reached,
      after segments that were all found, makes the lookup "not found"
      whatever follows it, even a blank segment. */
  lemma {:induction false} WalkMissingAbsent(nodes: map<NodeId, Node>, level: map<string, NodeId>, parts: seq<string>, k: nat)
    requires Closed(nodes) && level.Values <= nodes.Keys
    requires k < |parts| && !IsBlank(parts[k])
    requires k == 0 ==> parts[0] !in level
    requires k > 0 ==> Walk(nodes, level, parts[..k]).Found? && parts[k] !in nodes[Walk(nodes, level, parts[..k]).id].children
    ensures Walk(nodes, level, parts) == Absent
    decreases k
  {
    if k > 0 {
      assert parts[..k][0] == parts[0];
      var id := level[parts[0]];
      assert id in level.Values;
      assert parts[1..][k - 1] == parts[k];
      if k > 1 {
        assert parts[..k][1..] == parts[1..][..k - 1];
      }
      WalkMissingAbsent(nodes, nodes[id].children, parts[1..], k - 1);
    }
  }

  /** So a path whose first missing segment comes before a blank one
      reports "namespace not found", not "empty part". */
  lemma MissingSegmentNotFound(nodes: map<NodeId, Node>, path: string, k: nat)
    requires Root in nodes && Closed(nodes)
    requires k < |Split(path, '.')| && !IsBlank(Split(path, '.')[k])
    requires k == 0 ==> Split(path, '.')[0] != "$"
    requires k > 0 ==>
      var found := Walk(nodes, Roots(), Split(path, '.')[..k]);
      found.Found? && Split(path, '.')[k] !in nodes[found.id].children
    ensures FindPath(nodes, path) == Err(NotFound(path))
  {
    WalkMissingAbsent(nodes, Roots(), Split(path, '.'), k);
  }

  /** No aliasing: in a shaped tree two different part lists never reach
      the same node. */
  lemma {:induction false} WalkInjective(nodes: map<NodeId, Node>, ps: seq<string>, qs: seq<string>)
    requires Root in nodes && Closed(nodes) && Shaped(nodes)
    requires Walk(nodes, Roots(), ps).Found? && Walk(nodes, Roots(), qs) == Walk(nodes, Roots(), ps)
    ensures ps == qs
    decreases |ps| + |qs|
  {
    var n := Walk(nodes, Roots(), ps).id;
    if |ps| == 1 && |qs| == 1 {
    } else if |ps| == 1 {
      LastLink(nodes, qs);
    } else if |qs| == 1 {
      LastLink(nodes, ps);
    } else {
      LastLink(nodes, ps);
      LastLink(nodes, qs);
      var pi, qi := ps[..|ps| - 1], qs[..|qs| - 1];
      WalkInjective(nodes, pi, qi);
      assert ps == pi + [ps[|ps| - 1]] && qs == qi + [qs[|qs| - 1]];
    }
  }

  /** A lookup of more than one segment ends with a child link from the
      node the earlier segments reach; a lookup of one segment reaches the
      root. */
  lemma LastLink(nodes: map<NodeId, Node>, ps: seq<string>)
    requires Root in nodes && Closed(nodes)
    requires Walk(nodes, Roots(), ps).Found?
    ensures |ps| >= 1
    ensures |ps| == 1 ==> Walk(nodes, Roots(), ps).id == Root
    ensures |ps| > 1 ==>
      var b := Walk(nodes, Roots(), ps[..|ps| - 1]);
      b.Found? && Links(nodes, b.id, ps[|ps| - 1], Walk(nodes, Roots(), ps).id)
  {
    if |ps| > 1 {
      var q := ps[..|ps| - 1];
      assert ps == q + [ps[|ps| - 1]];
      WalkSnoc(nodes, Roots(), q, ps[|ps| - 1]);
    }
  }

  /** In a shaped tree every namespace has one path: two paths that find
      the same node are the same text. */
  lemma FindPathInjective(nodes: map<NodeId, Node>, p: string, q: string)
    requires Root in nodes && Closed(nodes) && Shaped(nodes)
    requires FindPath(nodes, p).Ok? && FindPath(nodes, q) == FindPath(nodes, p)
    ensures p == q
  {
    WalkInjective(nodes, Split(p, '.'), Split(q, '.'));
    JoinSplit(p, '.');
    JoinSplit(q, '.');
  }

  /** Where a path leads depends on the child links only: writing exports,
      sealing or any other change that keeps every node's children keeps
      every lookup. */
  lemma {:induction false} WalkSameShape(a: map<NodeId, Node>, b: map<NodeId, Node>, level: map<string, NodeId>, parts: seq<string>)
    requires Closed(a) && level.Values <= a.Keys
    requires a.Keys == b.Keys && forall id :: id in a ==> b[id].children == a[id].children
    ensures Closed(b) && Walk(b, level, parts) == Walk(a, level, parts)
    decreases parts
  {
    if parts != [] && !IsBlank(parts[0]) && parts[0] in level && |parts| > 1 {
      var id := level[parts[0]];
      assert id in level.Values;
      WalkSameShape(a, b, a[id].children, parts[1..]);
    }
  }

  lemma FindPathSameShape(a: map<NodeId, Node>, b: map<NodeId, Node>, path: string)
    requires Root in a && Closed(a)
    requires a.Keys == b.Keys && forall id :: id in a ==> b[id].children == a[id].children
    ensures Root in b && Closed(b) && FindPath(b, path) == FindPath(a, path)
  {
    WalkSameShape(a, b, Roots(), Split(path, '.'));
  }

  /** The outcome of `createNamespace`: the new tree and the node returned. */
  datatype Created = Created(nodes: map<NodeId, Node>, next: NodeId, result: Result<NodeId>)

  /** A new child `name` of `base`, with the fresh identity `next`, and
      nothing else changed. */
  function AddChild(nodes: map<NodeId, Node>, next: NodeId, base: NodeId, name: string, access: Option<string>): (c: Created)
    requires TreeOk(nodes, next) && base in nodes && name !in nodes[base].children
    ensures TreeOk(c.nodes, c.next) && Extends(nodes, c.nodes)
    ensures c.result == Ok(next) && next !in nodes && c.next == next + 1
    ensures c.nodes.Keys == nodes.Keys + {next} && c.nodes[next] == NewNode(access)
    ensures c.nodes[base] == nodes[base].(children := nodes[base].children[name := next])
    ensures forall id :: id in nodes && id != base ==> c.nodes[id] == nodes[id]
  {
    var b := nodes[base];
    var grown := nodes[next := NewNode(access)][base := b.(children := b.children[name := next])];
    assert Closed(grown) by {
      forall id | id in grown ensures grown[id].children.Values <= grown.Keys {
        if id != base && id != next {
          assert grown[id] == nodes[id];
        }
      }
    }
    assert Extends(nodes, grown) by {
      forall id | id in nodes ensures id in grown && SubMap(nodes[id].children, grown[id].children) {
        if id != base {
          assert grown[id] == nodes[id];
        }
      }
    }
    Created(grown, next + 1, Ok(next))
  }

  /** Adding a child under a valid name keeps the tree shaped. */
  lemma AddChildShaped(nodes: map<NodeId, Node>, next: NodeId, base: NodeId, name: string, access: Option<string>)
    requires TreeOk(nodes, next) && Shaped(nodes) && base in nodes && name !in nodes[base].children && IsValidName(name)
    ensures Shaped(AddChild(nodes, next, base, name, access).nodes)
  {
    var g := AddChild(nodes, next, base, name, access).nodes;
    forall b, s, c ensures Links(g, b, s, c) <==> Links(nodes, b, s, c) || (b == base && s == name && c == next) {
      if b != base && b in nodes {
        assert g[b] == nodes[b];
      }
    }
    forall c ensures HasParent(g, c) {
      if c == next {
        assert Links(g, base, name, next);
      } else if c in g && c != Root {
        assert HasParent(nodes, c);
        var b, s :| Links(nodes, b, s, c);
        assert Links(g, b, s, c);
      }
    }
    forall b ensures NamedLinks(g, b) {
      assert NamedLinks(nodes, b);
      if b != base && b in nodes {
        assert g[b] == nodes[b];
      }
    }
  }

  /** `createNamespace(base, name, joinNS, access)`: the name is checked
      first, then the base, then whether the child exists. An existing child
      is returned only when joining, it is not sealed, and a string `access`
      (if given) equals its own. A new child is added only under an
      unsealed base. */
  function CreateChild(nodes: map<NodeId, Node>, next: NodeId, base: Option<NodeId>, name: string, join: bool, access: Option<string>): (c: Created)
    requires TreeOk(nodes, next) && (base.Some? ==> base.value in nodes)
    ensures TreeOk(c.nodes, c.next) && Extends(nodes, c.nodes)
    ensures c.result.Err? ==> c.nodes == nodes && c.next == next
    ensures c.result.Ok? ==> c.result.value in c.nodes
    ensures !IsValidName(name) ==> c.result == Err(BadName)
    ensures IsValidName(name) && base.None? ==> c.result == Err(BaseNull)
    ensures c.result.Ok? ==> base.Some? && name in c.nodes[base.value].children && c.nodes[base.value].children[name] == c.result.value
    // an existing child
    ensures IsValidName(name) && base.Some? && name in nodes[base.value].children ==>
      var child := nodes[base.value].children[name];
      && c.nodes == nodes && c.next == next
      && (!join ==> c.result == Err(AlreadyExists))
      && (join && nodes[child].sealed ==> c.result == Err(JoinSealed))
      && (join && !nodes[child].sealed && access.Some? && access.value != AccessName(nodes[child].access) ==> c.result == Err(JoinAccess))
      && (c.result.Ok? <==> join && !nodes[child].sealed && (access.Some? ==> access.value == AccessName(nodes[child].access)))
    // a new child
    ensures base.Some? && name !in nodes[base.value].children && nodes[base.value].sealed ==>
      c.result.Err? && (IsValidName(name) ==> c.result == Err(CreateInSealed))
    ensures IsValidName(name) && base.Some? && name !in nodes[base.value].children && !nodes[base.value].sealed ==>
      var b := base.value;
      && c.result == Ok(next) && next !in nodes && c.next == next + 1
      && c.nodes.Keys == nodes.Keys + {next}
      && c.nodes[next] == NewNode(access)
      && c.nodes[b].exports == nodes[b].exports && c.nodes[b].sealed == nodes[b].sealed && c.nodes[b].access == nodes[b].access
      && c.nodes[b].children.Keys == nodes[b].children.Keys + {name}
      && SubMap(nodes[b].children, c.nodes[b].children)
      && (forall id :: id in nodes && id != b ==> c.nodes[id] == nodes[id])
  {
    if !IsValidName(name) then Created(nodes, next, Err(BadName))
    else if base.None? then Created(nodes, next, Err(BaseNull))
    else
      var b := nodes[base.value];
      if name in b.children then
        var child := b.children[name];
        assert child in b.children.Values;
        if !join then Created(nodes, next, Err(AlreadyExists))
        else if nodes[child].sealed then Created(nodes, next, Err(JoinSealed))
        else if access.Some? && access.value != AccessName(nodes[child].access) then Created(nodes, next, Err(JoinAccess))
        else Created(nodes, next, Ok(child))
      else if b.sealed then Created(nodes, next, Err(CreateInSealed))
      else AddChild(nodes, next, base.value, name, access)
  }

  /** Creating or joining keeps the tree shaped. */
  lemma CreateChildShaped(nodes: map<NodeId, Node>, next: NodeId, base: Option<NodeId>, name: string, join: bool, access: Option<string>)
    requires TreeOk(nodes, next) && Shaped(nodes) && (base.Some? ==> base.value in nodes)
    ensures Shaped(CreateChild(nodes, next, base, name, join, access).nodes)
  {
    if IsValidName(name) && base.Some? && name !in nodes[base.value].children && !nodes[base.value].sealed {
      AddChildShaped(nodes, next, base.value, name, access);
    }
  }

  /** After a successful creation or join, the child's dotted path leads to
      the node returned, and every path that resolved before still leads
      where it did. */
  lemma CreateThenFind(nodes: map<NodeId, Node>, next: NodeId, parent: string, name: string, join: bool, access: Option<string>)
    requires TreeOk(nodes, next) && FindPath(nodes, parent).Ok?
    requires CreateChild(nodes, next, Some(FindPath(nodes, parent).value), name, join, access).result.Ok?
    ensures var c := CreateChild(nodes, next, Some(FindPath(nodes, parent).value), name, join, access);
      && FindPath(c.nodes, parent + "." + name) == c.result
      && forall p :: FindPath(nodes, p).Ok? ==> FindPath(c.nodes, p) == FindPath(nodes, p)
  {
    var b := FindPath(nodes, parent).value;
    var c := CreateChild(nodes, next, Some(b), name, join, access);
    WalkExtends(nodes, c.nodes, Roots(), Roots(), Split(parent, '.'));
    ChildPath(c.nodes, parent, name);
    forall p | FindPath(nodes, p).Ok? ensures FindPath(c.nodes, p) == FindPath(nodes, p) {
      WalkExtends(nodes, c.nodes, Roots(), Roots(), Split(p, '.'));
    }
  }


  /** Joining is idempotent when `access` is absent or one of the three
      level names: a second identical join returns the same node and
      changes nothing. */
  lemma JoinIdempotent(nodes: map<NodeId, Node>, next: NodeId, base: NodeId, name: string, access: Option<string>)
    requires TreeOk(nodes, next) && base in nodes
    requires access.None? || access.value in {"public", "protected", "private"}
    requires CreateChild(nodes, next, Some(base), name, true, access).result.Ok?
    ensures var c := CreateChild(nodes, next, Some(base), name, true, access);
      CreateChild(c.nodes, c.next, Some(base), name, true, access) == c
  {
  }

  /** With an access string other than the three level names the first
      join creates a public node and the identical second join is refused. */
  lemma JoinUnknownAccessRefusedTwice(nodes: map<NodeId, Node>, next: NodeId, base: NodeId, name: string, access: string)
    requires TreeOk(nodes, next) && base in nodes && !nodes[base].sealed
    requires IsValidName(name) && name !in nodes[base].children
    requires access !in {"public", "protected", "private"}
    ensures var c := CreateChild(nodes, next, Some(base), name, true, Some(access));
      && c.result == Ok(next) && c.nodes[next].access == Public
      && CreateChild(c.nodes, c.next, Some(base), name, true, Some(access)).result == Err(JoinAccess)
  {
  }
}

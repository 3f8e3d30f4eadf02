/** The shape of the in-memory file tree (kernel/fs/vfs.c): nodes in a pool, linked by
    first-child, next-sibling and parent indices, and the map from paths to nodes they stand for. */
module VfsTree {
  import opened Wrappers
  import opened Paths

  const NULL: int := -1

  datatype Kind = Dir | File | Dev | Proc

  /** Where a node's bytes are: a position in a buffer. */
  datatype Data = NoData | Data(buffer: nat, at: nat)

  datatype Node = Node(
    name: string, kind: Kind, mode: nat, uid: nat, gid: nat,
    size: nat, created: nat, modified: nat, data: Data, borrowed: bool,
    parent: int, firstChild: int, nextSibling: int)

  type Nodes = seq<Node>

  /** For every node, its children in sibling order. */
  type Kids = seq<seq<nat>>

  // ---------------------------------------------------------------- the shape invariant

  function Head(list: seq<nat>): int {
    if list == [] then NULL else list[0]
  }

  /** What follows position `i`. */
  function After(list: seq<nat>, i: nat): int {
    if i + 1 < |list| then list[i + 1] else NULL
  }

  /** The sibling links spell out `list`. */
  predicate Chained(ns: Nodes, list: seq<nat>) {
    forall i :: 0 <= i < |list| ==> list[i] < |ns| && ns[list[i]].nextSibling == After(list, i)
  }

  /** `list` holds distinct names, all valid, of nodes younger than their parent `p`. */
  predicate Family(ns: Nodes, p: nat, list: seq<nat>) {
    && (forall i :: 0 <= i < |list| ==>
         p < list[i] < |ns| && ns[list[i]].parent == p && ValidName(ns[list[i]].name))
    && (forall i, j :: 0 <= i < j < |list| ==> ns[list[i]].name != ns[list[j]].name)
  }

  predicate FamilyAt(ns: Nodes, kids: Kids, p: nat)
    requires p < |ns| == |kids|
  {
    && ns[p].firstChild == Head(kids[p])
    && Family(ns, p, kids[p]) && Chained(ns, kids[p])
    && (kids[p] != [] ==> ns[p].kind == Dir)
  }

  predicate Tree(ns: Nodes, kids: Kids) {
    && 0 < |ns| == |kids| && ns[0].kind == Dir
    && forall p :: 0 <= p < |ns| ==> FamilyAt(ns, kids, p)
  }

  // ---------------------------------------------------------------- paths

  predicate InPool(ns: Nodes, list: seq<nat>) {
    forall i :: 0 <= i < |list| ==> list[i] < |ns|
  }

  /** find_child over the sibling list. */
  function Find(ns: Nodes, list: seq<nat>, name: string): (c: Option<nat>)
    requires InPool(ns, list)
    ensures c.Some? ==> c.value in list && ns[c.value].name == name
    ensures c.None? ==> forall i :: 0 <= i < |list| ==> ns[list[i]].name != name
  {
    if list == [] then None
    else if ns[list[0]].name == name then Some(list[0])
    else Find(ns, list[1..], name)
  }

  lemma FindIs(ns: Nodes, p: nat, list: seq<nat>, k: nat)
    requires Family(ns, p, list) && k < |list|
    ensures Find(ns, list, ns[list[k]].name) == Some(list[k])
  {
    hide Find;
    var d := Find(ns, list, ns[list[k]].name).value;
    var j :| 0 <= j < |list| && list[j] == d;
  }

  lemma {:induction false} FindNone(ns: Nodes, list: seq<nat>, name: string)
    requires InPool(ns, list) && forall i :: 0 <= i < |list| ==> ns[list[i]].name != name
    ensures Find(ns, list, name) == None
  {
    if list != [] {
      FindNone(ns, list[1..], name);
    }
  }

  /** The node that a path of names reaches from the root, if any. */
  function Resolve(ns: Nodes, kids: Kids, cs: Path): (v: Option<nat>)
    requires Tree(ns, kids)
    ensures v.Some? ==> v.value < |ns|
  {
    if cs == [] then Some(0)
    else match Resolve(ns, kids, cs[..|cs| - 1])
      case None => None
      case Some(p) =>
        assert FamilyAt(ns, kids, p);
        Find(ns, kids[p], cs[|cs| - 1])
  }

  lemma ResolveSnoc(ns: Nodes, kids: Kids, dir: Path, name: string)
    requires Tree(ns, kids)
    ensures Resolve(ns, kids, dir).Some? ==>
      var p := Resolve(ns, kids, dir).value;
      FamilyAt(ns, kids, p) && Resolve(ns, kids, dir + [name]) == Find(ns, kids[p], name)
    ensures Resolve(ns, kids, dir).None? ==> Resolve(ns, kids, dir + [name]) == None
  {
    assert (dir + [name])[..|dir|] == dir;
  }

  /** Parent links and names agree with the path that reaches a node. */
  lemma ResolveParent(ns: Nodes, kids: Kids, cs: Path)
    requires Tree(ns, kids) && cs != [] && Resolve(ns, kids, cs).Some?
    ensures var c := Resolve(ns, kids, cs).value;
      && 0 < c && ns[c].name == cs[|cs| - 1] && ValidName(ns[c].name)
      && Resolve(ns, kids, cs[..|cs| - 1]) == Some(ns[c].parent)
      && 0 <= ns[c].parent < c && ns[ns[c].parent].kind == Dir && c in kids[ns[c].parent]
  {
    var p := Resolve(ns, kids, cs[..|cs| - 1]).value;
    assert FamilyAt(ns, kids, p);
    var c := Resolve(ns, kids, cs).value;
    var i :| 0 <= i < |kids[p]| && kids[p][i] == c;
  }

  /** The paths that reach a node are closed under prefixes. */
  lemma {:induction false} ResolvePrefix(ns: Nodes, kids: Kids, cs: Path, k: nat)
    requires Tree(ns, kids) && Resolve(ns, kids, cs).Some? && k <= |cs|
    ensures Resolve(ns, kids, cs[..k]).Some?
  {
    if k == |cs| {
      assert cs[..k] == cs;
    } else {
      ResolvePrefix(ns, kids, cs[..|cs| - 1], k);
      assert cs[..|cs| - 1][..k] == cs[..k];
    }
  }

  /** No node is reached by two paths. */
  lemma {:induction false} ResolveInjective(ns: Nodes, kids: Kids, a: Path, b: Path)
    requires Tree(ns, kids)
    requires Resolve(ns, kids, a).Some? && Resolve(ns, kids, a) == Resolve(ns, kids, b)
    ensures a == b
  {
    assert Resolve(ns, kids, []) == Some(0);
    hide Resolve, Tree, FamilyAt, ValidName;
    if a != [] { ResolveParent(ns, kids, a); }
    if b != [] { ResolveParent(ns, kids, b); }
    if a != [] && b != [] {
      ResolveInjective(ns, kids, a[..|a| - 1], b[..|b| - 1]);
      assert a == a[..|a| - 1] + [a[|a| - 1]];
      assert b == b[..|b| - 1] + [b[|b| - 1]];
    }
  }

  lemma {:induction false} ResolveValid(ns: Nodes, kids: Kids, cs: Path)
    requires Tree(ns, kids) && Resolve(ns, kids, cs).Some?
    ensures forall i :: 0 <= i < |cs| ==> ValidName(cs[i])
  {
    if cs != [] {
      ResolveParent(ns, kids, cs);
      ResolveValid(ns, kids, cs[..|cs| - 1]);
    }
  }

  // ---------------------------------------------------------------- attach_child

  /** The pool after `node` was appended and put at the head of `p`'s children. */
  function Attached(ns: Nodes, p: nat, node: Node): Nodes
    requires p < |ns|
  {
    ns[p := ns[p].(firstChild := |ns|)] + [node.(parent := p, nextSibling := ns[p].firstChild)]
  }

  function AttachedKids(ns: Nodes, kids: Kids, p: nat): Kids
    requires p < |ns| == |kids|
  {
    kids[p := [|ns|] + kids[p]] + [[]]
  }

  /** A node's children keep their shape when none of their links, nor its own, changed. */
  lemma FamilyFrame(ns: Nodes, ns': Nodes, kids: Kids, kids': Kids, q: nat)
    requires q < |ns| == |kids| && |ns| <= |ns'| == |kids'| && FamilyAt(ns, kids, q)
    requires kids'[q] == kids[q] && ns'[q].kind == ns[q].kind && ns'[q].firstChild == ns[q].firstChild
    requires forall i :: 0 <= i < |kids[q]| ==>
      var c := kids[q][i];
      c < |ns| && ns'[c].name == ns[c].name && ns'[c].parent == ns[c].parent && ns'[c].nextSibling == ns[c].nextSibling
    ensures FamilyAt(ns', kids', q)
  {
  }

  lemma AttachNames(ns: Nodes, ns': Nodes, p: nat, list: seq<nat>, list': seq<nat>)
    requires Family(ns, p, list) && |ns'| == |ns| + 1
    requires forall i :: 0 <= i < |ns| ==> ns'[i].name == ns[i].name
    requires forall i :: 0 <= i < |list| ==> ns[list[i]].name != ns'[|ns|].name
    requires |list'| == |list| + 1 && list'[0] == |ns| && forall i :: 0 < i < |list'| ==> list'[i] == list[i - 1]
    ensures forall i, j :: 0 <= i < j < |list'| ==>
      list'[i] < |ns'| && list'[j] < |ns'| && ns'[list'[i]].name != ns'[list'[j]].name
  {
    hide ValidName;
    forall i, j | 0 <= i < j < |list'|
      ensures list'[i] < |ns'| && list'[j] < |ns'| && ns'[list'[i]].name != ns'[list'[j]].name {
      assert list'[j] == list[j - 1];
      if i > 0 {
        assert list'[i] == list[i - 1];
        NamesDiffer(ns, p, list, i - 1, j - 1);
      }
    }
  }

  lemma AttachFamily(ns: Nodes, kids: Kids, p: nat, node: Node)
    requires p < |ns| == |kids| && FamilyAt(ns, kids, p) && ns[p].kind == Dir
    requires ValidName(node.name) && Find(ns, kids[p], node.name) == None
    ensures FamilyAt(Attached(ns, p, node), AttachedKids(ns, kids, p), p)
  {
    hide Find, ValidName, Attached, AttachedKids;
    var ns', list := Attached(ns, p, node), kids[p];
    var list' := [|ns|] + list;
    AttachParent(ns, kids, p, node);
    AttachNames(ns, ns', p, list, list');
    forall i | 0 <= i < |list'|
      ensures p < list'[i] < |ns'| && ns'[list'[i]].parent == p && ValidName(ns'[list'[i]].name)
      ensures ns'[list'[i]].nextSibling == After(list', i)
    {
      AttachMember(ns, ns', p, node, list, list', i);
    }
  }

  lemma AttachParent(ns: Nodes, kids: Kids, p: nat, node: Node)
    requires p < |ns| == |kids| && ns[p].kind == Dir
    ensures var ns' := Attached(ns, p, node);
      && |ns'| == |ns| + 1 && AttachedKids(ns, kids, p)[p] == [|ns|] + kids[p]
      && (forall i :: 0 <= i < |ns| && i != p ==> ns'[i] == ns[i])
      && ns'[p].firstChild == |ns| && ns'[p].kind == Dir && ns'[p].name == ns[p].name
      && ns'[|ns|] == node.(parent := p, nextSibling := ns[p].firstChild)
  {
  }

  lemma AttachMember(ns: Nodes, ns': Nodes, p: nat, node: Node, list: seq<nat>, list': seq<nat>, i: nat)
    requires p < |ns| && |ns'| == |ns| + 1 && Family(ns, p, list) && Chained(ns, list) && ns[p].firstChild == Head(list)
    requires (forall j :: 0 <= j < |ns| && j != p ==> ns'[j] == ns[j]) && ValidName(node.name)
    requires ns'[|ns|] == node.(parent := p, nextSibling := ns[p].firstChild)
    requires list' == [|ns|] + list && i < |list'|
    ensures p < list'[i] < |ns'| && ns'[list'[i]].parent == p && ValidName(ns'[list'[i]].name)
    ensures ns'[list'[i]].nextSibling == After(list', i)
  {
    hide ValidName;
    if i > 0 {
      assert list'[i] == list[i - 1];
    }
  }

  lemma AttachTree(ns: Nodes, kids: Kids, p: nat, node: Node)
    requires Tree(ns, kids) && p < |ns| && ns[p].kind == Dir
    requires node.firstChild == NULL && ValidName(node.name)
    requires FamilyAt(ns, kids, p) && Find(ns, kids[p], node.name) == None
    ensures Tree(Attached(ns, p, node), AttachedKids(ns, kids, p))
  {
    hide Find, ValidName, FamilyAt;
    var ns', kids' := Attached(ns, p, node), AttachedKids(ns, kids, p);
    forall q | 0 <= q < |ns'| ensures FamilyAt(ns', kids', q) {
      if q == p {
        AttachFamily(ns, kids, p, node);
      } else if q < |ns| {
        AttachOther(ns, kids, p, node, q);
      } else {
        LeafFamily(ns', kids', q);
      }
    }
  }

  lemma AttachOther(ns: Nodes, kids: Kids, p: nat, node: Node, q: nat)
    requires p < |ns| == |kids| && ns[p].kind == Dir && q < |ns| && q != p && FamilyAt(ns, kids, q)
    ensures FamilyAt(Attached(ns, p, node), AttachedKids(ns, kids, p), q)
  {
    hide ValidName;
    FamilyFrame(ns, Attached(ns, p, node), kids, AttachedKids(ns, kids, p), q);
  }

  lemma LeafFamily(ns: Nodes, kids: Kids, q: nat)
    requires q < |ns| == |kids| && kids[q] == [] && ns[q].firstChild == NULL
    ensures FamilyAt(ns, kids, q)
  {
  }

  /** mkdir and create: exactly one path is added, every other path reaches the same node as before. */
  lemma {:induction false} AttachResolve(ns: Nodes, kids: Kids, p: nat, node: Node, dir: Path, cs: Path)
    requires Tree(ns, kids) && Resolve(ns, kids, dir) == Some(p)
    requires Tree(Attached(ns, p, node), AttachedKids(ns, kids, p))
    requires Resolve(ns, kids, dir + [node.name]) == None
    ensures Resolve(Attached(ns, p, node), AttachedKids(ns, kids, p), cs) ==
      if cs == dir + [node.name] then Some(|ns|) else Resolve(ns, kids, cs)
  {
    var ns', kids' := Attached(ns, p, node), AttachedKids(ns, kids, p);
    if cs != [] {
      var init, last := cs[..|cs| - 1], cs[|cs| - 1];
      assert cs == init + [last];
      AttachResolve(ns, kids, p, node, dir, init);
      if init == dir + [node.name] {
        assert Resolve(ns, kids, cs) == None;
        assert kids'[|ns|] == [];
        assert |cs| != |dir + [node.name]|;
      } else if Resolve(ns, kids, init).Some? {
        var v := Resolve(ns, kids, init).value;
        assert FamilyAt(ns, kids, v) && FamilyAt(ns', kids', v);
        FindSame(ns, ns', kids[v], last);
        if v == p {
          ResolveInjective(ns, kids, init, dir);
          assert kids'[p][1..] == kids[p];
        } else {
          assert init != dir;
          assert cs == dir + [node.name] ==> init == dir;
        }
      } else {
        assert cs == dir + [node.name] ==> init == dir;
      }
    }
  }

  lemma {:induction false} FindSame(ns: Nodes, ns': Nodes, list: seq<nat>, name: string)
    requires InPool(ns, list) && InPool(ns', list)
    requires forall i :: 0 <= i < |list| ==> ns[list[i]].name == ns'[list[i]].name
    ensures Find(ns, list, name) == Find(ns', list, name)
  {
    if list != [] {
      FindSame(ns, ns', list[1..], name);
    }
  }

  // ---------------------------------------------------------------- unlinking

  function Drop(list: seq<nat>, k: nat): seq<nat>
    requires k < |list|
  {
    list[..k] + list[k + 1..]
  }

  /** The position in the old list of the i-th entry that remains. */
  function Skip(i: nat, k: nat): nat {
    if i < k then i else i + 1
  }

  lemma DropAt(list: seq<nat>, k: nat)
    requires k < |list|
    ensures var d := Drop(list, k);
      && |d| == |list| - 1
      && (forall i :: 0 <= i < |d| ==> d[i] == list[Skip(i, k)])
      && (forall i :: 0 <= i < |d| ==> After(d, i) == if i + 1 == k then After(list, k) else After(list, Skip(i, k)))
      && Head(d) == if k == 0 then After(list, 0) else Head(list)
  {
  }

  /** The pool after the k-th child of `p` was bypassed. */
  function Bypassed(ns: Nodes, kids: Kids, p: nat, k: nat): (r: Nodes)
    requires p < |ns| == |kids| && k < |kids[p]| && FamilyAt(ns, kids, p)
    ensures |r| == |ns|
  {
    var after := ns[kids[p][k]].nextSibling;
    if k == 0 then ns[p := ns[p].(firstChild := after)]
    else ns[kids[p][k - 1] := ns[kids[p][k - 1]].(nextSibling := after)]
  }

  lemma BypassedIs(ns: Nodes, kids: Kids, p: nat, k: nat, link: nat, prev: int)
    requires p < |ns| == |kids| && k < |kids[p]| && FamilyAt(ns, kids, p)
    requires link == kids[p][k] && prev == (if k == 0 then NULL else kids[p][k - 1])
    ensures link < |ns| && prev < |ns|
    ensures prev == NULL <==> k == 0
    ensures prev == NULL ==> Bypassed(ns, kids, p, k) == ns[p := ns[p].(firstChild := ns[link].nextSibling)]
    ensures prev != NULL ==> 0 <= prev && Bypassed(ns, kids, p, k) == ns[prev := ns[prev].(nextSibling := ns[link].nextSibling)]
  {
  }

  function BypassedKids(kids: Kids, p: nat, k: nat): (r: Kids)
    requires p < |kids| && k < |kids[p]|
    ensures |r| == |kids|
  {
    kids[p := Drop(kids[p], k)]
  }

  /** Two children of one node are different nodes. */
  lemma SiblingsDiffer(ns: Nodes, p: nat, list: seq<nat>, i: nat, j: nat)
    requires Family(ns, p, list) && i < |list| && j < |list| && i != j
    ensures list[i] != list[j]
  {
    NamesDiffer(ns, p, list, i, j);
  }

  lemma BypassMember(ns: Nodes, kids: Kids, p: nat, k: nat, i: nat)
    requires p < |ns| == |kids| && k < |kids[p]| && FamilyAt(ns, kids, p)
    requires i < |Drop(kids[p], k)|
    ensures var d, ns' := Drop(kids[p], k), Bypassed(ns, kids, p, k);
      && p < d[i] < |ns'| && ns'[d[i]].parent == p && ValidName(ns'[d[i]].name)
      && ns'[d[i]].nextSibling == After(d, i)
  {
    hide Drop;
    DropAt(kids[p], k);
    var list, i' := kids[p], Skip(i, k);
    assert list[i'] == Drop(list, k)[i];
    if k > 0 && i' != k - 1 { SiblingsDiffer(ns, p, list, k - 1, i'); }
  }

  lemma DropNames(ns: Nodes, ns': Nodes, p: nat, list: seq<nat>, d: seq<nat>, k: nat)
    requires Family(ns, p, list) && k < |list| && |ns'| == |ns|
    requires forall i :: 0 <= i < |ns| ==> ns'[i].name == ns[i].name
    requires d == Drop(list, k)
    ensures forall i, j :: 0 <= i < j < |d| ==> d[i] < |ns| && d[j] < |ns| && ns'[d[i]].name != ns'[d[j]].name
  {
    DropAt(list, k);
    hide Drop, Skip, After, ValidName;
    forall i, j | 0 <= i < j < |d| ensures d[i] < |ns| && d[j] < |ns| && ns'[d[i]].name != ns'[d[j]].name {
      SkipIncreases(i, j, k);
    }
  }

  lemma BypassFamily(ns: Nodes, kids: Kids, p: nat, k: nat)
    requires p < |ns| == |kids| && k < |kids[p]| && FamilyAt(ns, kids, p)
    ensures FamilyAt(Bypassed(ns, kids, p, k), BypassedKids(kids, p, k), p)
  {
    hide Drop, Bypassed, Skip, After, ValidName, BypassedKids, FamilyAt;
    var list, ns', d := kids[p], Bypassed(ns, kids, p, k), Drop(kids[p], k);
    BypassParent(ns, kids, p, k);
    FamilyParts(ns, kids, p);
    forall i | 0 <= i < |d|
      ensures p < d[i] < |ns'| && ns'[d[i]].parent == p && ValidName(ns'[d[i]].name)
      ensures ns'[d[i]].nextSibling == After(d, i)
    {
      BypassMember(ns, kids, p, k, i);
    }
    DropNames(ns, ns', p, list, d, k);
    FamilyMade(ns', BypassedKids(kids, p, k), p);
  }

  lemma FamilyMade(ns: Nodes, kids: Kids, p: nat)
    requires p < |ns| == |kids| && ns[p].firstChild == Head(kids[p]) && (kids[p] != [] ==> ns[p].kind == Dir)
    requires forall i :: 0 <= i < |kids[p]| ==>
      && p < kids[p][i] < |ns| && ns[kids[p][i]].parent == p && ValidName(ns[kids[p][i]].name)
      && ns[kids[p][i]].nextSibling == After(kids[p], i)
    requires forall i, j :: 0 <= i < j < |kids[p]| ==> ns[kids[p][i]].name != ns[kids[p][j]].name
    ensures FamilyAt(ns, kids, p)
  {
    hide ValidName, After, Head;
  }

  lemma BypassParent(ns: Nodes, kids: Kids, p: nat, k: nat)
    requires p < |ns| == |kids| && k < |kids[p]| && FamilyAt(ns, kids, p)
    ensures var ns', d := Bypassed(ns, kids, p, k), Drop(kids[p], k);
      && |ns'| == |ns| && BypassedKids(kids, p, k)[p] == d && |BypassedKids(kids, p, k)| == |kids|
      && ns'[p].firstChild == Head(d) && (d != [] ==> ns'[p].kind == Dir)
      && forall i :: 0 <= i < |ns| ==> ns'[i].name == ns[i].name
  {
    hide Drop, ValidName;
    DropAt(kids[p], k);
  }

  lemma SkipIncreases(i: nat, j: nat, k: nat)
    requires i < j
    ensures Skip(i, k) < Skip(j, k) <= j + 1 && Skip(i, k) != k
  {
  }

  lemma BypassTree(ns: Nodes, kids: Kids, p: nat, k: nat)
    requires Tree(ns, kids) && p < |ns| && k < |kids[p]| && FamilyAt(ns, kids, p)
    ensures Tree(Bypassed(ns, kids, p, k), BypassedKids(kids, p, k))
  {
    var ns', kids' := Bypassed(ns, kids, p, k), BypassedKids(kids, p, k);
    assert FamilyAt(ns, kids, p);
    forall q | 0 <= q < |ns'| ensures FamilyAt(ns', kids', q) {
      if q == p {
        BypassFamily(ns, kids, p, k);
      } else {
        assert FamilyAt(ns, kids, q);
        FamilyFrame(ns, ns', kids, kids', q);
      }
    }
  }

  lemma BypassFind(ns: Nodes, kids: Kids, p: nat, k: nat, v: nat, name: string)
    requires p < |ns| == |kids| && k < |kids[p]| && FamilyAt(ns, kids, p)
    requires v < |ns| && FamilyAt(ns, kids, v) && FamilyAt(Bypassed(ns, kids, p, k), BypassedKids(kids, p, k), v)
    ensures Find(Bypassed(ns, kids, p, k), BypassedKids(kids, p, k)[v], name) ==
      if v == p && name == ns[kids[p][k]].name then None else Find(ns, kids[v], name)
  {
    var ns' := Bypassed(ns, kids, p, k);
    assert forall i :: 0 <= i < |ns| ==> ns'[i].name == ns[i].name;
    hide Find, Bypassed, Drop, After;
    if v == p {
      FindDrop(ns, ns', p, kids[p], k, name);
    } else {
      FindSame(ns, ns', kids[v], name);
    }
  }

  /** unlink of a childless node: exactly its path disappears, every other path is unaffected. */
  lemma {:induction false} BypassResolve(ns: Nodes, kids: Kids, p: nat, k: nat, dir: Path, cs: Path)
    requires Tree(ns, kids) && Resolve(ns, kids, dir) == Some(p) && k < |kids[p]| && FamilyAt(ns, kids, p)
    requires Tree(Bypassed(ns, kids, p, k), BypassedKids(kids, p, k))
    requires kids[p][k] < |ns| && kids[kids[p][k]] == []
    ensures Resolve(Bypassed(ns, kids, p, k), BypassedKids(kids, p, k), cs) ==
      if cs == dir + [ns[kids[p][k]].name] then None else Resolve(ns, kids, cs)
  {
    hide Bypassed, FamilyAt;
    var ns', kids' := Bypassed(ns, kids, p, k), BypassedKids(kids, p, k);
    var c := kids[p][k];
    if cs != [] {
      var init, last := cs[..|cs| - 1], cs[|cs| - 1];
      assert cs == init + [last];
      BypassResolve(ns, kids, p, k, dir, init);
      if Resolve(ns, kids, init).Some? {
        var v := Resolve(ns, kids, init).value;
        assert FamilyAt(ns, kids, v) && FamilyAt(ns', kids', v);
        BypassFind(ns, kids, p, k, v, last);
        if v == p { ResolveInjective(ns, kids, init, dir); }
        if init == dir + [ns[c].name] {
          ResolveSnoc(ns, kids, dir, ns[c].name);
          assert Family(ns, p, kids[p]) by { FamilyParts(ns, kids, p); }
          FindIs(ns, p, kids[p], k);
        }
      }
      assert init == dir + [ns[c].name] ==> |cs| != |dir + [ns[c].name]|;
      assert cs == dir + [ns[c].name] ==> init == dir;
    }
  }

  lemma FamilyParts(ns: Nodes, kids: Kids, p: nat)
    requires p < |ns| == |kids| && FamilyAt(ns, kids, p)
    ensures Family(ns, p, kids[p]) && Chained(ns, kids[p]) && InPool(ns, kids[p])
  {
  }

  lemma FindDrop(ns: Nodes, ns': Nodes, p: nat, list: seq<nat>, k: nat, name: string)
    requires Family(ns, p, list) && k < |list| && Family(ns', p, Drop(list, k)) && |ns| == |ns'|
    requires forall i :: 0 <= i < |list| ==> ns[list[i]].name == ns'[list[i]].name
    ensures Find(ns', Drop(list, k), name) == if name == ns[list[k]].name then None else Find(ns, list, name)
  {
    hide Find, ValidName, Drop;
    if Find(ns', Drop(list, k), name).Some? {
      FoundInRest(ns, ns', p, list, k, name);
    }
    if Find(ns, list, name).Some? && name != ns[list[k]].name {
      FoundInAll(ns, ns', p, list, k, name);
    }
  }

  lemma FoundInRest(ns: Nodes, ns': Nodes, p: nat, list: seq<nat>, k: nat, name: string)
    requires Family(ns, p, list) && k < |list| && Family(ns', p, Drop(list, k)) && |ns| == |ns'|
    requires forall i :: 0 <= i < |list| ==> ns[list[i]].name == ns'[list[i]].name
    requires Find(ns', Drop(list, k), name).Some?
    ensures name != ns[list[k]].name && Find(ns, list, name) == Find(ns', Drop(list, k), name)
  {
    hide Drop, Find, After, ValidName;
    DropAt(list, k);
    var d := Drop(list, k);
    var i :| 0 <= i < |d| && d[i] == Find(ns', d, name).value;
    assert d[i] == list[Skip(i, k)];
    FindIs(ns, p, list, Skip(i, k));
    NamesDiffer(ns, p, list, Skip(i, k), k);
  }

  lemma FoundInAll(ns: Nodes, ns': Nodes, p: nat, list: seq<nat>, k: nat, name: string)
    requires Family(ns, p, list) && k < |list| && Family(ns', p, Drop(list, k)) && |ns| == |ns'|
    requires forall i :: 0 <= i < |list| ==> ns[list[i]].name == ns'[list[i]].name
    requires Find(ns, list, name).Some? && name != ns[list[k]].name
    ensures Find(ns', Drop(list, k), name).Some?
  {
    hide Drop, Find, After, ValidName;
    DropAt(list, k);
    var d := Drop(list, k);
    var i :| 0 <= i < |list| && list[i] == Find(ns, list, name).value;
    var i' := if i < k then i else i - 1;
    assert d[i'] == list[Skip(i', k)];
    FindIs(ns', p, d, i');
  }

  lemma NamesDiffer(ns: Nodes, p: nat, list: seq<nat>, i: nat, j: nat)
    requires Family(ns, p, list) && i < |list| && j < |list| && i != j
    ensures ns[list[i]].name != ns[list[j]].name
  {
    assert i < j ==> ns[list[i]].name != ns[list[j]].name;
    assert j < i ==> ns[list[j]].name != ns[list[i]].name;
  }
}

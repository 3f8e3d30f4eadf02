/** The operations of kernel/fs/vfs.c on the node pool, in place. */
module VfsFiles {
  import opened Basics
  import opened Bytes
  import opened Wrappers
  import opened Paths
  import opened VfsTree
  import opened Vfs
  import opened VfsData

  class FileSystem {
    /** The nodes handed out so far; a node is named by its index and is never handed out again. */
    var nodes: Nodes
    var clock: nat
    var store: map<nat, seq<byte>>
    var nextBuffer: nat
    ghost var kids: Kids
    ghost var images: set<nat>

    ghost predicate Valid()
      reads this
    {
      && |nodes| <= MAX_NODES
      && Tree(nodes, kids)
      && StoreOk(nodes, store, images, nextBuffer)
    }

    ghost function View(): Fs
      requires Valid()
      reads this
    {
      ViewOf(nodes, kids, store, clock)
    }

    /** vfs_init: the root and its ten directories. */
    constructor ()
      ensures Valid() && View() == InitSpec(|INIT_DIRS|)
      ensures images == {}
    {
      nodes := [Node("", Dir, DIRECTORY_755, 0, 0, 0, 1, 1, NoData, false, NULL, NULL, NULL)];
      clock, store, nextBuffer := 1, map[], 0;
      kids, images := [[]], {};
      new;
      RootTree(nodes);
      RootView(nodes, store);
      hide Tree, ViewOf, StoreOk, MakeSpec, Canonical;
      for i := 0 to |INIT_DIRS|
        invariant Valid() && View() == InitSpec(i) && images == {}
      {
        var rc := Mkdir(INIT_DIRS[i].0, "/", INIT_DIRS[i].1, 0, 0);
      }
    }

    /** The node a list of names reaches. */
    ghost function At(cs: Path): Option<nat>
      requires Valid()
      reads this
    {
      Resolve(nodes, kids, cs)
    }

    /** find_child: walk the sibling links. */
    method FindChild(parent: nat, name: string) returns (n: int)
      requires Valid() && parent < |nodes|
      ensures FamilyAt(nodes, kids, parent)
      ensures n == match Find(nodes, kids[parent], name) { case Some(c) => c as int case None => NULL }
    {
      ghost var ns, list := nodes, kids[parent];
      assert FamilyAt(ns, kids, parent);
      n := nodes[parent].firstChild;
      ghost var i := 0;
      assert list[0..] == list;
      while n != NULL && nodes[n].name != name
        invariant 0 <= i <= |list|
        invariant if i < |list| then n == list[i] && n < |nodes| else n == NULL
        invariant Find(ns, list, name) == Find(ns, list[i..], name)
        decreases |list| - i
      {
        assert ns[list[i]].nextSibling == After(list, i);
        assert list[i..][1..] == list[i + 1..];
        n := nodes[n].nextSibling;
        i := i + 1;
      }
    }

    /** vfs_lookup. */
    method Lookup(path: string, cwd: string) returns (v: int)
      requires Valid()
      ensures v == match Canonical(path, cwd, PATH_MAX) {
        case None => NULL
        case Some(cs) => match At(cs) { case None => NULL case Some(i) => i as int }
      }
      ensures NULL <= v < |nodes|
    {
      var normal := Normalize(path, cwd, PATH_MAX);
      if normal.None? {
        return NULL;
      }
      CanonicalValid(path, cwd, PATH_MAX);
      v := Walk(normal.value, Canonical(path, cwd, PATH_MAX).value);
    }

    /** The walk of vfs_lookup over a canonical spelling. */
    method Walk(normal: string, ghost cs: Path) returns (v: int)
      requires Valid() && ValidPath(cs) && normal == Render(cs)
      ensures v == match At(cs) { case None => NULL case Some(i) => i as int }
      ensures NULL <= v < |nodes|
    {
      hide Tree, StoreOk, FamilyAt, ValidName, ValidPath, Render, Rest, NameEnd, Clip;
      ghost var ns := nodes;
      RenderRoot(cs);
      if normal == "/" {
        return 0;
      }
      var p: nat := 1;
      v := 0;
      ghost var k := 0;
      while p < |normal| && v != NULL
        invariant k <= |cs| && p <= |normal| && normal[p..] == Rest(cs, k)
        invariant p < |normal| <==> k < |cs|
        invariant p < |normal| ==> normal[p] != '/'
        invariant v == match Resolve(ns, kids, cs[..k]) { case None => NULL case Some(i) => i as int }
        decreases |cs| - k
      {
        RestStep(cs, k, normal, p);
        var comp, q := ScanComponent(normal, p);
        p := q;
        while p < |normal| && normal[p] == '/'
          invariant q <= p <= |normal| && (p == q || (p == q + 1 && q < |normal| && normal[q] == '/' ))
          decreases |normal| - p
        {
          p := p + 1;
        }
        ResolveSnoc(ns, kids, cs[..k], cs[k]);
        assert cs[..k + 1] == cs[..k] + [cs[k]];
        v := FindChild(v, comp);
        k := k + 1;
      }
      if v == NULL {
        if Resolve(ns, kids, cs).Some? { ResolvePrefix(ns, kids, cs, k); }
      } else {
        assert cs[..k] == cs;
      }
    }

    /** parent_and_name: the parent directory's node and the last component. */
    method ParentAndName(path: string, cwd: string) returns (ok: bool, parent: nat, name: string)
      requires Valid()
      ensures ok <==> ParentOk(View(), Canonical(path, cwd, PATH_MAX))
      ensures ok ==>
        var cs := Canonical(path, cwd, PATH_MAX).value;
        && cs != [] && ValidPath(cs)
        && At(Init(cs)) == Some(parent) && parent < |nodes| && nodes[parent].kind == Dir && name == cs[|cs| - 1]
    {
      ok, parent, name := false, 0, "";
      var normal := Normalize(path, cwd, PATH_MAX);
      if normal.None? {
        return;
      }
      ghost var cs := Canonical(path, cwd, PATH_MAX).value;
      CanonicalValid(path, cwd, PATH_MAX);
      RenderRoot(cs);
      if normal.value == "/" {
        return;
      }
      hide Tree, StoreOk, FamilyAt, ValidName, Resolve, Canonical, ViewOf, Render, LookOf, InfoOf, BytesOf;
      var slash;
      slash, name := CutLast(normal.value, cs);
      var node: int := 0;
      if slash != 0 {
        node := Lookup(normal.value[..slash], "/");
      }
      ResolveRoot(nodes, kids);
      LookAtNode(nodes, kids, store, clock, Init(cs));
      if node == NULL || nodes[node].kind != Dir {
        return;
      }
      ok, parent := true, node;
    }

    /** alloc_node and attach_child. */
    method Attach(parent: nat, name: string, kind: Kind, mode: nat, uid: nat, gid: nat, ghost cs: Path)
      requires Valid() && |nodes| < MAX_NODES
      requires cs != [] && cs[|cs| - 1] == name && ValidName(name)
      requires At(Init(cs)) == Some(parent) && nodes[parent].kind == Dir && At(cs) == None
      requires MakeCode(View(), Some(cs)) == 0
      modifies this`nodes, this`clock, this`kids
      ensures Valid()
      ensures View() == MakeSpec(old(View()), Some(cs), kind, mode, uid, gid)
    {
      hide Tree, StoreOk, FamilyAt, ValidName, Resolve, ViewOf, Find, InfoOf, MakeSpec, MakeCode;
      var child, now := |nodes|, clock + 1;
      var node := Node(name, kind, mode, uid, gid, 0, now, now, NoData, false, NULL, NULL, NULL);
      var after := nodes + [node.(parent := parent, nextSibling := nodes[parent].firstChild)];
      after := after[parent := after[parent].(firstChild := child)];
      assert after == Attached(nodes, parent, node);
      AttachValid(node, after, parent, cs);
      Commit(after, AttachedKids(nodes, kids, parent), MakeSpec(View(), Some(cs), kind, mode, uid, gid));
    }

    lemma AttachValid(node: Node, after: Nodes, parent: nat, cs: Path)
      requires Valid() && |nodes| < MAX_NODES
      requires cs != [] && cs[|cs| - 1] == node.name && ValidName(node.name)
      requires At(Init(cs)) == Some(parent) && nodes[parent].kind == Dir && At(cs) == None
      requires MakeCode(View(), Some(cs)) == 0
      requires node.firstChild == NULL && node.size == 0 && node.data == NoData && node.created == node.modified == clock + 1
      requires after == Attached(nodes, parent, node)
      ensures |nodes| == |kids| && Tree(after, AttachedKids(nodes, kids, parent))
      ensures StoreOk(after, store, images, nextBuffer) && |after| <= MAX_NODES
      ensures ViewOf(after, AttachedKids(nodes, kids, parent), store, clock + 1) ==
        MakeSpec(View(), Some(cs), node.kind, node.mode, node.uid, node.gid)
    {
      assert |nodes| == |kids| && |after| == |nodes| + 1;
      AttachWritten(nodes, kids, store, images, nextBuffer, parent, node, cs);
      AttachWrittenView(nodes, kids, store, clock, parent, node, cs);
    }

    /** The checks that vfs_mkdir and vfs_create_file begin with. */
    method FindSlot(path: string, cwd: string) returns (rc: int, parent: nat, name: string)
      requires Valid()
      ensures rc == SlotCode(View(), Canonical(path, cwd, PATH_MAX))
      ensures rc == 0 ==>
        var cs := Canonical(path, cwd, PATH_MAX).value;
        && cs != [] && cs[|cs| - 1] == name && ValidName(name)
        && At(Init(cs)) == Some(parent) && nodes[parent].kind == Dir && At(cs) == None
    {
      hide Tree, StoreOk, FamilyAt, Resolve, Canonical, ViewOf, LookOf, InfoOf, BytesOf, ValidName, Find;
      var ok;
      ok, parent, name := ParentAndName(path, cwd);
      if !ok {
        return -1, parent, name;
      }
      ghost var cs := Canonical(path, cwd, PATH_MAX).value;
      InitLast(cs);
      assert ValidName(name) by { assert ValidName(cs[|cs| - 1]); }
      LookAtNode(nodes, kids, store, clock, cs);
      ResolveSnoc(nodes, kids, Init(cs), name);
      var sibling := FindChild(parent, name);
      rc := if sibling != NULL then -2 else 0;
    }

    /** vfs_mkdir (a Dir) and vfs_create_file (a File), which differ only in the node type. */
    method MakeNode(path: string, cwd: string, kind: Kind, mode: nat, uid: nat, gid: nat) returns (rc: int)
      requires Valid()
      modifies this`nodes, this`clock, this`kids
      ensures Valid()
      ensures View() == MakeSpec(old(View()), Canonical(path, cwd, PATH_MAX), kind, mode, uid, gid)
      ensures rc == MakeCode(old(View()), Canonical(path, cwd, PATH_MAX))
    {
      ViewParts(nodes, kids, store, clock);
      ghost var cs := Canonical(path, cwd, PATH_MAX);
      MakeCases(View(), cs, kind, mode, uid, gid);
      assert View().count == |nodes|;
      hide *;
      var parent, name;
      rc, parent, name := FindSlot(path, cwd);
      if rc < 0 {
        return;
      }
      if |nodes| >= MAX_NODES {
        return -3;
      }
      Attach(parent, name, kind, mode, uid, gid, cs.value);
    }

    method Mkdir(path: string, cwd: string, mode: nat, uid: nat, gid: nat) returns (rc: int)
      requires Valid()
      modifies this`nodes, this`clock, this`kids
      ensures Valid()
      ensures rc == MakeCode(old(View()), Canonical(path, cwd, PATH_MAX))
      ensures View() == MakeSpec(old(View()), Canonical(path, cwd, PATH_MAX), Dir, mode, uid, gid)
    {
      rc := MakeNode(path, cwd, Dir, mode, uid, gid);
    }

    method CreateFile(path: string, cwd: string, mode: nat, uid: nat, gid: nat) returns (rc: int)
      requires Valid()
      modifies this`nodes, this`clock, this`kids
      ensures Valid()
      ensures rc == MakeCode(old(View()), Canonical(path, cwd, PATH_MAX))
      ensures View() == MakeSpec(old(View()), Canonical(path, cwd, PATH_MAX), File, mode, uid, gid)
    {
      rc := MakeNode(path, cwd, File, mode, uid, gid);
    }

    /** vfs_unlink. */
    method Unlink(path: string, cwd: string) returns (rc: int)
      requires Valid()
      modifies this`nodes, this`clock, this`kids
      ensures Valid()
      ensures rc == UnlinkCode(old(View()), Canonical(path, cwd, PATH_MAX))
      ensures View() == UnlinkSpec(old(View()), Canonical(path, cwd, PATH_MAX))
    {
      ghost var cs := Canonical(path, cwd, PATH_MAX);
      assert |kids| == |nodes|;
      hide *;
      UnlinkCases(View(), cs);
      var ok, parent, name := ParentAndName(path, cwd);
      if !ok {
        return -1;
      }
      var found, prev, link, k := FindLink(parent, name);
      AtChild(cs.value, parent);
      if !found {
        return -1;
      }
      AtLeaf(cs.value, link);
      if nodes[link].firstChild != NULL {
        return -2;
      }
      RemoveLink(parent, prev, link, k, cs.value);
      return 0;
    }

    lemma AtChild(cs: Path, parent: nat)
      requires Valid() && cs != [] && At(Init(cs)) == Some(parent)
      ensures FamilyAt(nodes, kids, parent) && At(cs) == Find(nodes, kids[parent], cs[|cs| - 1])
      ensures cs in View().look <==> At(cs).Some?
    {
      InitLast(cs);
      ResolveSnoc(nodes, kids, Init(cs), cs[|cs| - 1]);
      LookAtNode(nodes, kids, store, clock, cs);
    }

    lemma AtLeaf(cs: Path, v: nat)
      requires Valid() && At(cs) == Some(v)
      ensures HasChild(View(), cs) <==> nodes[v].firstChild != NULL
      ensures HasChild(View(), cs) <==> kids[v] != []
    {
      ChildlessView(nodes, kids, store, clock, cs);
    }

    /** The pointer updates of vfs_unlink. */
    method RemoveLink(parent: nat, prev: int, link: nat, ghost k: nat, ghost cs: Path)
      requires Valid() && cs != [] && At(Init(cs)) == Some(parent) && FamilyAt(nodes, kids, parent)
      requires k < |kids[parent]| && link == kids[parent][k] && link < |nodes| && nodes[link].name == cs[|cs| - 1]
      requires prev == (if k == 0 then NULL else kids[parent][k - 1]) && kids[link] == []
      requires UnlinkCode(View(), Some(cs)) == 0
      modifies this`nodes, this`clock, this`kids
      ensures Valid()
      ensures View() == UnlinkSpec(old(View()), Some(cs))
    {
      var ns := nodes;
      assert |kids| == |ns|;
      hide Bypassed, BypassedKids, Tree, StoreOk, Resolve, ViewOf, UnlinkSpec, UnlinkCode, FamilyAt;
      BypassedIs(ns, kids, parent, k, link, prev);
      var b := if prev == NULL then ns[parent := ns[parent].(firstChild := ns[link].nextSibling)]
               else ns[prev := ns[prev].(nextSibling := ns[link].nextSibling)];
      var after := b[parent := b[parent].(modified := clock + 1)];
      ghost var kids' := BypassedKids(kids, parent, k);
      RemoveLinkValid(b, after, kids', parent, k, cs);
      Commit(after, kids', UnlinkSpec(View(), Some(cs)));
    }

    /** Take a changed pool at the next clock tick. */
    method Commit(after: Nodes, ghost kids': Kids, ghost spec: Fs)
      requires Tree(after, kids') && StoreOk(after, store, images, nextBuffer) && |after| <= MAX_NODES
      requires ViewOf(after, kids', store, clock + 1) == spec
      modifies this`nodes, this`clock, this`kids
      ensures Valid() && View() == spec
      ensures nodes == after && kids == kids' && clock == old(clock) + 1
    {
      hide Tree, StoreOk, ViewOf;
      nodes, clock, kids := after, clock + 1, kids';
    }

    lemma RemoveLinkValid(b: Nodes, after: Nodes, kids': Kids, parent: nat, k: nat, cs: Path)
      requires Valid() && cs != [] && At(Init(cs)) == Some(parent) && FamilyAt(nodes, kids, parent)
      requires k < |kids[parent]| && kids[parent][k] < |nodes| && nodes[kids[parent][k]].name == cs[|cs| - 1]
      requires kids[kids[parent][k]] == []
      requires UnlinkCode(View(), Some(cs)) == 0
      requires b == Bypassed(nodes, kids, parent, k) && kids' == BypassedKids(kids, parent, k)
      requires after == b[parent := b[parent].(modified := clock + 1)]
      ensures Tree(after, kids') && StoreOk(after, store, images, nextBuffer) && |after| <= MAX_NODES
      ensures ViewOf(after, kids', store, clock + 1) == UnlinkSpec(View(), Some(cs))
    {
      UnlinkWritten(nodes, b, after, kids, kids', store, images, nextBuffer, clock, parent, k, cs);
    }

    /** The link walk of vfs_unlink: the child with that name and the sibling before it. */
    method FindLink(parent: nat, name: string) returns (found: bool, prev: int, link: nat, ghost k: nat)
      requires Valid() && parent < |nodes|
      ensures FamilyAt(nodes, kids, parent)
      ensures found ==>
        && k < |kids[parent]| && link == kids[parent][k] && link < |nodes| && nodes[link].name == name
        && prev == (if k == 0 then NULL else kids[parent][k - 1])
        && Find(nodes, kids[parent], name) == Some(link)
      ensures !found ==> Find(nodes, kids[parent], name) == None
    {
      ghost var list := kids[parent];
      assert FamilyAt(nodes, kids, parent);
      hide Tree, StoreOk, Find, ValidName;
      prev, k, link := NULL, 0, 0;
      var n := nodes[parent].firstChild;
      while n != NULL && nodes[n].name != name
        invariant 0 <= k <= |list|
        invariant if k < |list| then n == list[k] && n < |nodes| else n == NULL
        invariant prev == (if k == 0 then NULL else list[k - 1])
        invariant forall i :: 0 <= i < k ==> nodes[list[i]].name != name
        decreases |list| - k
      {
        assert nodes[list[k]].nextSibling == After(list, k);
        prev := n;
        n := nodes[n].nextSibling;
        k := k + 1;
      }
      found := n != NULL;
      if found {
        link := n;
        FindIs(nodes, parent, list, k);
      } else {
        FindNone(nodes, list, name);
      }
    }

    // ---------------------------------------------------------------- contents

    /** The bytes of node `v`, reachable or not. */
    ghost function Content(v: nat): seq<byte>
      requires v < |nodes|
      reads this
    {
      BytesOf(nodes[v], store)
    }

    /** vfs_read_node; None stands for -1. */
    method ReadNode(v: nat, offset: nat, count: nat) returns (r: Option<seq<byte>>)
      requires Valid() && v < |nodes|
      ensures r == if nodes[v].kind == Dir then None else Some(Slice(Content(v), offset, count))
      // as many bytes as are asked for and left, each from its place behind the offset
      ensures r.Some? <==> nodes[v].kind != Dir
      ensures r.Some? ==> |r.value| == if offset >= |Content(v)| then 0 else if count > |Content(v)| - offset then |Content(v)| - offset else count
      ensures r.Some? ==> forall k :: 0 <= k < |r.value| ==> offset + k < |Content(v)| && r.value[k] == Content(v)[offset + k]
    {
      hide Tree;
      SliceAt(Content(v), offset, count);
      var n := nodes[v];
      assert DataOk(n, store, images);
      if n.kind == Dir {
        return None;
      }
      if offset >= n.size {
        return Some([]);
      }
      var available := n.size - offset;
      var take := if count > available then available else count;
      var at := n.data.at + offset;
      ReadSlice(n, store, images, offset, take);
      return Some(store[n.data.buffer][at..at + take]);
    }

    /** vfs_write_node. `memory` says whether kmalloc finds room when it is called. The sum of
        offset and length stays below the 64-bit limit. */
    method WriteNode(v: nat, offset: nat, buf: seq<byte>, memory: bool) returns (rc: int)
      requires Valid() && v < |nodes| && offset + |buf| < TWO_64 - 1
      modifies this`nodes, this`clock, this`store, this`nextBuffer
      ensures Valid()
      ensures rc == -1 || rc == |buf|
      ensures rc == -1 <==>
        old(nodes[v].kind) != File || ((offset + |buf| > old(nodes[v].size) || old(nodes[v].borrowed)) && !memory)
      ensures rc == -1 ==> nodes == old(nodes) && clock == old(clock) && store == old(store)
      ensures rc != -1 ==>
        && clock == old(clock) + 1 && |nodes| == |old(nodes)|
        && nodes[v] == old(nodes[v]).(modified := clock, data := nodes[v].data, size := nodes[v].size, borrowed := false)
        && Content(v) == Splice(old(Content(v)), offset, buf)
      // everything else is as it was, boot images included
      ensures forall i :: 0 <= i < |old(nodes)| && i != v ==> nodes[i] == old(nodes[i]) && Content(i) == old(Content(i))
      ensures forall b :: b in images ==> b in old(store) && store[b] == old(store)[b]
      ensures forall q :: At(q) == old(At(q))
    {
      hide Tree, Resolve;
      var n := nodes[v];
      ghost var was := Content(v);
      assert DataOk(n, store, images);
      if n.kind != File {
        return -1;
      }
      var end := offset + |buf|;
      if end > n.size || n.borrowed {
        if !memory {
          return -1;
        }
        Relocate(v, NewSize(n, end));
      }
      Patch(v, offset, buf);
      SpliceExtends(was, offset, buf);
      rc := |buf|;
    }

    /** A write and a read at the same place: the buffer comes back whenever the write succeeds. */
    method WriteThenRead(v: nat, offset: nat, buf: seq<byte>, memory: bool) returns (rc: int, back: seq<byte>)
      requires Valid() && v < |nodes| && offset + |buf| < TWO_64 - 1
      modifies this`nodes, this`clock, this`store, this`nextBuffer
      ensures Valid()
      ensures rc != -1 ==> back == buf
    {
      hide Splice, Slice;
      back := [];
      ghost var was := Content(v);
      rc := WriteNode(v, offset, buf, memory);
      if rc != -1 {
        var r := ReadNode(v, offset, |buf|);
        ReadAfterWrite(was, offset, buf);
        back := r.value;
      }
    }

    /** The reallocation of vfs_write_node: a fresh owned buffer, old bytes first, then zeros. */
    method Relocate(v: nat, size: nat)
      requires Valid() && v < |nodes| && nodes[v].size <= size
      modifies this`nodes, this`store, this`nextBuffer
      ensures Valid()
      ensures nodes == old(nodes)[v := Grown(old(nodes[v]), old(nextBuffer), size)]
      ensures Content(v) == Extend(old(Content(v)), size)
      ensures forall i :: 0 <= i < |nodes| && i != v ==> Content(i) == old(Content(i))
      ensures forall b :: b in images ==> b in old(store) && store[b] == old(store)[b]
      ensures forall q :: At(q) == old(At(q))
    {
      hide Tree, Resolve, SameLinks;
      ghost var ns := nodes;
      var n := nodes[v];
      assert DataOk(n, store, images);
      GrownBytes(n, store, images, nextBuffer, size);
      var bytes := if n.data.Data? && n.size > 0 then store[n.data.buffer][n.data.at..n.data.at + n.size] else [];
      assert bytes == BytesOf(n, store);
      var content := bytes + Zeros(size - n.size) + [0];
      assert content == Extend(bytes, size) + [0];
      GrowStore(nodes, v, Grown(n, nextBuffer, size), store, images, nextBuffer, content);
      store := store[nextBuffer := content];
      nodes := nodes[v := Grown(n, nextBuffer, size)];
      nextBuffer := nextBuffer + 1;
      GrownLinks(ns, v, n, nextBuffer - 1, size);
      SameLinksTree(ns, nodes, kids);
      SameLinksPaths(ns, nodes, kids);
    }

    /** The final copy of vfs_write_node, into a buffer that is known to be large enough and owned. */
    method Patch(v: nat, offset: nat, buf: seq<byte>)
      requires Valid() && v < |nodes| && !nodes[v].borrowed && offset + |buf| <= nodes[v].size
      modifies this`nodes, this`store, this`clock
      ensures Valid()
      ensures clock == old(clock) + 1
      ensures nodes == old(nodes)[v := old(nodes[v]).(modified := clock)]
      ensures Content(v) == Splice(old(Content(v)), offset, buf)
      ensures forall i :: 0 <= i < |nodes| && i != v ==> Content(i) == old(Content(i))
      ensures forall b :: b in images ==> b in old(store) && store[b] == old(store)[b]
      ensures forall q :: At(q) == old(At(q))
    {
      hide Tree, Resolve, SameLinks, StoreOk;
      ghost var ns := nodes;
      DataOkAt(nodes, v, store, images, nextBuffer);
      if nodes[v].data.Data? {
        PatchStore(nodes, v, store, images, nextBuffer, offset, buf);
        var b := nodes[v].data.buffer;
        store := store[b := store[b][..offset] + buf + store[b][offset + |buf|..]];
      }
      clock := clock + 1;
      nodes := nodes[v := nodes[v].(modified := clock)];
      StampedLinks(ns, v, clock);
      SameLinksTree(ns, nodes, kids);
      SameLinksPaths(ns, nodes, kids);
      StoreFrame(ns, nodes, store, images, nextBuffer);
    }

    /** vfs_write_file: replace the whole contents, creating the file if need be. A path that was
        created stays even when no buffer can be had for it. */
    method WriteFile(path: string, cwd: string, data: seq<byte>, memory: bool) returns (rc: int)
      requires Valid()
      modifies this`nodes, this`clock, this`kids, this`store, this`nextBuffer
      ensures Valid()
      ensures rc == WriteCode(old(View()), Canonical(path, cwd, PATH_MAX), data, memory)
      ensures View() == WriteSpec(old(View()), Canonical(path, cwd, PATH_MAX), data, memory)
      ensures forall b :: b in images ==> b in old(store) && store[b] == old(store)[b]
    {
      ghost var cs := Canonical(path, cwd, PATH_MAX);
      ghost var fs := View();
      WriteCases(fs, cs, data, memory);
      assert |kids| == |nodes|;
      hide *;
      var v := Lookup(path, cwd);
      LookupIs(cs);
      if v == NULL {
        rc := CreateFile(path, cwd, REGULAR_644, 0, 0);
        if rc < 0 {
          return;
        }
        v := Lookup(path, cwd);
        LookupIs(cs);
      }
      if nodes[v].kind != File && nodes[v].kind != Proc {
        return -1;
      }
      if |data| != 0 && !memory {
        return -2;
      }
      Replace(v, data, cs.value);
      rc := 0;
    }

    lemma LookupIs(cs: Option<Path>)
      requires Valid()
      ensures cs.Some? ==>
        && (cs.value in View().look <==> At(cs.value).Some?)
        && (At(cs.value).Some? ==> At(cs.value).value < |nodes| && View().look[cs.value].kind == nodes[At(cs.value).value].kind)
    {
      if cs.Some? { LookAtNode(nodes, kids, store, clock, cs.value); }
    }

    /** A node that a path reaches is what the path map says. */
    lemma NodeIs(v: nat, cs: Path)
      requires Valid() && At(cs) == Some(v)
      ensures v < |nodes| && cs in View().look && |Content(v)| <= nodes[v].size
      ensures var n := nodes[v]; View().look[cs] == Info(n.kind, n.mode, n.uid, n.gid, n.created, n.modified, Content(v))
    {
      hide Tree, StoreOk, Resolve;
      LookAtNode(nodes, kids, store, clock, cs);
    }

    /** The end of vfs_write_file: new data for node `v`, which `cs` names. */
    method Replace(v: nat, data: seq<byte>, ghost cs: Path)
      requires Valid() && At(cs) == Some(v)
      modifies this`nodes, this`clock, this`store, this`nextBuffer
      ensures Valid()
      ensures cs in old(View()).look && View() == Replaced(old(View()), cs, data)
      ensures forall b :: b in images ==> b in old(store) && store[b] == old(store)[b]
    {
      var n := Refilled(nodes[v], data, nextBuffer, clock + 1);
      hide Tree, StoreOk, Resolve, ViewOf, Refill, Refilled;
      ReplaceValid(v, n, data, cs);
      CommitData(nodes[v := n], Refill(store, data, nextBuffer), if data == [] then nextBuffer else nextBuffer + 1,
        Replaced(View(), cs, data));
    }

    lemma ReplaceValid(v: nat, n: Node, data: seq<byte>, cs: Path)
      requires Valid() && At(cs) == Some(v) && n == Refilled(nodes[v], data, nextBuffer, clock + 1)
      ensures var store' := Refill(store, data, nextBuffer);
        && Tree(nodes[v := n], kids)
        && StoreOk(nodes[v := n], store', images, if data == [] then nextBuffer else nextBuffer + 1)
        && cs in View().look
        && ViewOf(nodes[v := n], kids, store', clock + 1) == Replaced(View(), cs, data)
        && forall b :: b in images ==> b in store && b in store' && store'[b] == store[b]
    {
      hide Tree, StoreOk, Resolve, ViewOf, Refill, Refilled, BytesOf, Rewritten, Replaced;
      RefillStore(nodes, v, store, images, nextBuffer, data, clock + 1);
      ReplacedView(nodes, n, kids, store, Refill(store, data, nextBuffer), clock, v, cs, data);
    }

    lemma ViewIs()
      requires Valid()
      ensures View() == ViewOf(nodes, kids, store, clock) && Tree(nodes, kids) && |nodes| <= MAX_NODES
      ensures StoreOk(nodes, store, images, nextBuffer)
      ensures forall q :: At(q) == Resolve(nodes, kids, q)
    {
    }

    /** Take changed nodes without a clock tick, as the mount loop does. */
    method CommitNodes(after: Nodes, ghost spec: Fs)
      requires Tree(after, kids) && StoreOk(after, store, images, nextBuffer) && |after| <= MAX_NODES
      requires ViewOf(after, kids, store, clock) == spec
      modifies this`nodes
      ensures Valid() && View() == spec && nodes == after
    {
      hide Tree, StoreOk, ViewOf;
      nodes := after;
    }

    /** A boot module's bytes become a buffer that nodes may only borrow. */
    method AddImage(image: seq<byte>) returns (id: nat)
      requires Valid()
      modifies this`store, this`nextBuffer, this`images
      ensures Valid() && View() == old(View())
      ensures id in images && id in store && store[id] == image
    {
      ImageStore(nodes, store, images, nextBuffer, image);
      ImageView(nodes, kids, store, store[nextBuffer := image], clock);
      hide Tree, StoreOk, ViewOf;
      id := nextBuffer;
      store, images, nextBuffer := store[id := image], images + {id}, id + 1;
    }

    /** Take changed nodes and buffers at the next clock tick. */
    method CommitData(after: Nodes, store': map<nat, seq<byte>>, next: nat, ghost spec: Fs)
      requires Tree(after, kids) && StoreOk(after, store', images, next) && |after| <= MAX_NODES
      requires ViewOf(after, kids, store', clock + 1) == spec
      modifies this`nodes, this`clock, this`store, this`nextBuffer
      ensures Valid() && View() == spec
      ensures nodes == after && store == store' && clock == old(clock) + 1
    {
      hide Tree, StoreOk, ViewOf;
      nodes, clock, store, nextBuffer := after, clock + 1, store', next;
    }
  }
}

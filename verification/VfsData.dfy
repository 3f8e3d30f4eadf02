/** File contents in kernel/fs/vfs.c: owned buffers written in place, boot-image bytes only borrowed. */
module VfsData {
  import opened Bytes
  import opened Wrappers
  import opened Paths
  import opened VfsTree
  import opened Vfs

  /** `s` zero-extended to at least `n` bytes. */
  function Extend(s: seq<byte>, n: nat): seq<byte> {
    if |s| < n then s + Zeros(n - |s|) else s
  }

  /** What a write of `buf` at `offset` makes of the contents `s`. */
  function Splice(s: seq<byte>, offset: nat, buf: seq<byte>): (r: seq<byte>)
  {
    var e := Extend(s, offset + |buf|);
    e[..offset] + buf + e[offset + |buf|..]
  }

  /** Byte by byte: the buffer where it was written, the old byte elsewhere, zero in a gap. */
  lemma SpliceAt(s: seq<byte>, offset: nat, buf: seq<byte>, k: nat)
    requires k < |Splice(s, offset, buf)|
    ensures |Splice(s, offset, buf)| == if offset + |buf| > |s| then offset + |buf| else |s|
    ensures Splice(s, offset, buf)[k] ==
      if offset <= k < offset + |buf| then buf[k - offset] else if k < |s| then s[k] else 0
  {
  }

  /** Extending first and splicing then is the same. */
  lemma SpliceExtends(s: seq<byte>, offset: nat, buf: seq<byte>)
    ensures forall n: nat :: |s| <= n && n <= offset + |buf| ==> Splice(Extend(s, n), offset, buf) == Splice(s, offset, buf)
  {
  }

  /** vfs_read_node: the slice that exists. */
  function Slice(s: seq<byte>, offset: nat, count: nat): seq<byte> {
    if offset >= |s| then [] else if count > |s| - offset then s[offset..] else s[offset..offset + count]
  }

  /** Byte by byte: what is left behind the offset, and no more of it than is asked for. */
  lemma SliceAt(s: seq<byte>, offset: nat, count: nat)
    ensures var r := Slice(s, offset, count);
      && |r| == (if offset >= |s| then 0 else if count > |s| - offset then |s| - offset else count)
      && forall k :: 0 <= k < |r| ==> offset + k < |s| && r[k] == s[offset + k]
  {
  }

  /** A read where a write was gives back what was written. */
  lemma ReadAfterWrite(s: seq<byte>, offset: nat, buf: seq<byte>)
    ensures Slice(Splice(s, offset, buf), offset, |buf|) == buf
  {
  }

  /** Two reads in a row give what one read of both lengths gives. */
  lemma ReadInTwo(s: seq<byte>, offset: nat, a: nat, b: nat)
    ensures Slice(s, offset, a) + Slice(s, offset + a, b) == Slice(s, offset, a + b)
  {
  }

  lemma ReadSlice(n: Node, store: map<nat, seq<byte>>, images: set<nat>, offset: nat, take: nat)
    requires DataOk(n, store, images) && offset + take <= n.size && offset < n.size
    ensures n.data.Data? && n.data.buffer in store && n.data.at + offset + take <= |store[n.data.buffer]|
    ensures store[n.data.buffer][n.data.at + offset..n.data.at + offset + take] == BytesOf(n, store)[offset..offset + take]
    ensures |BytesOf(n, store)| == n.size
  {
    var s, at := store[n.data.buffer], n.data.at;
    assert BytesOf(n, store) == s[at..at + n.size];
    Nested(s, at, s[at..at + n.size], offset, offset + take, s[at..at + n.size][offset..offset + take]);
  }

  /** The node after vfs_write_node moved it to the fresh buffer `id`. */
  function Grown(n: Node, id: nat, size: nat): Node {
    n.(data := Data(id, 0), size := size, borrowed := false)
  }

  lemma StampedLinks(ns: Nodes, v: nat, now: nat)
    requires v < |ns|
    ensures SameLinks(ns, ns[v := ns[v].(modified := now)])
  {
  }

  lemma DataOkAt(ns: Nodes, v: nat, store: map<nat, seq<byte>>, images: set<nat>, next: nat)
    requires StoreOk(ns, store, images, next) && v < |ns|
    ensures DataOk(ns[v], store, images)
  {
  }

  lemma GrownLinks(ns: Nodes, v: nat, n: Node, id: nat, size: nat)
    requires v < |ns| && ns[v] == n
    ensures SameLinks(ns, ns[v := Grown(n, id, size)])
  {
  }

  function NewSize(n: Node, end: nat): nat {
    if end > n.size then end else n.size
  }

  lemma GrownBytes(n: Node, store: map<nat, seq<byte>>, images: set<nat>, id: nat, end: nat)
    requires DataOk(n, store, images) && id !in store
    ensures var size := NewSize(n, end); var store' := store[id := Extend(BytesOf(n, store), size) + [0]];
      && |Extend(BytesOf(n, store), size)| == size
      && BytesOf(Grown(n, id, size), store') == Extend(BytesOf(n, store), size)
      && DataOk(Grown(n, id, size), store', images - {id})
  {
    assert |BytesOf(n, store)| == n.size;
  }

  /** A fresh buffer for node `v` disturbs nobody. */
  lemma GrowStore(ns: Nodes, v: nat, n': Node, store: map<nat, seq<byte>>, images: set<nat>, id: nat, content: seq<byte>)
    requires StoreOk(ns, store, images, id) && v < |ns|
    requires n'.data == Data(id, 0) && !n'.borrowed && n'.size < |content|
    ensures StoreOk(ns[v := n'], store[id := content], images, id + 1)
    ensures forall i :: 0 <= i < |ns| && i != v ==> BytesOf(ns[i], store[id := content]) == BytesOf(ns[i], store)
  {
    var ns', store' := ns[v := n'], store[id := content];
    assert id !in store;
    forall i | 0 <= i < |ns'| ensures DataOk(ns'[i], store', images) {
      if i != v { assert DataOk(ns[i], store, images); }
    }
    forall i, j | 0 <= i < |ns'| && 0 <= j < |ns'| && ns'[i].data.Data? && Owns(ns'[j], ns'[i].data.buffer) ensures i == j {
      if i != v { assert DataOk(ns[i], store, images); }
      if j != v { assert DataOk(ns[j], store, images); }
      if i != v && j != v { assert Owns(ns[j], ns[i].data.buffer); }
    }
    forall i | 0 <= i < |ns| && i != v ensures BytesOf(ns[i], store') == BytesOf(ns[i], store) {
      assert DataOk(ns[i], store, images);
    }
  }

  /** Writing inside node `v`'s own buffer changes nobody else's bytes and no boot image. */
  lemma PatchStore(ns: Nodes, v: nat, store: map<nat, seq<byte>>, images: set<nat>, next: nat, offset: nat, buf: seq<byte>)
    requires StoreOk(ns, store, images, next) && v < |ns|
    requires !ns[v].borrowed && ns[v].data.Data? && offset + |buf| <= ns[v].size
    ensures ns[v].data.buffer in store && offset + |buf| <= |store[ns[v].data.buffer]|
    ensures var b := ns[v].data.buffer;
      var store' := store[b := store[b][..offset] + buf + store[b][offset + |buf|..]];
      && StoreOk(ns, store', images, next)
      && b !in images
      && BytesOf(ns[v], store') == Splice(BytesOf(ns[v], store), offset, buf)
      && forall i :: 0 <= i < |ns| && i != v ==> BytesOf(ns[i], store') == BytesOf(ns[i], store)
  {
    assert DataOk(ns[v], store, images);
    var b := ns[v].data.buffer;
    var content := store[b][..offset] + buf + store[b][offset + |buf|..];
    var store' := store[b := content];
    assert Owns(ns[v], b);
    forall i | 0 <= i < |ns| ensures DataOk(ns[i], store', images) && (i != v ==> BytesOf(ns[i], store') == BytesOf(ns[i], store)) {
      assert DataOk(ns[i], store, images);
      if i != v && ns[i].data.Data? { assert ns[i].data.buffer != b; }
    }
    assert BytesOf(ns[v], store') == Splice(BytesOf(ns[v], store), offset, buf);
  }

  lemma SameLinksPaths(ns: Nodes, ns': Nodes, kids: Kids)
    requires Tree(ns, kids) && Tree(ns', kids) && SameLinks(ns, ns')
    ensures forall q :: Resolve(ns', kids, q) == Resolve(ns, kids, q)
  {
    hide Tree, Resolve, SameLinks;
    forall q ensures Resolve(ns', kids, q) == Resolve(ns, kids, q) {
      SameLinksResolve(ns, ns', kids, q);
    }
  }

  // ---------------------------------------------------------------- vfs_write_file

  /** VFS_S_IFREG | 0644 */
  const REGULAR_644: nat := 33188

  ghost function Replaced(fs: Fs, cs: Path, data: seq<byte>): Fs
    requires cs in fs.look
  {
    var now := fs.clock + 1;
    Fs(fs.look[cs := fs.look[cs].(bytes := data, modified := now)], fs.count, now)
  }

  /** The file system once the path exists, created if need be. */
  ghost function Opened(fs: Fs, cs: Option<Path>): Fs {
    if cs.Some? && cs.value in fs.look then fs else MakeSpec(fs, cs, File, REGULAR_644, 0, 0)
  }

  ghost function WriteCode(fs: Fs, cs: Option<Path>, data: seq<byte>, memory: bool): int {
    if !(cs.Some? && cs.value in fs.look) && MakeCode(fs, cs) < 0 then MakeCode(fs, cs)
    else if cs.Some? && cs.value in fs.look && !(fs.look[cs.value].kind in {File, Proc}) then -1
    else if data != [] && !memory then -2
    else 0
  }

  ghost function WriteSpec(fs: Fs, cs: Option<Path>, data: seq<byte>, memory: bool): Fs {
    var fs1 := Opened(fs, cs);
    if WriteCode(fs, cs, data, memory) == 0 && cs.Some? && cs.value in fs1.look then Replaced(fs1, cs.value, data) else fs1
  }

  lemma WriteCases(fs: Fs, cs: Option<Path>, data: seq<byte>, memory: bool)
    ensures var found := cs.Some? && cs.value in fs.look;
      var fs1 := MakeSpec(fs, cs, File, REGULAR_644, 0, 0);
      && (found ==> Opened(fs, cs) == fs)
      && (!found ==> Opened(fs, cs) == fs1)
      && (!found && MakeCode(fs, cs) < 0 ==> WriteCode(fs, cs, data, memory) == MakeCode(fs, cs) && WriteSpec(fs, cs, data, memory) == fs1)
      && (!found && MakeCode(fs, cs) >= 0 ==> cs.Some? && cs.value in fs1.look && fs1.look[cs.value].kind == File)
      && (found || MakeCode(fs, cs) >= 0 ==>
        && cs.Some? && cs.value in Opened(fs, cs).look
        && var kind := Opened(fs, cs).look[cs.value].kind;
        && WriteCode(fs, cs, data, memory) == (if kind != File && kind != Proc then -1 else if data != [] && !memory then -2 else 0)
        && WriteSpec(fs, cs, data, memory) ==
          if WriteCode(fs, cs, data, memory) == 0 then Replaced(Opened(fs, cs), cs.value, data) else Opened(fs, cs))
  {
  }

  lemma EmptyStore(ns: Nodes, v: nat, n': Node, store: map<nat, seq<byte>>, images: set<nat>, next: nat)
    requires StoreOk(ns, store, images, next) && v < |ns| && n'.data == NoData && n'.size == 0
    ensures StoreOk(ns[v := n'], store, images, next)
  {
    var ns' := ns[v := n'];
    forall i | 0 <= i < |ns'| ensures DataOk(ns'[i], store, images) {
      if i != v { assert DataOk(ns[i], store, images); }
    }
    forall i, j | 0 <= i < |ns'| && 0 <= j < |ns'| && ns'[i].data.Data? && Owns(ns'[j], ns'[i].data.buffer) ensures i == j {
      assert Owns(ns[j], ns[i].data.buffer);
    }
  }

  /** `n` is node `old` with other data and time. */
  predicate Rewritten(was: Node, n: Node, now: nat) {
    n == was.(data := n.data, size := n.size, borrowed := n.borrowed, modified := now)
  }

  lemma RewrittenLinks(ns: Nodes, v: nat, n: Node, now: nat)
    requires v < |ns| && Rewritten(ns[v], n, now)
    ensures SameLinks(ns, ns[v := n])
  {
  }

  lemma RewrittenInfo(was: Node, n: Node, now: nat, store: map<nat, seq<byte>>, store': map<nat, seq<byte>>)
    requires Rewritten(was, n, now)
    ensures InfoOf(n, store') == InfoOf(was, store).(bytes := BytesOf(n, store'), modified := now)
  {
  }

  lemma OtherInfo(ns: Nodes, v: nat, n: Node, store: map<nat, seq<byte>>, store': map<nat, seq<byte>>)
    requires v < |ns|
    requires forall i :: 0 <= i < |ns| && i != v ==> BytesOf(ns[i], store') == BytesOf(ns[i], store)
    ensures forall i :: 0 <= i < |ns| && i != v ==> InfoOf(ns[v := n][i], store') == InfoOf(ns[i], store)
  {
    hide BytesOf;
  }

  lemma ReplacedView(ns: Nodes, n: Node, kids: Kids, store: map<nat, seq<byte>>, store': map<nat, seq<byte>>,
      clock: nat, v: nat, cs: Path, data: seq<byte>)
    requires Tree(ns, kids) && Resolve(ns, kids, cs) == Some(v)
    requires Rewritten(ns[v], n, clock + 1)
    requires BytesOf(n, store') == data
    requires forall i :: 0 <= i < |ns| && i != v ==> BytesOf(ns[i], store') == BytesOf(ns[i], store)
    ensures Tree(ns[v := n], kids)
    ensures cs in ViewOf(ns, kids, store, clock).look
    ensures ViewOf(ns[v := n], kids, store', clock + 1) == Replaced(ViewOf(ns, kids, store, clock), cs, data)
  {
    var ns' := ns[v := n];
    hide Tree, Resolve, SameLinks, InfoOf, BytesOf, ViewOf, Rewritten, Replaced;
    RewrittenLinks(ns, v, n, clock + 1);
    SameLinksTree(ns, ns', kids);
    OtherInfo(ns, v, n, store, store');
    ChangeView(ns, ns', kids, store, store', clock, clock + 1, v, cs);
    RewrittenInfo(ns[v], n, clock + 1, store, store');
    ViewParts(ns, kids, store, clock);
    ReplacedIs(ViewOf(ns', kids, store', clock + 1), ViewOf(ns, kids, store, clock), cs, data, InfoOf(n, store'));
  }

  lemma ReplacedIs(after: Fs, fs: Fs, cs: Path, data: seq<byte>, info: Info)
    requires cs in fs.look && after == Fs(fs.look[cs := info], fs.count, fs.clock + 1)
    requires info == fs.look[cs].(bytes := data, modified := fs.clock + 1)
    ensures after == Replaced(fs, cs, data)
  {
  }

  /** The node that vfs_write_file leaves, and the store it needs. */
  function Refilled(was: Node, data: seq<byte>, id: nat, now: nat): Node {
    was.(data := if data == [] then NoData else Data(id, 0), size := |data|, borrowed := false, modified := now)
  }

  function Refill(store: map<nat, seq<byte>>, data: seq<byte>, id: nat): map<nat, seq<byte>> {
    if data == [] then store else store[id := data + [0]]
  }

  lemma RefillStore(ns: Nodes, v: nat, store: map<nat, seq<byte>>, images: set<nat>, id: nat, data: seq<byte>, now: nat)
    requires StoreOk(ns, store, images, id) && v < |ns|
    ensures var n := Refilled(ns[v], data, id, now); var store' := Refill(store, data, id);
      && Rewritten(ns[v], n, now) && BytesOf(n, store') == data
      && StoreOk(ns[v := n], store', images, if data == [] then id else id + 1)
      && (forall i :: 0 <= i < |ns| && i != v ==> BytesOf(ns[i], store') == BytesOf(ns[i], store))
      && (forall b :: b in images ==> b in store && b in store' && store'[b] == store[b])
  {
    var n := Refilled(ns[v], data, id, now);
    if data == [] {
      EmptyStore(ns, v, n, store, images, id);
    } else {
      GrowStore(ns, v, n, store, images, id, data + [0]);
    }
  }

  // ---------------------------------------------------------------- vfs_init

  /** VFS_S_IFDIR with permissions 0755, 0700 and 01777 */
  const DIRECTORY_755: nat := 16877
  const DIRECTORY_700: nat := 16832
  const DIRECTORY_1777: nat := 17407

  const INIT_DIRS: seq<(string, nat)> := [
    ("/bin", DIRECTORY_755), ("/sbin", DIRECTORY_755), ("/etc", DIRECTORY_755), ("/dev", DIRECTORY_755),
    ("/proc", DIRECTORY_755), ("/home", DIRECTORY_755), ("/root", DIRECTORY_700), ("/tmp", DIRECTORY_1777),
    ("/usr", DIRECTORY_755), ("/var", DIRECTORY_755)]

  /** The file system after the root and the first `k` directories. */
  ghost function InitSpec(k: nat): Fs
    requires k <= |INIT_DIRS|
  {
    if k == 0 then Fs(imap[[] := Info(Dir, DIRECTORY_755, 0, 0, 1, 1, [])], 1, 1)
    else MakeSpec(InitSpec(k - 1), Canonical(INIT_DIRS[k - 1].0, "/", PATH_MAX), Dir, INIT_DIRS[k - 1].1, 0, 0)
  }

  lemma RootTree(ns: Nodes)
    requires |ns| == 1 && ns[0].kind == Dir && ns[0].firstChild == NULL
    ensures Tree(ns, [[]])
  {
  }

  lemma RootView(ns: Nodes, store: map<nat, seq<byte>>)
    requires |ns| == 1 && ns[0].kind == Dir && ns[0].firstChild == NULL && Tree(ns, [[]])
    requires ns[0].size == 0
    ensures ViewOf(ns, [[]], store, 1) == Fs(imap[[] := InfoOf(ns[0], store)], 1, 1)
  {
    forall q ensures LookOf(ns, [[]], store, q) == if q == [] then Some(InfoOf(ns[0], store)) else None {
      RootOnly(ns, q);
    }
    assert LookOf(ns, [[]], store, []).Some?;
  }

  lemma {:induction false} RootOnly(ns: Nodes, q: Path)
    requires |ns| == 1 && Tree(ns, [[]])
    ensures Resolve(ns, [[]], q) == if q == [] then Some(0) else None
  {
    if q != [] {
      RootOnly(ns, q[..|q| - 1]);
    }
  }

  // ---------------------------------------------------------------- boot images

  lemma ImageStore(ns: Nodes, store: map<nat, seq<byte>>, images: set<nat>, id: nat, image: seq<byte>)
    requires StoreOk(ns, store, images, id)
    ensures StoreOk(ns, store[id := image], images + {id}, id + 1)
    ensures forall i :: 0 <= i < |ns| ==> BytesOf(ns[i], store[id := image]) == BytesOf(ns[i], store)
  {
    forall i | 0 <= i < |ns| ensures DataOk(ns[i], store[id := image], images + {id})
      && BytesOf(ns[i], store[id := image]) == BytesOf(ns[i], store) {
      assert DataOk(ns[i], store, images);
    }
  }

  lemma ImageView(ns: Nodes, kids: Kids, store: map<nat, seq<byte>>, store': map<nat, seq<byte>>, clock: nat)
    requires Tree(ns, kids)
    requires forall i :: 0 <= i < |ns| ==> BytesOf(ns[i], store') == BytesOf(ns[i], store)
    ensures ViewOf(ns, kids, store', clock) == ViewOf(ns, kids, store, clock)
  {
    forall q ensures LookOf(ns, kids, store', q) == LookOf(ns, kids, store, q) {
    }
  }
}

/** Mounting a boot image (tfs_mount_image in kernel/fs/tfs.c): the image stays in memory and the
    nodes borrow their bytes from it. */
module TfsMount {
  import opened Basics
  import opened Bytes
  import opened Wrappers
  import opened Paths
  import opened VfsTree
  import opened Vfs
  import opened VfsFiles
  import opened TfsImage

  /** VFS_S_IFDIR and VFS_S_IFREG */
  const DIRECTORY: nat := 16384
  const REGULAR: nat := 32768

  // ---------------------------------------------------------------- specification

  function Where(e: Entry): Option<Path> {
    Canonical(e.path, "/", PATH_MAX)
  }

  function Mode(kind: nat, mode: nat): nat {
    kind + mode % 4096
  }

  /** A file entry's fields and bytes over whatever node its path reaches. */
  ghost function Filled(fs: Fs, cs: Option<Path>, e: Entry, bytes: seq<byte>): Fs {
    if cs.Some? && cs.value in fs.look then
      var info := fs.look[cs.value];
      fs.(look := fs.look[cs.value := Info(info.kind, Mode(REGULAR, e.mode), e.uid, e.gid, info.created, e.mtime, bytes)])
    else fs
  }

  /** One round of the mount loop; None when the entry's bytes would lie outside the image. */
  ghost function MountEntry(fs: Fs, image: seq<byte>, e: Entry): Option<Fs> {
    if e.path == "" || e.path == "/" then Some(fs)
    else if e.kind == TYPE_DIR then Some(MakeSpec(fs, Where(e), Dir, Mode(DIRECTORY, e.mode), e.uid, e.gid))
    else if e.kind == TYPE_FILE then
      if e.offset + e.size > |image| then None
      else
        Some(Filled(MakeSpec(fs, Where(e), File, Mode(REGULAR, e.mode), e.uid, e.gid), Where(e), e,
          image[e.offset..e.offset + e.size]))
    else Some(fs)
  }

  predicate HeaderOk(image: seq<byte>) {
    && |image| >= HEADER_SIZE && image[0..8] == MAGIC && Le(image[8..12]) == VERSION
    && Le(image[16..24]) + Le(image[12..16]) * ENTRY_SIZE <= |image|
  }

  function Count(image: seq<byte>): nat
    requires HeaderOk(image)
  {
    Le(image[12..16])
  }

  function TableStart(image: seq<byte>): nat
    requires HeaderOk(image)
  {
    Le(image[16..24])
  }

  /** The file system after the first `k` entries. */
  ghost function MountRun(fs: Fs, image: seq<byte>, k: nat): Option<Fs>
    requires HeaderOk(image) && k <= Count(image)
  {
    if k == 0 then Some(fs)
    else match MountRun(fs, image, k - 1)
      case None => None
      case Some(fs1) => MountEntry(fs1, image, EntryAt(image, TableStart(image), k - 1))
  }

  /** What is mounted in the end: the run up to the first entry that fails. */
  ghost function MountedUpTo(fs: Fs, image: seq<byte>, k: nat): Fs
    requires HeaderOk(image) && k <= Count(image)
  {
    match MountRun(fs, image, k)
    case Some(after) => after
    case None => if k == 0 then fs else MountedUpTo(fs, image, k - 1)
  }

  /** No 64-bit sum of the image's own fields wraps around. */
  predicate SumsFit(image: seq<byte>) {
    && (|image| >= HEADER_SIZE ==> Le(image[16..24]) + Le(image[12..16]) * ENTRY_SIZE < TWO_64)
    && (HeaderOk(image) ==> forall i :: 0 <= i < Count(image) ==>
      EntryAt(image, TableStart(image), i).offset + EntryAt(image, TableStart(image), i).size < TWO_64)
  }

  // ---------------------------------------------------------------- borrowing

  /** The node after the mount loop filled it. */
  function Mounted(n: Node, e: Entry, id: nat): Node {
    n.(uid := e.uid, gid := e.gid, mode := Mode(REGULAR, e.mode), size := e.size, modified := e.mtime,
       data := if e.size == 0 then n.data else Data(id, e.offset), borrowed := e.size != 0 || n.borrowed)
  }

  lemma MountedStore(ns: Nodes, v: nat, e: Entry, store: map<nat, seq<byte>>, images: set<nat>, next: nat, id: nat)
    requires StoreOk(ns, store, images, next) && v < |ns|
    requires id in images && id in store && e.offset + e.size <= |store[id]|
    ensures StoreOk(ns[v := Mounted(ns[v], e, id)], store, images, next)
    ensures BytesOf(Mounted(ns[v], e, id), store) == store[id][e.offset..e.offset + e.size]
  {
    var ns' := ns[v := Mounted(ns[v], e, id)];
    assert DataOk(ns[v], store, images);
    forall i | 0 <= i < |ns'| ensures DataOk(ns'[i], store, images) {
      if i != v { assert DataOk(ns[i], store, images); }
    }
    forall i, j | 0 <= i < |ns'| && 0 <= j < |ns'| && ns'[i].data.Data? && Owns(ns'[j], ns'[i].data.buffer) ensures i == j {
      assert DataOk(ns'[j], store, images);
      assert Owns(ns[j], ns'[i].data.buffer);
    }
  }

  lemma MountedView(ns: Nodes, v: nat, e: Entry, kids: Kids, store: map<nat, seq<byte>>, clock: nat, id: nat, cs: Path, bytes: seq<byte>)
    requires Tree(ns, kids) && Resolve(ns, kids, cs) == Some(v)
    requires BytesOf(Mounted(ns[v], e, id), store) == bytes
    ensures Tree(ns[v := Mounted(ns[v], e, id)], kids)
    ensures ViewOf(ns[v := Mounted(ns[v], e, id)], kids, store, clock) == Filled(ViewOf(ns, kids, store, clock), Some(cs), e, bytes)
  {
    var n := Mounted(ns[v], e, id);
    var ns' := ns[v := n];
    assert SameLinks(ns, ns');
    assert InfoOf(n, store) == Info(ns[v].kind, Mode(REGULAR, e.mode), e.uid, e.gid, ns[v].created, e.mtime, bytes);
    assert forall i :: 0 <= i < |ns| && i != v ==> InfoOf(ns'[i], store) == InfoOf(ns[i], store);
    InfoKeeps(ns[v], store);
    hide Tree, Resolve, SameLinks, InfoOf, BytesOf, ViewOf, Mounted;
    SameLinksTree(ns, ns', kids);
    ChangeView(ns, ns', kids, store, store, clock, clock, v, cs);
    ViewParts(ns, kids, store, clock);
  }

  lemma InfoKeeps(n: Node, store: map<nat, seq<byte>>)
    ensures InfoOf(n, store).kind == n.kind && InfoOf(n, store).created == n.created
  {
  }

  // ---------------------------------------------------------------- the mount loop

  /** What a file entry writes over the node that its path reaches. */
  method FillNode(fs: FileSystem, e: Entry, id: nat)
    requires fs.Valid() && id in fs.images && id in fs.store && e.offset + e.size <= |fs.store[id]|
    modifies fs`nodes
    ensures fs.Valid()
    ensures fs.View() == Filled(old(fs.View()), Where(e), e, fs.store[id][e.offset..e.offset + e.size])
  {
    var v := fs.Lookup(e.path, "/");
    ghost var cs := Where(e);
    fs.LookupIs(cs);
    fs.ViewIs();
    if v == NULL {
      return;
    }
    hide Tree, StoreOk, ViewOf, Resolve, Filled, Canonical, BytesOf, Mounted;
    MountedStore(fs.nodes, v, e, fs.store, fs.images, fs.nextBuffer, id);
    ghost var bytes := fs.store[id][e.offset..e.offset + e.size];
    MountedView(fs.nodes, v, e, fs.kids, fs.store, fs.clock, id, cs.value, bytes);
    fs.CommitNodes(fs.nodes[v := Mounted(fs.nodes[v], e, id)], Filled(fs.View(), cs, e, bytes));
  }

  /** One round of the loop. */
  method MountOne(fs: FileSystem, image: seq<byte>, id: nat, e: Entry) returns (ok: bool)
    requires fs.Valid() && id in fs.images && id in fs.store && fs.store[id] == image
    requires e.kind == TYPE_FILE ==> e.offset + e.size < TWO_64
    modifies fs`nodes, fs`clock, fs`kids
    ensures fs.Valid()
    ensures ok <==> MountEntry(old(fs.View()), image, e).Some?
    ensures ok ==> fs.View() == MountEntry(old(fs.View()), image, e).value
    ensures !ok ==> fs.View() == old(fs.View())
  {
    hide Tree, StoreOk, ViewOf, MakeSpec, Canonical, Filled;
    if e.path == "" || e.path == "/" {
      return true;
    }
    if e.kind == TYPE_DIR {
      var rc := fs.Mkdir(e.path, "/", Mode(DIRECTORY, e.mode), e.uid, e.gid);
    } else if e.kind == TYPE_FILE {
      if e.offset + e.size > |image| {
        return false;
      }
      var rc := fs.CreateFile(e.path, "/", Mode(REGULAR, e.mode), e.uid, e.gid);
      FillNode(fs, e, id);
    }
    ok := true;
  }

  /** tfs_mount_image. A failing entry stops the loop; what came before it stays mounted. */
  method MountImage(fs: FileSystem, image: seq<byte>) returns (rc: int)
    requires fs.Valid() && SumsFit(image)
    modifies fs
    ensures fs.Valid()
    ensures rc == 0 <==> HeaderOk(image) && MountRun(old(fs.View()), image, Count(image)).Some?
    ensures rc == 0 <==> HeaderOk(image) && forall i :: 0 <= i < Count(image) ==> BytesInside(image, EntryAt(image, TableStart(image), i))
    ensures rc == 0 || rc == -1
    ensures fs.View() == if HeaderOk(image) then MountedUpTo(old(fs.View()), image, Count(image)) else old(fs.View())
  {
    hide Tree, StoreOk, ViewOf, MountEntry, BytesInside, MountRun, MountedUpTo, EntryAt;
    ghost var start := fs.View();
    if |image| < HEADER_SIZE || image[0..8] != MAGIC || Le(image[8..12]) != VERSION {
      return -1;
    }
    var entries, table := Le(image[12..16]), Le(image[16..24]);
    if table + entries * ENTRY_SIZE > |image| {
      return -1;
    }
    var id := fs.AddImage(image);
    var ok := MountEntries(fs, image, id, entries, table);
    RunSucceeds(start, image, entries);
    rc := if ok then 0 else -1;
  }

  /** The loop over the entries. */
  method MountEntries(fs: FileSystem, image: seq<byte>, id: nat, entries: nat, table: nat) returns (ok: bool)
    requires fs.Valid() && id in fs.images && id in fs.store && fs.store[id] == image
    requires HeaderOk(image) && entries == Count(image) && table == TableStart(image) && SumsFit(image)
    modifies fs`nodes, fs`clock, fs`kids
    ensures fs.Valid()
    ensures ok <==> MountRun(old(fs.View()), image, entries).Some?
    ensures fs.View() == MountedUpTo(old(fs.View()), image, entries)
  {
    hide Tree, StoreOk, ViewOf, MountEntry, Le, MountRun, MountedUpTo, HeaderOk, EntryAt, Count, TableStart;
    ghost var start := fs.View();
    RunStarts(start, image);
    SumsOfEntries(image);
    for i := 0 to entries
      invariant fs.Valid() && id in fs.images && id in fs.store && fs.store[id] == image
      invariant MountRun(start, image, i) == Some(fs.View())
    {
      EntryInside(image, i);
      ok := MountOne(fs, image, id, EntryAt(image, table, i));
      RunStep(start, image, i);
      if !ok {
        RunStops(start, image, i, entries);
        return false;
      }
    }
    RunEnds(start, image, entries);
    ok := true;
  }

  lemma EntryInside(image: seq<byte>, i: nat)
    requires HeaderOk(image) && i < Count(image)
    ensures TableStart(image) + ENTRY_SIZE * i + ENTRY_SIZE <= |image|
  {
    hide Le;
  }

  lemma SumsOfEntries(image: seq<byte>)
    requires HeaderOk(image) && SumsFit(image)
    ensures forall i :: 0 <= i < Count(image) ==>
      EntryAt(image, TableStart(image), i).offset + EntryAt(image, TableStart(image), i).size < TWO_64
  {
    hide EntryAt, Le, HeaderOk;
  }

  lemma RunEnds(fs: Fs, image: seq<byte>, k: nat)
    requires HeaderOk(image) && k <= Count(image) && MountRun(fs, image, k).Some?
    ensures MountedUpTo(fs, image, k) == MountRun(fs, image, k).value
  {
    hide MountRun, HeaderOk, Count;
  }

  lemma RunStarts(fs: Fs, image: seq<byte>)
    requires HeaderOk(image)
    ensures MountRun(fs, image, 0) == Some(fs)
  {
  }

  /** The entry is no file with a path, or its bytes lie inside the image. */
  predicate BytesInside(image: seq<byte>, e: Entry) {
    e.kind == TYPE_FILE && e.path != "" && e.path != "/" ==> e.offset + e.size <= |image|
  }

  lemma StepSucceeds(fs: Fs, image: seq<byte>, e: Entry)
    ensures MountEntry(fs, image, e).Some? <==> BytesInside(image, e)
  {
    hide MakeSpec, Where, Filled;
  }

  /** Mounting goes through exactly when every file's bytes lie inside the image, whatever is mounted
      already and whether or not the nodes suffice. */
  lemma {:induction false} RunSucceeds(fs: Fs, image: seq<byte>, k: nat)
    requires HeaderOk(image) && k <= Count(image)
    ensures MountRun(fs, image, k).Some? <==> forall i :: 0 <= i < k ==> BytesInside(image, EntryAt(image, TableStart(image), i))
  {
    hide MountEntry, EntryAt, Le, HeaderOk, BytesInside, MountRun;
    if k == 0 {
      RunStarts(fs, image);
    } else {
      RunSucceeds(fs, image, k - 1);
      RunStep(fs, image, k - 1);
      EntryInside(image, k - 1);
      if MountRun(fs, image, k - 1).Some? {
        StepSucceeds(MountRun(fs, image, k - 1).value, image, EntryAt(image, TableStart(image), k - 1));
      }
    }
  }

  lemma RunStep(fs: Fs, image: seq<byte>, i: nat)
    requires HeaderOk(image) && i < Count(image)
    ensures MountRun(fs, image, i).None? ==> MountRun(fs, image, i + 1).None?
    ensures MountRun(fs, image, i).Some? ==>
      MountRun(fs, image, i + 1) == MountEntry(MountRun(fs, image, i).value, image, EntryAt(image, TableStart(image), i))
  {
    hide MountEntry, EntryAt, Le, HeaderOk;
  }

  lemma {:induction false} RunStops(fs: Fs, image: seq<byte>, i: nat, k: nat)
    requires HeaderOk(image) && i < k <= Count(image) && MountRun(fs, image, i).Some? && MountRun(fs, image, i + 1) == None
    ensures MountRun(fs, image, k) == None && MountedUpTo(fs, image, k) == MountRun(fs, image, i).value
  {
    hide MountEntry, EntryAt, Le, HeaderOk, Count;
    if i + 1 < k {
      RunStops(fs, image, i, k - 1);
    }
  }
}

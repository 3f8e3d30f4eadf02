/** A system that boots from a packed image: tools/mktfs.py, vfs_init and tfs_mount_image in a row. */
module TfsBoot {
  import opened Basics
  import opened Bytes
  import opened Wrappers
  import opened Paths
  import opened VfsTree
  import opened Vfs
  import opened VfsData
  import opened VfsFiles
  import opened TfsImage
  import opened TfsMount
  import opened TfsTrees
  import opened TfsRoundTrip

  /** The whole way: a collected tree is packed, the image mounted on a booted system, and one of its
      files looked up and read. It is read back as packed exactly if it survives. */
  method PackMountRead(items: seq<Item>, k: nat) returns (rc: int, found: Option<Info>)
    requires Collected(items) && k < |items| && items[k].file
    requires AllPackable(items) && |items| < TWO_32 && |Image(items)| < TWO_64
    ensures rc == 0
    ensures found.Some? && Exact(found.value, items[k]) <==> Survives(InitSpec(|INIT_DIRS|), items, k)
    ensures found.Some? ==> Exact(found.value, items[LastFile(items, Comps(items[k]), |items|)])
  {
    hide Collected, Image, Survives, MountRun, InitSpec, Tree, StoreOk, ViewOf, Comps, HeaderOk, Canonical, Resolve, MountedUpTo, SumsFit, OnlyDirs, Place;
    PackablePaths(items);
    Booted();
    ImagesFit(items);
    PackedFilesMount(InitSpec(|INIT_DIRS|), items, k);
    var image := Pack(items);
    var fs := new FileSystem();
    rc := MountImage(fs, image.value);
    RunEnds(InitSpec(|INIT_DIRS|), image.value, |items|);
    var v := fs.Lookup(items[k].path, "/");
    ghost var place := Canonical(items[k].path, "/", PATH_MAX);
    fs.LookupIs(place);
    if v == NULL {
      return rc, None;
    }
    fs.NodeIs(v, place.value);
    var n := fs.nodes[v];
    var bytes := fs.ReadNode(v, 0, n.size);
    if bytes.None? {
      return rc, None;
    }
    SliceWhole(fs.Content(v), n.size);
    found := Some(Info(n.kind, n.mode, n.uid, n.gid, n.created, n.modified, bytes.value));
  }

  lemma SliceWhole(bytes: seq<byte>, n: nat)
    requires |bytes| <= n
    ensures Slice(bytes, 0, n) == bytes
  {
  }

  lemma PackablePaths(items: seq<Item>)
    requires AllPackable(items)
    ensures forall i :: 0 <= i < |items| ==> Packable(items[i]) && |items[i].path| < PATH_FIELD
  {
  }
}

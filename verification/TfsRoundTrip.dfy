/** From mktfs to a mounted file system: what of a packed tree can be looked up afterwards. */
module TfsRoundTrip {
  import opened Basics
  import opened Bytes
  import opened Wrappers
  import opened Paths
  import opened VfsTree
  import opened Vfs
  import opened VfsData
  import opened VfsInit
  import opened TfsImage
  import opened TfsMount
  import opened TfsTrees

  /** What the looked-up node of a packed file must say: a regular file with the twelve permission bits,
      the owner, the group, the time and the bytes that were packed. */
  predicate Exact(info: Info, item: Item) {
    && info.kind == File && info.mode / 4096 == 8 && info.mode % 4096 == item.mode % 4096
    && info.uid == item.uid && info.gid == item.gid && info.modified == item.mtime && info.bytes == item.data
  }

  /** And that of a packed directory. */
  predicate Directory(info: Info, item: Item) {
    && info.kind == Dir && info.mode / 4096 == 4 && info.mode % 4096 == item.mode % 4096
    && info.uid == item.uid && info.gid == item.gid
  }

  // ---------------------------------------------------------------- one entry

  /** What mounting one packed item does. */
  ghost function Step(fs: Fs, item: Item, at: nat): Fs {
    if item.file then
      Filled(MakeSpec(fs, Place(item), File, Mode(REGULAR, item.mode), item.uid, item.gid), Place(item), Recorded(item, at), item.data)
    else MakeSpec(fs, Place(item), Dir, Mode(DIRECTORY, item.mode), item.uid, item.gid)
  }

  lemma EntryIsStep(items: seq<Item>, k: nat, fs: Fs)
    requires AllPackable(items) && |Image(items)| < TWO_64 && k < |items| && Collectable(items[k])
    ensures HEADER_SIZE + ENTRY_SIZE * k + ENTRY_SIZE <= |Image(items)|
    ensures MountEntry(fs, Image(items), EntryAt(Image(items), HEADER_SIZE, k)) == Some(Step(fs, items[k], Extent(items, k)))
  {
    hide EntryAt, Image, Canonical, MakeSpec, Filled, Extent, Collectable, Comps, Place, AllPackable;
    ImageEntry(items, k);
    PlaceIs(items[k]);
    if items[k].file {
      ImageExtent(items, k);
    } else {
      FolderEmpty(items, k);
    }
  }

  lemma FolderEmpty(items: seq<Item>, i: nat)
    requires AllPackable(items) && i < |items|
    ensures !items[i].file ==> items[i].data == []
  {
  }

  lemma StepNowhere(fs: Fs, item: Item, at: nat)
    requires Place(item) == None
    ensures Step(fs, item, at) == fs
  {
  }

  /** A step makes a node where there was room for one, and a file fills whatever node its path reaches. */
  lemma StepAt(fs: Fs, item: Item, at: nat)
    requires Place(item).Some?
    ensures var cs, fs' := Comps(item), Step(fs, item, at);
      var made := MakeCode(fs, Some(cs)) == 0;
      && fs'.count == fs.count + (if made then 1 else 0)
      && (forall q :: q != cs ==> LookAt(fs', q) == LookAt(fs, q))
      && (cs in fs'.look <==> cs in fs.look || made)
      && (made ==> fs'.look[cs].kind == if item.file then File else Dir)
      && (made && !item.file ==> Directory(fs'.look[cs], item))
      && (!made && cs in fs.look ==> fs'.look[cs].kind == fs.look[cs].kind)
      && (item.file && cs in fs'.look && fs'.look[cs].kind == File ==> Exact(fs'.look[cs], item))
      && (!made && !item.file ==> LookAt(fs', cs) == LookAt(fs, cs))
  {
    hide Comps, MakeCode, MakeSpec;
    var cs := Comps(item);
    var kind, mode := if item.file then File else Dir, if item.file then Mode(REGULAR, item.mode) else Mode(DIRECTORY, item.mode);
    MakeCases(fs, Some(cs), kind, mode, item.uid, item.gid);
    if MakeCode(fs, Some(cs)) == 0 {
      MakeDone(fs, cs, kind, mode, item.uid, item.gid);
    }
  }

  // ---------------------------------------------------------------- the invariant of the mount loop

  /** After `k` entries `q` has a node of its own: the first entry known under it came and called for one
      while there was room. */
  ghost predicate There(base: Fs, items: seq<Item>, k: nat, q: Path)
    requires k <= |items|
  {
    var f := First(items, q);
    f < k && Fresh(base, items, f) && Room(base, items, f)
  }

  /** The first entry known under a path decides its kind, and the last file what it holds. */
  ghost predicate Holds(base: Fs, items: seq<Item>, k: nat, info: Info, q: Path)
    requires k <= |items|
  {
    var f, l := First(items, q), LastFile(items, q, k);
    && (q in base.look ==> info.kind == Dir)
    && (q !in base.look ==> f < |items| && info.kind == if items[f].file then File else Dir)
    && (info.kind == File ==> l >= 0 && Exact(info, items[l]))
    && (q !in base.look && info.kind == Dir && l < 0 ==> Directory(info, items[f]))
  }

  ghost predicate Reached(base: Fs, items: seq<Item>, k: nat, fs: Fs)
    requires k <= |items|
  {
    && fs.count == (if Room(base, items, k) then base.count + New(base, items, k) else MAX_NODES)
    && (forall q :: q in fs.look <==> q in base.look || There(base, items, k, q))
    && (forall q :: q in fs.look ==> Holds(base, items, k, fs.look[q], q))
  }

  /** The directory of an entry for which there is room is there exactly if directories lead to it. */
  lemma ParentWhen(base: Fs, items: seq<Item>, k: nat, fs: Fs)
    requires OnlyDirs(base) && Collected(items) && k < |items| && Reached(base, items, k, fs)
    requires Room(base, items, k) && |Comps(items[k])| <= MAX_COMPONENTS
    ensures ParentOk(fs, Some(Comps(items[k]))) <==> Above(base, items, Comps(items[k]))
  {
    var cs := Comps(items[k]);
    KnownEntry(items, k);
    hide Comps, Collected, New, Exact, Directory, Above, Room;
    var p := Init(cs);
    if |cs| == 1 {
      TopAbove(base, items, cs);
    } else {
      AboveStep(base, items, cs);
      ParentBefore(items, k);
      var g := First(items, p);
      RoomBefore(base, items, g, k);
      if p in base.look {
        BaseAbove(base, items, p);
      } else {
        assert p in fs.look <==> There(base, items, k, p);
        assert There(base, items, k, p) <==> Above(base, items, p);
      }
    }
  }

  lemma KnownEntry(items: seq<Item>, k: nat)
    requires Collected(items) && k < |items|
    ensures Collectable(items[k]) && Comps(items[k]) != []
    ensures First(items, Comps(items[k])) <= k
  {
    hide Comps, Collectable;
    assert Collectable(items[k]);
    CompsAre(items[k]);
  }

  /** Entry `k` makes a node exactly if it calls for one while there is room. */
  lemma MadeWhen(base: Fs, items: seq<Item>, k: nat, fs: Fs)
    requires OnlyDirs(base) && Collected(items) && k < |items| && Reached(base, items, k, fs)
    requires |Comps(items[k])| <= MAX_COMPONENTS
    ensures MakeCode(fs, Some(Comps(items[k]))) == 0 <==> Fresh(base, items, k) && Room(base, items, k)
  {
    var cs := Comps(items[k]);
    KnownEntry(items, k);
    hide Comps, Collected, Exact, Above, Room, Holds, New, ParentOk;
    var f := First(items, cs);
    assert cs in fs.look <==> cs in base.look || There(base, items, k, cs);
    if Room(base, items, k) {
      ParentWhen(base, items, k, fs);
      RoomBefore(base, items, f, k);
      CountBelow(base, items, k);
    }
  }

  lemma CountBelow(base: Fs, items: seq<Item>, k: nat)
    requires k <= |items| && Room(base, items, k)
    ensures base.count + New(base, items, k) < MAX_NODES
  {
  }

  lemma NewNext(base: Fs, items: seq<Item>, k: nat, count: nat)
    requires k < |items| && base.count <= MAX_NODES
    requires count == if Room(base, items, k) then base.count + New(base, items, k) else MAX_NODES
    ensures count + (if Fresh(base, items, k) && Room(base, items, k) then 1 else 0)
      == if Room(base, items, k + 1) then base.count + New(base, items, k + 1) else MAX_NODES
  {
    hide Fresh;
  }

  lemma StepReached(base: Fs, items: seq<Item>, k: nat, fs: Fs, at: nat)
    requires OnlyDirs(base) && Collected(items) && k < |items| && Reached(base, items, k, fs)
    ensures Reached(base, items, k + 1, Step(fs, items[k], at))
  {
    var fs' := Step(fs, items[k], at);
    CountNext(base, items, k, fs, at);
    forall q ensures q in fs'.look <==> q in base.look || There(base, items, k + 1, q) {
      LookNext(base, items, k, fs, q, at);
    }
    forall q | q in fs'.look ensures Holds(base, items, k + 1, fs'.look[q], q) {
      HoldsNext(base, items, k, fs, fs', q, at);
    }
    hide Comps, Collected, Step, New, Room, There, Holds, OnlyDirs;
  }

  lemma CountNext(base: Fs, items: seq<Item>, k: nat, fs: Fs, at: nat)
    requires OnlyDirs(base) && Collected(items) && k < |items| && Reached(base, items, k, fs)
    ensures Step(fs, items[k], at).count == if Room(base, items, k + 1) then base.count + New(base, items, k + 1) else MAX_NODES
  {
    hide Comps, Collected, Step, New, MakeCode, Room, Fresh, There, Holds, OnlyDirs;
    FromBase(base);
    NewNext(base, items, k, fs.count);
    if |Comps(items[k])| > MAX_COMPONENTS {
      StepNowhere(fs, items[k], at);
      TooDeep(base, items, k);
    } else {
      MadeWhen(base, items, k, fs);
      StepAt(fs, items[k], at);
    }
  }

  lemma LookNext(base: Fs, items: seq<Item>, k: nat, fs: Fs, q: Path, at: nat)
    requires OnlyDirs(base) && Collected(items) && k < |items| && Reached(base, items, k, fs)
    ensures q in Step(fs, items[k], at).look <==> q in base.look || There(base, items, k + 1, q)
  {
    hide Comps, Collected, Step, New, MakeCode, Room, Fresh, There, Holds, OnlyDirs;
    ThereNext(base, items, k, q);
    if |Comps(items[k])| > MAX_COMPONENTS {
      StepNowhere(fs, items[k], at);
      TooDeep(base, items, k);
    } else {
      MadeWhen(base, items, k, fs);
      StepAt(fs, items[k], at);
      if q != Comps(items[k]) {
        LookFrame(fs, Step(fs, items[k], at), q);
      }
    }
  }

  lemma FromBase(base: Fs)
    requires OnlyDirs(base)
    ensures base.count <= MAX_NODES
  {
  }

  lemma TooDeep(base: Fs, items: seq<Item>, k: nat)
    requires k < |items| && |Comps(items[k])| > MAX_COMPONENTS
    ensures !Fresh(base, items, k)
  {
    hide Above, Comps;
  }

  /** Only a path that nothing was known under before gets a node from entry `k`. */
  lemma ThereNext(base: Fs, items: seq<Item>, k: nat, q: Path)
    requires k < |items|
    ensures There(base, items, k + 1, q) <==>
      There(base, items, k, q) || (q == Comps(items[k]) && Fresh(base, items, k) && Room(base, items, k))
  {
    hide Above, Comps, Room;
  }

  lemma NotTwice(base: Fs, items: seq<Item>, k: nat)
    requires k < |items| && Fresh(base, items, k)
    ensures !There(base, items, k, Comps(items[k])) && Comps(items[k]) !in base.look
  {
    hide Above, Comps, Room;
  }

  lemma LastNext(items: seq<Item>, q: Path, k: nat)
    requires k < |items|
    ensures LastFile(items, q, k + 1) == if items[k].file && Comps(items[k]) == q then k else LastFile(items, q, k)
  {
    hide Comps;
  }

  lemma HoldsNext(base: Fs, items: seq<Item>, k: nat, fs: Fs, fs': Fs, q: Path, at: nat)
    requires OnlyDirs(base) && Collected(items) && k < |items| && Reached(base, items, k, fs)
    requires fs' == Step(fs, items[k], at) && q in fs'.look
    ensures Holds(base, items, k + 1, fs'.look[q], q)
  {
    var cs := Comps(items[k]);
    hide Comps, Collected, Step, MakeCode, OnlyDirs, There, Holds, Room, New;
    if |cs| > MAX_COMPONENTS {
      StepNowhere(fs, items[k], at);
      if q == cs {
        OnlyShallow(base, items, k, q);
        HoldsBase(base, items, k, fs.look[q], q);
      } else {
        HoldsElse(base, items, k, fs.look[q], q);
      }
    } else {
      StepAt(fs, items[k], at);
      if q != cs {
        LookFrame(fs, fs', q);
        HoldsElse(base, items, k, fs.look[q], q);
      } else {
        HoldsHere(base, items, k, fs, fs', at);
      }
    }
  }

  lemma HoldsBase(base: Fs, items: seq<Item>, k: nat, info: Info, q: Path)
    requires k < |items| && Holds(base, items, k, info, q) && q in base.look
    ensures Holds(base, items, k + 1, info, q)
  {
    hide Comps, Exact, Directory;
  }

  lemma HoldsElse(base: Fs, items: seq<Item>, k: nat, info: Info, q: Path)
    requires k < |items| && Holds(base, items, k, info, q) && q != Comps(items[k])
    ensures Holds(base, items, k + 1, info, q)
  {
    hide Comps, Exact, Directory;
    LastNext(items, q, k);
  }

  lemma HoldsHere(base: Fs, items: seq<Item>, k: nat, fs: Fs, fs': Fs, at: nat)
    requires OnlyDirs(base) && Collected(items) && k < |items| && Reached(base, items, k, fs)
    requires fs' == Step(fs, items[k], at) && |Comps(items[k])| <= MAX_COMPONENTS && Comps(items[k]) in fs'.look
    ensures Holds(base, items, k + 1, fs'.look[Comps(items[k])], Comps(items[k]))
  {
    var cs := Comps(items[k]);
    hide Comps, Collected, Step, Exact, Directory, New, MakeCode, Room, Fresh, OnlyDirs, There;
    LastNext(items, cs, k);
    StepAt(fs, items[k], at);
    MadeWhen(base, items, k, fs);
    if Fresh(base, items, k) && Room(base, items, k) {
      NotTwice(base, items, k);
      FirstFresh(base, items, k);
    } else if !items[k].file {
      LookFrame(fs, fs', cs);
    }
  }

  lemma OnlyShallow(base: Fs, items: seq<Item>, k: nat, q: Path)
    requires k <= |items| && |q| > MAX_COMPONENTS
    ensures !There(base, items, k, q)
  {
    hide Above, Comps, Room;
  }

  lemma FirstFresh(base: Fs, items: seq<Item>, k: nat)
    requires k < |items| && Fresh(base, items, k)
    ensures First(items, Comps(items[k])) == k
  {
    hide Above, Comps;
  }

  lemma LookFrame(fs: Fs, fs': Fs, q: Path)
    requires LookAt(fs', q) == LookAt(fs, q)
    ensures q in fs'.look <==> q in fs.look
    ensures q in fs.look ==> fs'.look[q] == fs.look[q]
  {
  }

  // ---------------------------------------------------------------- the whole run

  lemma HeaderFits(items: seq<Item>)
    requires AllPackable(items) && |Image(items)| < TWO_64 && |items| < TWO_32
    ensures HeaderOk(Image(items)) && Count(Image(items)) == |items| && TableStart(Image(items)) == HEADER_SIZE
  {
    HeaderRoundTrip(items);
    ImageLength(items);
    hide Image, Le;
  }

  lemma ImageLength(items: seq<Item>)
    requires AllPackable(items)
    ensures HEADER_SIZE + |items| * ENTRY_SIZE <= |Image(items)|
  {
    hide Image, Table, Payload, HeaderBytes, DataStart, Aligned8, AllPackable;
    ImageParts(items);
  }

  lemma ReachedStart(base: Fs, items: seq<Item>)
    requires OnlyDirs(base)
    ensures Reached(base, items, 0, base)
  {
    hide Comps, Fresh;
    forall q | q in base.look ensures Holds(base, items, 0, base.look[q], q) {
    }
  }

  /** The mount loop's k-th round on a packed image is the k-th step. */
  lemma RunNext(base: Fs, items: seq<Item>, k: nat)
    requires AllPackable(items) && |Image(items)| < TWO_64 && |items| < TWO_32
    requires k < |items| && Collectable(items[k])
    requires HeaderOk(Image(items)) && Count(Image(items)) == |items| && TableStart(Image(items)) == HEADER_SIZE
    requires MountRun(base, Image(items), k).Some?
    ensures MountRun(base, Image(items), k + 1) == Some(Step(MountRun(base, Image(items), k).value, items[k], Extent(items, k)))
  {
    hide Step, MountEntry, EntryAt, Image, AllPackable, Collectable, HeaderOk, Extent;
    EntryIsStep(items, k, MountRun(base, Image(items), k).value);
  }

  ghost predicate RunsTo(base: Fs, items: seq<Item>, k: nat, fs: Fs)
    requires k <= |items| && AllPackable(items)
  {
    && HeaderOk(Image(items)) && Count(Image(items)) == |items|
    && MountRun(base, Image(items), k) == Some(fs) && Reached(base, items, k, fs)
  }

  lemma {:induction false} RunReached(base: Fs, items: seq<Item>, k: nat) returns (fs: Fs)
    requires OnlyDirs(base) && Collected(items) && AllPackable(items) && k <= |items|
    requires |Image(items)| < TWO_64 && |items| < TWO_32
    ensures RunsTo(base, items, k, fs)
  {
    hide *;
    if k == 0 {
      RunStarts(base, items);
      fs := base;
    } else {
      var before := RunReached(base, items, k - 1);
      fs := RunContinues(base, items, k - 1, before);
    }
  }

  lemma RunStarts(base: Fs, items: seq<Item>)
    requires OnlyDirs(base) && AllPackable(items) && |Image(items)| < TWO_64 && |items| < TWO_32
    ensures RunsTo(base, items, 0, base)
  {
    hide HeaderOk, Image, Reached, Count, OnlyDirs, AllPackable;
    HeaderFits(items);
    ReachedStart(base, items);
  }

  lemma RunContinues(base: Fs, items: seq<Item>, k: nat, before: Fs) returns (fs: Fs)
    requires OnlyDirs(base) && Collected(items) && AllPackable(items) && k < |items|
    requires |Image(items)| < TWO_64 && |items| < TWO_32
    requires RunsTo(base, items, k, before)
    ensures RunsTo(base, items, k + 1, fs)
  {
    hide Reached, Step, Collected, Image, Comps, MountRun, AllPackable, HeaderOk, Count, TableStart, OnlyDirs, Extent;
    fs := Step(before, items[k], Extent(items, k));
    HeaderFits(items);
    KnownEntry(items, k);
    RunNext(base, items, k);
    StepReached(base, items, k, before, Extent(items, k));
  }

  // ---------------------------------------------------------------- the theorem

  /** The same bytes, permissions and time. */
  predicate Same(a: Item, b: Item) {
    a.mode % 4096 == b.mode % 4096 && a.uid == b.uid && a.gid == b.gid && a.mtime == b.mtime && a.data == b.data
  }

  /** A file keeps what it was packed with: its path is not too deep and not taken by a directory that was
      there before; the first entry known under the cut path is a file to which directories lead, and
      had room; and the last file known under it does not differ. */
  ghost predicate Survives(base: Fs, items: seq<Item>, k: nat)
    requires k < |items|
  {
    var cs := Comps(items[k]);
    var f, l := First(items, cs), LastFile(items, cs, |items|);
    && |cs| <= MAX_COMPONENTS && cs !in base.look
    && f < |items| && items[f].file && Above(base, items, cs) && Room(base, items, f)
    && l >= 0 && Same(items[l], items[k])
  }

  /** Packing any collected tree and mounting the image succeeds. A packed file is then found under its
      path, with exactly its bytes, mode, owner and time, if and only if it survives. In any case,
      what a packed path leads to holds what the last file known under the cut path was packed with. */
  lemma PackedFilesMount(base: Fs, items: seq<Item>, k: nat)
    requires OnlyDirs(base) && Collected(items) && k < |items| && items[k].file
    requires AllPackable(items) && |items| < TWO_32 && |Image(items)| < TWO_64
    ensures HeaderOk(Image(items)) && Count(Image(items)) == |items|
    ensures MountRun(base, Image(items), |items|).Some?
    ensures var look, at := MountRun(base, Image(items), |items|).value.look, Canonical(items[k].path, "/", PATH_MAX);
      var l := LastFile(items, Comps(items[k]), |items|);
      && at == Place(items[k]) && l >= k
      && (at.Some? && at.value in look && Exact(look[at.value], items[k]) <==> Survives(base, items, k))
      && (at.Some? && at.value in look ==> look[at.value].kind == Dir || Exact(look[at.value], items[l]))
  {
    hide Comps, Collectable, Collected, Image, Exact, Canonical, MountRun, HeaderOk, Count, Reached, Survives, AllPackable, OnlyDirs;
    var fs := RunReached(base, items, |items|);
    KnownEntry(items, k);
    PlaceIs(items[k]);
    FoundWhen(base, items, k, fs);
  }

  lemma FoundWhen(base: Fs, items: seq<Item>, k: nat, fs: Fs)
    requires OnlyDirs(base) && Collected(items) && k < |items| && items[k].file && Reached(base, items, |items|, fs)
    ensures var cs, l := Comps(items[k]), LastFile(items, Comps(items[k]), |items|);
      && l >= k
      && (|cs| <= MAX_COMPONENTS && cs in fs.look && Exact(fs.look[cs], items[k]) <==> Survives(base, items, k))
      && (cs in fs.look ==> fs.look[cs].kind == Dir || Exact(fs.look[cs], items[l]))
  {
    hide Comps, Collected, New, Room, Above, OnlyDirs, Same, Exact, Directory;
    var cs := Comps(items[k]);
    KnownEntry(items, k);
    var f, l := First(items, cs), LastFile(items, cs, |items|);
    assert l >= k;
    if cs in fs.look {
      ExactSame(fs.look[cs], items[l], items[k]);
    }
  }

  /** A packed directory is found with its permissions, owner and group under the like conditions, if
      moreover no file is known under its cut path, which would give them its own. */
  lemma PackedDirectoriesMount(base: Fs, items: seq<Item>, k: nat)
    requires OnlyDirs(base) && Collected(items) && k < |items| && !items[k].file
    requires AllPackable(items) && |items| < TWO_32 && |Image(items)| < TWO_64
    requires var cs := Comps(items[k]);
      && |cs| <= MAX_COMPONENTS && cs !in base.look && First(items, cs) == k && LastFile(items, cs, |items|) < 0
      && Above(base, items, cs) && Room(base, items, k)
    ensures HeaderOk(Image(items)) && Count(Image(items)) == |items| && MountRun(base, Image(items), |items|).Some?
    ensures var look, at := MountRun(base, Image(items), |items|).value.look, Canonical(items[k].path, "/", PATH_MAX);
      at.Some? && at.value in look && Directory(look[at.value], items[k])
  {
    hide Comps, Collectable, Collected, Image, Exact, Canonical, MountRun, HeaderOk, Count, AllPackable, OnlyDirs, Directory, Above, Room;
    var fs := RunReached(base, items, |items|);
    KnownEntry(items, k);
    PlaceIs(items[k]);
    assert There(base, items, |items|, Comps(items[k]));
  }

  lemma ExactSame(info: Info, a: Item, b: Item)
    ensures Exact(info, a) ==> (Exact(info, b) <==> Same(a, b))
    ensures Exact(info, b) ==> info.kind == File
  {
  }

  /** If all names and paths fit, and none is there twice or before, every file is found exactly if the
      entries before it left a node in the pool. */
  lemma FittingTreesMount(base: Fs, items: seq<Item>, k: nat)
    requires OnlyDirs(base) && Collected(items) && Fitting(base, items) && k < |items| && items[k].file
    ensures Survives(base, items, k) <==> Room(base, items, k)
  {
    hide Comps, FullNames, Collectable, HasParent, Slashes, OnlyDirs, Room, Above;
    FittingComps(base, items);
    FittingAbove(base, items, k);
    var cs := Comps(items[k]);
    assert First(items, cs) == k;
    assert LastFile(items, cs, |items|) == k;
  }

  /** A fresh file system holds directories only. */
  lemma Booted()
    ensures OnlyDirs(InitSpec(|INIT_DIRS|)) && InitSpec(|INIT_DIRS|).count == 11
  {
    InitFacts(|INIT_DIRS|);
    assert InitPath(|INIT_DIRS|, []);
    hide InitSpec, InitName;
    forall q | InitPath(|INIT_DIRS|, q) && q != [] ensures Init(q) == [] {
    }
  }

  /** In particular every file of such a tree with at most 1013 entries survives on a booted system. */
  lemma SmallTreesMount(items: seq<Item>, k: nat)
    requires Collected(items) && Fitting(InitSpec(|INIT_DIRS|), items) && k < |items| && items[k].file
    requires |items| <= MAX_NODES - 11
    ensures Survives(InitSpec(|INIT_DIRS|), items, k)
  {
    var base := InitSpec(|INIT_DIRS|);
    Booted();
    hide InitSpec, Survives, Collected, Fitting, New;
    FittingTreesMount(base, items, k);
    NewGrows(base, items, 0, k);
    NothingNew(base, items);
  }

  lemma NothingNew(base: Fs, items: seq<Item>)
    ensures New(base, items, 0) == 0
  {
  }

  /** No sum of the fields of a packed image wraps around, as mounting it asks. */
  lemma ImagesFit(items: seq<Item>)
    requires AllPackable(items) && |items| < TWO_32 && |Image(items)| < TWO_64
    ensures SumsFit(Image(items))
  {
    hide Image, EntryAt, Le, HeaderOk, Extent, Packable, Count, TableStart;
    HeaderFits(items);
    ImageLength(items);
    forall i | 0 <= i < |items|
      ensures EntryAt(Image(items), HEADER_SIZE, i).offset + EntryAt(Image(items), HEADER_SIZE, i).size < TWO_64
    {
      ImageEntry(items, i);
      ExtentInside(items, i);
      FolderEmpty(items, i);
    }
    NoTableWrap(items);
  }

  lemma NoTableWrap(items: seq<Item>)
    requires AllPackable(items) && |items| < TWO_32 && |Image(items)| < TWO_64
    ensures |Image(items)| >= HEADER_SIZE && Le(Image(items)[16..24]) + Le(Image(items)[12..16]) * ENTRY_SIZE < TWO_64
  {
    hide Image, Le;
    HeaderRoundTrip(items);
  }
}

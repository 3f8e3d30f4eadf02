/** Directory trees as tools/mktfs.py collects them, and which of their entries get a node when the
    kernel mounts them: the kernel keeps 63 characters of a name and 32 levels of a path. */
module TfsTrees {
  import opened Basics
  import opened Wrappers
  import opened Paths
  import opened PathLaws
  import opened VfsTree
  import opened Vfs
  import opened TfsImage

  // ---------------------------------------------------------------- names

  /** The names of a path as the tree spells them. */
  function FullNames(path: string): (names: seq<string>) {
    var pieces := Split(path);
    if pieces == [] then [] else pieces[1..]
  }

  function Shortened(names: seq<string>): (cs: Path)
    ensures |cs| == |names|
  {
    seq(|names|, i requires 0 <= i < |names| => Clip(names[i], NAME_MAX))
  }

  /** The names of a path as the kernel stores them. */
  function Comps(item: Item): Path {
    Components(item.path)
  }

  /** What every entry of a directory tree is like, if its path fits the image at all. */
  predicate Collectable(item: Item) {
    && Packable(item) && |item.path| < PATH_FIELD && item.path != "" && item.path[0] == '/' && FullNames(item.path) != []
    && forall name :: name in FullNames(item.path) ==> name != "" && name != "." && name != ".."
  }

  lemma {:induction false} NamesShortened(names: seq<string>)
    requires forall name :: name in names ==> name != ""
    ensures Names(names) == Shortened(names)
  {
    hide Clip, Names;
    if names == [] {
      NoNames();
    } else {
      var rest := names[1..];
      assert names == [names[0]] + rest;
      assert names[0] in names && forall name :: name in rest ==> name in names;
      NamesShortened(rest);
      NamesCons(names[0], rest);
      assert Shortened(names) == [Clip(names[0], NAME_MAX)] + Shortened(rest);
    }
  }

  lemma ShortenedValid(name: string)
    requires name != "" && name != "." && name != ".." && '/' !in name
    ensures ValidName(Clip(name, NAME_MAX))
  {
  }

  /** The kernel's names are the tree's, each cut to its limit. */
  lemma CompsAre(item: Item)
    requires Collectable(item)
    ensures Comps(item) == Shortened(FullNames(item.path)) && Comps(item) != []
    ensures forall c :: c in Comps(item) ==> ValidName(c)
  {
    hide Split, Names, Clip, ValidName, Packable;
    var names := FullNames(item.path);
    RootPiece(item.path);
    NamesCons("", names);
    NoName();
    SplitNoSlash(item.path);
    NamesShortened(names);
    var cs := Shortened(names);
    forall c | c in cs ensures ValidName(c) {
      var i :| 0 <= i < |cs| && c == cs[i];
      assert names[i] in names && names[i] in Split(item.path);
      ShortenedValid(names[i]);
    }
  }

  lemma NoName()
    ensures NameOf("") == []
  {
  }

  lemma RootPiece(path: string)
    requires path != "" && path[0] == '/'
    ensures Split(path) == [""] + FullNames(path)
  {
    SplitAt(path, 0);
  }

  lemma ShortenedInit(names: seq<string>)
    requires names != []
    ensures Shortened(names) != [] && Init(Shortened(names)) == Shortened(Init(names))
  {
    hide Clip;
  }

  /** The path that the kernel makes of it, if it has no more than 32 levels. */
  function Place(item: Item): Option<Path> {
    if |Comps(item)| <= MAX_COMPONENTS then Some(Comps(item)) else None
  }

  lemma PlaceIs(item: Item)
    requires Collectable(item)
    ensures Canonical(item.path, "/", PATH_MAX) == Place(item)
    ensures item.path != "" && item.path != "/"
  {
    var cs := Comps(item);
    CompsAre(item);
    hide Comps, Split, Names, ValidName, Packable, Weight, Spell;
    NotJustRoot(item);
    assert Source(item.path, "/") == item.path;
    if |cs| <= MAX_COMPONENTS {
      assert forall i :: 0 <= i < |cs| ==> cs[i] in cs;
      FoldPushes(cs, []);
      assert [] + cs == cs;
      SplitWeight(item.path);
      SplitNoSlash(item.path);
      FoldWeight(Split(item.path), []);
      EmptyPiece(item.path);
      FitsShort(cs);
    } else {
      FoldTooMany(cs, []);
    }
  }

  lemma NotJustRoot(item: Item)
    requires Collectable(item)
    ensures item.path != "/"
  {
    RootAlone();
    assert "" in FullNames("/");
  }

  lemma RootAlone()
    ensures FullNames("/") == [""]
  {
    SplitAt("/", 0);
    assert "/"[1..] == "";
    SplitNone("");
  }

  lemma FitsShort(cs: Path)
    requires cs != [] && (forall c :: c in cs ==> ValidName(c)) && |Spell(cs)| < PATH_MAX
    ensures Fits(cs, PATH_MAX)
  {
    assert ValidName(cs[0]);
  }

  // ---------------------------------------------------------------- the order of the entries

  function Slashes(s: string): nat {
    if s == "" then 0 else (if s[0] == '/' then 1 else 0) + Slashes(s[1..])
  }

  lemma {:induction false} SlashesConcat(a: string, b: string)
    ensures Slashes(a + b) == Slashes(a) + Slashes(b)
  {
    if a == "" {
      assert a + b == b;
    } else {
      assert (a + b)[1..] == a[1..] + b;
      SlashesConcat(a[1..], b);
    }
  }

  lemma {:induction false} NoSlashes(s: string)
    requires '/' !in s
    ensures Slashes(s) == 0
  {
    if s != "" {
      NoSlashes(s[1..]);
    }
  }

  lemma {:induction false} SlashesOfPieces(s: string)
    ensures |Split(s)| == Slashes(s) + 1
    decreases |s|
  {
    var i := Slash(s);
    NoSlashes(s[..i]);
    if i == |s| {
      assert s[..i] == s;
    } else {
      SlashesOfPieces(s[i + 1..]);
      assert s == s[..i] + s[i..] && s[i..][1..] == s[i + 1..];
      SlashesConcat(s[..i], s[i..]);
    }
  }

  lemma DepthIs(item: Item)
    requires Collectable(item)
    ensures |Comps(item)| == |FullNames(item.path)| == Slashes(item.path)
  {
    CompsAre(item);
    hide Comps, Slashes, Split, Packable;
    SlashesOfPieces(item.path);
    RootPiece(item.path);
  }

  predicate HasParent(items: seq<Item>, i: nat)
    requires i < |items| && FullNames(items[i].path) != []
  {
    exists j :: 0 <= j < |items| && !items[j].file && FullNames(items[j].path) == Init(FullNames(items[i].path))
  }

  /** The writer's input: the entries of a directory tree, sorted by the number of their slashes. */
  predicate Collected(items: seq<Item>) {
    && (forall i :: 0 <= i < |items| ==> Collectable(items[i]))
    && (forall i, j :: 0 <= i < j < |items| ==> Slashes(items[i].path) <= Slashes(items[j].path))
    && (forall i :: 0 <= i < |items| && |FullNames(items[i].path)| > 1 ==> HasParent(items, i))
  }

  /** Sorting by slashes puts shallower paths first, so whatever is one level up comes before. */
  lemma SortedByDepth(items: seq<Item>)
    requires Collected(items)
    ensures forall i, j :: 0 <= i < j < |items| ==> |Comps(items[i])| <= |Comps(items[j])|
    ensures forall i, j :: 0 <= i < |items| && 0 <= j < |items| && |Comps(items[j])| < |Comps(items[i])| ==> j < i
  {
    hide Comps, Collectable, Slashes, FullNames, HasParent;
    forall i | 0 <= i < |items| ensures |Comps(items[i])| == Slashes(items[i].path) {
      DepthIs(items[i]);
    }
  }

  // ---------------------------------------------------------------- paths that were cut

  /** The first entry that the kernel knows under this path, or the number of entries. */
  function First(items: seq<Item>, q: Path): (f: nat)
    ensures f <= |items| && (f < |items| ==> Comps(items[f]) == q)
    ensures forall j :: 0 <= j < f ==> Comps(items[j]) != q
  {
    hide Comps;
    if items == [] || Comps(items[0]) == q then 0 else 1 + First(items[1..], q)
  }

  /** The last file among the first `k` entries that the kernel knows under this path, or -1. */
  function LastFile(items: seq<Item>, q: Path, k: nat): (l: int)
    requires k <= |items|
    ensures -1 <= l < k && (l >= 0 ==> items[l].file && Comps(items[l]) == q)
    ensures forall j :: l < j < k && items[j].file ==> Comps(items[j]) != q
  {
    hide Comps;
    if k == 0 then -1 else if items[k - 1].file && Comps(items[k - 1]) == q then k - 1 else LastFile(items, q, k - 1)
  }

  /** A file system that holds directories only, as vfs_init leaves it. */
  ghost predicate OnlyDirs(base: Fs) {
    && [] in base.look && base.count <= MAX_NODES
    && (forall q :: q in base.look ==> base.look[q].kind == Dir)
    && (forall q :: q in base.look && q != [] ==> Init(q) in base.look)
  }

  /** On the way to `cs`, each path is there already, or the first entry known under it is a directory. */
  ghost predicate Above(base: Fs, items: seq<Item>, cs: Path) {
    forall n :: 0 < n < |cs| ==> Passable(base, items, cs[..n])
  }

  ghost predicate Passable(base: Fs, items: seq<Item>, q: Path) {
    q in base.look || (First(items, q) < |items| && !items[First(items, q)].file)
  }

  /** Entry `k` calls for a node: its path is not too deep, nothing else was known under it before, and
      directories lead to it. */
  ghost predicate Fresh(base: Fs, items: seq<Item>, k: nat)
    requires k < |items|
  {
    var cs := Comps(items[k]);
    |cs| <= MAX_COMPONENTS && cs !in base.look && First(items, cs) == k && Above(base, items, cs)
  }

  /** How many nodes the first `k` entries call for. */
  ghost function New(base: Fs, items: seq<Item>, k: nat): nat
    requires k <= |items|
  {
    if k == 0 then 0 else New(base, items, k - 1) + if Fresh(base, items, k - 1) then 1 else 0
  }

  lemma {:induction false} NewGrows(base: Fs, items: seq<Item>, j: nat, k: nat)
    requires j <= k <= |items|
    ensures New(base, items, j) <= New(base, items, k) <= New(base, items, j) + k - j
  {
    hide Fresh;
    if j < k {
      NewGrows(base, items, j, k - 1);
    }
  }

  /** The node pool still has room when entry `k` is mounted. */
  ghost predicate Room(base: Fs, items: seq<Item>, k: nat)
    requires k <= |items|
  {
    base.count + New(base, items, k) < MAX_NODES
  }

  lemma RoomBefore(base: Fs, items: seq<Item>, j: nat, k: nat)
    requires j <= k <= |items| && Room(base, items, k)
    ensures Room(base, items, j)
  {
    hide New;
    NewGrows(base, items, j, k);
  }

  lemma AboveStep(base: Fs, items: seq<Item>, cs: Path)
    requires |cs| > 1
    ensures Above(base, items, cs) <==> Above(base, items, Init(cs)) && Passable(base, items, Init(cs))
  {
    hide Passable;
    var p := Init(cs);
    assert cs[..|cs| - 1] == p;
    assert forall n :: 0 < n < |p| ==> p[..n] == cs[..n];
  }

  lemma {:induction false} BaseAbove(base: Fs, items: seq<Item>, q: Path)
    requires OnlyDirs(base) && q in base.look
    ensures Above(base, items, q)
  {
    if |q| > 1 {
      BaseAbove(base, items, Init(q));
      AboveStep(base, items, q);
    }
  }

  /** The directory of an entry is known before it. */
  lemma ParentBefore(items: seq<Item>, k: nat)
    requires Collected(items) && k < |items| && |Comps(items[k])| > 1
    ensures First(items, Init(Comps(items[k]))) < k
  {
    hide Comps, Collectable, Slashes, FullNames;
    SortedByDepth(items);
    DepthIs(items[k]);
    var names := FullNames(items[k].path);
    assert HasParent(items, k);
    var j :| 0 <= j < |items| && !items[j].file && FullNames(items[j].path) == Init(names);
    CompsAre(items[j]);
    CompsAre(items[k]);
    ShortenedInit(names);
  }

  // ---------------------------------------------------------------- trees that fit

  /** No name is longer than 63 characters, no path deeper than 32 levels, no path there twice, and no
      file in the place of a directory that is there already. */
  ghost predicate Fitting(base: Fs, items: seq<Item>) {
    && (forall i :: 0 <= i < |items| ==> ValidPath(FullNames(items[i].path)))
    && (forall i, j :: 0 <= i < j < |items| ==> FullNames(items[i].path) != FullNames(items[j].path))
    && (forall i :: 0 <= i < |items| && items[i].file ==> FullNames(items[i].path) !in base.look)
  }

  lemma Unshortened(names: seq<string>)
    requires ValidPath(names)
    ensures Shortened(names) == names
  {
  }

  lemma FittingComps(base: Fs, items: seq<Item>)
    requires Collected(items) && Fitting(base, items)
    ensures forall i :: 0 <= i < |items| ==> Comps(items[i]) == FullNames(items[i].path) && ValidPath(Comps(items[i]))
  {
    hide Comps, FullNames, Collectable, ValidPath, HasParent, Slashes;
    forall i | 0 <= i < |items| ensures Comps(items[i]) == FullNames(items[i].path) && ValidPath(Comps(items[i])) {
      CompsAre(items[i]);
      Unshortened(FullNames(items[i].path));
    }
  }

  /** Directories lead to every entry of such a tree. */
  lemma {:induction false} FittingAbove(base: Fs, items: seq<Item>, k: nat)
    requires Collected(items) && Fitting(base, items) && k < |items|
    ensures Above(base, items, Comps(items[k]))
    decreases |Comps(items[k])|
  {
    hide Comps, FullNames, Collectable, ValidPath, Slashes, Above, Passable;
    FittingComps(base, items);
    var cs := Comps(items[k]);
    if |cs| > 1 {
      assert HasParent(items, k);
      var j :| 0 <= j < |items| && !items[j].file && FullNames(items[j].path) == Init(cs);
      FittingAbove(base, items, j);
      PassableAt(base, items, j);
      AboveStep(base, items, cs);
    } else {
      TopAbove(base, items, cs);
    }
  }

  lemma PassableAt(base: Fs, items: seq<Item>, j: nat)
    requires Collected(items) && Fitting(base, items) && j < |items| && !items[j].file
    ensures Passable(base, items, Comps(items[j]))
  {
    hide Comps, FullNames, Collectable, ValidPath, Slashes, HasParent;
    FittingComps(base, items);
    assert First(items, Comps(items[j])) == j;
  }

  lemma TopAbove(base: Fs, items: seq<Item>, cs: Path)
    requires |cs| <= 1
    ensures Above(base, items, cs)
  {
  }
}

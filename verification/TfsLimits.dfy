/** Trees that mount whole, and trees that do not. */
module TfsLimits {
  import opened Basics
  import opened Wrappers
  import opened Paths
  import opened PathLaws
  import opened Vfs
  import opened VfsData
  import opened VfsInit
  import opened TfsImage
  import opened TfsMount
  import opened TfsTrees
  import opened TfsRoundTrip

  // ---------------------------------------------------------------- spelled paths

  /** Splitting the spelling of names without slashes gives the names back, whatever their length. */
  lemma {:induction false} SplitSpell(cs: seq<string>)
    requires cs != [] && forall c :: c in cs ==> '/' !in c
    ensures Split(Spell(cs)) == [""] + cs
  {
    hide Split, Spell;
    var c, rest := cs[0], cs[1..];
    assert cs == [c] + rest && c in cs && forall d :: d in rest ==> d in cs;
    SpellStarts(cs);
    SlashFirst(c + Spell(rest), "/" + c + Spell(rest));
    if rest == [] {
      NothingSpelled();
      assert c + "" == c;
      SplitNone(c);
    } else {
      SplitSpell(rest);
      SpellStarts(rest);
      var t := rest[0] + Spell(rest[1..]);
      SlashFirst(t, Spell(rest));
      assert c + Spell(rest) == c + "/" + t;
      SplitPiece(c, t);
      OneFewer(Split(t), rest, c, cs);
    }
  }

  lemma SlashFirst(t: string, s: string)
    requires s == "/" + t
    ensures Split(s) == [""] + Split(t)
  {
    SplitPiece("", t);
    assert "" + "/" + t == s;
  }

  lemma NothingSpelled()
    ensures Spell([]) == ""
  {
  }

  lemma OneFewer(pieces: seq<string>, rest: seq<string>, c: string, cs: seq<string>)
    requires [""] + pieces == [""] + rest && cs == [c] + rest
    ensures [c] + pieces == cs
  {
    assert ([""] + pieces)[1..] == pieces && ([""] + rest)[1..] == rest;
  }

  /** An entry spelled by such names. */
  lemma Spelled(item: Item, cs: seq<string>)
    requires Packable(item) && item.path == Spell(cs) && |item.path| < PATH_FIELD && cs != []
    requires forall c :: c in cs ==> c != "" && c != "." && c != ".." && '/' !in c
    ensures Collectable(item) && FullNames(item.path) == cs && Comps(item) == Shortened(cs)
    ensures |Comps(item)| == |cs| == Slashes(item.path)
  {
    hide Packable, Comps, Split, Slashes;
    SplitSpell(cs);
    assert ([""] + cs)[1..] == cs;
    CompsAre(item);
    DepthIs(item);
  }

  lemma TopName(name: string)
    ensures Spell([name]) == "/" + name
  {
    assert [name][1..] == [];
  }

  // ---------------------------------------------------------------- one file

  /** The smallest tree, one file in the root, is collected, and it fits. */
  lemma OneFileCollected(item: Item)
    requires item.file && item.path == "/a" && Packable(item)
    ensures Collected([item]) && Fitting(InitSpec(|INIT_DIRS|), [item])
  {
    hide Comps, Slashes, InitSpec, Packable, Split;
    TopName("a");
    Spelled(item, ["a"]);
    ShortNamePath();
    NotThere();
  }

  lemma ShortNamePath()
    ensures ValidPath(["a"])
  {
  }

  lemma NotThere()
    ensures ["a"] !in InitSpec(|INIT_DIRS|).look
  {
    InitFacts(|INIT_DIRS|);
    hide InitSpec, InitName;
    forall j | 0 <= j < |INIT_DIRS| ensures InitName(j) != "a" {
      ShortNameNew(j);
    }
    assert !InitPath(|INIT_DIRS|, ["a"]);
  }

  lemma ShortNameNew(j: nat)
    requires j < |INIT_DIRS|
    ensures InitName(j) != "a"
  {
    assert |INIT_DIRS[j].0| > 2;
  }

  // ---------------------------------------------------------------- names that are too long

  /** Two files whose names of 64 characters differ only in the last one are one file to the kernel. The
      path of the first leads to the contents of the second, and the first survives only if it was the same. */
  lemma TwinNames(base: Fs, name: string, x: Item, y: Item)
    requires OnlyDirs(base) && base.count < MAX_NODES && [name] !in base.look
    requires |name| == NAME_MAX && '/' !in name
    requires Packable(x) && Packable(y) && x.file && y.file && x.path == "/" + (name + "b") && y.path == "/" + (name + "c")
    requires AllPackable([x, y]) && |Image([x, y])| < TWO_64
    ensures Collected([x, y])
    ensures Survives(base, [x, y], 0) <==> Same(y, x)
    ensures HeaderOk(Image([x, y])) && Count(Image([x, y])) == 2
    ensures var r := MountRun(base, Image([x, y]), 2);
      && r.Some? && Canonical(x.path, "/", PATH_MAX) == Some([name])
      && [name] in r.value.look && Exact(r.value.look[[name]], y)
  {
    TwinPaths(name, x, y);
    var items := [x, y];
    TwinSurvives(base, name, items);
    hide Image, Canonical, MountRun, HeaderOk, Count, OnlyDirs, Collected, Survives, Exact, Packable, AllPackable, Comps;
    PackedFilesMount(base, items, 0);
    PackedFilesMount(base, items, 1);
    SameAsItself(y);
    PlaceIs(x);
    PlaceIs(y);
  }

  lemma SameAsItself(a: Item)
    ensures Same(a, a)
  {
  }

  lemma TwinPaths(name: string, x: Item, y: Item)
    requires |name| == NAME_MAX && '/' !in name
    requires Packable(x) && Packable(y) && x.path == "/" + (name + "b") && y.path == "/" + (name + "c")
    ensures Collectable(x) && Collectable(y) && Comps(x) == [name] && Comps(y) == [name]
    ensures Collected([x, y])
  {
    hide Comps, Packable, Slashes;
    LongTop(name, "b", x);
    LongTop(name, "c", y);
    hide Collectable, FullNames;
    assert [x, y][0] == x && [x, y][1] == y;
  }

  lemma LongTop(name: string, end: string, item: Item)
    requires |name| == NAME_MAX && '/' !in name && |end| == 1 && end != "/"
    requires Packable(item) && item.path == "/" + (name + end)
    ensures Collectable(item) && FullNames(item.path) == [name + end] && Comps(item) == [name] && Slashes(item.path) == 1
  {
    hide Comps, Packable, Slashes;
    assert end[0] != '/' && '/' !in end;
    TopName(name + end);
    Spelled(item, [name + end]);
    assert (name + end)[..NAME_MAX] == name;
    assert Shortened([name + end]) == [name];
  }

  lemma TwinSurvives(base: Fs, name: string, items: seq<Item>)
    requires OnlyDirs(base) && base.count < MAX_NODES && [name] !in base.look && |items| == 2
    requires items[0].file && items[1].file && Comps(items[0]) == [name] && Comps(items[1]) == [name]
    ensures Survives(base, items, 0) <==> Same(items[1], items[0])
    ensures Survives(base, items, 1)
  {
    hide Comps, Fresh, OnlyDirs;
    SameAsItself(items[1]);
    var q := [name];
    assert First(items, q) == 0 && LastFile(items, q, 2) == 1;
    TopAbove(base, items, q);
    NothingNew(base, items);
  }

  // ---------------------------------------------------------------- paths that are too deep

  /** `n` directories called "a", one in the other. */
  function Levels(n: nat): (cs: Path)
    ensures |cs| == n && forall c :: c in cs ==> c == "a"
  {
    seq(n, _ => "a")
  }

  lemma {:induction false} LevelsLength(n: nat)
    ensures |Spell(Levels(n))| == 2 * n
  {
    if n > 0 {
      LevelsLength(n - 1);
      assert Levels(n)[1..] == Levels(n - 1);
    }
  }

  /** A file below 32 directories has a path of no more than 66 characters; it is packed, and its path
      leads nowhere. */
  lemma TooManyLevels(base: Fs, items: seq<Item>)
    requires |items| == MAX_COMPONENTS + 1
    requires forall i :: 0 <= i < |items| ==> Packable(items[i]) && items[i].path == Spell(Levels(i + 1))
    requires forall i :: 0 <= i < |items| ==> (items[i].file <==> i == MAX_COMPONENTS)
    ensures Collected(items) && |items[MAX_COMPONENTS].path| == 66
    ensures Canonical(items[MAX_COMPONENTS].path, "/", PATH_MAX) == None && !Survives(base, items, MAX_COMPONENTS)
  {
    hide Spell, Packable, Comps, Slashes, FullNames, Canonical, Levels;
    forall i | 0 <= i < |items|
      ensures Collectable(items[i]) && FullNames(items[i].path) == Levels(i + 1) && Slashes(items[i].path) == |Comps(items[i])| == i + 1
    {
      LevelsLength(i + 1);
      Spelled(items[i], Levels(i + 1));
    }
    LevelsLength(MAX_COMPONENTS + 1);
    hide Collectable;
    forall i | 0 < i < |items| ensures HasParent(items, i) {
      InitLevels(i);
      assert FullNames(items[i - 1].path) == Init(FullNames(items[i].path));
    }
    PlaceIs(items[MAX_COMPONENTS]);
  }

  lemma InitLevels(n: nat)
    requires n > 0
    ensures Init(Levels(n + 1)) == Levels(n)
  {
  }
}

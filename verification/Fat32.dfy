/** The FAT32 volume that tools/mkinstallimg.py builds, the sizing that it shares with
    kernel/fs/fat32.c, and a reader of the finished image. */
module Fat32 {
  import opened Basics
  import opened Bytes
  import opened Wrappers

  const SECTOR := 512
  const RESERVED := 32
  const FATS := 2
  const ROOT := 2
  const EOC := 0x0fff_fff8
  const MIN_CLUSTERS := 65525
  const MAX_CLUSTERS := 0x0fff_fff5
  const MIN_BYTES := 32 * 1024 * 1024

  // ---------------------------------------------------------------- sizing

  datatype Geometry = Geometry(total: nat, spc: nat, fatSectors: nat, clusters: nat)

  /** Each table has an entry for every cluster and the two reserved numbers, tables and data fit the
      volume, and the number of clusters is one that FAT32 allows. */
  predicate Fits(g: Geometry) {
    Holds(g) && MIN_CLUSTERS <= g.clusters <= MAX_CLUSTERS
  }

  predicate Holds(g: Geometry) {
    && g.spc > 0
    && RESERVED + FATS * g.fatSectors <= g.total
    && (g.clusters + 2) * 4 <= g.fatSectors * SECTOR
    && RESERVED + FATS * g.fatSectors + g.clusters * g.spc <= g.total
  }

  /** The sectors of a table for `n` clusters. */
  function FatSectors(n: nat): nat {
    ((n + 2) * 4 + SECTOR - 1) / SECTOR
  }

  /** What is left for clusters beside tables that would do for the whole volume. */
  function TrialClusters(total: nat, spc: nat): int
    requires spc > 0
  {
    (total - RESERVED - FATS * FatSectors(total / spc)) / spc
  }

  predicate Good(total: nat, spc: nat)
    requires spc > 0
  {
    MIN_CLUSTERS <= TrialClusters(total, spc) <= MAX_CLUSTERS
  }

  lemma TrialFits(total: nat, spc: nat)
    requires spc > 0 && Good(total, spc)
    ensures var n := TrialClusters(total, spc); Fits(Geometry(total, spc, FatSectors(n), n))
  {
    var n := TrialClusters(total, spc);
    var room := total - RESERVED - FATS * FatSectors(total / spc);
    QuotientTimes(room, spc);
    QuotientTimes(total, spc);
    FewerClusters(n, total / spc, room, total, spc);
    FatMonotone(n, total / spc);
  }

  function Quotient(a: nat, d: nat): nat
    requires d > 0
  {
    a / d
  }

  lemma QuotientTimes(a: int, d: nat)
    requires d > 0
    ensures d * (a / d) <= a < d * (a / d) + d
  {
  }

  lemma FewerClusters(n: nat, all: nat, room: int, total: nat, spc: nat)
    requires spc > 0 && room <= total && spc * n <= room && total < spc * all + spc
    ensures n <= all
  {
    if n > all {
      MulMonotone(spc, all + 1, n);
    }
  }

  lemma MulMonotone(d: nat, a: nat, b: nat)
    requires a <= b
    ensures d * a <= d * b
  {
  }

  lemma FatMonotone(n: nat, m: nat)
    requires n <= m
    ensures FatSectors(n) <= FatSectors(m)
    ensures (n + 2) * 4 <= FatSectors(n) * SECTOR
  {
  }

  const CANDIDATES: seq<nat> := [1, 2, 4, 8, 16, 32, 64, 128]

  /** Of the candidates, the first that leaves a cluster count that FAT32 allows. */
  predicate Chosen(total: nat, spc: nat) {
    exists k :: 0 <= k < |CANDIDATES| && spc == CANDIDATES[k] && Good(total, spc) && forall j :: 0 <= j < k ==> !Good(total, CANDIDATES[j])
  }

  /** The geometry of a volume with so many sectors to a cluster. */
  function Sized(total: nat, spc: nat): Geometry
    requires spc > 0 && Good(total, spc)
  {
    var n := TrialClusters(total, spc);
    Geometry(total, spc, FatSectors(n), n)
  }

  /** The first cluster size with a cluster count that FAT32 allows. */
  method Sizing(sizeBytes: nat) returns (g: Option<Geometry>)
    requires sizeBytes >= MIN_BYTES
    ensures g.Some? ==>
      && Fits(g.value)
      && Chosen(sizeBytes / SECTOR, g.value.spc)
      && g.value == Sized(sizeBytes / SECTOR, g.value.spc)
    ensures g.None? ==> forall spc :: !Chosen(sizeBytes / SECTOR, spc)
  {
    hide Fits, TrialClusters, FatSectors;
    var total := sizeBytes / SECTOR;
    for k := 0 to |CANDIDATES|
      invariant forall j :: 0 <= j < k ==> !Good(total, CANDIDATES[j])
    {
      var spc := CANDIDATES[k];
      var n := TrialClusters(total, spc);
      if MIN_CLUSTERS <= n <= MAX_CLUSTERS {
        TrialFits(total, spc);
        return Some(Geometry(total, spc, FatSectors(n), n));
      }
    }
    g := None;
  }

  /** A volume of ordinary size can be formatted exactly from 66599 sectors on. */
  lemma SmallestVolume(total: nat)
    requires total <= MAX_CLUSTERS
    ensures (exists spc :: Chosen(total, spc)) <==> total >= 66599
  {
    if total >= 66599 {
      assert CANDIDATES[0] == 1 && Chosen(total, 1);
    } else {
      forall k | 0 <= k < |CANDIDATES| ensures !Good(total, CANDIDATES[k]) {
        FewerWithLarger(total, CANDIDATES[k]);
      }
    }
  }

  lemma FewerWithLarger(total: nat, spc: nat)
    requires total < 66599 && spc in CANDIDATES
    ensures TrialClusters(total, spc) < MIN_CLUSTERS
  {
    if spc > 1 {
      QuotientTimes(total, spc);
    }
  }

  /** The sizing of the kernel's own formatter, in 32-bit arithmetic. */
  function MkfsGeometry(size: nat): Option<Geometry> {
    if size < MIN_BYTES then None else
    var total := size / SECTOR % TWO_32;
    var spc := if total > 262144 then 8 else if total > 65536 then 4 else 1;
    var fat := Word32Sectors(total / spc);
    var clusters := (total - RESERVED - FATS * fat) % TWO_32 / spc;
    if clusters < MIN_CLUSTERS then None
    else Some(Geometry(total, spc, Word32Sectors(clusters), clusters))
  }

  function Word32Sectors(n: nat): nat {
    ((n + 2) * 4 + SECTOR - 1) % TWO_32 / SECTOR
  }

  /** Only the sector count modulo 2^32 matters. Accepted are exactly counts of at least 525258, and
      those below 34, where what is left beside the tables wraps. The choices of one and of four
      sectors to a cluster never leave enough clusters otherwise. The geometry holds together exactly
      when the count is at least 525258. */
  lemma MkfsAccepts(size: nat)
    requires size >= MIN_BYTES
    ensures var t := size / SECTOR % TWO_32;
      && (MkfsGeometry(size).Some? <==> t >= 525258 || t < 34)
      && (MkfsGeometry(size).Some? ==>
        var g := MkfsGeometry(size).value;
        && g.total == t
        && (Holds(g) <==> t >= 525258)
        && (t >= 525258 ==> g.spc == 8)
        && (525258 <= t <= 0x8000_0000 ==> Fits(g)))
  {
    hide Word32Sectors, FatSectors, Holds;
    var t := size / SECTOR % TWO_32;
    if t > 262144 {
      EightSectors(t);
    } else if t >= 34 {
      FewSectors(t, if t > 65536 then 4 else 1);
    } else {
      NoSectors(t);
    }
  }

  lemma FewSectors(total: nat, spc: nat)
    requires 34 <= total <= 262144 && spc == if total > 65536 then 4 else 1
    ensures (total - RESERVED - FATS * Word32Sectors(total / spc)) % TWO_32 / spc < MIN_CLUSTERS
  {
    var fat := Word32Sectors(total / spc);
    assert total / spc <= 65536;
    assert fat * SECTOR <= 4 * (total / spc) + 519 < fat * SECTOR + SECTOR;
    assert 0 <= total - RESERVED - FATS * fat < TWO_32;
    if spc == 4 {
      assert total - RESERVED - FATS * fat < 4 * MIN_CLUSTERS;
    } else {
      assert total - RESERVED - FATS * fat < MIN_CLUSTERS;
    }
  }

  lemma NoSectors(total: nat)
    requires total < 34
    ensures var n := (total - RESERVED - FATS * Word32Sectors(total)) % TWO_32;
      n >= MIN_CLUSTERS && !Holds(Geometry(total, 1, Word32Sectors(n), n))
  {
  }

  lemma EightSectors(total: nat)
    requires 262144 < total < TWO_32
    ensures var fat := FatSectors(total / 8);
      var n := (total - RESERVED - FATS * fat) / 8;
      && Word32Sectors(total / 8) == fat && Word32Sectors(n) == FatSectors(n)
      && 0 <= total - RESERVED - FATS * fat < TWO_32
      && (n >= MIN_CLUSTERS <==> total >= 525258)
      && Holds(Geometry(total, 8, FatSectors(n), n))
      && (total <= 0x8000_0000 ==> n <= MAX_CLUSTERS)
  {
    var x := total / 8;
    var fat := FatSectors(x);
    var n := (total - RESERVED - FATS * fat) / 8;
    TableBounds(x);
    assert n <= x;
    TableBounds(n);
    FatMonotone(n, x);
    Threshold(total, x, fat, n);
    assert n * 8 <= total - RESERVED - FATS * fat;
  }

  lemma TableBounds(n: nat)
    ensures SECTOR * FatSectors(n) <= 4 * n + 519 < SECTOR * FatSectors(n) + SECTOR
    ensures n < 0x2000_0000 ==> Word32Sectors(n) == FatSectors(n)
  {
  }

  lemma Threshold(total: nat, x: nat, fat: nat, n: nat)
    requires 8 * x <= total < 8 * x + 8 && SECTOR * fat <= 4 * x + 519 < SECTOR * fat + SECTOR
    requires 8 * n <= total - RESERVED - FATS * fat < 8 * n + 8
    ensures n >= MIN_CLUSTERS <==> total >= 525258
  {
    if 525248 <= total <= 525303 {
      assert fat == 513;
    }
  }

  /** From 2 TiB on an accepted volume is never formatted whole, and without room for its tables
      exactly when fewer than 34 sectors lie behind a multiple of 2 TiB. */
  lemma MkfsWraps(size: nat)
    requires size >= TWO_32 * SECTOR && MkfsGeometry(size).Some?
    ensures MkfsGeometry(size).value.total < size / SECTOR
    ensures !Holds(MkfsGeometry(size).value) <==> size / SECTOR % TWO_32 < 34
  {
    hide Holds;
    MkfsAccepts(size);
  }

  // ---------------------------------------------------------------- where things are

  function ClusterBytes(g: Geometry): nat {
    g.spc * SECTOR
  }

  /** The bytes of `n` clusters. */
  function Area(g: Geometry, n: nat): nat {
    n * ClusterBytes(g)
  }

  function DataStart(g: Geometry): nat {
    (RESERVED + FATS * g.fatSectors) * SECTOR
  }

  function ClusterOffset(g: Geometry, cluster: nat): nat
    requires cluster >= 2
  {
    (RESERVED + FATS * g.fatSectors + (cluster - 2) * g.spc) * SECTOR
  }

  function FatOffset(g: Geometry, k: nat): nat {
    (RESERVED + k * g.fatSectors) * SECTOR
  }

  lemma OffsetOf(g: Geometry, cluster: nat)
    requires cluster >= 2
    ensures ClusterOffset(g, cluster) == DataStart(g) + Area(g, cluster - 2)
    ensures ClusterOffset(g, cluster + 1) == ClusterOffset(g, cluster) + ClusterBytes(g)
  {
    assert (cluster - 2) * ClusterBytes(g) == (cluster - 2) * g.spc * SECTOR;
    assert (cluster + 1 - 2) * g.spc == (cluster - 2) * g.spc + g.spc;
  }

  lemma OffsetPlus(g: Geometry, cluster: nat, n: nat)
    requires cluster >= 2
    ensures ClusterOffset(g, cluster + n) == ClusterOffset(g, cluster) + Area(g, n)
  {
    OffsetOf(g, cluster);
    OffsetOf(g, cluster + n);
    assert (cluster + n - 2) * ClusterBytes(g) == (cluster - 2) * ClusterBytes(g) + n * ClusterBytes(g);
  }

  /** Tables, then clusters, one after the other and inside the volume. */
  lemma Regions(g: Geometry)
    requires Holds(g)
    ensures FatOffset(g, 0) == RESERVED * SECTOR
    ensures FatOffset(g, 0) + 4 * (g.clusters + 2) <= FatOffset(g, 1)
    ensures FatOffset(g, 1) + 4 * (g.clusters + 2) <= DataStart(g)
    ensures DataStart(g) == ClusterOffset(g, 2) && DataStart(g) <= g.total * SECTOR
    ensures ClusterOffset(g, g.clusters + 2) <= g.total * SECTOR
  {
  }

  // ---------------------------------------------------------------- the volume being built

  /** A chain of consecutive clusters and the bytes that they hold. */
  datatype Chain = Chain(first: nat, count: nat, contents: seq<byte>)

  /** The chains follow each other from the root directory to the next free cluster. */
  predicate Consecutive(chains: seq<Chain>, next: nat) {
    && |chains| > 0
    && chains[0].first == ROOT
    && (forall i :: 0 <= i < |chains| ==> chains[i].count > 0)
    && (forall i :: 0 < i < |chains| ==> chains[i].first == chains[i - 1].first + chains[i - 1].count)
    && next == chains[|chains| - 1].first + chains[|chains| - 1].count
  }

  lemma {:induction false} Ordered(chains: seq<Chain>, next: nat, i: nat, j: nat)
    requires Consecutive(chains, next) && i < j < |chains|
    ensures ROOT <= chains[i].first && chains[i].first + chains[i].count <= chains[j].first
    ensures chains[j].first + chains[j].count <= next
    decreases j
  {
    if i > 0 {
      Ordered(chains, next, i - 1, i);
    }
    if j > i + 1 {
      Ordered(chains, next, i, j - 1);
    }
    Reaches(chains, next, j);
  }

  lemma {:induction false} Reaches(chains: seq<Chain>, next: nat, j: nat)
    requires Consecutive(chains, next) && j < |chains|
    ensures chains[j].first + chains[j].count <= next
    decreases |chains| - j
  {
    if j < |chains| - 1 {
      Reaches(chains, next, j + 1);
    }
  }

  /** In the table, a chain leads through its clusters to the end mark. */
  predicate Leads(fat: seq<nat>, c: Chain) {
    && 2 <= c.first && c.count > 0 && c.first + c.count <= |fat|
    && forall k :: c.first <= k < c.first + c.count ==> fat[k] == (if k + 1 < c.first + c.count then k + 1 else EOC)
  }

  /** In the data area, its clusters hold its contents. */
  predicate Stored(g: Geometry, image: seq<byte>, c: Chain) {
    && 2 <= c.first
    && |c.contents| == Area(g, c.count)
    && At(image, ClusterOffset(g, c.first), c.contents)
  }

  lemma StoredBounds(g: Geometry, image: seq<byte>, c: Chain)
    requires Stored(g, image, c)
    ensures |c.contents| == Area(g, c.count) && ClusterOffset(g, c.first) + |c.contents| <= |image|
  {
  }

  predicate Blank(image: seq<byte>, from: nat) {
    forall k :: from <= k < |image| ==> image[k] == 0
  }

  /** The contents of a chain of `n` bytes after `data` was written to it. */
  function Filled(data: seq<byte>, n: nat): (r: seq<byte>)
    ensures |r| == n
  {
    if |data| <= n then data + Zeros(n - |data|) else data[..n]
  }

  /** The table of a volume with free clusters from `next` on. */
  predicate TableOk(g: Geometry, fat: seq<nat>, next: nat) {
    && |fat| == g.clusters + 2 && fat[0] == 0x0fff_fff8 && fat[1] == 0x0fff_ffff
    && next <= |fat|
    && forall k :: next <= k < |fat| ==> fat[k] == 0
  }

  ghost predicate Sound(g: Geometry, image: seq<byte>, fat: seq<nat>, next: nat, chains: seq<Chain>) {
    && Fits(g) && |image| >= g.total * SECTOR
    && TableOk(g, fat, next)
    && Consecutive(chains, next)
    && (forall i :: 0 <= i < |chains| ==> Leads(fat, chains[i]))
    && (forall i :: 0 <= i < |chains| ==> Stored(g, image, chains[i]))
    && next >= 2 && Blank(image, ClusterOffset(g, next))
  }

  lemma EmptyVolume(g: Geometry, image: seq<byte>, fat: seq<nat>, chains: seq<Chain>)
    requires Fits(g) && |image| >= g.total * SECTOR && Blank(image, DataStart(g))
    requires TableOk(g, fat, ROOT + 1) && fat[ROOT] == EOC
    requires chains == [Chain(ROOT, 1, Zeros(ClusterBytes(g)))]
    ensures Sound(g, image, fat, ROOT + 1, chains)
  {
    hide ClusterOffset, DataStart, FatOffset;
    Regions(g);
    OffsetPlus(g, 2, 1);
    OffsetPlus(g, 3, g.clusters - 1);
  }

  /** The table after clusters `start` to `last` were linked into a chain. */
  predicate Extended(fat: seq<nat>, fat': seq<nat>, start: nat, last: nat) {
    && |fat'| == |fat| && start < last <= |fat|
    && (forall k :: 0 <= k < |fat| && !(start <= k < last) ==> fat'[k] == fat[k])
    && (forall k :: start <= k < last ==> fat'[k] == (if k + 1 < last then k + 1 else EOC))
  }

  lemma Allocated(g: Geometry, image: seq<byte>, fat: seq<nat>, next: nat, chains: seq<Chain>, fat': seq<nat>, last: nat)
    requires Sound(g, image, fat, next, chains) && Extended(fat, fat', next, last)
    ensures Sound(g, image, fat', last, chains + [Chain(next, last - next, Zeros(Area(g, last - next)))])
  {
    hide ClusterOffset, Stored, Leads, Fits, Blank, ClusterBytes, Area;
    var added := Chain(next, last - next, Zeros(Area(g, last - next)));
    OldLinks(fat, next, chains, fat', last);
    NewLinks(fat, fat', next, last, added);
    AddedStored(g, image, next, last, added);
  }

  lemma OldLinks(fat: seq<nat>, next: nat, chains: seq<Chain>, fat': seq<nat>, last: nat)
    requires Consecutive(chains, next) && Extended(fat, fat', next, last)
    requires forall i :: 0 <= i < |chains| ==> Leads(fat, chains[i])
    ensures forall i :: 0 <= i < |chains| ==> Leads(fat', chains[i])
  {
    forall i | 0 <= i < |chains| ensures Leads(fat', chains[i]) {
      Reaches(chains, next, i);
    }
  }

  lemma NewLinks(fat: seq<nat>, fat': seq<nat>, next: nat, last: nat, added: Chain)
    requires next >= 2 && Extended(fat, fat', next, last) && added.first == next && added.count == last - next
    ensures Leads(fat', added)
  {
  }

  /** Fresh clusters hold zeros, because nothing was ever written there. */
  lemma AddedStored(g: Geometry, image: seq<byte>, next: nat, last: nat, added: Chain)
    requires Fits(g) && |image| >= g.total * SECTOR && 2 <= next < last <= g.clusters + 2
    requires Blank(image, ClusterOffset(g, next))
    requires added == Chain(next, last - next, Zeros(Area(g, last - next)))
    ensures Stored(g, image, added) && Blank(image, ClusterOffset(g, last))
  {
    hide ClusterOffset, DataStart, FatOffset, ClusterBytes, Area, Holds, At, Blank;
    Regions(g);
    OffsetPlus(g, next, last - next);
    OffsetPlus(g, last, g.clusters + 2 - last);
    BlankAt(image, ClusterOffset(g, next), Area(g, last - next));
  }

  lemma BlankAt(image: seq<byte>, at: nat, n: nat)
    requires Blank(image, at) && at + n <= |image|
    ensures At(image, at, Zeros(n)) && Blank(image, at + n)
  {
  }

  lemma OffsetOrder(g: Geometry, a: nat, n: nat, b: nat)
    requires 2 <= a && a + n <= b
    ensures ClusterOffset(g, a) + Area(g, n) <= ClusterOffset(g, b)
  {
    hide ClusterOffset, ClusterBytes, Area;
    OffsetPlus(g, a, n);
    OffsetPlus(g, a + n, b - a - n);
  }

  /** Writing one chain leaves all others as they were. */
  lemma Written(g: Geometry, image: seq<byte>, fat: seq<nat>, next: nat, chains: seq<Chain>, i: nat, bytes: seq<byte>)
    requires Sound(g, image, fat, next, chains) && i < |chains| && |bytes| == |chains[i].contents|
    ensures ClusterOffset(g, chains[i].first) + |bytes| <= |image|
    ensures Sound(g, Over(image, ClusterOffset(g, chains[i].first), bytes), fat, next, chains[i := chains[i].(contents := bytes)])
  {
    hide ClusterOffset, Leads, Fits, ClusterBytes, Area, Over, TableOk, Consecutive, Blank;
    var c := chains[i];
    assert Stored(g, image, c) && Leads(fat, c);
    var at := ClusterOffset(g, c.first);
    Reaches(chains, next, i);
    OffsetOrder(g, c.first, c.count, next);
    SameShape(fat, next, chains, i, bytes);
    AllStored(g, image, fat, next, chains, i, bytes);
    BlankAfter(image, at, bytes, ClusterOffset(g, next));
  }

  lemma SameShape(fat: seq<nat>, next: nat, chains: seq<Chain>, i: nat, bytes: seq<byte>)
    requires Consecutive(chains, next) && i < |chains|
    requires forall j :: 0 <= j < |chains| ==> Leads(fat, chains[j])
    ensures var chains' := chains[i := chains[i].(contents := bytes)];
      Consecutive(chains', next) && forall j :: 0 <= j < |chains'| ==> Leads(fat, chains'[j])
  {
  }

  lemma AfterBoot(g: Geometry, cluster: nat, image: seq<byte>, bytes: seq<byte>)
    requires cluster >= 2 && ClusterOffset(g, cluster) + |bytes| <= |image|
    ensures Over(image, ClusterOffset(g, cluster), bytes)[..SECTOR] == image[..SECTOR]
  {
    OffsetOf(g, cluster);
  }

  lemma BlankAfter(image: seq<byte>, at: nat, bytes: seq<byte>, from: nat)
    requires at + |bytes| <= from && at + |bytes| <= |image| && Blank(image, from)
    ensures Blank(Over(image, at, bytes), from)
  {
  }

  lemma AllStored(g: Geometry, image: seq<byte>, fat: seq<nat>, next: nat, chains: seq<Chain>, i: nat, bytes: seq<byte>)
    requires Sound(g, image, fat, next, chains) && i < |chains| && |bytes| == |chains[i].contents|
    requires ClusterOffset(g, chains[i].first) + |bytes| <= |image|
    ensures var image' := Over(image, ClusterOffset(g, chains[i].first), bytes);
      var chains' := chains[i := chains[i].(contents := bytes)];
      forall j :: 0 <= j < |chains'| ==> Stored(g, image', chains'[j])
  {
    hide ClusterOffset, Leads, Fits, ClusterBytes, Area, Over, TableOk, Blank, At;
    var at := ClusterOffset(g, chains[i].first);
    OverInside(image, at, bytes);
    assert Stored(g, image, chains[i]);
    var chains' := chains[i := chains[i].(contents := bytes)];
    forall j | 0 <= j < |chains'| ensures Stored(g, Over(image, at, bytes), chains'[j]) {
      if j != i {
        assert Stored(g, image, chains[j]);
        Apart(g, chains, next, i, j);
        OverOutside(image, at, bytes, ClusterOffset(g, chains[j].first), chains[j].contents);
      }
    }
  }

  lemma Apart(g: Geometry, chains: seq<Chain>, next: nat, i: nat, j: nat)
    requires Consecutive(chains, next) && i < |chains| && j < |chains| && i != j
    ensures 2 <= chains[i].first && 2 <= chains[j].first
    ensures
      || ClusterOffset(g, chains[i].first) + Area(g, chains[i].count) <= ClusterOffset(g, chains[j].first)
      || ClusterOffset(g, chains[j].first) + Area(g, chains[j].count) <= ClusterOffset(g, chains[i].first)
  {
    hide ClusterOffset, ClusterBytes, Area;
    var c, d := chains[i], chains[j];
    if i < j {
      Ordered(chains, next, i, j);
      OffsetOrder(g, c.first, c.count, d.first);
    } else {
      Ordered(chains, next, j, i);
      OffsetOrder(g, d.first, d.count, c.first);
    }
  }

  // ---------------------------------------------------------------- the boot sector

  /** Bytes 11 to 32: the shape of the volume. */
  function BootShape(g: Geometry): (r: seq<byte>)
    ensures |r| == 21
  {
    ToLe(SECTOR, 2) + ToLe(g.spc, 1) + ToLe(RESERVED, 2) + ToLe(FATS, 1) + ToLe(0, 2) + ToLe(0, 2) + [0xf8] + ToLe(0, 2)
    + ToLe(63, 2) + ToLe(255, 2) + ToLe(0, 4)
  }

  /** Bytes 32 to 48: its sizes and the root directory. */
  function BootSizes(g: Geometry): (r: seq<byte>)
    ensures |r| == 16
  {
    ToLe(g.total, 4) + ToLe(g.fatSectors, 4) + ToLe(0, 2) + ToLe(0, 2) + ToLe(ROOT, 4)
  }

  const JUMP_AND_NAME: seq<byte> := [0xeb, 0x58, 0x90, 0x54, 0x49, 0x52, 0x41, 0x4d, 0x49, 0x53, 0x55]

  function BootHead(g: Geometry): (r: seq<byte>)
    ensures |r| == 48
  {
    JUMP_AND_NAME + BootShape(g) + BootSizes(g)
  }

  function BootRest(title: seq<byte>): (r: seq<byte>)
    requires |title| == 11
    ensures |r| == SECTOR - 48
  {
    ToLe(1, 2) + ToLe(6, 2) + Zeros(12) + [0x80, 0, 0x29] + ToLe(0x544e_5531, 4) + title
    + [0x46, 0x41, 0x54, 0x33, 0x32, 0x20, 0x20, 0x20] + Zeros(420) + [0x55, 0xaa]
  }

  function BootSector(g: Geometry, title: seq<byte>): (r: seq<byte>)
    requires |title| == 11
    ensures |r| == SECTOR
  {
    BootHead(g) + BootRest(title)
  }

  /** The image after formatting: the boot sector and its copy in sector 6. */
  function Formatted(g: Geometry, size: nat, title: seq<byte>): (r: seq<byte>)
    requires Fits(g) && g.total * SECTOR <= size && |title| == 11
    ensures |r| == size && r[..SECTOR] == BootSector(g, title) && Blank(r, DataStart(g))
  {
    var boot := BootSector(g, title);
    boot + Zeros(5 * SECTOR) + boot + Zeros(size - 7 * SECTOR)
  }

  /** What a reader takes from the boot sector; the number of clusters follows from the rest. */
  function ReadVolume(image: seq<byte>): Option<Geometry> {
    if |image| < SECTOR then None else
    var spc, total, sectors := Le(image[13..14]), Le(image[32..36]), Le(image[36..40]);
    if Le(image[11..13]) != SECTOR || spc == 0 || Le(image[14..16]) != RESERVED || Le(image[16..17]) != FATS || Le(image[44..48]) != ROOT
       || total < RESERVED + FATS * sectors
    then None
    else Some(Geometry(total, spc, sectors, Quotient(total - RESERVED - FATS * sectors, spc)))
  }

  /** Table `k`'s entry for a cluster. */
  function FatEntry(image: seq<byte>, g: Geometry, k: nat, cluster: nat): Option<nat> {
    var at := FatOffset(g, k) + 4 * cluster;
    if at + 4 <= |image| then Some(Le(image[at..at + 4]) % 0x1000_0000) else None
  }

  /** The bytes of the chain that starts at `cluster`, if it ends within `fuel` clusters. */
  function Follow(image: seq<byte>, g: Geometry, k: nat, cluster: nat, fuel: nat): Option<seq<byte>>
    decreases fuel
  {
    if fuel == 0 || cluster < 2 then None else
    var entry := FatEntry(image, g, k, cluster);
    var at := ClusterOffset(g, cluster);
    if entry.None? || at + ClusterBytes(g) > |image| then None else
    var here := image[at..at + ClusterBytes(g)];
    if entry.value >= EOC then Some(here) else
    var rest := Follow(image, g, k, entry.value, fuel - 1);
    if rest.None? then None else Some(here + rest.value)
  }

  function FatBytes(fat: seq<nat>): (r: seq<byte>)
    ensures |r| == 4 * |fat|
  {
    if fat == [] then [] else FatBytes(fat[..|fat| - 1]) + ToLe(fat[|fat| - 1] % 0x1000_0000, 4)
  }

  lemma {:induction false} FatBytesAt(fat: seq<nat>, c: nat)
    requires c < |fat|
    ensures FatBytes(fat)[4 * c..4 * c + 4] == ToLe(fat[c] % 0x1000_0000, 4)
  {
    if c < |fat| - 1 {
      FatBytesAt(fat[..|fat| - 1], c);
    }
  }

  /** Table `k` of the image is `fat`. */
  predicate TableStored(image: seq<byte>, g: Geometry, k: nat, fat: seq<nat>) {
    At(image, FatOffset(g, k), FatBytes(fat))
  }

  lemma EntryRead(image: seq<byte>, g: Geometry, k: nat, fat: seq<nat>, c: nat)
    requires TableStored(image, g, k, fat) && c < |fat| && fat[c] < 0x1000_0000
    ensures FatEntry(image, g, k, c) == Some(fat[c])
  {
    hide FatOffset, FatBytes, ToLe, Le, Pow256;
    FatBytesAt(fat, c);
    Pow256Words();
    LeToLe(fat[c], 4);
    Nested(image, FatOffset(g, k), FatBytes(fat), 4 * c, 4 * c + 4, ToLe(fat[c], 4));
  }

  /** Following the table from cluster `j` of a chain on gives the rest of its contents. */
  lemma {:induction false} FollowFrom(image: seq<byte>, g: Geometry, k: nat, fat: seq<nat>, c: Chain, j: nat, fuel: nat)
    requires TableStored(image, g, k, fat) && Stored(g, image, c) && Leads(fat, c) && |fat| <= 0x0fff_fff8
    requires j < c.count && fuel >= c.count - j
    ensures Area(g, j) <= |c.contents|
    ensures Follow(image, g, k, c.first + j, fuel) == Some(c.contents[Area(g, j)..])
    decreases c.count - j
  {
    hide FatEntry, ClusterOffset, ClusterBytes, Area, TableStored;
    var cb := ClusterBytes(g);
    NextEnd(g, j, c.count);
    OffsetPlus(g, c.first, j);
    EntryRead(image, g, k, fat, c.first + j);
    ClusterOf(image, ClusterOffset(g, c.first), c.contents, Area(g, j), cb);
    if j + 1 < c.count {
      FollowFrom(image, g, k, fat, c, j + 1, fuel - 1);
    } else {
      assert Area(g, j + 1) == |c.contents|;
    }
  }

  lemma ClusterOf(image: seq<byte>, at: nat, contents: seq<byte>, from: nat, cb: nat)
    requires at + |contents| <= |image| && image[at..at + |contents|] == contents && from + cb <= |contents|
    ensures image[at + from..at + from + cb] + contents[from + cb..] == contents[from..]
    ensures from + cb == |contents| ==> image[at + from..at + from + cb] == contents[from..]
  {
  }

  class Builder {
    const g: Geometry
    const title: seq<byte>
    var image: seq<byte>
    var fat: seq<nat>
    var nextFree: nat
    ghost var chains: seq<Chain>

    ghost predicate Valid()
      reads this
    {
      && Sound(g, image, fat, nextFree, chains)
      && g.total < TWO_32 && g.spc < 256 && |title| == 11
      && image[..SECTOR] == BootSector(g, title)
    }

    /** An empty volume: the root directory is a cluster of zeros. */
    constructor (geometry: Geometry, sizeBytes: nat, volumeTitle: seq<byte>)
      requires Fits(geometry) && geometry.total == sizeBytes / SECTOR && geometry.total < TWO_32
      requires geometry.spc < 256 && |volumeTitle| == 11
      ensures Valid() && g == geometry && |image| == sizeBytes && title == volumeTitle
      ensures chains == [Chain(ROOT, 1, Zeros(ClusterBytes(g)))]
    {
      g := geometry;
      title := volumeTitle;
      image := Formatted(geometry, sizeBytes, volumeTitle);
      fat := [0x0fff_fff8, 0x0fff_ffff, EOC] + seq(geometry.clusters - 1, _ => 0);
      nextFree := ROOT + 1;
      chains := [Chain(ROOT, 1, Zeros(ClusterBytes(geometry)))];
      new;
      hide Sound, Formatted, BootSector;
      EmptyVolume(g, image, fat, chains);
    }

    /** Clusters for `byteCount` bytes, at least one; nothing changes when they run out. */
    method AllocateChain(byteCount: nat) returns (first: Option<nat>)
      requires Valid()
      modifies this
      ensures Valid() && image == old(image)
      ensures first.Some? <==> old(nextFree) + Needed(g, byteCount) <= |fat|
      ensures first.None? ==> fat == old(fat) && nextFree == old(nextFree) && chains == old(chains)
      ensures first.Some? ==>
        && first.value == old(nextFree)
        && chains == old(chains) + [Chain(first.value, Needed(g, byteCount), Zeros(Area(g, Needed(g, byteCount))))]
    {
      hide Needed, BootSector, ClusterBytes, Area, Extended, Consecutive, Leads, Stored, Blank, ClusterOffset;
      var need := Needed(g, byteCount);
      var start, last := nextFree, nextFree + need;
      if last > |fat| {
        return None;
      }
      hide Sound;
      ghost var was := fat;
      LinkClusters(start, last);
      Allocated(g, image, was, start, chains, fat, last);
      nextFree := last;
      chains := chains + [Chain(start, need, Zeros(Area(g, need)))];
      first := Some(start);
    }

    method LinkClusters(start: nat, last: nat)
      requires start < last <= |fat|
      modifies this`fat
      ensures Extended(old(fat), fat, start, last)
    {
      for cluster := start to last
        invariant |fat| == old(|fat|)
        invariant forall k :: 0 <= k < |fat| && !(start <= k < cluster) ==> fat[k] == old(fat[k])
        invariant forall k :: start <= k < cluster ==> fat[k] == (if k + 1 < last then k + 1 else EOC)
      {
        fat := fat[cluster := if cluster + 1 < last then cluster + 1 else EOC];
      }
    }

    /** Write `data` along the chain `i`; what is left of its clusters is filled with zeros. Data
        that does not fit is cut off, and the call fails. */
    method WriteChain(firstCluster: nat, data: seq<byte>, ghost i: nat) returns (ok: bool)
      requires Valid() && i < |chains| && chains[i].first == firstCluster
      modifies this
      ensures Valid() && fat == old(fat) && nextFree == old(nextFree)
      ensures ok <==> |data| <= |old(chains[i].contents)|
      ensures chains == old(chains)[i := old(chains[i]).(contents := Filled(data, |old(chains[i].contents)|))]
    {
      hide Stored, BootSector, Filled, ClusterOffset;
      ghost var c := chains[i];
      assert Leads(fat, c) && Stored(g, image, c);
      Written(g, image, fat, nextFree, chains, i, Filled(data, |c.contents|));
      AfterBoot(g, c.first, image, Filled(data, |c.contents|));
      ok := WriteClusters(firstCluster, data, c);
      chains := chains[i := c.(contents := Filled(data, |c.contents|))];
    }

    /** The loop along the chain. */
    method WriteClusters(firstCluster: nat, data: seq<byte>, ghost c: Chain) returns (ok: bool)
      requires Leads(fat, c) && Stored(g, image, c) && firstCluster == c.first && |fat| <= EOC
      modifies this`image
      ensures image == Over(old(image), ClusterOffset(g, c.first), Filled(data, |c.contents|))
      ensures ok <==> |data| <= |c.contents|
    {
      hide ClusterOffset, ClusterBytes, Area, Stored, Filled, Over, At;
      StoredBounds(g, image, c);
      ghost var was := image;
      ghost var n := |c.contents|;
      ghost var at := ClusterOffset(g, c.first);
      var cb := ClusterBytes(g);
      var remaining := data;
      var cluster := firstCluster;
      ghost var k := 0;
      NoArea(g);
      StartOver(was, at, Filled(data, n));
      while true
        invariant cluster == c.first + k && 0 <= k < c.count
        invariant Area(g, k) <= n && at + n <= |was|
        invariant image == Over(was, at, Filled(data, n)[..Area(g, k)])
        invariant remaining == Rest(data, Area(g, k))
        decreases c.count - k
      {
        NextEnd(g, k, c.count);
        OffsetPlus(g, c.first, k);
        remaining := WriteCluster(cluster, remaining, was, at, data, n, Area(g, k));
        k := k + 1;
        var next := fat[cluster];
        if next >= EOC {
          break;
        }
        cluster := next;
      }
      assert Filled(data, n)[..Area(g, k)] == Filled(data, n);
      ok := remaining == [];
    }

    /** One cluster: the next bytes of the data, and zeros where they run out. */
    method WriteCluster(cluster: nat, data: seq<byte>, ghost was: seq<byte>, ghost at: nat, ghost all: seq<byte>, ghost n: nat, ghost from: nat)
      returns (rest: seq<byte>)
      requires cluster >= 2 && ClusterOffset(g, cluster) == at + from
      requires from + ClusterBytes(g) <= n && at + n <= |was|
      requires image == Over(was, at, Filled(all, n)[..from])
      requires data == Rest(all, from)
      modifies this`image
      ensures image == Over(was, at, Filled(all, n)[..from + ClusterBytes(g)])
      ensures rest == Rest(all, from + ClusterBytes(g))
    {
      hide ClusterOffset, ClusterBytes, Area, Filled, Over;
      var cb := ClusterBytes(g);
      var chunk := if |data| < cb then data else data[..cb];
      rest := data[|chunk|..];
      var offset := ClusterOffset(g, cluster);
      image := Over(image, offset, chunk);
      image := Over(image, offset + |chunk|, Zeros(cb - |chunk|));
      TwoWrites(was, at, Filled(all, n)[..from], chunk, Zeros(cb - |chunk|));
      FilledStep(all, n, from, cb, chunk);
    }

    /** Write both tables and the hint, and hand out the image. A reader that takes the layout from
        the boot sector finds every chain, through either table, with the bytes it holds. */
    method Finalize() returns (out: seq<byte>)
      requires Valid()
      modifies this`image
      ensures Valid() && out == image
      ensures TableStored(out, g, 0, fat) && TableStored(out, g, 1, fat)
      ensures ReadVolume(out) == Some(Derived(g))
      ensures forall k, i :: 0 <= k < FATS && 0 <= i < |chains| ==>
        Follow(out, Derived(g), k, chains[i].first, |fat|) == Some(chains[i].contents)
    {
      ghost var was := image;
      Regions(g);
      hide Sound, BootSector, FatOffset, DataStart, ClusterOffset, Derived, Follow, ReadVolume, Over;
      WriteTables();
      ghost var tables := image;
      image := Over(image, SECTOR + 492, ToLe(nextFree, 4));
      image := Over(image, 7 * SECTOR, image[SECTOR..2 * SECTOR]);
      HintKept(g, tables, fat, ToLe(nextFree, 4), image);
      KeptSound(g, was, image, fat, nextFree, chains);
      BootRead(g, title, image);
      AllFollow(g, image, fat, nextFree, chains);
      out := image;
    }

    method WriteTables()
      requires Valid()
      modifies this`image
      ensures Kept(g, old(image), image)
      ensures TableStored(image, g, 0, fat) && TableStored(image, g, 1, fat)
    {
      hide Sound, FatBytes, FatOffset, DataStart, Fits, Holds, At, Kept, BootSector, TableStored;
      ghost var was := image;
      SoundParts(g, image, fat, nextFree, chains);
      KeptStart(g, image);
      for k := 0 to FATS
        invariant Kept(g, was, image) && |image| == |was|
        invariant k >= 1 ==> TableStored(image, g, 0, fat)
        invariant k >= 2 ==> TableStored(image, g, 1, fat)
      {
        ghost var before := image;
        WriteTable(k);
        KeptTrans(g, was, before, image);
      }
    }

    method WriteTable(k: nat)
      requires Holds(g) && |fat| == g.clusters + 2 && |image| >= g.total * SECTOR && k < FATS
      modifies this`image
      ensures Kept(g, old(image), image) && TableStored(image, g, k, fat)
      ensures k == 1 && TableStored(old(image), g, 0, fat) ==> TableStored(image, g, 0, fat)
    {
      Regions(g);
      hide FatBytes, FatOffset, DataStart, At, Kept, Over;
      ghost var before := image;
      var fatBytes := FatBytes(fat);
      image := Over(image, FatOffset(g, k), fatBytes);
      OverKept(g, before, FatOffset(g, k), fatBytes);
      OverInside(before, FatOffset(g, k), fatBytes);
      if k == 1 && TableStored(before, g, 0, fat) {
        OverOutside(before, FatOffset(g, k), fatBytes, FatOffset(g, 0), fatBytes);
      }
    }
  }

  /** The boot sector and the data area are as before. */
  predicate Kept(g: Geometry, s: seq<byte>, r: seq<byte>) {
    && SECTOR <= DataStart(g) <= |s| == |r|
    && r[..SECTOR] == s[..SECTOR]
    && r[DataStart(g)..] == s[DataStart(g)..]
  }

  function Rest(data: seq<byte>, from: nat): seq<byte> {
    if from <= |data| then data[from..] else []
  }

  lemma NoArea(g: Geometry)
    ensures Area(g, 0) == 0
  {
  }

  lemma NextEnd(g: Geometry, k: nat, count: nat)
    requires k < count
    ensures Area(g, k + 1) == Area(g, k) + ClusterBytes(g) <= Area(g, count)
  {
    MulMonotone(ClusterBytes(g), k + 1, count);
  }

  lemma StartOver(s: seq<byte>, at: nat, t: seq<byte>)
    requires at <= |s|
    ensures s == Over(s, at, t[..0])
  {
  }

  lemma TwoWrites(s: seq<byte>, at: nat, a: seq<byte>, b: seq<byte>, c: seq<byte>)
    requires at + |a| + |b| + |c| <= |s|
    ensures Over(Over(Over(s, at, a), at + |a|, b), at + |a| + |b|, c) == Over(s, at, a + b + c)
  {
  }

  lemma FilledStep(data: seq<byte>, n: nat, from: nat, cb: nat, chunk: seq<byte>)
    requires from + cb <= n
    requires chunk == if |Rest(data, from)| < cb then Rest(data, from) else Rest(data, from)[..cb]
    ensures Filled(data, n)[..from] + chunk + Zeros(cb - |chunk|) == Filled(data, n)[..from + cb]
    ensures Rest(data, from)[|chunk|..] == Rest(data, from + cb)
  {
  }

  /** The clusters that so many bytes take. */
  function Needed(g: Geometry, byteCount: nat): (n: nat)
    requires g.spc > 0
    ensures n >= 1 && Area(g, n) >= byteCount
  {
    var n := (byteCount + ClusterBytes(g) - 1) / ClusterBytes(g);
    QuotientTimes(byteCount + ClusterBytes(g) - 1, ClusterBytes(g));
    if n > 1 then n else 1
  }

  // ---------------------------------------------------------------- the finished image

  /** The geometry as a reader of the boot sector sees it. */
  function Derived(g: Geometry): Geometry
    requires g.spc > 0 && RESERVED + FATS * g.fatSectors <= g.total
  {
    g.(clusters := Quotient(g.total - RESERVED - FATS * g.fatSectors, g.spc))
  }

  /** A standard reader may count a few clusters more than the builder did, never fewer; the tables
      have entries for all of them exactly up to this many sectors. */
  lemma DerivedClusters(total: nat, spc: nat)
    requires spc > 0 && Good(total, spc)
    ensures var g := Sized(total, spc);
      && Holds(g)
      && g.clusters <= Derived(g).clusters
      && (Holds(Derived(g)) <==> total <= spc * (128 * g.fatSectors - 1) + 2 * g.fatSectors + 31)
  {
    hide FatSectors, TrialClusters;
    TrialFits(total, spc);
    var g := Sized(total, spc);
    DerivedOf(g);
  }

  lemma DerivedOf(g: Geometry)
    requires Holds(g)
    ensures g.clusters <= Derived(g).clusters
    ensures Holds(Derived(g)) <==> g.total <= g.spc * (128 * g.fatSectors - 1) + 2 * g.fatSectors + 31
  {
    var room := g.total - RESERVED - FATS * g.fatSectors;
    var d := Quotient(room, g.spc);
    QuotientTimes(room, g.spc);
    AtLeast(g.spc, g.clusters, d, room);
    QuotientBelow(room, g.spc, 128 * g.fatSectors - 1);
    assert d < 128 * g.fatSectors - 1 <==> (d + 2) * 4 <= g.fatSectors * SECTOR;
    DerivedInside(g, d, room);
  }

  lemma DerivedInside(g: Geometry, d: nat, room: nat)
    requires g.spc > 0 && room == g.total - RESERVED - FATS * g.fatSectors && g.spc * d <= room && d == Quotient(room, g.spc)
    ensures Holds(Derived(g)) <==> (d + 2) * 4 <= g.fatSectors * SECTOR
  {
    hide Quotient;
    assert d * g.spc == g.spc * d;
  }

  lemma QuotientBelow(a: nat, d: nat, q: int)
    requires d > 0
    ensures a / d < q <==> a < d * q
  {
    QuotientTimes(a, d);
    if a / d < q {
      MulMonotone(d, a / d + 1, q);
    } else if q > 0 {
      MulMonotone(d, q, a / d);
    } else {
      MulMonotone(d, 0, -q);
    }
  }

  /** Of the volumes that can be formatted, only some below 522111 sectors get tables for all the
      clusters that a reader counts. Above, rounding in two passes always leaves too many sectors over. */
  lemma ReadableVolumes(total: nat, spc: nat)
    requires Chosen(total, spc) && total < TWO_32
    ensures var g := Sized(total, spc);
      Holds(g) && (Holds(Derived(g)) <==> total <= 522110 && total <= 130 * g.fatSectors + 30)
  {
    hide Holds, Derived;
    DerivedClusters(total, spc);
    ChosenRange(total, spc);
    if spc > 1 || total > 522110 {
      TooShort(total, spc);
    }
  }

  /** Larger clusters are chosen only when smaller ones would be too many. */
  lemma ChosenRange(total: nat, spc: nat)
    requires Chosen(total, spc) && total < TWO_32
    ensures spc == 1 || (spc == 2 && total > 272_000_000) || (spc == 4 && total > 541_000_000)
      || (spc == 8 && total > 1_077_000_000) || (spc == 16 && total > 2_151_000_000)
  {
    hide Good;
    if total < 66599 {
      FewerWithLarger(total, spc);
      NotEnough(total, spc);
    }
    var k :| 0 <= k < |CANDIDATES| && spc == CANDIDATES[k] && forall j :: 0 <= j < k ==> !Good(total, CANDIDATES[j]);
    if k > 0 {
      assert !Good(total, CANDIDATES[0]);
      TooManyClusters(total, 1, 66599, 272_000_000);
    }
    if k > 1 {
      assert !Good(total, CANDIDATES[1]);
      TooManyClusters(total, 2, 272_000_000, 541_000_000);
    }
    if k > 2 {
      assert !Good(total, CANDIDATES[2]);
      TooManyClusters(total, 4, 541_000_000, 1_077_000_000);
    }
    if k > 3 {
      assert !Good(total, CANDIDATES[3]);
      TooManyClusters(total, 8, 1_077_000_000, 2_151_000_000);
    }
    if k > 4 {
      assert !Good(total, CANDIDATES[4]);
      TooManyClusters(total, 16, 2_151_000_000, TWO_32);
    }
  }

  lemma NotEnough(total: nat, spc: nat)
    requires spc > 0 && TrialClusters(total, spc) < MIN_CLUSTERS
    ensures !Good(total, spc)
  {
  }

  lemma TooManyClusters(total: nat, spc: nat, least: nat, most: nat)
    requires (spc == 1 && least == 66599 && most == 272_000_000) || (spc == 2 && least == 272_000_000 && most == 541_000_000)
      || (spc == 4 && least == 541_000_000 && most == 1_077_000_000) || (spc == 8 && least == 1_077_000_000 && most == 2_151_000_000)
      || (spc == 16 && least == 2_151_000_000 && most == TWO_32)
    requires total >= least && !Good(total, spc)
    ensures total > most
  {
  }

  lemma TooShort(total: nat, spc: nat)
    requires spc > 0 && Good(total, spc)
    requires (spc == 1 && total > 522110) || (spc == 2 && total > 272_000_000) || (spc == 4 && total > 541_000_000)
      || (spc == 8 && total > 1_077_000_000) || (spc == 16 && total > 2_151_000_000)
    ensures var f := FatSectors(TrialClusters(total, spc)); total > spc * (128 * f - 1) + 2 * f + 31
  {
    ManyTableSectors(total, spc);
    hide FatSectors, TrialClusters;
    var x, n := total / spc, TrialClusters(total, spc);
    TableBounds(x);
    TableBounds(n);
    TrialBounds(total, spc);
    QuotientTimes(total, spc);
    Spare(total, spc, x, n, FatSectors(x), FatSectors(n));
  }

  lemma ManyTableSectors(total: nat, spc: nat)
    requires (spc == 1 && total > 522110) || (spc == 2 && total > 272_000_000) || (spc == 4 && total > 541_000_000)
      || (spc == 8 && total > 1_077_000_000) || (spc == 16 && total > 2_151_000_000)
    ensures 2 * FatSectors(total / spc) + 33 >= spc * (8192 * spc) + spc
  {
  }

  /** The first pass reserves `fat` sectors for each table, the second takes `f`. What it gives back is
      enough for clusters beyond the last entry. */
  lemma Spare(total: nat, spc: nat, x: nat, n: nat, fat: nat, f: nat)
    requires spc > 0 && 2 * fat + 33 >= spc * (8192 * spc) + spc
    requires spc * x <= total < spc * x + spc && SECTOR * fat <= 4 * x + 519 < SECTOR * fat + SECTOR
    requires spc * n <= total - RESERVED - FATS * fat < spc * n + spc && SECTOR * f <= 4 * n + 519 < SECTOR * f + SECTOR
    ensures total > spc * (128 * f - 1) + 2 * f + 31
  {
    assert spc * (x - n) == spc * x - spc * n;
    Cancel(spc, x - n, 8192 * spc);
    assert fat - f >= 64 * spc;
    assert 128 * f <= n + 129;
    MulMonotone(spc, 128 * f, n + 129);
    assert spc * (n + 129) == spc * n + 129 * spc;
    assert spc * (128 * f - 1) == spc * (128 * f) - spc;
  }

  lemma Cancel(d: nat, a: int, b: nat)
    requires d > 0 && d * a > d * b - d
    ensures a >= b
  {
    if a < b {
      MulMonotone(d, 0, b - 1 - a);
    }
  }

  lemma TrialBounds(total: nat, spc: nat)
    requires spc > 0
    ensures var room := total - RESERVED - FATS * FatSectors(total / spc);
      spc * TrialClusters(total, spc) <= room < spc * TrialClusters(total, spc) + spc
  {
    hide FatSectors;
    QuotientTimes(total - RESERVED - FATS * FatSectors(total / spc), spc);
  }

  lemma AtLeast(d: nat, n: nat, q: nat, room: nat)
    requires d > 0 && n * d <= room < d * q + d
    ensures n <= q
  {
    if n > q {
      MulMonotone(d, q + 1, n);
    }
  }

  /** The volume that the build asks for: room for the payload and 32 MiB more, in multiples of
      32 MiB, and at least 64 MiB. */
  function EspSize(payload: nat): nat {
    var wanted := (payload + MIN_BYTES + MIN_BYTES - 1) / MIN_BYTES * MIN_BYTES;
    if wanted > 2 * MIN_BYTES then wanted else 2 * MIN_BYTES
  }

  lemma EspSectors(payload: nat) returns (m: nat)
    ensures m >= 2 && EspSize(payload) / SECTOR == 65536 * m
  {
    m := (payload + MIN_BYTES + MIN_BYTES - 1) / MIN_BYTES;
    if m < 2 {
      m := 2;
    }
    assert EspSize(payload) == 65536 * m * SECTOR;
  }

  /** Whatever the payload, the tables of that volume end before the last cluster that a reader counts. */
  lemma BuildVolumes(payload: nat, spc: nat)
    requires EspSize(payload) / SECTOR < TWO_32 && Chosen(EspSize(payload) / SECTOR, spc)
    ensures var g := Sized(EspSize(payload) / SECTOR, spc);
      Holds(g) && !Holds(Derived(g)) && g.clusters < Derived(g).clusters
  {
    hide Holds, FatSectors, EspSize;
    var m := EspSectors(payload);
    ReadableVolumes(65536 * m, spc);
    DerivedClusters(65536 * m, spc);
    if 65536 * m <= 522110 {
      assert m in {2, 3, 4, 5, 6, 7};
      SmallBuilds(m, spc);
    }
  }

  lemma SmallBuilds(m: nat, spc: nat)
    requires 2 <= m <= 7 && Chosen(65536 * m, spc)
    ensures 65536 * m > 130 * FatSectors(TrialClusters(65536 * m, spc)) + 30
  {
    ChosenRange(65536 * m, spc);
    hide Chosen;
    var trial := FatSectors(65536 * m);
    assert trial == 512 * m + 1;
    var n := 65536 * m - 34 - 1024 * m;
    assert TrialClusters(65536 * m, 1) == n;
  }

  /** For the 64 MiB volume the reader counts 129024 clusters, and the tables end two entries short. */
  lemma DefaultVolume()
    ensures EspSize(0) / SECTOR == 131072 && Chosen(131072, 1) && Sized(131072, 1) == Geometry(131072, 1, 1008, 128990)
    ensures var g := Sized(131072, 1);
      Fits(g) && Derived(g).clusters == 129024 && (129024 + 2) * 4 == g.fatSectors * SECTOR + 8
  {
    assert CANDIDATES[0] == 1;
  }

  lemma KeptStart(g: Geometry, s: seq<byte>)
    requires Holds(g) && |s| >= g.total * SECTOR
    ensures Kept(g, s, s)
  {
    Regions(g);
  }

  lemma SoundParts(g: Geometry, image: seq<byte>, fat: seq<nat>, next: nat, chains: seq<Chain>)
    requires Sound(g, image, fat, next, chains)
    ensures Holds(g) && |fat| == g.clusters + 2 && |image| >= g.total * SECTOR
  {
  }

  lemma KeptTrans(g: Geometry, s: seq<byte>, r: seq<byte>, q: seq<byte>)
    requires Kept(g, s, r) && Kept(g, r, q)
    ensures Kept(g, s, q)
  {
  }

  lemma OverKept(g: Geometry, s: seq<byte>, at: nat, d: seq<byte>)
    requires SECTOR <= at && at + |d| <= DataStart(g) <= |s|
    ensures Kept(g, s, Over(s, at, d))
  {
  }

  /** The hint lies below the tables. */
  lemma HintKept(g: Geometry, s: seq<byte>, fat: seq<nat>, hint: seq<byte>, r: seq<byte>)
    requires Holds(g) && |s| >= g.total * SECTOR && |hint| == 4 && |fat| == g.clusters + 2
    requires TableStored(s, g, 0, fat) && TableStored(s, g, 1, fat)
    requires var h := Over(s, SECTOR + 492, hint); r == Over(h, 7 * SECTOR, h[SECTOR..2 * SECTOR])
    ensures Kept(g, s, r) && TableStored(r, g, 0, fat) && TableStored(r, g, 1, fat)
  {
    Regions(g);
    hide FatBytes, FatOffset, DataStart, ClusterOffset, Holds, Over, At, Kept;
    var h := Over(s, SECTOR + 492, hint);
    OverKept(g, s, SECTOR + 492, hint);
    OverKept(g, h, 7 * SECTOR, h[SECTOR..2 * SECTOR]);
    KeptTrans(g, s, h, r);
    OverOutside(s, SECTOR + 492, hint, FatOffset(g, 0), FatBytes(fat));
    OverOutside(s, SECTOR + 492, hint, FatOffset(g, 1), FatBytes(fat));
    OverOutside(h, 7 * SECTOR, h[SECTOR..2 * SECTOR], FatOffset(g, 0), FatBytes(fat));
    OverOutside(h, 7 * SECTOR, h[SECTOR..2 * SECTOR], FatOffset(g, 1), FatBytes(fat));
  }

  lemma KeptSound(g: Geometry, image: seq<byte>, image': seq<byte>, fat: seq<nat>, next: nat, chains: seq<Chain>)
    requires Sound(g, image, fat, next, chains) && Kept(g, image, image')
    ensures Sound(g, image', fat, next, chains)
  {
    hide Leads, Fits, ClusterOffset, TableOk, Consecutive, DataStart, ClusterBytes, Area, Blank, At;
    OffsetOf(g, next);
    BlankTail(image, image', DataStart(g), ClusterOffset(g, next));
    forall i | 0 <= i < |chains| ensures Stored(g, image', chains[i]) {
      assert Stored(g, image, chains[i]);
      OffsetOf(g, chains[i].first);
      TailAt(image, image', DataStart(g), ClusterOffset(g, chains[i].first), chains[i].contents);
    }
  }

  lemma BlankTail(s: seq<byte>, r: seq<byte>, from: nat, at: nat)
    requires from <= |s| == |r| && s[from..] == r[from..] && from <= at && Blank(s, at)
    ensures Blank(r, at)
  {
    forall k | at <= k < |r| ensures r[k] == 0 {
      assert r[k] == r[from..][k - from] == s[from..][k - from];
    }
  }

  lemma TailAt(s: seq<byte>, r: seq<byte>, from: nat, at: nat, part: seq<byte>)
    requires from <= |s| == |r| && s[from..] == r[from..] && from <= at && At(s, at, part)
    ensures At(r, at, part)
  {
    forall k | at <= k < at + |part| ensures r[k] == s[k] {
      assert r[k] == r[from..][k - from] == s[from..][k - from];
    }
  }

  lemma AllFollow(g: Geometry, image: seq<byte>, fat: seq<nat>, next: nat, chains: seq<Chain>)
    requires Sound(g, image, fat, next, chains)
    requires TableStored(image, g, 0, fat) && TableStored(image, g, 1, fat)
    ensures forall k, i :: 0 <= k < FATS && 0 <= i < |chains| ==>
      Follow(image, Derived(g), k, chains[i].first, |fat|) == Some(chains[i].contents)
  {
    hide Follow;
    forall k, i | 0 <= k < FATS && 0 <= i < |chains|
      ensures Follow(image, Derived(g), k, chains[i].first, |fat|) == Some(chains[i].contents)
    {
      var c := chains[i];
      assert Stored(g, image, c) && Leads(fat, c);
      SameOffsets(g, image, fat, k, c);
      FollowFrom(image, Derived(g), k, fat, c, 0, |fat|);
      assert c.contents[0..] == c.contents;
    }
  }

  lemma SameOffsets(g: Geometry, image: seq<byte>, fat: seq<nat>, k: nat, c: Chain)
    requires Holds(g) && TableStored(image, g, k, fat) && Stored(g, image, c)
    ensures TableStored(image, Derived(g), k, fat) && Stored(Derived(g), image, c)
  {
  }

  /** The boot sector reads back as what it was made from. */
  lemma BootRead(g: Geometry, title: seq<byte>, image: seq<byte>)
    requires g.spc > 0 && RESERVED + FATS * g.fatSectors <= g.total
    requires g.total < TWO_32 && g.spc < 256 && |title| == 11
    requires |image| >= SECTOR && image[..SECTOR] == BootSector(g, title)
    ensures ReadVolume(image) == Some(Derived(g))
  {
    hide ToLe, Le, BootHead, Pow256, BootSector, Quotient;
    HeadFields(g);
    Field(image, g, title, 11, 2, SECTOR);
    Field(image, g, title, 13, 1, g.spc);
    Field(image, g, title, 14, 2, RESERVED);
    Field(image, g, title, 16, 1, FATS);
    Field(image, g, title, 32, 4, g.total);
    Field(image, g, title, 36, 4, g.fatSectors);
    Field(image, g, title, 44, 4, ROOT);
  }

  /** A number of `n` bytes in the boot sector. */
  lemma Field(image: seq<byte>, g: Geometry, title: seq<byte>, at: nat, n: nat, value: nat)
    requires |title| == 11 && SECTOR <= |image| && image[..SECTOR] == BootSector(g, title)
    requires n in {1, 2, 4} && at + n <= 48 && BootHead(g)[at..at + n] == ToLe(value, n)
    requires value < if n == 1 then 256 else if n == 2 then 0x1_0000 else TWO_32
    ensures Le(image[at..at + n]) == value
  {
    Pow256Words();
    assert Pow256(1) == 256;
    LeToLe(value, n);
    hide ToLe, Le, BootHead, Pow256, BootSector;
    HeadSlice(image, g, title, at, at + n);
  }

  lemma HeadSlice(image: seq<byte>, g: Geometry, title: seq<byte>, i: nat, j: nat)
    requires |title| == 11 && SECTOR <= |image| && image[..SECTOR] == BootSector(g, title)
    requires i <= j <= 48
    ensures image[i..j] == BootHead(g)[i..j]
  {
    hide BootHead, BootRest;
    var boot, head := BootSector(g, title), BootHead(g);
    assert boot[0..48] == head && image[0..SECTOR] == boot;
    hide BootSector;
    Nested(boot, 0, head, i, j, head[i..j]);
    Nested(image, 0, boot, i, j, boot[i..j]);
  }

  lemma HeadFields(g: Geometry)
    ensures var h := BootHead(g);
      && h[11..13] == ToLe(SECTOR, 2) && h[13..14] == ToLe(g.spc, 1)
      && h[14..16] == ToLe(RESERVED, 2) && h[16..17] == ToLe(FATS, 1)
      && h[32..36] == ToLe(g.total, 4) && h[36..40] == ToLe(g.fatSectors, 4) && h[44..48] == ToLe(ROOT, 4)
  {
    hide ToLe, BootShape, BootSizes;
    ShapeFields(g);
    SizeFields(g);
    var h := BootHead(g);
    assert h[11..32] == BootShape(g) && h[32..48] == BootSizes(g);
    Nested(h, 11, BootShape(g), 0, 2, ToLe(SECTOR, 2));
    Nested(h, 11, BootShape(g), 2, 3, ToLe(g.spc, 1));
    Nested(h, 11, BootShape(g), 3, 5, ToLe(RESERVED, 2));
    Nested(h, 11, BootShape(g), 5, 6, ToLe(FATS, 1));
    Nested(h, 32, BootSizes(g), 0, 4, ToLe(g.total, 4));
    Nested(h, 32, BootSizes(g), 4, 8, ToLe(g.fatSectors, 4));
    Nested(h, 32, BootSizes(g), 12, 16, ToLe(ROOT, 4));
  }

  lemma ShapeFields(g: Geometry)
    ensures var b := BootShape(g);
      b[0..2] == ToLe(SECTOR, 2) && b[2..3] == ToLe(g.spc, 1) && b[3..5] == ToLe(RESERVED, 2) && b[5..6] == ToLe(FATS, 1)
  {
    hide ToLe;
  }

  lemma SizeFields(g: Geometry)
    ensures var b := BootSizes(g);
      b[0..4] == ToLe(g.total, 4) && b[4..8] == ToLe(g.fatSectors, 4) && b[12..16] == ToLe(ROOT, 4)
  {
    hide ToLe;
  }
}

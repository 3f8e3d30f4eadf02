/** The TFS boot image: what tools/mktfs.py writes and how kernel/fs/tfs.c reads it back. Paths are
    text whose characters are the bytes of their encoding. */
module TfsImage {
  import opened Basics
  import opened Bytes
  import opened Wrappers

  const HEADER_SIZE: nat := 32
  const ENTRY_SIZE: nat := 296
  const PATH_FIELD: nat := 256
  const TYPE_DIR: nat := 1
  const TYPE_FILE: nat := 2

  /** "TFS1TNU" and its terminator */
  const MAGIC: seq<byte> := [0x54, 0x46, 0x53, 0x31, 0x54, 0x4e, 0x55, 0x00]
  const VERSION: nat := 1

  // ---------------------------------------------------------------- the writer's input

  /** One collected directory or file, as mktfs sees it. */
  datatype Item = Item(file: bool, path: string, mode: nat, uid: nat, gid: nat, mtime: nat, data: seq<byte>)

  /** What packing demands of the numbers; the path must be non-empty text without a zero. */
  predicate Packable(item: Item) {
    && item.mode < TWO_32 && item.uid < TWO_32 && item.gid < TWO_32 && item.mtime < TWO_64
    && item.path != "" && (forall c :: c in item.path ==> 0 < c as int < 256)
    && (!item.file ==> item.data == [])
  }

  predicate Aligned8(n: nat) {
    n % 8 == 0
  }

  function Align8(n: nat): (r: nat)
    ensures n <= r < n + 8 && Aligned8(r)
  {
    (n + 7) / 8 * 8
  }

  function Code(c: char): byte {
    if c as int < 256 then c as int else 0
  }

  function Text(s: string): (b: seq<byte>)
    ensures |b| == |s|
  {
    seq(|s|, i requires 0 <= i < |s| => Code(s[i]))
  }

  // ---------------------------------------------------------------- the image

  /** Payload of the files among `items`, each padded to eight bytes. */
  function Payload(items: seq<Item>): seq<byte> {
    if items == [] then []
    else
      var last := items[|items| - 1];
      Payload(items[..|items| - 1]) +
        (if last.file then last.data + Zeros(Align8(|last.data|) - |last.data|) else [])
  }

  function EntryBytes(item: Item, at: nat): (e: seq<byte>)
    requires Packable(item) && |item.path| < PATH_FIELD
    ensures |e| == ENTRY_SIZE
  {
    ToLe(if item.file then TYPE_FILE else TYPE_DIR, 4) + ToLe(item.mode, 4) + ToLe(item.uid, 4) + ToLe(item.gid, 4)
      + ToLe(|item.data|, 8) + ToLe(if item.file then at else 0, 8) + ToLe(item.mtime, 8)
      + (Text(item.path) + Zeros(PATH_FIELD - |item.path|))
  }

  predicate AllPackable(items: seq<Item>) {
    forall i :: 0 <= i < |items| ==> Packable(items[i]) && |items[i].path| < PATH_FIELD
  }

  /** The entry table when payloads start at `start`. */
  function Table(items: seq<Item>, start: nat): (t: seq<byte>)
    requires AllPackable(items)
    ensures |t| == ENTRY_SIZE * |items|
  {
    if items == [] then []
    else
      var init := items[..|items| - 1];
      Table(init, start) + EntryBytes(items[|items| - 1], start + |Payload(init)|)
  }

  function DataStart(items: seq<Item>): nat {
    Align8(HEADER_SIZE + ENTRY_SIZE * |items|)
  }

  function HeaderBytes(items: seq<Item>): (h: seq<byte>)
    ensures |h| == HEADER_SIZE
  {
    MAGIC + ToLe(VERSION, 4) + ToLe(|items|, 4) + ToLe(HEADER_SIZE, 8) + ToLe(DataStart(items), 8)
  }

  function Image(items: seq<Item>): seq<byte>
    requires AllPackable(items)
  {
    HeaderBytes(items) + Table(items, DataStart(items))
      + Zeros(DataStart(items) - HEADER_SIZE - ENTRY_SIZE * |items|) + Payload(items)
  }

  /** mktfs main: None when a path does not fit its field. */
  method Pack(items: seq<Item>) returns (image: Option<seq<byte>>)
    requires forall i :: 0 <= i < |items| ==> Packable(items[i])
    ensures image.Some? <==> forall i :: 0 <= i < |items| ==> |items[i].path| < PATH_FIELD
    ensures image.Some? ==> AllPackable(items) && image.value == Image(items)
  {
    hide EntryBytes, Payload, Table, HeaderBytes, Packable, Align8, Aligned8;
    NothingYet();
    var dataOffset := Align8(HEADER_SIZE + |items| * ENTRY_SIZE);
    var payload: seq<byte> := [];
    var packed: seq<byte> := [];
    var current := dataOffset;
    for i := 0 to |items|
      invariant AllPackable(items[..i])
      invariant payload == Payload(items[..i]) && packed == Table(items[..i], dataOffset)
      invariant current == dataOffset + |payload| && Aligned8(|payload|)
    {
      var item := items[i];
      PayloadStep(items, i);
      var offset, size := 0, 0;
      if item.file {
        offset, size := current, |item.data|;
        payload := payload + item.data;
        var pad := Align8(|payload|) - |payload|;
        AlignOf(|payload|, size);
        payload := payload + Zeros(pad);
        current := dataOffset + |payload|;
      }
      if |item.path| >= PATH_FIELD {
        return None;
      }
      TableStep(items, i, dataOffset, offset);
      packed := packed + EntryBytes(item, offset);
    }
    assert items[..|items|] == items;
    var head := HeaderBytes(items);
    image := Some(head + packed + Zeros(dataOffset - |head + packed|) + payload);
  }

  lemma NothingYet()
    ensures Payload([]) == [] && Aligned8(0) && AllPackable([]) && forall start :: Table([], start) == []
  {
  }

  /** What one item adds to the payload. */
  lemma PayloadStep(items: seq<Item>, i: nat)
    requires i < |items|
    ensures var p, size := Payload(items[..i]), |items[i].data|;
      Payload(items[..i + 1]) ==
        if items[i].file then p + items[i].data + Zeros(Align8(size) - size) else p
  {
    assert items[..i + 1][..i] == items[..i];
    var p, d, z := Payload(items[..i]), items[i].data, Zeros(Align8(|items[i].data|) - |items[i].data|);
    assert p + (d + z) == p + d + z;
  }

  lemma TableStep(items: seq<Item>, i: nat, start: nat, offset: nat)
    requires i < |items| && AllPackable(items[..i]) && Packable(items[i]) && |items[i].path| < PATH_FIELD
    requires offset == if items[i].file then start + |Payload(items[..i])| else 0
    ensures AllPackable(items[..i + 1])
    ensures Table(items[..i + 1], start) == Table(items[..i], start) + EntryBytes(items[i], offset)
  {
    hide EntryBytes, Payload;
    assert items[..i + 1][..i] == items[..i] && items[..i + 1][i] == items[i];
    if !items[i].file {
      FolderAnywhere(items[i], offset, start + |Payload(items[..i])|);
    }
  }

  /** The entry of a directory does not say where its bytes start. */
  lemma FolderAnywhere(item: Item, a: nat, b: nat)
    requires Packable(item) && |item.path| < PATH_FIELD && !item.file
    ensures EntryBytes(item, a) == EntryBytes(item, b)
  {
  }

  lemma AlignOf(total: nat, size: nat)
    requires size <= total && Aligned8(total - size)
    ensures Align8(total) - total == Align8(size) - size
    ensures Aligned8(total + (Align8(total) - total))
  {
  }

  // ---------------------------------------------------------------- reading back

  /** struct tfs_entry. */
  datatype Entry = Entry(kind: nat, mode: nat, uid: nat, gid: nat, size: nat, offset: nat, mtime: nat, path: string)

  /** The C string that starts a byte field. */
  function CString(b: seq<byte>): string {
    if b == [] || b[0] == 0 then "" else [b[0] as char] + CString(b[1..])
  }

  function ParseEntry(e: seq<byte>): Entry
    requires |e| == ENTRY_SIZE
  {
    Entry(Le(e[0..4]), Le(e[4..8]), Le(e[8..12]), Le(e[12..16]), Le(e[16..24]), Le(e[24..32]), Le(e[32..40]),
      CString(e[40..]))
  }

  function EntryAt(image: seq<byte>, table: nat, i: nat): Entry
    requires table + ENTRY_SIZE * i + ENTRY_SIZE <= |image|
  {
    ParseEntry(image[table + ENTRY_SIZE * i..table + ENTRY_SIZE * i + ENTRY_SIZE])
  }

  lemma {:induction false} CStringOfText(s: string, n: nat)
    requires forall c :: c in s ==> 0 < c as int < 256
    ensures CString(Text(s) + Zeros(n)) == s
  {
    var b := Text(s) + Zeros(n);
    if s == "" {
      assert n > 0 ==> b[0] == 0;
    } else {
      assert s[0] in s && forall c :: c in s[1..] ==> c in s;
      CStringOfText(s[1..], n);
      assert b[1..] == Text(s[1..]) + Zeros(n);
    }
  }

  lemma Pieces(a: seq<byte>, b: seq<byte>, c: seq<byte>, d: seq<byte>, f: seq<byte>, g: seq<byte>, h: seq<byte>, p: seq<byte>)
    requires |a| == |b| == |c| == |d| == 4 && |f| == |g| == |h| == 8
    ensures var e := a + b + c + d + f + g + h + p;
      && e[0..4] == a && e[4..8] == b && e[8..12] == c && e[12..16] == d
      && e[16..24] == f && e[24..32] == g && e[32..40] == h && e[40..] == p
  {
  }

  /** Packing an entry and reading it back are inverse. */
  lemma EntryRoundTrip(item: Item, at: nat)
    requires Packable(item) && |item.path| < PATH_FIELD && at < TWO_64 && |item.data| < TWO_64
    ensures ParseEntry(EntryBytes(item, at)) ==
      Entry(if item.file then TYPE_FILE else TYPE_DIR, item.mode, item.uid, item.gid, |item.data|, if item.file then at else 0, item.mtime, item.path)
  {
    hide ToLe, Le, CString, Text;
    Pow256Words();
    var kind, off := if item.file then TYPE_FILE else TYPE_DIR, if item.file then at else 0;
    var text := Text(item.path) + Zeros(PATH_FIELD - |item.path|);
    Pieces(ToLe(kind, 4), ToLe(item.mode, 4), ToLe(item.uid, 4), ToLe(item.gid, 4), ToLe(|item.data|, 8), ToLe(off, 8), ToLe(item.mtime, 8), text);
    LeToLe(kind, 4);
    LeToLe(item.mode, 4);
    LeToLe(item.uid, 4);
    LeToLe(item.gid, 4);
    LeToLe(|item.data|, 8);
    LeToLe(off, 8);
    LeToLe(item.mtime, 8);
    CStringOfText(item.path, PATH_FIELD - |item.path|);
  }

  /** Where item `i`'s bytes start in the image. */
  function Extent(items: seq<Item>, i: nat): nat
    requires i <= |items|
  {
    DataStart(items) + |Payload(items[..i])|
  }

  lemma EmptyPayload()
    ensures Payload([]) == [] && Aligned8(0)
  {
  }

  lemma {:induction false} PayloadGrows(items: seq<Item>, i: nat, k: nat)
    requires i <= k <= |items|
    ensures |Payload(items[..i])| <= |Payload(items[..k])|
    ensures Payload(items[..k])[..|Payload(items[..i])|] == Payload(items[..i])
    ensures Aligned8(|Payload(items[..i])|)
    decreases k
  {
    EmptyPayload();
    hide Payload, Align8, Aligned8;
    if i < k {
      PayloadGrows(items, i, k - 1);
      PayloadStep(items, k - 1);
    } else if i > 0 {
      PayloadGrows(items, i - 1, i - 1);
      PayloadStep(items, i - 1);
      AlignOf(|Payload(items[..i - 1])| + |items[i - 1].data|, |items[i - 1].data|);
    }
  }

  /** Payload extents are 8-aligned, inside the image, in order and disjoint, and hold the file's bytes. */
  lemma PrefixSlice(s: seq<byte>, n: nat, lo: nat, hi: nat)
    requires lo <= hi <= n <= |s|
    ensures s[..n][lo..hi] == s[lo..hi]
  {
  }

  lemma PayloadAt(items: seq<Item>, i: nat)
    requires i < |items| && items[i].file
    ensures var p, o := Payload(items), |Payload(items[..i])|;
      && Aligned8(o) && o + |items[i].data| <= |p|
      && p[o..o + |items[i].data|] == items[i].data
      && o + |items[i].data| <= |Payload(items[..i + 1])|
  {
    var o := |Payload(items[..i])|;
    assert items[..|items|] == items;
    PayloadGrows(items, i, i);
    PayloadGrows(items, i + 1, |items|);
    PayloadStep(items, i);
    var q := Payload(items[..i + 1]);
    hide Payload, Align8, Aligned8;
    assert q[o..o + |items[i].data|] == items[i].data;
    PrefixSlice(Payload(items), |q|, o, o + |items[i].data|);
  }

  lemma {:induction false} TableAt(items: seq<Item>, start: nat, i: nat, k: nat)
    requires i < k <= |items| && AllPackable(items)
    ensures Table(items[..k], start)[ENTRY_SIZE * i..ENTRY_SIZE * i + ENTRY_SIZE] == EntryBytes(items[i], start + |Payload(items[..i])|)
    decreases k
  {
    hide EntryBytes, Payload;
    assert items[..k][..k - 1] == items[..k - 1];
    var t := Table(items[..k - 1], start);
    assert Table(items[..k], start) == t + EntryBytes(items[k - 1], start + |Payload(items[..k - 1])|);
    if i < k - 1 {
      TableAt(items, start, i, k - 1);
    }
  }

  /** The image is header, table, padding and payload, each at its place. */
  lemma ImageParts(items: seq<Item>)
    requires AllPackable(items)
    ensures var image, tableEnd := Image(items), HEADER_SIZE + ENTRY_SIZE * |items|;
      && tableEnd <= DataStart(items) <= |image| == DataStart(items) + |Payload(items)|
      && image[..HEADER_SIZE] == HeaderBytes(items)
      && image[HEADER_SIZE..tableEnd] == Table(items, DataStart(items))
      && image[DataStart(items)..DataStart(items) + |Payload(items)|] == Payload(items)
  {
    var h, t, p := HeaderBytes(items), Table(items, DataStart(items)), Payload(items);
    var z := Zeros(DataStart(items) - HEADER_SIZE - ENTRY_SIZE * |items|);
    assert Image(items) == h + t + z + p;
    hide Image, Table, Payload, HeaderBytes, Zeros, AllPackable;
    FourParts(h, t, z, p, Image(items), HEADER_SIZE, HEADER_SIZE + ENTRY_SIZE * |items|, DataStart(items));
  }

  lemma FourParts(h: seq<byte>, t: seq<byte>, z: seq<byte>, p: seq<byte>, image: seq<byte>, a: nat, b: nat, c: nat)
    requires image == h + t + z + p && |h| == a && a + |t| == b && b + |z| == c
    ensures |image| == c + |p| && image[..a] == h && image[a..b] == t && image[c..c + |p|] == p
  {
  }

  /** What the entry of `item` reads back as when its bytes start at `at`. */
  function Recorded(item: Item, at: nat): Entry {
    Entry(if item.file then TYPE_FILE else TYPE_DIR, item.mode, item.uid, item.gid, |item.data|, if item.file then at else 0, item.mtime, item.path)
  }

  lemma TableWhole(items: seq<Item>, start: nat, i: nat, t: seq<byte>)
    requires i < |items| && AllPackable(items) && t == Table(items, start)
    ensures ENTRY_SIZE * i + ENTRY_SIZE <= |t|
    ensures t[ENTRY_SIZE * i..ENTRY_SIZE * i + ENTRY_SIZE] == EntryBytes(items[i], start + |Payload(items[..i])|)
  {
    assert items[..|items|] == items;
    hide Table, Payload, EntryBytes;
    TableAt(items, start, i, |items|);
  }

  lemma EntrySlice(items: seq<Item>, i: nat)
    requires AllPackable(items) && i < |items|
    ensures var lo := HEADER_SIZE + ENTRY_SIZE * i;
      && lo + ENTRY_SIZE <= HEADER_SIZE + ENTRY_SIZE * |items| <= |Image(items)|
      && Image(items)[lo..lo + ENTRY_SIZE] == EntryBytes(items[i], Extent(items, i))
  {
    EntryInTable(items, i);
    hide Image, Table, EntryBytes, DataStart, Packable, Extent, AllPackable;
    ImageTable(items, Table(items, DataStart(items)));
    InTable(Image(items), Table(items, DataStart(items)), |items|, i, EntryBytes(items[i], Extent(items, i)));
  }

  lemma EntryInTable(items: seq<Item>, i: nat)
    requires AllPackable(items) && i < |items|
    ensures Packable(items[i]) && |items[i].path| < PATH_FIELD
    ensures var t := Table(items, DataStart(items));
      ENTRY_SIZE * i + ENTRY_SIZE <= |t| && t[ENTRY_SIZE * i..ENTRY_SIZE * i + ENTRY_SIZE] == EntryBytes(items[i], Extent(items, i))
  {
    hide Table, Payload, EntryBytes, DataStart, Packable;
    TableWhole(items, DataStart(items), i, Table(items, DataStart(items)));
  }

  lemma InTable(image: seq<byte>, t: seq<byte>, n: nat, i: nat, e: seq<byte>)
    requires |t| == ENTRY_SIZE * n && i < n && HEADER_SIZE + |t| <= |image| && image[HEADER_SIZE..HEADER_SIZE + |t|] == t
    requires t[ENTRY_SIZE * i..ENTRY_SIZE * i + ENTRY_SIZE] == e
    ensures var lo := HEADER_SIZE + ENTRY_SIZE * i;
      lo + ENTRY_SIZE <= HEADER_SIZE + ENTRY_SIZE * n <= |image| && image[lo..lo + ENTRY_SIZE] == e
  {
    Nested(image, HEADER_SIZE, t, ENTRY_SIZE * i, ENTRY_SIZE * i + ENTRY_SIZE, e);
  }

  lemma ImageTable(items: seq<Item>, t: seq<byte>)
    requires AllPackable(items) && t == Table(items, DataStart(items))
    ensures |t| == ENTRY_SIZE * |items| && HEADER_SIZE + |t| <= |Image(items)| && Image(items)[HEADER_SIZE..HEADER_SIZE + |t|] == t
  {
    hide Image, Table, Payload, HeaderBytes, DataStart, Aligned8, AllPackable;
    ImageParts(items);
  }

  lemma ExtentInside(items: seq<Item>, i: nat)
    requires AllPackable(items) && i < |items|
    ensures Extent(items, i) <= |Image(items)|
    ensures Packable(items[i]) && |items[i].path| < PATH_FIELD
    ensures items[i].file ==> Extent(items, i) + |items[i].data| <= |Image(items)|
    ensures |items[i].data| <= |Image(items)|
  {
    ImageParts(items);
    assert items[..|items|] == items;
    assert Packable(items[i]) && (!items[i].file ==> items[i].data == []);
    hide Payload, Image, Table, HeaderBytes, DataStart, Packable, Aligned8;
    PayloadGrows(items, i, |items|);
    if items[i].file { PayloadAt(items, i); }
  }

  /** Every packed entry reads back from the finished image ... */
  lemma ImageEntry(items: seq<Item>, i: nat)
    requires AllPackable(items) && |Image(items)| < TWO_64 && i < |items|
    ensures HEADER_SIZE + ENTRY_SIZE * i + ENTRY_SIZE <= HEADER_SIZE + ENTRY_SIZE * |items| <= |Image(items)|
    ensures EntryAt(Image(items), HEADER_SIZE, i) == Recorded(items[i], Extent(items, i))
  {
    hide Image, EntryBytes, ParseEntry, Packable, Extent;
    EntrySlice(items, i);
    ExtentInside(items, i);
    EntryRoundTrip(items[i], Extent(items, i));
  }

  /** ... and a file's extent, 8-aligned and inside the image, holds exactly its bytes. */
  lemma ImageExtent(items: seq<Item>, i: nat)
    requires AllPackable(items) && i < |items| && items[i].file
    ensures Aligned8(Extent(items, i)) && Extent(items, i) + |items[i].data| <= |Image(items)|
    ensures Image(items)[Extent(items, i)..Extent(items, i) + |items[i].data|] == items[i].data
  {
    hide Image, Table, Payload, HeaderBytes, DataStart, Aligned8, AllPackable, Extent, Packable;
    ExtentIs(items, i);
    ImagePayload(items);
    PayloadAt(items, i);
    var o, size := |Payload(items[..i])|, |items[i].data|;
    Nested(Image(items), DataStart(items), Payload(items), o, o + size, items[i].data);
    ExtentAligned(items, i);
  }

  lemma ExtentAligned(items: seq<Item>, i: nat)
    requires AllPackable(items) && i < |items| && items[i].file
    ensures Aligned8(Extent(items, i))
  {
    hide Image, Table, Payload, HeaderBytes, DataStart, Aligned8, AllPackable;
    PayloadAt(items, i);
    StartAligned(items);
    AlignedSum(DataStart(items), |Payload(items[..i])|);
  }

  lemma ExtentIs(items: seq<Item>, i: nat)
    requires i <= |items|
    ensures Extent(items, i) == DataStart(items) + |Payload(items[..i])|
  {
    hide Payload, DataStart;
  }

  lemma ImagePayload(items: seq<Item>)
    requires AllPackable(items)
    ensures var start, p := DataStart(items), Payload(items);
      start + |p| == |Image(items)| && Image(items)[start..start + |p|] == p
  {
    hide Image, Table, Payload, HeaderBytes, DataStart, AllPackable;
    ImageParts(items);
  }

  lemma StartAligned(items: seq<Item>)
    ensures Aligned8(DataStart(items))
  {
  }

  lemma AlignedSum(a: nat, b: nat)
    requires Aligned8(a) && Aligned8(b)
    ensures Aligned8(a + b)
  {
  }

  lemma InHeader(image: seq<byte>, h: seq<byte>, lo: nat, hi: nat)
    requires lo <= hi <= |h| <= |image| && image[..|h|] == h
    ensures image[lo..hi] == h[lo..hi]
  {
    Nested(image, 0, h, lo, hi, h[lo..hi]);
  }

  lemma HeaderRoundTrip(items: seq<Item>)
    requires AllPackable(items) && |items| < TWO_32 && |Image(items)| < TWO_64
    ensures var image := Image(items);
      && HEADER_SIZE <= |image| && image[0..8] == MAGIC && Le(image[8..12]) == VERSION
      && Le(image[12..16]) == |items| && Le(image[16..24]) == HEADER_SIZE && Le(image[24..32]) == DataStart(items)
  {
    hide Image, Table, Payload, HeaderBytes, DataStart, ToLe, Le, AllPackable, Aligned8;
    var h, image := HeaderBytes(items), Image(items);
    HeaderParts(items);
    Pow256Words();
    ImageParts(items);
    LeToLe(VERSION, 4);
    LeToLe(|items|, 4);
    LeToLe(HEADER_SIZE, 8);
    LeToLe(DataStart(items), 8);
    InHeader(image, h, 0, 8);
    InHeader(image, h, 8, 12);
    InHeader(image, h, 12, 16);
    InHeader(image, h, 16, 24);
    InHeader(image, h, 24, 32);
  }

  lemma HeaderParts(items: seq<Item>)
    ensures var h := HeaderBytes(items);
      && h[0..8] == MAGIC && h[8..12] == ToLe(VERSION, 4) && h[12..16] == ToLe(|items|, 4) && h[16..24] == ToLe(HEADER_SIZE, 8)
      && h[24..32] == ToLe(DataStart(items), 8)
  {
    hide ToLe, DataStart;
    FiveParts(MAGIC, ToLe(VERSION, 4), ToLe(|items|, 4), ToLe(HEADER_SIZE, 8), ToLe(DataStart(items), 8));
  }

  lemma FiveParts(a: seq<byte>, b: seq<byte>, c: seq<byte>, d: seq<byte>, e: seq<byte>)
    requires |a| == |d| == |e| == 8 && |b| == |c| == 4
    ensures var h := a + b + c + d + e;
      h[0..8] == a && h[8..12] == b && h[12..16] == c && h[16..24] == d && h[24..32] == e
  {
  }

  /** Where the fields of an entry stand in its 296 bytes. */
  lemma EntryLayout(item: Item, at: nat)
    requires Packable(item) && |item.path| < PATH_FIELD && at < TWO_64 && |item.data| < TWO_64
    ensures var e := EntryBytes(item, at);
      && Le(e[0..4]) == (if item.file then 2 else 1) && Le(e[4..8]) == item.mode && Le(e[8..12]) == item.uid && Le(e[12..16]) == item.gid
      && Le(e[16..24]) == |item.data| && Le(e[24..32]) == (if item.file then at else 0) && Le(e[32..40]) == item.mtime
      && forall k :: 0 <= k < 256 ==> e[40 + k] == if k < |item.path| then item.path[k] as int else 0
  {
    hide ToLe, Le, CString, Text;
    EntryRoundTrip(item, at);
    PathLayout(item, at);
  }

  lemma PathLayout(item: Item, at: nat)
    requires Packable(item) && |item.path| < PATH_FIELD
    ensures forall k :: 0 <= k < 256 ==> EntryBytes(item, at)[40 + k] == if k < |item.path| then item.path[k] as int else 0
  {
    hide ToLe;
    var text := Text(item.path) + Zeros(PATH_FIELD - |item.path|);
    var e := EntryBytes(item, at);
    assert e[40..] == text;
    forall k | 0 <= k < 256 ensures e[40 + k] == if k < |item.path| then item.path[k] as int else 0 {
      assert e[40 + k] == text[k];
      if k < |item.path| {
        assert item.path[k] in item.path;
      }
    }
  }

  /** The extents of two files do not overlap. */
  lemma ExtentsDisjoint(items: seq<Item>, i: nat, j: nat)
    requires i < j < |items| && items[i].file && items[j].file
    ensures Extent(items, i) + |items[i].data| <= Extent(items, j)
  {
    PayloadAt(items, i);
    PayloadGrows(items, i + 1, j);
  }
}

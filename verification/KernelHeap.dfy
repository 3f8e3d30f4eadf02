/** The kernel heap (kernel/mm/heap.c): a first-fit allocator over one byte array, whose
    doubly linked block list lives in headers inside that array. */
module KernelHeap {
  import opened Basics
  import opened Bytes
  import opened Wrappers

  const HEAP_SIZE: nat := 0x100_0000
  const HEADER_SIZE: nat := 32
  const HEAP_MAGIC: nat := 0x544e_5548

  // ---------------------------------------------------------------- block sequences

  /** A block as the list sees it; its address follows from the sizes before it. */
  datatype Block = Block(size: nat, free: bool)

  /** Bytes that a run of blocks occupies, headers included. */
  function Total(bs: seq<Block>): nat
  {
    if bs == [] then 0 else HEADER_SIZE + bs[0].size + Total(bs[1..])
  }

  lemma {:induction false} TotalAppend(xs: seq<Block>, ys: seq<Block>)
    ensures Total(xs + ys) == Total(xs) + Total(ys)
  {
    if xs == [] {
      assert xs + ys == ys;
    } else {
      TotalAppend(xs[1..], ys);
      assert (xs + ys)[1..] == xs[1..] + ys;
    }
  }

  lemma TotalOne(b: Block)
    ensures Total([b]) == HEADER_SIZE + b.size
  {
    assert [b][1..] == [];
  }

  /** Offset of block `i`'s header in the heap array. */
  function Offset(bs: seq<Block>, i: nat): nat
    requires i <= |bs|
  {
    Total(bs[..i])
  }

  lemma OffsetNext(bs: seq<Block>, i: nat)
    requires i < |bs|
    ensures Offset(bs, i + 1) == Offset(bs, i) + HEADER_SIZE + bs[i].size
  {
    assert bs[..i + 1] == bs[..i] + [bs[i]];
    TotalAppend(bs[..i], [bs[i]]);
  }

  /** Blocks follow each other without overlap. */
  lemma {:induction false} OffsetMonotone(bs: seq<Block>, i: nat, j: nat)
    requires i < j <= |bs|
    ensures Offset(bs, i) + HEADER_SIZE + bs[i].size <= Offset(bs, j) <= Total(bs)
    decreases j - i
  {
    OffsetNext(bs, i);
    if i + 1 < j {
      OffsetMonotone(bs, i + 1, j);
      OffsetNext(bs, i + 1);
    } else {
      assert bs == bs[..j] + bs[j..];
      TotalAppend(bs[..j], bs[j..]);
    }
  }

  predicate Aligned(bs: seq<Block>) {
    forall i :: 0 <= i < |bs| ==> bs[i].size >= 16 && bs[i].size % 16 == 0
  }

  lemma {:induction false} OffsetAligned(bs: seq<Block>, i: nat)
    requires Aligned(bs) && i <= |bs|
    ensures Offset(bs, i) % 16 == 0
  {
    if i > 0 {
      OffsetAligned(bs, i - 1);
      OffsetNext(bs, i - 1);
    }
  }

  /** The tiling: the blocks fill the whole heap, in units of 16 bytes. */
  predicate Tiles(bs: seq<Block>) {
    bs != [] && Total(bs) == HEAP_SIZE && Aligned(bs)
  }

  // ---------------------------------------------------------------- specification of the operations

  function Align16(n: nat): (r: nat)
    requires n < TWO_64
    ensures r % 16 == 0
    ensures r != 0 ==> n <= r < n + 16
    ensures r == 0 <==> n == 0 || n > TWO_64 - 16
  {
    (n + 15) % TWO_64 / 16 * 16
  }

  predicate FitsIn(b: Block, size: nat) {
    b.free && b.size >= size
  }

  function FirstFit(bs: seq<Block>, size: nat): (i: nat)
    ensures i <= |bs|
    ensures forall j :: 0 <= j < i ==> !FitsIn(bs[j], size)
    ensures i < |bs| ==> FitsIn(bs[i], size)
  {
    if bs == [] || FitsIn(bs[0], size) then 0 else 1 + FirstFit(bs[1..], size)
  }

  /** Block `i` cut to `size` bytes, the rest becoming a free block behind it. */
  function Cut(bs: seq<Block>, i: nat, size: nat): seq<Block>
    requires i < |bs| && size + HEADER_SIZE <= bs[i].size
  {
    bs[..i] + [bs[i].(size := size), Block(bs[i].size - size - HEADER_SIZE, true)] + bs[i + 1..]
  }

  /** split_block: cut only when at least 32 bytes of payload remain for the new block. */
  function Split(bs: seq<Block>, i: nat, size: nat): seq<Block>
    requires i < |bs|
  {
    if bs[i].size < size + HEADER_SIZE + 32 then bs else Cut(bs, i, size)
  }

  function SetFree(bs: seq<Block>, i: nat, free: bool): seq<Block>
    requires i < |bs|
  {
    bs[i := bs[i].(free := free)]
  }

  /** Blocks lo..hi (inclusive) fused into one free block. */
  function Fuse(bs: seq<Block>, lo: nat, hi: nat): seq<Block>
    requires lo <= hi < |bs|
  {
    bs[..lo] + [Block(Total(bs[lo..hi + 1]) - HEADER_SIZE, true)] + bs[hi + 1..]
  }

  /** Start of the run of free blocks that ends just before block `i`. */
  function RunStart(bs: seq<Block>, i: nat): (lo: nat)
    requires i < |bs|
    ensures lo <= i && (forall j :: lo <= j < i ==> bs[j].free)
    ensures lo > 0 ==> !bs[lo - 1].free
  {
    if i == 0 || !bs[i - 1].free then i else RunStart(bs, i - 1)
  }

  function RunEnd(bs: seq<Block>, i: nat): nat
    requires i < |bs|
  {
    if i + 1 < |bs| && bs[i + 1].free then i + 1 else i
  }

  function Malloc(bs: seq<Block>, size: nat): seq<Block>
  {
    var i := FirstFit(bs, size);
    if i == |bs| then bs else SetFree(Split(bs, i, size), i, false)
  }

  /** kfree: the block, its free successor and every free block directly before it become one. */
  function Free(bs: seq<Block>, i: nat): seq<Block>
    requires i < |bs|
  {
    Fuse(bs, RunStart(bs, i), RunEnd(bs, i))
  }

  /** Where block `i` is on the list after an allocation: a cut in front of it moves it by one. */
  function Moved(bs: seq<Block>, size: nat, i: nat): nat {
    if FirstFit(bs, size) < i && |Malloc(bs, size)| > |bs| then i + 1 else i
  }

  /** krealloc of a block that is too small: an allocation, and then the release of the old block. */
  function Regrown(bs: seq<Block>, i: nat, size: nat): seq<Block>
    requires i < |bs| <= |Malloc(bs, size)|
  {
    Free(Malloc(bs, size), Moved(bs, size, i))
  }

  // ---------------------------------------------------------------- headers in memory

  datatype Header = Header(size: nat, free: bool, magic: nat, next: nat, prev: nat) {
    predicate Storable() {
      size < TWO_64 && magic < TWO_32 && next < TWO_64 && prev < TWO_64
    }
  }

  /** struct heap_block at offset `o`: size, free flag, magic, next, prev. */
  function ReadHeader(m: seq<byte>, o: nat): Header
    requires o + HEADER_SIZE <= |m|
  {
    Header(Le(m[o..o + 8]), m[o + 8] != 0, Le(m[o + 12..o + 16]), Le(m[o + 16..o + 24]), Le(m[o + 24..o + 32]))
  }

  lemma ReadHeaderFrame(m: seq<byte>, m': seq<byte>, o: nat)
    requires o + HEADER_SIZE <= |m| == |m'|
    requires forall k :: o <= k < o + HEADER_SIZE ==> m[k] == m'[k]
    ensures ReadHeader(m, o) == ReadHeader(m', o)
  {
    assert m[o..o + 8] == m'[o..o + 8];
    assert m[o + 12..o + 16] == m'[o + 12..o + 16];
    assert m[o + 16..o + 24] == m'[o + 16..o + 24];
    assert m[o + 24..o + 32] == m'[o + 24..o + 32];
  }

  method StoreLe(mem: array<byte>, o: nat, v: nat, n: nat)
    requires o + n <= mem.Length && v < Pow256(n)
    modifies mem
    ensures Le(mem[o..o + n]) == v
    ensures forall k :: 0 <= k < mem.Length && !(o <= k < o + n) ==> mem[k] == old(mem[k])
  {
    var s := ToLe(v, n);
    forall k | 0 <= k < n {
      mem[o + k] := s[k];
    }
    assert mem[o..o + n] == s;
    LeToLe(v, n);
  }

  method StoreHeader(mem: array<byte>, o: nat, h: Header)
    requires o + HEADER_SIZE <= mem.Length && h.Storable()
    modifies mem
    ensures ReadHeader(mem[..], o) == h
    ensures forall k :: 0 <= k < mem.Length && !(o <= k < o + HEADER_SIZE) ==> mem[k] == old(mem[k])
  {
    Pow256Words();
    StoreLe(mem, o, h.size, 8);
    ghost var a := mem[o..o + 8];
    mem[o + 8] := if h.free then 1 else 0;
    StoreLe(mem, o + 12, h.magic, 4);
    ghost var b := mem[o + 12..o + 16];
    StoreLe(mem, o + 16, h.next, 8);
    ghost var c := mem[o + 16..o + 24];
    StoreLe(mem, o + 24, h.prev, 8);
    assert mem[..][o..o + 8] == a;
    assert mem[..][o + 12..o + 16] == b;
    assert mem[..][o + 16..o + 24] == c;
    assert mem[..][o + 24..o + 32] == mem[o + 24..o + 32];
  }

  function Next(base: nat, bs: seq<Block>, i: nat): nat
    requires i < |bs|
  {
    if i + 1 < |bs| then base + Offset(bs, i + 1) else 0
  }

  function Prev(base: nat, bs: seq<Block>, i: nat): nat
    requires i < |bs|
  {
    if i > 0 then base + Offset(bs, i - 1) else 0
  }

  /** What the header of block `i` must hold when the array starts at address `base`. */
  function Expected(base: nat, bs: seq<Block>, i: nat): Header
    requires i < |bs|
  {
    Header(bs[i].size, bs[i].free, HEAP_MAGIC, Next(base, bs, i), Prev(base, bs, i))
  }

  predicate HeaderOk(base: nat, m: seq<byte>, bs: seq<Block>, i: nat)
    requires i < |bs|
  {
    Offset(bs, i) + HEADER_SIZE <= |m| && ReadHeader(m, Offset(bs, i)) == Expected(base, bs, i)
  }

  /** The shape invariant: the headers in memory are exactly the list `bs`, which tiles the heap. */
  predicate Linked(base: nat, m: seq<byte>, bs: seq<Block>) {
    && |m| == HEAP_SIZE
    && Tiles(bs)
    && forall i :: 0 <= i < |bs| ==> HeaderOk(base, m, bs, i)
  }

  /** `m'` may differ from `m` only inside the header at offset `o`. */
  predicate Untouched(m: seq<byte>, m': seq<byte>, k: int, os: set<nat>)
    requires 0 <= k < |m| == |m'|
  {
    m[k] == m'[k] || exists o :: o in os && o <= k < o + HEADER_SIZE
  }

  predicate OnlyHeaders(m: seq<byte>, m': seq<byte>, os: set<nat>) {
    |m| == |m'| && forall k :: 0 <= k < |m| ==> Untouched(m, m', k, os)
  }

  /** A byte range that meets none of the rewritten headers is unchanged. */
  lemma RangeFrame(m: seq<byte>, m': seq<byte>, os: set<nat>, lo: nat, hi: nat)
    requires OnlyHeaders(m, m', os)
    requires lo <= hi <= |m|
    requires forall o :: o in os ==> o + HEADER_SIZE <= lo || hi <= o
    ensures m[lo..hi] == m'[lo..hi]
  {
    forall k | lo <= k < hi ensures m[k] == m'[k] {
      assert Untouched(m, m', k, os);
    }
  }

  lemma HeaderFrame(m: seq<byte>, m': seq<byte>, os: set<nat>, lo: nat)
    requires OnlyHeaders(m, m', os) && lo + HEADER_SIZE <= |m|
    requires forall o :: o in os ==> o + HEADER_SIZE <= lo || lo + HEADER_SIZE <= o
    ensures ReadHeader(m, lo) == ReadHeader(m', lo)
  {
    RangeFrame(m, m', os, lo, lo + HEADER_SIZE);
    forall k | lo <= k < lo + HEADER_SIZE ensures m[k] == m'[k] {
      assert m[lo..lo + HEADER_SIZE][k - lo] == m'[lo..lo + HEADER_SIZE][k - lo];
    }
    ReadHeaderFrame(m, m', lo);
  }

  // ---------------------------------------------------------------- contents

  /** Address a caller holds for block `i`. */
  function Ptr(base: nat, bs: seq<Block>, i: nat): nat
    requires i < |bs|
  {
    base + Offset(bs, i) + HEADER_SIZE
  }

  lemma PtrInjective(base: nat, bs: seq<Block>, i: nat, j: nat)
    requires i < |bs| && j < |bs| && Ptr(base, bs, i) == Ptr(base, bs, j)
    ensures i == j
  {
    if i < j {
      OffsetMonotone(bs, i, j);
    } else if j < i {
      OffsetMonotone(bs, j, i);
    }
  }

  function Payload(m: seq<byte>, bs: seq<Block>, i: nat): (s: seq<byte>)
    requires i < |bs| && |m| == Total(bs)
    ensures |s| == bs[i].size
  {
    OffsetMonotone(bs, i, |bs|);
    assert bs[..|bs|] == bs;
    m[Offset(bs, i) + HEADER_SIZE..Offset(bs, i) + HEADER_SIZE + bs[i].size]
  }

  predicate LiveAt(base: nat, bs: seq<Block>, i: nat, p: nat) {
    i < |bs| && !bs[i].free && Ptr(base, bs, i) == p
  }

  /** The bytes of the live allocation whose owner holds `p`; None when there is no such allocation. */
  ghost function Contents(base: nat, m: seq<byte>, bs: seq<Block>, p: nat): (c: Option<seq<byte>>)
    requires |m| == Total(bs)
  {
    if exists i: nat :: LiveAt(base, bs, i, p)
    then var i: nat :| LiveAt(base, bs, i, p); Some(Payload(m, bs, i))
    else None
  }

  lemma ContentsAt(base: nat, m: seq<byte>, bs: seq<Block>, i: nat)
    requires |m| == Total(bs) && i < |bs|
    ensures Contents(base, m, bs, Ptr(base, bs, i)) == if bs[i].free then None else Some(Payload(m, bs, i))
  {
    var p := Ptr(base, bs, i);
    forall j: nat | LiveAt(base, bs, j, p) ensures i == j {
      PtrInjective(base, bs, i, j);
    }
    assert !bs[i].free ==> LiveAt(base, bs, i, p);
  }

  // ---------------------------------------------------------------- cutting and joining

  /** `bs'` is `bs` with block `i` cut to `size` bytes: element by element, addresses included. */
  ghost predicate IsCut(bs: seq<Block>, bs': seq<Block>, i: nat, size: nat)
  {
    && i < |bs| && |bs'| == |bs| + 1 && Total(bs') == Total(bs)
    && size + HEADER_SIZE <= bs[i].size
    && bs'[i] == Block(size, bs[i].free)
    && bs'[i + 1] == Block(bs[i].size - size - HEADER_SIZE, true)
    && Offset(bs', i) == Offset(bs, i)
    && Offset(bs', i + 1) == Offset(bs, i) + HEADER_SIZE + size
    && (forall j :: 0 <= j < i ==> bs'[j] == bs[j] && Offset(bs', j) == Offset(bs, j))
    && (forall j :: i < j < |bs| ==> bs'[j + 1] == bs[j] && Offset(bs', j + 1) == Offset(bs, j))
  }

  lemma CutIsCut(bs: seq<Block>, i: nat, size: nat)
    requires i < |bs| && size + HEADER_SIZE <= bs[i].size
    ensures IsCut(bs, Cut(bs, i, size), i, size)
  {
    var bs' := Cut(bs, i, size);
    forall j | 0 <= j <= i ensures Offset(bs', j) == Offset(bs, j) {
      assert bs'[..j] == bs[..j];
    }
    OffsetNext(bs', i);
    OffsetNext(bs', i + 1);
    OffsetNext(bs, i);
    forall j | i < j <= |bs| ensures Offset(bs', j + 1) == Offset(bs, j) {
      assert bs'[..j + 1] == bs'[..i + 2] + bs[i + 1..j];
      TotalAppend(bs'[..i + 2], bs[i + 1..j]);
      assert bs[..j] == bs[..i + 1] + bs[i + 1..j];
      TotalAppend(bs[..i + 1], bs[i + 1..j]);
    }
    assert Offset(bs', |bs| + 1) == Offset(bs, |bs|);
    assert bs[..|bs|] == bs && bs'[..|bs'|] == bs';
  }

  /** Blocks `i` and `i + 1` as one, with block `i`'s flag. */
  function Join(bs: seq<Block>, i: nat): seq<Block>
    requires i + 1 < |bs|
  {
    bs[..i] + [bs[i].(size := bs[i].size + HEADER_SIZE + bs[i + 1].size)] + bs[i + 2..]
  }

  lemma JoinIsCut(bs: seq<Block>, i: nat)
    requires i + 1 < |bs| && bs[i + 1].free
    ensures IsCut(Join(bs, i), bs, i, bs[i].size)
  {
    CutIsCut(Join(bs, i), i, bs[i].size);
    assert Cut(Join(bs, i), i, bs[i].size) == bs;
  }

  /** Headers that a cut of block `i` (or the join that undoes it) rewrites. */
  ghost function CutHeaders(bs: seq<Block>, i: nat, size: nat): set<nat>
    requires i < |bs|
  {
    {Offset(bs, i), Offset(bs, i) + HEADER_SIZE + size}
      + if i + 1 < |bs| then {Offset(bs, i + 1)} else {}
  }

  /** The whole of block `j` lies clear of the headers rewritten for block `i`. */
  lemma CutApart(bs: seq<Block>, bs': seq<Block>, i: nat, size: nat, j: nat, o: nat)
    requires IsCut(bs, bs', i, size)
    requires j < |bs| && (j < i || j > i + 1)
    requires o in CutHeaders(bs, i, size)
    ensures o + HEADER_SIZE <= Offset(bs, j) || Offset(bs, j) + HEADER_SIZE + bs[j].size <= o
  {
    if j < i {
      OffsetMonotone(bs, j, i);
      if i + 1 < |bs| {
        OffsetMonotone(bs, j, i + 1);
      }
    } else {
      OffsetMonotone(bs, i, j);
      OffsetMonotone(bs, i + 1, j);
    }
  }

  lemma CutExpected(base: nat, bs: seq<Block>, bs': seq<Block>, i: nat, size: nat, j: nat)
    requires IsCut(bs, bs', i, size)
    requires j < |bs| && (j < i || j > i + 1)
    ensures var j' := if j < i then j else j + 1;
      Offset(bs', j') == Offset(bs, j) && Expected(base, bs', j') == Expected(base, bs, j)
  {
    if j > i + 1 {
      assert bs'[(j - 1) + 1] == bs[j - 1];
      if j + 1 < |bs| { assert bs'[(j + 1) + 1] == bs[j + 1]; }
    }
  }

  lemma CutHeader(m: seq<byte>, m': seq<byte>, bs: seq<Block>, bs': seq<Block>, i: nat, size: nat, j: nat)
    requires |m| == Total(bs)
    requires IsCut(bs, bs', i, size)
    requires OnlyHeaders(m, m', CutHeaders(bs, i, size))
    requires j < |bs| && (j < i || j > i + 1)
    ensures Offset(bs, j) + HEADER_SIZE <= |m| == |m'|
    ensures ReadHeader(m', Offset(bs, j)) == ReadHeader(m, Offset(bs, j))
  {
    forall o | o in CutHeaders(bs, i, size)
      ensures o + HEADER_SIZE <= Offset(bs, j) || Offset(bs, j) + HEADER_SIZE <= o
    {
      CutApart(bs, bs', i, size, j, o);
    }
    OffsetMonotone(bs, j, |bs|);
    HeaderFrame(m, m', CutHeaders(bs, i, size), Offset(bs, j));
  }

  lemma CutHeaderOk(base: nat, m: seq<byte>, m': seq<byte>, bs: seq<Block>, bs': seq<Block>, i: nat, size: nat, j: nat)
    requires |m| == Total(bs)
    requires IsCut(bs, bs', i, size)
    requires OnlyHeaders(m, m', CutHeaders(bs, i, size))
    requires j < |bs| && (j < i || j > i + 1)
    ensures HeaderOk(base, m, bs, j) <==> HeaderOk(base, m', bs', if j < i then j else j + 1)
  {
    hide OnlyHeaders, ReadHeader;
    CutExpected(base, bs, bs', i, size, j);
    CutHeader(m, m', bs, bs', i, size, j);
  }

  lemma CutAligned(bs: seq<Block>, bs': seq<Block>, i: nat, size: nat)
    requires IsCut(bs, bs', i, size) && size % 16 == 0 && 16 <= size && size + HEADER_SIZE + 16 <= bs[i].size
    ensures Aligned(bs) <==> Aligned(bs')
  {
    hide Total, Offset;
    forall j' | 0 <= j' < |bs'| && Aligned(bs) ensures bs'[j'].size >= 16 && bs'[j'].size % 16 == 0 {
      if j' > i + 1 { assert bs'[(j' - 1) + 1] == bs[j' - 1]; }
    }
    forall j | 0 <= j < |bs| && Aligned(bs') ensures bs[j].size >= 16 && bs[j].size % 16 == 0 {
      if j > i { assert bs'[j + 1] == bs[j]; }
    }
  }

  lemma CutLinked(base: nat, m: seq<byte>, m': seq<byte>, bs: seq<Block>, bs': seq<Block>, i: nat, size: nat)
    requires Linked(base, m, bs) && IsCut(bs, bs', i, size)
    requires size % 16 == 0 && 16 <= size && size + HEADER_SIZE + 16 <= bs[i].size
    requires OnlyHeaders(m, m', CutHeaders(bs, i, size))
    requires forall j :: i <= j <= i + 2 && j < |bs'| ==> HeaderOk(base, m', bs', j)
    ensures Linked(base, m', bs')
  {
    hide OnlyHeaders, ReadHeader, HeaderOk, Total, Offset, Aligned;
    SameLength(m, m', CutHeaders(bs, i, size));
    CutAligned(bs, bs', i, size);
    forall j' | 0 <= j' < |bs'| ensures HeaderOk(base, m', bs', j') {
      if j' < i {
        CutHeaderOk(base, m, m', bs, bs', i, size, j');
      } else if j' > i + 2 {
        CutHeaderOk(base, m, m', bs, bs', i, size, j' - 1);
      }
    }
  }

  lemma JoinLinked(base: nat, m: seq<byte>, m': seq<byte>, bs: seq<Block>, bs': seq<Block>, i: nat, size: nat)
    requires Linked(base, m, bs) && IsCut(bs', bs, i, size)
    requires OnlyHeaders(m', m, CutHeaders(bs', i, size))
    requires forall j :: i <= j <= i + 1 && j < |bs'| ==> HeaderOk(base, m', bs', j)
    ensures Linked(base, m', bs')
  {
    hide OnlyHeaders, ReadHeader, HeaderOk, Total, Offset;
    SameLength(m', m, CutHeaders(bs', i, size));
    assert bs[i].size % 16 == 0 && bs[i + 1].size >= 16;
    CutAligned(bs', bs, i, size);
    forall j | 0 <= j < |bs'| ensures HeaderOk(base, m', bs', j) {
      if j < i || j > i + 1 {
        CutHeaderOk(base, m', m, bs', bs, i, size, j);
        assert HeaderOk(base, m, bs, if j < i then j else j + 1);
      }
    }
  }

  /** Live block `j` of one list is block `j'` of the other, with the same address and bytes. */
  predicate SameLive(base: nat, m: seq<byte>, bs: seq<Block>, j: nat, m': seq<byte>, bs': seq<Block>, j': nat)
    requires j < |bs| && j' < |bs'| && |m| == Total(bs) && |m'| == Total(bs')
  {
    Ptr(base, bs, j) == Ptr(base, bs', j') && Payload(m, bs, j) == Payload(m', bs', j')
  }

  /** A cut leaves every block other than `i` and the piece behind it as it was. */
  lemma CutKeeps(base: nat, m: seq<byte>, m': seq<byte>, bs: seq<Block>, bs': seq<Block>, i: nat, size: nat, j: nat)
    requires |m| == Total(bs) && IsCut(bs, bs', i, size)
    requires OnlyHeaders(m, m', CutHeaders(bs, i, size))
    requires j < |bs| && j != i
    ensures SameLive(base, m, bs, j, m', bs', if j < i then j else j + 1)
  {
    hide OnlyHeaders, Total;
    OffsetMonotone(bs, j, |bs|);
    OffsetNext(bs, i);
    var lo := Offset(bs, j) + HEADER_SIZE;
    forall o | o in CutHeaders(bs, i, size) ensures o + HEADER_SIZE <= lo || lo + bs[j].size <= o {
      if j != i + 1 { CutApart(bs, bs', i, size, j, o); }
    }
    RangeFrame(m, m', CutHeaders(bs, i, size), lo, lo + bs[j].size);
  }

  /** What a cut leaves of block `i` itself. */
  lemma CutShortens(base: nat, m: seq<byte>, m': seq<byte>, bs: seq<Block>, bs': seq<Block>, i: nat, size: nat)
    requires |m| == Total(bs) && IsCut(bs, bs', i, size)
    requires OnlyHeaders(m, m', CutHeaders(bs, i, size))
    ensures Ptr(base, bs', i) == Ptr(base, bs, i) && Payload(m', bs', i) == Payload(m, bs, i)[..size]
  {
    hide OnlyHeaders, Total;
    SameLength(m, m', CutHeaders(bs, i, size));
    OffsetNext(bs, i);
    OffsetMonotone(bs, i, |bs|);
    var lo := Offset(bs, i) + HEADER_SIZE;
    RangeFrame(m, m', CutHeaders(bs, i, size), lo, lo + size);
    SliceOfSlice(m, lo, size, bs[i].size);
  }

  lemma SliceOfSlice(m: seq<byte>, lo: nat, n: nat, k: nat)
    requires n <= k && lo + k <= |m|
    ensures m[lo..lo + k][..n] == m[lo..lo + n]
  {
  }

  /** Only block `i`'s allocation, if it is live, is affected by a cut: it is shortened. */
  lemma CutContents(base: nat, m: seq<byte>, m': seq<byte>, bs: seq<Block>, bs': seq<Block>, i: nat, size: nat, q: nat)
    requires |m| == Total(bs) && IsCut(bs, bs', i, size)
    requires OnlyHeaders(m, m', CutHeaders(bs, i, size))
    ensures Contents(base, m', bs', q) ==
      if q == Ptr(base, bs, i) && !bs[i].free then Some(Payload(m, bs, i)[..size]) else Contents(base, m, bs, q)
  {
    hide OnlyHeaders, Payload, Total, Offset;
    SameLength(m, m', CutHeaders(bs, i, size));
    CutShortens(base, m, m', bs, bs', i, size);
    if q == Ptr(base, bs, i) {
      ContentsAt(base, m, bs, i);
      ContentsAt(base, m', bs', i);
    } else {
      forall j: nat | LiveAt(base, bs, j, q) ensures Contents(base, m', bs', q) == Contents(base, m, bs, q) {
        CutKeeps(base, m, m', bs, bs', i, size, j);
        ContentsAt(base, m, bs, j);
        ContentsAt(base, m', bs', if j < i then j else j + 1);
      }
      forall j': nat | LiveAt(base, bs', j', q) ensures exists j: nat :: LiveAt(base, bs, j, q) {
        var j := if j' < i then j' else j' - 1;
        CutKeeps(base, m, m', bs, bs', i, size, j);
        assert LiveAt(base, bs, j, q);
      }
    }
  }

  // ---------------------------------------------------------------- changing a flag

  lemma {:induction false} TotalSizes(xs: seq<Block>, ys: seq<Block>)
    requires |xs| == |ys| && forall i :: 0 <= i < |xs| ==> xs[i].size == ys[i].size
    ensures Total(xs) == Total(ys)
  {
    if xs != [] {
      TotalSizes(xs[1..], ys[1..]);
    }
  }

  /** `bs'` is `bs` with block `i`'s flag set to `free`. */
  ghost predicate IsFlag(bs: seq<Block>, bs': seq<Block>, i: nat, free: bool) {
    && i < |bs| == |bs'| && Total(bs') == Total(bs)
    && bs'[i] == Block(bs[i].size, free)
    && forall j :: 0 <= j < |bs| ==>
      Offset(bs', j) == Offset(bs, j) && bs'[j].size == bs[j].size && (j != i ==> bs'[j].free == bs[j].free)
  }

  lemma SetFreeIsFlag(bs: seq<Block>, i: nat, free: bool)
    requires i < |bs|
    ensures IsFlag(bs, SetFree(bs, i, free), i, free)
  {
    var bs' := SetFree(bs, i, free);
    TotalSizes(bs, bs');
    forall j | 0 <= j < |bs| ensures Offset(bs', j) == Offset(bs, j) {
      TotalSizes(bs[..j], bs'[..j]);
    }
  }

  /** Block `j` lies clear of block `i`'s header. */
  lemma FlagApart(bs: seq<Block>, i: nat, j: nat)
    requires i < |bs| && j < |bs|
    ensures Offset(bs, j) + HEADER_SIZE + bs[j].size <= Total(bs)
    ensures Offset(bs, i) + HEADER_SIZE <= Offset(bs, j) + HEADER_SIZE || Offset(bs, j) + HEADER_SIZE + bs[j].size <= Offset(bs, i)
    ensures j != i ==> Offset(bs, i) + HEADER_SIZE <= Offset(bs, j) || Offset(bs, j) + HEADER_SIZE <= Offset(bs, i)
  {
    OffsetMonotone(bs, j, |bs|);
    if j < i { OffsetMonotone(bs, j, i); }
    if i < j { OffsetMonotone(bs, i, j); }
  }

  lemma FlagKeeps(m: seq<byte>, m': seq<byte>, bs: seq<Block>, bs': seq<Block>, i: nat, free: bool, j: nat)
    requires |m| == Total(bs) && j < |bs| && IsFlag(bs, bs', i, free)
    requires OnlyHeaders(m, m', {Offset(bs, i)})
    ensures Payload(m', bs', j) == Payload(m, bs, j)
  {
    hide OnlyHeaders;
    FlagApart(bs, i, j);
    var lo := Offset(bs, j) + HEADER_SIZE;
    RangeFrame(m, m', {Offset(bs, i)}, lo, lo + bs[j].size);
  }

  lemma FlagLinked(base: nat, m: seq<byte>, m': seq<byte>, bs: seq<Block>, bs': seq<Block>, i: nat, free: bool)
    requires Linked(base, m, bs) && IsFlag(bs, bs', i, free)
    requires OnlyHeaders(m, m', {Offset(bs, i)})
    requires HeaderOk(base, m', bs', i)
    ensures Linked(base, m', bs')
  {
    assert |m'| == |m|;
    hide OnlyHeaders, ReadHeader;
    forall j | 0 <= j < |bs| ensures HeaderOk(base, m', bs', j) {
      if j != i {
        assert HeaderOk(base, m, bs, j);
        FlagApart(bs, i, j);
        HeaderFrame(m, m', {Offset(bs, i)}, Offset(bs, j));
      }
    }
  }

  lemma FlagContents(base: nat, m: seq<byte>, m': seq<byte>, bs: seq<Block>, bs': seq<Block>, i: nat, free: bool, q: nat)
    requires |m| == Total(bs) && IsFlag(bs, bs', i, free)
    requires OnlyHeaders(m, m', {Offset(bs, i)})
    ensures Contents(base, m', bs', q) ==
      if q != Ptr(base, bs, i) then Contents(base, m, bs, q) else if free then None else Some(Payload(m, bs, i))
  {
    hide OnlyHeaders, Payload, Total, Offset;
    SameLength(m, m', {Offset(bs, i)});
    if q == Ptr(base, bs, i) {
      FlagKeeps(m, m', bs, bs', i, free, i);
      ContentsAt(base, m', bs', i);
    } else {
      forall j: nat | LiveAt(base, bs, j, q) ensures Contents(base, m', bs', q) == Contents(base, m, bs, q) {
        FlagKeeps(m, m', bs, bs', i, free, j);
        ContentsAt(base, m, bs, j);
        ContentsAt(base, m', bs', j);
      }
      forall j: nat | LiveAt(base, bs', j, q) ensures exists j: nat :: LiveAt(base, bs, j, q) {
        assert LiveAt(base, bs, j, q);
      }
    }
  }

  // ---------------------------------------------------------------- writing inside a payload

  /** `m'` differs from `m` only inside block `i`'s payload. */
  predicate OnlyPayload(m: seq<byte>, m': seq<byte>, bs: seq<Block>, i: nat)
    requires i < |bs|
  {
    && |m| == |m'| == Total(bs)
    && var lo := Offset(bs, i) + HEADER_SIZE;
    forall k :: 0 <= k < |m| && !(lo <= k < lo + bs[i].size) ==> m[k] == m'[k]
  }

  lemma WriteLinked(base: nat, m: seq<byte>, m': seq<byte>, bs: seq<Block>, i: nat)
    requires Linked(base, m, bs) && i < |bs| && OnlyPayload(m, m', bs, i)
    ensures Linked(base, m', bs)
  {
    forall j | 0 <= j < |bs| ensures HeaderOk(base, m', bs, j) {
      assert HeaderOk(base, m, bs, j);
      FlagApart(bs, j, i);
      ReadHeaderFrame(m, m', Offset(bs, j));
    }
  }

  lemma WriteContents(base: nat, m: seq<byte>, m': seq<byte>, bs: seq<Block>, i: nat, q: nat)
    requires i < |bs| && OnlyPayload(m, m', bs, i) && q != Ptr(base, bs, i)
    ensures Contents(base, m', bs, q) == Contents(base, m, bs, q)
  {
    if j: nat :| LiveAt(base, bs, j, q) {
      OffsetMonotone(bs, j, |bs|);
      if j < i { OffsetMonotone(bs, j, i); } else { OffsetMonotone(bs, i, j); }
      assert Payload(m', bs, j) == Payload(m, bs, j);
      ContentsAt(base, m, bs, j);
      ContentsAt(base, m', bs, j);
    }
  }

  // ---------------------------------------------------------------- joining runs

  lemma FuseJoin(bs: seq<Block>, lo: nat, i: nat)
    requires lo <= i && i + 1 < |bs| && bs[i].free
    ensures Fuse(Join(bs, i), lo, i) == Fuse(bs, lo, i + 1)
  {
    var b := Join(bs, i)[i];
    assert Join(bs, i)[lo..i + 1] == bs[lo..i] + [b];
    assert bs[lo..i + 2] == bs[lo..i] + [bs[i], bs[i + 1]];
    TotalAppend(bs[lo..i], [b]);
    TotalAppend(bs[lo..i], [bs[i], bs[i + 1]]);
    assert Total([b]) == Total([bs[i], bs[i + 1]]) by {
      assert [bs[i], bs[i + 1]][1..] == [bs[i + 1]];
      assert [bs[i + 1]][1..] == [] == [b][1..];
    }
    assert Join(bs, i)[i + 1..] == bs[i + 2..];
    assert Join(bs, i)[..lo] == bs[..lo];
  }

  lemma FuseOne(bs: seq<Block>, i: nat)
    requires i < |bs| && bs[i].free
    ensures Fuse(bs, i, i) == bs
  {
    assert bs[i..i + 1] == [bs[i]];
    assert Total([bs[i]]) == HEADER_SIZE + bs[i].size;
  }

  lemma {:induction false} RunStartPrefix(bs: seq<Block>, bs': seq<Block>, i: nat)
    requires i < |bs| && i < |bs'| && bs[..i] == bs'[..i]
    ensures RunStart(bs, i) == RunStart(bs', i)
  {
    if i > 0 {
      assert bs[i - 1] == bs[..i][i - 1] == bs'[..i][i - 1] == bs'[i - 1];
      assert bs[..i - 1] == bs[..i][..i - 1] == bs'[..i - 1];
      RunStartPrefix(bs, bs', i - 1);
    }
  }

  /** One round of coalesce: join the successor if it is free. */
  function JoinNext(bs: seq<Block>, i: nat): seq<Block>
    requires i < |bs|
  {
    if i + 1 < |bs| && bs[i + 1].free then Join(bs, i) else bs
  }

  /** The recursion of coalesce adds up to one Fuse over the whole run. */
  lemma CoalesceStep(bs: seq<Block>, i: nat)
    requires i < |bs| && bs[i].free
    ensures var bs1 := JoinNext(bs, i);
      && i < |bs1| && bs1[i].free
      && (i > 0 ==> bs1[i - 1] == bs[i - 1])
      && Fuse(bs, RunStart(bs, i), RunEnd(bs, i)) ==
         if i > 0 && bs[i - 1].free then Fuse(bs1, RunStart(bs1, i - 1), RunEnd(bs1, i - 1)) else bs1
  {
    var bs1 := JoinNext(bs, i);
    if i > 0 && bs[i - 1].free {
      assert bs[..i - 1] == bs1[..i - 1];
      RunStartPrefix(bs, bs1, i - 1);
      if i + 1 < |bs| && bs[i + 1].free { FuseJoin(bs, RunStart(bs, i), i); }
    } else if i + 1 < |bs| && bs[i + 1].free {
      FuseJoin(bs, i, i);
      FuseOne(bs1, i);
    } else {
      FuseOne(bs, i);
    }
  }

  // ---------------------------------------------------------------- the allocator

  lemma OnlyHeadersSelf(m: seq<byte>)
    ensures OnlyHeaders(m, m, {})
  {
    forall k | 0 <= k < |m| ensures Untouched(m, m, k, {}) {}
  }

  lemma OnlyHeadersChain(m: seq<byte>, m1: seq<byte>, m2: seq<byte>, os: set<nat>, os': set<nat>, all: set<nat>)
    requires OnlyHeaders(m, m1, os) && OnlyHeaders(m1, m2, os') && os + os' <= all
    ensures OnlyHeaders(m, m2, all)
  {
    forall k | 0 <= k < |m| ensures Untouched(m, m2, k, all) {
      assert Untouched(m, m1, k, os) && Untouched(m1, m2, k, os');
    }
  }

  /** What `q` holds after block `i` was split at `size`. */
  ghost function SplitContents(base: nat, m: seq<byte>, bs: seq<Block>, i: nat, size: nat, q: nat): Option<seq<byte>>
    requires i < |bs| && |m| == Total(bs)
  {
    if Split(bs, i, size) != bs && q == Ptr(base, bs, i) && !bs[i].free then Some(Payload(m, bs, i)[..size])
    else Contents(base, m, bs, q)
  }

  ghost predicate CutStored(base: nat, m: seq<byte>, bs: seq<Block>, i: nat, size: nat)
    requires i < |bs| && size + HEADER_SIZE <= bs[i].size
  {
    var o := Offset(bs, i);
    var o' := o + HEADER_SIZE + size;
    && o' + HEADER_SIZE <= |m|
    && ReadHeader(m, o) == Expected(base, bs, i).(size := size, next := base + o')
    && ReadHeader(m, o') == Header(bs[i].size - size - HEADER_SIZE, true, HEAP_MAGIC, Next(base, bs, i), base + o)
    && (i + 1 < |bs| ==>
      && Offset(bs, i + 1) + HEADER_SIZE <= |m|
      && ReadHeader(m, Offset(bs, i + 1)) == Expected(base, bs, i + 1).(prev := base + o'))
  }

  /** After the stores of split_block the list is the cut list, and nobody's bytes moved. */
  lemma CutWritten(base: nat, m: seq<byte>, m': seq<byte>, bs: seq<Block>, i: nat, size: nat)
    requires Linked(base, m, bs) && i < |bs| && size + HEADER_SIZE + 32 <= bs[i].size && size % 16 == 0 && 16 <= size
    requires OnlyHeaders(m, m', CutHeaders(bs, i, size))
    requires CutStored(base, m', bs, i, size)
    ensures Linked(base, m', Cut(bs, i, size))
    ensures forall q :: Contents(base, m', Cut(bs, i, size), q) == SplitContents(base, m, bs, i, size, q)
  {
    hide ReadHeader, Contents, Payload, OnlyHeaders, Linked, Cut, HeaderOk, CutStored;
    var bs' := Cut(bs, i, size);
    CutIsCut(bs, i, size);
    SameLength(m, m', CutHeaders(bs, i, size));
    CutHeadersOk(base, m, m', bs, i, size);
    LinkedTiles(base, m, bs);
    CutLinked(base, m, m', bs, bs', i, size);
    forall q ensures Contents(base, m', bs', q) == SplitContents(base, m, bs, i, size, q) {
      CutContents(base, m, m', bs, bs', i, size, q);
    }
  }

  lemma SameLength(m: seq<byte>, m': seq<byte>, os: set<nat>)
    requires OnlyHeaders(m, m', os)
    ensures |m| == |m'|
  {
  }

  lemma CutHeadersOk(base: nat, m: seq<byte>, m': seq<byte>, bs: seq<Block>, i: nat, size: nat)
    requires Linked(base, m, bs) && i < |bs| && size + HEADER_SIZE + 32 <= bs[i].size && |m'| == |m|
    requires CutStored(base, m', bs, i, size)
    ensures var bs' := Cut(bs, i, size);
      && HeaderOk(base, m', bs', i) && HeaderOk(base, m', bs', i + 1)
      && (i + 1 < |bs| ==> HeaderOk(base, m', bs', i + 2))
  {
    hide ReadHeader;
    var bs' := Cut(bs, i, size);
    CutIsCut(bs, i, size);
    if i + 1 < |bs| {
      assert bs'[(i + 1) + 1] == bs[i + 1];
      if i + 2 < |bs| {
        assert bs'[(i + 2) + 1] == bs[i + 2];
      }
    }
  }

  lemma OnlyHeadersSymmetric(m: seq<byte>, m': seq<byte>, os: set<nat>)
    requires OnlyHeaders(m, m', os)
    ensures OnlyHeaders(m', m, os)
  {
    forall k | 0 <= k < |m'| ensures Untouched(m', m, k, os) {
      assert Untouched(m, m', k, os);
    }
  }

  lemma JoinOffsets(bs: seq<Block>, i: nat)
    requires i + 1 < |bs| && bs[i + 1].free
    ensures Offset(Join(bs, i), i) == Offset(bs, i)
    ensures i > 0 ==> Offset(Join(bs, i), i - 1) == Offset(bs, i - 1)
    ensures CutHeaders(Join(bs, i), i, bs[i].size) ==
      {Offset(bs, i), Offset(bs, i + 1)} + if i + 2 < |bs| then {Offset(bs, i + 2)} else {}
  {
    JoinIsCut(bs, i);
    if i > 0 { assert bs[i - 1] == Join(bs, i)[i - 1]; }
    if i + 1 < |Join(bs, i)| { assert bs[(i + 1) + 1] == Join(bs, i)[i + 1]; }
  }

  ghost predicate JoinStored(base: nat, m: seq<byte>, bs: seq<Block>, i: nat)
    requires i + 1 < |bs|
  {
    var o := Offset(bs, i);
    && o + HEADER_SIZE <= |m|
    && ReadHeader(m, o) == Expected(base, bs, i).(size := bs[i].size + HEADER_SIZE + bs[i + 1].size, next := Next(base, bs, i + 1))
    && (i + 2 < |bs| ==>
      && Offset(bs, i + 2) + HEADER_SIZE <= |m|
      && ReadHeader(m, Offset(bs, i + 2)) == Expected(base, bs, i + 2).(prev := base + o))
  }

  /** After the stores of one round of coalesce the two blocks are one, and no live bytes moved. */
  lemma JoinWritten(base: nat, m: seq<byte>, m': seq<byte>, bs: seq<Block>, i: nat)
    requires Linked(base, m, bs) && i + 1 < |bs| && bs[i].free && bs[i + 1].free
    requires OnlyHeaders(m', m, CutHeaders(Join(bs, i), i, bs[i].size))
    requires JoinStored(base, m', bs, i)
    ensures Linked(base, m', Join(bs, i))
    ensures forall q :: Contents(base, m', Join(bs, i), q) == Contents(base, m, bs, q)
  {
    hide ReadHeader, Contents, Payload, OnlyHeaders;
    var bs' := Join(bs, i);
    var size := bs[i].size;
    JoinIsCut(bs, i);
    assert HeaderOk(base, m', bs', i);
    if i + 1 < |bs'| {
      assert bs[(i + 1) + 1] == bs'[i + 1];
      if i + 2 < |bs'| { assert bs[(i + 2) + 1] == bs'[i + 2]; }
      assert HeaderOk(base, m', bs', i + 1);
    }
    JoinLinked(base, m, m', bs, bs', i, size);
    forall q ensures Contents(base, m', bs', q) == Contents(base, m, bs, q) {
      CutContents(base, m', m, bs', bs, i, size, q);
    }
  }

  lemma LinkedTiles(base: nat, m: seq<byte>, bs: seq<Block>)
    requires Linked(base, m, bs)
    ensures Tiles(bs) && |m| == Total(bs)
  {
  }

  function Min(a: nat, b: nat): nat {
    if a < b then a else b
  }

  function Max(a: nat, b: nat): nat {
    if a < b then b else a
  }

  /** What `q` holds after block `i`'s flag became `free`. */
  ghost function FlagSetContents(base: nat, m: seq<byte>, bs: seq<Block>, i: nat, free: bool, q: nat): Option<seq<byte>>
    requires i < |bs| && |m| == Total(bs)
  {
    if q != Ptr(base, bs, i) then Contents(base, m, bs, q) else if free then None else Some(Payload(m, bs, i))
  }

  lemma SplitOffset(bs: seq<Block>, i: nat, size: nat)
    requires i < |bs| && size <= bs[i].size
    ensures var bs' := Split(bs, i, size);
      && i < |bs'| && Offset(bs', i) == Offset(bs, i) && bs'[i].free == bs[i].free
      && size <= bs'[i].size < size + HEADER_SIZE + 32
  {
    if Split(bs, i, size) != bs { CutIsCut(bs, i, size); }
  }

  lemma AlignUp(size: nat)
    requires size < TWO_64
    ensures Align16(size) % 16 == 0 && (Align16(size) != 0 ==> size <= Align16(size) < size + 16 && 16 <= Align16(size))
  {
  }

  lemma MallocIs(bs: seq<Block>, size: nat)
    requires FirstFit(bs, size) < |bs|
    ensures Malloc(bs, size) == SetFree(Split(bs, FirstFit(bs, size), size), FirstFit(bs, size), false)
  {
    hide FirstFit, Split, SetFree;
  }

  /** What an allocation does to the list: the block found is taken, and whatever another block with
      32 bytes of payload needs is cut off it and stays free. */
  lemma MallocServes(bs: seq<Block>, size: nat)
    requires FirstFit(bs, size) < |bs|
    ensures var i := FirstFit(bs, size);
      && Malloc(bs, size) == (
        if bs[i].size < size + HEADER_SIZE + 32 then bs[..i] + [Block(bs[i].size, false)] + bs[i + 1..]
        else bs[..i] + [Block(size, false), Block(bs[i].size - size - HEADER_SIZE, true)] + bs[i + 1..])
      && size <= Malloc(bs, size)[i].size < size + HEADER_SIZE + 32
  {
    hide FirstFit;
    var i := FirstFit(bs, size);
    if bs[i].size < size + HEADER_SIZE + 32 {
      assert bs[i := Block(bs[i].size, false)] == bs[..i] + [Block(bs[i].size, false)] + bs[i + 1..];
    } else {
      assert Cut(bs, i, size)[i := Block(size, false)]
        == bs[..i] + [Block(size, false), Block(bs[i].size - size - HEADER_SIZE, true)] + bs[i + 1..];
    }
  }

  lemma MallocLonger(bs: seq<Block>, size: nat)
    ensures |bs| <= |Malloc(bs, size)| <= |bs| + 1
  {
  }

  /** An allocation leaves the other live blocks where they are. */
  lemma MallocMoves(bs: seq<Block>, size: nat, i: nat)
    requires i < |bs| && !bs[i].free
    ensures var j := Moved(bs, size, i); j < |Malloc(bs, size)| && Offset(Malloc(bs, size), j) == Offset(bs, i)
  {
    hide Offset, Total;
    var f := FirstFit(bs, size);
    if f < |bs| {
      var bs1 := Split(bs, f, size);
      if bs1 != bs {
        CutIsCut(bs, f, size);
      }
      SetFreeIsFlag(bs1, f, false);
    }
  }

  lemma MovedIndex(base: nat, bs: seq<Block>, size: nat, i: nat, j: nat)
    requires i < |bs| && !bs[i].free && j < |Malloc(bs, size)| && Ptr(base, Malloc(bs, size), j) == Ptr(base, bs, i)
    ensures j == Moved(bs, size, i)
  {
    hide Malloc, Moved, Offset;
    MallocMoves(bs, size, i);
    PtrInjective(base, Malloc(bs, size), j, Moved(bs, size, i));
  }

  lemma OutsideNotLive(base: nat, m: seq<byte>, bs: seq<Block>, p: nat)
    requires Tiles(bs) && |m| == Total(bs)
    requires p == 0 || p < base || p >= base + HEAP_SIZE
    ensures Contents(base, m, bs, p) == None
  {
    if i: nat :| LiveAt(base, bs, i, p) {
      OffsetMonotone(bs, i, |bs|);
    }
  }

  lemma FreeFlag(bs: seq<Block>, i: nat)
    requires i < |bs|
    ensures var bs' := SetFree(bs, i, true); Fuse(bs', RunStart(bs', i), RunEnd(bs', i)) == Free(bs, i)
  {
    hide Fuse, Total, RunStart;
    var bs' := SetFree(bs, i, true);
    RunStartPrefix(bs, bs', i);
    FuseFlag(bs, bs', RunStart(bs, i), RunEnd(bs, i), i);
  }

  lemma FuseFlag(bs: seq<Block>, bs': seq<Block>, lo: nat, hi: nat, i: nat)
    requires lo <= i <= hi < |bs| && bs' == SetFree(bs, i, true)
    ensures Fuse(bs', lo, hi) == Fuse(bs, lo, hi)
  {
    hide Total;
    TotalSizes(bs[lo..hi + 1], bs'[lo..hi + 1]);
    assert bs[..lo] == bs'[..lo] && bs[hi + 1..] == bs'[hi + 1..];
  }

  /** The overflow test of kcalloc is exact. */
  lemma Overflow(count: nat, size: nat, limit: nat)
    requires limit > 0
    ensures count != 0 && size > (limit - 1) / count <==> count * size >= limit
  {
    if count != 0 {
      var q, r := (limit - 1) / count, (limit - 1) % count;
      assert limit - 1 == count * q + r;
      if size > q {
        assert count * size >= count * (q + 1);
      } else {
        assert count * size <= count * q;
      }
    }
  }

  lemma PtrInside(base: nat, bs: seq<Block>, i: nat)
    requires Tiles(bs) && i < |bs|
    ensures base + HEADER_SIZE <= Ptr(base, bs, i) && Ptr(base, bs, i) + bs[i].size <= base + HEAP_SIZE
    ensures Ptr(base, bs, i) < base + HEAP_SIZE
  {
    OffsetMonotone(bs, i, |bs|);
  }

  lemma AlignWithin(n: nat, size: nat)
    requires 0 < n <= size < TWO_64 && size % 16 == 0
    ensures n <= Align16(n) <= size && 16 <= Align16(n)
  {
  }

  /** One free block whose header stands at the start is a heap with nothing live. */
  lemma OneBlockLinked(base: nat, m: seq<byte>, bs: seq<Block>)
    requires bs == [Block(HEAP_SIZE - HEADER_SIZE, true)] && |m| == HEAP_SIZE
    requires ReadHeader(m, 0) == Header(HEAP_SIZE - HEADER_SIZE, true, HEAP_MAGIC, 0, 0)
    ensures Linked(base, m, bs) && forall q :: Contents(base, m, bs, q) == None
  {
    hide ReadHeader, Payload;
    assert bs[1..] == [] && bs[..0] == [];
    assert Total(bs) == HEADER_SIZE + bs[0].size + Total(bs[1..]);
    assert HeaderOk(base, m, bs, 0);
  }

  class Heap {
    const base: nat
    const mem: array<byte>
    var head: nat
    var highwater: nat
    ghost var Blocks: seq<Block>

    ghost predicate Valid()
      reads this, mem
    {
      && 0 < base && base % 16 == 0 && base + HEAP_SIZE < TWO_64
      && head == base
      && mem.Length == HEAP_SIZE
      && Linked(base, mem[..], Blocks)
    }

    /** Bytes of the live allocation at `q`, if there is one. */
    ghost function Get(q: nat): Option<seq<byte>>
      requires Valid()
      reads this, mem
    {
      Contents(base, mem[..], Blocks, q)
    }

    /** `r` is the address handed out for block `i`. */
    ghost predicate IsPtr(r: nat, i: nat)
      requires Valid()
      reads this, mem
    {
      i < |Blocks| && r == Ptr(base, Blocks, i)
    }

    ghost predicate IsBlock(b: nat, i: nat)
      requires Valid()
      reads this, mem
    {
      i < |Blocks| && b == base + Offset(Blocks, i)
    }

    /** heap_init: one free block over the whole array, which starts at address `start`. */
    constructor (start: nat)
      requires 0 < start && start % 16 == 0 && start + HEAP_SIZE < TWO_64
      ensures Valid() && fresh(mem) && base == start
      ensures Blocks == [Block(HEAP_SIZE - HEADER_SIZE, true)]
      ensures highwater == HEADER_SIZE
      ensures forall q :: Get(q) == None
    {
      base := start;
      mem := new byte[HEAP_SIZE];
      head := start;
      highwater := HEADER_SIZE;
      Blocks := [Block(HEAP_SIZE - HEADER_SIZE, true)];
      new;
      hide ReadHeader, Linked, Payload;
      StoreHeader(mem, 0, Header(HEAP_SIZE - HEADER_SIZE, true, HEAP_MAGIC, 0, 0));
      OneBlockLinked(base, mem[..], Blocks);
    }

    /** What the header of block `i` says, and that it can be read where `b` points. */
    lemma AtBlock(b: nat, i: nat)
      requires Valid() && IsBlock(b, i)
      ensures base <= b && b - base + HEADER_SIZE + Blocks[i].size <= HEAP_SIZE == mem.Length
      ensures ReadHeader(mem[..], b - base) == Expected(base, Blocks, i)
      ensures Expected(base, Blocks, i).Storable()
      ensures i + 1 < |Blocks| ==> IsBlock(Next(base, Blocks, i), i + 1)
      ensures i > 0 ==> IsBlock(Prev(base, Blocks, i), i - 1)
    {
      assert HeaderOk(base, mem[..], Blocks, i);
      OffsetMonotone(Blocks, i, |Blocks|);
      if i + 1 < |Blocks| { OffsetMonotone(Blocks, i + 1, |Blocks|); }
      if i > 0 { OffsetMonotone(Blocks, i - 1, |Blocks|); }
    }

    function HeaderAt(b: nat): Header
      requires base <= b && b - base + HEADER_SIZE <= mem.Length
      reads mem
    {
      ReadHeader(mem[..], b - base)
    }

    method SetHeader(b: nat, h: Header)
      requires base <= b && b - base + HEADER_SIZE <= mem.Length && h.Storable()
      modifies mem
      ensures HeaderAt(b) == h
      ensures OnlyHeaders(old(mem[..]), mem[..], {b - base})
      ensures forall o :: 0 <= o && o + HEADER_SIZE <= mem.Length && (o + HEADER_SIZE <= b - base || b - base + HEADER_SIZE <= o) ==>
        ReadHeader(mem[..], o) == old(ReadHeader(mem[..], o))
    {
      ghost var was := mem[..];
      StoreHeader(mem, b - base, h);
      ghost var os := {b - base};
      forall k | 0 <= k < |was| ensures Untouched(was, mem[..], k, os) {
        if b - base <= k < b - base + HEADER_SIZE { assert b - base in os; }
      }
      forall o | 0 <= o && o + HEADER_SIZE <= mem.Length && (o + HEADER_SIZE <= b - base || b - base + HEADER_SIZE <= o)
        ensures ReadHeader(mem[..], o) == ReadHeader(was, o) {
        ReadHeaderFrame(was, mem[..], o);
      }
    }

    /** The header at `b` can be written, and lies clear of the one at `c`. */
    predicate Clear(b: nat, c: nat)
    {
      base <= b && b - base + HEADER_SIZE <= mem.Length && (b + HEADER_SIZE <= c || c + HEADER_SIZE <= b)
    }

    /** The stores of split_block: the new header behind `size` bytes, its successor's back link, the cut header. */
    method WriteCut(b: nat, next: nat, size: nat, h: Header, ghost after: Header)
      requires Clear(b, next) && Clear(next, b) && b < TWO_64 && next < TWO_64
      requires h == HeaderAt(b) && h.Storable() && size + HEADER_SIZE <= h.size
      requires h.next != 0 ==> Clear(h.next, b) && Clear(h.next, next) && after == HeaderAt(h.next) && after.Storable()
      modifies mem
      ensures HeaderAt(b) == h.(size := size, next := next)
      ensures HeaderAt(next) == Header(h.size - size - HEADER_SIZE, true, HEAP_MAGIC, h.next, b)
      ensures h.next != 0 ==> HeaderAt(h.next) == after.(prev := next)
      ensures OnlyHeaders(old(mem[..]), mem[..], {b - base, next - base} + if h.next != 0 then {h.next - base} else {})
    {
      hide ReadHeader, OnlyHeaders;
      ghost var os := {b - base, next - base} + if h.next != 0 then {h.next - base} else {};
      ghost var m := mem[..];
      SetHeader(next, Header(h.size - size - HEADER_SIZE, true, HEAP_MAGIC, h.next, b));
      OnlyHeadersSelf(m);
      OnlyHeadersChain(m, m, mem[..], {}, {next - base}, os);
      if h.next != 0 {
        ghost var m1 := mem[..];
        SetHeader(h.next, HeaderAt(h.next).(prev := next));
        OnlyHeadersChain(m, m1, mem[..], os, {h.next - base}, os);
      }
      ghost var m2 := mem[..];
      SetHeader(b, h.(next := next, size := size));
      OnlyHeadersChain(m, m2, mem[..], os, {b - base}, os);
    }

    /** split_block on block `i`. */
    method SplitBlock(b: nat, size: nat, ghost i: nat)
      requires Valid() && IsBlock(b, i) && size % 16 == 0 && 16 <= size
      modifies mem, `Blocks
      ensures Valid()
      ensures Blocks == Split(old(Blocks), i, size)
      ensures forall q :: Get(q) == SplitContents(base, old(mem[..]), old(Blocks), i, size, q)
    {
      hide ReadHeader, OnlyHeaders, Contents, Linked;
      AtBlock(b, i);
      if HeaderAt(b).size < size + HEADER_SIZE + 32 {
        return;
      }
      ghost var bs, m := Blocks, mem[..];
      if i + 1 < |bs| {
        AtBlock(Next(base, bs, i), i + 1);
        OffsetNext(bs, i);
      }
      WriteCut(b, b + HEADER_SIZE + size, size, HeaderAt(b), if i + 1 < |bs| then Expected(base, bs, i + 1) else Expected(base, bs, i));
      Blocks := Cut(bs, i, size);
      CutWritten(base, m, mem[..], bs, i, size);
    }

    /** The stores with which coalesce swallows the successor `h.next` of `b`. */
    method WriteJoin(b: nat, h: Header, hn: Header, ghost after: Header)
      requires Clear(b, h.next) && Clear(h.next, b) && b < TWO_64
      requires h == HeaderAt(b) && hn == HeaderAt(h.next)
      requires h.Storable() && hn.Storable() && h.size + HEADER_SIZE + hn.size < TWO_64
      requires hn.next != 0 ==> Clear(hn.next, b) && Clear(hn.next, h.next) && after == HeaderAt(hn.next) && after.Storable()
      modifies mem
      ensures HeaderAt(b) == h.(size := h.size + HEADER_SIZE + hn.size, next := hn.next)
      ensures hn.next != 0 ==> HeaderAt(hn.next) == after.(prev := b)
      ensures OnlyHeaders(mem[..], old(mem[..]), {b - base, h.next - base} + if hn.next != 0 then {hn.next - base} else {})
    {
      hide ReadHeader, OnlyHeaders;
      ghost var os := {b - base, h.next - base} + if hn.next != 0 then {hn.next - base} else {};
      ghost var m := mem[..];
      SetHeader(b, h.(size := h.size + HEADER_SIZE + hn.size, next := hn.next));
      OnlyHeadersSelf(m);
      OnlyHeadersChain(m, m, mem[..], {}, {b - base}, os);
      if hn.next != 0 {
        ghost var m1 := mem[..];
        SetHeader(hn.next, HeaderAt(hn.next).(prev := b));
        OnlyHeadersChain(m, m1, mem[..], os, {hn.next - base}, os);
      }
      OnlyHeadersSymmetric(m, mem[..], os);
    }

    /** The first half of coalesce: join the successor if it is free. The magic checks of the
        source always succeed on a valid heap. */
    method JoinSuccessor(b: nat, ghost i: nat)
      requires Valid() && IsBlock(b, i) && Blocks[i].free
      modifies mem, `Blocks
      ensures Valid()
      ensures Blocks == JoinNext(old(Blocks), i)
      ensures Offset(Blocks, i) == Offset(old(Blocks), i)
      ensures forall q :: Get(q) == old(Get(q))
    {
      hide ReadHeader, OnlyHeaders, Contents, Linked, Total;
      ghost var bs, m := Blocks, mem[..];
      AtBlock(b, i);
      var h := HeaderAt(b);
      if i + 1 < |bs| { AtBlock(h.next, i + 1); OffsetNext(bs, i); }
      if h.magic == HEAP_MAGIC && h.next != 0 && HeaderAt(h.next).magic == HEAP_MAGIC && HeaderAt(h.next).free {
        if i + 2 < |bs| { AtBlock(HeaderAt(h.next).next, i + 2); OffsetNext(bs, i + 1); }
        JoinOffsets(bs, i);
        WriteJoin(b, h, HeaderAt(h.next), Expected(base, bs, if i + 2 < |bs| then i + 2 else i));
        Blocks := Join(bs, i);
        JoinWritten(base, m, mem[..], bs, i);
      }
    }

    /** coalesce on a block just freed: one successor, then leftwards as long as blocks are free. */
    method Coalesce(b: nat, ghost i: nat)
      requires Valid() && IsBlock(b, i) && Blocks[i].free
      modifies mem, `Blocks
      ensures Valid()
      ensures Blocks == Fuse(old(Blocks), RunStart(old(Blocks), i), RunEnd(old(Blocks), i))
      ensures forall q :: Get(q) == old(Get(q))
      decreases i
    {
      hide ReadHeader, Contents, Linked, Fuse, RunStart, RunEnd, JoinNext;
      CoalesceStep(Blocks, i);
      JoinSuccessor(b, i);
      AtBlock(b, i);
      var p := HeaderAt(b).prev;
      if i > 0 { AtBlock(p, i - 1); }
      if p != 0 && HeaderAt(p).magic == HEAP_MAGIC && HeaderAt(p).free {
        Coalesce(p, i - 1);
      }
    }

    method SetFlag(b: nat, free: bool, ghost i: nat)
      requires Valid() && IsBlock(b, i)
      modifies mem, `Blocks
      ensures Valid()
      ensures Blocks == SetFree(old(Blocks), i, free)
      ensures forall q :: Get(q) == FlagSetContents(base, old(mem[..]), old(Blocks), i, free, q)
    {
      hide ReadHeader, OnlyHeaders, Contents, Payload;
      ghost var bs, m := Blocks, mem[..];
      AtBlock(b, i);
      SetHeader(b, HeaderAt(b).(free := free));
      Blocks := SetFree(bs, i, free);
      SetFreeIsFlag(bs, i, free);
      assert HeaderOk(base, mem[..], Blocks, i) by {
        if i + 1 < |bs| { assert Offset(Blocks, i + 1) == Offset(bs, i + 1); }
        if i > 0 { assert Offset(Blocks, i - 1) == Offset(bs, i - 1); }
      }
      FlagLinked(base, m, mem[..], bs, Blocks, i, free);
      forall q ensures Get(q) == FlagSetContents(base, m, bs, i, free, q) {
        FlagContents(base, m, mem[..], bs, Blocks, i, free, q);
      }
    }

    /** The search loop of kmalloc. */
    method FindFit(need: nat) returns (b: nat)
      requires Valid()
      ensures var i := FirstFit(Blocks, need); if i < |Blocks| then b != 0 && IsBlock(b, i) else b == 0
    {
      hide ReadHeader, Contents, Linked;
      LinkedTiles(base, mem[..], Blocks);
      b := head;
      ghost var i := 0;
      AtBlock(b, 0);
      while b != 0 && HeaderAt(b).magic == HEAP_MAGIC && !(HeaderAt(b).free && HeaderAt(b).size >= need)
        invariant i <= |Blocks|
        invariant i == |Blocks| ==> b == 0
        invariant i < |Blocks| ==>
          b != 0 && IsBlock(b, i) && b - base + HEADER_SIZE <= mem.Length && HeaderAt(b) == Expected(base, Blocks, i)
        invariant forall j :: 0 <= j < i ==> !FitsIn(Blocks[j], need)
        decreases |Blocks| - i
      {
        AtBlock(b, i);
        b := HeaderAt(b).next;
        i := i + 1;
        if i < |Blocks| { AtBlock(b, i); }
      }
    }

    /** kmalloc: the first free block that is large enough, cut to the rounded size. */
    method Kmalloc(size: nat) returns (r: nat)
      requires Valid() && size < TWO_64
      modifies this`Blocks, this`highwater, mem
      ensures Valid()
      ensures r != 0 <==> Align16(size) != 0 && exists i :: 0 <= i < |old(Blocks)| && FitsIn(old(Blocks)[i], Align16(size))
      ensures r == 0 ==> Blocks == old(Blocks) && mem[..] == old(mem[..]) && highwater == old(highwater)
      ensures r != 0 ==>
        && Blocks == Malloc(old(Blocks), Align16(size))
        && IsPtr(r, FirstFit(old(Blocks), Align16(size)))
        && r % 16 == 0
        && old(Get(r)) == None && Get(r).Some? && |Get(r).value| >= size
        && highwater == Max(old(highwater), r + |Get(r).value| - base)
      // no more is handed out than another block needs, and the rest stays on the list
      ensures r != 0 ==> |Get(r).value| < Align16(size) + HEADER_SIZE + 32
      ensures r != 0 ==>
        var was, need, i := old(Blocks), Align16(size), FirstFit(old(Blocks), Align16(size));
        Blocks == (
          if was[i].size < need + HEADER_SIZE + 32 then was[..i] + [Block(was[i].size, false)] + was[i + 1..]
          else was[..i] + [Block(need, false), Block(was[i].size - need - HEADER_SIZE, true)] + was[i + 1..])
      ensures forall q :: q != r ==> Get(q) == old(Get(q))
    {
      hide ReadHeader, OnlyHeaders, Contents, Linked, Payload, Total, Malloc, Split, SetFree, Offset, Align16;
      var need := Align16(size);
      AlignUp(size);
      if need == 0 {
        return 0;
      }
      var b := FindFit(need);
      if b == 0 {
        return 0;
      }
      ghost var bs, m := Blocks, mem[..];
      ghost var i := FirstFit(bs, need);
      r := b + HEADER_SIZE;
      LinkedTiles(base, m, bs);
      OffsetAligned(bs, i);
      ContentsAt(base, m, bs, i);
      SplitBlock(b, need, i);
      SplitOffset(bs, i, need);
      MallocIs(bs, need);
      MallocServes(bs, need);
      assert forall q :: Get(q) == Contents(base, m, bs, q);
      SetFlag(b, false, i);
      assert forall q :: q != r ==> Get(q) == Contents(base, m, bs, q);
      SetFreeIsFlag(Split(bs, i, need), i, false);
      LinkedTiles(base, mem[..], Blocks);
      ContentsAt(base, mem[..], Blocks, i);
      AtBlock(b, i);
      var end := b + HEADER_SIZE + HeaderAt(b).size - base;
      if end > highwater {
        highwater := end;
      }
    }

    /** A pointer into the heap with something else than a block's magic number in front of it. */
    ghost predicate Unmarked(ptr: nat)
      requires Valid()
      reads this, mem
    {
      base + HEADER_SIZE <= ptr < base + HEAP_SIZE && HeaderAt(ptr - HEADER_SIZE).magic != HEAP_MAGIC
    }

    lemma UnmarkedNotLive(ptr: nat)
      requires Valid() && Unmarked(ptr)
      ensures Get(ptr) == None && forall j :: !IsPtr(ptr, j)
    {
      forall j: nat ensures !IsPtr(ptr, j) {
        if IsPtr(ptr, j) {
          AtBlock(ptr - HEADER_SIZE, j);
        }
      }
      LinkedTiles(base, mem[..], Blocks);
      hide Linked, Payload, ReadHeader;
      assert forall j: nat :: LiveAt(base, Blocks, j, ptr) ==> IsPtr(ptr, j);
    }

    lemma PtrMarked(ptr: nat, i: nat)
      requires Valid() && IsPtr(ptr, i)
      ensures !Unmarked(ptr) && base <= ptr < base + HEAP_SIZE
    {
      hide ReadHeader;
      AtBlock(ptr - HEADER_SIZE, i);
      LinkedTiles(base, mem[..], Blocks);
      PtrInside(base, Blocks, i);
    }

    /** kfree: null pointers, pointers outside the heap and unmarked ones are ignored; any other must
        be some block's address. */
    method Kfree(ptr: nat, ghost i: nat)
      requires Valid()
      requires ptr == 0 || ptr < base || ptr >= base + HEAP_SIZE || Unmarked(ptr) || IsPtr(ptr, i)
      modifies this`Blocks, mem
      ensures Valid()
      ensures Blocks == if base <= ptr < base + HEAP_SIZE && !old(Unmarked(ptr)) then Free(old(Blocks), i) else old(Blocks)
      ensures forall q :: Get(q) == if q == ptr then None else old(Get(q))
    {
      hide ReadHeader, OnlyHeaders, Contents, Linked, Payload, Fuse, RunStart, RunEnd;
      ghost var bs, m := Blocks, mem[..];
      LinkedTiles(base, m, bs);
      if ptr == 0 || ptr < base || ptr >= base + HEAP_SIZE {
        OutsideNotLive(base, m, bs, ptr);
        return;
      }
      var b := ptr - HEADER_SIZE;
      if Unmarked(ptr) {
        UnmarkedNotLive(ptr);
      } else {
        AtBlock(b, i);
      }
      if HeaderAt(b).magic == HEAP_MAGIC {
        SetFlag(b, true, i);
        SetFreeIsFlag(bs, i, true);
        FreeFlag(bs, i);
        Coalesce(b, i);
      }
    }

    /** A store by the owner of block `i`, at `at` bytes into the payload. */
    method Store(ptr: nat, at: nat, data: seq<byte>, ghost i: nat)
      requires Valid() && IsPtr(ptr, i) && !Blocks[i].free
      requires at + |data| <= Blocks[i].size
      modifies mem
      ensures Valid()
      ensures old(Get(ptr)).Some? && at + |data| <= |old(Get(ptr)).value|
      ensures var s := old(Get(ptr)).value; Get(ptr) == Some(s[..at] + data + s[at + |data|..])
      ensures forall q :: q != ptr ==> Get(q) == old(Get(q))
    {
      hide ReadHeader, Contents, Linked;
      ghost var m := mem[..];
      LinkedTiles(base, m, Blocks);
      ContentsAt(base, m, Blocks, i);
      AtBlock(ptr - HEADER_SIZE, i);
      var o := ptr - base + at;
      forall k | 0 <= k < |data| {
        mem[o + k] := data[k];
      }
      WriteLinked(base, m, mem[..], Blocks, i);
      ContentsAt(base, mem[..], Blocks, i);
      ghost var s := Payload(m, Blocks, i);
      assert Payload(mem[..], Blocks, i) == s[..at] + data + s[at + |data|..];
      forall q | q != ptr ensures Get(q) == Contents(base, m, Blocks, q) {
        WriteContents(base, m, mem[..], Blocks, i, q);
      }
    }

    method Kcalloc(count: nat, size: nat) returns (r: nat)
      requires Valid() && count < TWO_64 && size < TWO_64
      modifies this`Blocks, this`highwater, mem
      ensures Valid()
      ensures r != 0 <==>
        && count * size < TWO_64 && Align16(count * size) != 0
        && exists k :: 0 <= k < |old(Blocks)| && FitsIn(old(Blocks)[k], Align16(count * size))
      ensures r == 0 ==> Blocks == old(Blocks) && mem[..] == old(mem[..]) && highwater == old(highwater)
      ensures r != 0 ==>
        && Blocks == Malloc(old(Blocks), Align16(count * size))
        && old(Get(r)) == None && Get(r).Some?
        && count * size <= |Get(r).value| < Align16(count * size) + HEADER_SIZE + 32
        && forall k :: 0 <= k < count * size ==> Get(r).value[k] == 0
      ensures forall q :: q != r ==> Get(q) == old(Get(q))
    {
      hide Contents, Linked, Malloc, FirstFit;
      Overflow(count, size, TWO_64);
      if count != 0 && size > (TWO_64 - 1) / count {
        return 0;
      }
      var total := count * size;
      r := Kmalloc(total);
      if r != 0 {
        ghost var i := FirstFit(old(Blocks), Align16(total));
        PtrLive(r, i);
        Store(r, 0, seq(total, _ => 0), i);
      }
    }

    lemma PtrLive(r: nat, i: nat)
      requires Valid() && IsPtr(r, i) && Get(r).Some?
      ensures !Blocks[i].free && |Get(r).value| == Blocks[i].size
    {
      LinkedTiles(base, mem[..], Blocks);
      ContentsAt(base, mem[..], Blocks, i);
    }

    /** krealloc. `oldSize` is what the owner asked for; 0 stands for the whole block. */
    method Krealloc(ptr: nat, oldSize: nat, newSize: nat, ghost i: nat) returns (r: nat)
      requires Valid() && newSize < TWO_64
      requires ptr != 0 ==> IsPtr(ptr, i) && !Blocks[i].free && oldSize <= Blocks[i].size
      modifies this`Blocks, this`highwater, mem
      ensures Valid()
      // shrinking to nothing frees
      ensures ptr != 0 && newSize == 0 ==> r == 0 && Blocks == Free(old(Blocks), i)
      // a block that is large enough stays where it is, and is split but not merged
      ensures ptr != 0 && 0 < newSize <= old(Blocks)[i].size ==> r == ptr && Blocks == Split(old(Blocks), i, Align16(newSize))
      // otherwise the call fails exactly when no free block is large enough, and then changes nothing
      ensures !(ptr != 0 && newSize <= old(Blocks)[i].size) ==>
        (r != 0 <==> Align16(newSize) != 0 && exists k :: 0 <= k < |old(Blocks)| && FitsIn(old(Blocks)[k], Align16(newSize)))
      ensures !(ptr != 0 && newSize <= old(Blocks)[i].size) && r == 0 ==> Blocks == old(Blocks) && mem[..] == old(mem[..])
      // an allocation, and the release of the block that was too small
      ensures ptr == 0 && r != 0 ==> Blocks == Malloc(old(Blocks), Align16(newSize))
      ensures ptr != 0 && newSize > old(Blocks)[i].size && r != 0 ==>
        |old(Blocks)| <= |Malloc(old(Blocks), Align16(newSize))| && Blocks == Regrown(old(Blocks), i, Align16(newSize))
      ensures r != 0 && r != ptr ==> old(Get(r)) == None
      ensures r != 0 ==> Get(r).Some? && newSize <= |Get(r).value| < Align16(newSize) + HEADER_SIZE + 32
      ensures r != 0 && ptr != 0 ==>
        && old(Get(ptr)).Some?
        && var was := old(Get(ptr)).value;
        var n := Min(if oldSize == 0 then |was| else oldSize, newSize);
        n <= |was| && Get(r).value[..n] == was[..n]
      ensures forall q :: q != r ==> Get(q) == if q == ptr && (r != 0 || newSize == 0) then None else old(Get(q))
    {
      hide ReadHeader, Contents, Linked, Malloc, FirstFit, Split, Free;
      ghost var bs, m := Blocks, mem[..];
      LinkedTiles(base, m, bs);
      if ptr == 0 {
        OutsideNotLive(base, m, bs, ptr);
        r := Kmalloc(newSize);
        if r != 0 {
          LinkedTiles(base, mem[..], Blocks);
          OutsideNotLive(base, mem[..], Blocks, 0);
        }
        return;
      }
      ContentsAt(base, m, bs, i);
      if newSize == 0 {
        PtrMarked(ptr, i);
        Kfree(ptr, i);
        return 0;
      }
      AtBlock(ptr - HEADER_SIZE, i);
      var h := HeaderAt(ptr - HEADER_SIZE);
      if h.magic == HEAP_MAGIC && h.size >= newSize {
        AlignWithin(newSize, h.size);
        ghost var was := Payload(m, bs, i);
        SplitOffset(bs, i, Align16(newSize));
        SplitBlock(ptr - HEADER_SIZE, Align16(newSize), i);
        assert Get(ptr) == Some(was) || Get(ptr) == Some(was[..Align16(newSize)]);
        return ptr;
      }
      r := Relocate(ptr, oldSize, newSize, i);
    }

    /** The path of krealloc on which the block is too small: allocate, copy, free. */
    method Relocate(ptr: nat, oldSize: nat, newSize: nat, ghost i: nat) returns (r: nat)
      requires Valid() && ptr != 0 && IsPtr(ptr, i) && !Blocks[i].free && oldSize <= Blocks[i].size < newSize < TWO_64
      modifies this`Blocks, this`highwater, mem
      ensures Valid()
      ensures r != 0 <==> Align16(newSize) != 0 && exists k :: 0 <= k < |old(Blocks)| && FitsIn(old(Blocks)[k], Align16(newSize))
      ensures r == 0 ==> Blocks == old(Blocks) && mem[..] == old(mem[..])
      ensures r != 0 ==> Get(r).Some? && newSize <= |Get(r).value| < Align16(newSize) + HEADER_SIZE + 32
      ensures r != 0 ==> r != ptr && old(Get(r)) == None
      ensures r != 0 ==>
        |old(Blocks)| <= |Malloc(old(Blocks), Align16(newSize))| && Blocks == Regrown(old(Blocks), i, Align16(newSize))
      ensures r != 0 ==>
        && old(Get(ptr)).Some?
        && var was := old(Get(ptr)).value;
        var n := Min(if oldSize == 0 then |was| else oldSize, newSize);
        n <= |was| && Get(r).value[..n] == was[..n]
      ensures forall q :: q != r ==> Get(q) == if q == ptr && r != 0 then None else old(Get(q))
    {
      hide ReadHeader, Contents, Linked, Malloc, FirstFit, Split, Free, Align16, Moved;
      LinkedTiles(base, mem[..], Blocks);
      ContentsAt(base, mem[..], Blocks, i);
      MallocLonger(Blocks, Align16(newSize));
      ghost var was := Get(ptr).value;
      r := Kmalloc(newSize);
      if r == 0 {
        return 0;
      }
      ghost var i1 := FirstFit(old(Blocks), Align16(newSize));
      PtrLive(r, i1);
      ghost var i2: nat := LiveIndex(ptr);
      MovedIndex(base, old(Blocks), Align16(newSize), i, i2);
      AtBlock(ptr - HEADER_SIZE, i2);
      var size := HeaderAt(ptr - HEADER_SIZE).size;
      var n := Min(if oldSize != 0 then oldSize else size, newSize);
      CopyPrefix(ptr, r, n, i2, i1);
      PtrMarked(ptr, i2);
      Kfree(ptr, i2);
    }

    /** The memcpy of krealloc. */
    method CopyPrefix(ptr: nat, r: nat, n: nat, ghost i: nat, ghost j: nat)
      requires Valid() && IsPtr(ptr, i) && !Blocks[i].free && n <= Blocks[i].size
      requires IsPtr(r, j) && !Blocks[j].free && n <= Blocks[j].size
      modifies mem
      ensures Valid() && old(Get(ptr)).Some? && n <= |old(Get(ptr)).value|
      ensures Get(r).Some? && old(Get(r)).Some? && |Get(r).value| == |old(Get(r)).value| && n <= |Get(r).value|
      ensures Get(r).value[..n] == old(Get(ptr)).value[..n]
      ensures forall q :: q != r ==> Get(q) == old(Get(q))
    {
      hide Linked, Contents, ReadHeader;
      ReadLive(ptr, i, n);
      ReadLive(r, j, n);
      var data := mem[ptr - base..ptr - base + n];
      Store(r, 0, data, j);
      assert Get(r).value[..n] == data;
    }

    /** The bytes of a live allocation are found in memory at its address. */
    lemma ReadLive(ptr: nat, i: nat, n: nat)
      requires Valid() && IsPtr(ptr, i) && !Blocks[i].free && n <= Blocks[i].size
      ensures base <= ptr && ptr - base + n <= mem.Length && Get(ptr).Some? && n <= |Get(ptr).value|
      ensures mem[ptr - base..ptr - base + n] == Get(ptr).value[..n]
    {
      hide Linked, Contents, ReadHeader;
      LinkedTiles(base, mem[..], Blocks);
      ContentsAt(base, mem[..], Blocks, i);
      PtrInside(base, Blocks, i);
    }

    lemma LiveIndex(ptr: nat) returns (i: nat)
      requires Valid() && Get(ptr).Some?
      ensures IsPtr(ptr, i) && !Blocks[i].free && Get(ptr).value == Payload(mem[..], Blocks, i)
    {
      LinkedTiles(base, mem[..], Blocks);
      i :| LiveAt(base, Blocks, i, ptr);
      ContentsAt(base, mem[..], Blocks, i);
    }
  }
}

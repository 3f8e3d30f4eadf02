/** Properties of whole runs of the allocator, over the block lists that KernelHeap's methods maintain. */
module KernelHeapRuns {
  import opened Basics
  import opened Bytes
  import opened Wrappers
  import opened KernelHeap

  /** Two live allocations never share a byte: even a header lies between them. */
  lemma LiveAllocationsApart(base: nat, m: seq<byte>, bs: seq<Block>, p: nat, q: nat)
    requires base % 16 == 0 && Linked(base, m, bs)
    requires Contents(base, m, bs, p).Some? && Contents(base, m, bs, q).Some? && p < q
    ensures base < p && p + |Contents(base, m, bs, p).value| + HEADER_SIZE <= q
    ensures q + |Contents(base, m, bs, q).value| <= base + HEAP_SIZE
    ensures p % 16 == 0 && q % 16 == 0
  {
    hide ReadHeader, Payload;
    LinkedTiles(base, m, bs);
    var i: nat :| LiveAt(base, bs, i, p);
    var j: nat :| LiveAt(base, bs, j, q);
    ContentsAt(base, m, bs, i);
    ContentsAt(base, m, bs, j);
    if j <= i && i != j { OffsetMonotone(bs, j, i); }
    OffsetMonotone(bs, i, j);
    PtrInside(base, bs, j);
    OffsetAligned(bs, i);
    OffsetAligned(bs, j);
  }

  // ---------------------------------------------------------------- runs of kmalloc, kcalloc, kfree and growing krealloc

  const INITIAL: seq<Block> := [Block(HEAP_SIZE - HEADER_SIZE, true)]

  predicate NoAdjacentFree(bs: seq<Block>) {
    forall i :: 0 < i < |bs| ==> !(bs[i - 1].free && bs[i].free)
  }

  /** kcalloc is an allocation of `count * size` bytes; a release names any block on the list. */
  datatype Op = Allocate(size: nat) | Release(index: nat) | Grow(index: nat, size: nat)

  function Apply(bs: seq<Block>, op: Op): seq<Block> {
    match op
    case Allocate(size) =>
      if size >= TWO_64 || Align16(size) == 0 then bs else Malloc(bs, Align16(size))
    case Release(i) => if i < |bs| then Free(bs, i) else bs
    case Grow(i, size) => if i < |bs| && Grows(bs, i, size) then Regrown(bs, i, Align16(size)) else bs
  }

  /** A live block is too small for the new size, and another one is found. */
  predicate Grows(bs: seq<Block>, i: nat, size: nat)
    requires i < |bs|
  {
    && !bs[i].free && bs[i].size < size < TWO_64 && Align16(size) != 0
    && FirstFit(bs, Align16(size)) < |bs| && |bs| <= |Malloc(bs, Align16(size))|
  }

  function Run(bs: seq<Block>, ops: seq<Op>): seq<Block>
    decreases |ops|
  {
    if ops == [] then bs else Run(Apply(bs, ops[0]), ops[1..])
  }

  lemma MallocKeeps(bs: seq<Block>, size: nat)
    requires Tiles(bs) && size % 16 == 0 && 0 < size
    ensures Tiles(Malloc(bs, size))
    ensures NoAdjacentFree(bs) ==> NoAdjacentFree(Malloc(bs, size))
  {
    hide Total, Offset;
    var i := FirstFit(bs, size);
    if i < |bs| {
      var bs1 := Split(bs, i, size);
      if bs1 != bs {
        CutIsCut(bs, i, size);
        CutAligned(bs, bs1, i, size);
      }
      SetFreeIsFlag(bs1, i, false);
    }
  }

  /** From boot, three small allocations are all served, one behind the other. */
  lemma ThreeServed()
    ensures var one := Malloc(INITIAL, 16);
      var two := Malloc(one, 16);
      && Malloc(two, 16) == [Block(16, false), Block(16, false), Block(16, false), Block(HEAP_SIZE - 4 * HEADER_SIZE - 48, true)]
      && FirstFit(INITIAL, 16) == 0 && FirstFit(one, 16) == 1 && FirstFit(two, 16) == 2
  {
    hide FirstFit, Malloc;
    FitAt(INITIAL, 16, 0);
    MallocServes(INITIAL, 16);
    var one := Malloc(INITIAL, 16);
    assert one == [Block(16, false), Block(HEAP_SIZE - 2 * HEADER_SIZE - 16, true)];
    FitAt(one, 16, 1);
    MallocServes(one, 16);
    var two := Malloc(one, 16);
    assert two == [Block(16, false), Block(16, false), Block(HEAP_SIZE - 3 * HEADER_SIZE - 32, true)];
    FitAt(two, 16, 2);
    MallocServes(two, 16);
  }

  lemma FitAt(bs: seq<Block>, size: nat, i: nat)
    requires i < |bs| && FitsIn(bs[i], size) && forall j :: 0 <= j < i ==> !FitsIn(bs[j], size)
    ensures FirstFit(bs, size) == i
  {
    hide FitsIn;
  }

  lemma TotalReplace(xs: seq<Block>, ys: seq<Block>, ys': seq<Block>, zs: seq<Block>)
    requires Total(ys) == Total(ys')
    ensures Total(xs + ys + zs) == Total(xs + ys' + zs)
  {
    TotalAppend(xs + ys, zs);
    TotalAppend(xs, ys);
    TotalAppend(xs + ys', zs);
    TotalAppend(xs, ys');
  }

  lemma ThreeParts<T>(s: seq<T>, lo: nat, hi: nat)
    requires lo <= hi <= |s|
    ensures s == s[..lo] + s[lo..hi] + s[hi..]
  {
  }

  lemma FuseTotal(bs: seq<Block>, lo: nat, hi: nat, run: seq<Block>, b: Block)
    requires lo <= hi < |bs| && run == bs[lo..hi + 1] && Total(run) == HEADER_SIZE + b.size
    ensures Total(bs[..lo] + [b] + bs[hi + 1..]) == Total(bs)
  {
    hide Total;
    TotalOne(b);
    TotalReplace(bs[..lo], run, [b], bs[hi + 1..]);
    ThreeParts(bs, lo, hi + 1);
  }

  lemma FuseTiles(bs: seq<Block>, lo: nat, hi: nat)
    requires Tiles(bs) && lo <= hi < |bs|
    ensures Tiles(Fuse(bs, lo, hi))
  {
    var run := bs[lo..hi + 1];
    FuseTotal(bs, lo, hi, run, Block(Total(run) - HEADER_SIZE, true));
    assert run[..|run|] == run;
    OffsetAligned(run, |run|);
    assert run[0].size >= 16;
    var bs' := Fuse(bs, lo, hi);
    forall k | 0 <= k < |bs'| && k != lo ensures bs'[k] == bs[if k < lo then k else k + hi - lo] {}
  }

  lemma FreeKeeps(bs: seq<Block>, i: nat)
    requires Tiles(bs) && i < |bs|
    ensures Tiles(Free(bs, i))
    ensures NoAdjacentFree(bs) ==> NoAdjacentFree(Free(bs, i))
  {
    var lo, hi := RunStart(bs, i), RunEnd(bs, i);
    FuseTiles(bs, lo, hi);
    if NoAdjacentFree(bs) {
      assert hi + 1 < |bs| ==> !bs[hi + 1].free;
      var bs' := Free(bs, i);
      forall k | 0 < k < |bs'| ensures !(bs'[k - 1].free && bs'[k].free) {
        if k < lo {
          assert bs'[k - 1] == bs[k - 1] && bs'[k] == bs[k];
        } else if k > lo + 1 {
          assert bs'[k - 1] == bs[k - 1 + hi - lo] && bs'[k] == bs[k + hi - lo];
        }
      }
    }
  }

  lemma RegrownKeeps(bs: seq<Block>, i: nat, size: nat)
    requires Tiles(bs) && size % 16 == 0 && 0 < size && i < |bs| <= |Malloc(bs, size)| && !bs[i].free
    ensures Tiles(Regrown(bs, i, size))
    ensures NoAdjacentFree(bs) ==> NoAdjacentFree(Regrown(bs, i, size))
  {
    hide Tiles, NoAdjacentFree, Malloc, Moved, Free;
    MallocKeeps(bs, size);
    MallocMoves(bs, size, i);
    FreeKeeps(Malloc(bs, size), Moved(bs, size, i));
  }

  lemma AlignedSize(size: nat)
    requires size < TWO_64
    ensures Align16(size) % 16 == 0
  {
  }

  lemma {:induction false} RunKeeps(bs: seq<Block>, ops: seq<Op>)
    requires Tiles(bs) && NoAdjacentFree(bs)
    ensures Tiles(Run(bs, ops)) && NoAdjacentFree(Run(bs, ops))
    decreases |ops|
  {
    hide Tiles, NoAdjacentFree, Malloc, Free, Regrown, Align16;
    if ops != [] {
      match ops[0] {
        case Allocate(size) =>
          if size < TWO_64 && Align16(size) != 0 {
            AlignedSize(size);
            MallocKeeps(bs, Align16(size));
          }
        case Release(i) =>
          if i < |bs| {
            FreeKeeps(bs, i);
          }
        case Grow(i, size) =>
          if i < |bs| && Grows(bs, i, size) {
            AlignedSize(size);
            RegrownKeeps(bs, i, Align16(size));
          }
      }
      RunKeeps(Apply(bs, ops[0]), ops[1..]);
    }
  }

  lemma ManyFreeAdjoin(bs: seq<Block>)
    requires |bs| > 1 && bs[0].free && bs[1].free
    ensures !NoAdjacentFree(bs)
  {
    assert bs[1 - 1].free && bs[1].free;
  }

  lemma AllFreeIsInitial(bs: seq<Block>)
    requires Tiles(bs) && NoAdjacentFree(bs)
    requires forall i :: 0 <= i < |bs| ==> bs[i].free
    ensures bs == INITIAL
  {
    if |bs| > 1 { ManyFreeAdjoin(bs); }
    assert bs == [bs[0]] && bs[1..] == [];
    assert Total(bs) == HEADER_SIZE + bs[0].size + Total(bs[1..]);
  }

  lemma InitialTiles()
    ensures Tiles(INITIAL) && NoAdjacentFree(INITIAL)
  {
    assert INITIAL[1..] == [];
    assert Total(INITIAL) == HEADER_SIZE + INITIAL[0].size + Total(INITIAL[1..]);
  }

  /** No fragmentation survives: however a run interleaves its calls and in whatever order it
      releases, once nothing is live the heap is the single block heap_init made. */
  lemma RunRestoresHeap(ops: seq<Op>)
    requires forall i :: 0 <= i < |Run(INITIAL, ops)| ==> Run(INITIAL, ops)[i].free
    ensures Run(INITIAL, ops) == INITIAL
  {
    InitialTiles();
    RunKeeps(INITIAL, ops);
    AllFreeIsInitial(Run(INITIAL, ops));
  }

  // ---------------------------------------------------------------- an owner of many allocations

  /** What an owner asks for; allocations are named by the order in which they were asked for. */
  datatype Call = Kmalloc(size: nat) | Kcalloc(count: nat, size: nat) | Kfree(slot: nat) | Krealloc(slot: nat, size: nat)

  predicate InWidth(c: Call) {
    match c
    case Kmalloc(size) => size < TWO_64
    case Kcalloc(count, size) => count < TWO_64 && size < TWO_64
    case Kfree(_) => true
    case Krealloc(_, size) => size < TWO_64
  }

  /** The owner's pointers are exactly the live allocations, none of them held twice. */
  ghost predicate Owned(h: Heap, slots: seq<nat>)
    reads h, h.mem
    requires h.Valid()
  {
    && (forall q :: h.Get(q).Some? <==> q != 0 && q in slots)
    && (forall i, j :: 0 <= i < j < |slots| && slots[i] != 0 ==> slots[i] != slots[j])
  }

  ghost predicate Merged(h: Heap)
    reads h, h.mem
    requires h.Valid()
  {
    NoAdjacentFree(h.Blocks)
  }

  /** Any calls of an owner on a fresh heap, a reallocation that would shrink being left out. Once all
      its pointers are null again, the heap is the single block of the start. */
  method Serve(h: Heap, calls: seq<Call>) returns (slots: seq<nat>)
    requires h.Valid() && h.Blocks == INITIAL && (forall c :: c in calls ==> InWidth(c))
    modifies h, h.mem
    ensures h.Valid() && Owned(h, slots) && Merged(h)
    ensures (forall s :: s in slots ==> s == 0) ==> h.Blocks == INITIAL
  {
    hide Linked, Contents;
    slots := [];
    NothingLive(h);
    for i := 0 to |calls|
      invariant h.Valid() && Owned(h, slots) && Merged(h)
    {
      assert calls[i] in calls;
      match calls[i] {
        case Kmalloc(size) => slots := TakeOne(h, slots, 1, size, false);
        case Kcalloc(count, size) => slots := TakeOne(h, slots, count, size, true);
        case Kfree(slot) => slots := GiveBack(h, slots, slot);
        case Krealloc(slot, size) => slots := Enlarge(h, slots, slot, size);
      }
    }
    if forall s :: s in slots ==> s == 0 {
      NobodyLeft(h, slots);
    }
  }

  lemma NothingLive(h: Heap)
    requires h.Valid() && h.Blocks == INITIAL
    ensures Owned(h, []) && Merged(h)
  {
    LinkedTiles(h.base, h.mem[..], h.Blocks);
    hide Linked, Payload;
  }

  lemma NobodyLeft(h: Heap, slots: seq<nat>)
    requires h.Valid() && Owned(h, slots) && Merged(h) && forall s :: s in slots ==> s == 0
    ensures h.Blocks == INITIAL
  {
    hide Linked, Payload, Tiles, NoAdjacentFree, Contents;
    LinkedTiles(h.base, h.mem[..], h.Blocks);
    forall i | 0 <= i < |h.Blocks| ensures h.Blocks[i].free {
      ContentsAt(h.base, h.mem[..], h.Blocks, i);
      assert h.Get(Ptr(h.base, h.Blocks, i)) == None;
    }
    AllFreeIsInitial(h.Blocks);
  }

  /** kmalloc or kcalloc; the pointer, null or not, gets the next place. */
  method TakeOne(h: Heap, slots: seq<nat>, count: nat, size: nat, clear: bool) returns (after: seq<nat>)
    requires h.Valid() && Owned(h, slots) && Merged(h) && count < TWO_64 && size < TWO_64
    modifies h, h.mem
    ensures h.Valid() && Owned(h, after) && Merged(h)
    ensures |after| == |slots| + 1 && after[..|slots|] == slots
  {
    hide Linked, Contents, Tiles, NoAdjacentFree, Malloc, Align16;
    LinkedTiles(h.base, h.mem[..], h.Blocks);
    var r;
    if clear {
      r := h.Kcalloc(count, size);
      ghost var total := count * size;
      if r != 0 {
        AlignedSize(total);
        MallocKeeps(old(h.Blocks), Align16(total));
      }
    } else {
      r := h.Kmalloc(size);
      AlignedSize(size);
      if r != 0 {
        MallocKeeps(old(h.Blocks), Align16(size));
      }
    }
    after := slots + [r];
    assert forall j :: 0 <= j < |slots| ==> slots[j] in slots;
    assert forall q :: q in after <==> q in slots || q == r;
    assert h.Get(0) == old(h.Get(0));
  }

  method GiveBack(h: Heap, slots: seq<nat>, slot: nat) returns (after: seq<nat>)
    requires h.Valid() && Owned(h, slots) && Merged(h)
    modifies h, h.mem
    ensures h.Valid() && Owned(h, after) && Merged(h)
    ensures after == if slot < |slots| then slots[slot := 0] else slots
  {
    hide Linked, Contents, Tiles, NoAdjacentFree, Free;
    after := slots;
    if slot < |slots| && slots[slot] != 0 {
      var ptr := slots[slot];
      assert ptr in slots;
      LinkedTiles(h.base, h.mem[..], h.Blocks);
      ghost var i: nat := h.LiveIndex(ptr);
      h.PtrMarked(ptr, i);
      FreeKeeps(h.Blocks, i);
      h.Kfree(ptr, i);
      after := slots[slot := 0];
    }
  }

  /** krealloc of a block that is too small; where it fails the old pointer stays. */
  method Enlarge(h: Heap, slots: seq<nat>, slot: nat, size: nat) returns (after: seq<nat>)
    requires h.Valid() && Owned(h, slots) && Merged(h) && size < TWO_64
    modifies h, h.mem
    ensures h.Valid() && Owned(h, after) && Merged(h)
    ensures |after| == |slots| && forall j :: 0 <= j < |slots| && j != slot ==> after[j] == slots[j]
  {
    hide Linked, Contents, Tiles, NoAdjacentFree, Malloc, Align16, Regrown, FitsIn;
    after := slots;
    if slot < |slots| && slots[slot] != 0 {
      var ptr := slots[slot];
      assert ptr in slots;
      LinkedTiles(h.base, h.mem[..], h.Blocks);
      ghost var i: nat := h.LiveIndex(ptr);
      h.AtBlock(ptr - HEADER_SIZE, i);
      if size > h.HeaderAt(ptr - HEADER_SIZE).size {
        var r := h.Krealloc(ptr, 0, size, i);
        if r != 0 {
          AlignedSize(size);
          RegrownKeeps(old(h.Blocks), i, Align16(size));
          after := slots[slot := r];
          assert forall j :: 0 <= j < |slots| ==> slots[j] in slots;
          TakenOver(slots, slot, r);
          assert h.Get(0) == old(h.Get(0));
        }
      }
    }
  }

  lemma TakenOver(slots: seq<nat>, slot: nat, r: nat)
    requires slot < |slots| && slots[slot] != 0
    requires forall i, j :: 0 <= i < j < |slots| && slots[i] != 0 ==> slots[i] != slots[j]
    ensures forall q :: q in slots[slot := r] <==> q == r || (q in slots && q != slots[slot])
  {
    assert slots[slot := r][slot] == r;
    forall q | q in slots && q != slots[slot] ensures q in slots[slot := r] {
      var j :| 0 <= j < |slots| && slots[j] == q;
      assert slots[slot := r][j] == q;
    }
    forall q | q in slots[slot := r] && q != r ensures q in slots && q != slots[slot] {
      var j :| 0 <= j < |slots| && slots[slot := r][j] == q;
      assert j != slot && slots[j] == q;
    }
  }

  // ---------------------------------------------------------------- shrinking

  /** krealloc's shrink in place keeps the list merged exactly when it does not cut in front of a free block. */
  lemma ShrinkKeepsMerged(bs: seq<Block>, i: nat, size: nat)
    requires Tiles(bs) && NoAdjacentFree(bs) && i < |bs| && !bs[i].free && size <= bs[i].size
    ensures NoAdjacentFree(Split(bs, i, size)) <==>
      bs[i].size < size + HEADER_SIZE + 32 || i + 1 == |bs| || !bs[i + 1].free
  {
    if bs[i].size >= size + HEADER_SIZE + 32 {
      var bs' := Cut(bs, i, size);
      CutIsCut(bs, i, size);
      if i + 1 < |bs| {
        assert bs'[(i + 1) + 1] == bs[i + 1];
        if bs[i + 1].free {
          assert bs'[(i + 2) - 1].free && bs'[i + 2].free;
        }
      }
      if i + 1 == |bs| || !bs[i + 1].free {
        forall k | 0 < k < |bs'| ensures !(bs'[k - 1].free && bs'[k].free) {
          if k < i {
            assert bs'[k - 1] == bs[k - 1] && bs'[k] == bs[k];
          } else if k > i + 2 {
            assert bs'[k - 1] == bs[k - 2] && bs'[k] == bs[k - 1];
          }
        }
      }
    }
  }

  /** The damage is lasting: 1024 bytes allocated, shrunk to 16 and released leave two free blocks. */
  lemma ShrinkFragments()
    ensures Free(Split(Malloc(INITIAL, 1024), 0, 16), 0)
      == [Block(1024, true), Block(HEAP_SIZE - 2 * HEADER_SIZE - 1024, true)]
  {
    var rest := HEAP_SIZE - 2 * HEADER_SIZE - 1024;
    assert Malloc(INITIAL, 1024) == [Block(1024, false), Block(rest, true)];
    var bs := Split(Malloc(INITIAL, 1024), 0, 16);
    assert bs == [Block(16, false), Block(1024 - 16 - HEADER_SIZE, true), Block(rest, true)];
    assert RunStart(bs, 0) == 0 && RunEnd(bs, 0) == 1;
    assert bs[0..2] == [bs[0]] + [bs[1]];
    TotalAppend([bs[0]], [bs[1]]);
    assert [bs[0]][1..] == [] == [bs[1]][1..];
    assert Total([bs[0]]) == HEADER_SIZE + 16 && Total([bs[1]]) == 1024 - 16;
  }
}

/** The user heap of a process: `sys_brk` and the window that `sys_exec_image` sets up
    (kernel/core/syscall.c), on top of the identity-mapped page tables. */
module UserHeap {
  import opened Basics
  import opened Wrappers
  import opened PageTables

  const USER_BASE := 0x400_0000
  const USER_HEAP_BASE := 0x800_0000
  const STACK_BOTTOM_SMALL := 0x5000_0000
  const STACK_TOP_SMALL := 0x5040_0000
  const STACK_BOTTOM_LARGE := 0x6000_0000
  const STACK_TOP_LARGE := 0x6040_0000
  const FIRST_FLOOR := 0x500_0000
  const FIRST_LIMIT := 0x700_0000
  const SMALL_PAGE := 4096

  const USER_DATA: bv12 := WRITABLE | USER

  function SmallPageUp(a: nat): nat {
    var up := (a + SMALL_PAGE - 1) % TWO_64;
    up - up % SMALL_PAGE
  }

  /** The bottom of the stack, which is the limit of the heap. */
  function StackBottom(usable: Option<nat>): nat {
    if usable.Some? && usable.value >= STACK_TOP_LARGE + 0x100_0000 then STACK_BOTTOM_LARGE else STACK_BOTTOM_SMALL
  }

  /** The heap starts behind the boot modules. */
  function HeapBase(modulesEnd: nat): nat {
    if modulesEnd > USER_HEAP_BASE then SmallPageUp(modulesEnd) else USER_HEAP_BASE
  }

  /** The start of the heap is the first page boundary behind the modules and 128 MiB. */
  lemma HeapBaseIs(modulesEnd: nat)
    requires modulesEnd <= TWO_64 - SMALL_PAGE
    ensures var base := HeapBase(modulesEnd);
      && base % 4096 == 0 && modulesEnd <= base && 0x800_0000 <= base
      && (base == 0x800_0000 || base < modulesEnd + 4096)
  {
  }

  /** Where the stack goes: higher up when the machine has the memory for it. */
  method StackWindow(usable: Option<nat>) returns (bottom: nat, top: nat)
    ensures bottom == StackBottom(usable) && top == bottom + 0x40_0000
  {
    bottom, top := STACK_BOTTOM_SMALL, STACK_TOP_SMALL;
    if usable.Some? && usable.value >= STACK_TOP_LARGE + 0x100_0000 {
      bottom, top := STACK_BOTTOM_LARGE, STACK_TOP_LARGE;
    }
    if usable.Some? && top > usable.value {
      bottom, top := STACK_BOTTOM_SMALL, STACK_TOP_SMALL;
    }
  }

  /** The break of one process; a floor of zero means that it is not set up yet. */
  class Process {
    var brkFloor: nat
    var brkCurrent: nat
    var heapLimit: nat

    constructor ()
      ensures brkFloor == 0
    {
      brkFloor, brkCurrent, heapLimit := 0, 0, 0;
    }

    /** The break lies in its window, and user code can write every byte below it. */
    ghost predicate Safe(space: AddressSpace)
      reads this, space
    {
      && space.Valid()
      && (brkFloor != 0 ==>
        && brkFloor <= brkCurrent <= heapLimit <= LOWER_HALF_LIMIT
        && heapLimit % HUGE_PAGE_SIZE == 0
        && RangeGranted(space.words, space.layout.pml4, brkFloor, brkCurrent, USER_DATA))
    }

    /** The whole window is mapped, as it is after `Exec`. */
    ghost predicate WindowMapped(space: AddressSpace)
      reads this, space
    {
      RangeGranted(space.words, space.layout.pml4, Page(brkFloor), heapLimit, USER_DATA)
    }

    /** Map the pages between the break and a higher place in the window. */
    method Grow(space: AddressSpace, next: nat) returns (ok: bool)
      requires Safe(space) && brkFloor != 0 && brkCurrent < next <= heapLimit
      modifies space
      ensures Safe(space) && KeepsAll(old(space.words), space.words, space.layout.pml4)
      ensures ok ==> RangeGranted(space.words, space.layout.pml4, brkFloor, next, USER_DATA)
      ensures !ok ==> space.nextPdpt == PDPT_POOL || space.nextPd == PD_POOL
      ensures old(WindowMapped(space)) ==> ok && WindowMapped(space)
    {
      hide Inv, WellPlaced, Walk, Grants, Kept, Has;
      ghost var root := space.layout.pml4;
      ghost var w := space.words;
      ghost var mapped := WindowMapped(space);
      GrowFits(brkCurrent, next, heapLimit);
      ok := space.MapRange(brkCurrent, next - brkCurrent, USER_DATA);
      RangeKept(w, space.words, root, brkFloor, brkCurrent, USER_DATA);
      if mapped {
        RangeKept(w, space.words, root, Page(brkFloor), heapLimit, USER_DATA);
        StillMapped(space.words, root, Page(brkFloor), heapLimit, USER_DATA);
      }
      if ok {
        Joined(space.words, root, brkFloor, brkCurrent, next, RangeEnd(brkCurrent, next - brkCurrent), USER_DATA);
      }
    }

    /** Move the break. The answer is the break afterwards: the one asked for whenever that lies in
        the window, except that growing may fail for want of page tables. */
    method SysBrk(space: AddressSpace, next: nat) returns (r: nat)
      requires Safe(space) && next < TWO_64
      modifies this, space
      ensures Safe(space) && brkFloor != 0 && r == brkCurrent
      ensures KeepsAll(old(space.words), space.words, space.layout.pml4)
      ensures old(brkFloor) == 0 ==> brkFloor == FIRST_FLOOR && heapLimit == FIRST_LIMIT
      ensures old(brkFloor) != 0 ==> brkFloor == old(brkFloor) && heapLimit == old(heapLimit)
      ensures var was := if old(brkFloor) == 0 then FIRST_FLOOR else old(brkCurrent);
        && (brkFloor <= next <= was ==> r == next)
        && (next < brkFloor || next > heapLimit ==> r == was)
        && (was < next <= heapLimit ==>
          r == next || (r == was && (space.nextPdpt == PDPT_POOL || space.nextPd == PD_POOL)))
      ensures old(brkFloor != 0 && WindowMapped(space)) ==>
        WindowMapped(space) && (brkFloor <= next <= heapLimit ==> r == next)
    {
      hide Inv, WellPlaced, Walk, Grants, Kept;
      ghost var root := space.layout.pml4;
      if brkFloor == 0 {
        brkFloor := FIRST_FLOOR;
        brkCurrent := FIRST_FLOOR;
        heapLimit := FIRST_LIMIT;
      }
      if next == 0 || next < brkFloor || next > heapLimit {
        KeepsSelf(space.words, root);
        return brkCurrent;
      }
      if next > brkCurrent {
        var ok := Grow(space, next);
        if !ok {
          return brkCurrent;
        }
      } else {
        KeepsSelf(space.words, root);
      }
      brkCurrent := next;
      return brkCurrent;
    }

    /** Code and heap, then the stack. */
    method MapProgram(space: AddressSpace, stackBottom: nat, stackTop: nat) returns (ok: bool)
      requires Safe(space) && USER_BASE < stackBottom < stackTop <= LOWER_HALF_LIMIT
      requires stackBottom % HUGE_PAGE_SIZE == 0 && stackTop % HUGE_PAGE_SIZE == 0
      modifies space
      ensures Safe(space)
      ensures KeepsAll(old(space.words), space.words, space.layout.pml4)
      ensures ok ==> RangeGranted(space.words, space.layout.pml4, USER_BASE, stackTop, USER_DATA)
      ensures !ok ==> space.nextPdpt == PDPT_POOL || space.nextPd == PD_POOL
    {
      hide Inv, WellPlaced, Walk, Grants, Kept;
      ghost var root := space.layout.pml4;
      ghost var w := space.words;
      ghost var current := if brkFloor == 0 then 0 else brkCurrent;
      ok := space.MapRange(USER_BASE, stackBottom - USER_BASE, USER_DATA);
      RangeKept(w, space.words, root, brkFloor, current, USER_DATA);
      if !ok {
        return false;
      }
      ghost var w1 := space.words;
      ok := space.MapRange(stackBottom, stackTop - stackBottom, USER_DATA);
      KeepsAllTrans(w, w1, space.words, root);
      RangeKept(w1, space.words, root, brkFloor, current, USER_DATA);
      RangeKept(w1, space.words, root, USER_BASE, stackBottom, USER_DATA);
    }

    /** The part of program start that lays out memory: the heap runs from the end of the boot
        modules to the stack, and code, heap and stack are mapped for the user. */
    method Exec(space: AddressSpace, modulesEnd: nat, usable: Option<nat>, lowest: nat, highest: nat) returns (ok: bool)
      requires Safe(space) && modulesEnd < TWO_64 && highest < TWO_64
      modifies this, space
      ensures Safe(space)
      ensures KeepsAll(old(space.words), space.words, space.layout.pml4)
      ensures !ok ==> brkFloor == old(brkFloor) && brkCurrent == old(brkCurrent) && heapLimit == old(heapLimit)
      ensures ok ==>
        && brkCurrent == brkFloor == HeapBase(modulesEnd)
        && heapLimit == StackBottom(usable)
        && (brkFloor != 0 ==> WindowMapped(space))
      // user code can reach every byte of the program and of the stack, and the heap lies between them
      ensures ok ==>
        && RangeGranted(space.words, space.layout.pml4, lowest, highest, USER_DATA)
        && RangeGranted(space.words, space.layout.pml4, heapLimit, heapLimit + 0x40_0000, USER_DATA)
        && 0x400_0000 <= lowest && highest <= brkFloor && brkFloor + 4096 <= heapLimit
      ensures ok && modulesEnd <= TWO_64 - SMALL_PAGE ==> modulesEnd <= brkFloor
      // refused are only programs that do not lie between 64 MiB and the heap, and starts that leave no page of heap
      ensures !ok && 0x400_0000 <= lowest && highest <= HeapBase(modulesEnd) && HeapBase(modulesEnd) + 4096 <= StackBottom(usable) ==>
        space.nextPdpt == PDPT_POOL || space.nextPd == PD_POOL
    {
      hide Inv, WellPlaced, Walk, Grants, Kept;
      ghost var root := space.layout.pml4;
      ghost var w := space.words;
      KeepsSelf(w, root);
      var stackBottom, stackTop := StackWindow(usable);
      var base := HeapBase(modulesEnd);
      if base >= stackBottom || stackBottom - base < SMALL_PAGE {
        return false;
      }
      if lowest < USER_BASE || highest > base {
        return false;
      }
      ok := MapProgram(space, stackBottom, stackTop);
      if !ok {
        return false;
      }
      WindowStart(modulesEnd, highest, base);
      var elfEnd := SmallPageUp(highest);
      if elfEnd < base {
        elfEnd := base;
      }
      brkFloor, brkCurrent, heapLimit := elfEnd, elfEnd, stackBottom;
      SubRange(space.words, root, USER_BASE, stackTop, Page(brkFloor), stackBottom, USER_DATA);
      Within(space.words, root, USER_BASE, stackTop, lowest, highest, USER_DATA);
      Within(space.words, root, USER_BASE, stackTop, stackBottom, stackTop, USER_DATA);
    }
  }

  /** The window starts on a page boundary, so rounding up the program's end never passes it. */
  lemma WindowStart(modulesEnd: nat, highest: nat, base: nat)
    requires modulesEnd < TWO_64
    requires base == HeapBase(modulesEnd)
    requires highest <= base < STACK_BOTTOM_LARGE
    ensures SmallPageUp(highest) <= base
    ensures modulesEnd <= TWO_64 - SMALL_PAGE ==> modulesEnd <= base
    ensures base == 0 || USER_BASE <= Page(base)
  {
  }

  lemma Within(w: Words, root: nat, from: nat, to: nat, from': nat, to': nat, flags: bv12)
    requires RangeGranted(w, root, from, to, flags) && from <= from' && to' <= to
    ensures RangeGranted(w, root, from', to', flags)
  {
    hide Walk, Grants;
  }

  lemma SubRange(w: Words, root: nat, from: nat, to: nat, from': nat, to': nat, flags: bv12)
    requires RangeGranted(w, root, from, to, flags)
    requires from' == 0 || from <= from'
    requires to' <= to
    ensures from' != 0 ==> RangeGranted(w, root, from', to', flags)
  {
    hide Walk, Grants;
  }

  // ---------------------------------------------------------------- runs

  datatype Call =
    | MapPage(virt: nat, phys: nat, flags: bv12)
    | MapRange(start: nat, length: nat, flags: bv12)
    | Brk(next: nat)
    | Exec(modulesEnd: nat, usable: Option<nat>, lowest: nat, highest: nat)

  predicate Words64(c: Call) {
    match c
    case MapPage(virt, phys, _) => virt < TWO_64 && phys < TWO_64
    case MapRange(start, length, _) => start < TWO_64 && length < TWO_64
    case Brk(next) => next < TWO_64
    case Exec(modulesEnd, _, _, highest) => modulesEnd < TWO_64 && highest < TWO_64
  }

  method Perform(space: AddressSpace, proc: Process, call: Call)
    requires proc.Safe(space) && Words64(call)
    modifies space, proc
    ensures proc.Safe(space) && KeepsAll(old(space.words), space.words, space.layout.pml4)
  {
    hide Inv, WellPlaced, Walk, Grants, Kept;
    ghost var w := space.words;
    match call
    case MapPage(virt, phys, flags) =>
      var _ := space.MapPage(virt, phys, flags);
      RangeKept(w, space.words, space.layout.pml4, proc.brkFloor, if proc.brkFloor == 0 then 0 else proc.brkCurrent, USER_DATA);
    case MapRange(start, length, flags) =>
      var _ := space.MapRange(start, length, flags);
      RangeKept(w, space.words, space.layout.pml4, proc.brkFloor, if proc.brkFloor == 0 then 0 else proc.brkCurrent, USER_DATA);
    case Brk(next) =>
      var _ := proc.SysBrk(space, next);
    case Exec(modulesEnd, usable, lowest, highest) =>
      var _ := proc.Exec(space, modulesEnd, usable, lowest, highest);
  }

  /** From boot, through any calls whatever their outcome: every address that translates reaches
      itself, the first gigabyte stays mapped, and the break keeps to its window. */
  method Run(place: Layout, calls: seq<Call>) returns (space: AddressSpace, proc: Process)
    requires WellPlaced(place) && forall c :: c in calls ==> Words64(c)
    ensures fresh(space) && fresh(proc) && proc.Safe(space) && space.layout == place
    ensures forall a :: Walk(space.words, place.pml4, a).Some? ==> Grants(Walk(space.words, place.pml4, a), a, 0)
    ensures forall a :: 0 <= a < 0x4000_0000 ==> Walk(space.words, place.pml4, a).Some?
  {
    space := new AddressSpace(place);
    proc := new Process();
    ghost var w := space.words;
    hide Inv, WellPlaced, Walk, Grants, Has;
    KeepsSelf(w, place.pml4);
    for n := 0 to |calls|
      invariant fresh(space) && fresh(proc) && proc.Safe(space) && space.layout == place
      invariant KeepsAll(w, space.words, place.pml4)
    {
      ghost var before := space.words;
      Perform(space, proc, calls[n]);
      KeepsAllTrans(w, before, space.words, place.pml4);
    }
    forall a | Walk(space.words, place.pml4, a).Some? ensures Grants(Walk(space.words, place.pml4, a), a, 0) {
      WalkIsIdentity(place, space.Now(), space.homes, a);
    }
    forall a | 0 <= a < 0x4000_0000 ensures Walk(space.words, place.pml4, a).Some? {
      assert Kept(Walk(w, place.pml4, a), Walk(space.words, place.pml4, a));
    }
  }

  lemma GrowFits(current: nat, next: nat, limit: nat)
    requires current < next <= limit <= LOWER_HALF_LIMIT && limit % HUGE_PAGE_SIZE == 0
    ensures RangeFits(current, next - current)
    ensures next <= RangeEnd(current, next - current) <= limit
  {
  }

  lemma RangeKept(w: Words, w': Words, root: nat, from: nat, to: nat, flags: bv12)
    requires RangeGranted(w, root, from, to, flags) && KeepsAll(w, w', root)
    ensures RangeGranted(w', root, from, to, flags)
  {
    hide Walk, Has, Grants, Kept;
    forall a | from <= a < to ensures Grants(Walk(w', root, a), a, flags) {
      GrantsKept(Walk(w, root, a), Walk(w', root, a), a, flags);
    }
  }

  lemma StillMapped(w: Words, root: nat, from: nat, to: nat, flags: bv12)
    requires RangeGranted(w, root, from, to, flags)
    ensures forall a :: from <= a < to ==> Walk(w, root, a).Some?
  {
    hide Walk, Has;
  }

  lemma Joined(w: Words, root: nat, from: nat, mid: nat, to: nat, end: nat, flags: bv12)
    requires RangeGranted(w, root, from, mid, flags) && RangeGranted(w, root, Page(mid), end, flags)
    requires to <= end
    ensures RangeGranted(w, root, from, to, flags)
  {
    hide Walk, Grants;
  }
}

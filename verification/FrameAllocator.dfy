/** Physical frames (kernel/mm/pmm.c): a stack of freed frames in front of a cursor over the pool. */
module FrameAllocator {
  import opened Basics
  import opened Wrappers

  const PAGE_SIZE := 4096
  const STACK_MAX := 65536

  /** The frames from `from` to `to`. */
  function Frames(from: nat, to: nat): set<nat> {
    set f: nat | from <= f < to && f % PAGE_SIZE == 0
  }

  /** The elements of a sequence. */
  function Elements(s: seq<nat>): set<nat> {
    set f | f in s
  }

  /** The pool from `base` to `limit` falls into the frames in use, the dropped ones, the freed ones,
      and those behind the cursor. */
  ghost predicate Parted(base: nat, cursor: nat, held: set<nat>, dropped: set<nat>, freed: seq<nat>) {
    && base <= cursor
    && held !! dropped && held !! Elements(freed) && dropped !! Elements(freed)
    && held + dropped + Elements(freed) == Frames(base, cursor)
    && (forall i, j :: 0 <= i < j < |freed| ==> freed[i] != freed[j])
  }

  /** The counters count them, a dropped frame as one in use. */
  predicate Counted(base: nat, cursor: nat, limit: nat, held: set<nat>, dropped: set<nat>, freed: nat, inUse: nat, estimate: nat) {
    && inUse == |held| + |dropped|
    && estimate == freed + (limit - cursor) / PAGE_SIZE
    && inUse + estimate == (limit - base) / PAGE_SIZE
  }

  lemma Popped(base: nat, cursor: nat, held: set<nat>, dropped: set<nat>, freed: seq<nat>)
    requires Parted(base, cursor, held, dropped, freed) && freed != []
    ensures var n := |freed| - 1;
      Parted(base, cursor, held + {freed[n]}, dropped, freed[..n]) && freed[n] !in held && freed[n] !in dropped
      && freed[n] in Frames(base, cursor)
  {
    hide Frames;
    var n := |freed| - 1;
    assert freed[n] in Elements(freed);
    assert Elements(freed) == Elements(freed[..n]) + {freed[n]};
  }

  lemma Pushed(base: nat, cursor: nat, held: set<nat>, dropped: set<nat>, freed: seq<nat>, frame: nat)
    requires Parted(base, cursor, held, dropped, freed) && frame in held
    ensures Parted(base, cursor, held - {frame}, dropped, freed + [frame])
    ensures frame in Frames(base, cursor)
  {
    hide Frames;
    assert frame !in Elements(freed);
    assert Elements(freed + [frame]) == Elements(freed) + {frame};
  }

  lemma Advanced(base: nat, cursor: nat, held: set<nat>, dropped: set<nat>, freed: seq<nat>)
    requires Parted(base, cursor, held, dropped, freed) && cursor % PAGE_SIZE == 0
    ensures Parted(base, cursor + PAGE_SIZE, held + {cursor}, dropped, freed)
    ensures cursor !in held && cursor !in dropped
  {
    assert Frames(base, cursor + PAGE_SIZE) == Frames(base, cursor) + {cursor};
    assert cursor !in Frames(base, cursor);
  }

  lemma Lost(base: nat, cursor: nat, held: set<nat>, dropped: set<nat>, freed: seq<nat>, frame: nat)
    requires Parted(base, cursor, held, dropped, freed) && frame in held
    ensures Parted(base, cursor, held - {frame}, dropped + {frame}, freed) && frame !in dropped
  {
    hide Frames, Elements;
  }

  lemma NextFits(cursor: nat, limit: nat)
    requires cursor < limit && cursor % PAGE_SIZE == 0 && limit % PAGE_SIZE == 0
    ensures cursor + PAGE_SIZE <= limit && (cursor + PAGE_SIZE) % PAGE_SIZE == 0
  {
  }

  lemma CountTaken(base: nat, cursor: nat, limit: nat, held: set<nat>, dropped: set<nat>, freed: nat, inUse: nat, estimate: nat, frame: nat)
    requires Counted(base, cursor, limit, held, dropped, freed, inUse, estimate) && frame !in held
    requires base <= cursor <= limit && base % PAGE_SIZE == 0 && cursor % PAGE_SIZE == 0 && limit % PAGE_SIZE == 0
    ensures freed > 0 ==> estimate > 0 && Counted(base, cursor, limit, held + {frame}, dropped, freed - 1, inUse + 1, estimate - 1)
    ensures cursor < limit ==>
      estimate > 0 && Counted(base, cursor + PAGE_SIZE, limit, held + {frame}, dropped, freed, inUse + 1, estimate - 1)
  {
  }

  lemma CountGiven(base: nat, cursor: nat, limit: nat, held: set<nat>, dropped: set<nat>, freed: nat, inUse: nat, estimate: nat, frame: nat)
    requires Counted(base, cursor, limit, held, dropped, freed, inUse, estimate) && frame in held && cursor <= limit
    ensures inUse > 0 && Counted(base, cursor, limit, held - {frame}, dropped, freed + 1, inUse - 1, estimate + 1)
    ensures frame !in dropped ==> Counted(base, cursor, limit, held - {frame}, dropped + {frame}, freed, inUse, estimate)
  {
    assert held == held - {frame} + {frame};
  }

  class Pool {
    const base: nat
    const limit: nat
    var cursor: nat
    const stack: array<nat>
    var count: nat
    var inUse: nat
    var estimate: nat
    ghost var held: set<nat>
    ghost var dropped: set<nat>

    ghost predicate Valid()
      reads this, stack
    {
      && stack.Length == STACK_MAX && count <= STACK_MAX
      && 0 < base <= cursor <= limit <= TWO_64 - PAGE_SIZE
      && base % PAGE_SIZE == 0 && cursor % PAGE_SIZE == 0 && limit % PAGE_SIZE == 0
      && Parted(base, cursor, held, dropped, stack[..count])
      && Counted(base, cursor, limit, held, dropped, count, inUse, estimate)
    }

    constructor (start: nat, end: nat)
      requires 0 < start <= end <= TWO_64 - PAGE_SIZE && start % PAGE_SIZE == 0 && end % PAGE_SIZE == 0
      ensures Valid() && base == start && limit == end && held == {} && dropped == {} && cursor == start && count == 0
    {
      base, limit, cursor := start, end, start;
      stack := new nat[STACK_MAX](_ => 0);
      count, inUse := 0, 0;
      estimate := (end - start) / PAGE_SIZE;
      held, dropped := {}, {};
    }

    /** A frame that nobody holds, or none when stack and pool are used up. */
    method AllocFrame() returns (frame: Option<nat>)
      requires Valid()
      modifies this
      ensures Valid() && dropped == old(dropped)
      ensures frame.None? <==> old(count == 0 && cursor == limit)
      ensures frame.None? ==> held == old(held)
      ensures frame.Some? ==>
        && frame.value !in old(held) && frame.value !in dropped && held == old(held) + {frame.value}
        && frame.value in Frames(base, limit)
        && frame.value == old(if count > 0 then stack[count - 1] else cursor)
    {
      hide Parted, Counted, Frames;
      InPool(base, cursor, limit);
      if count > 0 {
        var top := TakeFreed();
        return Some(top);
      }
      if cursor + PAGE_SIZE > limit {
        return None;
      }
      var next := TakeNext();
      return Some(next);
    }

    /** The frame that was freed last. */
    method TakeFreed() returns (frame: nat)
      requires Valid() && count > 0
      modifies this
      ensures Valid() && dropped == old(dropped) && held == old(held) + {frame}
      ensures frame !in old(held) && frame !in dropped && frame in Frames(base, old(cursor))
      ensures frame == old(stack[count - 1])
    {
      hide Parted, Counted, Frames;
      Popped(base, cursor, held, dropped, stack[..count]);
      CountTaken(base, cursor, limit, held, dropped, count, inUse, estimate, stack[count - 1]);
      count := count - 1;
      frame := stack[count];
      assert stack[..count + 1][..count] == stack[..count];
      inUse := inUse + 1;
      if estimate > 0 {
        estimate := estimate - 1;
      }
      held := held + {frame};
    }

    /** The frame at the cursor. */
    method TakeNext() returns (frame: nat)
      requires Valid() && cursor < limit
      modifies this
      ensures Valid() && dropped == old(dropped) && held == old(held) + {frame}
      ensures frame !in old(held) && frame !in dropped && frame == old(cursor)
    {
      hide Parted, Counted, Frames, Elements;
      Advanced(base, cursor, held, dropped, stack[..count]);
      NextFits(cursor, limit);
      CountTaken(base, cursor, limit, held, dropped, count, inUse, estimate, cursor);
      frame := cursor;
      cursor := cursor + PAGE_SIZE;
      inUse := inUse + 1;
      if estimate > 0 {
        estimate := estimate - 1;
      }
      held := held + {frame};
    }

    /** Give back a frame that is held; with a full stack it is lost and stays counted as in use. Null
        and unaligned frames are ignored. */
    method FreeFrame(frame: nat)
      requires Valid() && (frame in held || frame == 0 || frame % PAGE_SIZE != 0)
      modifies this, stack
      ensures Valid() && held == old(held) - {frame} && cursor == old(cursor)
      ensures if frame !in old(held) || old(count) >= STACK_MAX then stack[..count] == old(stack[..count])
        else stack[..count] == old(stack[..count]) + [frame]
      ensures dropped == old(dropped) + if frame in old(held) && old(count) >= STACK_MAX then {frame} else {}
      ensures frame !in old(held) ==> inUse == old(inUse) && estimate == old(estimate)
    {
      hide Parted, Elements, Counted, Frames;
      if frame == 0 || frame % PAGE_SIZE != 0 {
        NotHeld(base, cursor, held, dropped, stack[..count], frame);
        return;
      }
      CountGiven(base, cursor, limit, held, dropped, count, inUse, estimate, frame);
      Pushed(base, cursor, held, dropped, stack[..count], frame);
      if count >= STACK_MAX {
        Lost(base, cursor, held, dropped, stack[..count], frame);
        held, dropped := held - {frame}, dropped + {frame};
        return;
      }
      ghost var freed := stack[..count];
      if inUse > 0 {
        inUse := inUse - 1;
      }
      estimate := estimate + 1;
      held := held - {frame};
      stack[count] := frame;
      count := count + 1;
      assert stack[..count] == freed + [frame];
    }
  }

  lemma NotHeld(base: nat, cursor: nat, held: set<nat>, dropped: set<nat>, freed: seq<nat>, frame: nat)
    requires base > 0 && Parted(base, cursor, held, dropped, freed) && (frame == 0 || frame % PAGE_SIZE != 0)
    ensures frame !in held
  {
    assert held <= Frames(base, cursor);
  }

  lemma InPool(base: nat, cursor: nat, limit: nat)
    requires base <= cursor <= limit && cursor % PAGE_SIZE == 0
    ensures Frames(base, cursor) <= Frames(base, limit)
    ensures cursor < limit ==> cursor in Frames(base, limit)
  {
  }
}

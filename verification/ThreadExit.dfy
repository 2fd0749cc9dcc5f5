/** The destructors of thread-specific values at the end of a thread, while other threads use keys. */
module ThreadExit {
  import opened Errors
  import opened ThreadKeys

  const DESTRUCTOR_ITERATIONS := 4

  /** A destructor call: when it came, the allocation whose destructor it is, the allocation whose value it got. */
  datatype Call = Call(pass: nat, index: nat, destructor: Destructor, value: Value, ofDestructor: nat, ofValue: nat)

  function Order(call: Call): nat {
    call.pass * KEY_COUNT + call.index
  }

  /** The value would be given to a destructor. */
  predicate IsDue(slot: Slot, cell: Cell) {
    slot.isAllocated && slot.destructor.Some? && cell.value != 0 && cell.generation == slot.generation
  }

  /** Unless the slot has gone through all generations, nothing is due. */
  predicate IsSettled(slot: Slot, cell: Cell) {
    slot.creations < GENERATIONS ==> !IsDue(slot, cell)
  }

  /** What was not due does not become due by what other threads do to the slot. */
  lemma SettledStays(slot: Slot, slot': Slot, cell: Cell)
    requires CellOk(cell, slot) && SlotOk(slot) && CanBecome(slot, slot') && IsSettled(slot, cell)
    ensures CellOk(cell, slot') && IsSettled(slot', cell)
  {
    GenerationsRepeat(cell.creations, slot'.creations);
  }

  /** The exiting thread, with its cells and the table that it shares with the others. */
  class ExitingThread {
    const slots: array<Slot>
    const cells: array<Cell>
    var calls: seq<Call>

    ghost predicate Valid()
      reads this, slots, cells
    {
      && slots.Length == cells.Length == KEY_COUNT
      && forall i | 0 <= i < KEY_COUNT :: SlotOk(slots[i]) && CellOk(cells[i], slots[i])
    }

    constructor (slots: array<Slot>, cells: array<Cell>)
      requires slots.Length == cells.Length == KEY_COUNT
      requires forall i | 0 <= i < KEY_COUNT :: SlotOk(slots[i]) && CellOk(cells[i], slots[i])
      ensures Valid() && this.slots == slots && this.cells == cells && calls == []
    {
      this.slots, this.cells, calls := slots, cells, [];
    }

    /** Other threads create and delete keys, in any number and order. */
    method OthersRun()
      requires Valid()
      modifies slots
      ensures Valid()
      ensures forall i | 0 <= i < KEY_COUNT :: CanBecome(old(slots[i]), slots[i])
    {
      for i := 0 to KEY_COUNT
        invariant Valid()
        invariant forall j | 0 <= j < KEY_COUNT :: CanBecome(old(slots[j]), slots[j])
        invariant forall j | i <= j < KEY_COUNT :: slots[j] == old(slots[j])
      {
        var next: Slot := *;
        if CanBecome(slots[i], next) {
          slots[i] := next;
        }
      }
    }

    /** A destructor runs. The value it gets is no longer stored; it may use keys itself. */
    method CallDestructor(call: Call)
      requires Valid() && call.index < KEY_COUNT && cells[call.index].value == 0 && call.value != 0
      modifies slots, cells, `calls
      ensures Valid() && calls == old(calls) + [call]
      ensures forall i | 0 <= i < KEY_COUNT :: CanBecome(old(slots[i]), slots[i])
    {
      calls := calls + [call];
      OthersRun();
      for i := 0 to KEY_COUNT
        invariant Valid() && calls == old(calls) + [call]
        invariant forall j | 0 <= j < KEY_COUNT :: CanBecome(old(slots[j]), slots[j])
      {
        var cell: Cell := *;
        if CellOk(cell, slots[i]) {
          cells[i] := cell;
        }
      }
    }

    /** The calls of one thread exit: in order, at most one for each index and pass, and each destructor
        gets a value that was stored under its own allocation. */
    ghost predicate CallsOk(start: nat, pass: nat, index: nat)
      reads this
    {
      && start <= |calls|
      && (forall i | start <= i < |calls| ::
            && calls[i].index < KEY_COUNT && Order(calls[i]) < pass * KEY_COUNT + index
            && (calls[i].ofDestructor < GENERATIONS ==> calls[i].ofValue == calls[i].ofDestructor))
      && (forall i, j | start <= i < j < |calls| :: Order(calls[i]) < Order(calls[j]))
    }

    /** One index of one pass: `seen` is the slot as it was read under the mutex. A value that is due is cleared,
        and then its own destructor gets it. */
    method Visit(pass: nat, index: nat, ghost start: nat) returns (invoked: bool, ghost seen: Slot)
      requires Valid() && index < KEY_COUNT && CallsOk(start, pass, index)
      modifies slots, cells, `calls
      ensures Valid() && CallsOk(start, pass, index + 1)
      ensures old(calls) <= calls && |calls| == |old(calls)| + if invoked then 1 else 0
      ensures CanBecome(old(slots[index]), seen)
      ensures invoked <==>
                && seen.isAllocated && seen.destructor.Some? && old(cells[index].value) != 0
                && old(cells[index].generation) == seen.generation
      ensures invoked ==>
                calls[|calls| - 1] == Call(pass, index, seen.destructor.value, old(cells[index]).value,
                                           seen.creations, old(cells[index]).creations)
      ensures !invoked ==> IsSettled(slots[index], cells[index]) && cells[..] == old(cells[..])
      ensures forall i | 0 <= i < KEY_COUNT :: CanBecome(old(slots[i]), slots[i])
    {
      OthersRun();
      var slot := slots[index];
      seen := slot;
      var destructor := if slot.isAllocated then slot.destructor else None;
      OthersRun();
      var cell := cells[index];
      GenerationsRepeat(cell.creations, slot.creations);
      GenerationsRepeat(cell.creations, slots[index].creations);
      if destructor.Some? && cell.value != 0 && cell.generation == slot.generation {
        cells[index] := cell.(value := 0);
        CallDestructor(Call(pass, index, destructor.value, cell.value, slot.creations, cell.creations));
        return true, seen;
      }
      return false, seen;
    }

    /** One pass over all indices. */
    method RunPass(pass: nat, ghost start: nat) returns (invoked: bool)
      requires Valid() && CallsOk(start, pass, 0)
      modifies slots, cells, `calls
      ensures Valid() && CallsOk(start, pass + 1, 0) && old(calls) <= calls
      ensures if invoked then |old(calls)| < |calls| <= |old(calls)| + KEY_COUNT else calls == old(calls)
      ensures !invoked ==> forall i | 0 <= i < KEY_COUNT :: IsSettled(slots[i], cells[i])
    {
      hide CallsOk;
      invoked := false;
      for index := 0 to KEY_COUNT
        invariant Valid() && CallsOk(start, pass, index) && old(calls) <= calls
        invariant if invoked then |old(calls)| < |calls| <= |old(calls)| + index else calls == old(calls)
        invariant !invoked ==> forall j | 0 <= j < index :: IsSettled(slots[j], cells[j])
      {
        label visiting:
        ghost var seen;
        var called;
        called, seen := Visit(pass, index, start);
        if !called {
          forall j | 0 <= j < index && !invoked ensures IsSettled(slots[j], cells[j]) {
            assert cells[j] == old@visiting(cells[..])[j];
            SettledStays(old@visiting(slots[j]), slots[j], cells[j]);
          }
        }
        invoked := invoked || called;
      }
      PassEnds(start, pass);
    }

    lemma PassEnds(start: nat, pass: nat)
      requires CallsOk(start, pass, KEY_COUNT)
      ensures CallsOk(start, pass + 1, 0)
    {}

    /** `run_thread_specific_destructors`: at most four passes, and only a pass that found nothing due ends
        the work early. `passes` counts those that called a destructor. */
    method RunDestructors() returns (passes: nat)
      requires Valid()
      modifies slots, cells, `calls
      ensures Valid() && passes <= 4 && CallsOk(|old(calls)|, passes, 0)
      ensures passes < 4 ==>
                forall i | 0 <= i < 16 && slots[i].creations < 0x100_0000 ::
                  !(slots[i].isAllocated && slots[i].destructor.Some? && cells[i].value != 0
                    && cells[i].generation == slots[i].generation)
      ensures passes <= |calls| - |old(calls)| <= passes * 16
      ensures forall i | |old(calls)| <= i < |calls| ::
                && calls[i].pass < passes && calls[i].index < 16
                && (calls[i].ofDestructor < 0xFF_FFFF ==> calls[i].ofValue == calls[i].ofDestructor)
      ensures forall i, j | |old(calls)| <= i < j < |calls| ::
                calls[i].pass < calls[j].pass || (calls[i].pass == calls[j].pass && calls[i].index < calls[j].index)
    {
      passes := 0;
      while passes < DESTRUCTOR_ITERATIONS
        invariant Valid() && passes <= DESTRUCTOR_ITERATIONS && CallsOk(|old(calls)|, passes, 0)
        invariant passes <= |calls| - |old(calls)| <= passes * KEY_COUNT
      {
        var invoked := RunPass(passes, |old(calls)|);
        if !invoked {
          return;
        }
        passes := passes + 1;
      }
    }
  }
}

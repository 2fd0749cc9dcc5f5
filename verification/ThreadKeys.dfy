/** Thread-specific keys: sixteen slots that are used again, told apart by generations. */
module ThreadKeys {
  import opened Arithmetic
  import opened Errors

  const KEY_COUNT := 16
  const KEY_INDEX_SIZE := 0x100
  const GENERATIONS := 0x100_0000

  type Thread = nat

  type Destructor = nat

  /** A stored pointer; 0 is the null pointer. */
  type Value = nat

  // ----- Handles -----

  /** 24 bits of generation above 8 bits of index. */
  function MakeKey(index: nat, generation: nat): nat {
    generation * KEY_INDEX_SIZE + index
  }

  function KeyIndex(key: nat): nat {
    key % KEY_INDEX_SIZE
  }

  function KeyGeneration(key: nat): nat {
    key / KEY_INDEX_SIZE
  }

  lemma KeyRoundTrip(index: nat, generation: nat, key: nat)
    requires index < 256
    ensures KeyIndex(MakeKey(index, generation)) == index && KeyGeneration(MakeKey(index, generation)) == generation
    ensures MakeKey(index, generation) % 256 == index && MakeKey(index, generation) / 256 == generation
    ensures MakeKey(KeyIndex(key), KeyGeneration(key)) == key
  {}

  /** A 24-bit increment that skips 0. */
  function NextGeneration(generation: nat): nat {
    var next := (generation + 1) % GENERATIONS;
    if next == 0 then 1 else next
  }

  /** The generation of a slot after so many creations. */
  function Generation(creations: nat): nat {
    if creations == 0 then 0 else 1 + (creations - 1) % (GENERATIONS - 1)
  }

  lemma GenerationsCount(creations: nat)
    ensures Generation(creations) < GENERATIONS
    ensures NextGeneration(Generation(creations)) == Generation(creations + 1)
  {
    if creations > 0 {
      ModCounts(creations - 1, GENERATIONS - 1);
    }
  }

  /** Two creations of a slot share a generation exactly when a multiple of 2^24 - 1 lies between them. */
  lemma GenerationsRepeat(c: nat, d: nat)
    requires c <= d
    ensures Generation(c) == Generation(d) <==> (c == 0 <==> d == 0) && (d - c) % 0xFF_FFFF == 0
    ensures d <= 0xFF_FFFF ==> (Generation(c) == Generation(d) <==> c == d)
    ensures Generation(c) == 0 <==> c == 0
  {
    if c > 0 {
      ModEqual(d - 1, c - 1, GENERATIONS - 1);
    }
  }

  // ----- The table of keys -----

  /** `creations` is bookkeeping that nothing reads: an allocation is an index with a number of creations. */
  datatype Slot = Slot(isAllocated: bool, destructor: Option<Destructor>, generation: nat, creations: nat)

  datatype Allocation = Allocation(index: nat, creations: nat)

  predicate SlotOk(slot: Slot) {
    slot.generation == Generation(slot.creations) && (slot.isAllocated ==> slot.creations > 0)
  }

  ghost predicate SlotsOk(slots: seq<Slot>) {
    |slots| == KEY_COUNT && forall i | 0 <= i < KEY_COUNT :: SlotOk(slots[i])
  }

  predicate IsLive(slots: seq<Slot>, key: nat)
    requires |slots| == KEY_COUNT
  {
    && KeyIndex(key) < KEY_COUNT && KeyGeneration(key) != 0
    && slots[KeyIndex(key)].isAllocated && slots[KeyIndex(key)].generation == KeyGeneration(key)
  }

  function Created(slot: Slot, destructor: Option<Destructor>): Slot {
    Slot(true, destructor, NextGeneration(slot.generation), slot.creations + 1)
  }

  function Deleted(slot: Slot): Slot {
    slot.(isAllocated := false, destructor := None)
  }

  function FirstFree(slots: seq<Slot>, i: nat): (free: nat)
    requires i <= |slots|
    ensures i <= free <= |slots|
    ensures free < |slots| ==> !slots[free].isAllocated
    ensures forall j | i <= j < free :: slots[j].isAllocated
    decreases |slots| - i
  {
    if i == |slots| || !slots[i].isAllocated then i else FirstFree(slots, i + 1)
  }

  class KeyTable {
    const slots: array<Slot>

    ghost predicate Valid()
      reads this, slots
    {
      slots.Length == KEY_COUNT && SlotsOk(slots[..])
    }

    constructor ()
      ensures Valid() && fresh(slots)
      ensures slots[..] == seq(KEY_COUNT, _ => Slot(false, None, 0, 0))
    {
      slots := new Slot[KEY_COUNT](_ => Slot(false, None, 0, 0));
    }

    /** `key_create`: the first free slot, under a generation that no handle to the slot has had before
        unless the generations have gone full circle. */
    method Create(destructor: Option<Destructor>) returns (key: Option<nat>)
      requires Valid()
      modifies slots
      ensures Valid()
      ensures var i := FirstFree(old(slots[..]), 0);
              if i == 16 then key == None && slots[..] == old(slots[..])
              else
                && slots[..] == old(slots[..])[i := slots[i]] && !old(slots[i].isAllocated)
                && slots[i] == Slot(true, destructor, NextGeneration(old(slots[i].generation)),
                                    old(slots[i].creations) + 1)
                && key == Some(MakeKey(i, slots[i].generation)) && IsLive(slots[..], key.value)
    {
      for index := 0 to KEY_COUNT
        invariant slots[..] == old(slots[..])
        invariant forall j | 0 <= j < index :: slots[j].isAllocated
      {
        if !slots[index].isAllocated {
          assert FirstFree(slots[..], 0) == index;
          GenerationsCount(slots[index].creations);
          slots[index] := Created(slots[index], destructor);
          KeyRoundTrip(index, slots[index].generation, 0);
          return Some(MakeKey(index, slots[index].generation));
        }
      }
      key := None;
    }

    /** `key_delete`: EINVAL unless the handle is live, and afterwards it is not. */
    method Delete(key: nat) returns (error: Errno)
      requires Valid()
      modifies slots
      ensures Valid() && !IsLive(slots[..], key)
      ensures error == if IsLive(old(slots[..]), key) then OK else EINVAL
      ensures error == OK ==>
                var slot := old(slots[..])[KeyIndex(key)];
                slots[..] == old(slots[..])[KeyIndex(key) := slot.(isAllocated := false, destructor := None)]
      ensures error != OK ==> slots[..] == old(slots[..])
    {
      var index, generation := KeyIndex(key), KeyGeneration(key);
      if index >= KEY_COUNT || generation == 0 {
        return EINVAL;
      }
      if !slots[index].isAllocated || slots[index].generation != generation {
        return EINVAL;
      }
      slots[index] := Deleted(slots[index]);
      return OK;
    }
  }

  // ----- Threads using keys -----

  /** What a thread stores under an index. `creations` is bookkeeping: the allocation it was stored under. */
  datatype Cell = Cell(generation: nat, value: Value, creations: nat)

  /** A call that has left the mutex and not yet touched the cell of its thread. */
  datatype Pending =
    | Setting(allocation: Allocation, generation: nat, value: Value)
    | Getting(allocation: Allocation, generation: nat)
    | Destroying(allocation: Allocation, generation: nat, destructor: Option<Destructor>)

  /** What can be observed, named by allocations. */
  datatype Event =
    | Stored(thread: Thread, allocation: Allocation, value: Value)
    | Got(thread: Thread, allocation: Allocation, value: Value)
    | Destroyed(thread: Thread, allocation: Allocation, value: Value)

  datatype State = State(slots: seq<Slot>, cells: map<(Thread, nat), Cell>,
                         pending: map<Thread, Pending>, trace: seq<Event>)

  datatype Step =
    | Create(destructor: Option<Destructor>)
    | Delete(key: nat)
    | BeginSet(thread: Thread, key: nat, value: Value)
    | BeginGet(thread: Thread, key: nat)
    | BeginDestroy(thread: Thread, index: nat)
    | Finish(thread: Thread)

  function Initial(): State {
    State(seq(KEY_COUNT, _ => Slot(false, None, 0, 0)), map[], map[], [])
  }

  function CellOf(s: State, thread: Thread, index: nat): Cell {
    if (thread, index) in s.cells then s.cells[(thread, index)] else Cell(0, 0, 0)
  }

  function AllocationOf(s: State, index: nat): Allocation
    requires index < |s.slots|
  {
    Allocation(index, s.slots[index].creations)
  }

  predicate Enabled(s: State, step: Step) {
    && |s.slots| == KEY_COUNT
    && match step
       case Create(_) => true
       case Delete(_) => true
       case BeginSet(thread, _, _) => thread !in s.pending
       case BeginGet(thread, _) => thread !in s.pending
       case BeginDestroy(thread, index) => thread !in s.pending && index < KEY_COUNT
       case Finish(thread) => thread in s.pending
  }

  function WithPending(s: State, thread: Thread, pending: Pending): State {
    s.(pending := s.pending[thread := pending])
  }

  function Store(s: State, thread: Thread, cell: Cell, event: Event): State {
    s.(cells := s.cells[(thread, event.allocation.index) := cell], trace := s.trace + [event])
  }

  /** A call that is refused changes nothing; one that passes the check under the mutex goes on without it. */
  function Next(s: State, step: Step): State
    requires Enabled(s, step)
  {
    match step
    case Create(destructor) =>
      var i := FirstFree(s.slots, 0);
      if i == KEY_COUNT then s else s.(slots := s.slots[i := Created(s.slots[i], destructor)])
    case Delete(key) =>
      if !IsLive(s.slots, key) then s
      else s.(slots := s.slots[KeyIndex(key) := Deleted(s.slots[KeyIndex(key)])])
    case BeginSet(thread, key, value) =>
      if !IsLive(s.slots, key) then s
      else WithPending(s, thread, Setting(AllocationOf(s, KeyIndex(key)), KeyGeneration(key), value))
    case BeginGet(thread, key) =>
      if !IsLive(s.slots, key) then s
      else WithPending(s, thread, Getting(AllocationOf(s, KeyIndex(key)), KeyGeneration(key)))
    case BeginDestroy(thread, index) =>
      var slot := s.slots[index];
      WithPending(s, thread, Destroying(AllocationOf(s, index), slot.generation,
                                        if slot.isAllocated then slot.destructor else None))
    case Finish(thread) =>
      var p := s.pending[thread];
      var cell := CellOf(s, thread, p.allocation.index);
      var done := s.(pending := s.pending - {thread});
      match p
      case Setting(allocation, generation, value) =>
        Store(done, thread, Cell(generation, value, allocation.creations), Stored(thread, allocation, value))
      case Getting(allocation, generation) =>
        done.(trace := s.trace + [Got(thread, allocation, if cell.generation == generation then cell.value else 0)])
      case Destroying(allocation, generation, destructor) =>
        if destructor.None? || cell.value == 0 || cell.generation != generation then done
        else Store(done, thread, cell.(value := 0), Destroyed(thread, allocation, cell.value))
  }

  ghost predicate IsRun(s: State, steps: seq<Step>, s': State)
    decreases |steps|
  {
    if steps == [] then s' == s else Enabled(s, steps[0]) && IsRun(Next(s, steps[0]), steps[1..], s')
  }

  // ----- The specification: a map from allocation and thread to value -----

  /** What a thread last stored under an allocation and has not passed to a destructor. */
  function Latest(trace: seq<Event>, thread: Thread, allocation: Allocation): Value
    decreases |trace|
  {
    if trace == [] then 0 else
      var last, before := trace[|trace| - 1], trace[..|trace| - 1];
      if last.thread == thread && last.allocation == allocation && !last.Got?
      then (if last.Stored? then last.value else 0)
      else Latest(before, thread, allocation)
  }

  /** Every value read, and every value given to a destructor, is the latest one of its own allocation. */
  ghost predicate IsLegal(trace: seq<Event>) {
    forall i | 0 <= i < |trace| && !trace[i].Stored? ::
      && trace[i].value == Latest(trace[..i], trace[i].thread, trace[i].allocation)
      && (trace[i].Destroyed? ==> trace[i].value != 0)
  }

  // ----- The refinement -----

  predicate CellOk(cell: Cell, slot: Slot) {
    cell.generation == Generation(cell.creations) && cell.creations <= slot.creations
    && (cell.creations == 0 ==> cell.value == 0)
  }

  predicate PendingOk(p: Pending, cell: Cell, slot: Slot) {
    && p.generation == Generation(p.allocation.creations)
    && cell.creations <= p.allocation.creations <= slot.creations
    && (!p.Destroying? ==> p.allocation.creations > 0)
  }

  /** The cell holds what the map says, for the allocation of the cell and all later ones. */
  ghost predicate CellShows(cell: Cell, trace: seq<Event>, thread: Thread, index: nat) {
    forall c: nat | c >= cell.creations ::
      Latest(trace, thread, Allocation(index, c)) == if c == cell.creations then cell.value else 0
  }

  ghost predicate Invariant(s: State) {
    && SlotsOk(s.slots)
    && (forall t: Thread, i | 0 <= i < KEY_COUNT ::
          CellOk(CellOf(s, t, i), s.slots[i]) && CellShows(CellOf(s, t, i), s.trace, t, i))
    && (forall t | t in s.pending ::
          var i := s.pending[t].allocation.index;
          i < KEY_COUNT && PendingOk(s.pending[t], CellOf(s, t, i), s.slots[i]))
  }

  /** Fewer than 2^24 - 1 re-creations of each slot so far. */
  ghost predicate IsFirstRound(s: State) {
    forall i | 0 <= i < |s.slots| :: s.slots[i].creations < GENERATIONS
  }

  lemma InitialOk()
    ensures Invariant(Initial())
  {}

  /** Slots only move on: their creations grow, and what is in use after a deletion was created anew. */
  predicate CanBecome(a: Slot, b: Slot) {
    && SlotOk(b) && a.creations <= b.creations
    && (a.creations == b.creations && b.isAllocated ==> a.isAllocated && b.destructor == a.destructor)
  }

  lemma SlotsMoveOn(a: Slot, b: Slot, c: Slot, destructor: Option<Destructor>)
    requires SlotOk(a)
    ensures CanBecome(a, a) && CanBecome(a, Deleted(a)) && CanBecome(a, Created(a, destructor))
    ensures CanBecome(a, b) && CanBecome(b, c) ==> CanBecome(a, c)
  {
    GenerationsCount(a.creations);
  }

  /** One slot moves on while the threads' cells stay. */
  lemma SlotChangeKeeps(s: State, s': State)
    requires Invariant(s) && s' == s.(slots := s'.slots) && |s'.slots| == KEY_COUNT
    requires forall i | 0 <= i < KEY_COUNT :: CanBecome(s.slots[i], s'.slots[i])
    ensures Invariant(s')
  {
    hide CellShows;
    forall t: Thread, i | 0 <= i < KEY_COUNT
      ensures CellOk(CellOf(s', t, i), s'.slots[i]) && CellShows(CellOf(s', t, i), s'.trace, t, i)
    {
      assert CellOf(s', t, i) == CellOf(s, t, i);
      assert CellOk(CellOf(s, t, i), s.slots[i]) && CanBecome(s.slots[i], s'.slots[i]);
    }
    forall t | t in s'.pending
      ensures s'.pending[t].allocation.index < KEY_COUNT
      ensures var i := s'.pending[t].allocation.index; PendingOk(s'.pending[t], CellOf(s', t, i), s'.slots[i])
    {
      var i := s.pending[t].allocation.index;
      assert PendingOk(s.pending[t], CellOf(s, t, i), s.slots[i]) && CanBecome(s.slots[i], s'.slots[i]);
    }
  }

  lemma BeginKeeps(s: State, thread: Thread, p: Pending)
    requires Invariant(s) && thread !in s.pending && p.allocation.index < KEY_COUNT
    requires p.allocation == AllocationOf(s, p.allocation.index)
    requires p.generation == s.slots[p.allocation.index].generation
    requires !p.Destroying? ==> s.slots[p.allocation.index].isAllocated
    ensures Invariant(WithPending(s, thread, p))
  {
    hide CellShows;
    var s', i := WithPending(s, thread, p), p.allocation.index;
    assert CellOk(CellOf(s, thread, i), s.slots[i]) && SlotOk(s.slots[i]);
    assert forall t: Thread, i | 0 <= i < KEY_COUNT :: CellOf(s', t, i) == CellOf(s, t, i);
  }

  lemma LatestAppended(trace: seq<Event>, event: Event, thread: Thread, allocation: Allocation)
    ensures Latest(trace + [event], thread, allocation) ==
            if event.thread == thread && event.allocation == allocation && !event.Got?
            then (if event.Stored? then event.value else 0)
            else Latest(trace, thread, allocation)
  {
    assert (trace + [event])[..|trace|] == trace;
  }

  /** An event about one cell leaves what the others show, and determines what its own shows. */
  lemma EventShows(cell: Cell, cell': Cell, trace: seq<Event>, event: Event, thread: Thread, index: nat)
    requires CellShows(cell, trace, thread, index)
    requires event.thread == thread && event.allocation.index == index ==>
               if event.Got? then cell' == cell
               else
                 && cell.creations <= cell'.creations == event.allocation.creations
                 && cell'.value == if event.Stored? then event.value else 0
    requires !(event.thread == thread && event.allocation.index == index) ==> cell' == cell
    ensures CellShows(cell', trace + [event], thread, index)
  {
    forall c: nat | c >= cell'.creations
      ensures Latest(trace + [event], thread, Allocation(index, c)) == if c == cell'.creations then cell'.value else 0
    {
      LatestAppended(trace, event, thread, Allocation(index, c));
    }
  }

  /** In the first round, the generations compare as the allocations do. */
  lemma SameGenerationSameAllocation(s: State, thread: Thread)
    requires Invariant(s) && IsFirstRound(s) && thread in s.pending
    ensures var p := s.pending[thread]; var cell := CellOf(s, thread, p.allocation.index);
            cell.generation == p.generation <==> cell.creations == p.allocation.creations
  {
    var p := s.pending[thread];
    var cell := CellOf(s, thread, p.allocation.index);
    assert CellOk(cell, s.slots[p.allocation.index]) && PendingOk(p, cell, s.slots[p.allocation.index]);
    GenerationsRepeat(cell.creations, p.allocation.creations);
  }

  /** The last step of a call: one cell changes at most, and the trace grows by the event about it. */
  lemma FinishKeeps(s: State, thread: Thread)
    requires Invariant(s) && IsFirstRound(s) && thread in s.pending
    ensures Invariant(Next(s, Finish(thread)))
  {
    hide CellShows;
    var s', p := Next(s, Finish(thread)), s.pending[thread];
    var index := p.allocation.index;
    var cell := CellOf(s, thread, index);
    assert CellOk(cell, s.slots[index]) && PendingOk(p, cell, s.slots[index]);
    SameGenerationSameAllocation(s, thread);
    forall t: Thread, i | 0 <= i < KEY_COUNT
      ensures CellOk(CellOf(s', t, i), s'.slots[i]) && CellShows(CellOf(s', t, i), s'.trace, t, i)
    {
      assert CellOk(CellOf(s, t, i), s.slots[i]) && CellShows(CellOf(s, t, i), s.trace, t, i);
      if s'.trace != s.trace {
        EventShows(CellOf(s, t, i), CellOf(s', t, i), s.trace, s'.trace[|s.trace|], t, i);
      }
    }
    forall t | t in s'.pending
      ensures var j := s'.pending[t].allocation.index;
              j < KEY_COUNT && PendingOk(s'.pending[t], CellOf(s', t, j), s'.slots[j])
    {
      assert CellOf(s', t, s.pending[t].allocation.index) == CellOf(s, t, s.pending[t].allocation.index);
    }
  }

  /** What the last step of a call reads or destroys is what the map has for the allocation that was checked. */
  lemma FinishIsLegal(s: State, thread: Thread)
    requires Invariant(s) && IsFirstRound(s) && thread in s.pending && IsLegal(s.trace)
    ensures IsLegal(Next(s, Finish(thread)).trace)
  {
    var s', p := Next(s, Finish(thread)), s.pending[thread];
    var cell := CellOf(s, thread, p.allocation.index);
    assert CellShows(cell, s.trace, thread, p.allocation.index);
    assert PendingOk(p, cell, s.slots[p.allocation.index]);
    assert p.allocation == Allocation(p.allocation.index, p.allocation.creations);
    SameGenerationSameAllocation(s, thread);
    forall i | 0 <= i < |s'.trace| && !s'.trace[i].Stored?
      ensures s'.trace[i].value == Latest(s'.trace[..i], s'.trace[i].thread, s'.trace[i].allocation)
      ensures s'.trace[i].Destroyed? ==> s'.trace[i].value != 0
    {
      if i < |s.trace| {
        assert s'.trace[i] == s.trace[i] && s'.trace[..i] == s.trace[..i];
      } else {
        assert s'.trace[..i] == s.trace;
      }
    }
  }

  lemma StepKeeps(s: State, step: Step)
    requires Invariant(s) && IsLegal(s.trace) && IsFirstRound(s) && Enabled(s, step)
    ensures Invariant(Next(s, step)) && IsLegal(Next(s, step).trace)
  {
    match step {
      case Finish(thread) =>
        hide Invariant, IsLegal, Next;
        FinishKeeps(s, thread);
        FinishIsLegal(s, thread);
      case Create(destructor) =>
        hide IsLegal, CellShows, CellOk, PendingOk;
        StepMovesOn(s, step);
        SlotChangeKeeps(s, Next(s, step));
      case Delete(key) =>
        hide IsLegal, CellShows, CellOk, PendingOk;
        StepMovesOn(s, step);
        SlotChangeKeeps(s, Next(s, step));
      case BeginSet(thread, key, value) =>
        hide IsLegal, CellShows, CellOk, PendingOk;
        if IsLive(s.slots, key) {
          BeginKeeps(s, thread, Next(s, step).pending[thread]);
        }
      case BeginGet(thread, key) =>
        hide IsLegal, CellShows, CellOk, PendingOk;
        if IsLive(s.slots, key) {
          BeginKeeps(s, thread, Next(s, step).pending[thread]);
        }
      case BeginDestroy(thread, index) =>
        hide IsLegal, CellShows, CellOk, PendingOk;
        BeginKeeps(s, thread, Next(s, step).pending[thread]);
    }
  }

  lemma StepMovesOn(s: State, step: Step)
    requires SlotsOk(s.slots) && Enabled(s, step)
    ensures |Next(s, step).slots| == KEY_COUNT
    ensures forall i | 0 <= i < KEY_COUNT :: CanBecome(s.slots[i], Next(s, step).slots[i])
  {
    forall i | 0 <= i < KEY_COUNT
      ensures CanBecome(s.slots[i], Next(s, step).slots[i])
    {
      SlotsMoveOn(s.slots[i], s.slots[i], s.slots[i], if step.Create? then step.destructor else None);
    }
  }

  /** Creations are never taken back, so a first round at the end is one all along. */
  lemma {:induction false} RunKeeps(s: State, steps: seq<Step>, s': State)
    requires SlotsOk(s.slots) && IsRun(s, steps, s') && IsFirstRound(s')
    ensures IsFirstRound(s)
    ensures Invariant(s) && IsLegal(s.trace) ==> Invariant(s') && IsLegal(s'.trace)
    decreases |steps|
  {
    if steps != [] {
      StepMovesOn(s, steps[0]);
      var next := Next(s, steps[0]);
      assert forall i | 0 <= i < KEY_COUNT :: CanBecome(s.slots[i], next.slots[i]);
      RunKeeps(next, steps[1..], s');
      if Invariant(s) && IsLegal(s.trace) {
        StepKeeps(s, steps[0]);
      }
    }
  }

  /** The tagged slots are a map from allocation and thread to value: while no slot has been created 2^24 times,
      no thread ever reads, and no destructor ever gets, a value of an earlier allocation of the slot. */
  lemma SlotsAreAMap(steps: seq<Step>, s: State)
    requires IsRun(Initial(), steps, s) && IsFirstRound(s)
    ensures IsLegal(s.trace)
  {
    InitialOk();
    RunKeeps(Initial(), steps, s);
  }

  // ----- What the trace records -----

  /** A call of one thread is not disturbed by the others: what it has noted under the mutex it still has. */
  lemma {:induction false} PendingStays(s: State, steps: seq<Step>, s': State, thread: Thread)
    requires IsRun(s, steps, s') && thread in s.pending && Finish(thread) !in steps
    ensures thread in s'.pending && s'.pending[thread] == s.pending[thread]
    decreases |steps|
  {
    if steps != [] {
      assert steps[0] in steps;
      PendingStays(Next(s, steps[0]), steps[1..], s', thread);
    }
  }

  /** A key is accepted exactly when its index (the low 8 bits) names an allocated slot of its generation (the
      other bits), which is never 0. */
  lemma AcceptedKeys(slots: seq<Slot>, key: nat)
    requires |slots| == 16
    ensures IsLive(slots, key) <==>
            && key % 256 < 16 && slots[key % 256].isAllocated
            && slots[key % 256].generation == key / 256 && key / 256 != 0
  {}

  /** The first free slot is allocated with the destructor that was passed; with none free nothing changes. */
  lemma CreationTakesTheFirstFree(s: State, destructor: Option<Destructor>, i: nat)
    requires Enabled(s, Create(destructor)) && i <= 16
    requires (forall j | 0 <= j < i :: s.slots[j].isAllocated) && (i < 16 ==> !s.slots[i].isAllocated)
    ensures var next := Next(s, Create(destructor));
            if i == 16 then next == s
            else
              && next == s.(slots := next.slots) && |next.slots| == 16
              && (forall j | 0 <= j < 16 && j != i :: next.slots[j] == s.slots[j])
              && next.slots[i].isAllocated && next.slots[i].destructor == destructor
              && next.slots[i].creations == s.slots[i].creations + 1
  {}

  /** Deleting a live key frees its slot and no other; any other key changes nothing. */
  lemma DeletionFreesTheSlot(s: State, key: nat)
    requires Enabled(s, Delete(key))
    ensures var next := Next(s, Delete(key));
            if !IsLive(s.slots, key) then next == s
            else
              && next == s.(slots := next.slots) && |next.slots| == 16 && !next.slots[key % 256].isAllocated
              && (forall j | 0 <= j < 16 && j != key % 256 :: next.slots[j] == s.slots[j])
  {}

  /** Setting and getting, from the check of the key to the access: a key that is not live changes nothing; with a
      live one the value that was passed is recorded under the allocation that the key named, or the value read. */
  lemma CallIsRecorded(s: State, begin: Step, between: seq<Step>, s': State)
    requires begin.BeginSet? || begin.BeginGet?
    requires Enabled(s, begin) && IsRun(Next(s, begin), between, s') && Finish(begin.thread) !in between
    ensures if !IsLive(s.slots, begin.key) then Next(s, begin) == s
            else
              && Enabled(s', Finish(begin.thread))
              && var allocation := Allocation(begin.key % 256, s.slots[begin.key % 256].creations);
                 var trace := Next(s', Finish(begin.thread)).trace;
                 && |trace| == |s'.trace| + 1 && trace[..|s'.trace|] == s'.trace
                 && (begin.BeginSet? ==> trace[|s'.trace|] == Stored(begin.thread, allocation, begin.value))
                 && (begin.BeginGet? ==>
                       trace[|s'.trace|].Got? && trace[|s'.trace|].thread == begin.thread
                       && trace[|s'.trace|].allocation == allocation)
  {
    AcceptedKeys(s.slots, begin.key);
    if IsLive(s.slots, begin.key) {
      PendingStays(Next(s, begin), between, s', begin.thread);
      RunKeepsCount(Next(s, begin), between, s');
    }
  }

  lemma {:induction false} RunKeepsCount(s: State, steps: seq<Step>, s': State)
    requires |s.slots| == KEY_COUNT && IsRun(s, steps, s')
    ensures |s'.slots| == KEY_COUNT
    decreases |steps|
  {
    if steps != [] {
      RunKeepsCount(Next(s, steps[0]), steps[1..], s');
    }
  }

  /** At the end of a thread a value is given to the destructor exactly when the slot was allocated with one as it
      was read, the value is not null, and it was stored under the generation of the slot. */
  lemma DestroyedExactlyWhenDue(s: State, thread: Thread, index: nat, between: seq<Step>, s': State)
    requires Enabled(s, BeginDestroy(thread, index)) && Finish(thread) !in between
    requires IsRun(Next(s, BeginDestroy(thread, index)), between, s')
    ensures Enabled(s', Finish(thread))
    ensures var slot, cell, trace := s.slots[index], CellOf(s', thread, index), Next(s', Finish(thread)).trace;
            if slot.isAllocated && slot.destructor.Some? && cell.value != 0 && cell.generation == slot.generation
            then trace == s'.trace + [Destroyed(thread, Allocation(index, slot.creations), cell.value)]
                 && CellOf(Next(s', Finish(thread)), thread, index).value == 0
            else trace == s'.trace && CellOf(Next(s', Finish(thread)), thread, index) == cell
  {
    PendingStays(Next(s, BeginDestroy(thread, index)), between, s', thread);
    RunKeepsCount(Next(s, BeginDestroy(thread, index)), between, s');
  }

  lemma {:induction false} RunExtends(s: State, steps: seq<Step>, s': State, step: Step)
    requires IsRun(s, steps, s') && Enabled(s', step)
    ensures IsRun(s, steps + [step], Next(s', step))
    decreases |steps|
  {
    hide Enabled, Next;
    if steps == [] {
      assert (steps + [step])[1..] == [];
    } else {
      assert (steps + [step])[1..] == steps[1..] + [step];
      RunExtends(Next(s, steps[0]), steps[1..], s', step);
    }
  }

  lemma Extended(steps: seq<Step>, s: State, step: Step) returns (steps': seq<Step>, s': State)
    requires IsRun(Initial(), steps, s) && Enabled(s, step)
    ensures IsRun(Initial(), steps', s') && s' == Next(s, step)
  {
    RunExtends(Initial(), steps, s, step);
    steps', s' := steps + [step], Next(s, step);
  }

  /** Thread 0 has stored 7 under the first allocation of slot 0, which has then been recreated `n` times. */
  function Recreated(n: nat): State {
    State(Initial().slots[0 := Slot(true, None, Generation(n + 1), n + 1)], map[(0, 0) := Cell(1, 7, 1)], map[],
          [Stored(0, Allocation(0, 1), 7)])
  }

  lemma {:induction false} ReachRecreated(n: nat) returns (steps: seq<Step>)
    ensures IsRun(Initial(), steps, Recreated(n))
    decreases n
  {
    var s;
    if n == 0 {
      s := Initial();
      steps := [];
      assert IsRun(Initial(), steps, s);
      hide IsRun;
      steps, s := Extended(steps, s, Create(None));
      steps, s := Extended(steps, s, BeginSet(0, MakeKey(0, 1), 7));
      steps, s := Extended(steps, s, Finish(0));
      assert s == Recreated(0);
    } else {
      hide IsRun;
      steps := ReachRecreated(n - 1);
      s := Recreated(n - 1);
      GenerationsCount(n);
      KeyRoundTrip(0, Generation(n), 0);
      steps, s := Extended(steps, s, Delete(MakeKey(0, Generation(n))));
      assert FirstFree(s.slots, 0) == 0;
      steps, s := Extended(steps, s, Create(None));
      assert s == Recreated(n);
    }
  }

  /** The bound is exact: with the 2^24th creation of a slot a thread reads what it stored under the first. */
  lemma FullCircleReadsStaleValue() returns (steps: seq<Step>, s: State)
    ensures IsRun(Initial(), steps, s) && !IsLegal(s.trace)
    ensures |s.slots| == KEY_COUNT && s.slots[0].creations == 0x100_0000
    ensures forall i | 0 < i < |s.slots| :: s.slots[i].creations == 0
  {
    steps := ReachRecreated(GENERATIONS - 1);
    s := Recreated(GENERATIONS - 1);
    hide IsRun;
    GenerationsRepeat(1, GENERATIONS);
    KeyRoundTrip(0, 1, 0);
    steps, s := Extended(steps, s, BeginGet(0, MakeKey(0, 1)));
    steps, s := Extended(steps, s, Finish(0));
    assert s.trace[1] == Got(0, Allocation(0, GENERATIONS), 7);
    var stored := Stored(0, Allocation(0, 1), 7);
    LatestAppended([], stored, 0, Allocation(0, GENERATIONS));
    assert [] + [stored] == [stored] == s.trace[..1];
  }
}

/** One-time construction: the guard functions of the Itanium C++ ABI (section 3.3.2), and `once`.

    Any number of visits to any number of guards take their steps in any order. Every load and store of a
    guard byte and every mutex operation is a step of its own, and user code runs between two of them. */
module Guards {
  datatype Kind = GuardObject | OnceControl

  /** The two bytes of a guard, or the state word of a `once` control. */
  datatype Cell = Bytes(initialized: nat, inProgress: nat) | Word(state: nat)

  /** One use of a guard by one thread: acquire, perhaps the initializer, and release or abort. */
  datatype Pc =
    | Looking | Locking | Checking | CheckingProgress | Marking
    | LeavingDone | LeavingRun | LeavingWait | Sleeping
    | Running
    | LockingRelease | Clearing | Setting | LeavingRelease
    | LockingAbort | Aborting | LeavingAbort
    | ReturnedZero | Released | Aborted

  datatype Visit = Visit(guard: nat, pc: Pc)

  /** The machine that a user of guards thinks of. */
  datatype Phase = Fresh | Busy(visit: nat) | Done

  /** `holders` are the visits that hold the mutex for each kind. `phases` is bookkeeping that no step reads. */
  datatype State = State(cells: seq<Cell>, visits: seq<Visit>, holders: map<Kind, nat>, phases: seq<Phase>)

  datatype Step = Begin(guard: nat) | Take(visit: nat, succeeds: bool)

  function KindOf(cell: Cell): Kind {
    if cell.Bytes? then GuardObject else OnceControl
  }

  function NewCell(kind: Kind): Cell {
    if kind == GuardObject then Bytes(0, 0) else Word(0)
  }

  function Initial(kinds: seq<Kind>): State {
    State(seq(|kinds|, i requires 0 <= i < |kinds| => NewCell(kinds[i])), [], map[], seq(|kinds|, _ => Fresh))
  }

  predicate IsKnown(s: State, v: nat) {
    && v < |s.visits| && s.visits[v].guard < |s.cells| && |s.phases| == |s.cells|
  }

  predicate WantsMutex(pc: Pc) {
    pc.Locking? || pc.LockingRelease? || pc.LockingAbort?
  }

  predicate IsOver(pc: Pc) {
    pc.ReturnedZero? || pc.Released? || pc.Aborted?
  }

  predicate IsInitialized(cell: Cell) {
    if cell.Bytes? then cell.initialized != 0 else cell.state == 2
  }

  predicate IsInProgress(cell: Cell) {
    if cell.Bytes? then cell.inProgress != 0 else cell.state == 1
  }

  predicate Enabled(s: State, step: Step) {
    match step
    case Begin(guard) => guard < |s.cells| && |s.phases| == |s.cells|
    case Take(v, _) =>
      && IsKnown(s, v) && !IsOver(s.visits[v].pc)
      && (WantsMutex(s.visits[v].pc) ==> KindOf(s.cells[s.visits[v].guard]) !in s.holders)
  }

  /** `once` decides on one read of its word and has no look at it before the mutex. */
  function PcNext(pc: Pc, cell: Cell, succeeds: bool): Pc {
    match pc
    case Looking => if IsInitialized(cell) then ReturnedZero else Locking
    case Locking => Checking
    case Checking =>
      if IsInitialized(cell) then LeavingDone
      else if cell.Word? then (if cell.state == 0 then Marking else LeavingWait)
      else CheckingProgress
    case CheckingProgress => if IsInProgress(cell) then LeavingWait else Marking
    case Marking => LeavingRun
    case LeavingDone => ReturnedZero
    case LeavingRun => Running
    case LeavingWait => Sleeping
    case Sleeping => Locking
    case Running => if succeeds then LockingRelease else LockingAbort
    case LockingRelease => if cell.Bytes? then Clearing else Setting
    case Clearing => Setting
    case Setting => LeavingRelease
    case LeavingRelease => Released
    case LockingAbort => Aborting
    case Aborting => LeavingAbort
    case LeavingAbort => Aborted
    case _ => pc
  }

  /** The store of a step. */
  function CellNext(pc: Pc, cell: Cell): Cell {
    match pc
    case Marking => if cell.Bytes? then cell.(inProgress := 1) else Word(1)
    case Clearing => if cell.Bytes? then cell.(inProgress := 0) else cell
    case Setting => if cell.Bytes? then cell.(initialized := 1) else Word(2)
    case Aborting => if cell.Bytes? then cell.(inProgress := 0) else Word(0)
    case _ => cell
  }

  predicate Leaves(pc: Pc) {
    pc.LeavingDone? || pc.LeavingRun? || pc.LeavingWait? || pc.LeavingRelease? || pc.LeavingAbort?
  }

  function HoldersNext(holders: map<Kind, nat>, pc: Pc, kind: Kind, v: nat): map<Kind, nat> {
    if WantsMutex(pc) then holders[kind := v] else if Leaves(pc) then holders - {kind} else holders
  }

  function PhaseNext(phase: Phase, pc: Pc, v: nat): Phase {
    match pc
    case Marking => Busy(v)
    case Setting => Done
    case Aborting => Fresh
    case _ => phase
  }

  function Next(s: State, step: Step): State
    requires Enabled(s, step)
  {
    match step
    case Begin(guard) =>
      s.(visits := s.visits + [Visit(guard, if s.cells[guard].Bytes? then Looking else Locking)])
    case Take(v, succeeds) =>
      var visit := s.visits[v];
      var g, pc, cell := visit.guard, visit.pc, s.cells[visit.guard];
      State(s.cells[g := CellNext(pc, cell)], s.visits[v := visit.(pc := PcNext(pc, cell, succeeds))],
            HoldersNext(s.holders, pc, KindOf(cell), v), s.phases[g := PhaseNext(s.phases[g], pc, v)])
  }

  ghost predicate IsRun(s: State, steps: seq<Step>, s': State)
    decreases |steps|
  {
    if steps == [] then s' == s else Enabled(s, steps[0]) && IsRun(Next(s, steps[0]), steps[1..], s')
  }

  // ----- What every run keeps -----

  predicate HoldsMutex(pc: Pc) {
    || pc.Checking? || pc.CheckingProgress? || pc.Marking? || pc.LeavingDone? || pc.LeavingRun? || pc.LeavingWait?
    || pc.Clearing? || pc.Setting? || pc.LeavingRelease? || pc.Aborting? || pc.LeavingAbort?
  }

  /** From the store that marks the guard until the store that frees or completes it. */
  predicate IsInside(pc: Pc) {
    || pc.LeavingRun? || pc.Running? || pc.LockingRelease? || pc.Clearing? || pc.Setting?
    || pc.LockingAbort? || pc.Aborting?
  }

  /** The pcs that only a guard's two bytes need. */
  predicate FitsKind(pc: Pc, kind: Kind) {
    kind == OnceControl ==> !pc.Looking? && !pc.CheckingProgress? && !pc.Clearing?
  }

  predicate CellOk(cell: Cell, phase: Phase, visits: seq<Visit>) {
    && (IsInitialized(cell) <==> phase.Done?)
    && (phase.Busy? ==> phase.visit < |visits|)
    && (cell.Bytes? ==> (IsInProgress(cell) <==> phase.Busy? && !visits[phase.visit].pc.Setting?))
    && (cell.Word? ==> (IsInProgress(cell) <==> phase.Busy?) && cell.state <= 2)
  }

  predicate VisitOk(visit: Visit, v: nat, phase: Phase) {
    && (IsInside(visit.pc) <==> phase == Busy(v))
    && (visit.pc.Marking? ==> phase == Fresh)
    && (visit.pc.CheckingProgress? ==> phase != Done)
    && (visit.pc.LeavingDone? || visit.pc.ReturnedZero? || visit.pc.LeavingRelease? || visit.pc.Released? ==>
          phase == Done)
  }

  /** The visit that completed the initialization. */
  predicate HasCompleted(pc: Pc) {
    pc.LeavingRelease? || pc.Released?
  }

  predicate HolderOk(s: State, v: nat)
    requires v < |s.visits| && s.visits[v].guard < |s.cells|
  {
    var kind := KindOf(s.cells[s.visits[v].guard]);
    HoldsMutex(s.visits[v].pc) <==> kind in s.holders && s.holders[kind] == v
  }

  ghost predicate VisitsOk(s: State) {
    && |s.phases| == |s.cells|
    && (forall v | 0 <= v < |s.visits| ::
          && s.visits[v].guard < |s.cells|
          && VisitOk(s.visits[v], v, s.phases[s.visits[v].guard])
          && FitsKind(s.visits[v].pc, KindOf(s.cells[s.visits[v].guard])))
  }

  ghost predicate HoldersOk(s: State) {
    && (forall v | 0 <= v < |s.visits| :: s.visits[v].guard < |s.cells| && HolderOk(s, v))
    && (forall kind | kind in s.holders ::
          s.holders[kind] < |s.visits| && s.visits[s.holders[kind]].guard < |s.cells| &&
          KindOf(s.cells[s.visits[s.holders[kind]].guard]) == kind)
  }

  ghost predicate CellsOk(s: State) {
    && |s.phases| == |s.cells|
    && (forall g | 0 <= g < |s.cells| ::
          && CellOk(s.cells[g], s.phases[g], s.visits)
          && (s.phases[g].Busy? ==> s.visits[s.phases[g].visit].guard == g))
  }

  /** Exactly one visit completes a guard. */
  ghost predicate CompletionsOk(s: State) {
    && |s.phases| == |s.cells|
    && (forall v, w | 0 <= v < w < |s.visits| && HasCompleted(s.visits[v].pc) && HasCompleted(s.visits[w].pc) ::
          s.visits[v].guard != s.visits[w].guard)
    && (forall g | 0 <= g < |s.cells| && s.phases[g].Done? :: IsCompleted(s, g))
  }

  ghost predicate IsCompleted(s: State, g: nat) {
    exists v | 0 <= v < |s.visits| :: s.visits[v].guard == g && HasCompleted(s.visits[v].pc)
  }

  ghost predicate Invariant(s: State) {
    VisitsOk(s) && HoldersOk(s) && CellsOk(s) && CompletionsOk(s)
  }

  lemma InitialOk(kinds: seq<Kind>)
    ensures Invariant(Initial(kinds))
  {}

  lemma BeginKeeps(s: State, guard: nat)
    requires Invariant(s) && Enabled(s, Begin(guard))
    ensures Invariant(Next(s, Begin(guard)))
  {
    var s' := Next(s, Begin(guard));
    assert forall v | 0 <= v < |s.visits| :: s'.visits[v] == s.visits[v];
    forall v | 0 <= v < |s'.visits| ensures s'.visits[v].guard < |s'.cells| && HolderOk(s', v) {
      assert v < |s.visits| ==> HolderOk(s, v);
    }
    forall g | 0 <= g < |s'.cells| && s'.phases[g].Done? ensures IsCompleted(s', g) {
      assert IsCompleted(s, g);
      var v :| 0 <= v < |s.visits| && s.visits[v].guard == g && HasCompleted(s.visits[v].pc);
      assert s'.visits[v] == s.visits[v];
    }
  }

  /** What a step does to its own visit and guard. */
  ghost predicate IsOwnStep(visit: Visit, next: Visit, v: nat, cell: Cell, cell': Cell, phase: Phase, phase': Phase) {
    && next.guard == visit.guard && KindOf(cell') == KindOf(cell)
    && VisitOk(next, v, phase') && FitsKind(next.pc, KindOf(cell))
    && (HoldsMutex(next.pc) <==> WantsMutex(visit.pc) || (HoldsMutex(visit.pc) && !Leaves(visit.pc)))
    && (Leaves(visit.pc) ==> HoldsMutex(visit.pc)) && !(WantsMutex(visit.pc) && HoldsMutex(visit.pc))
    && (HasCompleted(next.pc) <==> HasCompleted(visit.pc) || visit.pc.Setting?)
    && IsPhaseStep(phase, phase', v)
    && (phase' != phase ==> HoldsMutex(visit.pc))
    && (phase'.Done? && !phase.Done? <==> visit.pc.Setting?)
    && (IsInitialized(cell) ==> IsInitialized(cell'))
    && (IsInitialized(cell') <==> phase'.Done?)
    && IsProgressStep(visit.pc, next.pc, v, cell, cell', phase, phase')
  }

  /** The byte that marks an initialization in progress is set with the phase and cleared just before it. */
  predicate IsProgressStep(pc: Pc, next: Pc, v: nat, cell: Cell, cell': Cell, phase: Phase, phase': Phase) {
    && (cell'.Bytes? ==>
          && (IsInProgress(cell') <==> pc.Marking? || (IsInProgress(cell) && !pc.Clearing? && !pc.Aborting?))
          && (next.Setting? <==> pc.Clearing?) && (pc.Clearing? ==> phase' == Busy(v))
          && (pc.Aborting? ==> phase' == Fresh)
          && (pc.Marking? ==> phase' == Busy(v)) && (phase == Fresh && phase'.Busy? ==> pc.Marking?)
          && (phase.Busy? && phase' == Fresh ==> pc.Aborting?) && (pc.Setting? ==> phase == Busy(v)))
    && (cell'.Word? ==> (IsInProgress(cell') <==> phase'.Busy?) && cell'.state <= 2)
  }

  /** The steps of the machine that users think of: at most one visit is inside, it ends in Done or Fresh. */
  predicate IsPhaseStep(phase: Phase, phase': Phase, v: nat) {
    || phase' == phase
    || (phase == Fresh && phase' == Busy(v))
    || (phase == Busy(v) && (phase' == Done || phase' == Fresh))
  }

  lemma OwnStep(visit: Visit, v: nat, cell: Cell, phase: Phase, succeeds: bool)
    requires VisitOk(visit, v, phase) && FitsKind(visit.pc, KindOf(cell)) && !IsOver(visit.pc)
    requires IsInitialized(cell) <==> phase.Done?
    requires cell.Word? ==> (cell.state == 1 <==> phase.Busy?) && cell.state <= 2
    requires visit.pc.CheckingProgress? && cell.Bytes? ==> (IsInProgress(cell) <==> phase.Busy?)
    ensures IsOwnStep(visit, visit.(pc := PcNext(visit.pc, cell, succeeds)), v, cell, CellNext(visit.pc, cell),
                      phase, PhaseNext(phase, visit.pc, v))
  {}

  /** Two visits inside the mutex of one kind are the same. */
  lemma MutexExcludes(s: State, v: nat, w: nat)
    requires HoldersOk(s) && v < |s.visits| && w < |s.visits|
    requires HoldsMutex(s.visits[v].pc) && HoldsMutex(s.visits[w].pc)
    requires s.visits[v].guard < |s.cells| && s.visits[w].guard < |s.cells|
    requires KindOf(s.cells[s.visits[v].guard]) == KindOf(s.cells[s.visits[w].guard])
    ensures v == w
  {
    assert HolderOk(s, v) && HolderOk(s, w);
  }

  lemma OwnFacts(s: State, v: nat, succeeds: bool)
    requires Invariant(s) && Enabled(s, Take(v, succeeds))
    ensures var s', g := Next(s, Take(v, succeeds)), s.visits[v].guard;
            IsOwnStep(s.visits[v], s'.visits[v], v, s.cells[g], s'.cells[g], s.phases[g], s'.phases[g])
  {
    var visit := s.visits[v];
    var cell, phase := s.cells[visit.guard], s.phases[visit.guard];
    assert CellOk(cell, phase, s.visits);
    if visit.pc.CheckingProgress? && phase.Busy? && s.visits[phase.visit].pc.Setting? {
      MutexExcludes(s, v, phase.visit);
    }
    OwnStep(visit, v, cell, phase, succeeds);
  }

  /** Everything that a step leaves alone. */
  ghost predicate IsElsewhere(s: State, s': State, v: nat) {
    && v < |s.visits| && s.visits[v].guard < |s.cells|
    && |s'.visits| == |s.visits| && |s'.cells| == |s.cells| && |s'.phases| == |s.phases| == |s.cells|
    && (forall w | 0 <= w < |s.visits| && w != v :: s'.visits[w] == s.visits[w])
    && (forall g | 0 <= g < |s.cells| && g != s.visits[v].guard ::
          s'.cells[g] == s.cells[g] && s'.phases[g] == s.phases[g])
  }

  ghost predicate IsTake(s: State, s': State, v: nat) {
    && IsElsewhere(s, s', v)
    && var visit, g := s.visits[v], s.visits[v].guard;
    && IsOwnStep(visit, s'.visits[v], v, s.cells[g], s'.cells[g], s.phases[g], s'.phases[g])
    && (WantsMutex(visit.pc) ==> KindOf(s.cells[g]) !in s.holders)
    && s'.holders == HoldersNext(s.holders, visit.pc, KindOf(s.cells[g]), v)
  }

  lemma TakeKeepsHolders(s: State, s': State, v: nat)
    requires HoldersOk(s) && IsTake(s, s', v)
    ensures HoldersOk(s')
  {
    var pc, kind := s.visits[v].pc, KindOf(s.cells[s.visits[v].guard]);
    assert HolderOk(s, v);
    assert forall g | 0 <= g < |s.cells| :: KindOf(s'.cells[g]) == KindOf(s.cells[g]);
    assert WantsMutex(pc) ==> kind !in s.holders && s'.holders == s.holders[kind := v];
    assert Leaves(pc) ==> kind in s.holders && s.holders[kind] == v && s'.holders == s.holders - {kind};
    assert !WantsMutex(pc) && !Leaves(pc) ==> s'.holders == s.holders;
    assert HoldsMutex(s'.visits[v].pc) <==> WantsMutex(pc) || (HoldsMutex(pc) && !Leaves(pc));
    hide IsTake, IsOwnStep, VisitOk, HoldersNext, WantsMutex, Leaves, HoldsMutex, KindOf;
    forall w | 0 <= w < |s'.visits| ensures s'.visits[w].guard < |s'.cells| && HolderOk(s', w) {
      assert HolderOk(s, w);
    }
  }

  lemma TakeKeepsVisits(s: State, s': State, v: nat)
    requires Invariant(s) && IsTake(s, s', v)
    ensures VisitsOk(s')
  {
    hide CellsOk, CompletionsOk, FitsKind, HoldersOk, HoldersNext;
    forall w | 0 <= w < |s'.visits|
      ensures s'.visits[w].guard < |s'.cells| && VisitOk(s'.visits[w], w, s'.phases[s'.visits[w].guard])
    {
      assert VisitOk(s.visits[w], w, s.phases[s.visits[w].guard]);
      if w != v && s.visits[w].guard == s.visits[v].guard && HoldsMutex(s.visits[v].pc) && HoldsMutex(s.visits[w].pc) {
        MutexExcludes(s, v, w);
      }
    }
  }

  lemma TakeKeepsCompletions(s: State, s': State, v: nat)
    requires CompletionsOk(s) && VisitsOk(s) && IsTake(s, s', v)
    ensures CompletionsOk(s')
  {
    hide FitsKind, HoldersNext;
    forall g | 0 <= g < |s'.cells| && s'.phases[g].Done? ensures IsCompleted(s', g) {
      if s.phases[g].Done? {
        assert IsCompleted(s, g);
        var w :| 0 <= w < |s.visits| && s.visits[w].guard == g && HasCompleted(s.visits[w].pc);
        assert s'.visits[w].guard == g && HasCompleted(s'.visits[w].pc);
      } else {
        assert s'.visits[v].guard == g && HasCompleted(s'.visits[v].pc);
      }
    }
    forall w | 0 <= w < |s.visits| && w != v && s.visits[w].guard == s.visits[v].guard && HasCompleted(s'.visits[v].pc)
      ensures !HasCompleted(s.visits[w].pc)
    {
      assert VisitOk(s.visits[w], w, s.phases[s.visits[w].guard]);
      assert VisitOk(s.visits[v], v, s.phases[s.visits[v].guard]);
    }
  }

  lemma TakeKeepsCells(s: State, s': State, v: nat)
    requires Invariant(s) && IsTake(s, s', v)
    ensures CellsOk(s')
  {
    hide CompletionsOk, FitsKind, HoldersOk, HoldersNext, HoldsMutex, HasCompleted, VisitOk;
    forall g | 0 <= g < |s'.cells|
      ensures CellOk(s'.cells[g], s'.phases[g], s'.visits)
      ensures s'.phases[g].Busy? ==> s'.visits[s'.phases[g].visit].guard == g
    {
      assert CellOk(s.cells[g], s.phases[g], s.visits);
    }
  }

  lemma StepKeeps(s: State, step: Step)
    requires Invariant(s) && Enabled(s, step)
    ensures Invariant(Next(s, step))
  {
    match step {
      case Begin(guard) => BeginKeeps(s, guard);
      case Take(v, succeeds) =>
        OwnFacts(s, v, succeeds);
        var s' := Next(s, step);
        hide Invariant, IsOwnStep, PcNext, CellNext, PhaseNext;
        assert IsTake(s, s', v);
        hide IsTake;
        InvariantParts(s);
        TakeKeepsVisits(s, s', v);
        TakeKeepsHolders(s, s', v);
        TakeKeepsCells(s, s', v);
        TakeKeepsCompletions(s, s', v);
        PartsInvariant(s');
    }
  }

  lemma InvariantParts(s: State)
    requires Invariant(s)
    ensures VisitsOk(s) && HoldersOk(s) && CellsOk(s) && CompletionsOk(s)
  {}

  lemma PartsInvariant(s: State)
    requires VisitsOk(s) && HoldersOk(s) && CellsOk(s) && CompletionsOk(s)
    ensures Invariant(s)
  {}

  lemma {:induction false} RunKeeps(s: State, steps: seq<Step>, s': State)
    requires Invariant(s) && IsRun(s, steps, s')
    ensures Invariant(s')
    decreases |steps|
  {
    if steps != [] {
      StepKeeps(s, steps[0]);
      RunKeeps(Next(s, steps[0]), steps[1..], s');
    }
  }

  // ----- What every run promises -----

  lemma {:induction false} RunKeepsForms(s: State, steps: seq<Step>, s': State)
    requires IsRun(s, steps, s')
    ensures |s'.cells| == |s.cells| && |s'.phases| == |s.phases|
    ensures forall g | 0 <= g < |s.cells| :: s'.cells[g].Bytes? <==> s.cells[g].Bytes?
    decreases |steps|
  {
    if steps != [] {
      StepKeepsForms(s, steps[0]);
      hide Next, Enabled;
      RunKeepsForms(Next(s, steps[0]), steps[1..], s');
    }
  }

  lemma StepKeepsForms(s: State, step: Step)
    requires Enabled(s, step)
    ensures |Next(s, step).cells| == |s.cells| && |Next(s, step).phases| == |s.phases|
    ensures forall g | 0 <= g < |s.cells| :: Next(s, step).cells[g].Bytes? <==> s.cells[g].Bytes?
  {
    hide PcNext, HoldersNext, PhaseNext;
  }

  /** A guard has its two bytes, a once control its word, all zero at first, and each can be visited at any time. */
  lemma GuardsStay(kinds: seq<Kind>, steps: seq<Step>, s: State)
    requires IsRun(Initial(kinds), steps, s)
    ensures |s.cells| == |kinds| && forall g | 0 <= g < |kinds| :: Enabled(s, Begin(g))
    ensures forall g | 0 <= g < |kinds| :: s.cells[g].Bytes? <==> kinds[g] == GuardObject
    ensures forall g | 0 <= g < |kinds| && steps == [] :: s.cells[g] == Bytes(0, 0) || s.cells[g] == Word(0)
  {
    RunKeepsForms(Initial(kinds), steps, s);
  }

  /** Every step of every run is a step of the simple machine for the guard of the visit, and leaves the others
      alone: Fresh to Busy by the visit that will run the initializer, and from there by the same visit to
      Done or back to Fresh. The byte that says `initialized` never reverts. */
  lemma StepsRefinePhases(kinds: seq<Kind>, steps: seq<Step>, s: State, step: Step, g: nat)
    requires IsRun(Initial(kinds), steps, s) && Enabled(s, step) && g < |s.cells|
    ensures g < |Next(s, step).phases| && g < |s.phases|
    ensures Next(s, step).phases[g] == s.phases[g] || (step.Take? && g == s.visits[step.visit].guard)
    ensures step.Take? ==> IsPhaseStep(s.phases[g], Next(s, step).phases[g], step.visit)
    ensures IsInitialized(s.cells[g]) ==> IsInitialized(Next(s, step).cells[g])
  {
    InitialOk(kinds);
    RunKeeps(Initial(kinds), steps, s);
    if step.Take? {
      OwnFacts(s, step.visit, step.succeeds);
    }
  }

  /** At most one initializer of a guard is in progress, its visit alone is Busy, no visit returns 0 before
      another one has completed, and only one ever completes. */
  lemma OneInitializer(kinds: seq<Kind>, steps: seq<Step>, s: State, v: nat, w: nat)
    requires IsRun(Initial(kinds), steps, s) && v < |s.visits| && w < |s.visits|
    requires s.visits[v].guard == s.visits[w].guard
    ensures IsInside(s.visits[v].pc) && IsInside(s.visits[w].pc) ==> v == w
    ensures HasCompleted(s.visits[v].pc) && HasCompleted(s.visits[w].pc) ==> v == w
    ensures HasCompleted(s.visits[v].pc) ==> !IsInside(s.visits[w].pc)
    ensures s.visits[v].pc.ReturnedZero? ==> IsCompleted(s, s.visits[v].guard)
  {
    InitialOk(kinds);
    RunKeeps(Initial(kinds), steps, s);
    assert VisitOk(s.visits[v], v, s.phases[s.visits[v].guard]) && VisitOk(s.visits[w], w, s.phases[s.visits[w].guard]);
  }

  /** The mutex excludes, and nobody holds it while an initializer runs or while waiting for one. */
  lemma UserCodeRunsUnlocked(kinds: seq<Kind>, steps: seq<Step>, s: State, kind: Kind)
    requires IsRun(Initial(kinds), steps, s) && kind in s.holders
    ensures s.holders[kind] < |s.visits|
    ensures var pc := s.visits[s.holders[kind]].pc; !pc.Running? && !pc.Sleeping? && !IsOver(pc) && !WantsMutex(pc)
  {
    InitialOk(kinds);
    RunKeeps(Initial(kinds), steps, s);
    assert HolderOk(s, s.holders[kind]);
  }

  /** A mutex that is held is released by its holder's own steps, at most four of them. */
  function StepsToLeave(pc: Pc): nat {
    match pc
    case Checking => 4
    case CheckingProgress => 3
    case Marking => 2
    case Clearing => 3
    case Setting => 2
    case Aborting => 2
    case _ => 1
  }

  lemma HolderLeaves(kinds: seq<Kind>, steps: seq<Step>, s: State, kind: Kind, succeeds: bool)
    requires IsRun(Initial(kinds), steps, s) && kind in s.holders
    ensures s.holders[kind] < |s.visits| && Enabled(s, Take(s.holders[kind], succeeds))
    ensures var v, s' := s.holders[kind], Next(s, Take(s.holders[kind], succeeds));
            kind !in s'.holders ||
              (s'.holders[kind] == v && StepsToLeave(s'.visits[v].pc) < StepsToLeave(s.visits[v].pc))
  {
    InitialOk(kinds);
    RunKeeps(Initial(kinds), steps, s);
    hide IsRun, CellsOk, CompletionsOk;
    var v := s.holders[kind];
    assert HolderOk(s, v);
  }

  /** An abort lets another take over: on a fresh guard any visit that gets the mutex runs the initializer. */
  lemma FreshGuardIsTaken(kinds: seq<Kind>, steps: seq<Step>, s: State, v: nat) returns (more: seq<Step>, s': State)
    requires IsRun(Initial(kinds), steps, s) && v < |s.visits| && s.visits[v].pc.Locking?
    requires s.visits[v].guard < |s.phases| && s.phases[s.visits[v].guard] == Fresh
    requires s.visits[v].guard < |s.cells| && KindOf(s.cells[s.visits[v].guard]) !in s.holders
    ensures IsRun(s, more, s') && forall i | 0 <= i < |more| :: more[i] == Take(v, true)
    ensures v < |s'.visits| && s'.visits[v] == Visit(s.visits[v].guard, Running)
  {
    InitialOk(kinds);
    RunKeeps(Initial(kinds), steps, s);
    assert CellOk(s.cells[s.visits[v].guard], Fresh, s.visits);
    more, s' := RunToInitializer(s, v);
  }

  lemma {:induction false} RunToInitializer(s: State, v: nat) returns (more: seq<Step>, s': State)
    requires IsKnown(s, v) && !IsInitialized(s.cells[s.visits[v].guard])
    requires var pc := s.visits[v].pc;
             || pc.LeavingRun? || pc.Running? || pc.Marking?
             || (!IsInProgress(s.cells[s.visits[v].guard]) &&
                 (pc.Checking? || (pc.CheckingProgress? && s.cells[s.visits[v].guard].Bytes?)))
             || (!IsInProgress(s.cells[s.visits[v].guard]) && pc.Locking? &&
                 KindOf(s.cells[s.visits[v].guard]) !in s.holders)
    requires s.cells[s.visits[v].guard].Word? ==> s.cells[s.visits[v].guard].state <= 2
    ensures IsRun(s, more, s') && forall i | 0 <= i < |more| :: more[i] == Take(v, true)
    ensures v < |s'.visits| && s'.visits[v] == Visit(s.visits[v].guard, Running)
    decreases if s.visits[v].pc.Locking? then 5 else if s.visits[v].pc.Running? then 0 else StepsToLeave(s.visits[v].pc)
  {
    if s.visits[v].pc.Running? {
      more, s' := [], s;
    } else {
      var next := Next(s, Take(v, true));
      if s.visits[v].pc.Marking? {
        var last := Next(next, Take(v, true));
        more, s' := [Take(v, true), Take(v, true)], last;
        assert more[1..][1..] == [] && IsRun(last, [], last);
      } else {
        more, s' := RunToInitializer(next, v);
        more := [Take(v, true)] + more;
      }
    }
  }

  // ----- The life of a visit -----

  /** What a visit does that others can notice. */
  datatype Deed = GotMutex | Slept | Ran(succeeded: bool)

  function DeedOf(s: State, step: Step, v: nat): seq<Deed>
    requires Enabled(s, step)
  {
    if !step.Take? || step.visit != v then [] else
      match s.visits[v].pc
      case Locking => [GotMutex]
      case LockingRelease => [GotMutex]
      case LockingAbort => [GotMutex]
      case Sleeping => [Slept]
      case Running => [Ran(step.succeeds)]
      case _ => []
  }

  ghost function Deeds(s: State, steps: seq<Step>, s': State, v: nat): seq<Deed>
    requires IsRun(s, steps, s')
    decreases |steps|
  {
    if steps == [] then [] else DeedOf(s, steps[0], v) + Deeds(Next(s, steps[0]), steps[1..], s', v)
  }

  /** Finding another visit inside, and sleeping for a tick. */
  function Rounds(n: nat): seq<Deed> {
    if n == 0 then [] else Rounds(n - 1) + [GotMutex, Slept]
  }

  /** What a visit has done since its last sleep, by the place where it is. */
  function SinceSleep(pc: Pc): seq<Deed> {
    match pc
    case Looking => []
    case Locking => []
    case LockingRelease => [GotMutex, Ran(true)]
    case Clearing => [GotMutex, Ran(true), GotMutex]
    case Setting => [GotMutex, Ran(true), GotMutex]
    case LeavingRelease => [GotMutex, Ran(true), GotMutex]
    case Released => [GotMutex, Ran(true), GotMutex]
    case LockingAbort => [GotMutex, Ran(false)]
    case Aborting => [GotMutex, Ran(false), GotMutex]
    case LeavingAbort => [GotMutex, Ran(false), GotMutex]
    case Aborted => [GotMutex, Ran(false), GotMutex]
    case _ => [GotMutex]
  }

  ghost predicate IsLife(past: seq<Deed>, n: nat, pc: Pc) {
    past == Rounds(n) + SinceSleep(pc) || (pc.ReturnedZero? && past == Rounds(n))
  }

  ghost predicate HasLived(past: seq<Deed>, s: State, v: nat) {
    if v < |s.visits| then exists n :: IsLife(past, n, s.visits[v].pc) else past == []
  }

  lemma StepLives(past: seq<Deed>, s: State, step: Step, v: nat)
    requires Enabled(s, step) && HasLived(past, s, v)
    ensures HasLived(past + DeedOf(s, step, v), Next(s, step), v)
  {
    assert past + [] == past;
    if step.Begin? {
      if v == |s.visits| {
        assert Rounds(0) + [] == [] && IsLife(past, 0, Next(s, step).visits[v].pc);
      } else if v < |s.visits| {
        assert Next(s, step).visits[v] == s.visits[v];
      }
    } else if v < |s.visits| {
      var n :| IsLife(past, n, s.visits[v].pc);
      if step.visit == v {
        DeedGoesOn(past, n, s.visits[v].pc, s.cells[s.visits[v].guard], step.succeeds);
      }
      assert Next(s, step).visits[v].pc == if step.visit != v then s.visits[v].pc else
               PcNext(s.visits[v].pc, s.cells[s.visits[v].guard], step.succeeds);
    }
  }

  lemma DeedGoesOn(past: seq<Deed>, n: nat, pc: Pc, cell: Cell, succeeds: bool)
    requires IsLife(past, n, pc) && !IsOver(pc)
    ensures var deeds := match pc
              case Locking => [GotMutex]
              case LockingRelease => [GotMutex]
              case LockingAbort => [GotMutex]
              case Sleeping => [Slept]
              case Running => [Ran(succeeds)]
              case _ => [];
            IsLife(past + deeds, if pc.Sleeping? then n + 1 else n, PcNext(pc, cell, succeeds))
  {
    if pc.Sleeping? {
      assert Rounds(n) + [GotMutex] + [Slept] == Rounds(n + 1) + [];
    }
  }

  lemma {:induction false} RunLives(past: seq<Deed>, s: State, steps: seq<Step>, s': State, v: nat)
    requires IsRun(s, steps, s') && HasLived(past, s, v)
    ensures HasLived(past + Deeds(s, steps, s', v), s', v)
    decreases |steps|
  {
    hide HasLived, DeedOf, Enabled, Next;
    if steps == [] {
      assert past + [] == past;
    } else {
      StepLives(past, s, steps[0], v);
      var deed, rest := DeedOf(s, steps[0], v), Deeds(Next(s, steps[0]), steps[1..], s', v);
      RunLives(past + deed, Next(s, steps[0]), steps[1..], s', v);
      assert past + deed + rest == past + (deed + rest);
    }
  }

  /** A visit that has released its guard has run the initializer once and to its end; one that has aborted has
      run it once and it failed; one that returned 0 has not run it. Before that it got the mutex and slept, as
      often as it found another visit inside, and every other time it gets the mutex is for these ends. */
  lemma LifeOfVisit(kinds: seq<Kind>, steps: seq<Step>, s: State, v: nat)
    requires IsRun(Initial(kinds), steps, s) && v < |s.visits|
    ensures var deeds, pc := Deeds(Initial(kinds), steps, s, v), s.visits[v].pc;
            && (pc.Released? ==> exists n :: deeds == Rounds(n) + [GotMutex, Ran(true), GotMutex])
            && (pc.Aborted? ==> exists n :: deeds == Rounds(n) + [GotMutex, Ran(false), GotMutex])
            && (pc.ReturnedZero? ==> exists n :: deeds == Rounds(n) || deeds == Rounds(n) + [GotMutex])
  {
    hide IsRun, Deeds;
    var deeds := Deeds(Initial(kinds), steps, s, v);
    RunLives([], Initial(kinds), steps, s, v);
    assert [] + deeds == deeds;
    var n :| IsLife(deeds, n, s.visits[v].pc);
  }
}

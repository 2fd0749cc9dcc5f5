/** Creating, joining, detaching and reclaiming threads.

    Workers, the owners of the thread handles and the single reaper take their steps in any order.
    One step is one kernel call or one block between two of them; a step that would block is not enabled. */
module ThreadLifecycle {
  import opened Errors
  import opened Lists
  import opened ThreadRegistry

  const QUEUE_DEPTH := 16

  /** A thread control, numbered in the order of creation. */
  type Tid = nat

  /** Who runs a join or detach: a thread of this runtime, or some other one. */
  datatype Agent = Outside(n: nat) | Worker(tid: Tid)

  /** A cleanup message carries an id. `about` is bookkeeping that no step reads. */
  datatype Message = Message(id: nat, about: Tid)

  /** `thread_entry`. */
  datatype WorkerPc =
    | Finding | Entry | Callbacks | Locking | Marking | Unlocking(enqueue: bool) | Posting(enqueue: bool)
    | Reading | Sending(message: Message) | Returning | Completed | Lost

  /** `thread_join` and `thread_detach`. */
  datatype CallerPc =
    | Unclaimed
    | JoinWaiting | JoinCreating | JoinLocking | JoinMarking | JoinUnlocking | JoinReading
    | JoinSending(message: Message) | JoinAwaiting | Joined
    | DetachLocking | DetachMarking | DetachUnlocking(enqueue: bool) | DetachReading
    | DetachSending(message: Message) | Detached
    | Refusing(join: bool) | Refused

  /** `reaper_entry`. */
  datatype ReaperPc =
    | Receiving | Looking(message: Message) | Polling(tid: Tid) | Deleting(tid: Tid)
    | Unregistering(tid: Tid, ack: bool) | Freeing(tid: Tid, ack: bool) | FreeingStack(tid: Tid, ack: bool)
    | Acking(tid: Tid, ack: bool) | Fatal

  datatype Holder = NoOne | TheWorker | TheCaller

  /** What is left of a control: kernel objects, registry entry, record, stack. */
  datatype Memory = Live | Deleted | Unregistered | Freed | Reclaimed

  /** Where the cleanup message is: bookkeeping that no step reads. */
  datatype Place = Unsent | InQueue | AtReaper | Handled

  /** `sends`, `frees` and `place` are bookkeeping; `acks` counts the semaphore of the joiner. */
  datatype Control = Control(
    id: nat, worker: WorkerPc, caller: CallerPc, agent: Agent,
    lock: Holder, completion: nat, detached: bool, finished: bool, queued: bool, ack: bool, acks: nat,
    memory: Memory, place: Place, sends: nat, frees: nat)

  datatype State = State(controls: seq<Control>, registry: seq<Tid>, nextId: nat, queue: seq<Message>, reaper: ReaperPc)

  datatype Step =
    | Create
    | Claim(tid: Tid, agent: Agent, join: bool)
    | WorkerStep(tid: Tid)
    | CallerStep(tid: Tid)
    | ReaperStep

  function Initial(): State {
    State([], [], 1, [], Receiving)
  }

  // ----- The steps -----

  function NewControl(id: nat): Control {
    Control(id, Finding, Unclaimed, Outside(0), NoOne, 0, false, false, false, false, 0, Live, Unsent, 0, 0)
  }

  predicate IsActive(pc: CallerPc) {
    !pc.Unclaimed? && !pc.Joined? && !pc.Detached? && !pc.Refused?
  }

  /** User code may call back into the runtime only while it runs. */
  predicate InUserCode(pc: WorkerPc) {
    pc.Entry? || pc.Callbacks?
  }

  predicate IsHosted(c: Control, agent: Agent) {
    IsActive(c.caller) && c.agent == agent
  }

  predicate IsBusy(s: State, agent: Agent) {
    exists t | 0 <= t < |s.controls| :: IsHosted(s.controls[t], agent)
  }

  function IdOf(s: State, t: Tid): nat {
    if t < |s.controls| then s.controls[t].id else 0
  }

  /** The first control of the registry with the id. */
  function Lookup(s: State, id: nat): (found: Option<Tid>)
  {
    match FirstIndex(seq(|s.registry|, i requires 0 <= i < |s.registry| => IdOf(s, s.registry[i])), id)
    case None => None
    case Some(i) => Some(s.registry[i])
  }

  predicate WorkerEnabled(s: State, t: Tid)
    requires t < |s.controls|
  {
    var c := s.controls[t];
    match c.worker
    case Entry => !IsBusy(s, Worker(t))
    case Callbacks => !IsBusy(s, Worker(t))
    case Locking => c.lock == NoOne
    case Sending(_) => |s.queue| < QUEUE_DEPTH
    case Completed => false
    case Lost => false
    case _ => true
  }

  /** The effect of a worker's step on its own control; `found` is what the registry gave for its id. */
  function WorkerControl(c: Control, t: Tid, found: Option<Tid>): Control {
    match c.worker
    case Finding => c.(worker := if found == Some(t) then Entry else Lost)
    case Entry => c.(worker := Callbacks)
    case Callbacks => c.(worker := Locking)
    case Locking => c.(worker := Marking, lock := TheWorker)
    case Marking =>
      var enqueue := c.detached && !c.queued;
      c.(worker := Unlocking(enqueue), finished := true, queued := c.queued || enqueue)
    case Unlocking(enqueue) => c.(worker := Posting(enqueue), lock := NoOne)
    case Posting(enqueue) => c.(worker := if enqueue then Reading else Returning, completion := c.completion + 1)
    case Reading => c.(worker := Sending(Message(c.id, t)))
    case Sending(_) => c.(worker := Returning, place := InQueue, sends := c.sends + 1)
    case Returning => c.(worker := Completed)
    case Completed => c
    case Lost => c
  }

  predicate CallerEnabled(s: State, t: Tid)
    requires t < |s.controls|
  {
    var c := s.controls[t];
    match c.caller
    case JoinWaiting => c.completion > 0
    case JoinLocking => c.lock == NoOne
    case DetachLocking => c.lock == NoOne
    case JoinSending(_) => |s.queue| < QUEUE_DEPTH
    case DetachSending(_) => |s.queue| < QUEUE_DEPTH
    case JoinAwaiting => c.acks > 0
    case pc => IsActive(pc)
  }

  function CallerControl(c: Control, t: Tid): Control {
    match c.caller
    case JoinWaiting => if c.completion == 0 then c else c.(caller := JoinCreating, completion := c.completion - 1)
    case JoinCreating => c.(caller := JoinLocking)
    case JoinLocking => c.(caller := JoinMarking, lock := TheCaller)
    case JoinMarking =>
      if c.detached || c.queued then c.(caller := Refusing(true))
      else c.(caller := JoinUnlocking, ack := true, queued := true)
    case JoinUnlocking => c.(caller := JoinReading, lock := NoOne)
    case JoinReading => c.(caller := JoinSending(Message(c.id, t)))
    case JoinSending(_) => c.(caller := JoinAwaiting, place := InQueue, sends := c.sends + 1)
    case JoinAwaiting => if c.acks == 0 then c else c.(caller := Joined, acks := c.acks - 1)
    case DetachLocking => c.(caller := DetachMarking, lock := TheCaller)
    case DetachMarking =>
      if c.detached || c.queued then c.(caller := Refusing(false))
      else c.(caller := DetachUnlocking(c.finished), detached := true, queued := c.finished)
    case DetachUnlocking(enqueue) => c.(caller := if enqueue then DetachReading else Detached, lock := NoOne)
    case DetachReading => c.(caller := DetachSending(Message(c.id, t)))
    case DetachSending(_) => c.(caller := Detached, place := InQueue, sends := c.sends + 1)
    case Refusing(_) => c.(caller := Refused, lock := NoOne)
    case _ => c
  }

  /** The message that a step of the worker or the caller puts into the queue. */
  function WorkerSends(c: Control): seq<Message> {
    if c.worker.Sending? then [c.worker.message] else []
  }

  function CallerSends(c: Control): seq<Message> {
    if c.caller.JoinSending? || c.caller.DetachSending? then [c.caller.message] else []
  }

  predicate ReaperEnabled(s: State) {
    match s.reaper
    case Receiving => s.queue != []
    case Polling(t) => t < |s.controls| && s.controls[t].worker.Completed?
    case Fatal => false
    case _ => true
  }

  function Update(s: State, t: Tid, c: Control): State
    requires t < |s.controls|
  {
    s.(controls := s.controls[t := c])
  }

  ghost predicate KnowsItsThreads(s: State) {
    && (forall t | t in s.registry :: t < |s.controls|)
    && (forall m | m in s.queue :: m.about < |s.controls|)
    && match s.reaper
       case Receiving => true
       case Looking(m) => m.about < |s.controls|
       case Polling(t) => t < |s.controls|
       case Deleting(t) => t < |s.controls|
       case Unregistering(t, _) => t < |s.controls|
       case Freeing(t, _) => t < |s.controls|
       case FreeingStack(t, _) => t < |s.controls|
       case Acking(t, _) => t < |s.controls|
       case Fatal => true
  }

  function ReaperNext(s: State): State
    requires KnowsItsThreads(s) && ReaperEnabled(s)
  {
    match s.reaper
    case Receiving =>
      var m := s.queue[0];
      Update(s, m.about, s.controls[m.about].(place := AtReaper)).(queue := s.queue[1..], reaper := Looking(m))
    case Looking(m) =>
      (match Lookup(s, m.id) case None => s.(reaper := Fatal) case Some(t) => s.(reaper := Polling(t)))
    case Polling(t) => s.(reaper := Deleting(t))
    case Deleting(t) =>
      var c := s.controls[t];
      if c.worker.Completed? && c.lock == NoOne
      then Update(s, t, c.(memory := Deleted)).(reaper := Unregistering(t, c.ack))
      else s.(reaper := Fatal)
    case Unregistering(t, ack) =>
      Update(s, t, s.controls[t].(memory := Unregistered))
      .(registry := Without(s.registry, t), reaper := Freeing(t, ack))
    case Freeing(t, ack) =>
      var c := s.controls[t];
      Update(s, t, c.(memory := Freed, frees := c.frees + 1)).(reaper := FreeingStack(t, ack))
    case FreeingStack(t, ack) => Update(s, t, s.controls[t].(memory := Reclaimed)).(reaper := Acking(t, ack))
    case Acking(t, ack) =>
      var c := s.controls[t];
      Update(s, t, c.(place := Handled, acks := if ack then c.acks + 1 else c.acks)).(reaper := Receiving)
  }

  /** Ids come back only after a full round; a new one must not name a control that is still registered. */
  predicate IdIsFree(s: State)
    requires forall t | t in s.registry :: t < |s.controls|
  {
    && 1 <= s.nextId < ID_MODULUS
    && forall t | t in s.registry :: s.controls[t].id != s.nextId
  }

  /** A handle has one owner, who joins or detaches it once; a thread does one thing at a time, and
      what its user code calls runs while that code runs. A join of itself is refused before it starts. */
  predicate MayClaim(s: State, t: Tid, agent: Agent, join: bool) {
    && t < |s.controls| && s.controls[t].caller.Unclaimed?
    && !IsBusy(s, agent)
    && match agent
       case Outside(_) => true
       case Worker(u) => u < |s.controls| && InUserCode(s.controls[u].worker) && !(join && u == t)
  }

  ghost predicate Enabled(s: State, step: Step) {
    KnowsItsThreads(s) &&
    match step
    case Create => IdIsFree(s)
    case Claim(t, agent, join) => MayClaim(s, t, agent, join)
    case WorkerStep(t) => t < |s.controls| && WorkerEnabled(s, t)
    case CallerStep(t) => t < |s.controls| && CallerEnabled(s, t)
    case ReaperStep => ReaperEnabled(s)
  }

  function Next(s: State, step: Step): State
    requires Enabled(s, step)
  {
    match step
    case Create =>
      s.(controls := s.controls + [NewControl(s.nextId)], registry := [|s.controls|] + s.registry,
         nextId := NextId(s.nextId))
    case Claim(t, agent, join) =>
      Update(s, t, s.controls[t].(agent := agent, caller := if join then JoinWaiting else DetachLocking))
    case WorkerStep(t) =>
      var c := s.controls[t];
      Update(s, t, WorkerControl(c, t, if c.worker.Finding? then Lookup(s, c.id) else None))
      .(queue := s.queue + WorkerSends(c))
    case CallerStep(t) =>
      var c := s.controls[t];
      Update(s, t, CallerControl(c, t)).(queue := s.queue + CallerSends(c))
    case ReaperStep => ReaperNext(s)
  }

  // ----- What every run keeps -----

  predicate IsMarked(pc: WorkerPc) {
    pc.Unlocking? || pc.Posting? || HasPosted(pc)
  }

  predicate HasPosted(pc: WorkerPc) {
    pc.Reading? || pc.Sending? || pc.Returning? || pc.Completed?
  }

  predicate WorkerWillSend(pc: WorkerPc) {
    (pc.Unlocking? && pc.enqueue) || (pc.Posting? && pc.enqueue) || pc.Reading? || pc.Sending?
  }

  /** Nothing that could block is left for the worker to do. */
  predicate IsUnblockable(pc: WorkerPc) {
    (pc.Posting? && !pc.enqueue) || pc.Returning? || pc.Completed?
  }

  predicate CallerWillSend(pc: CallerPc) {
    || pc.JoinUnlocking? || pc.JoinReading? || pc.JoinSending?
    || (pc.DetachUnlocking? && pc.enqueue) || pc.DetachReading? || pc.DetachSending?
  }

  predicate HasDetached(pc: CallerPc) {
    pc.DetachUnlocking? || pc.DetachReading? || pc.DetachSending? || pc.Detached?
  }

  predicate HasJoinMarked(pc: CallerPc) {
    pc.JoinUnlocking? || pc.JoinReading? || pc.JoinSending? || pc.JoinAwaiting? || pc.Joined?
  }

  predicate HasTakenCompletion(pc: CallerPc) {
    pc.JoinCreating? || pc.JoinLocking? || pc.JoinMarking? || HasJoinMarked(pc)
  }

  predicate FlagsOk(c: Control) {
    && !c.worker.Lost? && !c.caller.Refusing? && !c.caller.Refused?
    && c.finished == IsMarked(c.worker)
    && c.detached == HasDetached(c.caller)
    && c.ack == HasJoinMarked(c.caller)
    && (c.lock == TheWorker <==> c.worker.Marking? || c.worker.Unlocking?)
    && (c.lock == TheCaller <==>
        c.caller.JoinMarking? || c.caller.JoinUnlocking? || c.caller.DetachMarking? || c.caller.DetachUnlocking?)
    && (HasTakenCompletion(c.caller) ==> HasPosted(c.worker))
    && c.completion == (if HasPosted(c.worker) && !HasTakenCompletion(c.caller) then 1 else 0)
  }

  /** Exactly one party sends the message, after the flags were set under the lock. */
  predicate SendingOk(c: Control, t: Tid) {
    && c.queued == (WorkerWillSend(c.worker) || CallerWillSend(c.caller) || c.place != Unsent)
    && !(WorkerWillSend(c.worker) && CallerWillSend(c.caller))
    && (c.place != Unsent ==> !WorkerWillSend(c.worker) && !CallerWillSend(c.caller))
    && (WorkerWillSend(c.worker) ==> c.caller.Detached?)
    && (CallerWillSend(c.caller) || c.place != Unsent ==> IsUnblockable(c.worker))
    && (c.place != Unsent ==> c.caller.JoinAwaiting? || c.caller.Joined? || c.caller.Detached?)
    && (c.caller.JoinAwaiting? ==> c.place != Unsent)
    && (c.caller.Joined? ==> c.place == Handled)
    && (c.caller.DetachUnlocking? && !c.caller.enqueue ==> !c.finished)
    && (c.caller.Detached? && c.finished ==> c.queued)
    && (c.worker.Sending? ==> c.worker.message == Message(c.id, t))
    && (c.caller.JoinSending? || c.caller.DetachSending? ==> c.caller.message == Message(c.id, t))
    && c.sends == (if c.place == Unsent then 0 else 1)
  }

  predicate MemoryOk(c: Control) {
    && (c.place == Unsent || c.place == InQueue ==> c.memory == Live)
    && (c.place == Handled ==> c.memory == Reclaimed)
    && (c.memory != Live ==> c.worker.Completed?)
    && c.frees == (if c.memory == Freed || c.memory == Reclaimed then 1 else 0)
    && c.acks == (if c.place == Handled && c.caller.JoinAwaiting? then 1 else 0)
  }

  predicate ControlOk(c: Control, t: Tid) {
    FlagsOk(c) && SendingOk(c, t) && MemoryOk(c)
  }

  ghost predicate ControlsOk(s: State) {
    forall t | 0 <= t < |s.controls| :: ControlOk(s.controls[t], t)
  }

  predicate IsRegistered(c: Control) {
    c.memory == Live || c.memory == Deleted
  }

  ghost predicate RegistryOk(s: State) {
    && 1 <= s.nextId < ID_MODULUS
    && IsDistinct(s.registry)
    && (forall t | t in s.registry :: t < |s.controls|)
    && (forall t | 0 <= t < |s.controls| :: t in s.registry <==> IsRegistered(s.controls[t]))
    && (forall t, u | t in s.registry && u in s.registry && t != u :: IdOf(s, t) != IdOf(s, u))
  }

  ghost predicate QueueOk(s: State) {
    && |s.queue| <= QUEUE_DEPTH
    && (forall m | m in s.queue ::
          m.about < |s.controls| && m.id == s.controls[m.about].id && s.controls[m.about].place == InQueue)
    && (forall i, j | 0 <= i < j < |s.queue| :: s.queue[i].about != s.queue[j].about)
    && (forall t | 0 <= t < |s.controls| && s.controls[t].place == InQueue :: Message(s.controls[t].id, t) in s.queue)
  }

  /** The control that the reaper is busy with. */
  function Held(pc: ReaperPc): Option<Tid> {
    match pc
    case Receiving => None
    case Looking(m) => Some(m.about)
    case Polling(t) => Some(t)
    case Deleting(t) => Some(t)
    case Unregistering(t, _) => Some(t)
    case Freeing(t, _) => Some(t)
    case FreeingStack(t, _) => Some(t)
    case Acking(t, _) => Some(t)
    case Fatal => None
  }

  predicate HeldOk(pc: ReaperPc, c: Control) {
    match pc
    case Receiving => true
    case Looking(m) => c.memory == Live && m.id == c.id
    case Polling(_) => c.memory == Live
    case Deleting(_) => c.memory == Live && c.worker.Completed?
    case Unregistering(_, ack) => c.memory == Deleted && ack == c.ack
    case Freeing(_, ack) => c.memory == Unregistered && ack == c.ack
    case FreeingStack(_, ack) => c.memory == Freed && ack == c.ack
    case Acking(_, ack) => c.memory == Reclaimed && ack == c.ack
    case Fatal => false
  }

  ghost predicate ReaperOk(s: State) {
    && !s.reaper.Fatal?
    && (forall t | 0 <= t < |s.controls| :: s.controls[t].place == AtReaper <==> Held(s.reaper) == Some(t))
    && match Held(s.reaper)
       case None => true
       case Some(t) => t < |s.controls| && HeldOk(s.reaper, s.controls[t])
  }

  /** Whoever runs a join or detach inside the runtime is still in its user code. */
  ghost predicate HostsOk(s: State) {
    forall t, u: Tid | 0 <= t < |s.controls| && IsHosted(s.controls[t], Worker(u)) ::
      u < |s.controls| && InUserCode(s.controls[u].worker)
  }

  ghost predicate Invariant(s: State) {
    ControlsOk(s) && RegistryOk(s) && QueueOk(s) && ReaperOk(s) && HostsOk(s)
  }

  lemma InvariantKnows(s: State)
    requires Invariant(s)
    ensures KnowsItsThreads(s)
  {
    match Held(s.reaper) {
      case None =>
      case Some(t) =>
    }
  }

  /** A registered control is found under its id. */
  lemma FoundByItsId(s: State, t: Tid)
    requires RegistryOk(s) && t in s.registry
    ensures Lookup(s, IdOf(s, t)) == Some(t)
  {
    var ids := seq(|s.registry|, i requires 0 <= i < |s.registry| => IdOf(s, s.registry[i]));
    var k :| 0 <= k < |s.registry| && s.registry[k] == t;
    assert ids[k] == IdOf(s, t);
  }

  // One control at a time.

  /** What a step of a worker or a caller does to its control, seen from outside. */
  predicate IsLocalStep(c: Control, c': Control, t: Tid, sent: seq<Message>) {
    && c'.id == c.id && c'.memory == c.memory
    && (c'.ack == c.ack || c.place == Unsent)
    && (c.worker.Completed? ==> c'.worker.Completed?)
    && (if c'.place == c.place then sent == []
        else c.place == Unsent && c'.place == InQueue && sent == [Message(c.id, t)])
  }

  lemma WorkerStepOk(c: Control, t: Tid)
    requires ControlOk(c, t) && !c.worker.Completed?
    requires c.worker.Locking? ==> c.lock == NoOne
    ensures ControlOk(WorkerControl(c, t, Some(t)), t)
    ensures IsLocalStep(c, WorkerControl(c, t, Some(t)), t, WorkerSends(c))
  {}

  lemma CallerStepOk(c: Control, t: Tid)
    requires ControlOk(c, t)
    requires c.caller.JoinWaiting? ==> c.completion > 0
    requires c.caller.JoinAwaiting? ==> c.acks > 0
    requires c.caller.JoinLocking? || c.caller.DetachLocking? ==> c.lock == NoOne
    ensures ControlOk(CallerControl(c, t), t)
    ensures IsLocalStep(c, CallerControl(c, t), t, CallerSends(c))
  {}

  // One step of the system.

  /** A step of a worker or a caller changes one control, and appends the messages of that control. */
  ghost predicate IsLocalChange(s: State, s': State, t: Tid, sent: seq<Message>) {
    && t < |s.controls| && |s'.controls| == |s.controls|
    && (forall u | 0 <= u < |s.controls| && u != t :: s'.controls[u] == s.controls[u])
    && IsLocalStep(s.controls[t], s'.controls[t], t, sent)
    && s'.registry == s.registry && s'.nextId == s.nextId && s'.reaper == s.reaper
    && s'.queue == s.queue + sent && (sent == [] || |s.queue| < QUEUE_DEPTH)
  }

  lemma LocalChangeKeepsRegistry(s: State, s': State, t: Tid, sent: seq<Message>)
    requires RegistryOk(s) && IsLocalChange(s, s', t, sent)
    ensures RegistryOk(s')
  {
    forall u, v | u in s'.registry && v in s'.registry && u != v ensures IdOf(s', u) != IdOf(s', v) {
      assert IdOf(s', u) == IdOf(s, u) && IdOf(s', v) == IdOf(s, v);
    }
  }

  lemma LocalChangeKeepsQueue(s: State, s': State, t: Tid, sent: seq<Message>)
    requires QueueOk(s) && IsLocalChange(s, s', t, sent)
    ensures QueueOk(s')
  {}

  lemma LocalChangeKeepsReaper(s: State, s': State, t: Tid, sent: seq<Message>)
    requires ReaperOk(s) && IsLocalChange(s, s', t, sent)
    ensures ReaperOk(s')
  {
    match Held(s.reaper) {
      case None =>
      case Some(u) => assert s.controls[u].place == AtReaper;
    }
  }

  lemma LocalChangeKeeps(s: State, s': State, t: Tid, sent: seq<Message>)
    requires Invariant(s) && IsLocalChange(s, s', t, sent) && ControlOk(s'.controls[t], t)
    ensures ControlsOk(s') && RegistryOk(s') && QueueOk(s') && ReaperOk(s')
  {
    hide RegistryOk, QueueOk, ReaperOk, ControlOk;
    LocalChangeKeepsRegistry(s, s', t, sent);
    LocalChangeKeepsQueue(s, s', t, sent);
    LocalChangeKeepsReaper(s, s', t, sent);
  }

  /** Hosting ends with the call, and a thread leaves its user code only while it hosts nothing. */
  lemma LocalChangeKeepsHosts(s: State, s': State, t: Tid, sent: seq<Message>)
    requires HostsOk(s) && IsLocalChange(s, s', t, sent)
    requires IsActive(s'.controls[t].caller) ==>
              IsActive(s.controls[t].caller) && s'.controls[t].agent == s.controls[t].agent
    requires InUserCode(s.controls[t].worker) ==> InUserCode(s'.controls[t].worker) || !IsBusy(s, Worker(t))
    ensures HostsOk(s')
  {
    forall u, v: Tid | 0 <= u < |s'.controls| && IsHosted(s'.controls[u], Worker(v))
      ensures v < |s'.controls| && InUserCode(s'.controls[v].worker)
    {
      assert IsHosted(s.controls[u], Worker(v));
    }
  }

  lemma WorkerStepKeeps(s: State, t: Tid)
    requires Invariant(s) && Enabled(s, WorkerStep(t))
    ensures Invariant(Next(s, WorkerStep(t)))
  {
    hide QueueOk, RegistryOk, ReaperOk, HostsOk, ControlOk, KnowsItsThreads, Lookup, IsLocalStep, IsBusy;
    var c, s' := s.controls[t], Next(s, WorkerStep(t));
    if c.worker.Finding? {
      WorkerIsFound(s, t);
    }
    WorkerStepOk(c, t);
    LocalChangeKeeps(s, s', t, WorkerSends(c));
    LocalChangeKeepsHosts(s, s', t, WorkerSends(c));
  }

  lemma WorkerIsFound(s: State, t: Tid)
    requires Invariant(s) && t < |s.controls| && s.controls[t].worker.Finding?
    ensures Lookup(s, s.controls[t].id) == Some(t)
  {
    FoundByItsId(s, t);
  }

  lemma CallerStepKeeps(s: State, t: Tid)
    requires Invariant(s) && Enabled(s, CallerStep(t))
    ensures Invariant(Next(s, CallerStep(t)))
  {
    hide QueueOk, RegistryOk, ReaperOk, HostsOk, ControlOk, KnowsItsThreads, Lookup, IsLocalStep, IsBusy;
    var c, s' := s.controls[t], Next(s, CallerStep(t));
    CallerStepOk(c, t);
    LocalChangeKeeps(s, s', t, CallerSends(c));
    LocalChangeKeepsHosts(s, s', t, CallerSends(c));
  }

  lemma ClaimKeeps(s: State, t: Tid, agent: Agent, join: bool)
    requires Invariant(s) && Enabled(s, Claim(t, agent, join))
    ensures Invariant(Next(s, Claim(t, agent, join)))
  {
    hide QueueOk, ReaperOk, KnowsItsThreads, Lookup;
    LocalChangeKeeps(s, Next(s, Claim(t, agent, join)), t, []);
  }

  lemma CreateKeepsRegistry(s: State)
    requires RegistryOk(s) && Enabled(s, Create)
    ensures RegistryOk(Next(s, Create))
  {
    hide Lookup;
    var s', t := Next(s, Create), |s.controls|;
    assert forall u | 0 <= u < t :: s'.controls[u] == s.controls[u];
    assert forall i | 0 < i < |s'.registry| :: s'.registry[i] == s.registry[i - 1] && s'.registry[i] in s.registry;
    assert forall u | u in s'.registry && u != t :: u in s.registry && IdOf(s', u) == s.controls[u].id;
  }

  lemma CreateKeeps(s: State)
    requires Invariant(s) && Enabled(s, Create)
    ensures Invariant(Next(s, Create))
  {
    hide Lookup, RegistryOk;
    CreateKeepsRegistry(s);
    var s', t := Next(s, Create), |s.controls|;
    assert forall u | 0 <= u < t :: s'.controls[u] == s.controls[u];
    assert QueueOk(s');
    match Held(s.reaper) {
      case None =>
      case Some(u) =>
    }
  }

  /** The reaper changes only the control it holds, and neither its flags nor its owner. */
  ghost predicate IsReaperChange(s: State, s': State, t: Tid) {
    && t < |s.controls| && |s'.controls| == |s.controls|
    && (forall u | 0 <= u < |s.controls| && u != t :: s'.controls[u] == s.controls[u])
    && (var c, c' := s.controls[t], s'.controls[t];
        c' == c.(place := c'.place, memory := c'.memory, frees := c'.frees, acks := c'.acks))
    && s'.nextId == s.nextId
  }

  lemma ReaperChangeKeepsHosts(s: State, s': State, t: Tid)
    requires HostsOk(s) && IsReaperChange(s, s', t)
    ensures HostsOk(s')
  {
    forall u, v: Tid | 0 <= u < |s'.controls| && IsHosted(s'.controls[u], Worker(v))
      ensures v < |s'.controls| && InUserCode(s'.controls[v].worker)
    {
      assert IsHosted(s.controls[u], Worker(v));
    }
  }

  lemma ReaperChangeKeepsRegistry(s: State, s': State, t: Tid)
    requires RegistryOk(s) && IsReaperChange(s, s', t)
    requires s'.registry == if IsRegistered(s'.controls[t]) then s.registry else Without(s.registry, t)
    requires IsRegistered(s'.controls[t]) ==> IsRegistered(s.controls[t])
    ensures RegistryOk(s')
  {
    WithoutDistinct(s.registry, t);
    forall u, v | u in s'.registry && v in s'.registry && u != v ensures IdOf(s', u) != IdOf(s', v) {
      assert IdOf(s', u) == IdOf(s, u) && IdOf(s', v) == IdOf(s, v);
    }
  }

  /** Receiving takes the oldest message; later steps leave the queue alone. */
  lemma ReceivingKeepsQueue(s: State, s': State)
    requires QueueOk(s) && ControlsOk(s) && s.queue != []
    requires s' ==
             Update(s, s.queue[0].about, s.controls[s.queue[0].about].(place := AtReaper))
             .(queue := s.queue[1..], reaper := s'.reaper)
    ensures QueueOk(s')
  {
    hide ControlOk;
    var t := s.queue[0].about;
    forall u | 0 <= u < |s'.controls| && s'.controls[u].place == InQueue
      ensures Message(s'.controls[u].id, u) in s'.queue
    {
      var m := Message(s.controls[u].id, u);
      assert m in s.queue && m != s.queue[0];
    }
  }

  /** What a step of the reaper after receiving does, seen from outside. */
  ghost predicate IsReclaiming(s: State, s': State, t: Tid) {
    && IsReaperChange(s, s', t) && s'.queue == s.queue
    && MemoryOk(s'.controls[t]) && !s'.reaper.Fatal? && HeldOk(s'.reaper, s'.controls[t])
    && (IsRegistered(s'.controls[t]) ==> IsRegistered(s.controls[t]))
    && (s'.registry ==
        if IsRegistered(s.controls[t]) && !IsRegistered(s'.controls[t]) then Without(s.registry, t) else s.registry)
    && if s'.reaper.Receiving? then s'.controls[t].place == Handled
       else Held(s'.reaper) == Some(t) && s'.controls[t].place == AtReaper
  }

  lemma ReaperEffect(s: State, t: Tid)
    requires Enabled(s, ReaperStep) && Held(s.reaper) == Some(t) && t < |s.controls|
    requires HeldOk(s.reaper, s.controls[t]) && ControlOk(s.controls[t], t) && s.controls[t].place == AtReaper
    requires s.reaper.Looking? ==> Lookup(s, s.reaper.message.id) == Some(t)
    ensures IsReclaiming(s, ReaperNext(s), t)
  {
    hide Lookup, Without;
  }

  lemma ReaperControlOk(c: Control, c': Control, t: Tid)
    requires ControlOk(c, t) && c.place == AtReaper
    requires c' == c.(place := c'.place, memory := c'.memory, frees := c'.frees, acks := c'.acks)
    requires (c'.place == AtReaper || c'.place == Handled) && MemoryOk(c')
    ensures ControlOk(c', t)
  {}

  lemma ReclaimingKeepsQueue(s: State, s': State, t: Tid)
    requires QueueOk(s) && IsReaperChange(s, s', t) && s'.queue == s.queue
    requires s.controls[t].place == AtReaper && s'.controls[t].place != InQueue
    ensures QueueOk(s')
  {}

  lemma ReclaimingKeeps(s: State, s': State, t: Tid)
    requires Invariant(s) && IsReclaiming(s, s', t) && Held(s.reaper) == Some(t)
    ensures Invariant(s')
  {
    ReaperControlOk(s.controls[t], s'.controls[t], t);
    if !IsRegistered(s.controls[t]) {
      WithoutAbsent(s.registry, t);
    }
    hide ControlOk, RegistryOk, HostsOk, IsRegistered, QueueOk;
    ReaperChangeKeepsRegistry(s, s', t);
    ReaperChangeKeepsHosts(s, s', t);
    ReclaimingKeepsQueue(s, s', t);
  }

  lemma ReceivingKeeps(s: State)
    requires Invariant(s) && s.reaper.Receiving? && s.queue != []
    ensures Enabled(s, ReaperStep) && Invariant(Next(s, ReaperStep))
  {
    InvariantKnows(s);
    var t, s' := s.queue[0].about, Next(s, ReaperStep);
    assert s.queue[0] in s.queue && s.controls[t].place == InQueue;
    assert ControlOk(s'.controls[t], t);
    hide FlagsOk, SendingOk, RegistryOk, QueueOk, HostsOk;
    ReceivingKeepsQueue(s, s');
    ReaperChangeKeepsHosts(s, s', t);
    ReaperChangeKeepsRegistry(s, s', t);
  }

  lemma ReaperStepKeeps(s: State)
    requires Invariant(s) && Enabled(s, ReaperStep)
    ensures Invariant(Next(s, ReaperStep))
  {
    if s.reaper.Receiving? {
      ReceivingKeeps(s);
    } else {
      var t := Held(s.reaper).value;
      if s.reaper.Looking? {
        FoundByItsId(s, t);
      }
      hide ControlOk, RegistryOk, QueueOk, HostsOk, Lookup, ReaperNext;
      ReaperEffect(s, t);
      ReclaimingKeeps(s, ReaperNext(s), t);
    }
  }

  lemma StepKeeps(s: State, step: Step)
    requires Invariant(s) && Enabled(s, step)
    ensures Invariant(Next(s, step))
  {
    hide *;
    match step {
      case Create => CreateKeeps(s);
      case Claim(t, agent, join) => ClaimKeeps(s, t, agent, join);
      case WorkerStep(t) => WorkerStepKeeps(s, t);
      case CallerStep(t) => CallerStepKeeps(s, t);
      case ReaperStep => ReaperStepKeeps(s);
    }
  }

  ghost predicate IsRun(s: State, steps: seq<Step>, s': State)
    decreases |steps|
  {
    if steps == [] then s' == s else Enabled(s, steps[0]) && IsRun(Next(s, steps[0]), steps[1..], s')
  }

  lemma {:induction false} RunKeeps(s: State, steps: seq<Step>, s': State)
    requires Invariant(s) && IsRun(s, steps, s')
    ensures Invariant(s')
    decreases |steps|
  {
    if steps != [] {
      StepKeeps(s, steps[0]);
      RunKeeps(Next(s, steps[0]), steps[1..], s');
    }
  }

  lemma InitialOk()
    ensures Invariant(Initial())
  {}

  // ----- What is safe in every run -----

  /** After any run from the start: nothing fatal happens, no join or detach is refused, each control
      gets at most one message and is freed at most once, and only after its thread has completed. */
  lemma ReachableIsSafe(steps: seq<Step>, s: State, t: Tid)
    requires IsRun(Initial(), steps, s) && t < |s.controls|
    ensures var c := s.controls[t];
            && !s.reaper.Fatal? && !c.worker.Lost? && !c.caller.Refusing? && !c.caller.Refused?
            && c.sends <= 1 && c.frees <= 1
            && (c.frees == 1 ==> c.worker.Completed? && c.sends == 1)
            && (c.place == Handled <==> c.frees == 1 && Held(s.reaper) != Some(t))
            && |s.queue| <= QUEUE_DEPTH
  {
    InitialOk();
    RunKeeps(Initial(), steps, s);
    assert ControlOk(s.controls[t], t);
    match Held(s.reaper) {
      case None =>
      case Some(u) =>
    }
  }

  /** `thread_join` returns 0 only when entry and exit callbacks are over and everything is reclaimed. */
  lemma JoinReturnsAfterReclamation(steps: seq<Step>, s: State, t: Tid)
    requires IsRun(Initial(), steps, s) && t < |s.controls| && s.controls[t].caller.Joined?
    ensures var c := s.controls[t]; c.worker.Completed? && c.memory == Reclaimed && c.frees == 1 && t !in s.registry
  {
    InitialOk();
    RunKeeps(Initial(), steps, s);
    assert ControlOk(s.controls[t], t);
  }

  /** What a user sees of a thread: the end of its entry, the end of its exit callbacks, the return of a join. */
  datatype Landmark = EntryOver | CallbacksOver | JoinReturned

  /** The landmark of control `t` that a step is, if any. */
  function LandmarkOf(s: State, step: Step, t: Tid): seq<Landmark>
    requires Enabled(s, step)
  {
    if step == WorkerStep(t) && s.controls[t].worker.Entry? then [EntryOver]
    else if step == WorkerStep(t) && s.controls[t].worker.Callbacks? then [CallbacksOver]
    else if step == CallerStep(t) && !s.controls[t].caller.Joined? && Next(s, step).controls[t].caller.Joined?
    then [JoinReturned]
    else []
  }

  ghost function Landmarks(s: State, steps: seq<Step>, s': State, t: Tid): seq<Landmark>
    requires IsRun(s, steps, s')
    decreases |steps|
  {
    if steps == [] then [] else LandmarkOf(s, steps[0], t) + Landmarks(Next(s, steps[0]), steps[1..], s', t)
  }

  /** The landmarks that lie behind a control, by its state. */
  function Passed(c: Control): seq<Landmark> {
    (if c.worker.Finding? || c.worker.Lost? || c.worker.Entry? then []
     else if c.worker.Callbacks? then [EntryOver] else [EntryOver, CallbacksOver])
    + if c.caller.Joined? then [JoinReturned] else []
  }

  function PassedBy(s: State, t: Tid): seq<Landmark> {
    if t < |s.controls| then Passed(s.controls[t]) else []
  }

  lemma WorkerPasses(c: Control, t: Tid)
    requires ControlOk(c, t) && !c.worker.Completed?
    ensures Passed(WorkerControl(c, t, Some(t))) ==
            Passed(c) + if c.worker.Entry? then [EntryOver] else if c.worker.Callbacks? then [CallbacksOver] else []
  {}

  lemma CallerPasses(c: Control, t: Tid)
    requires ControlOk(c, t)
    ensures var next := CallerControl(c, t);
            Passed(next) == Passed(c) + if next.caller.Joined? && !c.caller.Joined? then [JoinReturned] else []
  {
    match c.caller {
      case JoinAwaiting =>
      case _ =>
    }
  }

  /** The reaper changes neither what a thread nor what its caller is doing. */
  lemma ReaperKeepsPlaces(s: State, t: Tid)
    requires KnowsItsThreads(s) && ReaperEnabled(s)
    ensures |ReaperNext(s).controls| == |s.controls|
    ensures t < |s.controls| ==>
              var c, c' := s.controls[t], ReaperNext(s).controls[t];
              c'.worker == c.worker && c'.caller == c.caller && c'.agent == c.agent
  {
    hide Lookup, Without;
  }

  lemma StepPasses(s: State, step: Step, t: Tid)
    requires Invariant(s) && Enabled(s, step)
    ensures PassedBy(Next(s, step), t) == PassedBy(s, t) + LandmarkOf(s, step, t)
  {
    if t < |s.controls| {
      assert ControlOk(s.controls[t], t);
    }
    if step == WorkerStep(t) && s.controls[t].worker.Finding? {
      WorkerIsFound(s, t);
    }
    assert Passed(NewControl(s.nextId)) == [];
    hide Lookup, KnowsItsThreads, ReaperNext, WorkerControl, CallerControl, Passed, ControlOk, RegistryOk, QueueOk;
    match step {
      case WorkerStep(u) => if u == t { WorkerPasses(s.controls[t], t); }
      case CallerStep(u) => if u == t { CallerPasses(s.controls[t], t); }
      case ReaperStep => ReaperKeepsPlaces(s, t);
      case Create =>
      case Claim(_, _, _) =>
    }
  }

  lemma Appended(before: seq<Landmark>, mark: seq<Landmark>, after: seq<Landmark>)
    ensures before + mark + after == before + (mark + after)
  {}

  lemma {:induction false} RunPasses(s: State, steps: seq<Step>, s': State, t: Tid)
    requires Invariant(s) && IsRun(s, steps, s')
    ensures PassedBy(s', t) == PassedBy(s, t) + Landmarks(s, steps, s', t)
    decreases |steps|
  {
    hide Invariant, PassedBy, LandmarkOf, Enabled, Next;
    if steps == [] {
      Appended(PassedBy(s, t), [], []);
    } else {
      StepPasses(s, steps[0], t);
      StepKeeps(s, steps[0]);
      RunPasses(Next(s, steps[0]), steps[1..], s', t);
      Appended(PassedBy(s, t), LandmarkOf(s, steps[0], t), Landmarks(Next(s, steps[0]), steps[1..], s', t));
    }
  }

  /** In every run in which a join has returned, the entry of the thread was over once, then its exit callbacks
      once, and then the join returned once. */
  lemma JoinReturnsAfterUserCode(steps: seq<Step>, s: State, t: Tid)
    requires IsRun(Initial(), steps, s) && t < |s.controls| && s.controls[t].caller.Joined?
    ensures Landmarks(Initial(), steps, s, t) == [EntryOver, CallbacksOver, JoinReturned]
  {
    InitialOk();
    RunKeeps(Initial(), steps, s);
    RunPasses(Initial(), steps, s, t);
    assert ControlOk(s.controls[t], t);
    assert PassedBy(Initial(), t) == [];
    assert [] + Landmarks(Initial(), steps, s, t) == Landmarks(Initial(), steps, s, t);
  }

  /** The controls whose record a step reads or writes. A walk of the registry reads all of it. */
  function Touches(s: State, step: Step): set<Tid> {
    match step
    case Create => {}
    case Claim(_, _, _) => {}
    case WorkerStep(t) => {t} + (if t < |s.controls| && s.controls[t].worker.Finding? then Walked(s) else {})
    case CallerStep(t) => if t < |s.controls| && UsesControl(s.controls[t].caller) then {t} else {}
    case ReaperStep =>
      match s.reaper
      case Looking(_) => Walked(s)
      case Polling(t) => {t}
      case Deleting(t) => {t}
      case Unregistering(t, _) => {t} + Walked(s)
      case Freeing(t, _) => {t}
      case _ => {}
  }

  function Walked(s: State): set<Tid> {
    set t | t in s.registry
  }

  /** A caller has the control in its hands until it has read the id for its message. */
  predicate UsesControl(pc: CallerPc) {
    IsActive(pc) && !pc.JoinCreating? && !pc.JoinSending? && !pc.JoinAwaiting? && !pc.DetachSending?
  }

  /** The controls whose thread, mutex or semaphore a step uses. */
  function UsesObjects(s: State, step: Step): set<Tid> {
    match step
    case WorkerStep(t) => {t}
    case CallerStep(t) => if t < |s.controls| && UsesControl(s.controls[t].caller) then {t} else {}
    case ReaperStep => if s.reaper.Polling? || s.reaper.Deleting? then {s.reaper.tid} else {}
    case _ => {}
  }

  /** No step of any party touches a freed control, or a kernel object that was deleted. */
  lemma NothingIsUsedAfterItsEnd(steps: seq<Step>, s: State, step: Step, t: Tid)
    requires IsRun(Initial(), steps, s) && Enabled(s, step)
    ensures t in Touches(s, step) ==> t < |s.controls| && s.controls[t].frees == 0
    ensures t in UsesObjects(s, step) ==> t < |s.controls| && s.controls[t].memory == Live
  {
    InitialOk();
    RunKeeps(Initial(), steps, s);
    if t < |s.controls| {
      assert ControlOk(s.controls[t], t);
    }
    match Held(s.reaper) {
      case None =>
      case Some(u) =>
    }
  }

  /** A party that is blocked also keeps its control alive, and the reaper signals a joiner that is still there. */
  lemma WaitersAreKeptAlive(steps: seq<Step>, s: State, t: Tid)
    requires IsRun(Initial(), steps, s) && t < |s.controls|
    ensures !s.controls[t].worker.Completed? || UsesControl(s.controls[t].caller) ==> s.controls[t].memory == Live
    ensures s.reaper == Acking(t, true) <==> s.reaper.Acking? && s.reaper.tid == t && s.controls[t].caller.JoinAwaiting?
  {
    InitialOk();
    RunKeeps(Initial(), steps, s);
    assert ControlOk(s.controls[t], t);
    match Held(s.reaper) {
      case None =>
      case Some(u) =>
    }
  }

  // ----- What cannot get stuck -----

  /** While the reaper waits for a thread to complete, that thread has no step left that could block. */
  lemma ReaperWaitsForUnblockable(steps: seq<Step>, s: State, t: Tid)
    requires IsRun(Initial(), steps, s) && s.reaper == Polling(t)
    ensures t < |s.controls| && IsUnblockable(s.controls[t].worker)
    ensures s.controls[t].worker.Completed? || Enabled(s, WorkerStep(t))
  {
    InitialOk();
    RunKeeps(Initial(), steps, s);
    InvariantKnows(s);
    assert ControlOk(s.controls[t], t);
  }

  /** The steps of the runtime itself: everything but calls into it and the user code of a thread. */
  predicate IsRuntimeStep(s: State, step: Step) {
    match step
    case Create => false
    case Claim(_, _, _) => false
    case WorkerStep(t) => t < |s.controls| && !InUserCode(s.controls[t].worker)
    case CallerStep(_) => true
    case ReaperStep => true
  }

  ghost predicate IsStuck(s: State) {
    forall step | IsRuntimeStep(s, step) :: !Enabled(s, step)
  }

  /** Nothing is left to do for the runtime: every join that has not returned waits for user code. */
  ghost predicate IsQuiet(s: State) {
    && s.reaper.Receiving? && s.queue == []
    && forall t | 0 <= t < |s.controls| :: WaitsOnlyForUserCode(s.controls[t])
  }

  predicate WaitsOnlyForUserCode(c: Control) {
    && (InUserCode(c.worker) || c.worker.Completed?)
    && (IsActive(c.caller) ==> c.caller.JoinWaiting? && InUserCode(c.worker))
  }

  lemma ReaperIsNotBlocked(s: State)
    requires Invariant(s) && !(s.reaper.Receiving? && s.queue == [])
    ensures Enabled(s, ReaperStep) ||
            (s.reaper.Polling? && IsRuntimeStep(s, WorkerStep(s.reaper.tid)) && Enabled(s, WorkerStep(s.reaper.tid)))
  {
    InvariantKnows(s);
    if s.reaper.Polling? {
      assert ControlOk(s.controls[s.reaper.tid], s.reaper.tid);
    }
  }

  lemma StuckIsQuiet(s: State, t: Tid)
    requires Invariant(s) && IsStuck(s) && t < |s.controls|
    ensures s.reaper.Receiving? && s.queue == [] && WaitsOnlyForUserCode(s.controls[t])
  {
    InvariantKnows(s);
    if !(s.reaper.Receiving? && s.queue == []) {
      ReaperIsNotBlocked(s);
    }
    assert !Enabled(s, ReaperStep);
    assert ControlOk(s.controls[t], t);
    if !InUserCode(s.controls[t].worker) {
      assert !Enabled(s, WorkerStep(t));
    }
    assert !Enabled(s, CallerStep(t));
  }

  /** The bounded queue cannot deadlock: in every reachable state the runtime is out of steps exactly when
      no message, no send and no cleanup is pending and every join waits for a thread in its user code. */
  lemma OnlyUserCodeBlocks(steps: seq<Step>, s: State)
    requires IsRun(Initial(), steps, s)
    ensures IsStuck(s) <==> IsQuiet(s)
  {
    InitialOk();
    RunKeeps(Initial(), steps, s);
    if IsStuck(s) {
      forall t | 0 <= t < |s.controls|
        ensures WaitsOnlyForUserCode(s.controls[t])
      {
        StuckIsQuiet(s, t);
      }
      if !(s.reaper.Receiving? && s.queue == []) {
        ReaperIsNotBlocked(s);
      }
    }
    if IsQuiet(s) {
      forall step | IsRuntimeStep(s, step)
        ensures !Enabled(s, step)
      {
        QuietIsStuck(s, step);
      }
    }
  }

  lemma QuietIsStuck(s: State, step: Step)
    requires Invariant(s) && IsQuiet(s) && IsRuntimeStep(s, step)
    ensures !Enabled(s, step)
  {
    if step.CallerStep? && step.tid < |s.controls| {
      assert ControlOk(s.controls[step.tid], step.tid);
    }
  }

  /** At rest, whatever completed and was joined or detached has been reclaimed. */
  lemma QuietHasReclaimed(steps: seq<Step>, s: State, t: Tid)
    requires IsRun(Initial(), steps, s) && IsQuiet(s) && t < |s.controls|
    requires s.controls[t].worker.Completed?
    ensures s.controls[t].caller.Unclaimed? || s.controls[t].caller.Joined? || s.controls[t].caller.Detached?
    ensures !s.controls[t].caller.Unclaimed? ==> s.controls[t].memory == Reclaimed && t !in s.registry
  {
    InitialOk();
    RunKeeps(Initial(), steps, s);
    assert ControlOk(s.controls[t], t) && WaitsOnlyForUserCode(s.controls[t]);
  }

  lemma {:induction false} RunExtends(s: State, steps: seq<Step>, s': State, step: Step)
    requires IsRun(s, steps, s') && Enabled(s', step)
    ensures IsRun(s, steps + [step], Next(s', step))
    decreases |steps|
  {
    hide Enabled, Next;
    if steps == [] {
      assert (steps + [step])[1..] == [];
    } else {
      assert (steps + [step])[1..] == steps[1..] + [step];
      RunExtends(Next(s, steps[0]), steps[1..], s', step);
    }
  }

  lemma Extended(steps: seq<Step>, s: State, step: Step) returns (steps': seq<Step>, s': State)
    requires IsRun(Initial(), steps, s) && Enabled(s, step) && Invariant(s)
    ensures IsRun(Initial(), steps', s') && s' == Next(s, step) && Invariant(s')
  {
    RunExtends(Initial(), steps, s, step);
    StepKeeps(s, step);
    steps', s' := steps + [step], Next(s, step);
  }

  // ----- What comes to an end -----

  /** How many more steps of the system a worker, a caller, a message and the reaper can cause. */
  function WorkerRank(pc: WorkerPc): nat {
    match pc
    case Finding => 19
    case Entry => 18
    case Callbacks => 17
    case Locking => 16
    case Marking => 15
    case Unlocking(_) => 14
    case Posting(_) => 13
    case Reading => 12
    case Sending(_) => 11
    case Returning => 1
    case Completed => 0
    case Lost => 0
  }

  function CallerRank(pc: CallerPc): nat {
    match pc
    case JoinWaiting => 17
    case JoinCreating => 16
    case JoinLocking => 15
    case JoinMarking => 14
    case JoinUnlocking => 13
    case JoinReading => 12
    case JoinSending(_) => 11
    case JoinAwaiting => 1
    case DetachLocking => 14
    case DetachMarking => 13
    case DetachUnlocking(_) => 12
    case DetachReading => 11
    case DetachSending(_) => 10
    case Refusing(_) => 1
    case _ => 0
  }

  function ReaperRank(pc: ReaperPc): nat {
    match pc
    case Receiving => 0
    case Looking(_) => 8
    case Polling(_) => 7
    case Deleting(_) => 6
    case Unregistering(_, _) => 5
    case Freeing(_, _) => 4
    case FreeingStack(_, _) => 3
    case Acking(_, _) => 2
    case Fatal => 0
  }

  const MESSAGE_RANK := 9

  function Rank(c: Control): nat {
    WorkerRank(c.worker) + CallerRank(c.caller)
  }

  function TotalRank(controls: seq<Control>): nat {
    if controls == [] then 0 else Rank(controls[0]) + TotalRank(controls[1..])
  }

  function Measure(s: State): nat {
    TotalRank(s.controls) + MESSAGE_RANK * |s.queue| + ReaperRank(s.reaper)
  }

  lemma {:induction false} TotalRankUpdated(controls: seq<Control>, t: Tid, c: Control)
    requires t < |controls|
    ensures TotalRank(controls[t := c]) == TotalRank(controls) - Rank(controls[t]) + Rank(c)
    decreases t
  {
    if t == 0 {
      assert controls[t := c][1..] == controls[1..];
    } else {
      assert controls[t := c][1..] == controls[1..][t - 1 := c];
      TotalRankUpdated(controls[1..], t - 1, c);
    }
  }

  lemma WorkerRankDecreases(c: Control, t: Tid, found: Option<Tid>)
    requires !c.worker.Completed? && !c.worker.Lost?
    ensures Rank(WorkerControl(c, t, found)) + MESSAGE_RANK * |WorkerSends(c)| < Rank(c)
  {}

  lemma CallerRankDecreases(c: Control, t: Tid)
    requires IsActive(c.caller)
    requires c.caller.JoinWaiting? ==> c.completion > 0
    requires c.caller.JoinAwaiting? ==> c.acks > 0
    ensures Rank(CallerControl(c, t)) + MESSAGE_RANK * |CallerSends(c)| < Rank(c)
  {}

  lemma WorkerStepDecreases(s: State, t: Tid)
    requires Enabled(s, WorkerStep(t))
    ensures Measure(Next(s, WorkerStep(t))) < Measure(s)
  {
    var c := s.controls[t];
    var found := if c.worker.Finding? then Lookup(s, c.id) else None;
    hide KnowsItsThreads, Lookup, WorkerControl, Rank, WorkerSends;
    TotalRankUpdated(s.controls, t, WorkerControl(c, t, found));
    WorkerRankDecreases(c, t, found);
  }

  lemma CallerStepDecreases(s: State, t: Tid)
    requires Enabled(s, CallerStep(t))
    ensures Measure(Next(s, CallerStep(t))) < Measure(s)
  {
    hide KnowsItsThreads, CallerControl, Rank, CallerSends;
    TotalRankUpdated(s.controls, t, CallerControl(s.controls[t], t));
    CallerRankDecreases(s.controls[t], t);
  }

  lemma {:induction false} SameRanksSameTotal(a: seq<Control>, b: seq<Control>)
    requires |a| == |b| && forall i | 0 <= i < |a| :: Rank(a[i]) == Rank(b[i])
    ensures TotalRank(a) == TotalRank(b)
    decreases |a|
  {
    if a != [] {
      SameRanksSameTotal(a[1..], b[1..]);
    }
  }

  lemma ReaperKeepsRanks(s: State)
    requires KnowsItsThreads(s) && ReaperEnabled(s)
    ensures |ReaperNext(s).controls| == |s.controls|
    ensures forall t | 0 <= t < |s.controls| :: Rank(ReaperNext(s).controls[t]) == Rank(s.controls[t])
  {
    hide Lookup, ReaperNext, WorkerRank, CallerRank;
    ReaperKeepsPlaces(s, |s.controls|);
    forall t | 0 <= t < |s.controls| ensures Rank(ReaperNext(s).controls[t]) == Rank(s.controls[t]) {
      ReaperKeepsPlaces(s, t);
    }
  }

  lemma ReaperStepDecreases(s: State)
    requires Enabled(s, ReaperStep)
    ensures Measure(Next(s, ReaperStep)) < Measure(s)
  {
    hide Lookup, Rank, Without, TotalRank;
    ReaperKeepsRanks(s);
    SameRanksSameTotal(ReaperNext(s).controls, s.controls);
  }

  lemma StepDecreases(s: State, step: Step)
    requires Enabled(s, step) && !step.Create? && !step.Claim?
    ensures Measure(Next(s, step)) < Measure(s)
  {
    hide Next, Measure;
    match step {
      case WorkerStep(t) => WorkerStepDecreases(s, t);
      case CallerStep(t) => CallerStepDecreases(s, t);
      case ReaperStep => ReaperStepDecreases(s);
    }
  }

  /** Between two calls into the runtime only boundedly many steps can be taken, so every cleanup that can
      finish does: a run without new calls ends, and where it ends only user code is waited for. */
  lemma {:induction false} RunsEnd(s: State, steps: seq<Step>, s': State)
    requires IsRun(s, steps, s')
    requires forall i | 0 <= i < |steps| :: !steps[i].Create? && !steps[i].Claim?
    ensures |steps| + Measure(s') <= Measure(s)
    decreases |steps|
  {
    if steps != [] {
      StepDecreases(s, steps[0]);
      RunsEnd(Next(s, steps[0]), steps[1..], s');
    }
  }
}

/** Waiting on a condition variable, signalling it and broadcasting to it.

    Any number of waits, signals and broadcasts of one condition take their steps in any order; its own
    mutex guards the list of waiters, and every waiter sleeps on a semaphore of its own. One step is one
    kernel call or one block between two of them; a step that would block is not enabled. */
module Condition {
  import opened Errors
  import opened Lists

  /** A call of wait, numbered in the order of the calls. */
  type Wid = nat

  type Thread = nat

  type UserMutex = nat

  /** What `wait` returns: 0, ETIMEDOUT, EINVAL for an aborted wait, EPERM, EAGAIN. */
  datatype Status = Woken | TimedOut | Aborted | NotOwner | NoSemaphore

  /** `condition_wait_common`. */
  datatype WaitPc =
    | Creating | Entering | Appending | Unlocking | Leaving(unlocked: bool)
    | Failing | FailRemoving | FailLeaving
    | Sleeping | GivingUp(status: Status) | Checking(status: Status) | Decided(status: Status)
    | Deleting(status: Status) | Relocking(status: Status) | Returned(status: Status)

  /** `owner`, `popped` and `ticket` are bookkeeping that no step reads: whether the thread owned the mutex
      when it called, whether a signal took the waiter out of the list, and the place of its arrival. */
  datatype Wait = Wait(thread: Thread, mutex: UserMutex, pc: WaitPc, semaphore: nat,
                       owner: bool, popped: bool, ticket: nat)

  /** `condition_signal` and `condition_broadcast`, once they hold the mutex of the condition. */
  datatype SignalPc = Popping | Putting(wid: Wid) | Ending

  datatype Holder = NoOne | Waiter(wid: Wid) | Signaller(pc: SignalPc, broadcast: bool)

  /** `log` is bookkeeping: the waiters that signals took out of the list, in that order. */
  datatype State = State(waits: seq<Wait>, list: seq<Wid>, holder: Holder, owners: map<UserMutex, Thread>,
                         nextTicket: nat, log: seq<Wid>)

  datatype Step =
    | Lock(thread: Thread, mutex: UserMutex)
    | Unlock(thread: Thread, mutex: UserMutex)
    | Call(thread: Thread, mutex: UserMutex)
    | SemaphoreFails(wid: Wid)
    | WaitStep(wid: Wid)
    | GiveUp(wid: Wid, status: Status)
    | StartSignal(broadcast: bool)
    | SignalStep

  function Initial(): State {
    State([], [], NoOne, map[], 0, [])
  }

  predicate Owns(s: State, thread: Thread, mutex: UserMutex) {
    mutex in s.owners && s.owners[mutex] == thread
  }

  ghost predicate IsWaiting(s: State, thread: Thread) {
    exists w | 0 <= w < |s.waits| :: s.waits[w].thread == thread && !s.waits[w].pc.Returned?
  }

  predicate WaitEnabled(s: State, w: Wid)
    requires w < |s.waits|
  {
    match s.waits[w].pc
    case Entering => s.holder == NoOne
    case Failing => s.holder == NoOne
    case Sleeping => s.waits[w].semaphore > 0
    case GivingUp(_) => s.holder == NoOne
    case Relocking(_) => s.waits[w].mutex !in s.owners
    case Returned(_) => false
    case _ => true
  }

  /** The effect of a step on the wait itself; `owned` and `linked` are what the step reads outside it. */
  function WaitNext(wait: Wait, owned: bool, linked: bool, ticket: nat): Wait {
    match wait.pc
    case Creating => wait.(pc := Entering)
    case Entering => wait.(pc := Appending)
    case Appending => wait.(pc := Unlocking, ticket := ticket)
    case Unlocking => wait.(pc := Leaving(owned))
    case Leaving(unlocked) => wait.(pc := if unlocked then Sleeping else Failing)
    case Failing => wait.(pc := FailRemoving)
    case FailRemoving => wait.(pc := FailLeaving)
    case FailLeaving => wait.(pc := Returned(NotOwner))
    case Sleeping => if wait.semaphore == 0 then wait else wait.(pc := Deleting(Woken), semaphore := wait.semaphore - 1)
    case GivingUp(status) => wait.(pc := Checking(status))
    case Checking(status) =>
      if linked || wait.semaphore == 0 then wait.(pc := Decided(status))
      else wait.(pc := Decided(Woken), semaphore := wait.semaphore - 1)
    case Decided(status) => wait.(pc := Deleting(status))
    case Deleting(status) => wait.(pc := Relocking(status))
    case Relocking(status) => wait.(pc := Returned(status))
    case Returned(_) => wait
  }

  function ListNext(list: seq<Wid>, pc: WaitPc, w: Wid): seq<Wid> {
    match pc
    case Appending => list + [w]
    case FailRemoving => Without(list, w)
    case Checking(_) => Without(list, w)
    case _ => list
  }

  function HolderNext(holder: Holder, pc: WaitPc, w: Wid): Holder {
    match pc
    case Entering => Waiter(w)
    case Failing => Waiter(w)
    case GivingUp(_) => Waiter(w)
    case Leaving(_) => NoOne
    case FailLeaving => NoOne
    case Decided(_) => NoOne
    case _ => holder
  }

  function OwnersNext(owners: map<UserMutex, Thread>, wait: Wait): map<UserMutex, Thread> {
    match wait.pc
    case Unlocking =>
      if wait.mutex in owners && owners[wait.mutex] == wait.thread then owners - {wait.mutex} else owners
    case Relocking(_) => owners[wait.mutex := wait.thread]
    case _ => owners
  }

  predicate KnowsItsWaits(s: State) {
    && (forall i | 0 <= i < |s.list| :: s.list[i] < |s.waits|)
    && (s.holder.Signaller? && s.holder.pc.Putting? ==> s.holder.pc.wid < |s.waits|)
  }

  /** A signal takes the first waiter out of the list and then puts its semaphore; a broadcast repeats that. */
  function SignalNext(s: State): State
    requires KnowsItsWaits(s) && s.holder.Signaller?
  {
    var broadcast := s.holder.broadcast;
    match s.holder.pc
    case Popping =>
      if s.list == [] then s.(holder := Signaller(Ending, broadcast))
      else
        var w := s.list[0];
        s.(waits := s.waits[w := s.waits[w].(popped := true)], list := Without(s.list, w),
           holder := Signaller(Putting(w), broadcast), log := s.log + [w])
    case Putting(w) =>
      s.(waits := s.waits[w := s.waits[w].(semaphore := s.waits[w].semaphore + 1)],
         holder := Signaller(if broadcast then Popping else Ending, broadcast))
    case Ending => s.(holder := NoOne)
  }

  ghost predicate Enabled(s: State, step: Step) {
    KnowsItsWaits(s) &&
    match step
    case Lock(thread, mutex) => mutex !in s.owners && !IsWaiting(s, thread)
    case Unlock(thread, mutex) => Owns(s, thread, mutex) && !IsWaiting(s, thread)
    case Call(thread, _) => !IsWaiting(s, thread)
    case SemaphoreFails(w) => w < |s.waits| && s.waits[w].pc.Creating?
    case WaitStep(w) => w < |s.waits| && WaitEnabled(s, w)
    case GiveUp(w, status) => w < |s.waits| && s.waits[w].pc.Sleeping? && (status == TimedOut || status == Aborted)
    case StartSignal(_) => s.holder == NoOne
    case SignalStep => s.holder.Signaller?
  }

  function Next(s: State, step: Step): State
    requires Enabled(s, step)
  {
    match step
    case Lock(thread, mutex) => s.(owners := s.owners[mutex := thread])
    case Unlock(_, mutex) => s.(owners := s.owners - {mutex})
    case Call(thread, mutex) =>
      s.(waits := s.waits + [Wait(thread, mutex, Creating, 0, Owns(s, thread, mutex), false, 0)])
    case SemaphoreFails(w) => s.(waits := s.waits[w := s.waits[w].(pc := Returned(NoSemaphore))])
    case WaitStep(w) =>
      var wait := s.waits[w];
      State(s.waits[w := WaitNext(wait, Owns(s, wait.thread, wait.mutex), w in s.list, s.nextTicket)],
            ListNext(s.list, wait.pc, w), HolderNext(s.holder, wait.pc, w), OwnersNext(s.owners, wait),
            if wait.pc.Appending? then s.nextTicket + 1 else s.nextTicket, s.log)
    case GiveUp(w, status) => s.(waits := s.waits[w := s.waits[w].(pc := GivingUp(status))])
    case StartSignal(broadcast) => s.(holder := Signaller(Popping, broadcast))
    case SignalStep => SignalNext(s)
  }

  // ----- What every run keeps -----

  predicate HoldsCondition(pc: WaitPc) {
    || pc.Appending? || pc.Unlocking? || pc.Leaving? || pc.FailRemoving? || pc.FailLeaving?
    || pc.Checking? || pc.Decided?
  }

  /** From the append until the wait has left the list for good. */
  predicate IsListening(pc: WaitPc) {
    || pc.Unlocking? || pc.Leaving? || pc.Failing? || pc.FailRemoving?
    || pc.Sleeping? || pc.GivingUp? || pc.Checking?
  }

  /** The user's mutex has been released and not yet taken back. */
  predicate HasReleased(pc: WaitPc) {
    || (pc.Leaving? && pc.unlocked) || pc.Sleeping? || pc.GivingUp? || pc.Checking? || pc.Decided?
    || pc.Deleting? || pc.Relocking?
  }

  /** The user's mutex is still as it was when the wait was called. */
  predicate HasNotReleased(pc: WaitPc) {
    || BeforeAppend(pc) || pc.Unlocking? || (pc.Leaving? && !pc.unlocked)
    || pc.Failing? || pc.FailRemoving? || pc.FailLeaving?
  }

  predicate BeforeAppend(pc: WaitPc) {
    pc.Creating? || pc.Entering? || pc.Appending?
  }

  /** One wait, given whether it is in the list and whether a signal is about to put its semaphore. */
  predicate WaitOk(wait: Wait, linked: bool, putting: bool) {
    var pc := wait.pc;
    && (linked ==> IsListening(pc) && !wait.popped)
    && (IsListening(pc) ==> linked || wait.popped)
    && (BeforeAppend(pc) || pc.Unlocking? || pc.Leaving? ==> !wait.popped)
    && (pc.Returned? && pc.status.NoSemaphore? ==> !wait.popped)
    && (putting ==> wait.popped && IsListening(pc))
    && (IsListening(pc) ==> wait.semaphore == if wait.popped && !putting then 1 else 0)
    && (BeforeAppend(pc) ==> wait.semaphore == 0)
    && (pc.Leaving? ==> pc.unlocked == wait.owner)
    && (pc.Failing? || pc.FailRemoving? || pc.FailLeaving? ==> !wait.owner)
    && (HasReleased(pc) ==> wait.owner)
    && (pc.Returned? && pc.status != NoSemaphore ==> (pc.status == NotOwner <==> !wait.owner))
    && (pc.GivingUp? || pc.Checking? ==> pc.status == TimedOut || pc.status == Aborted)
    && (pc.Decided? || pc.Deleting? || pc.Relocking? || pc.Returned? ==>
          (pc.status == Woken ==> wait.popped) && (wait.popped ==> pc.status == Woken || pc.status == NotOwner))
    && (pc.Decided? || pc.Deleting? || pc.Relocking? ==>
          pc.status != NotOwner && pc.status != NoSemaphore && wait.semaphore == 0)
  }

  function Pending(holder: Holder): Option<Wid> {
    if holder.Signaller? && holder.pc.Putting? then Some(holder.pc.wid) else None
  }

  ghost predicate WaitsOk(s: State) {
    forall w | 0 <= w < |s.waits| :: WaitOk(s.waits[w], w in s.list, Pending(s.holder) == Some(w))
  }

  ghost predicate HolderOk(s: State) {
    && (forall w | 0 <= w < |s.waits| :: HoldsCondition(s.waits[w].pc) <==> s.holder == Waiter(w))
    && (s.holder.Waiter? ==> s.holder.wid < |s.waits|)
  }

  /** Tickets grow along the log of the signals and then along the list. */
  ghost predicate OrderOk(s: State) {
    && IsDistinct(s.list) && KnowsItsWaits(s)
    && (forall w | w in s.log :: w < |s.waits| && s.waits[w].popped)
    && (forall w | 0 <= w < |s.waits| && s.waits[w].popped :: w in s.log)
    && Ascending(s.waits, s.log + s.list, s.nextTicket)
  }

  ghost predicate Ascending(waits: seq<Wait>, wids: seq<Wid>, limit: nat) {
    && (forall i | 0 <= i < |wids| :: wids[i] < |waits| && waits[wids[i]].ticket < limit)
    && (forall i, j | 0 <= i < j < |wids| ::
          wids[i] < |waits| && wids[j] < |waits| && waits[wids[i]].ticket < waits[wids[j]].ticket)
  }

  /** A thread does one thing at a time; while its wait has the mutex released it does not own it, and before
      that it owns it exactly if it did when it called. */
  ghost predicate ThreadsOk(s: State) {
    && (forall v, w | 0 <= v < w < |s.waits| && !s.waits[v].pc.Returned? && !s.waits[w].pc.Returned? ::
          s.waits[v].thread != s.waits[w].thread)
    && (forall w | 0 <= w < |s.waits| && HasReleased(s.waits[w].pc) :: !Owns(s, s.waits[w].thread, s.waits[w].mutex))
    && (forall w | 0 <= w < |s.waits| && HasNotReleased(s.waits[w].pc) ::
          Owns(s, s.waits[w].thread, s.waits[w].mutex) == s.waits[w].owner)
  }

  ghost predicate Invariant(s: State) {
    WaitsOk(s) && HolderOk(s) && OrderOk(s) && ThreadsOk(s)
  }

  predicate LinkedAfter(linked: bool, pc: WaitPc) {
    pc.Appending? || (linked && !pc.FailRemoving? && !pc.Checking?)
  }

  lemma WaitStepOk(wait: Wait, owned: bool, linked: bool, putting: bool, ticket: nat)
    requires WaitOk(wait, linked, putting) && !wait.pc.Returned?
    requires wait.pc.Unlocking? ==> owned == wait.owner
    requires HoldsCondition(wait.pc) || wait.pc.Entering? || wait.pc.GivingUp? || wait.pc.Failing? ==> !putting
    requires wait.pc.Sleeping? ==> wait.semaphore > 0
    ensures var next := WaitNext(wait, owned, linked, ticket);
            && WaitOk(next, LinkedAfter(linked, wait.pc), putting)
            && next.thread == wait.thread && next.mutex == wait.mutex && next.popped == wait.popped
            && (next.ticket == wait.ticket || wait.pc.Appending?)
  {}

  lemma ListStepOk(list: seq<Wid>, pc: WaitPc, w: Wid)
    requires IsDistinct(list) && (pc.Appending? ==> w !in list)
    ensures var next := ListNext(list, pc, w);
            && IsDistinct(next)
            && (w in next <==> LinkedAfter(w in list, pc))
            && (forall v | v != w :: v in next <==> v in list)
  {
    WithoutDistinct(list, w);
    if pc.Appending? {
      var next := list + [w];
      assert forall i | 0 <= i < |list| :: next[i] in list;
      assert w == next[|list|];
      assert forall v | v in list :: v in next;
    }
  }

  lemma StepKeepsWaits(s: State, w: Wid)
    requires Invariant(s) && Enabled(s, WaitStep(w))
    ensures WaitsOk(Next(s, WaitStep(w))) && IsDistinct(Next(s, WaitStep(w)).list)
  {
    var wait, s' := s.waits[w], Next(s, WaitStep(w));
    assert WaitOk(wait, w in s.list, Pending(s.holder) == Some(w));
    ListStepOk(s.list, wait.pc, w);
    WaitStepOk(wait, Owns(s, wait.thread, wait.mutex), w in s.list, Pending(s.holder) == Some(w), s.nextTicket);
    assert Pending(s'.holder) == Pending(s.holder);
    hide WaitOk, WaitNext, ListNext, HolderNext, OwnersNext, LinkedAfter;
    forall v | 0 <= v < |s'.waits|
      ensures WaitOk(s'.waits[v], v in s'.list, Pending(s'.holder) == Some(v))
    {
      assert WaitOk(s.waits[v], v in s.list, Pending(s.holder) == Some(v));
    }
  }

  lemma StepKeepsHolder(s: State, w: Wid)
    requires Invariant(s) && Enabled(s, WaitStep(w))
    ensures HolderOk(Next(s, WaitStep(w)))
  {
    hide WaitOk, OrderOk, ThreadsOk, ListNext, OwnersNext, KnowsItsWaits;
  }

  /** Where a step of a wait touches the user's mutex. */
  lemma WaitStepThread(wait: Wait, owned: bool, linked: bool, ticket: nat)
    requires !wait.pc.Returned?
    ensures var next := WaitNext(wait, owned, linked, ticket);
            && next.thread == wait.thread && next.mutex == wait.mutex && next.owner == wait.owner
            && (HasReleased(next.pc) ==> HasReleased(wait.pc) || (wait.pc.Unlocking? && owned))
            && (HasNotReleased(next.pc) ==> HasNotReleased(wait.pc) && !(wait.pc.Unlocking? && owned))
            && (wait.pc.Relocking? ==> next.pc.Returned?)
            && (wait.pc.Unlocking? ==> !next.pc.Returned?)
  {}

  lemma StepKeepsThreads(s: State, w: Wid)
    requires Invariant(s) && Enabled(s, WaitStep(w))
    ensures ThreadsOk(Next(s, WaitStep(w)))
  {
    var wait := s.waits[w];
    WaitStepThread(wait, Owns(s, wait.thread, wait.mutex), w in s.list, s.nextTicket);
    hide WaitOk, OrderOk, HolderOk, ListNext, HolderNext, KnowsItsWaits, WaitNext, HasReleased, HasNotReleased;
  }

  lemma AscendingPart(waits: seq<Wait>, wids: seq<Wid>, limit: nat, k: nat)
    requires Ascending(waits, wids, limit) && k < |wids|
    ensures Ascending(waits, wids[..k] + wids[k + 1..], limit)
  {
    var rest := wids[..k] + wids[k + 1..];
    forall i, j | 0 <= i < j < |rest|
      ensures rest[i] < |waits| && rest[j] < |waits| && waits[rest[i]].ticket < waits[rest[j]].ticket
    {
      var i', j' := if i < k then i else i + 1, if j < k then j else j + 1;
      assert rest[i] == wids[i'] && rest[j] == wids[j'];
    }
  }

  lemma AscendingWithout(waits: seq<Wait>, log: seq<Wid>, list: seq<Wid>, limit: nat, w: Wid)
    requires Ascending(waits, log + list, limit) && IsDistinct(list)
    ensures Ascending(waits, log + Without(list, w), limit)
  {
    hide Ascending, Without;
    if w in list {
      var k :| 0 <= k < |list| && list[k] == w;
      WithoutSplit(list, k);
      AscendingPart(waits, log + list, limit, |log| + k);
      assert (log + list)[..|log| + k] + (log + list)[|log| + k + 1..] == log + (list[..k] + list[k + 1..]);
    } else {
      WithoutAbsent(list, w);
    }
  }

  /** Tickets of other waits play no part. */
  lemma AscendingElsewhere(waits: seq<Wait>, waits': seq<Wait>, wids: seq<Wid>, limit: nat, limit': nat)
    requires Ascending(waits, wids, limit) && |waits| <= |waits'| && limit <= limit'
    requires forall w | w in wids && w < |waits| :: waits'[w].ticket == waits[w].ticket
    ensures Ascending(waits', wids, limit')
  {
    assert forall i | 0 <= i < |wids| :: wids[i] in wids;
  }

  lemma AscendingAppended(waits: seq<Wait>, wids: seq<Wid>, limit: nat, w: Wid)
    requires Ascending(waits, wids, limit) && w < |waits| && waits[w].ticket == limit
    ensures Ascending(waits, wids + [w], limit + 1)
  {}

  lemma StepKeepsAscending(s: State, s': State, w: Wid)
    requires OrderOk(s) && w < |s.waits| && !s.waits[w].pc.Returned?
    requires |s'.waits| == |s.waits| && s'.log == s.log && s'.list == ListNext(s.list, s.waits[w].pc, w)
    requires forall v | 0 <= v < |s.waits| && v != w :: s'.waits[v] == s.waits[v]
    requires if s.waits[w].pc.Appending?
             then w !in s.log + s.list && s'.waits[w].ticket == s.nextTicket && s'.nextTicket == s.nextTicket + 1
             else s'.waits[w].ticket == s.waits[w].ticket && s'.nextTicket == s.nextTicket
    ensures Ascending(s'.waits, s'.log + s'.list, s'.nextTicket)
  {
    hide Ascending, Without;
    AscendingElsewhere(s.waits, s'.waits, s.log + s.list, s.nextTicket, s.nextTicket);
    if s.waits[w].pc.Appending? {
      AscendingAppended(s'.waits, s.log + s.list, s.nextTicket, w);
      assert s'.log + s'.list == s.log + s.list + [w];
    } else if s.waits[w].pc.FailRemoving? || s.waits[w].pc.Checking? {
      AscendingWithout(s'.waits, s.log, s.list, s.nextTicket, w);
    }
  }

  lemma StepKeepsOrder(s: State, w: Wid)
    requires Invariant(s) && Enabled(s, WaitStep(w))
    ensures OrderOk(Next(s, WaitStep(w)))
  {
    var wait, s' := s.waits[w], Next(s, WaitStep(w));
    StepKeepsWaits(s, w);
    assert WaitOk(wait, w in s.list, Pending(s.holder) == Some(w));
    WaitStepOk(wait, Owns(s, wait.thread, wait.mutex), w in s.list, Pending(s.holder) == Some(w), s.nextTicket);
    ListStepOk(s.list, wait.pc, w);
    assert wait.pc.Appending? ==> w !in s.log + s.list;
    StepKeepsAscending(s, s', w);
    hide WaitOk, WaitNext, OwnersNext, LinkedAfter, WaitsOk, HolderOk, ThreadsOk;
    hide Ascending, Without, IsDistinct, ListNext;
    assert forall i | 0 <= i < |s.list| :: s.list[i] in s.list;
    assert forall i | 0 <= i < |s'.list| :: s'.list[i] in s'.list;
  }

  /** The part of a step that concerns one wait only: its creation, its giving up. */
  ghost predicate IsQuietChange(s: State, s': State, w: Wid) {
    && w < |s.waits| && |s'.waits| == |s.waits| && s' == s.(waits := s.waits[w := s'.waits[w]])
    && (var wait, next := s.waits[w], s'.waits[w];
        && next == wait.(pc := next.pc)
        && HoldsCondition(next.pc) == HoldsCondition(wait.pc)
        && (!wait.pc.Returned? || next.pc.Returned?)
        && (HasReleased(next.pc) ==> HasReleased(wait.pc))
        && (HasNotReleased(next.pc) ==> HasNotReleased(wait.pc))
        && WaitOk(next, w in s.list, Pending(s.holder) == Some(w)))
  }

  lemma QuietChangeKeeps(s: State, s': State, w: Wid)
    requires Invariant(s) && IsQuietChange(s, s', w)
    ensures Invariant(s')
  {
    hide WaitOk, IsDistinct;
    forall v | 0 <= v < |s'.waits|
      ensures WaitOk(s'.waits[v], v in s'.list, Pending(s'.holder) == Some(v))
    {
      assert WaitOk(s.waits[v], v in s.list, Pending(s.holder) == Some(v));
    }
    assert Ascending(s'.waits, s'.log + s'.list, s'.nextTicket) by {
      AscendingElsewhere(s.waits, s'.waits, s.log + s.list, s.nextTicket, s.nextTicket);
    }
  }

  lemma CallKeeps(s: State, thread: Thread, mutex: UserMutex)
    requires Invariant(s) && Enabled(s, Call(thread, mutex))
    ensures Invariant(Next(s, Call(thread, mutex)))
  {
    hide IsDistinct;
    var s', n := Next(s, Call(thread, mutex)), |s.waits|;
    assert forall w | 0 <= w < n :: s'.waits[w] == s.waits[w];
    assert forall i | 0 <= i < |s.list| :: s.list[i] in s.list;
    assert n !in s.list;
  }

  /** The mutexes of the users change: what a thread does between its waits. */
  lemma LockingKeeps(s: State, step: Step)
    requires Invariant(s) && Enabled(s, step) && (step.Lock? || step.Unlock?)
    ensures Invariant(Next(s, step))
  {
    hide WaitOk, IsDistinct, Ascending;
    var s' := Next(s, step);
    forall w | 0 <= w < |s.waits| && !s.waits[w].pc.Returned?
      ensures Owns(s', s.waits[w].thread, s.waits[w].mutex) == Owns(s, s.waits[w].thread, s.waits[w].mutex)
    {
      assert s.waits[w].thread != step.thread;
    }
  }

  /** A pop moves the first of the list to the end of the log. */
  lemma PopMovesFirst(log: seq<Wid>, list: seq<Wid>)
    requires list != []
    ensures Without(list, list[0]) == list[1..]
    ensures (log + [list[0]]) + list[1..] == log + list
  {}

  lemma InAppended(log: seq<Wid>, w: Wid)
    ensures forall v :: v in log + [w] <==> v in log || v == w
  {
    assert (log + [w])[|log|] == w && (log + [w])[..|log|] == log;
  }

  lemma PoppingKeepsOrder(s: State)
    requires OrderOk(s) && s.holder.Signaller? && s.holder.pc.Popping? && s.list != []
    ensures OrderOk(SignalNext(s))
  {
    var w, s' := s.list[0], SignalNext(s);
    PopMovesFirst(s.log, s.list);
    InAppended(s.log, w);
    WithoutDistinct(s.list, w);
    hide Without, IsDistinct, Ascending;
    AscendingElsewhere(s.waits, s'.waits, s.log + s.list, s.nextTicket, s.nextTicket);
  }

  lemma PoppingKeeps(s: State)
    requires Invariant(s) && s.holder.Signaller? && s.holder.pc.Popping? && s.list != []
    ensures Invariant(SignalNext(s))
  {
    var w, s' := s.list[0], SignalNext(s);
    assert w in s.list;
    PoppingKeepsOrder(s);
    WithoutDistinct(s.list, w);
    hide Without, IsDistinct, Ascending, OrderOk;
    forall v | 0 <= v < |s'.waits|
      ensures WaitOk(s'.waits[v], v in s'.list, Pending(s'.holder) == Some(v))
    {
      assert WaitOk(s.waits[v], v in s.list, false);
    }
  }

  lemma SignallingKeepsOrder(s: State, step: Step)
    requires OrderOk(s) && Enabled(s, step)
    requires step.StartSignal? || (step.SignalStep? && !(s.holder.pc.Popping? && s.list != []))
    ensures OrderOk(Next(s, step))
  {
    hide IsDistinct, Ascending;
    AscendingElsewhere(s.waits, Next(s, step).waits, s.log + s.list, s.nextTicket, s.nextTicket);
  }

  lemma SignallingKeepsWaits(s: State, step: Step)
    requires WaitsOk(s) && Enabled(s, step)
    requires step.StartSignal? || (step.SignalStep? && !(s.holder.pc.Popping? && s.list != []))
    ensures WaitsOk(Next(s, step))
  {
    var s' := Next(s, step);
    forall v | 0 <= v < |s'.waits|
      ensures WaitOk(s'.waits[v], v in s'.list, Pending(s'.holder) == Some(v))
    {
      assert WaitOk(s.waits[v], v in s.list, Pending(s.holder) == Some(v));
    }
  }

  lemma SignallingKeeps(s: State, step: Step)
    requires Invariant(s) && Enabled(s, step)
    requires step.StartSignal? || (step.SignalStep? && !(s.holder.pc.Popping? && s.list != []))
    ensures Invariant(Next(s, step))
  {
    hide OrderOk, WaitOk;
    SignallingKeepsOrder(s, step);
    SignallingKeepsWaits(s, step);
  }

  lemma StepKeeps(s: State, step: Step)
    requires Invariant(s) && Enabled(s, step)
    ensures Invariant(Next(s, step))
  {
    match step {
      case WaitStep(w) =>
        hide WaitsOk, HolderOk, ThreadsOk, OrderOk, Enabled, Next;
        StepKeepsWaits(s, w);
        StepKeepsHolder(s, w);
        StepKeepsThreads(s, w);
        StepKeepsOrder(s, w);
      case Call(thread, mutex) => CallKeeps(s, thread, mutex);
      case SemaphoreFails(w) => QuietChangeKeeps(s, Next(s, step), w);
      case GiveUp(w, status) => QuietChangeKeeps(s, Next(s, step), w);
      case Lock(_, _) => LockingKeeps(s, step);
      case Unlock(_, _) => LockingKeeps(s, step);
      case StartSignal(_) => SignallingKeeps(s, step);
      case SignalStep =>
        if s.holder.pc.Popping? && s.list != [] {
          PoppingKeeps(s);
        } else {
          SignallingKeeps(s, step);
        }
    }
  }

  ghost predicate IsRun(s: State, steps: seq<Step>, s': State)
    decreases |steps|
  {
    if steps == [] then s' == s else Enabled(s, steps[0]) && IsRun(Next(s, steps[0]), steps[1..], s')
  }

  lemma {:induction false} RunKeeps(s: State, steps: seq<Step>, s': State)
    requires Invariant(s) && IsRun(s, steps, s')
    ensures Invariant(s')
    decreases |steps|
  {
    if steps != [] {
      StepKeeps(s, steps[0]);
      RunKeeps(Next(s, steps[0]), steps[1..], s');
    }
  }

  lemma InitialOk()
    ensures Invariant(Initial())
  {}

  lemma Reached(steps: seq<Step>, s: State, w: Wid)
    requires IsRun(Initial(), steps, s) && w < |s.waits|
    ensures Invariant(s) && KnowsItsWaits(s) && WaitOk(s.waits[w], w in s.list, Pending(s.holder) == Some(w))
  {
    InitialOk();
    RunKeeps(Initial(), steps, s);
    hide WaitOk;
  }

  // ----- What every run promises -----

  /** The mutex of the user is released only by a wait that is in the list, and while it is released the wait
      stays in the list until a signal takes it out or the wait itself, having given up, decides. */
  lemma ReleasedOnlyWhileLinked(steps: seq<Step>, s: State, w: Wid)
    requires IsRun(Initial(), steps, s) && w < |s.waits|
    ensures s.waits[w].pc.Unlocking? ==> w in s.list
    ensures HasReleased(s.waits[w].pc) && IsListening(s.waits[w].pc) ==> w in s.list || s.waits[w].popped
    ensures HasReleased(s.waits[w].pc) ==> !Owns(s, s.waits[w].thread, s.waits[w].mutex)
  {
    hide IsRun, WaitsOk, OrderOk;
    Reached(steps, s, w);
  }

  /** A wait whose thread owned the mutex returns 0 exactly when a signal took it out of the list, even when
      it gave up at the same time; once any wait has returned, its record is out of the list and nobody is
      about to put its semaphore. */
  lemma WokenExactlyWhenPopped(steps: seq<Step>, s: State, w: Wid)
    requires IsRun(Initial(), steps, s) && w < |s.waits| && s.waits[w].pc.Returned?
    ensures s.waits[w].owner ==> (s.waits[w].pc.status == Woken <==> s.waits[w].popped)
    ensures s.waits[w].pc.status == NotOwner || s.waits[w].pc.status == NoSemaphore || s.waits[w].owner
    ensures w !in s.list && Pending(s.holder) != Some(w)
  {
    hide IsRun, WaitsOk, OrderOk;
    Reached(steps, s, w);
  }

  // ----- Why a wait returned what it returned -----

  /** The wait has given up and not yet returned, or returned because of it. */
  predicate HasGivenUp(pc: WaitPc, status: Status) {
    (pc.GivingUp? || pc.Checking? || IsDecided(pc)) && pc.status == status
  }

  predicate IsDecided(pc: WaitPc) {
    pc.Decided? || pc.Deleting? || pc.Relocking? || pc.Returned?
  }

  predicate IsGivenUpStatus(status: Status) {
    status == TimedOut || status == Aborted
  }

  /** How the place of a wait goes together with the steps that were taken. */
  ghost predicate Remembers(past: seq<Step>, wait: Wait, w: Wid) {
    var pc := wait.pc;
    && (forall status | IsGivenUpStatus(status) && HasGivenUp(pc, status) :: GiveUp(w, status) in past)
    && (forall status | GiveUp(w, status) in past ::
          IsGivenUpStatus(status) && (HasGivenUp(pc, status) || (IsDecided(pc) && pc.status == Woken && wait.popped)))
    && (IsDecided(pc) && IsGivenUpStatus(pc.status) ==> !wait.popped)
    && !(GiveUp(w, TimedOut) in past && GiveUp(w, Aborted) in past)
    && (SemaphoreFails(w) in past <==> pc == Returned(NoSemaphore))
  }

  ghost predicate RemembersAll(past: seq<Step>, s: State) {
    && (forall w | 0 <= w < |s.waits| :: Remembers(past, s.waits[w], w))
    && (forall step | step in past && (step.GiveUp? || step.SemaphoreFails?) :: step.wid < |s.waits|)
  }

  lemma InOneMore(past: seq<Step>, step: Step)
    ensures forall other :: other in past + [step] <==> other in past || other == step
  {
    assert (past + [step])[|past|] == step && (past + [step])[..|past|] == past;
  }

  lemma WaitStepRemembers(past: seq<Step>, wait: Wait, w: Wid, owned: bool, linked: bool, putting: bool, ticket: nat)
    requires WaitOk(wait, linked, putting) && !wait.pc.Returned? && Remembers(past, wait, w)
    requires wait.pc.Sleeping? ==> wait.semaphore > 0
    requires HoldsCondition(wait.pc) ==> !putting
    ensures Remembers(past, WaitNext(wait, owned, linked, ticket), w)
  {}

  /** A step of somebody else leaves a wait where it is, and marks it as popped only while it listens. */
  lemma OthersKeepPlace(s: State, step: Step, w: Wid)
    requires Invariant(s) && Enabled(s, step) && w < |s.waits|
    requires step != WaitStep(w) && step != SemaphoreFails(w) && !(step.GiveUp? && step.wid == w)
    ensures w < |Next(s, step).waits| && Next(s, step).waits[w].pc == s.waits[w].pc
    ensures Next(s, step).waits[w].popped == s.waits[w].popped || IsListening(s.waits[w].pc)
  {
    assert WaitOk(s.waits[w], w in s.list, Pending(s.holder) == Some(w));
    hide WaitsOk, OrderOk, ThreadsOk, WaitNext, Without;
  }

  lemma StepRemembers(past: seq<Step>, s: State, step: Step, w: Wid)
    requires Invariant(s) && Enabled(s, step) && RemembersAll(past, s) && w < |Next(s, step).waits|
    ensures Remembers(past + [step], Next(s, step).waits[w], w)
  {
    InOneMore(past, step);
    if w < |s.waits| {
      assert WaitOk(s.waits[w], w in s.list, Pending(s.holder) == Some(w));
      if step == WaitStep(w) {
        var wait := s.waits[w];
        WaitStepRemembers(past, wait, w, Owns(s, wait.thread, wait.mutex), w in s.list,
                          Pending(s.holder) == Some(w), s.nextTicket);
        hide Invariant, WaitNext, WaitOk, ListNext, HolderNext, OwnersNext;
      } else if step != SemaphoreFails(w) && !(step.GiveUp? && step.wid == w) {
        OthersKeepPlace(s, step, w);
        hide Invariant, Next, WaitOk, Enabled;
      }
    } else {
      hide Invariant, WaitOk;
    }
  }

  lemma {:induction false} RunRemembers(past: seq<Step>, s: State, steps: seq<Step>, s': State)
    requires Invariant(s) && IsRun(s, steps, s') && RemembersAll(past, s)
    ensures RemembersAll(past + steps, s')
    decreases |steps|
  {
    if steps == [] {
      assert past + steps == past;
    } else {
      var next := Next(s, steps[0]);
      hide Remembers, Next;
      forall w | 0 <= w < |next.waits| ensures Remembers(past + [steps[0]], next.waits[w], w) {
        StepRemembers(past, s, steps[0], w);
      }
      InOneMore(past, steps[0]);
      StepKeeps(s, steps[0]);
      WaitsStay(s, steps[0]);
      RunRemembers(past + [steps[0]], next, steps[1..], s');
      assert past + [steps[0]] + steps[1..] == past + steps;
    }
  }

  lemma WaitsStay(s: State, step: Step)
    requires Enabled(s, step)
    ensures |s.waits| <= |Next(s, step).waits|
  {}

  /** The whole answer of a wait. It returns ETIMEDOUT, or EINVAL for an abort, only if it gave up for that very
      reason and no signal took it out; if it gave up, it returns that reason or, taken out, 0; if it never gave
      up, it returns 0, or EPERM because its thread did not own the mutex, or EAGAIN because the semaphore could
      not be created. */
  lemma ReturnedStatus(steps: seq<Step>, s: State, w: Wid)
    requires IsRun(Initial(), steps, s) && w < |s.waits| && s.waits[w].pc.Returned?
    ensures var wait, status := s.waits[w], s.waits[w].pc.status;
            && (status == TimedOut <==> GiveUp(w, TimedOut) in steps && !wait.popped)
            && (status == Aborted <==> GiveUp(w, Aborted) in steps && !wait.popped)
            && (status == NoSemaphore <==> SemaphoreFails(w) in steps)
            && (status == NotOwner <==> SemaphoreFails(w) !in steps && !wait.owner)
            && (status == Woken <==> SemaphoreFails(w) !in steps && wait.owner && wait.popped)
    ensures !(GiveUp(w, TimedOut) in steps && GiveUp(w, Aborted) in steps)
  {
    hide WaitOk, Remembers, Invariant, KnowsItsWaits, IsRun;
    Reached(steps, s, w);
    RunIsRemembered(steps, s, w);
    RememberedStatus(steps, s.waits[w], w, w in s.list, Pending(s.holder) == Some(w));
  }

  lemma RunIsRemembered(steps: seq<Step>, s: State, w: Wid)
    requires IsRun(Initial(), steps, s) && w < |s.waits|
    ensures Remembers(steps, s.waits[w], w)
  {
    hide Remembers, IsRun, Invariant, Initial;
    NothingToRemember();
    InitialOk();
    RunRemembers([], Initial(), steps, s);
    assert [] + steps == steps;
  }

  lemma NothingToRemember()
    ensures RemembersAll([], Initial())
  {}

  lemma RememberedStatus(past: seq<Step>, wait: Wait, w: Wid, linked: bool, putting: bool)
    requires WaitOk(wait, linked, putting) && Remembers(past, wait, w) && wait.pc.Returned?
    ensures var status := wait.pc.status;
            && (status == TimedOut <==> GiveUp(w, TimedOut) in past && !wait.popped)
            && (status == Aborted <==> GiveUp(w, Aborted) in past && !wait.popped)
            && (status == NoSemaphore <==> SemaphoreFails(w) in past)
            && (status == NotOwner <==> SemaphoreFails(w) !in past && !wait.owner)
            && (status == Woken <==> SemaphoreFails(w) !in past && wait.owner && wait.popped)
    ensures !(GiveUp(w, TimedOut) in past && GiveUp(w, Aborted) in past)
  {
    assert IsGivenUpStatus(wait.pc.status) ==> HasGivenUp(wait.pc, wait.pc.status);
  }

  // ----- How many a signal wakes -----

  /** The signals, not broadcasts, that a run begins. */
  function SignalsBegun(steps: seq<Step>): nat {
    if steps == [] then 0 else (if steps[0] == StartSignal(false) then 1 else 0) + SignalsBegun(steps[1..])
  }

  /** A signal has yet to take somebody out. */
  function ToPop(s: State): nat {
    if s.holder == Signaller(Popping, false) then 1 else 0
  }

  ghost predicate IsBroadcasting(s: State) {
    s.holder.Signaller? && s.holder.broadcast
  }

  /** Without broadcasts no more waiters are woken than signals are begun. */
  lemma {:induction false} SignalsWakeOneEach(s: State, steps: seq<Step>, s': State)
    requires IsRun(s, steps, s') && !IsBroadcasting(s) && StartSignal(true) !in steps
    ensures |s'.log| + ToPop(s') <= |s.log| + ToPop(s) + SignalsBegun(steps)
    decreases |steps|
  {
    if steps != [] {
      assert steps[0] in steps;
      SignalStepPops(s, steps[0]);
      hide Next, Enabled;
      SignalsWakeOneEach(Next(s, steps[0]), steps[1..], s');
    }
  }

  lemma SignalStepPops(s: State, step: Step)
    requires Enabled(s, step) && !IsBroadcasting(s) && step != StartSignal(true)
    ensures !IsBroadcasting(Next(s, step))
    ensures |Next(s, step).log| + ToPop(Next(s, step)) <=
            |s.log| + ToPop(s) + if step == StartSignal(false) then 1 else 0
  {
    hide WaitNext, ListNext, OwnersNext, Without;
  }

  /** And a signal or broadcast that finds somebody in the list takes out the one that has waited longest. */
  lemma SignalTakesTheFirst(s: State)
    requires Enabled(s, SignalStep) && s.holder.pc.Popping? && s.list != []
    ensures Next(s, SignalStep).log == s.log + [s.list[0]]
    ensures Next(s, SignalStep).waits[s.list[0]].popped
    ensures Next(s, SignalStep).holder == Signaller(Putting(s.list[0]), s.holder.broadcast)
  {}

  /** Whatever a wait returns, at that moment its thread owns the mutex exactly if it did when it called. */
  lemma OwnershipIsRestored(steps: seq<Step>, s: State, step: Step, w: Wid)
    requires IsRun(Initial(), steps, s) && Enabled(s, step) && w < |s.waits|
    requires !s.waits[w].pc.Returned? && Next(s, step).waits[w].pc.Returned?
    ensures var wait := Next(s, step).waits[w];
            Owns(Next(s, step), wait.thread, wait.mutex) == wait.owner == s.waits[w].owner
  {
    hide IsRun, WaitsOk, OrderOk;
    Reached(steps, s, w);
    hide KnowsItsWaits, Without;
    assert step == WaitStep(w) || step == SemaphoreFails(w);
  }

  /** The signals take the waiters in the order of their arrival, each once, and nobody overtakes the list. */
  lemma WakeupsAreFifo(steps: seq<Step>, s: State)
    requires IsRun(Initial(), steps, s)
    ensures forall i | 0 <= i < |s.log + s.list| :: (s.log + s.list)[i] < |s.waits|
    ensures forall i, j | 0 <= i < j < |s.log + s.list| ::
              s.waits[(s.log + s.list)[i]].ticket < s.waits[(s.log + s.list)[j]].ticket
    ensures forall w | 0 <= w < |s.waits| :: s.waits[w].popped <==> w in s.log
  {
    RunKeeps(Initial(), steps, s);
  }

  /** A waiter that was taken out is not left asleep: its semaphore has been put, or is being put. */
  lemma PoppedCanWake(steps: seq<Step>, s: State, w: Wid)
    requires IsRun(Initial(), steps, s) && w < |s.waits| && s.waits[w].pc.Sleeping? && s.waits[w].popped
    ensures if Pending(s.holder) == Some(w) then Enabled(s, SignalStep) && Next(s, SignalStep).waits[w].semaphore == 1
            else Enabled(s, WaitStep(w))
    ensures s.waits[w].semaphore <= 1
  {
    hide IsRun, WaitsOk, OrderOk;
    Reached(steps, s, w);
  }

  /** When a broadcast is about to leave, every wait that has released its mutex has been taken out or has
      given up and decided by itself. */
  lemma BroadcastTakesEveryone(steps: seq<Step>, s: State, w: Wid)
    requires IsRun(Initial(), steps, s) && w < |s.waits|
    requires s.holder == Signaller(Popping, true) && Enabled(s, SignalStep)
    requires Next(s, SignalStep).holder == Signaller(Ending, true)
    requires HasReleased(s.waits[w].pc) && IsListening(s.waits[w].pc)
    ensures s.waits[w].popped
  {
    hide IsRun, WaitsOk, OrderOk;
    Reached(steps, s, w);
  }

  // ----- Every wait comes to an end -----

  /** The wait has returned, nobody has signalled it, or a thread keeps the user's mutex. */
  predicate IsHeldUp(s: State, w: Wid)
    requires w < |s.waits|
  {
    || s.waits[w].pc.Returned?
    || (s.waits[w].pc.Sleeping? && w in s.list)
    || (s.waits[w].pc.Relocking? && s.waits[w].mutex in s.owners)
  }

  lemma HeldUp(s: State, w: Wid)
    requires Invariant(s) && w < |s.waits|
    ensures s.holder == NoOne ==> (Enabled(s, WaitStep(w)) <==> !IsHeldUp(s, w))
  {
    assert WaitOk(s.waits[w], w in s.list, Pending(s.holder) == Some(w));
  }

  lemma HolderGoesOn(s: State)
    requires Invariant(s) && s.holder != NoOne
    ensures exists step: Step | step.WaitStep? || step.SignalStep? :: Enabled(s, step)
  {
    assert KnowsItsWaits(s);
    if s.holder.Signaller? {
      assert Enabled(s, SignalStep);
    } else {
      assert HoldsCondition(s.waits[s.holder.wid].pc);
      assert Enabled(s, WaitStep(s.holder.wid));
    }
  }

  /** Waits and signals stand still exactly when each wait has returned, sleeps without having been signalled,
      or is kept from the user's mutex by a thread that has it; a sleeper can still give up. */
  lemma OnlyTheUserHoldsUp(past: seq<Step>, s: State)
    requires IsRun(Initial(), past, s)
    ensures (forall step: Step | step.WaitStep? || step.SignalStep? :: !Enabled(s, step)) <==>
            s.holder == NoOne && forall w | 0 <= w < |s.waits| :: IsHeldUp(s, w)
    ensures forall w | 0 <= w < |s.waits| && s.waits[w].pc.Sleeping? ::
              Enabled(s, GiveUp(w, TimedOut)) && Enabled(s, GiveUp(w, Aborted))
  {
    hide IsRun, Invariant, IsHeldUp, KnowsItsWaits, WaitEnabled, Owns, IsWaiting;
    InitialOk();
    RunKeeps(Initial(), past, s);
    ReferencesAreKnown(s);
    forall w | 0 <= w < |s.waits|
      ensures s.holder == NoOne ==> (Enabled(s, WaitStep(w)) <==> !IsHeldUp(s, w))
    {
      HeldUp(s, w);
    }
    if s.holder != NoOne {
      HolderGoesOn(s);
    }
  }

  lemma ReferencesAreKnown(s: State)
    requires Invariant(s)
    ensures KnowsItsWaits(s)
  {}

  /** The user's mutex is one: a free thread takes it when nobody has it, and gives it back. A wait gives it back
      and takes it again on behalf of its thread, and nothing else changes its owner. */
  lemma OwnerChanges(s: State, step: Step, mutex: UserMutex)
    requires Enabled(s, step)
    ensures var next := Next(s, step);
            && (mutex !in s.owners && mutex in next.owners <==>
                  && mutex !in s.owners
                  && (|| (step.Lock? && step.mutex == mutex)
                      || (step.WaitStep? && s.waits[step.wid].pc.Relocking? && s.waits[step.wid].mutex == mutex)))
            && (mutex in s.owners && mutex !in next.owners <==>
                  && mutex in s.owners
                  && (|| (step == Unlock(s.owners[mutex], mutex))
                      || (&& step.WaitStep? && s.waits[step.wid].pc.Unlocking?
                          && s.waits[step.wid].mutex == mutex && s.waits[step.wid].thread == s.owners[mutex])))
            && (mutex in s.owners && mutex in next.owners ==> next.owners[mutex] == s.owners[mutex])
            && (step.Lock? && step.mutex == mutex ==> next.owners[mutex] == step.thread)
  {
    hide WaitNext, ListNext, HolderNext, Without;
  }

  /** A thread is free for another call when all its waits have returned. */
  lemma FreeThreads(s: State, thread: Thread, mutex: UserMutex)
    requires KnowsItsWaits(s)
    ensures Enabled(s, Call(thread, mutex)) <==>
            forall w | 0 <= w < |s.waits| && s.waits[w].thread == thread :: s.waits[w].pc.Returned?
    ensures mutex !in s.owners ==> (Enabled(s, Lock(thread, mutex)) <==> Enabled(s, Call(thread, mutex)))
    ensures mutex in s.owners && s.owners[mutex] == thread ==>
              (Enabled(s, Unlock(thread, mutex)) <==> Enabled(s, Call(thread, mutex)))
  {}

  /** The steps that a wait can still take, with two more for its place in the list. */
  function Rank(pc: WaitPc): nat {
    match pc
    case Creating => 14
    case Entering => 13
    case Appending => 12
    case Unlocking => 9
    case Leaving(_) => 8
    case Failing => 7
    case FailRemoving => 6
    case FailLeaving => 5
    case Sleeping => 7
    case GivingUp(_) => 6
    case Checking(_) => 5
    case Decided(_) => 4
    case Deleting(_) => 3
    case Relocking(_) => 2
    case Returned(_) => 0
  }

  function Ranks(waits: seq<Wait>): nat {
    if waits == [] then 0 else Ranks(waits[..|waits| - 1]) + Rank(waits[|waits| - 1].pc)
  }

  lemma {:induction false} RanksUpdated(waits: seq<Wait>, w: Wid, wait: Wait)
    requires w < |waits|
    ensures Ranks(waits[w := wait]) == Ranks(waits) - Rank(waits[w].pc) + Rank(wait.pc)
    decreases |waits|
  {
    var n := |waits| - 1;
    if w < n {
      assert waits[w := wait][..n] == waits[..n][w := wait];
      RanksUpdated(waits[..n], w, wait);
    } else {
      assert waits[w := wait][..n] == waits[..n];
    }
  }

  function HolderRank(holder: Holder): nat {
    if !holder.Signaller? then 0
    else
      match holder.pc
      case Popping => 2
      case Putting(_) => 3
      case Ending => 1
  }

  function Work(s: State): nat {
    Ranks(s.waits) + 2 * |s.list| + HolderRank(s.holder)
  }

  /** A step that only the program around the condition decides on. */
  predicate IsUsers(step: Step) {
    step.Lock? || step.Unlock? || step.Call? || step.StartSignal?
  }

  lemma {:induction false} WithoutIsNoLonger(list: seq<Wid>, w: Wid)
    ensures |Without(list, w)| <= |list|
  {
    if list != [] && list[0] != w {
      WithoutIsNoLonger(list[1..], w);
    }
  }

  lemma WaitLeavesLess(wait: Wait, owned: bool, linked: bool, ticket: nat, list: seq<Wid>, w: Wid)
    requires !wait.pc.Returned? && (wait.pc.Sleeping? ==> wait.semaphore > 0)
    ensures Rank(WaitNext(wait, owned, linked, ticket).pc) + 2 * |ListNext(list, wait.pc, w)| <
            Rank(wait.pc) + 2 * |list|
  {
    WithoutIsNoLonger(list, w);
  }

  lemma SignalLeavesLess(s: State)
    requires Enabled(s, SignalStep)
    ensures Work(Next(s, SignalStep)) < Work(s)
  {
    hide Ranks;
    if s.holder.pc.Popping? && s.list != [] {
      RanksUpdated(s.waits, s.list[0], Next(s, SignalStep).waits[s.list[0]]);
    } else if s.holder.pc.Putting? {
      RanksUpdated(s.waits, s.holder.pc.wid, Next(s, SignalStep).waits[s.holder.pc.wid]);
    }
  }

  lemma StepLeavesLess(s: State, step: Step)
    requires Enabled(s, step) && !IsUsers(step)
    ensures Work(Next(s, step)) < Work(s)
  {
    hide Ranks, SignalNext;
    match step {
      case WaitStep(w) =>
        var wait := s.waits[w];
        RanksUpdated(s.waits, w, Next(s, step).waits[w]);
        WaitLeavesLess(wait, Owns(s, wait.thread, wait.mutex), w in s.list, s.nextTicket, s.list, w);
        hide Rank, WaitNext, ListNext, OwnersNext;
      case SemaphoreFails(w) => RanksUpdated(s.waits, w, Next(s, step).waits[w]);
      case GiveUp(w, _) => RanksUpdated(s.waits, w, Next(s, step).waits[w]);
      case SignalStep => SignalLeavesLess(s);
    }
  }

  /** Between two steps of the program around it, a condition takes only so many steps. */
  lemma {:induction false} RunsEnd(s: State, steps: seq<Step>, s': State)
    requires Invariant(s) && IsRun(s, steps, s') && forall i | 0 <= i < |steps| :: !IsUsers(steps[i])
    ensures |steps| + Work(s') <= Work(s)
    decreases |steps|
  {
    if steps != [] {
      StepKeeps(s, steps[0]);
      StepLeavesLess(s, steps[0]);
      hide Invariant, Work, Next, Enabled;
      RunsEnd(Next(s, steps[0]), steps[1..], s');
    }
  }

  lemma {:induction false} RunExtends(s: State, steps: seq<Step>, s': State, step: Step)
    requires IsRun(s, steps, s') && Enabled(s', step)
    ensures IsRun(s, steps + [step], Next(s', step))
    decreases |steps|
  {
    hide Enabled, Next;
    if steps == [] {
      assert (steps + [step])[1..] == [];
    } else {
      assert (steps + [step])[1..] == steps[1..] + [step];
      RunExtends(Next(s, steps[0]), steps[1..], s', step);
    }
  }

  lemma Extended(steps: seq<Step>, s: State, step: Step) returns (steps': seq<Step>, s': State)
    requires IsRun(Initial(), steps, s) && Enabled(s, step)
    ensures IsRun(Initial(), steps', s') && s' == Next(s, step)
  {
    RunExtends(Initial(), steps, s, step);
    steps', s' := steps + [step], Next(s, step);
  }

  /** Ownership is needed: a wait that does not own its mutex fails with EPERM, and a signal that comes
      between its two visits to the list is spent on it. */
  lemma SignalSpentOnFailingWait() returns (steps: seq<Step>, s: State)
    ensures IsRun(Initial(), steps, s) && |s.waits| == 1
    ensures !s.waits[0].owner && s.waits[0].pc == Returned(NotOwner) && s.waits[0].popped
  {
    hide IsRun, Invariant;
    var wait := Wait(0, 0, Failing, 0, false, false, 0);
    steps, s := Failed();
    steps, s := Extended(steps, s, StartSignal(false));
    steps, s := Extended(steps, s, SignalStep);
    steps, s := Extended(steps, s, SignalStep);
    steps, s := Extended(steps, s, SignalStep);
    assert s.waits == [wait.(popped := true, semaphore := 1)] && s.list == [] && s.holder == NoOne;
    steps, s := Extended(steps, s, WaitStep(0));
    steps, s := Extended(steps, s, WaitStep(0));
    steps, s := Extended(steps, s, WaitStep(0));
  }

  lemma Entered() returns (steps: seq<Step>, s: State)
    ensures IsRun(Initial(), steps, s)
    ensures s == State([Wait(0, 0, Appending, 0, false, false, 0)], [], Waiter(0), map[], 0, [])
  {
    steps, s := [], Initial();
    hide IsRun;
    steps, s := Extended(steps, s, Call(0, 0));
    steps, s := Extended(steps, s, WaitStep(0));
    steps, s := Extended(steps, s, WaitStep(0));
  }

  lemma Failed() returns (steps: seq<Step>, s: State)
    ensures IsRun(Initial(), steps, s)
    ensures s == State([Wait(0, 0, Failing, 0, false, false, 0)], [0], NoOne, map[], 1, [])
  {
    hide IsRun;
    steps, s := Entered();
    steps, s := Extended(steps, s, WaitStep(0));
    steps, s := Extended(steps, s, WaitStep(0));
    steps, s := Extended(steps, s, WaitStep(0));
  }
}

/** When a join can never return: threads whose user code joins each other.

    The runtime of module ThreadLifecycle gets stuck only in user code, and user code is held up by the runtime
    only in a join. So everything depends on which thread waits for which. */
module JoinCircles {
  import opened Errors
  import opened ThreadRegistry
  import opened ThreadLifecycle

  /** The user code of thread `a` is in a join of `b` that waits for `b` to complete. */
  ghost predicate WaitsFor(s: State, a: Tid, b: Tid) {
    b < |s.controls| && IsHosted(s.controls[b], Worker(a)) && s.controls[b].caller.JoinWaiting?
  }

  ghost predicate IsLink(s: State, p: seq<Tid>, i: nat)
    requires i + 1 < |p|
  {
    WaitsFor(s, p[i], p[i + 1])
  }

  /** Each thread waits for the next one. */
  ghost predicate IsChain(s: State, p: seq<Tid>) {
    p != [] && forall i | 0 <= i < |p| - 1 :: IsLink(s, p, i)
  }

  /** And the last one for the first. */
  ghost predicate IsCircle(s: State, c: seq<Tid>) {
    IsChain(s, c) && WaitsFor(s, c[|c| - 1], c[0])
  }

  ghost predicate LeadsTo(s: State, t: Tid, u: Tid) {
    exists p :: IsChain(s, p) && p[0] == t && p[|p| - 1] == u
  }

  ghost predicate IsOnCircle(s: State, u: Tid) {
    exists c :: IsCircle(s, c) && u in c
  }

  /** Whoever waits for `t` waits in the end for a circle. */
  ghost predicate MeetsCircle(s: State, t: Tid) {
    exists u :: LeadsTo(s, t, u) && IsOnCircle(s, u)
  }

  /** A thread in user code that no join of its own holds up. */
  ghost predicate CanGoOn(s: State, u: Tid) {
    u < |s.controls| && InUserCode(s.controls[u].worker) && Enabled(s, WorkerStep(u))
  }

  // ----- Circles are for ever -----

  /** Every thread of the set waits for a thread of the set. */
  ghost predicate IsTrap(s: State, trap: set<Tid>) {
    forall a {:trigger WaitsInside(s, trap, a)} | a in trap :: WaitsInside(s, trap, a)
  }

  ghost predicate WaitsInside(s: State, trap: set<Tid>, a: Tid) {
    exists b :: b in trap && WaitsFor(s, a, b)
  }

  lemma WorkerKeepsCall(c: Control, t: Tid, found: Option<Tid>)
    ensures WorkerControl(c, t, found).caller == c.caller && WorkerControl(c, t, found).agent == c.agent
  {}

  /** A call on a handle is changed by its caller only. */
  lemma CallIsKept(s: State, step: Step, t: Tid)
    requires Enabled(s, step) && t < |s.controls|
    requires step != CallerStep(t) && !(step.Claim? && step.tid == t)
    ensures t < |Next(s, step).controls|
    ensures Next(s, step).controls[t].caller == s.controls[t].caller
    ensures Next(s, step).controls[t].agent == s.controls[t].agent
  {
    hide Lookup, KnowsItsThreads, ReaperNext, WorkerControl, WorkerEnabled, CallerEnabled;
    match step {
      case Create =>
      case Claim(_, _, _) =>
      case WorkerStep(u) =>
        WorkerKeepsCall(s.controls[u], u, if s.controls[u].worker.Finding? then Lookup(s, s.controls[u].id) else None);
      case CallerStep(_) =>
      case ReaperStep => ReaperKeepsPlaces(s, t);
    }
  }

  /** A join of a thread that is still in its user code has nothing to take yet. */
  lemma JoinOfUserCodeWaits(s: State, t: Tid)
    requires ControlsOk(s) && t < |s.controls| && s.controls[t].caller.JoinWaiting? && InUserCode(s.controls[t].worker)
    ensures !Enabled(s, CallerStep(t))
  {
    assert ControlOk(s.controls[t], t);
  }

  /** A join of a trapped thread does not move, whatever step the system takes. */
  lemma TrapHolds(s: State, trap: set<Tid>, step: Step, b: Tid)
    requires Invariant(s) && IsTrap(s, trap) && Enabled(s, step)
    requires b in trap && b < |s.controls| && s.controls[b].caller.JoinWaiting?
    ensures b < |Next(s, step).controls|
    ensures Next(s, step).controls[b].caller.JoinWaiting? && Next(s, step).controls[b].agent == s.controls[b].agent
  {
    hide ControlsOk, RegistryOk, QueueOk, ReaperOk, KnowsItsThreads, Next;
    assert WaitsInside(s, trap, b);
    var next :| next in trap && WaitsFor(s, b, next);
    assert InUserCode(s.controls[b].worker);
    JoinOfUserCodeWaits(s, b);
    CallIsKept(s, step, b);
  }

  lemma NextOnCircle(s: State, c: seq<Tid>, a: Tid) returns (b: Tid)
    requires IsCircle(s, c) && a in c
    ensures b in c && WaitsFor(s, a, b)
  {
    var i :| 0 <= i < |c| && c[i] == a;
    if i + 1 < |c| {
      assert IsLink(s, c, i);
      b := c[i + 1];
    } else {
      b := c[0];
    }
  }

  /** A chain that ends on a circle makes a trap together with it. */
  lemma ChainAndCircleTrap(s: State, p: seq<Tid>, c: seq<Tid>)
    requires IsChain(s, p) && IsCircle(s, c) && p[|p| - 1] in c
    ensures IsTrap(s, set x | x in p + c)
  {
    var trap := set x | x in p + c;
    forall a | a in p + c ensures WaitsInside(s, trap, a) {
      if a in c {
        var b := NextOnCircle(s, c, a);
        assert b in trap;
      } else {
        var i :| 0 <= i < |p| && p[i] == a;
        assert IsLink(s, p, i) && p[i + 1] in trap;
      }
    }
  }

  /** A chain that ends on a circle, and the circle, stay as they are. */
  lemma StepKeepsCircle(s: State, p: seq<Tid>, c: seq<Tid>, step: Step)
    requires Invariant(s) && IsChain(s, p) && IsCircle(s, c) && p[|p| - 1] in c && Enabled(s, step)
    ensures IsChain(Next(s, step), p) && IsCircle(Next(s, step), c)
  {
    var trap := set x | x in p + c;
    var s' := Next(s, step);
    ChainAndCircleTrap(s, p, c);
    hide Invariant, Next;
    forall a, b | b in p + c && WaitsFor(s, a, b) ensures WaitsFor(s', a, b) {
      TrapHolds(s, trap, step, b);
    }
    forall i | 0 <= i < |p| - 1 ensures IsLink(s', p, i) {
      assert IsLink(s, p, i) && p[i + 1] in p + c;
    }
    forall i | 0 <= i < |c| - 1 ensures IsLink(s', c, i) {
      assert IsLink(s, c, i) && c[i + 1] in p + c;
    }
    assert c[0] in p + c;
  }

  ghost predicate IsWaitedFor(s: State, t: Tid) {
    t < |s.controls| && s.controls[t].caller.JoinWaiting?
  }

  /** No continuation ever releases a circle, nor a chain that leads to one; and the join of the thread where
      the chain begins never returns. */
  lemma {:induction false} CircleIsForEver(s: State, p: seq<Tid>, c: seq<Tid>, steps: seq<Step>, s': State)
    requires Invariant(s) && IsChain(s, p) && IsCircle(s, c) && p[|p| - 1] in c && IsRun(s, steps, s')
    ensures IsChain(s', p) && IsCircle(s', c)
    ensures IsWaitedFor(s, p[0]) ==> IsWaitedFor(s', p[0])
    decreases |steps|
  {
    if steps != [] {
      var trap := set x | x in p + c;
      ChainAndCircleTrap(s, p, c);
      StepKeepsCircle(s, p, c, steps[0]);
      if IsWaitedFor(s, p[0]) {
        TrapHolds(s, trap, steps[0], p[0]);
      }
      StepKeeps(s, steps[0]);
      CircleIsForEver(Next(s, steps[0]), p, c, steps[1..], s');
    }
  }

  /** From the moment when it meets a circle a join never returns, whatever is done then, new calls included. */
  lemma CaughtJoinNeverReturns(before: seq<Step>, s: State, t: Tid, steps: seq<Step>, s': State)
    requires IsRun(Initial(), before, s) && IsRun(s, steps, s')
    requires t < |s.controls| && s.controls[t].caller.JoinWaiting? && MeetsCircle(s, t)
    ensures MeetsCircle(s', t) && t < |s'.controls| && s'.controls[t].caller.JoinWaiting?
  {
    InitialOk();
    RunKeeps(Initial(), before, s);
    var u :| LeadsTo(s, t, u) && IsOnCircle(s, u);
    var p :| IsChain(s, p) && p[0] == t && p[|p| - 1] == u;
    var c :| IsCircle(s, c) && u in c;
    CircleIsForEver(s, p, c, steps, s');
    assert LeadsTo(s', t, u) && IsOnCircle(s', u);
  }

  // ----- Where a chain ends -----

  /** A thread runs one join or detach at a time. */
  ghost predicate OneCallEach(s: State) {
    forall t, u, a: Tid | 0 <= t < |s.controls| && 0 <= u < |s.controls| && IsHosted(s.controls[t], Worker(a)) &&
                          IsHosted(s.controls[u], Worker(a)) ::
      t == u
  }

  lemma CallerGoesOn(c: Control, t: Tid)
    ensures IsActive(CallerControl(c, t).caller) ==> IsActive(c.caller)
    ensures CallerControl(c, t).agent == c.agent
    ensures CallerControl(c, t).caller.JoinWaiting? ==> c.caller.JoinWaiting?
  {
    match c.caller {
      case JoinWaiting =>
      case _ =>
    }
  }

  /** A call that runs after a step ran before it, unless the step began it. */
  lemma CallsGoOn(s: State, step: Step, t: Tid)
    requires Enabled(s, step) && !step.Claim?
    requires t < |Next(s, step).controls| && IsActive(Next(s, step).controls[t].caller)
    ensures t < |s.controls| && IsActive(s.controls[t].caller)
    ensures Next(s, step).controls[t].agent == s.controls[t].agent
    ensures Next(s, step).controls[t].caller.JoinWaiting? ==> s.controls[t].caller.JoinWaiting?
  {
    assert !IsActive(NewControl(s.nextId).caller);
    hide Lookup, KnowsItsThreads, ReaperNext, WorkerControl, WorkerEnabled, CallerControl, CallerEnabled, IsActive;
    if step.ReaperStep? {
      ReaperKeepsPlaces(s, t);
    } else if step == CallerStep(t) {
      CallerGoesOn(s.controls[t], t);
    } else if t < |s.controls| {
      CallIsKept(s, step, t);
    }
  }

  lemma StepKeepsOneCallEach(s: State, step: Step)
    requires OneCallEach(s) && Enabled(s, step)
    ensures OneCallEach(Next(s, step))
  {
    var s' := Next(s, step);
    forall t, u, a: Tid | 0 <= t < |s'.controls| && 0 <= u < |s'.controls| && IsHosted(s'.controls[t], Worker(a)) &&
                          IsHosted(s'.controls[u], Worker(a))
      ensures t == u
    {
      if step.Claim? {
        assert IsBusy(s, Worker(a)) || (t == step.tid && u == step.tid);
      } else {
        CallsGoOn(s, step, t);
        CallsGoOn(s, step, u);
      }
    }
  }

  lemma {:induction false} RunKeepsOneCallEach(s: State, steps: seq<Step>, s': State)
    requires OneCallEach(s) && IsRun(s, steps, s')
    ensures OneCallEach(s')
    decreases |steps|
  {
    if steps != [] {
      StepKeepsOneCallEach(s, steps[0]);
      RunKeepsOneCallEach(Next(s, steps[0]), steps[1..], s');
    }
  }

  /** As a thread waits for one thread only, a chain that starts in a trap never leaves it. */
  lemma {:induction false} ChainStaysInTrap(s: State, trap: set<Tid>, p: seq<Tid>, k: nat)
    requires OneCallEach(s) && IsTrap(s, trap) && IsChain(s, p) && p[0] in trap && k < |p|
    ensures p[k] in trap
    decreases k
  {
    if k > 0 {
      ChainStaysInTrap(s, trap, p, k - 1);
      assert IsLink(s, p, k - 1);
      assert WaitsInside(s, trap, p[k - 1]);
      var b :| b in trap && WaitsFor(s, p[k - 1], b);
      assert b == p[k];
    }
  }

  lemma TrappedIsBusy(s: State, trap: set<Tid>, u: Tid)
    requires IsTrap(s, trap) && u in trap
    ensures IsBusy(s, Worker(u)) && !CanGoOn(s, u)
  {
    assert WaitsInside(s, trap, u);
    var b :| b in trap && WaitsFor(s, u, b);
    hide KnowsItsThreads;
  }

  /** From a circle no chain comes back to running code. */
  lemma CircleHasNoExit(s: State, t: Tid, u: Tid)
    requires OneCallEach(s) && MeetsCircle(s, t) && LeadsTo(s, t, u)
    ensures !CanGoOn(s, u)
  {
    hide OneCallEach, IsTrap, CanGoOn;
    var v :| LeadsTo(s, t, v) && IsOnCircle(s, v);
    var p :| IsChain(s, p) && p[0] == t && p[|p| - 1] == v;
    var c :| IsCircle(s, c) && v in c;
    var trap := set x | x in p + c;
    ChainAndCircleTrap(s, p, c);
    var q :| IsChain(s, q) && q[0] == t && q[|q| - 1] == u;
    assert t in p + c;
    ChainStaysInTrap(s, trap, q, |q| - 1);
    TrappedIsBusy(s, trap, u);
  }

  /** The rest of a chain that comes back to its place `k` is a circle. */
  lemma ChainCloses(s: State, p: seq<Tid>, k: nat)
    requires IsChain(s, p) && k < |p| && WaitsFor(s, p[|p| - 1], p[k])
    ensures IsCircle(s, p[k..]) && p[|p| - 1] in p[k..]
  {
    var c := p[k..];
    assert c[|c| - 1] == p[|p| - 1];
    forall i | 0 <= i < |c| - 1 ensures IsLink(s, c, i) {
      assert IsLink(s, p, k + i);
    }
  }

  lemma LongerChain(s: State, p: seq<Tid>, v: Tid)
    requires IsChain(s, p) && WaitsFor(s, p[|p| - 1], v)
    ensures IsChain(s, p + [v])
  {
    hide WaitsFor;
    var q := p + [v];
    forall i | 0 <= i < |q| - 1 ensures IsLink(s, q, i) {
      assert i < |p| - 1 ==> IsLink(s, p, i);
    }
  }

  /** In a quiet system a thread in user code is free or waits for another thread in user code. */
  lemma QuietThread(s: State, u: Tid) returns (v: Tid)
    requires Invariant(s) && IsQuiet(s) && u < |s.controls| && InUserCode(s.controls[u].worker)
    ensures CanGoOn(s, u) || (v < |s.controls| && InUserCode(s.controls[v].worker) && WaitsFor(s, u, v))
  {
    InvariantKnows(s);
    hide Invariant, KnowsItsThreads;
    if IsBusy(s, Worker(u)) {
      v :| 0 <= v < |s.controls| && IsHosted(s.controls[v], Worker(u));
      assert WaitsOnlyForUserCode(s.controls[v]);
    } else {
      v := u;
    }
  }

  /** At rest a chain can be followed to running code or into a circle; `left` are the threads not yet on it. */
  lemma {:induction false} ChainOrCircle(s: State, p: seq<Tid>, left: set<Tid>) returns (u: Tid)
    requires Invariant(s) && IsQuiet(s) && IsChain(s, p)
    requires p[|p| - 1] < |s.controls| && InUserCode(s.controls[p[|p| - 1]].worker)
    requires forall v: Tid | v < |s.controls| :: v in left || v in p
    ensures LeadsTo(s, p[0], u) && (CanGoOn(s, u) || IsOnCircle(s, u))
    decreases left
  {
    hide Invariant, IsQuiet, CanGoOn, IsCircle, WaitsFor, IsLink;
    u := p[|p| - 1];
    var v := QuietThread(s, u);
    if !CanGoOn(s, u) {
      if v in p {
        var k :| 0 <= k < |p| && p[k] == v;
        ChainCloses(s, p, k);
      } else {
        LongerChain(s, p, v);
        u := ChainOrCircle(s, p + [v], left - {v});
      }
    }
  }

  ghost function Threads(n: nat): (threads: set<Tid>)
    ensures forall v: Tid :: v in threads <==> v < n
  {
    if n == 0 then {} else Threads(n - 1) + {n - 1}
  }

  lemma FollowChain(s: State, t: Tid) returns (u: Tid)
    requires Invariant(s) && IsQuiet(s) && t < |s.controls| && IsActive(s.controls[t].caller)
    ensures LeadsTo(s, t, u) && (CanGoOn(s, u) || IsOnCircle(s, u))
  {
    assert WaitsOnlyForUserCode(s.controls[t]);
    u := ChainOrCircle(s, [t], Threads(|s.controls|));
  }

  /** In every reachable quiet state the chain of a join that has not returned leads to a thread that can take
      the next step of its own code, exactly when it meets no circle. */
  lemma ChainGoesOnUnlessCircle(steps: seq<Step>, s: State, t: Tid)
    requires IsRun(Initial(), steps, s) && IsQuiet(s) && t < |s.controls| && IsActive(s.controls[t].caller)
    ensures (exists u :: LeadsTo(s, t, u) && CanGoOn(s, u)) <==> !MeetsCircle(s, t)
  {
    InitialOk();
    RunKeeps(Initial(), steps, s);
    RunKeepsOneCallEach(Initial(), steps, s);
    hide Invariant, OneCallEach, IsQuiet, LeadsTo, CanGoOn, IsOnCircle;
    if MeetsCircle(s, t) {
      forall u | LeadsTo(s, t, u) ensures !CanGoOn(s, u) {
        CircleHasNoExit(s, t, u);
      }
    } else {
      var u := FollowChain(s, t);
    }
  }

  // ----- What comes to rest, and which joins have returned then -----

  /** Only a new thread or a new call could still do something. */
  ghost predicate IsAtRest(s: State) {
    forall step: Step | !step.Create? && !step.Claim? :: !Enabled(s, step)
  }

  /** Nothing moves any more exactly when the runtime has nothing to do and every thread that is still in its
      user code is held up there by a join of its own. */
  lemma NothingMovesExactly(steps: seq<Step>, s: State)
    requires IsRun(Initial(), steps, s)
    ensures IsAtRest(s) <==>
            IsQuiet(s) && forall u: Tid | u < |s.controls| && InUserCode(s.controls[u].worker) :: IsBusy(s, Worker(u))
  {
    InitialOk();
    RunKeeps(Initial(), steps, s);
    InvariantKnows(s);
    OnlyUserCodeBlocks(steps, s);
    hide IsQuiet, IsBusy, Invariant, KnowsItsThreads;
    if IsAtRest(s) {
      assert IsStuck(s);
      forall u: Tid | u < |s.controls| && InUserCode(s.controls[u].worker) ensures IsBusy(s, Worker(u)) {
        assert !Enabled(s, WorkerStep(u));
      }
    } else {
      var step: Step :| !step.Create? && !step.Claim? && Enabled(s, step);
      assert !IsRuntimeStep(s, step) || !IsStuck(s);
    }
  }

  predicate IsCallFree(steps: seq<Step>) {
    forall i | 0 <= i < |steps| :: !steps[i].Create? && !steps[i].Claim?
  }

  /** Every state comes to rest if no new calls are made; by RunsEnd it does so under every schedule. */
  lemma {:induction false} ComesToRest(s: State) returns (steps: seq<Step>, s': State)
    ensures IsRun(s, steps, s') && IsCallFree(steps) && IsAtRest(s')
    decreases Measure(s)
  {
    hide Enabled, Next;
    if IsAtRest(s) {
      steps, s' := [], s;
    } else {
      var step: Step :| !step.Create? && !step.Claim? && Enabled(s, step);
      StepDecreases(s, step);
      var rest;
      rest, s' := ComesToRest(Next(s, step));
      steps := [step] + rest;
      assert steps[1..] == rest;
    }
  }

  /** Chains come only from new calls. */
  lemma CirclesComeFromCalls(s: State, step: Step, t: Tid)
    requires Enabled(s, step) && !step.Claim? && MeetsCircle(Next(s, step), t)
    ensures MeetsCircle(s, t)
  {
    var s' := Next(s, step);
    forall a, b | WaitsFor(s', a, b) ensures WaitsFor(s, a, b) {
      CallsGoOn(s, step, b);
    }
    hide Next, WaitsFor;
    var u :| LeadsTo(s', t, u) && IsOnCircle(s', u);
    var p :| IsChain(s', p) && p[0] == t && p[|p| - 1] == u;
    var c :| IsCircle(s', c) && u in c;
    assert IsChain(s, p) by { assert forall i | 0 <= i < |p| - 1 :: IsLink(s', p, i) ==> IsLink(s, p, i); }
    assert IsCircle(s, c) by { assert forall i | 0 <= i < |c| - 1 :: IsLink(s', c, i) ==> IsLink(s, c, i); }
    assert IsOnCircle(s, u) && LeadsTo(s, t, u);
  }

  predicate IsJoin(pc: CallerPc) {
    pc.JoinWaiting? || HasTakenCompletion(pc)
  }

  lemma JoinIsNotRefused(c: Control, t: Tid)
    requires ControlOk(c, t) && IsJoin(c.caller)
    ensures IsJoin(CallerControl(c, t).caller)
  {}

  lemma JoinGoesOn(s: State, step: Step, t: Tid)
    requires Invariant(s) && Enabled(s, step) && t < |s.controls| && IsJoin(s.controls[t].caller)
    ensures t < |Next(s, step).controls| && IsJoin(Next(s, step).controls[t].caller)
  {
    assert ControlOk(s.controls[t], t) && !s.controls[t].caller.Unclaimed?;
    hide Lookup, KnowsItsThreads, RegistryOk, QueueOk, HostsOk, ReaperOk, ControlOk;
    hide ReaperNext, WorkerControl, WorkerEnabled, CallerControl, CallerEnabled, IsJoin;
    if step == CallerStep(t) {
      JoinIsNotRefused(s.controls[t], t);
    } else {
      CallIsKept(s, step, t);
    }
  }

  /** Without new calls, a join that meets no circle has returned when the system has come to rest. */
  lemma {:induction false} JoinReturnsAtRest(s: State, t: Tid, steps: seq<Step>, s': State)
    requires Invariant(s) && t < |s.controls| && IsJoin(s.controls[t].caller) && !MeetsCircle(s, t)
    requires IsRun(s, steps, s') && IsCallFree(steps) && IsAtRest(s')
    ensures t < |s'.controls| && s'.controls[t].caller.Joined?
    decreases |steps|
  {
    hide Invariant, MeetsCircle, Next;
    if steps != [] {
      var step := steps[0];
      JoinGoesOn(s, step, t);
      if MeetsCircle(Next(s, step), t) {
        CirclesComeFromCalls(s, step, t);
      }
      StepKeeps(s, step);
      JoinReturnsAtRest(Next(s, step), t, steps[1..], s');
    } else {
      RestReturnsJoin(s, t);
    }
  }

  lemma RestReturnsJoin(s: State, t: Tid)
    requires Invariant(s) && t < |s.controls| && IsJoin(s.controls[t].caller) && !MeetsCircle(s, t) && IsAtRest(s)
    ensures s.controls[t].caller.Joined?
  {
    RestIsQuiet(s);
    hide Invariant, IsQuiet, LeadsTo, IsOnCircle;
    if IsActive(s.controls[t].caller) {
      var u := FollowChain(s, t);
    }
  }

  lemma RestIsQuiet(s: State)
    requires Invariant(s) && IsAtRest(s)
    ensures IsQuiet(s)
  {
    assert IsStuck(s);
    forall t | 0 <= t < |s.controls| ensures WaitsOnlyForUserCode(s.controls[t]) {
      StuckIsQuiet(s, t);
    }
    if !(s.reaper.Receiving? && s.queue == []) {
      ReaperIsNotBlocked(s);
    }
  }

  /** The exact condition for a join to return: whatever the order of the steps, once the system has come to rest
      without new calls a join has returned if and only if it met no circle when it was waiting. */
  lemma JoinReturnsUnlessCircle(before: seq<Step>, s: State, t: Tid, steps: seq<Step>, s': State)
    requires IsRun(Initial(), before, s) && t < |s.controls| && s.controls[t].caller.JoinWaiting?
    requires IsRun(s, steps, s') && IsCallFree(steps) && IsAtRest(s')
    ensures t < |s'.controls| && (s'.controls[t].caller.Joined? <==> !MeetsCircle(s, t))
  {
    InitialOk();
    RunKeeps(Initial(), before, s);
    if MeetsCircle(s, t) {
      CaughtJoinNeverReturns(before, s, t, steps, s');
    } else {
      JoinReturnsAtRest(s, t, steps, s');
    }
  }

  // ----- Programs that join in an order -----

  /** Nested joins wait in a chain: a thread whose user code runs a join on `t` comes after `t`. */
  ghost predicate IsOrdered(s: State, order: Tid -> nat) {
    forall t, u: Tid | 0 <= t < |s.controls| && WaitsFor(s, u, t) :: order(t) < order(u)
  }

  /** If the joins of a program follow an order, a join that waits in a quiet system waits in the end for a
      thread that is not after it, runs its own code and is not itself blocked. */
  lemma {:induction false} ChainEndsInRunningCode(s: State, order: Tid -> nat, t: Tid) returns (u: Tid)
    requires Invariant(s) && IsQuiet(s) && IsOrdered(s, order)
    requires t < |s.controls| && IsActive(s.controls[t].caller)
    ensures u < |s.controls| && order(u) <= order(t)
    ensures InUserCode(s.controls[u].worker) && Enabled(s, WorkerStep(u))
    decreases order(t)
  {
    InvariantKnows(s);
    assert WaitsOnlyForUserCode(s.controls[t]);
    if IsBusy(s, Worker(t)) {
      var v :| 0 <= v < |s.controls| && IsHosted(s.controls[v], Worker(t));
      assert WaitsOnlyForUserCode(s.controls[v]) && WaitsFor(s, t, v);
      u := ChainEndsInRunningCode(s, order, v);
    } else {
      u := t;
    }
  }

  lemma {:induction false} OrderFallsAlongChain(s: State, order: Tid -> nat, p: seq<Tid>, k: nat)
    requires IsOrdered(s, order) && IsChain(s, p) && k < |p|
    ensures order(p[k]) <= order(p[0])
    decreases k
  {
    if k > 0 {
      assert IsLink(s, p, k - 1);
      OrderFallsAlongChain(s, order, p, k - 1);
    }
  }

  /** Joins that follow an order form no circle. */
  lemma OrderExcludesCircles(s: State, order: Tid -> nat, t: Tid)
    requires IsOrdered(s, order)
    ensures !MeetsCircle(s, t)
  {
    if MeetsCircle(s, t) {
      var u :| LeadsTo(s, t, u) && IsOnCircle(s, u);
      var c :| IsCircle(s, c) && u in c;
      OrderFallsAlongChain(s, order, c, |c| - 1);
    }
  }

  /** A new thread that has returned from its entry. */
  lemma Launched(steps: seq<Step>, s: State) returns (steps': seq<Step>, s': State)
    requires IsRun(Initial(), steps, s) && Invariant(s) && IdIsFree(s) && s.queue == []
    ensures IsRun(Initial(), steps', s') && Invariant(s')
    ensures s'.controls == s.controls + [NewControl(s.nextId).(worker := Callbacks)]
    ensures s'.nextId == NextId(s.nextId) && s'.registry == [|s.controls|] + s.registry
    ensures s'.queue == [] && s'.reaper == s.reaper
  {
    hide ControlsOk, RegistryOk, QueueOk, ReaperOk, HostsOk, Lookup, FlagsOk, SendingOk, MemoryOk, ReaperNext;
    InvariantKnows(s);
    var t := |s.controls|;
    steps', s' := Extended(steps, s, Create);
    InvariantKnows(s');
    WorkerIsFound(s', t);
    steps', s' := Extended(steps', s', WorkerStep(t));
    InvariantKnows(s');
    NewThreadIsNotBusy(s, s');
    steps', s' := Extended(steps', s', WorkerStep(t));
  }

  lemma NewThreadIsNotBusy(s: State, s': State)
    requires HostsOk(s) && |s'.controls| == |s.controls| + 1 && s'.controls[..|s.controls|] == s.controls
    requires s'.controls[|s.controls|].caller.Unclaimed?
    ensures !IsBusy(s', Worker(|s.controls|))
  {
    forall u | 0 <= u < |s'.controls| ensures !IsHosted(s'.controls[u], Worker(|s.controls|)) {
      assert u < |s.controls| ==> s'.controls[u] == s'.controls[..|s.controls|][u];
    }
  }

  /** Circles happen: two threads that join each other in their exit callbacks, both entries having
      returned, leave no step enabled but a new call by some other thread. */
  lemma CircleBlocks() returns (steps: seq<Step>, s: State)
    ensures IsRun(Initial(), steps, s) && |s.controls| == 2
    ensures forall t | 0 <= t < 2 :: s.controls[t].worker.Callbacks? && s.controls[t].caller.JoinWaiting?
    ensures IsAtRest(s) && IsCircle(s, [0, 1]) && MeetsCircle(s, 0)
  {
    InitialOk();
    hide ControlsOk, RegistryOk, QueueOk, ReaperOk, HostsOk, Lookup, FlagsOk, SendingOk, MemoryOk, ReaperNext;
    steps, s := Launched([], Initial());
    steps, s := Launched(steps, s);
    InvariantKnows(s);
    steps, s := Extended(steps, s, Claim(0, Worker(1), true));
    InvariantKnows(s);
    steps, s := Extended(steps, s, Claim(1, Worker(0), true));
    CircleIsStuck(s);
  }

  lemma CircleIsStuck(s: State)
    requires |s.controls| == 2 && s.queue == [] && s.reaper.Receiving?
    requires forall t | 0 <= t < 2 ::
               var c := s.controls[t];
               c.worker.Callbacks? && c.caller.JoinWaiting? && c.completion == 0 && c.agent == Worker(1 - t)
    ensures IsAtRest(s) && IsCircle(s, [0, 1]) && MeetsCircle(s, 0)
  {
    assert IsChain(s, [0]) && IsOnCircle(s, 0) by {
      assert IsLink(s, [0, 1], 0) && IsCircle(s, [0, 1]);
    }
    assert LeadsTo(s, 0, 0) by { assert IsChain(s, [0]) && [0][0] == 0; }
    assert IsHosted(s.controls[0], Worker(1)) && IsHosted(s.controls[1], Worker(0));
  }
}

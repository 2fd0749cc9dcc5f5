/** The system time never goes backwards: publishing a candidate with compare-and-exchange.

    Any number of calls take their steps in any order; each atomic access is one step. */
module PublishedTime {
  type Time = int

  /** `publish_system_time`: about to load; about to compare and exchange; returned. */
  datatype Pc = Loading | Exchanging(previous: Time) | Returned(result: Time)

  /** `earlier` is bookkeeping that no step reads: the calls that had returned before this one began. */
  datatype Call = Call(candidate: Time, pc: Pc, earlier: set<nat>)

  /** `lastTime` is the atomic variable. */
  datatype State = State(lastTime: Time, calls: seq<Call>)

  datatype Step = Begin(candidate: Time) | Take(call: nat, spurious: bool)

  /** The test of the loop, after a load or a failed exchange has given `previous`. */
  function Looked(call: Call, previous: Time): Call {
    call.(pc := if call.candidate > previous then Exchanging(previous) else Returned(previous))
  }

  predicate Enabled(s: State, step: Step) {
    step.Take? ==> step.call < |s.calls| && !s.calls[step.call].pc.Returned?
  }

  /** A weak exchange may fail although the values agree. */
  function Next(s: State, step: Step): State
    requires Enabled(s, step)
  {
    match step
    case Begin(candidate) =>
      s.(calls := s.calls + [Call(candidate, Loading, set i | 0 <= i < |s.calls| && s.calls[i].pc.Returned?)])
    case Take(i, spurious) =>
      var call := s.calls[i];
      if call.pc.Exchanging? && call.pc.previous == s.lastTime && !spurious
      then State(call.candidate, s.calls[i := call.(pc := Returned(call.candidate))])
      else s.(calls := s.calls[i := Looked(call, s.lastTime)])
  }

  function Initial(initial: Time): State {
    State(initial, [])
  }

  ghost predicate IsRun(s: State, steps: seq<Step>, s': State)
    decreases |steps|
  {
    if steps == [] then s' == s else Enabled(s, steps[0]) && IsRun(Next(s, steps[0]), steps[1..], s')
  }

  // ----- What every run keeps -----

  predicate CallOk(s: State, initial: Time, i: nat)
    requires i < |s.calls|
  {
    var call := s.calls[i];
    && (forall e | e in call.earlier :: e < i && s.calls[e].pc.Returned?)
    && match call.pc
       case Loading => true
       case Exchanging(previous) => previous < call.candidate && previous <= s.lastTime && CoversEarlier(s, i, previous)
       case Returned(result) => call.candidate <= result <= s.lastTime && CoversEarlier(s, i, result)
  }

  /** A value is no less than what any call returned that was over before this one began. */
  predicate CoversEarlier(s: State, i: nat, value: Time)
    requires i < |s.calls|
  {
    forall e | e in s.calls[i].earlier && e < |s.calls| && s.calls[e].pc.Returned? :: s.calls[e].pc.result <= value
  }

  /** The published value is the initial one or the largest candidate that won. */
  predicate LastIsReal(s: State, initial: Time) {
    s.lastTime == initial || exists i | 0 <= i < |s.calls| :: s.calls[i].candidate == s.lastTime
  }

  ghost predicate Invariant(s: State, initial: Time) {
    && initial <= s.lastTime && LastIsReal(s, initial)
    && forall i | 0 <= i < |s.calls| :: CallOk(s, initial, i)
  }

  lemma StepKeeps(s: State, initial: Time, step: Step)
    requires Invariant(s, initial) && Enabled(s, step)
    ensures Invariant(Next(s, step), initial)
    ensures s.lastTime <= Next(s, step).lastTime
  {
    var s' := Next(s, step);
    match step {
      case Begin(candidate) =>
        assert forall i | 0 <= i < |s.calls| :: s'.calls[i] == s.calls[i];
        forall i | 0 <= i < |s'.calls| ensures CallOk(s', initial, i) {
          assert i < |s.calls| ==> CallOk(s, initial, i);
        }
      case Take(k, spurious) =>
        assert CallOk(s, initial, k);
        assert forall i | 0 <= i < |s.calls| :: s'.calls[i].candidate == s.calls[i].candidate;
        assert LastIsReal(s', initial);
        forall i | 0 <= i < |s'.calls| ensures CallOk(s', initial, i) {
          assert CallOk(s, initial, i);
          if i == k {
            forall e | e in s.calls[k].earlier ensures s.calls[e].pc.result <= s.lastTime {
              assert CallOk(s, initial, e);
            }
          }
        }
    }
  }

  lemma {:induction false} RunKeeps(s: State, initial: Time, steps: seq<Step>, s': State)
    requires Invariant(s, initial) && IsRun(s, steps, s')
    ensures Invariant(s', initial)
    decreases |steps|
  {
    if steps != [] {
      StepKeeps(s, initial, steps[0]);
      RunKeeps(Next(s, steps[0]), initial, steps[1..], s');
    }
  }

  /** Under every interleaving, a call returns no less than its candidate and no less than any call that had
      returned before it began, and nothing beyond what has been published. */
  lemma TimeNeverGoesBack(initial: Time, steps: seq<Step>, s: State, i: nat, j: nat)
    requires IsRun(Initial(initial), steps, s) && i < |s.calls| && j < |s.calls|
    requires s.calls[i].pc.Returned? && s.calls[j].pc.Returned?
    ensures i in s.calls[j].earlier ==> s.calls[i].pc.result <= s.calls[j].pc.result
    ensures s.calls[j].candidate <= s.calls[j].pc.result <= s.lastTime
    ensures s.lastTime == initial || exists k | 0 <= k < |s.calls| :: s.calls[k].candidate == s.lastTime
  {
    RunKeeps(Initial(initial), initial, steps, s);
    assert CallOk(s, initial, j);
  }

  /** A call that has returned stays as it is, and every call begun after that knows it. */
  lemma {:induction false} ReturnedStays(s: State, steps: seq<Step>, s': State, i: nat, n: nat)
    requires IsRun(s, steps, s') && i < n <= |s.calls| && s.calls[i].pc.Returned?
    requires forall j | n <= j < |s.calls| :: i in s.calls[j].earlier
    ensures |s.calls| <= |s'.calls| && s'.calls[i] == s.calls[i]
    ensures forall j | n <= j < |s'.calls| :: i in s'.calls[j].earlier
    decreases |steps|
  {
    if steps != [] {
      var next := Next(s, steps[0]);
      assert next.calls[i] == s.calls[i];
      ReturnedStays(next, steps[1..], s', i, n);
    }
  }

  /** What users see: a call that begins after another one has returned returns no less. */
  lemma LaterCallsReturnNoLess(initial: Time, before: seq<Step>, s: State, steps: seq<Step>, s': State, i: nat, j: nat)
    requires IsRun(Initial(initial), before, s) && IsRun(s, steps, s')
    requires i < |s.calls| && s.calls[i].pc.Returned?
    requires |s.calls| <= j < |s'.calls| && s'.calls[j].pc.Returned?
    ensures s.calls[i].pc.result <= s'.calls[j].pc.result
    ensures s'.calls[j].pc.result >= s'.calls[j].candidate
  {
    RunKeeps(Initial(initial), initial, before, s);
    RunKeeps(s, initial, steps, s');
    ReturnedStays(s, steps, s', i, |s.calls|);
    assert CallOk(s', initial, j);
  }

  /** An exchange that is not spuriously refused fails only because another call has published meanwhile. */
  lemma FailureMeansProgress(initial: Time, steps: seq<Step>, s: State, k: nat)
    requires IsRun(Initial(initial), steps, s) && k < |s.calls| && s.calls[k].pc.Exchanging?
    ensures Next(s, Take(k, false)).calls[k].pc.Returned? || s.lastTime > s.calls[k].pc.previous
  {
    RunKeeps(Initial(initial), initial, steps, s);
    assert CallOk(s, initial, k);
  }
}

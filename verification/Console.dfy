/** Console input: a ring filled by the UART interrupt, a reader that sleeps on a semaphore of at most one,
    and the translation of line ends. */
module Console {
  import opened Errors

  type byte = x: int | 0 <= x < 0x100

  const SIZE := 256
  const CARRIAGE_RETURN: byte := 13
  const LINE_FEED: byte := 10

  // ----- The ring -----

  function After(index: nat): (next: nat)
    ensures next < SIZE
  {
    (index + 1) % SIZE
  }

  /** The place of the `k`th byte from the read index. */
  function Place(read: nat, k: nat): (place: nat)
    ensures place < SIZE
  {
    (read + k) % SIZE
  }

  function Count(read: nat, write: nat): (count: nat)
    requires read < SIZE && write < SIZE
    ensures count < SIZE && (count == 0 <==> read == write)
    ensures count == SIZE - 1 <==> After(write) == read
  {
    if write >= read then write - read else write + SIZE - read
  }

  /** The bytes from the read index to the write index, around the end. */
  function Ring(buffer: seq<byte>, read: nat, write: nat): (bytes: seq<byte>)
    requires |buffer| == SIZE && read < SIZE && write < SIZE
    ensures |bytes| == Count(read, write)
    ensures forall k | 0 <= k < |bytes| :: bytes[k] == buffer[Place(read, k)]
  {
    seq(Count(read, write), k requires 0 <= k < Count(read, write) => buffer[Place(read, k)])
  }

  lemma RingPush(buffer: seq<byte>, read: nat, write: nat, c: byte)
    requires |buffer| == SIZE && read < SIZE && write < SIZE && After(write) != read
    ensures Ring(buffer[write := c], read, write) == Ring(buffer, read, write)
    ensures buffer[write] == c ==> Ring(buffer, read, After(write)) == Ring(buffer, read, write) + [c]
  {
    assert Count(read, After(write)) == Count(read, write) + 1;
    assert forall k | 0 <= k < Count(read, write) :: Place(read, k) != write;
    assert Place(read, Count(read, write)) == write;
  }

  lemma PlaceFromNext(read: nat, k: nat)
    requires read < SIZE
    ensures Place(After(read), k) == Place(read, k + 1)
  {}

  lemma RingPop(buffer: seq<byte>, read: nat, write: nat)
    requires |buffer| == SIZE && read < SIZE && write < SIZE && read != write
    ensures Ring(buffer, read, write) == [buffer[read]] + Ring(buffer, After(read), write)
  {
    assert Count(After(read), write) == Count(read, write) - 1;
    assert Place(read, 0) == read;
    var rest := Ring(buffer, After(read), write);
    forall k | 0 <= k < |rest|
      ensures rest[k] == Ring(buffer, read, write)[k + 1]
    {
      PlaceFromNext(read, k);
    }
    hide Place, After, Count;
  }

  class ConsoleRing {
    const buffer: array<byte>
    var read: nat
    var write: nat

    ghost predicate Valid()
      reads this, buffer
    {
      buffer.Length == SIZE && read < SIZE && write < SIZE
    }

    ghost function Contents(): seq<byte>
      reads this, buffer
      requires Valid()
    {
      Ring(buffer[..], read, write)
    }

    constructor ()
      ensures Valid() && Contents() == [] && fresh(buffer)
    {
      buffer := new byte[SIZE](_ => 0);
      read, write := 0, 0;
    }

    /** `pop_console_character`: the oldest byte, if there is one. */
    method Pop() returns (character: Option<byte>)
      requires Valid()
      modifies `read
      ensures Valid()
      ensures if old(Contents()) == [] then character == None && Contents() == []
              else character == Some(old(Contents())[0]) && Contents() == old(Contents())[1..]
    {
      if read == write {
        return None;
      }
      RingPop(buffer[..], read, write);
      character := Some(buffer[read]);
      read := After(read);
    }

    /** What the interrupt does with one byte: a full ring, of 255 bytes, drops it. */
    method Push(character: byte) returns (accepted: bool)
      requires Valid()
      modifies `write, buffer
      ensures Valid() && (accepted <==> |old(Contents())| < 255)
      ensures Contents() == if accepted then old(Contents()) + [character] else old(Contents())
    {
      var next := After(write);
      if next == read {
        return false;
      }
      RingPush(buffer[..], read, write, character);
      RingPush(buffer[..][write := character], read, write, character);
      buffer[write] := character;
      assert buffer[..] == old(buffer[..])[write := character];
      write := next;
      accepted := true;
    }
  }

  // ----- Line ends -----

  /** Each CR LF and each CR alone becomes one LF; everything else is kept. */
  function Text(raw: seq<byte>): seq<byte> {
    if raw == [] then []
    else if raw[0] == CARRIAGE_RETURN then
      [LINE_FEED] + Text(if |raw| > 1 && raw[1] == LINE_FEED then raw[2..] else raw[1..])
    else [raw[0]] + Text(raw[1..])
  }

  predicate EndsWithReturn(raw: seq<byte>) {
    raw != [] && raw[|raw| - 1] == CARRIAGE_RETURN
  }

  /** The line feed after a carriage return adds nothing; any other byte adds one byte of text at once. */
  lemma {:induction false} TextAppended(raw: seq<byte>, c: byte)
    ensures Text(raw + [c]) ==
            if EndsWithReturn(raw) && c == LINE_FEED then Text(raw)
            else Text(raw) + [if c == CARRIAGE_RETURN then LINE_FEED else c]
    decreases |raw|
  {
    var all := raw + [c];
    if raw == [] {
      assert all == [c] && all[1..] == [];
    } else if raw[0] == CARRIAGE_RETURN && |raw| > 1 && raw[1] == LINE_FEED {
      assert all[2..] == raw[2..] + [c];
      TextAppended(raw[2..], c);
    } else if raw[0] == CARRIAGE_RETURN && |raw| == 1 {
      assert raw[1..] == [] && all[1..] == [c] && [c][1..] == [];
      assert all[2..] == [];
    } else {
      assert all[1..] == raw[1..] + [c];
      TextAppended(raw[1..], c);
    }
  }

  /** No carriage return (13) is left, input without any is kept as it is, and a pair gives one line feed (10). */
  lemma {:induction false} TextHasNoReturns(raw: seq<byte>)
    ensures 13 !in Text(raw)
    ensures 13 !in raw ==> Text(raw) == raw
    ensures Text([13, 10] + raw) == [10] + Text(raw)
    decreases |raw|
  {
    assert ([13, 10] + raw)[2..] == raw;
    if raw != [] {
      TextHasNoReturns(raw[1..]);
      if raw[0] == CARRIAGE_RETURN && |raw| > 1 && raw[1] == LINE_FEED {
        TextHasNoReturns(raw[2..]);
      }
      assert [raw[0]] + raw[1..] == raw;
    }
  }

  /** `read_console_character`, called until the raw input is used up. The line feed of a pair is dropped only
      when it arrives, so no character is held back to wait for it. */
  method ReadCharacters(raw: seq<byte>) returns (text: seq<byte>)
    ensures text == Text(raw)
  {
    text := [];
    var discardLineFeed := false;
    for i := 0 to |raw|
      invariant text == Text(raw[..i]) && discardLineFeed == EndsWithReturn(raw[..i])
    {
      var character := raw[i];
      TextAppended(raw[..i], character);
      assert raw[..i + 1] == raw[..i] + [character];
      if discardLineFeed {
        discardLineFeed := false;
        if character == LINE_FEED {
          continue;
        }
      }
      if character == CARRIAGE_RETURN {
        discardLineFeed := true;
        text := text + [LINE_FEED];
      } else {
        text := text + [character];
      }
    }
    assert raw[..|raw|] == raw;
  }

  // ----- Interrupt and reader -----

  /** `USART3_IRQHandler`. */
  datatype InterruptPc =
    | Inactive | Draining(notify: bool) | Checking(character: byte, notify: bool) | Storing(character: byte)
    | Publishing(character: byte)

  /** `receive_console_character` and `read_console_character`, serialized by the mutex of the readers. */
  datatype ReaderPc = Popping | Copying | Advancing(character: byte) | Waiting | Translating(character: byte)

  /** `accepted`, `consumed` and `text` are bookkeeping: the bytes stored in the ring, the bytes taken out and
      translated, and what the callers were given. */
  datatype State = State(buffer: seq<byte>, read: nat, write: nat, semaphore: nat, discard: bool,
                         interrupt: InterruptPc, reader: ReaderPc,
                         accepted: seq<byte>, consumed: seq<byte>, text: seq<byte>)

  datatype Step = Raise | Arrive(character: byte) | LineIdle | InterruptStep | Leave | ReaderStep

  function Initial(): State {
    State(seq(SIZE, _ => 0), 0, 0, 0, false, Inactive, Popping, [], [], [])
  }

  predicate InBounds(s: State) {
    |s.buffer| == SIZE && s.read < SIZE && s.write < SIZE
  }

  /** A blocked reader has no step; the ceiling of the semaphore is one. */
  predicate Enabled(s: State, step: Step) {
    && InBounds(s)
    && match step
       case Raise => s.interrupt.Inactive?
       case Arrive(_) => s.interrupt.Draining?
       case LineIdle => s.interrupt.Draining?
       case InterruptStep => s.interrupt.Checking? || s.interrupt.Storing? || s.interrupt.Publishing?
       case Leave => s.interrupt.Draining?
       case ReaderStep => s.reader.Waiting? ==> s.semaphore > 0
  }

  function InterruptNext(s: State): State
    requires InBounds(s) && Enabled(s, InterruptStep)
  {
    match s.interrupt
    case Checking(c, notify) => s.(interrupt := if After(s.write) != s.read then Storing(c) else Draining(true))
    case Storing(c) => s.(interrupt := Publishing(c), buffer := s.buffer[s.write := c])
    case Publishing(c) => s.(interrupt := Draining(true), write := After(s.write), accepted := s.accepted + [c])
  }

  function ReaderNext(s: State): State
    requires InBounds(s) && Enabled(s, ReaderStep)
  {
    match s.reader
    case Popping => s.(reader := if s.read == s.write then Waiting else Copying)
    case Copying => s.(reader := Advancing(s.buffer[s.read]))
    case Advancing(c) => s.(reader := Translating(c), read := After(s.read))
    case Waiting => s.(reader := Popping, semaphore := s.semaphore - 1)
    case Translating(c) =>
      var next := s.(reader := Popping, consumed := s.consumed + [c]);
      if s.discard && c == LINE_FEED then next.(discard := false)
      else if c == CARRIAGE_RETURN then next.(discard := true, text := s.text + [LINE_FEED])
      else next.(discard := false, text := s.text + [c])
  }

  function Next(s: State, step: Step): State
    requires Enabled(s, step)
  {
    match step
    case Raise => s.(interrupt := Draining(false))
    case Arrive(c) => s.(interrupt := Checking(c, s.interrupt.notify))
    case LineIdle => s.(interrupt := Draining(true))
    case InterruptStep => InterruptNext(s)
    case Leave => s.(interrupt := Inactive, semaphore := if s.interrupt.notify then 1 else s.semaphore)
    case ReaderStep => ReaderNext(s)
  }

  ghost predicate IsRun(s: State, steps: seq<Step>, s': State)
    decreases |steps|
  {
    if steps == [] then s' == s else Enabled(s, steps[0]) && IsRun(Next(s, steps[0]), steps[1..], s')
  }

  /** The byte that has left the ring and is not yet translated. */
  function InHand(pc: ReaderPc): seq<byte> {
    if pc.Translating? then [pc.character] else []
  }

  /** The interrupt will put the semaphore before it ends. */
  predicate WillNotify(pc: InterruptPc) {
    (pc.Draining? && pc.notify) || (pc.Checking? && pc.notify)
  }

  ghost predicate Invariant(s: State) {
    && InBounds(s) && s.semaphore <= 1
    && s.accepted == s.consumed + InHand(s.reader) + Ring(s.buffer, s.read, s.write)
    && s.text == Text(s.consumed) && s.discard == EndsWithReturn(s.consumed)
    && (s.reader.Copying? || s.reader.Advancing? ==> s.read != s.write)
    && (s.reader.Advancing? ==> s.reader.character == s.buffer[s.read])
    && (s.interrupt.Storing? || s.interrupt.Publishing? ==> After(s.write) != s.read)
    && (s.interrupt.Publishing? ==> s.buffer[s.write] == s.interrupt.character)
    && (s.reader.Waiting? && s.read != s.write ==>
          s.semaphore == 1 || WillNotify(s.interrupt) || s.interrupt.Storing? || s.interrupt.Publishing?)
  }

  lemma InterruptStepKeeps(s: State)
    requires Invariant(s) && Enabled(s, InterruptStep)
    ensures Invariant(Next(s, InterruptStep))
  {
    if s.interrupt.Storing? || s.interrupt.Publishing? {
      RingPush(s.buffer, s.read, s.write, s.interrupt.character);
    }
    hide Ring, Text;
    if s.interrupt.Publishing? {
      var before := s.consumed + InHand(s.reader);
      var ring, c := Ring(s.buffer, s.read, s.write), s.interrupt.character;
      assert before + (ring + [c]) == before + ring + [c];
    }
  }

  lemma AdvancingKeeps(s: State)
    requires Invariant(s) && s.reader.Advancing?
    ensures Invariant(Next(s, ReaderStep))
  {
    RingPop(s.buffer, s.read, s.write);
    var c, rest := s.reader.character, Ring(s.buffer, After(s.read), s.write);
    hide Ring, Text;
    assert s.consumed + [] == s.consumed && s.consumed + ([c] + rest) == s.consumed + [c] + rest;
  }

  lemma TranslatingKeeps(s: State)
    requires Invariant(s) && s.reader.Translating?
    ensures Invariant(Next(s, ReaderStep))
  {
    var c := s.reader.character;
    TextAppended(s.consumed, c);
    hide Ring, Text, After;
    assert s.consumed + [c] + [] == s.consumed + [c] && (s.consumed + [c])[|s.consumed|] == c;
  }

  lemma ReaderStepKeeps(s: State)
    requires Invariant(s) && Enabled(s, ReaderStep)
    ensures Invariant(Next(s, ReaderStep))
  {
    if s.reader.Advancing? {
      AdvancingKeeps(s);
    } else if s.reader.Translating? {
      TranslatingKeeps(s);
    } else {
      hide Ring, Text, After;
    }
  }

  lemma StepKeeps(s: State, step: Step)
    requires Invariant(s) && Enabled(s, step)
    ensures Invariant(Next(s, step))
  {
    if step.InterruptStep? {
      InterruptStepKeeps(s);
    } else if step.ReaderStep? {
      ReaderStepKeeps(s);
    }
  }

  lemma {:induction false} RunKeeps(s: State, steps: seq<Step>, s': State)
    requires Invariant(s) && IsRun(s, steps, s')
    ensures Invariant(s')
    decreases |steps|
  {
    if steps != [] {
      StepKeeps(s, steps[0]);
      RunKeeps(Next(s, steps[0]), steps[1..], s');
    }
  }

  /** In every run the bytes that the ring accepted come out once and in order: translated, in the hand of the
      reader, or still in the ring. The text given out is theirs with the line ends turned into LF. */
  lemma NothingIsLostOrRepeated(steps: seq<Step>, s: State)
    requires IsRun(Initial(), steps, s)
    ensures InBounds(s)
    ensures s.accepted == s.consumed + InHand(s.reader) + Ring(s.buffer, s.read, s.write)
    ensures s.text == Text(s.consumed)
  {
    InitialOk();
    RunKeeps(Initial(), steps, s);
  }

  lemma InitialOk()
    ensures Invariant(Initial())
  {}

  /** No wakeup is lost: while no interrupt is running, a reader that is blocked means an empty ring. */
  lemma BlockedMeansEmpty(steps: seq<Step>, s: State)
    requires IsRun(Initial(), steps, s) && s.interrupt.Inactive?
    requires s.reader.Waiting? && !Enabled(s, ReaderStep)
    ensures s.read == s.write && s.accepted == s.consumed
  {
    InitialOk();
    RunKeeps(Initial(), steps, s);
  }

  /** A byte is dropped only when 255 bytes wait, and everything else is accepted. */
  lemma OnlyAFullRingDrops(steps: seq<Step>, s: State)
    requires IsRun(Initial(), steps, s) && s.interrupt.Checking?
    ensures InBounds(s)
    ensures Next(s, InterruptStep).interrupt.Storing? <==> |Ring(s.buffer, s.read, s.write)| < 255
  {
    InitialOk();
    RunKeeps(Initial(), steps, s);
  }

  // ----- From the line to the ring -----

  /** The bytes that the line delivered, in order. */
  function Arrivals(steps: seq<Step>): seq<byte> {
    if steps == [] then [] else (if steps[0].Arrive? then [steps[0].character] else []) + Arrivals(steps[1..])
  }

  /** A byte that has arrived is looked at once: was there room for it in the ring? */
  function VerdictOf(s: State, step: Step): seq<bool>
    requires Enabled(s, step)
  {
    if step.InterruptStep? && s.interrupt.Checking? then [|Ring(s.buffer, s.read, s.write)| < 255] else []
  }

  ghost function Verdicts(s: State, steps: seq<Step>, s': State): seq<bool>
    requires IsRun(s, steps, s')
    decreases |steps|
  {
    if steps == [] then [] else VerdictOf(s, steps[0]) + Verdicts(Next(s, steps[0]), steps[1..], s')
  }

  /** The bytes for which there was room. */
  function Kept(bytes: seq<byte>, verdicts: seq<bool>): seq<byte>
    requires |verdicts| <= |bytes|
    decreases |verdicts|
  {
    if verdicts == [] then [] else
      var n := |verdicts| - 1;
      Kept(bytes, verdicts[..n]) + if verdicts[n] then [bytes[n]] else []
  }

  lemma {:induction false} KeptOfMore(bytes: seq<byte>, verdicts: seq<bool>, c: byte)
    requires |verdicts| <= |bytes|
    ensures Kept(bytes + [c], verdicts) == Kept(bytes, verdicts)
    decreases |verdicts|
  {
    if verdicts != [] {
      KeptOfMore(bytes, verdicts[..|verdicts| - 1], c);
    }
  }

  /** The byte on its way from the check into the ring. */
  function OnItsWay(pc: InterruptPc): seq<byte> {
    if pc.Storing? || pc.Publishing? then [pc.character] else []
  }

  ghost predicate Tracks(arrived: seq<byte>, verdicts: seq<bool>, s: State) {
    && |arrived| == |verdicts| + (if s.interrupt.Checking? then 1 else 0)
    && (s.interrupt.Checking? ==> arrived[|verdicts|] == s.interrupt.character)
    && Kept(arrived, verdicts) == s.accepted + OnItsWay(s.interrupt)
  }

  lemma StepTracks(arrived: seq<byte>, verdicts: seq<bool>, s: State, step: Step)
    requires InBounds(s) && Enabled(s, step) && Tracks(arrived, verdicts, s)
    ensures Tracks(arrived + (if step.Arrive? then [step.character] else []), verdicts + VerdictOf(s, step),
                   Next(s, step))
  {
    assert arrived + [] == arrived && verdicts + [] == verdicts;
    if step.Arrive? {
      KeptOfMore(arrived, verdicts, step.character);
    } else if step.InterruptStep? && s.interrupt.Checking? {
      var verdict := |Ring(s.buffer, s.read, s.write)| < 255;
      assert (verdicts + [verdict])[..|verdicts|] == verdicts;
      assert s.accepted + [] == s.accepted;
    } else if s.interrupt.Publishing? && step.InterruptStep? {
      assert s.accepted + [s.interrupt.character] + [] == s.accepted + [s.interrupt.character];
    }
  }

  lemma {:induction false} RunTracks(arrived: seq<byte>, verdicts: seq<bool>, s: State, steps: seq<Step>, s': State)
    requires Invariant(s) && IsRun(s, steps, s') && Tracks(arrived, verdicts, s)
    ensures Tracks(arrived + Arrivals(steps), verdicts + Verdicts(s, steps, s'), s')
    decreases |steps|
  {
    hide Tracks, VerdictOf, Next, Invariant;
    assert arrived + [] == arrived && verdicts + [] == verdicts;
    if steps != [] {
      var step, next := steps[0], Next(s, steps[0]);
      var byte := if step.Arrive? then [step.character] else [];
      assert InBounds(s);
      StepTracks(arrived, verdicts, s, step);
      StepKeeps(s, step);
      RunTracks(arrived + byte, verdicts + VerdictOf(s, step), next, steps[1..], s');
      assert arrived + byte + Arrivals(steps[1..]) == arrived + (byte + Arrivals(steps[1..]));
      assert verdicts + VerdictOf(s, step) + Verdicts(next, steps[1..], s') ==
             verdicts + (VerdictOf(s, step) + Verdicts(next, steps[1..], s'));
    }
  }

  /** What the ring accepted is what arrived on the line, in order, without the bytes that found 255 waiting; at
      most one byte is still being looked at or stored. */
  lemma AcceptedIsWhatArrived(steps: seq<Step>, s: State)
    requires IsRun(Initial(), steps, s)
    ensures var arrived, verdicts := Arrivals(steps), Verdicts(Initial(), steps, s);
            && |verdicts| <= |arrived| <= |verdicts| + 1
            && Kept(arrived, verdicts) == s.accepted + OnItsWay(s.interrupt)
            && (s.interrupt.Inactive? ==> |arrived| == |verdicts| && Kept(arrived, verdicts) == s.accepted)
  {
    InitialOk();
    RunTracks([], [], Initial(), steps, s);
    assert [] + Arrivals(steps) == Arrivals(steps);
    assert [] + Verdicts(Initial(), steps, s) == Verdicts(Initial(), steps, s);
    assert s.accepted + [] == s.accepted;
  }

  // ----- Both come to an end -----

  lemma ThreeSteps(s: State)
    requires InBounds(s) && s.interrupt.Checking? && After(s.write) != s.read
    ensures var c := s.interrupt.character;
            IsRun(s, [InterruptStep, InterruptStep, InterruptStep],
                  s.(interrupt := Draining(true), buffer := s.buffer[s.write := c], write := After(s.write),
                     accepted := s.accepted + [c]))
  {
    hide After;
    var storing := InterruptNext(s);
    var publishing := InterruptNext(storing);
    var done := InterruptNext(publishing);
    assert IsRun(done, [], done);
    assert IsRun(publishing, [InterruptStep], done);
    assert [InterruptStep, InterruptStep][1..] == [InterruptStep];
    assert IsRun(storing, [InterruptStep, InterruptStep], done);
    assert [InterruptStep, InterruptStep, InterruptStep][1..] == [InterruptStep, InterruptStep];
  }

  /** How an interrupt deals with one byte: three steps store it behind the waiting ones, or one drops it, and
      either way it will wake the reader. */
  lemma ByteIsStored(s: State) returns (s': State)
    requires Invariant(s) && s.interrupt.Checking?
    ensures InBounds(s') && s'.interrupt == Draining(true) && s'.reader == s.reader
    ensures var ring, c := Ring(s.buffer, s.read, s.write), s.interrupt.character;
            if |ring| < 255 then
              && IsRun(s, [InterruptStep, InterruptStep, InterruptStep], s')
              && Ring(s'.buffer, s'.read, s'.write) == ring + [c] && s'.accepted == s.accepted + [c]
            else IsRun(s, [InterruptStep], s') && s' == s.(interrupt := Draining(true))
  {
    if |Ring(s.buffer, s.read, s.write)| < 255 {
      var c := s.interrupt.character;
      ThreeSteps(s);
      RingPush(s.buffer, s.read, s.write, c);
      RingPush(s.buffer[s.write := c], s.read, s.write, c);
      assert s.buffer[s.write := c][s.write := c] == s.buffer[s.write := c];
      hide Ring, After, IsRun, Invariant;
      return s.(interrupt := Draining(true), buffer := s.buffer[s.write := c], write := After(s.write),
                accepted := s.accepted + [c]);
    }
    s' := InterruptNext(s);
    assert IsRun(s', [], s');
  }

  /** An interrupt that finds neither a byte nor an idle line leaves everything as it was. */
  lemma EmptyInterrupt(s: State)
    requires Invariant(s) && s.interrupt.Inactive?
    ensures IsRun(s, [Raise, Leave], s)
  {
    var raised := Next(s, Raise);
    assert Next(raised, Leave) == s && IsRun(raised, [Leave], s);
  }

  /** A bound on the steps that the reader takes without an interrupt. */
  function StepsLeft(s: State): nat
    requires InBounds(s)
  {
    5 * Count(s.read, s.write) + 4 * s.semaphore +
    match s.reader
    case Waiting => 0
    case Advancing(_) => 1
    case Copying => 2
    case Popping => 3
    case Translating(_) => 4
  }

  lemma FewerStepsLeft(s: State)
    requires Invariant(s) && Enabled(s, ReaderStep)
    ensures InBounds(ReaderNext(s)) && StepsLeft(ReaderNext(s)) < StepsLeft(s)
    ensures ReaderNext(s).interrupt == s.interrupt && ReaderNext(s).accepted == s.accepted
  {
    if s.reader.Advancing? {
      RingPop(s.buffer, s.read, s.write);
    }
  }

  lemma ReadersRun(s: State, rest: seq<Step>, s': State)
    requires Enabled(s, ReaderStep) && IsRun(ReaderNext(s), rest, s')
    ensures IsRun(s, [ReaderStep] + rest, s')
  {
    assert ([ReaderStep] + rest)[1..] == rest;
  }

  lemma {:induction false} ReaderGoesOn(s: State) returns (steps: seq<Step>, s': State)
    requires Invariant(s) && s.interrupt.Inactive?
    ensures IsRun(s, steps, s') && forall i | 0 <= i < |steps| :: steps[i] == ReaderStep
    ensures Invariant(s') && s'.interrupt.Inactive? && s'.reader.Waiting? && s'.semaphore == 0
    ensures s'.accepted == s.accepted
    decreases StepsLeft(s)
  {
    if !Enabled(s, ReaderStep) {
      return [], s;
    }
    StepKeeps(s, ReaderStep);
    FewerStepsLeft(s);
    hide Invariant, StepsLeft, IsRun, Enabled, ReaderNext;
    var rest;
    rest, s' := ReaderGoesOn(ReaderNext(s));
    ReadersRun(s, rest, s');
    steps := [ReaderStep] + rest;
  }

  /** Left alone, the reader goes on to the last accepted byte: whoever reads is given all of the input. */
  lemma ReaderCatchesUp(past: seq<Step>, s: State) returns (steps: seq<Step>, s': State)
    requires IsRun(Initial(), past, s) && s.interrupt.Inactive?
    ensures IsRun(s, steps, s') && forall i | 0 <= i < |steps| :: steps[i] == ReaderStep
    ensures !Enabled(s', ReaderStep) && s'.consumed == s.accepted
    ensures s'.text == Text(s.accepted)
  {
    InitialOk();
    RunKeeps(Initial(), past, s);
    steps, s' := ReaderGoesOn(s);
    assert s'.consumed + [] + [] == s'.consumed;
  }
}

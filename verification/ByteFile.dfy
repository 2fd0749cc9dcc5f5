/** Reading, writing, seeking and truncating through one descriptor.

    FileX clamps a seek to the end of the file and has no sparse files, so the adapter keeps the POSIX
    offset beside the FileX offset and writes the zeroes of a gap only when a write needs them.
    The calls of FileX succeed here; what an error leaves behind is not part of this model. */
module ByteFile {
  import opened Errors

  type byte = bv8

  function Min(a: nat, b: nat): nat {
    if a < b then a else b
  }

  // ----- The POSIX byte file (IEEE Std 1003.1-2017, System Interfaces, chapter 3) -----

  datatype Posix = Posix(contents: seq<byte>, offset: nat, append: bool, readable: bool, writable: bool)

  datatype Origin = FromStart | FromCurrent | FromEnd | Unknown

  datatype Operation =
    | Read(length: int)
    | Write(data: seq<byte>)
    | Seek(delta: int, origin: Origin)
    | Truncate(size: int)

  datatype Outcome = Bytes(bytes: seq<byte>) | Count(count: nat) | Position(position: nat) | Failed(error: Errno)

  function PosixRead(file: Posix, length: nat): (Posix, seq<byte>) {
    if file.offset >= |file.contents| then (file, [])
    else
      var end := Min(file.offset + length, |file.contents|);
      (file.(offset := end), file.contents[file.offset..end])
  }

  /** Where a write puts its first byte. */
  function WritePlace(file: Posix): nat {
    if file.append then |file.contents| else file.offset
  }

  /** Byte by byte: the data where it is written, zeroes in a gap, everything else as it was. */
  function PosixWrite(file: Posix, data: seq<byte>): Posix {
    if data == [] then file else
      var at := WritePlace(file);
      var size := if at + |data| > |file.contents| then at + |data| else |file.contents|;
      file.(offset := at + |data|,
            contents := seq(size, i requires 0 <= i < size =>
                          if at <= i < at + |data| then data[i - at]
                          else if i < |file.contents| then file.contents[i] else 0))
  }

  function PosixTruncate(file: Posix, size: nat): Posix {
    file.(contents := seq(size, i requires 0 <= i < size => if i < |file.contents| then file.contents[i] else 0))
  }

  function Base(file: Posix, origin: Origin): nat {
    match origin
    case FromStart => 0
    case FromCurrent => file.offset
    case FromEnd => |file.contents|
    case Unknown => 0
  }

  /** The values of `off_t`. */
  predicate IsOffset(delta: int, maximum: nat) {
    0 - maximum - 1 <= delta <= maximum
  }

  /** `lseek` succeeds when base and target are representable offsets. */
  function PosixSeek(file: Posix, delta: int, origin: Origin, maximum: nat): Result<nat> {
    var base := Base(file, origin);
    if origin == Unknown then Failure(EINVAL)
    else if base > maximum || base + delta > maximum then Failure(EOVERFLOW)
    else if base + delta < 0 then Failure(EINVAL)
    else Success(base + delta)
  }

  /** What forbids an operation, apart from the offset that a seek ends at. */
  function PosixError(file: Posix, operation: Operation): Errno {
    match operation
    case Read(length) => if length < 0 then EINVAL else if !file.readable then EBADF else OK
    case Write(_) => if !file.writable then EBADF else OK
    case Truncate(size) => if size < 0 then EINVAL else if !file.writable then EBADF else OK
    case Seek(_, _) => OK
  }

  function PosixStep(file: Posix, operation: Operation, maximum: nat): (Posix, Outcome) {
    if PosixError(file, operation) != OK then (file, Failed(PosixError(file, operation)))
    else
      match operation
      case Read(length) => var (next, bytes) := PosixRead(file, length); (next, Bytes(bytes))
      case Write(data) => (PosixWrite(file, data), Count(|data|))
      case Truncate(size) => (PosixTruncate(file, size), Count(0))
      case Seek(delta, origin) =>
        match PosixSeek(file, delta, origin, maximum)
        case Success(position) => (file.(offset := position), Position(position))
        case Failure(error) => (file, Failed(error))
  }

  function PosixRun(file: Posix, operations: seq<Operation>, maximum: nat): (Posix, seq<Outcome>) {
    if operations == [] then (file, []) else
      var (middle, outcomes) := PosixRun(file, operations[..|operations| - 1], maximum);
      var (last, outcome) := PosixStep(middle, operations[|operations| - 1], maximum);
      (last, outcomes + [outcome])
  }

  // ----- What a POSIX file promises -----

  /** The outcome of an operation that finds nothing to read. */
  function NothingRead(file: Posix, operation: Operation): Outcome {
    if PosixError(file, operation) == OK then Bytes([]) else Failed(PosixError(file, operation))
  }

  /** A seek past the end persists: whatever is read there gives nothing and keeps the offset. */
  lemma {:induction false} SeekPastEndPersists(file: Posix, target: nat, rest: seq<Operation>, maximum: nat)
    requires |file.contents| <= target <= maximum
    requires forall i | 0 <= i < |rest| :: rest[i].Read?
    ensures PosixRun(file, [Seek(target, FromStart)] + rest, maximum) ==
            (file.(offset := target),
             [Position(target)] + seq(|rest|, i requires 0 <= i < |rest| => NothingRead(file, rest[i])))
    decreases |rest|
  {
    var all := [Seek(target, FromStart)] + rest;
    if rest == [] {
      assert all == [Seek(target, FromStart)] && all[..0] == [] && PosixRun(file, all[..0], maximum) == (file, []);
      assert [Position(target)] + seq(|rest|, i requires 0 <= i < |rest| => NothingRead(file, rest[i])) ==
             [Position(target)] == [] + [Position(target)];
    } else {
      var fewer := rest[..|rest| - 1];
      SeekPastEndPersists(file, target, fewer, maximum);
      assert all[..|all| - 1] == [Seek(target, FromStart)] + fewer && all[|all| - 1] == rest[|rest| - 1];
      assert [Position(target)] + seq(|fewer|, i requires 0 <= i < |fewer| => NothingRead(file, fewer[i]))
             + [NothingRead(file, rest[|rest| - 1])] ==
             [Position(target)] + seq(|rest|, i requires 0 <= i < |rest| => NothingRead(file, rest[i]));
    }
  }

  /** A seek ends at the start, at the present offset or at the end of the file, plus `delta`. It fails with
      EOVERFLOW exactly above the largest offset and with EINVAL exactly below 0, and then changes nothing. */
  lemma SeekEndsAt(file: Posix, delta: int, origin: Origin, maximum: nat)
    requires file.offset <= maximum && |file.contents| <= maximum
    ensures var (next, outcome) := PosixStep(file, Seek(delta, origin), maximum);
            && (origin == FromStart ==> outcome == SeekOutcome(delta, maximum))
            && (origin == FromCurrent ==> outcome == SeekOutcome(file.offset + delta, maximum))
            && (origin == FromEnd ==> outcome == SeekOutcome(|file.contents| + delta, maximum))
            && (origin == Unknown ==> outcome == Failed(EINVAL))
            && next == if outcome.Position? then file.(offset := outcome.position) else file
  {}

  function SeekOutcome(target: int, maximum: nat): Outcome {
    if target > maximum then Failed(EOVERFLOW) else if target < 0 then Failed(EINVAL) else Position(target)
  }

  lemma RunOfTwo(file: Posix, first: Operation, second: Operation, maximum: nat)
    ensures var (middle, outcome) := PosixStep(file, first, maximum);
            PosixRun(file, [first, second], maximum) ==
            (PosixStep(middle, second, maximum).0, [outcome, PosixStep(middle, second, maximum).1])
  {
    var one, both := [first], [first, second];
    var (middle, outcome) := PosixStep(file, first, maximum);
    assert both[..1] == one && one[..0] == [] && PosixRun(file, one[..0], maximum) == (file, []);
    assert [] + [outcome] == [outcome];
    assert PosixRun(file, one, maximum) == (middle, [outcome]);
    assert [outcome] + [PosixStep(middle, second, maximum).1] == [outcome, PosixStep(middle, second, maximum).1];
  }

  /** A position is where later relative seeks start from, and the end is found wherever the offset is. */
  lemma SeeksAddUp(file: Posix, position: nat, delta: int, maximum: nat)
    requires position <= maximum && |file.contents| <= maximum
    ensures 0 <= position + delta <= maximum ==>
              PosixRun(file, [Seek(position, FromStart), Seek(delta, FromCurrent)], maximum) ==
              (file.(offset := position + delta), [Position(position), Position(position + delta)])
    ensures 0 <= |file.contents| + delta <= maximum ==>
              PosixRun(file, [Seek(position, FromStart), Seek(delta, FromEnd)], maximum) ==
              (file.(offset := |file.contents| + delta), [Position(position), Position(|file.contents| + delta)])
  {
    RunOfTwo(file, Seek(position, FromStart), Seek(delta, FromCurrent), maximum);
    RunOfTwo(file, Seek(position, FromStart), Seek(delta, FromEnd), maximum);
  }

  /** A read gives the bytes at the offset, as many as were asked for unless the file ends before, and moves the
      offset behind them. */
  lemma ReadGivesBytes(file: Posix, length: nat, maximum: nat)
    requires file.readable
    ensures var (next, outcome) := PosixStep(file, Read(length), maximum);
            && outcome.Bytes? && next == file.(offset := file.offset + |outcome.bytes|)
            && (forall i | 0 <= i < |outcome.bytes| ::
                  file.offset + i < |file.contents| && outcome.bytes[i] == file.contents[file.offset + i])
            && |outcome.bytes| <= length
            && (|outcome.bytes| < length ==> file.offset + |outcome.bytes| >= |file.contents|)
  {}

  /** A read in two parts gives what one read gives. */
  lemma ReadsJoin(file: Posix, a: nat, b: nat)
    ensures var (middle, first) := PosixRead(file, a);
            var (last, second) := PosixRead(middle, b);
            PosixRead(file, a + b) == (last, first + second)
  {
    var (middle, first) := PosixRead(file, a);
    var second := PosixRead(middle, b).1;
    assert second == [] ==> first + second == first;
    if file.offset < |file.contents| {
      var middle, end := Min(file.offset + a, |file.contents|), Min(file.offset + a + b, |file.contents|);
      assert file.contents[file.offset..middle] + file.contents[middle..end] == file.contents[file.offset..end];
    }
  }

  /** A write changes nothing but its own place, zero-filled up to there, and leaves the offset behind it. */
  lemma WriteKeepsTheRest(file: Posix, data: seq<byte>)
    requires data != []
    ensures var at := if file.append then |file.contents| else file.offset;
            var next := PosixWrite(file, data);
            && next == file.(contents := next.contents, offset := at + |data|)
            && (|next.contents| == |file.contents| || |next.contents| == at + |data| > |file.contents|)
            && at + |data| <= |next.contents|
            && (forall i | 0 <= i < |next.contents| && !(at <= i < at + |data|) ::
                  next.contents[i] == if i < |file.contents| then file.contents[i] else 0)
  {}

  /** The errors of the calls apart from seeks: a negative size first, then a descriptor opened for something
      else, even if there is nothing to read or write. */
  lemma RefusalsMean(file: Posix, operation: Operation, maximum: nat)
    ensures var (next, outcome) := PosixStep(file, operation, maximum);
            && (operation.Read? ==>
                  (outcome == Failed(EINVAL) <==> operation.length < 0) &&
                  (outcome == Failed(EBADF) <==> operation.length >= 0 && !file.readable))
            && (operation.Write? ==> outcome == if file.writable then Count(|operation.data|) else Failed(EBADF))
            && (operation.Truncate? ==>
                  outcome == if operation.size < 0 then Failed(EINVAL)
                             else if file.writable then Count(0) else Failed(EBADF))
            && (outcome.Failed? ==> next == file)
  {}

  /** After a write behind the end, the gap reads back as zeroes and the data as written. */
  lemma GapReadsZeroes(file: Posix, data: seq<byte>)
    requires !file.append && data != [] && |file.contents| <= file.offset
    ensures var written := PosixWrite(file, data);
            var gap := file.offset - |file.contents|;
            var reread := PosixRead(written.(offset := |file.contents|), gap + |data|);
            && reread.1 == seq(gap, _ => 0) + data
            && written.contents[..|file.contents|] == file.contents
            && reread.0 == written
  {}

  /** What was written is read back, whatever was there before. */
  lemma WrittenIsRead(file: Posix, data: seq<byte>)
    ensures var written := PosixWrite(file, data);
            PosixRead(written.(offset := WritePlace(file)), |data|).1 == data
  {}

  /** Truncation keeps the offset and the common prefix; what it adds is zero; it undoes an extension. */
  lemma TruncationKeepsPrefix(file: Posix, size: nat)
    ensures var cut := PosixTruncate(file, size);
            && cut.offset == file.offset && |cut.contents| == size
            && cut.contents[..Min(size, |file.contents|)] == file.contents[..Min(size, |file.contents|)]
            && (forall i | |file.contents| <= i < size :: cut.contents[i] == 0)
            && (size >= |file.contents| ==> PosixTruncate(cut, |file.contents|) == file)
  {
    var cut := PosixTruncate(file, size);
    if size >= |file.contents| {
      assert PosixTruncate(cut, |file.contents|).contents == file.contents;
    }
  }

  /** Filling up to the place and writing there gives, byte by byte, what a POSIX write gives. */
  lemma FilledAndWritten(file: Posix, data: seq<byte>, filled: seq<byte>)
    requires data != []
    requires var at := WritePlace(file);
             filled == file.contents + seq(if at <= |file.contents| then 0 else at - |file.contents|, _ => 0)
    ensures var at := WritePlace(file);
            PosixWrite(file, data).contents == filled[..at] + data + filled[Min(at + |data|, |filled|)..]
  {}

  // ----- The FileX file -----

  class FxFile {
    var contents: seq<byte>
    var offset: nat

    ghost predicate Valid()
      reads this
    {
      offset <= |contents|
    }

    constructor (contents: seq<byte>)
      ensures Valid() && this.contents == contents
    {
      this.contents, offset := contents, 0;
    }

    /** `fx_file_extended_seek` stops at the end of the file. */
    method Seek(target: nat)
      modifies `offset
      ensures Valid() && offset == Min(target, |contents|)
    {
      offset := Min(target, |contents|);
    }

    method Read(length: nat) returns (bytes: seq<byte>)
      requires Valid()
      modifies `offset
      ensures Valid() && offset == Min(old(offset) + length, |contents|)
      ensures bytes == contents[old(offset)..offset]
    {
      var end := Min(offset + length, |contents|);
      bytes := contents[offset..end];
      offset := end;
    }

    method Write(data: seq<byte>)
      requires Valid()
      modifies this
      ensures Valid() && offset == old(offset) + |data|
      ensures contents == old(contents)[..old(offset)] + data + old(contents)[Min(offset, |old(contents)|)..]
    {
      contents := contents[..offset] + data + contents[Min(offset + |data|, |contents|)..];
      offset := offset + |data|;
    }

    /** `fx_file_extended_truncate_release`. */
    method Truncate(size: nat)
      requires Valid() && size <= |contents|
      modifies this
      ensures Valid() && contents == old(contents)[..size]
    {
      contents := contents[..size];
      offset := Min(offset, size);
    }
  }

  // ----- The adapter -----

  const SECTOR_SIZE := 512

  datatype Mode = Reading | Writing

  /** One allocated descriptor. `maximum` is the largest value of `off_t`. */
  class Descriptor {
    const file: FxFile
    const readable: bool
    const writable: bool
    const append: bool
    const maximum: nat
    var position: nat
    var mode: Mode

    ghost predicate Valid()
      reads this, file
    {
      file.Valid()
    }

    /** The POSIX file that the descriptor presents: FileX's offset plays no part in it. */
    ghost function View(): Posix
      reads this, file
    {
      Posix(file.contents, position, append, readable, writable)
    }

    /** The end of `_open`: an appending descriptor starts at the end, and a writer may empty the file. */
    constructor (file: FxFile, readable: bool, writable: bool, append: bool, truncate: bool, maximum: nat)
      requires file.Valid() && (readable || writable)
      modifies file
      ensures Valid() && this.file == file && this.readable == readable && this.writable == writable
      ensures this.maximum == maximum && mode == if writable then Writing else Reading
      ensures file.contents == if writable && truncate then [] else old(file.contents)
      ensures View() == Posix(file.contents, if append then |file.contents| else 0, append, readable, writable)
    {
      this.file, this.readable, this.writable, this.append, this.maximum := file, readable, writable, append, maximum;
      position := if append then |file.contents| else 0;
      mode := if writable then Writing else Reading;
      new;
      if writable && truncate {
        file.Truncate(0);
        position := 0;
      }
    }

    /** `switch_mode`: the file is reopened and FileX's own offset is set from the position. */
    method SwitchMode(requested: Mode)
      requires Valid()
      modifies `mode, file`offset
      ensures Valid() && View() == old(View()) && mode == requested
    {
      if mode != requested {
        mode := requested;
        file.Seek(position);
      }
    }

    /** `extend_with_zeroes`: at most one sector of zeroes at a time, up to `size`. */
    method ExtendWithZeroes(size: nat)
      requires Valid()
      modifies file
      ensures Valid()
      ensures var missing := if size <= |old(file.contents)| then 0 else size - |old(file.contents)|;
              file.contents == old(file.contents) + seq(missing, _ => 0)
    {
      if size <= |file.contents| {
        return;
      }
      file.Seek(|file.contents|);
      while |file.contents| < size
        invariant Valid() && file.offset == |file.contents| && |old(file.contents)| <= |file.contents| <= size
        invariant file.contents == old(file.contents) + seq(|file.contents| - |old(file.contents)|, _ => 0)
        decreases size - |file.contents|
      {
        var chunk := Min(size - |file.contents|, SECTOR_SIZE);
        file.Write(seq(chunk, _ => 0));
      }
    }

    /** `_read` with a valid buffer. */
    method Read(length: int) returns (error: Errno, bytes: seq<byte>)
      requires Valid()
      modifies `position, `mode, file`offset
      ensures Valid()
      ensures error == PosixError(old(View()), Operation.Read(length))
      ensures error != OK ==> View() == old(View()) && bytes == []
      ensures error == OK ==> (View(), bytes) == PosixRead(old(View()), length)
    {
      bytes := [];
      if length < 0 {
        return EINVAL, [];
      }
      if !readable {
        return EBADF, [];
      }
      error := OK;
      if length == 0 {
        if position < |file.contents| {
          assert file.contents[position..position] == [];
        }
        return;
      }
      SwitchMode(Reading);
      if position >= |file.contents| {
        // Reading at the end must not replace a seek past it with FileX's clamped offset.
        return;
      }
      file.Seek(position);
      bytes := file.Read(length);
      position := file.offset;
    }

    /** `_write` with a valid buffer. */
    method Write(data: seq<byte>) returns (error: Errno)
      requires Valid()
      modifies `position, `mode, file
      ensures Valid()
      ensures error == PosixError(old(View()), Operation.Write(data))
      ensures View() == if error == OK then PosixWrite(old(View()), data) else old(View())
    {
      if !writable {
        return EBADF;
      }
      error := OK;
      if data == [] {
        return;
      }
      SwitchMode(Writing);
      if append {
        position := |file.contents|;
      }
      ExtendWithZeroes(position);
      FilledAndWritten(old(View()), data, file.contents);
      file.Seek(position);
      file.Write(data);
      position := file.offset;
    }

    /** `_lseek`, with the overflow tests of the code. */
    method Lseek(delta: int, origin: Origin) returns (result: Result<nat>)
      requires Valid() && IsOffset(delta, maximum)
      modifies `position, file`offset
      ensures Valid()
      ensures result == PosixSeek(old(View()), delta, origin, maximum)
      ensures View() == if result.Success? then old(View()).(offset := result.value) else old(View())
    {
      var base;
      match origin {
        case FromStart => base := 0;
        case FromCurrent => base := position;
        case FromEnd => base := |file.contents|;
        case Unknown => return Failure(EINVAL);
      }
      if base > maximum {
        return Failure(EOVERFLOW);
      }
      var target;
      if delta >= 0 {
        if delta > maximum - base {
          return Failure(EOVERFLOW);
        }
        target := base + delta;
      } else {
        var magnitude := -(delta + 1) + 1;
        if magnitude > base {
          return Failure(EINVAL);
        }
        target := base - magnitude;
      }
      file.Seek(target);
      position := target;
      return Success(target);
    }

    /** `_ftruncate`. */
    method Ftruncate(size: int) returns (error: Errno)
      requires Valid()
      modifies `mode, file
      ensures Valid()
      ensures error == PosixError(old(View()), Truncate(size))
      ensures View() == if error == OK then PosixTruncate(old(View()), size) else old(View())
    {
      if size < 0 {
        return EINVAL;
      }
      if !writable {
        return EBADF;
      }
      SwitchMode(Writing);
      if size < |file.contents| {
        file.Truncate(size);
      } else if size > |file.contents| {
        ExtendWithZeroes(size);
      }
      assert file.contents == PosixTruncate(old(View()), size).contents;
      file.Seek(position);
      return OK;
    }

    /** One call through the descriptor. */
    method Perform(operation: Operation) returns (outcome: Outcome)
      requires Valid()
      requires operation.Seek? ==> IsOffset(operation.delta, maximum)
      modifies `position, `mode, file
      ensures Valid() && (View(), outcome) == PosixStep(old(View()), operation, maximum)
    {
      match operation {
        case Read(length) =>
          var error, bytes := Read(length);
          outcome := if error == OK then Bytes(bytes) else Failed(error);
        case Write(data) =>
          var error := Write(data);
          outcome := if error == OK then Count(|data|) else Failed(error);
        case Seek(delta, origin) =>
          var result := Lseek(delta, origin);
          match result {
            case Success(position) => outcome := Position(position);
            case Failure(error) => outcome := Failed(error);
          }
        case Truncate(size) =>
          var error := Ftruncate(size);
          outcome := if error == OK then Count(0) else Failed(error);
      }
    }

    /** Any sequence of calls has the outcomes, and leaves the file, that a POSIX byte file would. */
    method Run(operations: seq<Operation>) returns (outcomes: seq<Outcome>)
      requires Valid()
      requires forall i | 0 <= i < |operations| && operations[i].Seek? :: IsOffset(operations[i].delta, maximum)
      modifies `position, `mode, file
      ensures Valid() && (View(), outcomes) == PosixRun(old(View()), operations, maximum)
    {
      outcomes := [];
      for n := 0 to |operations|
        invariant Valid()
        invariant (View(), outcomes) == PosixRun(old(View()), operations[..n], maximum)
      {
        var outcome := Perform(operations[n]);
        outcomes := outcomes + [outcome];
        assert operations[..n + 1][..n] == operations[..n];
      }
      assert operations[..|operations|] == operations;
    }
  }
}

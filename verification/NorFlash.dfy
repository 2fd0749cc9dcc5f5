/** The NOR flash: the page-program loop for the real device, and the image file that stands in for it.

    The device can only clear bits, and what it programs wraps inside a page of 256 bytes. */
module NorFlash {
  type byte = bv8

  const FLASH_BYTES := 0x100_0000
  const ERASE_BLOCK_BYTES := 4096
  const FLASH_BLOCKS := FLASH_BYTES / ERASE_BLOCK_BYTES
  const PAGE := 256
  const VERIFY_BYTES := 512

  function Min(a: nat, b: nat): nat {
    if a < b then a else b
  }

  // ----- Images -----

  /** Old AND data on the range, old elsewhere. */
  function Programmed(image: seq<byte>, offset: nat, data: seq<byte>): (after: seq<byte>)
    ensures |after| == |image|
  {
    seq(|image|, i requires 0 <= i < |image| =>
      if offset <= i < offset + |data| then image[i] & data[i - offset] else image[i])
  }

  /** Data on the range, old elsewhere. */
  function Overwritten(image: seq<byte>, offset: nat, data: seq<byte>): (after: seq<byte>)
    ensures |after| == |image|
  {
    seq(|image|, i requires 0 <= i < |image| => if offset <= i < offset + |data| then data[i - offset] else image[i])
  }

  function Erased(image: seq<byte>, offset: nat): (after: seq<byte>)
    ensures |after| == |image|
  {
    seq(|image|, i requires 0 <= i < |image| => if offset <= i < offset + ERASE_BLOCK_BYTES then 0xFF else image[i])
  }

  /** The effect of one page-program command: the address counts up inside its page and wraps there. */
  function PageProgrammed(image: seq<byte>, address: nat, data: seq<byte>): (after: seq<byte>)
    ensures |after| == |image|
  {
    seq(|image|, i requires 0 <= i < |image| =>
      if i / PAGE == address / PAGE && (i - address) % PAGE < |data| then image[i] & data[(i - address) % PAGE]
      else image[i])
  }

  /** The data asks for no bit to be set that is clear. */
  ghost predicate OnlyClears(image: seq<byte>, offset: nat, data: seq<byte>) {
    offset + |data| <= |image| && AreSubsets(data, image[offset..offset + |data|])
  }

  /** Bit by bit, `input` is part of `current`. */
  ghost predicate AreSubsets(input: seq<byte>, current: seq<byte>) {
    |current| == |input| && forall k | 0 <= k < |input| :: current[k] & input[k] == input[k]
  }

  predicate IsSet(b: byte, bit: nat)
    requires bit < 8
  {
    b & (1 << bit) != 0
  }

  /** Programming clears the bits that are clear in the data, and no other bit anywhere; it sets none. */
  lemma ProgrammingClearsBits(image: seq<byte>, offset: nat, data: seq<byte>, i: nat, bit: nat)
    requires i < |image| && bit < 8
    ensures IsSet(Programmed(image, offset, data)[i], bit) <==>
            IsSet(image[i], bit) && !(offset <= i < offset + |data| && !IsSet(data[i - offset], bit))
  {
    if offset <= i < offset + |data| {
      AndOfBits(image[i], data[i - offset], bit);
    }
  }

  lemma AndOfBits(a: byte, b: byte, bit: nat)
    requires bit < 8
    ensures IsSet(a & b, bit) <==> IsSet(a, bit) && IsSet(b, bit)
  {}

  /** What was overwritten is read back, and all the rest is as it was. */
  lemma OverwrittenIsReadBack(image: seq<byte>, offset: nat, data: seq<byte>)
    requires offset + |data| <= |image|
    ensures var after := Overwritten(image, offset, data);
            && after[offset..offset + |data|] == data
            && after[..offset] == image[..offset] && after[offset + |data|..] == image[offset + |data|..]
  {}

  /** An erasure sets every bit of 4096 bytes and leaves all the rest. */
  lemma ErasureStaysInBlock(image: seq<byte>, offset: nat)
    requires offset + 4096 <= |image|
    ensures var after := Erased(image, offset);
            && after == image[..offset] + seq(4096, _ => 0xFF) + image[offset + 4096..]
  {}

  lemma PlaceInPage(address: int, n: int, place: nat)
    requires place < 256 && 256 * n <= address < 256 * n + 256
    ensures var first := address - 256 * n;
            && (256 * n + place) / 256 == n
            && (256 * n + place - address) % 256 == if place >= first then place - first else place + 256 - first
  {}

  /** Where each byte of one command goes: on from the address, inside its page of 256 bytes, and then on from the
      start of the same page; nothing else changes. */
  lemma PageProgramPlaces(image: seq<byte>, address: nat, data: seq<byte>, n: nat, place: nat)
    requires |data| <= 256 && place < 256 && 256 * n + place < |image|
    ensures 256 * n <= address < 256 * n + 256 ==>
              var begin := address - 256 * n;
              var k := if place >= begin then place - begin else place + 256 - begin;
              PageProgrammed(image, address, data)[256 * n + place] ==
              if k < |data| then image[256 * n + place] & data[k] else image[256 * n + place]
    ensures !(256 * n <= address < 256 * n + 256) ==>
              PageProgrammed(image, address, data)[256 * n + place] == image[256 * n + place]
  {
    if 256 * n <= address < 256 * n + 256 {
      PlaceInPage(address, n, place);
      assert address / 256 == n;
    } else {
      assert (256 * n + place) / 256 == n && address / 256 != n;
    }
  }

  lemma PageProgramWithinPage(image: seq<byte>, address: nat, data: seq<byte>)
    requires address % PAGE + |data| <= PAGE
    ensures PageProgrammed(image, address, data) == Programmed(image, address, data)
  {
    forall i | 0 <= i < |image|
      ensures PageProgrammed(image, address, data)[i] == Programmed(image, address, data)[i]
    {}
  }

  /** Across the end of a page the device does something else: it goes on at the start of the same page. */
  lemma PageProgramWraps(image: seq<byte>, address: nat, data: seq<byte>, k: nat)
    requires address + |data| <= |image| && |data| <= PAGE && k < |data| && address % PAGE + k >= PAGE
    ensures var i := address + k - PAGE;
            0 <= i < |image| && PageProgrammed(image, address, data)[i] == image[i] & data[k]
    ensures PageProgrammed(image, address, data)[address + k] == image[address + k]
  {}

  lemma ProgrammedInParts(image: seq<byte>, offset: nat, a: seq<byte>, b: seq<byte>)
    ensures Programmed(Programmed(image, offset, a), offset + |a|, b) == Programmed(image, offset, a + b)
  {}

  lemma OverwrittenInParts(image: seq<byte>, offset: nat, a: seq<byte>, b: seq<byte>)
    ensures Overwritten(Overwritten(image, offset, a), offset + |a|, b) == Overwritten(image, offset, a + b)
  {}

  /** Whenever the simulator accepts a write, its image is the one the device ends up with. */
  lemma AcceptedWritesAgree(image: seq<byte>, offset: nat, data: seq<byte>)
    ensures OnlyClears(image, offset, data) ==> Overwritten(image, offset, data) == Programmed(image, offset, data)
    ensures offset + |data| <= |image| && Overwritten(image, offset, data) == Programmed(image, offset, data) ==>
              OnlyClears(image, offset, data)
  {
    if OnlyClears(image, offset, data) {
      forall i | offset <= i < offset + |data|
        ensures Overwritten(image, offset, data)[i] == Programmed(image, offset, data)[i]
      {
        assert image[offset..offset + |data|][i - offset] & data[i - offset] == data[i - offset];
      }
    }
    if offset + |data| <= |image| && Overwritten(image, offset, data) == Programmed(image, offset, data) {
      forall k | 0 <= k < |data|
        ensures image[offset..offset + |data|][k] & data[k] == data[k]
      {
        assert Overwritten(image, offset, data)[offset + k] == Programmed(image, offset, data)[offset + k];
      }
    }
  }

  /** An erased block takes any data, on both, and gives it back. */
  lemma ErasedTakesAnything(image: seq<byte>, block: nat, offset: nat, data: seq<byte>)
    requires block * ERASE_BLOCK_BYTES <= offset && offset + |data| <= (block + 1) * ERASE_BLOCK_BYTES <= |image|
    ensures var erased := Erased(image, block * ERASE_BLOCK_BYTES);
            && OnlyClears(erased, offset, data)
            && Programmed(erased, offset, data)[offset..offset + |data|] == data
  {}

  /** One page-program command of the loop carries the programmed part on. */
  lemma ProgrammingGoesOn(image: seq<byte>, start: nat, source: seq<byte>, done: nat, count: nat, part: nat)
    requires done + count <= |source| && part <= count && (start + done) % PAGE + count <= PAGE
    ensures PageProgrammed(Programmed(image, start, source[..done]),
                           start + done, source[done..done + count][..part]) ==
            Programmed(image, start, source[..done + part])
  {
    var data := source[done..done + count][..part];
    PageProgramWithinPage(Programmed(image, start, source[..done]), start + done, data);
    ProgrammedInParts(image, start, source[..done], data);
    assert data == source[done..done + part];
    assert source[..done] + data == source[..done + part];
  }

  // ----- The device -----

  /** `address` and `length` of one page-program command. */
  datatype Command = Command(address: nat, length: nat)

  /** The commands cover the range once, in order, each inside one page. */
  ghost predicate Covers(commands: seq<Command>, offset: nat, bytes: nat) {
    && (forall i | 0 <= i < |commands| ::
          commands[i].length > 0 && commands[i].address % PAGE + commands[i].length <= PAGE)
    && (forall i | 0 < i < |commands| ::
          commands[i].address == commands[i - 1].address + commands[i - 1].length)
    && (if commands == [] then bytes == 0 else
          && commands[0].address == offset
          && offset + bytes == commands[|commands| - 1].address + commands[|commands| - 1].length)
  }

  lemma CoversNothing(commands: seq<Command>, offset: nat)
    requires commands == []
    ensures Covers(commands, offset, 0)
  {}

  lemma CoversMore(commands: seq<Command>, offset: nat, bytes: nat, command: Command)
    requires Covers(commands, offset, bytes)
    requires command.address == offset + bytes && command.length > 0 && command.address % PAGE + command.length <= PAGE
    ensures Covers(commands + [command], offset, bytes + command.length)
  {}

  lemma {:induction false} LaterIsBehind(commands: seq<Command>, offset: nat, bytes: nat, i: nat, j: nat)
    requires Covers(commands, offset, bytes) && i < j < |commands|
    ensures commands[i].address + commands[i].length <= commands[j].address
  {
    if i < j - 1 {
      LaterIsBehind(commands, offset, bytes, i, j - 1);
    }
  }

  lemma {:induction false} CommandOfByte(commands: seq<Command>, offset: nat, bytes: nat, n: nat, at: nat)
    requires Covers(commands, offset, bytes) && 0 < n <= |commands|
    requires offset <= at < commands[n - 1].address + commands[n - 1].length
    ensures exists i | 0 <= i < n :: commands[i].address <= at < commands[i].address + commands[i].length
  {
    if at < commands[n - 1].address {
      CommandOfByte(commands, offset, bytes, n - 1, at);
    }
  }

  /** Each byte of the range belongs to exactly one command, no other byte to any, and no command leaves its
      page, where its data would go round. */
  lemma EachByteOnce(commands: seq<Command>, offset: nat, bytes: nat, at: nat)
    requires Covers(commands, offset, bytes)
    ensures offset <= at < offset + bytes <==>
            exists i | 0 <= i < |commands| :: commands[i].address <= at < commands[i].address + commands[i].length
    ensures forall i, j | 0 <= i < j < |commands| ::
              !(&& commands[i].address <= at < commands[i].address + commands[i].length
                && commands[j].address <= at < commands[j].address + commands[j].length)
    ensures forall i | 0 <= i < |commands| ::
              commands[i].address / 256 == (commands[i].address + commands[i].length - 1) / 256
  {
    if commands != [] {
      var last := |commands| - 1;
      if offset <= at < offset + bytes {
        CommandOfByte(commands, offset, bytes, last + 1, at);
      }
      forall i | 0 <= i <= last
        ensures offset <= commands[i].address && commands[i].address + commands[i].length <= offset + bytes
      {
        if i < last {
          LaterIsBehind(commands, offset, bytes, i, last);
        }
        if i > 0 {
          LaterIsBehind(commands, offset, bytes, 0, i);
        }
      }
      forall i, j | 0 <= i < j < |commands|
        ensures commands[i].address + commands[i].length <= commands[j].address
      {
        LaterIsBehind(commands, offset, bytes, i, j);
      }
    }
  }

  lemma ProgrammingStarts(image: seq<byte>, start: nat, source: seq<byte>)
    ensures Programmed(image, start, source[..0]) == image
  {}

  class Device {
    const reliable: bool
    var image: seq<byte>
    var commands: seq<Command>
    ghost var faults: nat

    /** A reliable device fails no command. */
    constructor (image: seq<byte>, reliable: bool)
      ensures this.image == image && commands == [] && this.reliable == reliable
    {
      this.image, this.reliable, commands, faults := image, reliable, [], 0;
    }

    /** Write enable, page program and wait. A command that fails may have programmed a part of its data. */
    method PageProgram(address: nat, data: seq<byte>) returns (ok: bool, ghost done: nat)
      requires address < FLASH_BYTES && |data| <= PAGE
      modifies this
      ensures done <= |data| && image == PageProgrammed(old(image), address, data[..done])
      ensures ok ==> done == |data|
      ensures commands == old(commands) + [Command(address, |data|)]
      ensures (reliable ==> ok) && faults == if ok then old(faults) else old(faults) + 1
    {
      commands := commands + [Command(address, |data|)];
      ok :| reliable ==> ok;
      if !ok {
        faults := faults + 1;
      }
      var programmed: nat := if ok then |data| else 0;
      if !ok {
        var part: nat := *;
        programmed := Min(part, |data|);
      }
      image := PageProgrammed(image, address, data[..programmed]);
      done := programmed;
    }

    /** One turn of the loop: as much of the data as the page has room for. */
    method WritePage(start: nat, source: seq<byte>, input: nat, ghost was: seq<byte>, ghost issued: seq<Command>)
      returns (ok: bool, pageBytes: nat, ghost part: nat)
      requires input < |source| && start + |source| <= FLASH_BYTES
      requires image == Programmed(was, start, source[..input]) && Covers(issued, start, input)
      modifies this
      ensures 0 < pageBytes <= |source| - input && part <= pageBytes && (ok ==> part == pageBytes)
      ensures (reliable ==> ok) && faults == if ok then old(faults) else old(faults) + 1
      ensures image == Programmed(was, start, source[..input + part])
      ensures commands == old(commands) + [Command(start + input, pageBytes)]
      ensures Covers(issued + [Command(start + input, pageBytes)], start, input + pageBytes)
    {
      hide Programmed, PageProgrammed, Covers;
      var offset := start + input;
      pageBytes := Min(|source| - input, PAGE - offset % PAGE);
      ok, part := PageProgram(offset, source[input..input + pageBytes]);
      ProgrammingGoesOn(was, start, source, input, pageBytes, part);
      CoversMore(issued, start, input, Command(offset, pageBytes));
    }

    /** `qspi_write` on the device: split at the ends of pages. On success the image is old AND data on the
        range and unchanged elsewhere; a failure leaves some part of the data, from its beginning, programmed. */
    method Write(start: nat, source: seq<byte>)
      returns (ok: bool, ghost done: nat, ghost issued: seq<Command>)
      requires |image| == FLASH_BYTES
      modifies this
      ensures |image| == FLASH_BYTES && done <= |source|
      ensures image == Programmed(old(image), start, source[..done])
      ensures ok <==> start + |source| <= 0x100_0000 && faults == old(faults)
      ensures reliable ==> faults == old(faults)
      ensures ok ==> image == Programmed(old(image), start, source)
      ensures start + |source| > 0x100_0000 ==> !ok && image == old(image) && commands == old(commands)
      ensures commands == old(commands) + issued
      ensures ok ==> Covers(issued, start, |source|)
    {
      hide Programmed, PageProgrammed, Covers;
      done, issued := 0, [];
      ProgrammingStarts(image, start, source);
      CoversNothing(issued, start);
      if start > FLASH_BYTES || |source| > FLASH_BYTES - start {
        return false, 0, [];
      }
      var offset, input := start, 0;
      while input < |source|
        invariant |image| == FLASH_BYTES && done == input <= |source| && offset == start + input
        invariant image == Programmed(old(image), start, source[..input])
        invariant commands == old(commands) + issued && Covers(issued, start, input) && faults == old(faults)
      {
        var programmed, pageBytes, part := WritePage(start, source, input, old(image), issued);
        issued := issued + [Command(offset, pageBytes)];
        if !programmed {
          return false, input + part, issued;
        }
        offset := offset + pageBytes;
        input := input + pageBytes;
        done := input;
      }
      assert source[..input] == source;
      ok := true;
    }

    /** `qspi_erase` on the device. */
    method Erase(offset: nat) returns (ok: bool)
      requires |image| == FLASH_BYTES
      modifies `image, `faults
      ensures ok <==> offset < 0x100_0000 && offset % 4096 == 0 && faults == old(faults)
      ensures old(faults) <= faults <= old(faults) + if reliable then 0 else 1
      ensures image == if ok then Erased(old(image), offset) else old(image)
    {
      if offset >= FLASH_BYTES || offset % ERASE_BLOCK_BYTES != 0 {
        return false;
      }
      ok :| reliable ==> ok;
      if !ok {
        faults := faults + 1;
      }
      if ok {
        image := Erased(image, offset);
      }
    }

    method Read(offset: nat, bytes: nat) returns (ok: bool, data: seq<byte>)
      requires |image| == FLASH_BYTES
      ensures ok && bytes > 0 ==> offset + bytes <= 0x100_0000 && data == image[offset..offset + bytes]
      ensures reliable ==> (ok <==> bytes == 0 || offset + bytes <= 0x100_0000)
    {
      data := [];
      if offset > FLASH_BYTES || bytes > FLASH_BYTES - offset || bytes == 0 {
        return bytes == 0, [];
      }
      ok :| reliable ==> ok;
      if ok {
        data := image[offset..offset + bytes];
      }
    }

    /** `nor_driver_verify`: success means that every byte of the block is erased, and a block that is not
        erased is never passed. */
    method Verify(block: nat) returns (ok: bool)
      requires |image| == FLASH_BYTES
      ensures ok ==> block < 4096 && forall i | block * 4096 <= i < (block + 1) * 4096 :: image[i] == 0xFF
      ensures reliable && !ok && block < 4096 ==>
                exists i :: block * 4096 <= i < (block + 1) * 4096 && image[i] != 0xFF
    {
      if block >= FLASH_BLOCKS {
        return false;
      }
      var base := block * ERASE_BLOCK_BYTES;
      var offset := 0;
      while offset < ERASE_BLOCK_BYTES
        invariant 0 <= offset <= ERASE_BLOCK_BYTES && offset % VERIFY_BYTES == 0
        invariant forall i | base <= i < base + offset :: image[i] == 0xFF
      {
        var read, data := Read(base + offset, VERIFY_BYTES);
        if !read {
          return false;
        }
        var clean := AllErased(data);
        if !clean {
          ghost var k :| 0 <= k < |data| && data[k] != 0xFF;
          assert image[base + offset + k] != 0xFF;
          return false;
        }
        assert forall i | base + offset <= i < base + offset + VERIFY_BYTES :: image[i] == data[i - base - offset];
        offset := offset + VERIFY_BYTES;
      }
      ok := true;
    }
  }

  method AllErased(data: seq<byte>) returns (all: bool)
    ensures all <==> forall k | 0 <= k < |data| :: data[k] == 0xFF
  {
    for k := 0 to |data|
      invariant forall j | 0 <= j < k :: data[j] == 0xFF
    {
      if data[k] != 0xFF {
        return false;
      }
    }
    all := true;
  }

  // ----- The simulator -----

  /** The image lies in a file whose reads and writes may fail; `faults` counts these failures. */
  class Simulator {
    var image: seq<byte>
    ghost var faults: nat

    constructor (image: seq<byte>)
      ensures this.image == image
    {
      this.image := image;
    }

    method FileRead(start: nat, bytes: nat) returns (ok: bool, data: seq<byte>)
      requires start + bytes <= |image|
      modifies `faults
      ensures faults == if ok then old(faults) else old(faults) + 1
      ensures ok ==> data == image[start..start + bytes]
    {
      ok, data := *, [];
      if ok {
        data := image[start..start + bytes];
      } else {
        faults := faults + 1;
      }
    }

    /** A failing write may have stored a first part of the data. */
    method FileWrite(start: nat, data: seq<byte>) returns (ok: bool, ghost stored: nat)
      requires start + |data| <= |image|
      modifies this
      ensures faults == if ok then old(faults) else old(faults) + 1
      ensures stored <= |data| && (ok ==> stored == |data|)
      ensures image == Overwritten(old(image), start, data[..stored])
    {
      ok := *;
      var count := |data|;
      if !ok {
        faults := faults + 1;
        var cut: int := *;
        if 0 <= cut < count {
          count := cut;
        }
      }
      stored := count;
      image := Overwritten(image, start, data[..count]);
    }

    /** One turn of the loop: the next 256 bytes, or what is left. */
    method WriteChunk(start: nat, source: seq<byte>, input: nat, ghost was: seq<byte>)
      returns (ok: bool, count: nat, ghost stored: nat)
      requires input < |source| && start + |source| <= |was|
      requires image == Overwritten(was, start, source[..input]) && OnlyClears(was, start, source[..input])
      modifies this
      ensures count == Min(|source| - input, PAGE) && stored <= count && (ok ==> stored == count)
      ensures image == Overwritten(was, start, source[..input + stored])
      ensures OnlyClears(was, start, source[..input + stored])
      ensures faults >= old(faults) && (ok ==> faults == old(faults))
      ensures !ok && faults == old(faults) ==> stored == 0 && !OnlyClears(was, start, source)
    {
      hide Overwritten, OnlyClears, AreSubsets;
      count, stored := Min(|source| - input, PAGE), 0;
      var offset, chunk := start + input, source[input..input + count];
      OverwritingGoesOn(was, start, source, input, count);
      var current;
      ok, current := FileRead(offset, count);
      if !ok {
        return;
      }
      ok := ChunkOnlyClears(current, chunk);
      if !ok {
        return;
      }
      ok, stored := FileWrite(offset, chunk);
      var whole := source[..input + count];
      assert whole[..input] == source[..input] && whole[..input + stored] == source[..input + stored];
      assert whole[input..input + stored] == chunk[..stored];
      OverwritingGoesOn(was, start, whole, input, stored);
    }

    /** `qspi_write` on the image file: it refuses the first chunk of 256 bytes that would set a bit; the chunks
        before it have then been written. */
    method Write(start: nat, source: seq<byte>) returns (ok: bool, ghost done: nat)
      requires |image| == FLASH_BYTES
      modifies this
      ensures |image| == FLASH_BYTES
      ensures ok <==>
                start + |source| <= 0x100_0000 && OnlyClears(old(image), start, source) && faults == old(faults)
      ensures faults >= old(faults)
      ensures ok ==> image == Programmed(old(image), start, source)
      ensures done <= |source| && image == Overwritten(old(image), start, source[..done])
      ensures !ok && done > 0 ==> OnlyClears(old(image), start, source[..done])
      ensures !ok && faults == old(faults) ==> done % PAGE == 0
    {
      done := 0;
      assert Overwritten(image, start, source[..0]) == image;
      hide Overwritten, Programmed, OnlyClears;
      if start > FLASH_BYTES || |source| > FLASH_BYTES - start {
        return false, 0;
      }
      NothingToClear(image, start, source[..0]);
      var input, pages := 0, 0;
      ok := true;
      while ok && input < |source|
        invariant |image| == FLASH_BYTES && input <= done <= |source| && (input < |source| ==> input == pages * PAGE)
        invariant image == Overwritten(old(image), start, source[..done])
        invariant OnlyClears(old(image), start, source[..done])
        invariant ok ==> done == input && faults == old(faults)
        invariant faults >= old(faults)
        invariant !ok ==> input < |source| && (faults > old(faults) || !OnlyClears(old(image), start, source))
        invariant !ok && faults == old(faults) ==> done == input
        decreases ok, |source| - input
      {
        var count;
        ghost var stored;
        ok, count, stored := WriteChunk(start, source, input, old(image));
        done := input + stored;
        if ok {
          input := input + count;
          pages := pages + 1;
        }
      }
      if ok {
        assert source[..input] == source;
        AcceptedWritesAgree(old(image), start, source);
      }
    }

    method Erase(offset: nat) returns (ok: bool, ghost done: nat)
      requires |image| == FLASH_BYTES
      modifies this
      ensures faults >= old(faults)
      ensures ok <==> offset < 0x100_0000 && offset % 4096 == 0 && faults == old(faults)
      ensures ok ==> image == Erased(old(image), offset)
      ensures !ok && faults == old(faults) ==> image == old(image)
      ensures !ok && faults > old(faults) ==>
                && offset < FLASH_BYTES && offset % ERASE_BLOCK_BYTES == 0 && done <= ERASE_BLOCK_BYTES
                && image == Overwritten(old(image), offset, seq(done, _ => 0xFF))
    {
      ok, done := offset < FLASH_BYTES && offset % ERASE_BLOCK_BYTES == 0, 0;
      if ok {
        var erased: seq<byte> := seq(ERASE_BLOCK_BYTES, _ => 0xFF);
        ok, done := FileWrite(offset, erased);
        assert erased[..done] == seq(done, _ => 0xFF);
        assert ok ==> image == Erased(old(image), offset);
      }
    }
  }

  lemma NothingToClear(image: seq<byte>, start: nat, data: seq<byte>)
    requires data == []
    ensures OnlyClears(image, start, data) <==> start <= |image|
  {}

  lemma OnlyClearsInParts(image: seq<byte>, start: nat, a: seq<byte>, b: seq<byte>)
    requires start + |a| + |b| <= |image|
    ensures OnlyClears(image, start, a + b) <==> OnlyClears(image, start, a) && OnlyClears(image, start + |a|, b)
  {
    var n := start + |a|;
    assert image[start..n + |b|] == image[start..n] + image[n..n + |b|];
    SubsetsInParts(a, b, image[start..n], image[n..n + |b|]);
  }

  lemma SubsetsInParts(a: seq<byte>, b: seq<byte>, c: seq<byte>, d: seq<byte>)
    requires |a| == |c| && |b| == |d|
    ensures AreSubsets(a + b, c + d) <==> AreSubsets(a, c) && AreSubsets(b, d)
  {
    assert forall k | 0 <= k < |a| :: (a + b)[k] == a[k] && (c + d)[k] == c[k];
    assert forall k | 0 <= k < |b| :: (a + b)[|a| + k] == b[k] && (c + d)[|a| + k] == d[k];
  }

  /** One chunk of the loop: what is refused now is refused for the whole, what is written goes on. */
  lemma OverwritingGoesOn(image: seq<byte>, start: nat, source: seq<byte>, done: nat, count: nat)
    requires done + count <= |source| && start + |source| <= |image| && OnlyClears(image, start, source[..done])
    ensures var written, chunk := Overwritten(image, start, source[..done]), source[done..done + count];
            && Overwritten(written, start + done, chunk) == Overwritten(image, start, source[..done + count])
            && (AreSubsets(chunk, written[start + done..start + done + count]) <==>
                OnlyClears(image, start, source[..done + count]))
            && (OnlyClears(image, start, source) ==> OnlyClears(image, start, source[..done + count]))
  {
    var written, chunk := Overwritten(image, start, source[..done]), source[done..done + count];
    assert source[..done] + chunk == source[..done + count];
    OverwrittenInParts(image, start, source[..done], chunk);
    assert written[start + done..start + done + count] == image[start + done..start + done + count];
    OnlyClearsInParts(image, start, source[..done], chunk);
    assert source[..done + count] + source[done + count..] == source;
    OnlyClearsInParts(image, start, source[..done + count], source[done + count..]);
  }

  method ChunkOnlyClears(current: seq<byte>, input: seq<byte>) returns (all: bool)
    requires |current| == |input|
    ensures all <==> AreSubsets(input, current)
  {
    for k := 0 to |input|
      invariant forall j | 0 <= j < k :: current[j] & input[j] == input[j]
    {
      if current[k] & input[k] != input[k] {
        return false;
      }
    }
    all := true;
  }

  /** The same write to the same image: if the simulator takes it and no command of the device fails, the device
      takes it too, and both end up with identical images. */
  method WriteBoth(device: Device, simulator: Simulator, offset: nat, data: seq<byte>)
    returns (taken: bool, written: bool)
    requires |device.image| == FLASH_BYTES && simulator.image == device.image
    modifies device, simulator
    ensures taken && (device.reliable || device.faults == old(device.faults)) ==> written
    ensures taken && written ==> device.image == simulator.image
    ensures taken <==>
              offset + |data| <= 0x100_0000 && OnlyClears(old(device.image), offset, data)
              && simulator.faults == old(simulator.faults)
  {
    ghost var done, other, issued;
    taken, done := simulator.Write(offset, data);
    written, other, issued := device.Write(offset, data);
  }
}

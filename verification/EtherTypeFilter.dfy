/** Receiving Ethernet frames of one type: the socket filter in the kernel, and the parser behind it.

    VLAN tags (clause 9 of IEEE 802.1Q) stand between the header and the type of the payload. */
module EtherTypeFilter {
  import opened Errors

  newtype byte = x: int | 0 <= x < 0x100

  type EtherType = x: int | 0 <= x < 0x1_0000

  const VLAN: EtherType := 0x8100
  const SERVICE_VLAN: EtherType := 0x88A8
  const ETHERNET_HEADER_SIZE := 14
  const ETHER_TYPE_OFFSET := 12
  const VLAN_TAG_SIZE := 4
  const MAX_FRAME_SIZE := 1522

  type Frame = seq<byte>

  predicate IsTag(ether: EtherType) {
    ether == VLAN || ether == SERVICE_VLAN
  }

  /** Two bytes in network order. */
  function Half(frame: Frame, offset: nat): EtherType
    requires offset + 2 <= |frame|
  {
    frame[offset] as int * 0x100 + frame[offset + 1] as int
  }

  // ----- The parser -----

  /** The type of the payload, and how many tags stand before it. */
  datatype Payload = Payload(ether: EtherType, tags: nat)

  function PayloadAt(frame: Frame, offset: nat): (payload: Option<Payload>)
    requires offset + 2 <= |frame|
    ensures payload.Some? ==>
              && offset + VLAN_TAG_SIZE * payload.value.tags + 2 <= |frame|
              && Half(frame, offset + VLAN_TAG_SIZE * payload.value.tags) == payload.value.ether
              && !IsTag(payload.value.ether)
    decreases |frame| - offset
  {
    if !IsTag(Half(frame, offset)) then Some(Payload(Half(frame, offset), 0))
    else if |frame| < offset + VLAN_TAG_SIZE + 2 then None
    else
      match PayloadAt(frame, offset + VLAN_TAG_SIZE)
      case None => None
      case Some(payload) => Some(payload.(tags := payload.tags + 1))
  }

  function PayloadOf(frame: Frame): Option<Payload> {
    if |frame| < ETHERNET_HEADER_SIZE then None else PayloadAt(frame, ETHER_TYPE_OFFSET)
  }

  function TypeOf(payload: Option<Payload>): (ether: Option<EtherType>)
    ensures ether.Some? <==> payload.Some?
    ensures ether.Some? ==> ether.value == payload.value.ether
  {
    match payload
    case None => None
    case Some(found) => Some(found.ether)
  }

  /** `frameEtherType`: follows the tags to the type of the payload, or to the end of the frame. */
  method FrameEtherType(frame: Frame) returns (result: Option<EtherType>)
    ensures result == TypeOf(PayloadOf(frame))
  {
    if |frame| < ETHERNET_HEADER_SIZE {
      return None;
    }
    var ether := Half(frame, ETHER_TYPE_OFFSET);
    var offset := ETHER_TYPE_OFFSET;
    while ether == VLAN || ether == SERVICE_VLAN
      invariant ETHER_TYPE_OFFSET <= offset && offset + 2 <= |frame| && ether == Half(frame, offset)
      invariant TypeOf(PayloadAt(frame, offset)) == TypeOf(PayloadOf(frame))
      decreases |frame| - offset
    {
      offset := offset + VLAN_TAG_SIZE;
      if |frame| < offset + 2 {
        return None;
      }
      ether := Half(frame, offset);
    }
    result := Some(ether);
  }

  // ----- Frames put together -----

  /** A tag on the wire: its type, and two bytes that say nothing about the payload. */
  datatype Tag = Tag(service: bool, first: byte, second: byte)

  function TagBytes(tag: Tag): seq<byte> {
    (if tag.service then [0x88, 0xA8] else [0x81, 0x00]) + [tag.first, tag.second]
  }

  function Tags(tags: seq<Tag>): (bytes: seq<byte>)
    ensures |bytes| == 4 * |tags|
  {
    if tags == [] then [] else TagBytes(tags[0]) + Tags(tags[1..])
  }

  lemma {:induction false} TagsAreFollowed(front: seq<byte>, tags: seq<Tag>, high: byte, low: byte, rest: seq<byte>)
    requires !(high == 0x81 && low == 0) && !(high == 0x88 && low == 0xA8)
    ensures PayloadAt(front + Tags(tags) + [high, low] + rest, |front|) ==
            Some(Payload(high as int * 256 + low as int, |tags|))
    decreases |tags|
  {
    var frame := front + Tags(tags) + [high, low] + rest;
    if tags == [] {
      assert frame[|front|] == high && frame[|front| + 1] == low;
    } else {
      var tag := TagBytes(tags[0]);
      assert Tags(tags) == tag + Tags(tags[1..]);
      assert frame == front + tag + Tags(tags[1..]) + [high, low] + rest;
      TagsAreFollowed(front + tag, tags[1..], high, low, rest);
      assert frame[|front|] == tag[0] && frame[|front| + 1] == tag[1];
    }
  }

  /** The parser finds the two bytes behind any number of customer (81 00) and service (88 A8) tags, the high
      byte first, in every frame that is put together from two addresses, tags, a type and a payload. */
  lemma ParsedAsBuilt(addresses: seq<byte>, tags: seq<Tag>, high: byte, low: byte, rest: seq<byte>)
    requires |addresses| == 12
    requires !(high == 0x81 && low == 0) && !(high == 0x88 && low == 0xA8)
    ensures PayloadOf(addresses + Tags(tags) + [high, low] + rest) ==
            Some(Payload(high as int * 256 + low as int, |tags|))
  {
    TagsAreFollowed(addresses, tags, high, low, rest);
  }

  /** A frame that ends before a type has none. */
  lemma CutFramesHaveNoType(addresses: seq<byte>, tags: seq<Tag>, rest: seq<byte>)
    requires |addresses| == 12 && |rest| < 2
    ensures PayloadOf(addresses + Tags(tags) + rest) == None
  {
    TagsRunOut(addresses, tags, rest);
  }

  lemma {:induction false} TagsRunOut(front: seq<byte>, tags: seq<Tag>, rest: seq<byte>)
    requires |rest| < 2
    ensures var frame := front + Tags(tags) + rest;
            |tags| > 0 ==> PayloadAt(frame, |front|) == None
    decreases |tags|
  {
    if tags != [] {
      var frame, tag := front + Tags(tags) + rest, TagBytes(tags[0]);
      assert Tags(tags) == tag + Tags(tags[1..]);
      assert frame == front + tag + Tags(tags[1..]) + rest;
      assert frame[|front|] == tag[0] && frame[|front| + 1] == tag[1];
      TagsRunOut(front + tag, tags[1..], rest);
    }
  }

  // ----- Classic BPF -----

  datatype Instruction = LoadHalf(k: nat) | JumpEqual(k: nat, ifTrue: nat, ifFalse: nat) | Return(k: nat)

  /** What a filter returns for a packet: how much of it to keep, 0 to drop it. A load beyond the packet drops
      it; jumps go forward only. */
  function Execute(program: seq<Instruction>, pc: nat, accumulator: nat, frame: Frame): nat
    decreases |program| - pc
  {
    if pc >= |program| then 0
    else
      match program[pc]
      case LoadHalf(k) =>
        if k + 2 > |frame| then 0 else Execute(program, pc + 1, Half(frame, k), frame)
      case JumpEqual(k, ifTrue, ifFalse) =>
        Execute(program, pc + 1 + if accumulator == k then ifTrue else ifFalse, accumulator, frame)
      case Return(k) => k
  }

  const KEEP := 0xFFFF

  /** The program of `attach_ether_type_filter`. */
  function Program(wanted: EtherType): seq<Instruction> {
    [
      LoadHalf(12),
      JumpEqual(wanted, 8, 0),
      JumpEqual(VLAN, 1, 0),
      JumpEqual(SERVICE_VLAN, 0, 7),
      LoadHalf(16),
      JumpEqual(wanted, 4, 0),
      JumpEqual(VLAN, 1, 0),
      JumpEqual(SERVICE_VLAN, 0, 3),
      LoadHalf(20),
      JumpEqual(wanted, 0, 1),
      Return(KEEP),
      Return(0)
    ]
  }

  function Filter(wanted: EtherType, frame: Frame): nat {
    Execute(Program(wanted), 0, 0, frame)
  }

  predicate HasType(wanted: EtherType, frame: Frame, offset: nat) {
    offset + 2 <= |frame| && Half(frame, offset) == wanted
  }

  predicate HasTag(frame: Frame, offset: nat) {
    offset + 2 <= |frame| && IsTag(Half(frame, offset))
  }

  // The three loads, from the last to the first.

  lemma Returns(wanted: EtherType, accumulator: nat, frame: Frame)
    ensures Execute(Program(wanted), 10, accumulator, frame) == KEEP
    ensures Execute(Program(wanted), 11, accumulator, frame) == 0
  {}

  lemma ThirdLoad(wanted: EtherType, accumulator: nat, frame: Frame)
    ensures Execute(Program(wanted), 8, accumulator, frame) == if HasType(wanted, frame, 20) then KEEP else 0
  {
    if 22 <= |frame| {
      Returns(wanted, Half(frame, 20), frame);
      assert Execute(Program(wanted), 8, accumulator, frame) == Execute(Program(wanted), 9, Half(frame, 20), frame);
    }
  }

  /** Three jumps after a load: the wanted type is kept, a tag goes on to the next load, the rest is dropped. */
  lemma Jumps(wanted: EtherType, pc: nat, loaded: nat, frame: Frame)
    requires pc == 1 || pc == 5
    ensures Execute(Program(wanted), pc, loaded, frame) ==
            if loaded == wanted then KEEP
            else if loaded == VLAN || loaded == SERVICE_VLAN then Execute(Program(wanted), pc + 3, loaded, frame)
            else 0
  {
    var program := Program(wanted);
    Returns(wanted, loaded, frame);
    if loaded != wanted {
      assert Execute(program, pc, loaded, frame) == Execute(program, pc + 1, loaded, frame);
      if loaded != VLAN {
        assert Execute(program, pc + 1, loaded, frame) == Execute(program, pc + 2, loaded, frame);
      }
    }
  }

  lemma SecondLoad(wanted: EtherType, accumulator: nat, frame: Frame)
    ensures Execute(Program(wanted), 4, accumulator, frame) ==
            if HasType(wanted, frame, 16) || (HasTag(frame, 16) && HasType(wanted, frame, 20)) then KEEP else 0
  {
    if 18 <= |frame| {
      Jumps(wanted, 5, Half(frame, 16), frame);
      ThirdLoad(wanted, Half(frame, 16), frame);
      assert Execute(Program(wanted), 4, accumulator, frame) == Execute(Program(wanted), 5, Half(frame, 16), frame);
    }
  }

  /** What the twelve instructions do, for every wanted type and every frame. */
  lemma FilterLooksAtThreeTypes(wanted: EtherType, frame: Frame)
    ensures Filter(wanted, frame) ==
            if || HasType(wanted, frame, 12) || (HasTag(frame, 12) && HasType(wanted, frame, 16))
               || (HasTag(frame, 12) && HasTag(frame, 16) && HasType(wanted, frame, 20))
            then 0xFFFF else 0
  {
    if 14 <= |frame| {
      Jumps(wanted, 1, Half(frame, 12), frame);
      SecondLoad(wanted, Half(frame, 12), frame);
      assert Execute(Program(wanted), 0, 0, frame) == Execute(Program(wanted), 1, Half(frame, 12), frame);
    }
  }

  /** The parser finds the type behind at most two tags. */
  predicate IsFoundNear(wanted: EtherType, frame: Frame) {
    match PayloadOf(frame)
    case None => false
    case Some(payload) => payload.ether == wanted && payload.tags <= 2
  }

  lemma NearbyTypes(wanted: EtherType, frame: Frame)
    ensures IsFoundNear(wanted, frame) <==>
            && !IsTag(wanted)
            && (|| HasType(wanted, frame, 12) || (HasTag(frame, 12) && HasType(wanted, frame, 16))
                || (HasTag(frame, 12) && HasTag(frame, 16) && HasType(wanted, frame, 20)))
  {
    if 14 <= |frame| && IsTag(Half(frame, 12)) && 18 <= |frame| {
      assert PayloadAt(frame, 16).Some? ==>
             PayloadAt(frame, 12) == Some(PayloadAt(frame, 16).value.(tags := PayloadAt(frame, 16).value.tags + 1));
      if IsTag(Half(frame, 16)) && 22 <= |frame| {
        assert PayloadAt(frame, 20).Some? ==>
               PayloadAt(frame, 16) == Some(PayloadAt(frame, 20).value.(tags := PayloadAt(frame, 20).value.tags + 1));
      }
    }
  }

  /** On frames of every length and content, the filter keeps a frame exactly when the parser finds the wanted
      type behind at most two tags, for every wanted type that is not itself a tag. */
  lemma FilterAgreesWithParser(wanted: EtherType, frame: Frame)
    requires !IsTag(wanted)
    ensures Filter(wanted, frame) == if IsFoundNear(wanted, frame) then 0xFFFF else 0
  {
    FilterLooksAtThreeTypes(wanted, frame);
    NearbyTypes(wanted, frame);
  }

  /** A frame of just a header with the type in it. */
  function HeaderOnly(ether: EtherType): Frame {
    seq(12, _ => 0) + [(ether / 0x100) as byte, (ether % 0x100) as byte]
  }

  /** Filter and parser agree on all frames exactly when the wanted type is not a tag. */
  lemma AgreementIsExact(wanted: EtherType)
    ensures (forall frame: Frame :: Filter(wanted, frame) != 0 <==> IsFoundNear(wanted, frame)) <==> !IsTag(wanted)
  {
    if IsTag(wanted) {
      var frame := HeaderOnly(wanted);
      FilterLooksAtThreeTypes(wanted, frame);
      NearbyTypes(wanted, frame);
      assert HasType(wanted, frame, 12);
      assert Filter(wanted, frame) != 0 && !IsFoundNear(wanted, frame);
    } else {
      forall frame: Frame
        ensures Filter(wanted, frame) != 0 <==> IsFoundNear(wanted, frame)
      {
        FilterAgreesWithParser(wanted, frame);
      }
    }
  }

  // ----- Receiving -----

  /** A packet as the socket hands it over. */
  datatype Packet = Packet(outgoing: bool, frame: Frame)

  datatype Received = Frame(frame: Frame) | TooLong | NoRoom | TimedOut

  predicate IsSkipped(wanted: Option<EtherType>, packet: Packet) {
    || packet.outgoing
    || (|packet.frame| <= MAX_FRAME_SIZE && wanted.Some? && TypeOf(PayloadOf(packet.frame)) != wanted)
  }

  /** What the kernel passes on: everything without a filter, and what the filter keeps with one. */
  predicate IsPassed(wanted: Option<EtherType>, packet: Packet) {
    wanted.Some? ==> Filter(wanted.value, packet.frame) != 0
  }

  /** The loop of `receive`, on the packets that the kernel passes on before the timeout. */
  method Receive(wanted: Option<EtherType>, room: nat, packets: seq<Packet>) returns (result: Received, used: nat)
    requires forall i | 0 <= i < |packets| :: IsPassed(wanted, packets[i])
    ensures used <= |packets|
    ensures forall i | 0 <= i < used - 1 :: IsSkipped(wanted, packets[i])
    ensures forall i | 0 <= i < used - 1 && !packets[i].outgoing ::
              |packets[i].frame| <= 1522 && wanted.Some? && TypeOf(PayloadOf(packets[i].frame)) != wanted
    ensures result.TimedOut? ==>
              forall i | 0 <= i < |packets| && !packets[i].outgoing ::
                wanted.Some? && TypeOf(PayloadOf(packets[i].frame)) != wanted
    ensures result.TimedOut? ==> used == |packets| && forall i | 0 <= i < used :: IsSkipped(wanted, packets[i])
    ensures !result.TimedOut? ==> used > 0 && !IsSkipped(wanted, packets[used - 1]) && !packets[used - 1].outgoing
    ensures result.TooLong? <==>
              used > 0 && !IsSkipped(wanted, packets[used - 1]) && |packets[used - 1].frame| > 1522
    ensures result.NoRoom? <==>
              used > 0 && !IsSkipped(wanted, packets[used - 1]) && room < |packets[used - 1].frame| <= 1522
    ensures result.Frame? ==> result.frame == packets[used - 1].frame && |result.frame| <= room
    ensures result.Frame? && wanted.Some? ==> IsFoundNear(wanted.value, result.frame)
  {
    used := 0;
    while used < |packets|
      invariant used <= |packets| && forall i | 0 <= i < used :: IsSkipped(wanted, packets[i])
    {
      var packet := packets[used];
      used := used + 1;
      if packet.outgoing {
        continue;
      }
      if |packet.frame| > MAX_FRAME_SIZE {
        return TooLong, used;
      }
      var ether := FrameEtherType(packet.frame);
      if wanted.Some? && ether != wanted {
        continue;
      }
      if room < |packet.frame| {
        return NoRoom, used;
      }
      if wanted.Some? {
        FilterLooksAtThreeTypes(wanted.value, packet.frame);
        NearbyTypes(wanted.value, packet.frame);
      }
      return Frame(packet.frame), used;
    }
    result := TimedOut;
  }
}

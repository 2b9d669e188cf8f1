/** Stacked main-feed frames: several packets behind one another, cut by a
    table from response code to packet length. The drain walk, the composer
    the fuzz target builds frames with, the production search for a stacked
    disconnect, and the socket-side classifier. */
module StackedFrame {
  import opened Bytes
  import opened Integers
  import opened Wrappers

  const INDEX_TICKER: byte := 1
  const TICKER: byte := 2
  const QUOTE: byte := 4
  const OI: byte := 5
  const PREVIOUS_CLOSE: byte := 6
  const MARKET_STATUS: byte := 7
  const FULL: byte := 8
  const DISCONNECT: byte := 50

  const TICKER_PACKET_SIZE: nat := 16
  const QUOTE_PACKET_SIZE: nat := 50
  const OI_PACKET_SIZE: nat := 12
  const PREVIOUS_CLOSE_PACKET_SIZE: nat := 16
  const MARKET_STATUS_PACKET_SIZE: nat := 8
  const FULL_QUOTE_PACKET_SIZE: nat := 162
  const DISCONNECT_PACKET_SIZE: nat := 10

  const DISCONNECT_OFFSET_CODE: nat := 8
  const BINARY_HEADER_SIZE: nat := 8
  const MAX_PACKETS_PER_FRAME: nat := 70_000

  /** Packet lengths by response code. */
  type Table = map<byte, nat>

  const MAIN_FEED: Table := map[
    INDEX_TICKER := TICKER_PACKET_SIZE, TICKER := TICKER_PACKET_SIZE, QUOTE := QUOTE_PACKET_SIZE, OI := OI_PACKET_SIZE,
    PREVIOUS_CLOSE := PREVIOUS_CLOSE_PACKET_SIZE, MARKET_STATUS := MARKET_STATUS_PACKET_SIZE,
    FULL := FULL_QUOTE_PACKET_SIZE, DISCONNECT := DISCONNECT_PACKET_SIZE]

  /** What the laws of the walk need of a table: no packet is empty. */
  predicate ValidTable(table: Table) {
    forall code | code in table :: table[code] >= 1
  }

  /** What the laws of the stacked disconnect need besides: it is the ten-byte
      packet. */
  predicate TenByteDisconnect(table: Table) {
    ValidTable(table) && DISCONNECT in table && table[DISCONNECT] == DISCONNECT_PACKET_SIZE
  }

  /** `main_feed_packet_len`: the length of the packet that starts here. */
  function PacketLen(table: Table, bytes: seq<byte>): (len: Option<nat>)
    ensures ValidTable(table) && len.Some? ==> len.value >= 1
  {
    if bytes != [] && bytes[0] in table then Some(table[bytes[0]]) else None
  }

  /** The main feed's packets by code, in bytes. */
  lemma MainFeedSizes(bytes: seq<byte>)
    requires bytes != []
    ensures PacketLen(MAIN_FEED, bytes) ==
            var code := bytes[0];
            if code == 1 || code == 2 || code == 6 then Some(16) else if code == 4 then Some(50) else if code == 5 then Some(12)
            else if code == 7 then Some(8) else if code == 8 then Some(162) else if code == 50 then Some(10) else None
  {
  }

  /** `u16::from_le_bytes`. */
  function LittleEndian(lo: byte, hi: byte): (n: nat)
    ensures n < 0x1_0000
  {
    lo as int + 256 * hi as int
  }

  // ------------------------------------------------------ the dispatcher

  datatype ParseError = InsufficientBytes(expected: nat, actual: nat) | UnknownResponseCode(code: byte)

  /** A decoded packet, down to the one kind the walks tell apart. */
  datatype Dispatch = Disconnected(reason: nat) | OtherPacket | Refused(error: ParseError)

  /** The guard each packet parser begins with. */
  function Guarded(raw: seq<byte>, size: nat, parsed: Dispatch): Dispatch {
    if |raw| < size then Refused(InsufficientBytes(size, |raw|)) else parsed
  }

  function ParseDisconnectPacket(raw: seq<byte>): Dispatch {
    if |raw| < DISCONNECT_PACKET_SIZE then Refused(InsufficientBytes(DISCONNECT_PACKET_SIZE, |raw|))
    else Disconnected(LittleEndian(raw[DISCONNECT_OFFSET_CODE], raw[DISCONNECT_OFFSET_CODE + 1]))
  }

  /** `dispatch_frame`: the header, then the parser of its code with its own
      size guard; bytes behind the packet are ignored. */
  function DispatchFrame(raw: seq<byte>): Dispatch {
    if |raw| < BINARY_HEADER_SIZE then Refused(InsufficientBytes(BINARY_HEADER_SIZE, |raw|))
    else
      var code := raw[0];
      if code == INDEX_TICKER || code == TICKER then Guarded(raw, TICKER_PACKET_SIZE, OtherPacket)
      else if code == QUOTE then Guarded(raw, QUOTE_PACKET_SIZE, OtherPacket)
      else if code == FULL then Guarded(raw, FULL_QUOTE_PACKET_SIZE, OtherPacket)
      else if code == OI then Guarded(raw, OI_PACKET_SIZE, OtherPacket)
      else if code == PREVIOUS_CLOSE then Guarded(raw, PREVIOUS_CLOSE_PACKET_SIZE, OtherPacket)
      else if code == MARKET_STATUS then Guarded(raw, MARKET_STATUS_PACKET_SIZE, OtherPacket)
      else if code == DISCONNECT then ParseDisconnectPacket(raw)
      else Refused(UnknownResponseCode(code))
  }

  // --------------------------------------------------------- packets

  predicate IsPacket(table: Table, p: seq<byte>) {
    PacketLen(table, p) == Some(|p|)
  }

  ghost predicate AllPackets(table: Table, packets: seq<seq<byte>>) {
    forall p | p in packets :: IsPacket(table, p)
  }

  ghost function Concat(packets: seq<seq<byte>>): seq<byte> {
    if packets == [] then [] else packets[0] + Concat(packets[1..])
  }

  function ReasonOf(p: seq<byte>): Option<nat> {
    if |p| >= DISCONNECT_PACKET_SIZE && p[0] == DISCONNECT
    then Some(LittleEndian(p[DISCONNECT_OFFSET_CODE], p[DISCONNECT_OFFSET_CODE + 1])) else None
  }

  /** The reason of the first disconnect among the packets. */
  ghost function FirstReason(packets: seq<seq<byte>>): Option<nat> {
    if packets == [] then None
    else if ReasonOf(packets[0]).Some? then ReasonOf(packets[0]) else FirstReason(packets[1..])
  }

  /** The packet at `k` is the first disconnect, and its reason is the 16-bit
      number at its offset 8, low byte first. */
  ghost predicate IsFirstDisconnect(packets: seq<seq<byte>>, k: nat, reason: nat) {
    && k < |packets| && |packets[k]| >= 10 && packets[k][0] == 50
    && reason == packets[k][8] as int + 256 * packets[k][9] as int
    && forall j | 0 <= j < k :: !(|packets[j]| >= 10 && packets[j][0] == 50)
  }

  lemma {:induction false} FirstReasonExactly(packets: seq<seq<byte>>, reason: nat)
    ensures FirstReason(packets) == Some(reason) <==> exists k: nat :: IsFirstDisconnect(packets, k, reason)
  {
    if packets != [] {
      var rest := packets[1..];
      FirstReasonExactly(rest, reason);
      if ReasonOf(packets[0]).Some? {
        assert FirstReason(packets) == Some(reason) ==> IsFirstDisconnect(packets, 0, reason);
      } else {
        if k: nat :| IsFirstDisconnect(rest, k, reason) {
          assert IsFirstDisconnect(packets, k + 1, reason);
        }
        if k: nat :| IsFirstDisconnect(packets, k, reason) {
          assert IsFirstDisconnect(rest, k - 1, reason);
        }
      }
    }
  }

  // ---------------------------------------------------------- the walk

  datatype WalkOutcome = WalkOutcome(packets: nat, complete: bool, firstDisconnect: Option<nat>)

  /** What a walk of a frame finds, packet by packet. */
  ghost function Walked(table: Table, frame: seq<byte>): WalkOutcome
    requires ValidTable(table)
  {
    var len := PacketLen(table, frame);
    if frame == [] then WalkOutcome(0, true, None)
    else if len.None? || |frame| < len.value then WalkOutcome(0, false, None)
    else
      var rest := Walked(table, frame[len.value..]);
      var reason := ReasonOf(frame[..len.value]);
      WalkOutcome(rest.packets + 1, rest.complete, if reason.Some? then reason else rest.firstDisconnect)
  }

  /** Two walks one behind the other. */
  function Then(a: WalkOutcome, b: WalkOutcome): WalkOutcome {
    WalkOutcome(a.packets + b.packets, b.complete, if a.firstDisconnect.Some? then a.firstDisconnect else b.firstDisconnect)
  }

  lemma WalkStep(table: Table, first: seq<byte>, rest: seq<byte>)
    requires ValidTable(table) && IsPacket(table, first)
    ensures Walked(table, first + rest) == Then(WalkOutcome(1, true, ReasonOf(first)), Walked(table, rest))
  {
    assert (first + rest)[..|first|] == first && (first + rest)[|first|..] == rest;
  }

  /** What the walk asserts of a length table and a dispatcher at every step: a
      code the table knows decodes when its packet is whole, and to a
      disconnect exactly when it is one; it is refused for its bytes, named
      right, when it is not whole; an unknown code is always refused. */
  ghost predicate AgreeOn(table: Table, dispatch: seq<byte> -> Dispatch, rest: seq<byte>) {
    var len := PacketLen(table, rest);
    if len.None? then dispatch(rest).Refused?
    else if |rest| < len.value then
      dispatch(rest).Refused? && dispatch(rest).error.InsufficientBytes? && dispatch(rest).error.actual == |rest|
    else
      var packet := rest[..len.value];
      dispatch(packet) == if ReasonOf(packet).Some? then Disconnected(ReasonOf(packet).value) else OtherPacket
  }

  ghost predicate Agree(table: Table, dispatch: seq<byte> -> Dispatch) {
    forall rest | rest != [] :: AgreeOn(table, dispatch, rest)
  }

  lemma MainFeedAgreesOn(rest: seq<byte>)
    requires rest != []
    ensures AgreeOn(MAIN_FEED, DispatchFrame, rest)
  {
  }

  /** The main feed's length table and its dispatcher, two definitions, agree
      on every byte string; and each code's length is the least its parser
      accepts. */
  lemma TableAgreesWithDispatcher()
    ensures Agree(MAIN_FEED, DispatchFrame)
    ensures forall rest | rest != [] :: !DispatchFrame(rest).Refused? <==>
              PacketLen(MAIN_FEED, rest).Some? && |rest| >= PacketLen(MAIN_FEED, rest).value
  {
    forall rest: seq<byte> | rest != [] ensures AgreeOn(MAIN_FEED, DispatchFrame, rest) {
      MainFeedAgreesOn(rest);
    }
  }

  /** A table without code 1 does not: that is the frame on which the two once
      disagreed. */
  lemma TableMustKnowIndexTickers(rest: seq<byte>)
    requires |rest| >= TICKER_PACKET_SIZE && rest[0] == INDEX_TICKER
    ensures !AgreeOn(MAIN_FEED - {INDEX_TICKER}, DispatchFrame, rest)
  {
  }

  lemma WalkAt(table: Table, frame: seq<byte>, offset: nat, len: nat)
    requires ValidTable(table) && offset < |frame| && offset + len <= |frame|
    requires PacketLen(table, frame[offset..]) == Some(len)
    ensures Walked(table, frame[offset..])
         == Then(WalkOutcome(1, true, ReasonOf(frame[offset..][..len])), Walked(table, frame[offset + len..]))
  {
    var rest := frame[offset..];
    assert rest == rest[..len] + frame[offset + len..];
    WalkStep(table, rest[..len], frame[offset + len..]);
  }

  lemma WalkStops(table: Table, rest: seq<byte>, w: WalkOutcome)
    requires ValidTable(table)
    requires rest != [] && (PacketLen(table, rest).None? || |rest| < PacketLen(table, rest).value)
    ensures Then(w, Walked(table, rest)) == w.(complete := false)
  {
  }

  /** One look of the walk at the bytes ahead: the packet's length and its
      reason, or None where the walk must stop. Each `assert` stands where the
      oracle would panic. */
  method Inspect(table: Table, dispatch: seq<byte> -> Dispatch, rest: seq<byte>) returns (len: Option<nat>, reason: Option<nat>)
    requires ValidTable(table) && Agree(table, dispatch) && rest != []
    ensures len.None? <==> PacketLen(table, rest).None? || |rest| < PacketLen(table, rest).value
    ensures len.Some? ==> len == PacketLen(table, rest) && reason == ReasonOf(rest[..len.value])
  {
    assert AgreeOn(table, dispatch, rest);
    len, reason := PacketLen(table, rest), None;
    if len.None? {
      assert dispatch(rest).Refused?;
      return;
    }
    if |rest| < len.value {
      assert dispatch(rest).error.InsufficientBytes? && dispatch(rest).error.actual == |rest|;
      return None, None;
    }
    match dispatch(rest[..len.value]) {
      case Disconnected(code) => reason := Some(code);
      case OtherPacket =>
      case Refused(_) => assert false;
    }
  }

  /** The drain's walk. */
  method Walk(table: Table, dispatch: seq<byte> -> Dispatch, frame: seq<byte>) returns (w: WalkOutcome)
    requires ValidTable(table) && Agree(table, dispatch)
    ensures w == Walked(table, frame)
  {
    var offset := 0;
    w := WalkOutcome(0, true, None);
    assert frame[0..] == frame;
    while offset < |frame|
      invariant w.complete && WalkedSoFar(table, frame, offset, w)
    {
      var len, reason := Inspect(table, dispatch, frame[offset..]);
      if len.None? {
        WalkStops(table, frame[offset..], w);
        return w.(complete := false);
      }
      WalksOn(table, frame, offset, w, len.value);
      w := WalkOutcome(w.packets + 1, true, if w.firstDisconnect.None? then reason else w.firstDisconnect);
      offset := offset + len.value;
    }
    assert frame[offset..] == [];
  }

  /** So much of the frame is walked. */
  ghost predicate WalkedSoFar(table: Table, frame: seq<byte>, offset: nat, w: WalkOutcome)
    requires ValidTable(table)
  {
    offset <= |frame| && Walked(table, frame) == Then(w, Walked(table, frame[offset..]))
  }

  lemma WalksOn(table: Table, frame: seq<byte>, offset: nat, w: WalkOutcome, len: nat)
    requires ValidTable(table) && WalkedSoFar(table, frame, offset, w) && w.complete
    requires offset < |frame| && offset + len <= |frame| && PacketLen(table, frame[offset..]) == Some(len)
    ensures var reason := ReasonOf(frame[offset..][..len]);
            WalkedSoFar(table, frame, offset + len,
                        WalkOutcome(w.packets + 1, true, if w.firstDisconnect.None? then reason else w.firstDisconnect))
  {
    WalkAt(table, frame, offset, len);
  }

  lemma WalkStepBefore(table: Table, first: seq<byte>, rest: seq<byte>, b: seq<byte>)
    requires ValidTable(table) && IsPacket(table, first)
    ensures Walked(table, (first + rest) + b) == Then(WalkOutcome(1, true, ReasonOf(first)), Walked(table, rest + b))
  {
    assert (first + rest) + b == first + (rest + b);
    WalkStep(table, first, rest + b);
  }

  /** A complete frame followed by anything: counts add up, the first
      disconnect is that of the front if it has one. */
  lemma {:induction false} WalkDistributes(table: Table, a: seq<byte>, b: seq<byte>)
    requires ValidTable(table) && Walked(table, a).complete
    ensures Walked(table, a + b) == Then(Walked(table, a), Walked(table, b))
  {
    if a == [] {
      assert a + b == b;
    } else {
      var len := PacketLen(table, a).value;
      var first, rest := a[..len], a[len..];
      assert a == first + rest;
      WalkStep(table, first, rest);
      WalkDistributes(table, rest, b);
      WalkStepBefore(table, first, rest, b);
    }
  }

  /** Walking packets finds all of them and their first disconnect. */
  lemma {:induction false} WalkOfPackets(table: Table, packets: seq<seq<byte>>)
    requires ValidTable(table) && AllPackets(table, packets)
    ensures Walked(table, Concat(packets)) == WalkOutcome(|packets|, true, FirstReason(packets))
  {
    if packets != [] {
      var first, tail := packets[0], Concat(packets[1..]);
      assert IsPacket(table, first);
      WalkOfPackets(table, packets[1..]);
      WalkStep(table, first, tail);
    }
  }

  /** The packets a walk cuts a complete frame into. */
  ghost function Cut(table: Table, frame: seq<byte>): seq<seq<byte>>
    requires ValidTable(table) && Walked(table, frame).complete
  {
    if frame == [] then []
    else
      var len := PacketLen(table, frame).value;
      [frame[..len]] + Cut(table, frame[len..])
  }

  lemma {:induction false} CutIsConcat(table: Table, frame: seq<byte>)
    requires ValidTable(table) && Walked(table, frame).complete
    ensures AllPackets(table, Cut(table, frame)) && Concat(Cut(table, frame)) == frame
  {
    if frame != [] {
      var len := PacketLen(table, frame).value;
      CutIsConcat(table, frame[len..]);
      CutStep(table, frame[..len], Cut(table, frame[len..]));
      assert frame == frame[..len] + frame[len..];
    }
  }

  lemma CutStep(table: Table, first: seq<byte>, rest: seq<seq<byte>>)
    requires IsPacket(table, first) && AllPackets(table, rest)
    ensures AllPackets(table, [first] + rest) && Concat([first] + rest) == first + Concat(rest)
  {
    assert ([first] + rest)[1..] == rest;
  }

  lemma {:induction false} CutOfConcat(table: Table, packets: seq<seq<byte>>)
    requires ValidTable(table) && AllPackets(table, packets)
    ensures Walked(table, Concat(packets)).complete && Cut(table, Concat(packets)) == packets
  {
    WalkOfPackets(table, packets);
    if packets != [] {
      var first, tail := packets[0], Concat(packets[1..]);
      assert IsPacket(table, first);
      CutOfConcat(table, packets[1..]);
      assert (first + tail)[..|first|] == first && (first + tail)[|first|..] == tail;
    }
  }

  /** A frame walks end to end exactly when it is a row of known packets. */
  lemma CompleteMeansPackets(table: Table, frame: seq<byte>)
    requires ValidTable(table)
    ensures Walked(table, frame).complete <==> exists packets :: AllPackets(table, packets) && Concat(packets) == frame
  {
    if Walked(table, frame).complete {
      CutIsConcat(table, frame);
    }
    if packets :| AllPackets(table, packets) && Concat(packets) == frame {
      WalkOfPackets(table, packets);
    }
  }

  /** There is only one way to read a frame as packets. */
  lemma PacketsAreUnique(table: Table, a: seq<seq<byte>>, b: seq<seq<byte>>)
    requires ValidTable(table) && AllPackets(table, a) && AllPackets(table, b)
    requires Concat(a) == Concat(b)
    ensures a == b
  {
    CutOfConcat(table, a);
    CutOfConcat(table, b);
  }

  // ------------------------------------------------------- prefix cuts

  /** The end offsets of packets laid one behind the other from `at` on. */
  ghost function Ends(packets: seq<seq<byte>>, at: nat): seq<nat> {
    if packets == [] then [] else [at + |packets[0]|] + Ends(packets[1..], at + |packets[0]|)
  }

  /** How many end offsets lie at or before the cut. */
  ghost function EndedBy(ends: seq<nat>, cut: nat): nat {
    if ends == [] || ends[0] > cut then 0 else 1 + EndedBy(ends[1..], cut)
  }

  lemma {:induction false} EndsAreBehind(packets: seq<seq<byte>>, at: nat)
    requires forall i | 0 <= i < |packets| :: packets[i] != []
    ensures forall e | e in Ends(packets, at) :: at < e <= at + |Concat(packets)|
    ensures |Ends(packets, at)| == |packets|
  {
    if packets != [] {
      var first, rest := packets[0], packets[1..];
      EndsAreBehind(rest, at + |first|);
      assert Concat(packets) == first + Concat(rest);
    }
  }

  lemma PacketsAreNotEmpty(table: Table, packets: seq<seq<byte>>)
    requires ValidTable(table) && AllPackets(table, packets)
    ensures forall i | 0 <= i < |packets| :: packets[i] != []
    ensures packets != [] ==> IsPacket(table, packets[0]) && AllPackets(table, packets[1..])
  {
    forall i | 0 <= i < |packets| ensures packets[i] != [] {
      assert IsPacket(table, packets[i]);
    }
    if packets != [] {
      assert forall p | p in packets[1..] :: p in packets;
    }
  }

  ghost predicate PrefixSeen(w: WalkOutcome, ends: seq<nat>, at: nat, cut: nat) {
    w.packets == EndedBy(ends, at + cut) && (w.complete <==> cut == 0 || at + cut in ends)
  }

  lemma CutInFirst(table: Table, packets: seq<seq<byte>>, at: nat, cut: nat)
    requires ValidTable(table) && AllPackets(table, packets) && packets != [] && cut < |packets[0]|
    ensures cut <= |Concat(packets)| && PrefixSeen(Walked(table, Concat(packets)[..cut]), Ends(packets, at), at, cut)
  {
    var first, tail := packets[0], Concat(packets[1..]);
    PacketsAreNotEmpty(table, packets);
    NoEndBeforeFirst(packets, at, cut);
    assert (first + tail)[..cut] == first[..cut];
    CutOfPacket(table, first, cut);
  }

  lemma NoEndBeforeFirst(packets: seq<seq<byte>>, at: nat, cut: nat)
    requires packets != [] && cut < |packets[0]| && forall i | 0 <= i < |packets| :: packets[i] != []
    ensures at + cut !in Ends(packets, at) && EndedBy(Ends(packets, at), at + cut) == 0
  {
    EndsAreBehind(packets[1..], at + |packets[0]|);
  }

  lemma CutOfPacket(table: Table, p: seq<byte>, cut: nat)
    requires ValidTable(table) && IsPacket(table, p) && cut < |p|
    ensures Walked(table, p[..cut]) == WalkOutcome(0, cut == 0, None)
  {
    if cut > 0 {
      assert PacketLen(table, p[..cut]) == Some(|p|);
    }
  }

  lemma CutBehindFirst(table: Table, first: seq<byte>, rest: seq<byte>, ends: seq<nat>, at: nat, cut: nat)
    requires ValidTable(table) && IsPacket(table, first) && |first| <= cut <= |first + rest|
    requires PrefixSeen(Walked(table, rest[..cut - |first|]), ends, at + |first|, cut - |first|)
    requires forall e | e in ends :: e > at + |first|
    ensures PrefixSeen(Walked(table, (first + rest)[..cut]), [at + |first|] + ends, at, cut)
  {
    assert (first + rest)[..cut] == first + rest[..cut - |first|];
    WalkStep(table, first, rest[..cut - |first|]);
    assert ([at + |first|] + ends)[1..] == ends;
  }

  /** Every prefix of a composed frame walks to exactly the packets that end
      at or before the cut, and is complete exactly at a packet boundary. */
  lemma {:induction false} PrefixWalk(table: Table, packets: seq<seq<byte>>, at: nat, cut: nat)
    requires ValidTable(table) && AllPackets(table, packets) && cut <= |Concat(packets)|
    ensures PrefixSeen(Walked(table, Concat(packets)[..cut]), Ends(packets, at), at, cut)
  {
    if packets != [] {
      var first, rest := packets[0], packets[1..];
      if cut < |first| {
        CutInFirst(table, packets, at, cut);
      } else {
        PacketsAreNotEmpty(table, rest);
        EndsAreBehind(rest, at + |first|);
        PrefixWalk(table, rest, at + |first|, cut - |first|);
        CutBehindFirst(table, first, Concat(rest), Ends(rest, at + |first|), at, cut);
      }
    }
  }

  // ------------------------------------------------------- composing

  const KNOWN_CODES: seq<byte> := [1, 2, 4, 5, 6, 7, 8, 50]

  /** The packet the composer makes of the bytes at hand: a known code, then
      the input bytes, then zeros. */
  function Pad(code: byte, data: seq<byte>, len: nat): (p: seq<byte>)
    requires data != [] && len >= 1
    ensures |p| == len && p[0] == code
  {
    [code] + seq(len - 1, j requires 0 <= j < len - 1 => if j + 1 < |data| then data[j + 1] else 0)
  }

  function CodeFor(b: byte): byte {
    KNOWN_CODES[b as int % 8]
  }

  /** The packets the composer makes of the input, at most `room` of them. */
  ghost function Composed(data: seq<byte>, room: nat): seq<seq<byte>>
    decreases |data|
  {
    if data == [] || room == 0 then []
    else
      var len := MAIN_FEED[CodeFor(data[0])];
      [Pad(CodeFor(data[0]), data, len)] + Composed(if len <= |data| then data[len..] else [], room - 1)
  }

  lemma {:induction false} ComposedArePackets(data: seq<byte>, room: nat)
    ensures AllPackets(MAIN_FEED, Composed(data, room)) && |Composed(data, room)| <= room
    decreases |data|
  {
    if data != [] && room > 0 {
      var len := MAIN_FEED[CodeFor(data[0])];
      ComposedArePackets(if len <= |data| then data[len..] else [], room - 1);
    }
  }

  /** What stands at place `i` of a composed frame: at a packet's start the code
      its input byte picks, elsewhere the input byte, and zero behind the input. */
  ghost predicate ComposedByte(code: byte -> byte, data: seq<byte>, ends: seq<nat>, at: nat, i: nat, b: byte) {
    if i == 0 || at + i in ends then i < |data| && b == code(data[i])
    else b == if i < |data| then data[i] else 0
  }

  /** Packets laid out of the input one behind the other, each begun with the
      code its first input byte picks. */
  ghost predicate LaidFrom(code: byte -> byte, data: seq<byte>, packets: seq<seq<byte>>, room: nat)
    decreases |packets|
  {
    if packets == [] then data == [] || room == 0
    else
      && data != [] && room > 0 && packets[0] != [] && packets[0] == Pad(code(data[0]), data, |packets[0]|)
      && LaidFrom(code, From(data, |packets[0]|), packets[1..], room - 1)
  }

  lemma {:induction false} ComposedIsLaid(data: seq<byte>, room: nat)
    ensures LaidFrom(CodeFor, data, Composed(data, room), room)
    decreases |data|
  {
    if data != [] && room > 0 {
      var len := MAIN_FEED[CodeFor(data[0])];
      ComposedIsLaid(From(data, len), room - 1);
      assert Composed(data, room)[1..] == Composed(From(data, len), room - 1);
    }
  }

  lemma {:induction false} LaidLength(code: byte -> byte, data: seq<byte>, packets: seq<seq<byte>>, room: nat)
    requires LaidFrom(code, data, packets, room)
    ensures |packets| == room || |Concat(packets)| >= |data|
    decreases |packets|
  {
    if packets != [] {
      LaidLength(code, From(data, |packets[0]|), packets[1..], room - 1);
    }
  }

  lemma {:induction false} LaidByte(code: byte -> byte, data: seq<byte>, packets: seq<seq<byte>>, room: nat, at: nat, i: nat)
    requires LaidFrom(code, data, packets, room) && i < |Concat(packets)|
    requires forall k | 0 <= k < |packets| :: packets[k] != []
    ensures ComposedByte(code, data, Ends(packets, at), at, i, Concat(packets)[i])
    decreases |packets|
  {
    var first, others := packets[0], packets[1..];
    var ends, tail := Ends(others, at + |first|), Concat(others);
    EndsAreBehind(others, at + |first|);
    assert Concat(packets) == first + tail && Ends(packets, at) == [at + |first|] + ends;
    if i < |first| {
      ByteInFirst(code, data, first, ends, at, i);
    } else {
      LaidByte(code, From(data, |first|), others, room - 1, at + |first|, i - |first|);
      ByteBehind(code, data, |first|, ends, at, i, tail[i - |first|]);
    }
  }

  lemma ByteInFirst(code: byte -> byte, data: seq<byte>, first: seq<byte>, ends: seq<nat>, at: nat, i: nat)
    requires data != [] && i < |first| && first == Pad(code(data[0]), data, |first|)
    requires forall e | e in ends :: e > at + |first|
    ensures ComposedByte(code, data, [at + |first|] + ends, at, i, first[i])
  {
  }

  lemma ByteBehind(code: byte -> byte, data: seq<byte>, n: nat, ends: seq<nat>, at: nat, i: nat, b: byte)
    requires 0 < n <= i && (forall e | e in ends :: e > at + n)
    requires ComposedByte(code, From(data, n), ends, at + n, i - n, b)
    ensures ComposedByte(code, data, [at + n] + ends, at, i, b)
  {
  }

  /** The composer keeps every input byte that is not at a packet's start, and
      stops early only when it has no room for a packet. */
  lemma ComposedKeepsInput(data: seq<byte>, room: nat)
    ensures var packets := Composed(data, room); var frame := Concat(packets);
            && (|packets| == room || |frame| >= |data|)
            && forall i | 0 <= i < |frame| :: ComposedByte(CodeFor, data, Ends(packets, 0), 0, i, frame[i])
  {
    var packets := Composed(data, room);
    ComposedIsLaid(data, room);
    ComposedArePackets(data, room);
    PacketsAreNotEmpty(MAIN_FEED, packets);
    LaidLength(CodeFor, data, packets, room);
    AllBytesLaid(CodeFor, data, packets, room);
  }

  lemma AllBytesLaid(code: byte -> byte, data: seq<byte>, packets: seq<seq<byte>>, room: nat)
    requires LaidFrom(code, data, packets, room)
    requires forall k | 0 <= k < |packets| :: packets[k] != []
    ensures forall i | 0 <= i < |Concat(packets)| :: ComposedByte(code, data, Ends(packets, 0), 0, i, Concat(packets)[i])
  {
    forall i | 0 <= i < |Concat(packets)| ensures ComposedByte(code, data, Ends(packets, 0), 0, i, Concat(packets)[i]) {
      LaidByte(code, data, packets, room, 0, i);
    }
  }

  /** The input bytes pick the known codes in turn. */
  lemma CodesInTurn(b: byte)
    ensures CodeFor(b) == [1, 2, 4, 5, 6, 7, 8, 50][b as int % 8]
  {
  }

  lemma {:induction false} EndsAppend(packets: seq<seq<byte>>, p: seq<byte>, at: nat)
    ensures Ends(packets + [p], at) == Ends(packets, at) + [at + |Concat(packets)| + |p|]
  {
    if packets == [] {
      assert [p][1..] == [];
    } else {
      EndsAppend(packets[1..], p, at + |packets[0]|);
      assert (packets + [p])[1..] == packets[1..] + [p] && (packets + [p])[0] == packets[0];
      assert |Concat(packets)| == |packets[0]| + |Concat(packets[1..])|;
    }
  }

  lemma {:induction false} ConcatAppend(packets: seq<seq<byte>>, p: seq<byte>)
    ensures Concat(packets + [p]) == Concat(packets) + p
  {
    if packets == [] {
      assert [p][1..] == [];
    } else {
      ConcatAppend(packets[1..], p);
      assert (packets + [p])[1..] == packets[1..] + [p];
      assert (packets + [p])[0] == packets[0];
    }
  }

  lemma Laid(made: seq<seq<byte>>, p: seq<byte>, frame: seq<byte>, ends: seq<nat>)
    requires frame == Concat(made) && ends == Ends(made, 0)
    ensures frame + p == Concat(made + [p]) && ends + [|frame + p|] == Ends(made + [p], 0)
  {
    ConcatAppend(made, p);
    EndsAppend(made, p, 0);
  }

  lemma MainFeedKnowsCodes(b: byte)
    ensures CodeFor(b) in MAIN_FEED && MAIN_FEED[CodeFor(b)] >= 1
  {
  }

  /** Where the composer goes on: the input behind `i`, or nothing. */
  function From(data: seq<byte>, i: nat): seq<byte> {
    if i <= |data| then data[i..] else []
  }

  lemma ComposedStep(data: seq<byte>, i: nat, room: nat)
    requires i < |data| && room > 0
    ensures CodeFor(data[i]) in MAIN_FEED
    ensures Composed(From(data, i), room)
         == [Pad(CodeFor(data[i]), From(data, i), MAIN_FEED[CodeFor(data[i])])]
            + Composed(From(data, i + MAIN_FEED[CodeFor(data[i])]), room - 1)
  {
    var rest, len := data[i..], MAIN_FEED[CodeFor(data[i])];
    assert len <= |rest| ==> rest[len..] == data[i + len..];
    assert len == |rest| ==> rest[len..] == [];
  }

  /** Builds a frame of known packets from arbitrary bytes, with the end
      offset of every packet. */
  method Compose(data: seq<byte>) returns (frame: seq<byte>, ends: seq<nat>)
    ensures frame == Concat(Composed(data, 64)) && ends == Ends(Composed(data, 64), 0)
  {
    assert From(data, 0) == data;
    frame, ends := LayPackets(data, Composed(data, 64));
  }

  /** The composer's loop; `all` are the packets it is to lay. */
  method LayPackets(data: seq<byte>, ghost all: seq<seq<byte>>) returns (frame: seq<byte>, ends: seq<nat>)
    requires all == Composed(From(data, 0), 64)
    ensures frame == Concat(all) && ends == Ends(all, 0)
  {
    frame, ends := [], [];
    ghost var made: seq<seq<byte>> := [];
    var i: nat := 0;
    NothingLaid(all, data);
    while i < |data| && |ends| < 64
      invariant Composing(all, data, i, made, frame, ends)
      decreases |data| - i
    {
      ComposeOne(all, data, i, made, frame, ends);
      var packet := NextPacket(data, i);
      i := i + |packet|;
      frame := frame + packet;
      made := made + [packet];
      ends := ends + [|frame|];
    }
    ComposeEnds(all, data, i, made, frame, ends);
  }

  /** The packet of the code that the byte at `i` picks. */
  method NextPacket(data: seq<byte>, i: nat) returns (packet: seq<byte>)
    requires i < |data|
    ensures CodeFor(data[i]) in MAIN_FEED && |packet| == MAIN_FEED[CodeFor(data[i])]
    ensures packet == Pad(CodeFor(data[i]), From(data, i), |packet|)
  {
    MainFeedKnowsCodes(data[i]);
    var code := CodeFor(data[i]);
    packet := ComposePacket(data, i, code, MAIN_FEED[code]);
  }

  /** The frame so far, and what is still to come. */
  ghost predicate Composing(all: seq<seq<byte>>, data: seq<byte>, i: nat, made: seq<seq<byte>>, frame: seq<byte>, ends: seq<nat>) {
    && frame == Concat(made) && ends == Ends(made, 0) && |ends| <= 64
    && all == made + Composed(From(data, i), 64 - |ends|)
  }

  lemma ComposeOne(all: seq<seq<byte>>, data: seq<byte>, i: nat, made: seq<seq<byte>>, frame: seq<byte>, ends: seq<nat>)
    requires Composing(all, data, i, made, frame, ends) && i < |data| && |ends| < 64
    ensures CodeFor(data[i]) in MAIN_FEED
    ensures var len := MAIN_FEED[CodeFor(data[i])]; var packet := Pad(CodeFor(data[i]), From(data, i), len);
            Composing(all, data, i + len, made + [packet], frame + packet, ends + [|frame + packet|])
  {
    ComposedMore(all, data, i, made, 64 - |ends|);
    Laid(made, Pad(CodeFor(data[i]), From(data, i), MAIN_FEED[CodeFor(data[i])]), frame, ends);
  }

  lemma NothingLaid(all: seq<seq<byte>>, data: seq<byte>)
    requires all == Composed(From(data, 0), 64)
    ensures Composing(all, data, 0, [], [], [])
  {
    assert all == [] + all;
  }

  lemma ComposeEnds(all: seq<seq<byte>>, data: seq<byte>, i: nat, made: seq<seq<byte>>, frame: seq<byte>, ends: seq<nat>)
    requires Composing(all, data, i, made, frame, ends) && (i >= |data| || |ends| == 64)
    ensures frame == Concat(all) && ends == Ends(all, 0)
  {
    assert made + [] == made;
  }

  lemma ComposedMore(all: seq<seq<byte>>, data: seq<byte>, i: nat, made: seq<seq<byte>>, room: nat)
    requires i < |data| && room > 0 && all == made + Composed(From(data, i), room)
    ensures CodeFor(data[i]) in MAIN_FEED
    ensures var packet := Pad(CodeFor(data[i]), From(data, i), MAIN_FEED[CodeFor(data[i])]);
            all == (made + [packet]) + Composed(From(data, i + MAIN_FEED[CodeFor(data[i])]), room - 1)
  {
    ComposedStep(data, i, room);
    Regroup(made, Pad(CodeFor(data[i]), From(data, i), MAIN_FEED[CodeFor(data[i])]),
            Composed(From(data, i + MAIN_FEED[CodeFor(data[i])]), room - 1));
  }

  lemma Regroup<T>(a: seq<T>, x: T, b: seq<T>)
    ensures a + ([x] + b) == (a + [x]) + b
  {
  }

  /** A zeroed packet, filled behind its code with the bytes behind `i`. */
  method ComposePacket(data: seq<byte>, i: nat, code: byte, len: nat) returns (packet: seq<byte>)
    requires i < |data| && len >= 1
    ensures packet == Pad(code, From(data, i), len)
  {
    packet := seq(len, _ => 0);
    var slot := 1;
    while slot < len && i + slot < |data|
      invariant 1 <= slot <= len && |packet| == len
      invariant forall j | 1 <= j < slot :: i + j < |data| && packet[j] == data[i + j]
      invariant forall j | slot <= j < len :: packet[j] == 0
    {
      packet := packet[slot := data[i + slot]];
      slot := slot + 1;
    }
    packet := packet[0 := code];
  }

  /** The walk undoes the composer, on the whole frame and on every prefix. */
  method ComposeThenWalk(data: seq<byte>, cut: nat) returns (frame: seq<byte>, ends: seq<nat>, whole: WalkOutcome, part: WalkOutcome)
    requires cut <= |Concat(Composed(data, 64))|
    ensures frame == Concat(Composed(data, 64)) && ends == Ends(Composed(data, 64), 0)
    ensures whole.complete && whole.packets == |ends| && whole.firstDisconnect == FirstReason(Composed(data, 64))
    ensures part.packets == EndedBy(ends, cut)
    ensures part.complete <==> cut == 0 || cut in ends
  {
    ComposedArePackets(data, 64);
    WalkOfPackets(MAIN_FEED, Composed(data, 64));
    PrefixWalk(MAIN_FEED, Composed(data, 64), 0, cut);
    PacketsAreNotEmpty(MAIN_FEED, Composed(data, 64));
    EndsAreBehind(Composed(data, 64), 0);
    frame, ends := Compose(data);
    assert Agree(MAIN_FEED, DispatchFrame) by { TableAgreesWithDispatcher(); }
    whole := Walk(MAIN_FEED, DispatchFrame, frame);
    part := Walk(MAIN_FEED, DispatchFrame, frame[..cut]);
  }

  // ------------------------------------------- the production search

  /** What the search for a stacked disconnect is to answer: the first reason
      of a frame that walks end to end within the packet cap. A cap of
      `u32::MAX` is no cap, because the counter saturates there. */
  ghost function StackedReason(table: Table, frame: seq<byte>, maxPackets: nat): Option<nat>
    requires ValidTable(table)
  {
    var w := Walked(table, frame);
    if w.complete && (w.packets <= maxPackets || maxPackets == U32_MAX) then w.firstDisconnect else None
  }

  /** In terms of packets: the frame is a row of known packets, no more than the
      cap, and the reason is that of its first disconnect. */
  lemma StackedReasonExactly(table: Table, frame: seq<byte>, maxPackets: nat, reason: nat)
    requires ValidTable(table) && maxPackets < U32_MAX
    ensures StackedReason(table, frame, maxPackets) == Some(reason) <==>
            exists packets, k: nat ::
              AllPackets(table, packets) && Concat(packets) == frame && |packets| <= maxPackets
              && IsFirstDisconnect(packets, k, reason)
  {
    if StackedReason(table, frame, maxPackets) == Some(reason) {
      var packets := Cut(table, frame);
      CutIsConcat(table, frame);
      WalkOfPackets(table, packets);
      FirstReasonExactly(packets, reason);
    }
    if packets, k: nat :| AllPackets(table, packets) && Concat(packets) == frame && |packets| <= maxPackets
                          && IsFirstDisconnect(packets, k, reason)
    {
      WalkOfPackets(table, packets);
      FirstReasonExactly(packets, reason);
    }
  }

  lemma LastTwoBytes(table: Table, rest: seq<byte>, len: nat)
    requires TenByteDisconnect(table) && PacketLen(table, rest) == Some(len) && len <= |rest|
    ensures ReasonOf(rest[..len])
         == if rest[0] == DISCONNECT then Some(LittleEndian(rest[len - 2], rest[len - 1])) else None
  {
  }

  ghost predicate WalkedTo(table: Table, frame: seq<byte>, offset: nat, seen: nat, found: Option<nat>)
    requires ValidTable(table)
  {
    WalkedSoFar(table, frame, offset, WalkOutcome(seen, true, found))
  }

  /** The reason in the last two bytes of a disconnect, unless one was found. */
  function FirstFound(found: Option<nat>, rest: seq<byte>, len: nat): Option<nat>
    requires rest != [] && len <= |rest| && (rest[0] == DISCONNECT ==> len >= 2)
  {
    if found.None? && rest[0] == DISCONNECT then Some(LittleEndian(rest[len - 2], rest[len - 1])) else found
  }

  /** One more packet counted, and its reason kept if it is the first. */
  lemma StackedStep(table: Table, frame: seq<byte>, offset: nat, rest: seq<byte>, len: nat, seen: nat, found: Option<nat>)
    requires TenByteDisconnect(table) && WalkedTo(table, frame, offset, seen, found) && offset < |frame|
    requires rest == frame[offset..] && len <= |rest| && PacketLen(table, rest) == Some(len)
    ensures rest[0] == DISCONNECT ==> len >= 2
    ensures WalkedTo(table, frame, offset + len, seen + 1, FirstFound(found, rest, len))
  {
    WalksOn(table, frame, offset, WalkOutcome(seen, true, found), len);
    LastTwoBytes(table, rest, len);
  }

  /** A frame with bytes left has a packet left, if it is complete at all. */
  lemma MoreToCome(table: Table, frame: seq<byte>, offset: nat, seen: nat, found: Option<nat>, maxPackets: nat)
    requires ValidTable(table) && WalkedTo(table, frame, offset, seen, found)
    requires offset < |frame| && maxPackets != U32_MAX && seen >= maxPackets
    ensures StackedReason(table, frame, maxPackets).None?
  {
  }

  /** A frame that stops before its end has no reason to give. */
  lemma StopsShort(table: Table, frame: seq<byte>, offset: nat, seen: nat, found: Option<nat>, maxPackets: nat)
    requires ValidTable(table) && WalkedTo(table, frame, offset, seen, found) && offset < |frame|
    requires var len := PacketLen(table, frame[offset..]); len.None? || offset + len.value > |frame|
    ensures StackedReason(table, frame, maxPackets).None?
  {
  }

  lemma WalkedAll(table: Table, frame: seq<byte>, seen: nat, found: Option<nat>, maxPackets: nat)
    requires ValidTable(table) && WalkedTo(table, frame, |frame|, seen, found)
    requires seen <= maxPackets || maxPackets == U32_MAX
    ensures StackedReason(table, frame, maxPackets) == found
  {
    assert frame[|frame|..] == [] && Walked(table, []) == WalkOutcome(0, true, None);
    assert Walked(table, frame) == WalkOutcome(seen, true, found);
  }

  /** `stacked_disconnect_reason`: counts each packet before reading it, and
      reads the reason from the packet's last two bytes. */
  method StackedDisconnectReason(table: Table, frame: seq<byte>, maxPackets: nat) returns (r: Option<nat>)
    requires TenByteDisconnect(table) && maxPackets <= U32_MAX
    ensures r == StackedReason(table, frame, maxPackets)
  {
    var offset, packets, found := 0, 0, None;
    assert frame[0..] == frame;
    ghost var seen := 0;
    while offset < |frame|
      invariant offset <= |frame| && packets == (if seen <= U32_MAX then seen else U32_MAX)
      invariant packets <= maxPackets
      invariant WalkedTo(table, frame, offset, seen, found)
    {
      packets := if packets < U32_MAX then packets + 1 else U32_MAX;
      var rest := frame[offset..];
      if packets > maxPackets {
        MoreToCome(table, frame, offset, seen, found, maxPackets);
        return None;
      }
      var len := PacketLen(table, rest);
      if len.None? {
        StopsShort(table, frame, offset, seen, found, maxPackets);
        return None;
      }
      var end := offset + len.value;
      if end > |frame| {
        StopsShort(table, frame, offset, seen, found, maxPackets);
        return None;
      }
      StackedStep(table, frame, offset, rest, len.value, seen, found);
      found := FirstFound(found, rest, len.value);
      offset := end;
      seen := seen + 1;
    }
    WalkedAll(table, frame, seen, found, maxPackets);
    r := found;
  }

  /** A ten-byte disconnect packet with a given reason. */
  function DisconnectPacket(lo: byte, hi: byte): seq<byte> {
    [DISCONNECT, 10, 0, 0, 0, 0, 0, 0, lo, hi]
  }

  /** A disconnect stacked behind data is found: its own reason, unless the
      data already held one. */
  lemma StackedDisconnectIsFound(table: Table, frame: seq<byte>, lo: byte, hi: byte, maxPackets: nat)
    requires TenByteDisconnect(table) && Walked(table, frame).complete
    requires Walked(table, frame).packets < maxPackets
    ensures StackedReason(table, frame + DisconnectPacket(lo, hi), maxPackets)
         == (if Walked(table, frame).firstDisconnect.Some? then Walked(table, frame).firstDisconnect
             else Some(lo as int + 256 * hi as int))
  {
    WalkDistributes(table, frame, DisconnectPacket(lo, hi));
    WalkOfDisconnect(table, DisconnectPacket(lo, hi));
  }

  lemma WalkOfDisconnect(table: Table, p: seq<byte>)
    requires TenByteDisconnect(table) && |p| == DISCONNECT_PACKET_SIZE && p[0] == DISCONNECT
    ensures Walked(table, p) == WalkOutcome(1, true, Some(LittleEndian(p[8], p[9])))
  {
    assert p + [] == p;
    WalkStep(table, p, []);
  }

  // ------------------------------------------- the classifier

  datatype FrameClass = Data | Disconnect(reason: nat)

  ghost function ClassOf(reason: Option<nat>): FrameClass {
    if reason.Some? then Disconnect(reason.value) else Data
  }

  /** `classify_frame` on the main feed: an exact ten-byte frame is read at
      fixed offsets, every other length is walked. */
  method ClassifyMainFeed(frame: seq<byte>) returns (class': FrameClass)
    ensures class' == ClassOf(StackedReason(MAIN_FEED, frame, 70_000))
    ensures |frame| == 10 ==>
              class' == if frame[0] == 50 then Disconnect(frame[8] as int + 256 * frame[9] as int) else Data
  {
    if |frame| != DISCONNECT_PACKET_SIZE {
      var stacked := StackedDisconnectReason(MAIN_FEED, frame, MAX_PACKETS_PER_FRAME);
      return if stacked.Some? then Disconnect(stacked.value) else Data;
    }
    TenBytes(frame);
    if frame[0] != DISCONNECT {
      return Data;
    }
    class' := Disconnect(LittleEndian(frame[8], frame[9]));
  }

  /** A ten-byte frame is a disconnect or nothing: no other packet of the
      table leaves a whole packet behind it. */
  lemma TenBytes(frame: seq<byte>)
    requires |frame| == DISCONNECT_PACKET_SIZE
    ensures StackedReason(MAIN_FEED, frame, MAX_PACKETS_PER_FRAME)
         == if frame[0] == 50 then Some(frame[8] as int + 256 * frame[9] as int) else None
  {
    var len := PacketLen(MAIN_FEED, frame);
    if frame[0] == DISCONNECT {
      WalkOfDisconnect(MAIN_FEED, frame);
    } else if frame[0] == 7 {
      assert |frame[8..]| == 2;
      assert !Walked(MAIN_FEED, frame[8..]).complete;
    }
  }
}

/** A station: its TNC connection, its clock, its payload counter and its packet receiver. */
module Station {
  import opened Basics
  import opened Proto
  import opened IdGenerator
  import opened Ax25
  import opened Broadcast
  import opened PacketReceiver
  import Reassembly
  import Delivery
  import Kiss
  import Link

  const BROADCAST := CallsignConfig([0x41, 0x50, 0x5a, 0x32, 0x32, 0x32], 0)

  /** The first character of a payload. */
  const OPENING: Byte := 0x7b

  /** The foreign codecs: protobuf for both messages, and base64. */
  datatype Codecs = Codecs(
    packet: Codec<Packet>,
    chunk: Codec<PacketChunk>,
    toText: Bytes -> Bytes,
    fromText: Bytes -> Bytes)

  /** What the theorems assume of them. */
  ghost predicate Reliable(codecs: Codecs) {
    && RoundTrips(codecs.packet)
    && RoundTrips(codecs.chunk)
    && (forall bytes :: codecs.fromText(codecs.toText(bytes)) == bytes)
    && (forall bytes :: Link.Plain(codecs.toText(bytes)))
  }

  /** Who sends, through whom, with which compiler's `char`. */
  datatype Sender = Sender(signedChar: bool, source: CallsignConfig, digipeaters: seq<CallsignConfig>)

  /** A fragment as an APRS payload. */
  function PayloadOf(codecs: Codecs, c: Chunk): Bytes {
    [OPENING] + codecs.toText(codecs.chunk.encode(ChunkMessage(c)))
  }

  /** A fragment as bytes for the TNC. */
  function FrameOf(codecs: Codecs, from: Sender, c: Chunk): Bytes
    requires Sendable(from.source, BROADCAST, from.digipeaters)
  {
    Link.Transmit(from.signedChar, PayloadOf(codecs, c), from.source, BROADCAST, from.digipeaters)
  }

  datatype Transmission = Transmission(at: nat, bytes: Bytes)

  function At(t: Transmission): nat { t.at }

  /** `Exit` is the program's exit on arguments it cannot encode. */
  datatype SendResult = Ok | Failed | Exit

  /** What `now` has beyond `before` are the frames of `chunks`, in order. */
  ghost predicate Framed(before: seq<Transmission>, now: seq<Transmission>, codecs: Codecs, from: Sender,
                         chunks: seq<Chunk>)
    requires Sendable(from.source, BROADCAST, from.digipeaters)
  {
    && before <= now
    && |now| == |before| + |chunks|
    && (forall j :: 0 <= j < |chunks| ==> now[|before| + j].bytes == FrameOf(codecs, from, chunks[j]))
  }

  /** The same, and none left before its turn. */
  ghost predicate Carried(before: seq<Transmission>, now: seq<Transmission>, codecs: Codecs, from: Sender,
                          chunks: seq<Chunk>, start: nat, interval: nat)
    requires Sendable(from.source, BROADCAST, from.digipeaters)
  {
    Framed(before, now, codecs, from, chunks) && Paced(Map(At, now[|before|..]), start, interval)
  }

  // ---- What a receiver makes of frames ----

  /** `Crash` is the uncaught exception of `substr(1)` on an empty payload. */
  datatype Signal = Malformed | Ignored | Crash | Got(chunk: Chunk)

  function Interpret(frame: Bytes, codecs: Codecs): Signal {
    match ParseFrame(frame)
    case Rejected(_) => Malformed
    case Frame(_, destination, _, payload) =>
      if destination != BROADCAST then Ignored
      else if payload == [] then Crash
      else
        match codecs.chunk.decode(codecs.fromText(payload[1..]))
        case Some(ChunkMessage(c)) => Got(c)
        case _ => Ignored
  }

  lemma {:induction false} BroadcastHeard()
    ensures Heard(BROADCAST) == BROADCAST
  {
    HeardExactly(BROADCAST);
    assert Faithful(BROADCAST);
  }

  /** A frame ends the program if and only if it is well formed, to the broadcast callsign, and has no payload. */
  lemma {:induction false} CrashesExactly(frame: Bytes, codecs: Codecs)
    ensures var r := ParseFrame(frame);
            Interpret(frame, codecs) == Crash <==>
            r.Frame? && r.destination == BROADCAST && |frame| == 16 + 7 * |r.digipeaters|
  {
    ParsedLength(frame);
  }

  /** Of the frames a station can send: those without payload, to what is heard as the broadcast callsign. */
  lemma {:induction false} SentCrashes(payload: Bytes, source: CallsignConfig, destination: CallsignConfig,
                                       digipeaters: seq<CallsignConfig>, codecs: Codecs)
    requires Sendable(source, destination, digipeaters)
    ensures Interpret(Body(payload, source, destination, digipeaters), codecs) == Crash <==>
            payload == [] && Heard(destination) == BROADCAST && |digipeaters| < MAX_DIGIPEATERS
  {
    BodyHeard(payload, source, destination, digipeaters);
  }

  /** For instance: sixteen bytes, to the broadcast callsign from a station `N0CALL`. */
  lemma {:induction false} EmptyPayloadCrashes(codecs: Codecs)
    ensures var source := CallsignConfig([0x4e, 0x30, 0x43, 0x41, 0x4c, 0x4c], 0);
            |Body([], source, BROADCAST, [])| == 16 && Interpret(Body([], source, BROADCAST, []), codecs) == Crash
  {
    var source := CallsignConfig([0x4e, 0x30, 0x43, 0x41, 0x4c, 0x4c], 0);
    SentCrashes([], source, BROADCAST, [], codecs);
    BroadcastHeard();
    ListLength([BROADCAST, source] + []);
  }

  /** The opening brace is skipped, never checked: a payload counts the same whatever its first character. */
  lemma {:induction false} BraceUnread(first: Byte, text: Bytes, source: CallsignConfig, destination: CallsignConfig,
                                       digipeaters: seq<CallsignConfig>, codecs: Codecs)
    requires Sendable(source, destination, digipeaters)
    ensures Interpret(Body([first] + text, source, destination, digipeaters), codecs)
            == Interpret(Body([OPENING] + text, source, destination, digipeaters), codecs)
  {
    BodyHeard([first] + text, source, destination, digipeaters);
    BodyHeard([OPENING] + text, source, destination, digipeaters);
    assert ([first] + text)[1..] == text == ([OPENING] + text)[1..];
  }

  /** How one call of `ReceiveBroadcastPacket` ends; a packet comes with the source of the frame that completed it. */
  datatype Received = Waiting | BadFrame | Arrived(packet: Packet, source: CallsignConfig) | Crashed

  /** Its result, the cells after it, the bytes left unread, and the digipeaters of all the frames it read. */
  datatype Call = Call(result: Received, cells: Reassembly.Cells, unread: Bytes, digipeaters: seq<CallsignConfig>)

  function ReceiveFrom(cells: Reassembly.Cells, incoming: Bytes, codecs: Codecs): Call
    decreases |incoming|
  {
    match Kiss.DecodeFrom(Kiss.IDLE, incoming)
    case None => Call(Waiting, cells, [], [])
    case Some((frame, unread)) =>
      var heard := ParseFrame(frame).digipeaters;
      match Interpret(frame, codecs)
      case Malformed => Call(BadFrame, cells, unread, heard)
      case Crash => Call(Crashed, cells, unread, heard)
      case Ignored => HeardBefore(heard, ReceiveFrom(cells, unread, codecs))
      case Got(c) =>
        var (cells', outcome) := Reassembly.Step(cells, c, codecs.packet.decode);
        match outcome
        case Nothing => HeardBefore(heard, ReceiveFrom(cells', unread, codecs))
        case Deliver(p) => Call(Arrived(p, ParseFrame(frame).source), cells', unread, heard)
        case Abort => Call(Crashed, cells', unread, heard)
  }

  function HeardBefore(heard: seq<CallsignConfig>, call: Call): Call {
    call.(digipeaters := heard + call.digipeaters)
  }

  lemma {:induction false} HeardBeforeTwice(first: seq<CallsignConfig>, second: seq<CallsignConfig>, call: Call)
    ensures HeardBefore(first, HeardBefore(second, call)) == HeardBefore(first + second, call)
    ensures HeardBefore([], call) == call
  {
    assert first + (second + call.digipeaters) == first + second + call.digipeaters;
    assert [] + call.digipeaters == call.digipeaters;
  }

  lemma {:induction false} NothingCarried(sent: seq<Transmission>, codecs: Codecs, from: Sender, start: nat,
                                          interval: nat)
    ensures Sendable(from.source, BROADCAST, from.digipeaters) ==>
            Carried(sent, sent, codecs, from, [], start, interval)
  {
  }

  lemma {:induction false} CarriedGrows(before: seq<Transmission>, was: seq<Transmission>, now: seq<Transmission>,
                                        codecs: Codecs, from: Sender, gone: seq<Chunk>, chunk: Chunk, start: nat,
                                        interval: nat)
    requires Sendable(from.source, BROADCAST, from.digipeaters)
    requires Carried(before, was, codecs, from, gone, start, interval)
    requires |now| == |was| + 1 && was <= now && now[|was|].bytes == FrameOf(codecs, from, chunk)
    requires now[|was|].at >= start + |gone| * interval
    requires forall j :: |before| <= j < |was| ==> was[j].at <= now[|was|].at
    ensures Carried(before, now, codecs, from, gone + [chunk], start, interval)
  {
    var earlierTimes, times := Map(At, was[|before|..]), Map(At, now[|before|..]);
    forall j | 0 <= j < |times| ensures times[j] >= start + j * interval {
      assert j < |earlierTimes| ==> times[j] == earlierTimes[j];
    }
    forall i, j | 0 <= i < j < |times| ensures times[i] <= times[j] {
      assert j < |earlierTimes| ==> times[j] == earlierTimes[j];
      assert times[i] == earlierTimes[i] == was[|before| + i].at;
    }
  }

  /** The sending loops' invariant: what has gone out by `clock`, and when the next fragment may. */
  ghost predicate InStep(before: seq<Transmission>, now: seq<Transmission>, clock: nat, codecs: Codecs, from: Sender,
                         gone: seq<Chunk>, start: nat, interval: nat, next: nat) {
    && clock >= next == start + |gone| * interval
    && (forall j :: |before| <= j < |now| ==> now[j].at <= clock)
    && (if Sendable(from.source, BROADCAST, from.digipeaters)
        then Carried(before, now, codecs, from, gone, start, interval)
        else gone == [] && now == before)
  }

  lemma {:induction false} InStepLater(before: seq<Transmission>, now: seq<Transmission>, clock: nat, later: nat,
                                       codecs: Codecs, from: Sender, gone: seq<Chunk>, start: nat, interval: nat,
                                       next: nat)
    requires InStep(before, now, clock, codecs, from, gone, start, interval, next) && clock <= later
    ensures InStep(before, now, later, codecs, from, gone, start, interval, next)
  {
  }

  lemma {:induction false} InStepSent(before: seq<Transmission>, was: seq<Transmission>, now: seq<Transmission>,
                                      clock: nat, later: nat, codecs: Codecs, from: Sender, gone: seq<Chunk>,
                                      chunk: Chunk, start: nat, interval: nat, next: nat)
    requires InStep(before, was, clock, codecs, from, gone, start, interval, next)
    requires Sendable(from.source, BROADCAST, from.digipeaters)
    requires |now| == |was| + 1 && was <= now && now[|was|].bytes == FrameOf(codecs, from, chunk)
    requires clock <= now[|was|].at <= later && next + interval <= later
    ensures InStep(before, now, later, codecs, from, gone + [chunk], start, interval, next + interval)
  {
    CarriedGrows(before, was, now, codecs, from, gone, chunk, start, interval);
    assert |gone + [chunk]| * interval == |gone| * interval + interval;
  }

  lemma {:induction false} AllSendable(source: CallsignConfig, destination: CallsignConfig,
                                       digipeaters: seq<CallsignConfig>)
    requires |digipeaters| <= MAX_DIGIPEATERS
    ensures AllEncodable([destination, source] + digipeaters) <==> Sendable(source, destination, digipeaters)
  {
    var all := [destination, source] + digipeaters;
    assert all[0] == destination && all[1] == source;
    assert forall i :: 0 <= i < |digipeaters| ==> digipeaters[i] == all[i + 2];
  }

  /** A call has ended as `call` says; after an exit nothing is said of cells and input. */
  ghost predicate Ends(call: Call, result: Received, cells: Reassembly.Cells, unread: Bytes,
                       heard: seq<CallsignConfig>)
  {
    && result == call.result && heard == call.digipeaters
    && (result != Crashed ==> cells == call.cells && unread == call.unread)
  }

  class AprsStation {
    const config: Config
    const codecs: Codecs
    const signedChar: bool
    const chunkReceiver: PacketChunkReceiver
    var nextPayloadId: U32
    var clock: nat
    var sent: seq<Transmission>
    var incoming: Bytes

    ghost predicate Valid()
      reads this, chunkReceiver
    {
      chunkReceiver.Valid() && chunkReceiver.parse == codecs.packet.decode
    }

    constructor (config: Config, codecs: Codecs, signedChar: bool, seed: nat)
      ensures Valid() && fresh(chunkReceiver) && chunkReceiver.cells == map[]
      ensures this.config == config && this.codecs == codecs && this.signedChar == signedChar
      ensures nextPayloadId == seed % WORD && clock == seed && sent == [] && incoming == []
    {
      this.config, this.codecs, this.signedChar := config, codecs, signedChar;
      nextPayloadId, clock, sent, incoming := Wrap(seed), seed, [], [];
      chunkReceiver := new PacketChunkReceiver(codecs.packet.decode);
    }

    /** One frame from the TNC. Digipeaters are appended to the caller's list, which is never cleared. */
    method Receive(digipeaters: seq<CallsignConfig>) returns (r: Option<Reception>, heard: seq<CallsignConfig>)
      modifies this`incoming
      ensures match Kiss.DecodeFrom(Kiss.IDLE, old(incoming))
              case None => r == None && incoming == [] && heard == digipeaters
              case Some((frame, unread)) =>
                && r == Some(ParseFrame(frame)) && incoming == unread
                && heard == digipeaters + ParseFrame(frame).digipeaters
    {
      heard := digipeaters;
      var frame;
      frame, incoming := Kiss.DecodeKISSFrame(incoming);
      if frame.None? {
        return None, heard;
      }
      var first := DecodeAX25Callsign(frame.value, 0);
      if first.None? {
        return Some(Rejected([])), heard;
      }
      var second := DecodeAX25Callsign(frame.value, 7);
      if second.None? {
        return Some(Rejected([])), heard;
      }
      var path := DecodeDigipeaters(frame.value, second.value.1);
      heard := heard + path.heard;
      if path.Bad? {
        return Some(Rejected(path.heard)), heard;
      }
      var offset := path.offset;
      if ByteAt(frame.value, offset) != 0x03 {
        return Some(Rejected(path.heard)), heard;
      }
      offset := offset + 1;
      if ByteAt(frame.value, offset) != 0xf0 {
        return Some(Rejected(path.heard)), heard;
      }
      offset := offset + 1;
      return Some(Frame(second.value.0, first.value.0, path.heard, frame.value[offset..])), heard;
    }

    /** One turn of the receive loop: how it ends the call, if it does. */
    method ReceiveOne(digipeaters: seq<CallsignConfig>) returns (r: Option<Received>, heard: seq<CallsignConfig>)
      requires Valid()
      modifies this`incoming, chunkReceiver
      ensures Valid()
      ensures var call := HeardBefore(digipeaters, ReceiveFrom(old(chunkReceiver.cells), old(incoming), codecs));
              match r
              case Some(result) => Ends(call, result, chunkReceiver.cells, incoming, heard)
              case None =>
                && |incoming| < |old(incoming)|
                && call == HeardBefore(heard, ReceiveFrom(chunkReceiver.cells, incoming, codecs))
    {
      ghost var cells, input := chunkReceiver.cells, incoming;
      var reception;
      reception, heard := Receive(digipeaters);
      if reception.None? {
        assert digipeaters + [] == digipeaters;
        return Some(Waiting), heard;
      }
      if reception.value.Rejected? {
        return Some(BadFrame), heard;
      }
      if reception.value.destination == BROADCAST {
        if reception.value.payload == [] {
          return Some(Crashed), heard;
        }
        var chunk := codecs.chunk.decode(codecs.fromText(reception.value.payload[1..]));
        if chunk.Some? && chunk.value.ChunkMessage? {
          var outcome := chunkReceiver.PushPacketChunk(chunk.value.chunk);
          match outcome {
            case Deliver(p) => return Some(Arrived(p, reception.value.source)), heard;
            case Abort => return Some(Crashed), heard;
            case Nothing =>
          }
        }
      }
      HeardBeforeTwice(digipeaters, reception.value.digipeaters, ReceiveFrom(chunkReceiver.cells, incoming, codecs));
      return None, heard;
    }

    /** Frames are read and pushed until a packet is complete, a frame is bad, or input runs out. */
    method ReceiveBroadcastPacket() returns (r: Received, digipeaters: seq<CallsignConfig>)
      requires Valid()
      modifies this`incoming, chunkReceiver
      ensures Valid()
      ensures Ends(ReceiveFrom(old(chunkReceiver.cells), old(incoming), codecs), r, chunkReceiver.cells, incoming,
                   digipeaters)
    {
      digipeaters := [];
      HeardBeforeTwice([], [], ReceiveFrom(chunkReceiver.cells, incoming, codecs));
      while true
        invariant Valid()
        invariant ReceiveFrom(old(chunkReceiver.cells), old(incoming), codecs)
               == HeardBefore(digipeaters, ReceiveFrom(chunkReceiver.cells, incoming, codecs))
        decreases |incoming|
      {
        var result;
        result, digipeaters := ReceiveOne(digipeaters);
        if result.Some? {
          return result.value, digipeaters;
        }
      }
    }

    /** Time passes by an unknown amount, never backwards. */
    method GetTimeNowUs() returns (now: nat)
      modifies this`clock
      ensures now == clock >= old(clock)
    {
      var elapsed: nat :| elapsed >= 0;
      clock := clock + elapsed;
      return clock;
    }

    method SleepUntil(end: nat)
      modifies this`clock
      ensures clock >= old(clock) && clock >= end
    {
      var now := GetTimeNowUs();
      if end > now {
        var late: nat :| late >= 0;
        clock := end + late;
      }
    }

    method GetNextPayloadId() returns (id: U32)
      modifies this`nextPayloadId
      ensures (id, nextPayloadId) == NextId(old(nextPayloadId))
    {
      id := nextPayloadId;
      nextPayloadId := Inc(nextPayloadId);
      if id == 0 {
        id := nextPayloadId;
        nextPayloadId := Inc(nextPayloadId);
      }
    }

    /** The addresses of a frame; `None` is the program's exit on one that cannot be encoded. */
    method EncodeAddresses(all: seq<CallsignConfig>) returns (r: Option<Bytes>)
      ensures r == if AllEncodable(all) then Some(EncodeList(all)) else None
    {
      var addresses: Bytes := [];
      for i := 0 to |all|
        invariant forall j :: 0 <= j < i ==> Encodable(all[j])
        invariant AllEncodable(all) ==> addresses + EncodeList(all[i..]) == EncodeList(all)
      {
        var address := EncodeAX25Callsign(all[i], i == |all| - 1);
        if address.None? {
          return None;
        }
        if AllEncodable(all) {
          EncodeListStep(all, i, addresses);
        }
        addresses := addresses + address.value;
      }
      assert all[|all|..] == [] && addresses + [] == addresses;
      return Some(addresses);
    }

    /** One frame to the TNC, whose socket may fail. */
    method Send(payload: Bytes, source: CallsignConfig, destination: CallsignConfig, digipeaters: seq<CallsignConfig>)
      returns (r: SendResult)
      modifies this`clock, this`sent
      ensures r == Exit <==> !Sendable(source, destination, digipeaters)
      ensures r == Ok ==>
              && |sent| == |old(sent)| + 1 && old(sent) <= sent && sent[|old(sent)|].at >= old(clock)
              && clock >= sent[|old(sent)|].at
              && sent[|old(sent)|].bytes == Link.Transmit(signedChar, payload, source, destination, digipeaters)
      ensures r != Ok ==> sent == old(sent)
      ensures clock >= old(clock)
    {
      if |digipeaters| > 8 {
        return Exit;
      }
      var addresses := EncodeAddresses([destination, source] + digipeaters);
      AllSendable(source, destination, digipeaters);
      if addresses.None? {
        return Exit;
      }
      var frame := addresses.value + [0x03] + [0xf0] + payload;
      assert frame == Body(payload, source, destination, digipeaters);
      var kiss := Kiss.EncodeKISSFrame(signedChar, frame);
      var now := GetTimeNowUs();
      var delivered: bool := *;
      if !delivered {
        return Failed;
      }
      sent := sent + [Transmission(now, kiss)];
      return Ok;
    }

    method SendPacketChunk(chunk: PacketChunk, source: CallsignConfig, destination: CallsignConfig,
                           digipeaters: seq<CallsignConfig>) returns (r: SendResult)
      modifies this`clock, this`sent
      ensures r == Exit <==> !Sendable(source, destination, digipeaters)
      ensures r == Ok ==>
              && |sent| == |old(sent)| + 1 && old(sent) <= sent && sent[|old(sent)|].at >= old(clock)
              && clock >= sent[|old(sent)|].at
              && sent[|old(sent)|].bytes ==
                 Link.Transmit(signedChar, [OPENING] + codecs.toText(codecs.chunk.encode(chunk)), source, destination,
                               digipeaters)
      ensures r != Ok ==> sent == old(sent)
      ensures clock >= old(clock)
    {
      var serialized := codecs.chunk.encode(chunk);
      var text := codecs.toText(serialized);
      r := Send([OPENING] + text, source, destination, digipeaters);
    }

    /** All fragments of a packet, round after round, with a pause after each. `gone` is what went out. */
    method SendBroadcastPacket(packet: Packet, source: CallsignConfig, digipeaters: seq<CallsignConfig>)
      returns (r: SendResult, ghost start: nat, ghost gone: seq<Chunk>)
      requires config.maxPacketSize >= 1 && |codecs.packet.encode(packet)| < WORD
      modifies this`clock, this`sent, this`nextPayloadId
      ensures start >= old(clock)
      ensures nextPayloadId == NextId(old(nextPayloadId)).1
      ensures var all := Rounds(NextId(old(nextPayloadId)).0,
                                Delivery.Sent(codecs.packet.encode(packet), config.maxPacketSize),
                                config.retransmitCount);
              gone <= all && (r == Ok ==> gone == all)
      ensures r == Exit ==> !Sendable(source, BROADCAST, digipeaters)
      ensures InStep(old(sent), sent, clock, codecs, Sender(signedChar, source, digipeaters), gone, start,
                     config.transmitIntervalUs, start + |gone| * config.transmitIntervalUs)
    {
      var serialized := codecs.packet.encode(packet);
      var id := GetNextPayloadId();
      var next: nat := GetTimeNowUs();
      start, gone := next, [];
      NothingCarried(sent, codecs, Sender(signedChar, source, digipeaters), start, config.transmitIntervalUs);
      r, next, gone := SendRounds(id, serialized, source, digipeaters, next, sent);
    }

    /** The retransmission loop. */
    method SendRounds(id: U32, serialized: Bytes, source: CallsignConfig, digipeaters: seq<CallsignConfig>, start: nat,
                      ghost before: seq<Transmission>)
      returns (r: SendResult, next: nat, ghost gone: seq<Chunk>)
      requires config.maxPacketSize >= 1
      requires InStep(before, sent, clock, codecs, Sender(signedChar, source, digipeaters), [], start,
                      config.transmitIntervalUs, start)
      modifies this`clock, this`sent
      ensures var all := Rounds(id, Delivery.Sent(serialized, config.maxPacketSize), config.retransmitCount);
              gone <= all && (r == Ok ==> gone == all)
      ensures r == Exit ==> !Sendable(source, BROADCAST, digipeaters)
      ensures InStep(before, sent, clock, codecs, Sender(signedChar, source, digipeaters), gone, start,
                     config.transmitIntervalUs, next)
    {
      next, gone, r := start, [], Ok;
      ghost var s := Delivery.Sent(serialized, config.maxPacketSize);
      ghost var from := Sender(signedChar, source, digipeaters);
      for i := 1 to config.retransmitCount + 1
        invariant gone == Rounds(id, s, i - 1) && r == Ok
        invariant InStep(before, sent, clock, codecs, from, gone, start, config.transmitIntervalUs, next)
      {
        RoundsPrefix(id, s, config.retransmitCount, i);
        r, next, gone := SendRound(id, serialized, i, source, digipeaters, next, before, start, gone);
        PrefixTransitive(gone, Rounds(id, s, i - 1) + Round(id, s, i), Rounds(id, s, config.retransmitCount));
        if r != Ok {
          return;
        }
      }
    }

    /** The body of the retransmission loop: every fragment once, or those before one that fails. */
    method SendRound(id: U32, serialized: Bytes, round: nat, source: CallsignConfig, digipeaters: seq<CallsignConfig>,
                     due: nat, ghost before: seq<Transmission>, ghost start: nat, ghost earlier: seq<Chunk>)
      returns (r: SendResult, next: nat, ghost gone: seq<Chunk>)
      requires config.maxPacketSize >= 1
      requires InStep(before, sent, clock, codecs, Sender(signedChar, source, digipeaters), earlier, start,
                      config.transmitIntervalUs, due)
      modifies this`clock, this`sent
      ensures InStep(before, sent, clock, codecs, Sender(signedChar, source, digipeaters), gone, start,
                     config.transmitIntervalUs, next)
      ensures var all := Round(id, Delivery.Sent(serialized, config.maxPacketSize), round);
              gone <= earlier + all && (r == Ok ==> gone == earlier + all)
      ensures r == Exit ==> !Sendable(source, BROADCAST, digipeaters)
    {
      ghost var s := Delivery.Sent(serialized, config.maxPacketSize);
      ghost var from := Sender(signedChar, source, digipeaters);
      next, gone, r := due, earlier, Ok;
      var chunkId: U32 := 1;
      var offset := 0;
      ghost var pieces: seq<Bytes> := [];
      RoundStarts(id, s, round, earlier);
      while offset < |serialized|
        invariant RoundSoFar(id, s, round, offset, pieces, earlier, gone)
        invariant chunkId == Ordinal(|pieces|) && r == Ok
        invariant InStep(before, sent, clock, codecs, from, gone, start, config.transmitIntervalUs, next)
      {
        var size := Min(config.maxPacketSize, |serialized| - offset);
        var chunk := Chunk(Some(id), Some(chunkId), if offset == 0 then Some(Wrap(|serialized|)) else None,
                           Some(serialized[offset..offset + size]), Some(Wrap(round)));
        RoundStep(id, s, round, offset, size, pieces, earlier, gone);
        chunkId := Inc(chunkId);
        r, next := SendAndPause(chunk, source, digipeaters, next, before, start, gone);
        if r != Ok {
          return;
        }
        gone := gone + [chunk];
        pieces := pieces + [serialized[offset..offset + size]];
        offset := offset + size;
      }
      RoundEnds(id, s, round, pieces, earlier, gone);
    }

    /** One fragment and the pause after it. */
    method SendAndPause(chunk: Chunk, source: CallsignConfig, digipeaters: seq<CallsignConfig>, due: nat,
                        ghost before: seq<Transmission>, ghost start: nat, ghost earlier: seq<Chunk>)
      returns (r: SendResult, next: nat)
      requires InStep(before, sent, clock, codecs, Sender(signedChar, source, digipeaters), earlier, start,
                      config.transmitIntervalUs, due)
      modifies this`clock, this`sent
      ensures r == Exit <==> !Sendable(source, BROADCAST, digipeaters)
      ensures InStep(before, sent, clock, codecs, Sender(signedChar, source, digipeaters),
                     if r == Ok then earlier + [chunk] else earlier, start, config.transmitIntervalUs, next)
    {
      ghost var was, clockBefore := sent, clock;
      ghost var from, interval := Sender(signedChar, source, digipeaters), config.transmitIntervalUs;
      next := due;
      r := SendPacketChunk(ChunkMessage(chunk), source, BROADCAST, digipeaters);
      if r != Ok {
        InStepLater(before, was, clockBefore, clock, codecs, from, earlier, start, interval, next);
        return;
      }
      next := next + config.transmitIntervalUs;
      SleepUntil(next);
      InStepSent(before, was, sent, clockBefore, clock, codecs, from, earlier, chunk, start, interval, due);
    }
  }
}

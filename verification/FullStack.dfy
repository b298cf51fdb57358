/** From the bytes of the TNC to the files on the disk: the receiving program as a whole. */
module FullStack {
  import opened Basics
  import opened Proto
  import opened Ax25
  import opened Broadcast
  import opened Station
  import opened FileReception
  import opened FileSending
  import Reassembly
  import Delivery
  import Transfers
  import FileAssembly
  import FileRuns
  import EndToEnd
  import Arrivals
  import Senders
  import IdGenerator
  import Kiss
  import Link

  /** How the program stands when its input has run out, or when it exited or crashed: the files stay as they are. */
  datatype Ending = Ending(running: bool, files: FileAssembly.FileState)

  function Endpoint(cells: Reassembly.Cells, files: FileAssembly.FileState, incoming: Bytes, codecs: Codecs): Ending
    requires FileAssembly.WellFormed(files)
    decreases |incoming|
  {
    match Kiss.DecodeFrom(Kiss.IDLE, incoming)
    case None => Ending(true, files)
    case Some((frame, unread)) =>
      match Interpret(frame, codecs)
      case Crash => Ending(false, files)
      case Got(c) => EndpointPush(cells, files, c, unread, codecs)
      case _ => Endpoint(cells, files, unread, codecs)
  }

  function EndpointPush(cells: Reassembly.Cells, files: FileAssembly.FileState, c: Chunk, unread: Bytes, codecs: Codecs)
    : Ending
    requires FileAssembly.WellFormed(files)
    decreases |unread| + 1
  {
    var (cells', outcome) := Reassembly.Step(cells, c, codecs.packet.decode);
    match outcome
    case Abort => Ending(false, files)
    case Nothing => Endpoint(cells', files, unread, codecs)
    case Deliver(p) =>
      match FileAssembly.Step(files, p)
      case None => Ending(false, files)
      case Some(next) => Endpoint(cells', next, unread, codecs)
  }

  // ---- The receiving loop of the program ----

  /** One call of `ReceiveBroadcastPacket` is a step of the endpoint. */
  lemma {:induction false} ReceiveIsStep(cells: Reassembly.Cells, files: FileAssembly.FileState, incoming: Bytes,
                                         codecs: Codecs)
    requires FileAssembly.WellFormed(files)
    ensures var call := ReceiveFrom(cells, incoming, codecs);
            Endpoint(cells, files, incoming, codecs) ==
            match call.result
            case Waiting => Ending(true, files)
            case BadFrame => Endpoint(call.cells, files, call.unread, codecs)
            case Crashed => Ending(false, files)
            case Arrived(p, _) =>
              match FileAssembly.Step(files, p)
              case None => Ending(false, files)
              case Some(next) => Endpoint(call.cells, next, call.unread, codecs)
    ensures var call := ReceiveFrom(cells, incoming, codecs);
            call.result.BadFrame? || call.result.Arrived? ==> |call.unread| < |incoming|
    decreases |incoming|
  {
    match Kiss.DecodeFrom(Kiss.IDLE, incoming)
    case None =>
    case Some((frame, unread)) =>
      match Interpret(frame, codecs)
      case Malformed =>
      case Crash =>
      case Ignored => ReceiveIsStep(cells, files, unread, codecs);
      case Got(c) =>
        var (cells', outcome) := Reassembly.Step(cells, c, codecs.packet.decode);
        if outcome.Nothing? {
          ReceiveIsStep(cells', files, unread, codecs);
        }
  }

  /** Receives files until the input runs out; false means the program exited. */
  method ReceiveFiles(aprs: AprsStation, receiver: FileReceiver) returns (running: bool)
    requires aprs.Valid() && receiver.Valid()
    modifies aprs`incoming, aprs.chunkReceiver, receiver
    ensures aprs.Valid() && receiver.Valid()
    ensures Endpoint(old(aprs.chunkReceiver.cells), old(receiver.state), old(aprs.incoming), aprs.codecs)
            == Ending(running, receiver.state)
  {
    while true
      invariant aprs.Valid() && receiver.Valid()
      invariant Endpoint(old(aprs.chunkReceiver.cells), old(receiver.state), old(aprs.incoming), aprs.codecs)
             == Endpoint(aprs.chunkReceiver.cells, receiver.state, aprs.incoming, aprs.codecs)
      decreases |aprs.incoming|
    {
      ReceiveIsStep(aprs.chunkReceiver.cells, receiver.state, aprs.incoming, aprs.codecs);
      var r, digipeaters := aprs.ReceiveBroadcastPacket();
      match r {
        case Waiting => return true;
        case BadFrame =>
        case Crashed => return false;
        case Arrived(packet, source) =>
          running := true;
          match packet {
            case HeaderPacket(header) => running := receiver.HandleTransferHeader(header);
            case ChunkPacket(chunk) => running := receiver.HandleTransferChunk(chunk);
            case EmptyPacket =>
          }
          if !running {
            return false;
          }
      }
    }
  }

  // ---- Any bytes at all: only the fragments matter ----

  /** The fragments in a list of frames, up to the first frame that crashes the program. */
  function HeardIn(frames: seq<Bytes>, codecs: Codecs): seq<Chunk> {
    if frames == [] then []
    else
      match Interpret(frames[0], codecs)
      case Crash => []
      case Got(c) => [c] + HeardIn(frames[1..], codecs)
      case _ => HeardIn(frames[1..], codecs)
  }

  predicate Crashes(frames: seq<Bytes>, codecs: Codecs) {
    exists i :: 0 <= i < |frames| && Interpret(frames[i], codecs) == Crash
  }

  /** The fragments in the input. */
  function HeardOn(incoming: Bytes, codecs: Codecs): seq<Chunk> {
    HeardIn(Kiss.Frames(incoming), codecs)
  }

  lemma {:induction false} CrashesFirst(frame: Bytes, frames: seq<Bytes>, codecs: Codecs)
    ensures Crashes([frame] + frames, codecs) <==> Interpret(frame, codecs) == Crash || Crashes(frames, codecs)
  {
    var all := [frame] + frames;
    assert forall i :: 0 <= i < |frames| ==> all[i + 1] == frames[i];
    assert all[0] == frame;
  }

  /** The endpoint on a list of fragments, without the bytes. */
  function OnChunks(cells: Reassembly.Cells, files: FileAssembly.FileState, rx: seq<Chunk>, codec: Codec<Packet>)
    : Ending
    requires FileAssembly.WellFormed(files)
    decreases |rx|
  {
    if rx == [] then Ending(true, files)
    else
      var (cells', outcome) := Reassembly.Step(cells, rx[0], codec.decode);
      match outcome
      case Abort => Ending(false, files)
      case Nothing => OnChunks(cells', files, rx[1..], codec)
      case Deliver(p) =>
        match FileAssembly.Step(files, p)
        case None => Ending(false, files)
        case Some(next) => OnChunks(cells', next, rx[1..], codec)
  }

  /** The same, but a crash ends it. */
  function OnFrames(cells: Reassembly.Cells, files: FileAssembly.FileState, frames: seq<Bytes>, codecs: Codecs): Ending
    requires FileAssembly.WellFormed(files)
  {
    var ending := OnChunks(cells, files, HeardIn(frames, codecs), codecs.packet);
    ending.(running := ending.running && !Crashes(frames, codecs))
  }

  lemma {:induction false} FirstHeard(cells: Reassembly.Cells, files: FileAssembly.FileState, frame: Bytes,
                                      frames: seq<Bytes>, codecs: Codecs)
    requires FileAssembly.WellFormed(files)
    ensures OnFrames(cells, files, [frame] + frames, codecs) ==
            match Interpret(frame, codecs)
            case Crash => Ending(false, files)
            case Got(c) =>
              (var (cells', outcome) := Reassembly.Step(cells, c, codecs.packet.decode);
               match outcome
               case Abort => Ending(false, files)
               case Nothing => OnFrames(cells', files, frames, codecs)
               case Deliver(p) =>
                 match FileAssembly.Step(files, p)
                 case None => Ending(false, files)
                 case Some(next) => OnFrames(cells', next, frames, codecs))
            case _ => OnFrames(cells, files, frames, codecs)
  {
    CrashesFirst(frame, frames, codecs);
    assert ([frame] + frames)[1..] == frames;
    if Interpret(frame, codecs).Got? {
      var c := Interpret(frame, codecs).chunk;
      assert ([c] + HeardIn(frames, codecs))[1..] == HeardIn(frames, codecs);
    }
  }

  /** On any input the program handles the fragments in it, one by one, and ends at a frame that crashes it. */
  lemma {:induction false} EndpointOnFrames(cells: Reassembly.Cells, files: FileAssembly.FileState, incoming: Bytes,
                                            codecs: Codecs)
    requires FileAssembly.WellFormed(files)
    ensures Endpoint(cells, files, incoming, codecs) == OnFrames(cells, files, Kiss.Frames(incoming), codecs)
    decreases |incoming|
  {
    match Kiss.DecodeFrom(Kiss.IDLE, incoming)
    case None =>
    case Some((frame, unread)) =>
      FirstHeard(cells, files, frame, Kiss.Frames(unread), codecs);
      match Interpret(frame, codecs)
      case Crash =>
      case Got(c) =>
        var (cells', outcome) := Reassembly.Step(cells, c, codecs.packet.decode);
        match outcome {
          case Abort =>
          case Nothing => EndpointOnFrames(cells', files, unread, codecs);
          case Deliver(p) =>
            if FileAssembly.Step(files, p).Some? {
              EndpointOnFrames(cells', FileAssembly.Step(files, p).value, unread, codecs);
            }
        }
      case _ => EndpointOnFrames(cells, files, unread, codecs);
  }

  // ---- Both layers of the receiver in step ----

  /** Once the file layer has exited, later fragments change nothing. */
  lemma {:induction false} ExitStays(a: seq<Chunk>, rest: seq<Chunk>, codec: Codec<Packet>)
    requires FileAssembly.Run(EndToEnd.Reported(a, codec)) == None
    ensures FileAssembly.Run(EndToEnd.Reported(a + rest, codec)) == None
    ensures FileAssembly.Until(EndToEnd.Reported(a + rest, codec)) == FileAssembly.Until(EndToEnd.Reported(a, codec))
  {
    EndToEnd.ReportedPrefix(a, rest, codec);
    var some, all := EndToEnd.Reported(a, codec), EndToEnd.Reported(a + rest, codec);
    var more := all[|some|..];
    PrefixAndRest(some, all);
    FileAssembly.ExitIsFinal(some, more);
  }

  /** The file layer after one more fragment. */
  lemma {:induction false} OneMore(a: seq<Chunk>, c: Chunk, codec: Codec<Packet>, files: FileAssembly.FileState)
    requires FileAssembly.Run(EndToEnd.Reported(a, codec)) == Some(files)
    ensures var (cells, outcome) := Reassembly.Step(Reassembly.Run(a, codec.decode).0, c, codec.decode);
            var ps := EndToEnd.Reported(a + [c], codec);
            && Reassembly.Run(a + [c], codec.decode).0 == cells
            && FileAssembly.Run(ps) ==
                (match outcome case Deliver(p) => FileAssembly.Step(files, p) case _ => Some(files))
            && (FileAssembly.Run(ps) == None ==> FileAssembly.Until(ps) == files)
  {
    EndToEnd.ReportedSnoc(a, c, codec);
    var outcome := Reassembly.Step(Reassembly.Run(a, codec.decode).0, c, codec.decode).1;
    var ps := EndToEnd.Reported(a, codec);
    if outcome.Deliver? {
      assert (ps + [outcome.packet])[..|ps|] == ps;
    } else {
      assert ps + [] == ps;
    }
  }

  /** Handling fragments one by one is running the two layers one after the other. */
  lemma {:induction false} OnChunksIsRun(a: seq<Chunk>, b: seq<Chunk>, codec: Codec<Packet>,
                                         files: FileAssembly.FileState)
    requires FileAssembly.Run(EndToEnd.Reported(a, codec)) == Some(files)
    requires forall t :: 0 <= t < |a + b| ==> Reassembly.Run(a + b, codec.decode).1[t] != Reassembly.Abort
    ensures var ps := EndToEnd.Reported(a + b, codec);
            OnChunks(Reassembly.Run(a, codec.decode).0, files, b, codec)
            == Ending(FileAssembly.Run(ps).Some?, FileAssembly.Until(ps))
    decreases |b|
  {
    if b == [] {
      assert a + b == a;
    } else {
      var c, rest := b[0], b[1..];
      assert a + b == a + [c] + rest;
      OneMore(a, c, codec, files);
      Reassembly.RunPrefix(a + b, |a|, codec.decode);
      assert (a + b)[..|a|] == a && (a + b)[|a|] == c;
      var next := FileAssembly.Run(EndToEnd.Reported(a + [c], codec));
      if next.Some? {
        OnChunksIsRun(a + [c], rest, codec, next.value);
      } else {
        ExitStays(a + [c], rest, codec);
      }
    }
  }

  /**
   The receiving program on any bytes whose fragments are honest is the two layers, one after the other,
   on those fragments. Noise, frames of other stations, damaged frames and stray delimiters leave no trace,
   except a frame that crashes it.
   */
  lemma {:induction false} InputIsRun(air: Delivery.Air, codecs: Codecs, incoming: Bytes)
    requires Delivery.ValidAir(air, codecs.packet.decode) && Delivery.AllHonest(air, HeardOn(incoming, codecs))
    ensures var ps := EndToEnd.Reported(HeardOn(incoming, codecs), codecs.packet);
            Endpoint(map[], FileAssembly.START, incoming, codecs)
            == Ending(FileAssembly.Run(ps).Some? && !Crashes(Kiss.Frames(incoming), codecs), FileAssembly.Until(ps))
  {
    var rx := HeardOn(incoming, codecs);
    EndpointOnFrames(map[], FileAssembly.START, incoming, codecs);
    forall t | 0 <= t < |rx| ensures Reassembly.Run(rx, codecs.packet.decode).1[t] != Reassembly.Abort {
      Delivery.ReportedWhenComplete(air, rx, t, codecs.packet.decode);
    }
    assert [] + rx == rx;
    OnChunksIsRun([], rx, codecs.packet, FileAssembly.START);
  }

  /**
   The whole program, safety. Whatever bytes arrive, as long as the fragments in them are of payloads that
   were sent: every write the program has made for a transfer whose id is its own, also when it has exited or
   crashed since, is a nonempty prefix of that transfer's file, under its name, and extends the write before.
   */
  lemma {:induction false} DiskIsSafe(air: Delivery.Air, codecs: Codecs, incoming: Bytes, id: U32,
                                      tr: Transfers.Transfer)
    requires Delivery.ValidAir(air, codecs.packet.decode) && Delivery.AllHonest(air, HeardOn(incoming, codecs))
    requires Transfers.Valid(tr) && EndToEnd.Carries(air, codecs.packet, id, tr)
    ensures var ws := FileAssembly.WritesOf(Endpoint(map[], FileAssembly.START, incoming, codecs).files.writes, id);
            && (forall w :: w in ws ==> w.name == tr.name)
            && FileRuns.Progressive(ws, tr.data, tr.data)
  {
    InputIsRun(air, codecs, incoming);
    EndToEnd.WritesAreSafe(air, HeardOn(incoming, codecs), codecs.packet, id, tr);
  }

  /** The whole program, when it still runs: exactly when no frame crashed it and no arrival made it exit. */
  lemma {:induction false} RunsExactly(air: Delivery.Air, codecs: Codecs, incoming: Bytes)
    requires Delivery.ValidAir(air, codecs.packet.decode) && Delivery.AllHonest(air, HeardOn(incoming, codecs))
    requires EndToEnd.CarriesSolid(air, codecs.packet)
    ensures Endpoint(map[], FileAssembly.START, incoming, codecs).running <==>
            !Crashes(Kiss.Frames(incoming), codecs) && !Arrivals.Exits(air, codecs.packet, HeardOn(incoming, codecs))
  {
    InputIsRun(air, codecs, incoming);
    Arrivals.ExitsExactly(air, HeardOn(incoming, codecs), codecs.packet);
  }

  /**
   The whole program, when a transfer is complete: exactly when its fragments came as they must. Then its
   last write is the whole file; and if its name is its own, that is exactly when, the program running, the
   disk holds the file under its name.
   */
  lemma {:induction false} FinishesExactly(air: Delivery.Air, codecs: Codecs, incoming: Bytes, id: U32,
                                           tr: Transfers.Transfer)
    requires Delivery.ValidAir(air, codecs.packet.decode) && Delivery.AllHonest(air, HeardOn(incoming, codecs))
    requires EndToEnd.CarriesSolid(air, codecs.packet)
    requires Transfers.Valid(tr) && EndToEnd.Carries(air, codecs.packet, id, tr)
    ensures var ending := Endpoint(map[], FileAssembly.START, incoming, codecs);
            var rx := HeardOn(incoming, codecs);
            var ws, disk := FileAssembly.WritesOf(ending.files.writes, id), FileAssembly.DiskOf(ending.files.writes);
            var done := && !Crashes(Kiss.Frames(incoming), codecs)
                        && !Arrivals.Exits(air, codecs.packet, rx)
                        && Arrivals.Finishes(air, codecs.packet, rx, id, tr);
            && (ending.running && FileRuns.IsFinished(id, tr, ending.files) <==> done)
            && (done ==> ws != [] && ws[|ws| - 1] == FileAssembly.Write(id, tr.name, tr.data))
            && (EndToEnd.CarriesName(air, codecs.packet, id, tr.name) && ending.running ==>
                  (tr.name in disk && disk[tr.name] == tr.data <==> done))
  {
    InputIsRun(air, codecs, incoming);
    Arrivals.FinishesExactly(air, HeardOn(incoming, codecs), codecs.packet, id, tr);
  }

  // ---- The same, from the senders ----

  /**
   Safety for files being sent by any number of programs at once: if the fragments in the input are theirs, in
   any order and number, a file whose transfer id no other of them has is only ever written as a prefix.
   */
  lemma {:induction false} SentFileIsSafe(ss: seq<Senders.Sending>, codecs: Codecs, incoming: Bytes, k: nat)
    requires Senders.AllGood(ss, codecs.packet) && Senders.AllSentBy(ss, codecs.packet, HeardOn(incoming, codecs))
    requires k < |ss| && Senders.OwnId(ss, k)
    ensures var files := Endpoint(map[], FileAssembly.START, incoming, codecs).files;
            var ws := FileAssembly.WritesOf(files.writes, ss[k].id);
            && (forall w :: w in ws ==> w.name == ss[k].tr.name)
            && FileRuns.Progressive(ws, ss[k].tr.data, ss[k].tr.data)
  {
    Senders.SendersAreHonest(ss, codecs.packet, HeardOn(incoming, codecs));
    Senders.OwnIdIsCarried(ss, codecs.packet, k);
    assert Senders.Good(ss[k], codecs.packet);
    DiskIsSafe(Senders.AirOf(ss, codecs.packet), codecs, incoming, ss[k].id, ss[k].tr);
  }

  /** And it is complete, and on the disk under a name of its own, exactly when its fragments came as they must. */
  lemma {:induction false} SentFileFinishes(ss: seq<Senders.Sending>, codecs: Codecs, incoming: Bytes, k: nat)
    requires Senders.AllGood(ss, codecs.packet) && Senders.AllSentBy(ss, codecs.packet, HeardOn(incoming, codecs))
    requires k < |ss| && Senders.OwnId(ss, k) && Senders.OwnName(ss, k)
    ensures var ending := Endpoint(map[], FileAssembly.START, incoming, codecs);
            var air, rx := Senders.AirOf(ss, codecs.packet), HeardOn(incoming, codecs);
            var tr, disk := ss[k].tr, FileAssembly.DiskOf(ending.files.writes);
            var done := && !Crashes(Kiss.Frames(incoming), codecs)
                        && !Arrivals.Exits(air, codecs.packet, rx)
                        && Arrivals.Finishes(air, codecs.packet, rx, ss[k].id, tr);
            && (ending.running && FileRuns.IsFinished(ss[k].id, tr, ending.files) <==> done)
            && (ending.running ==> (tr.name in disk && disk[tr.name] == tr.data <==> done))
  {
    Senders.SendersAreHonest(ss, codecs.packet, HeardOn(incoming, codecs));
    Senders.OwnIdIsCarried(ss, codecs.packet, k);
    Senders.OwnNameIsCarried(ss, codecs.packet, k);
    assert Senders.Good(ss[k], codecs.packet);
    FinishesExactly(Senders.AirOf(ss, codecs.packet), codecs, incoming, ss[k].id, ss[k].tr);
  }

  /**
   Files sent one after another, each getting through: the program runs on, and its disk holds exactly those
   whose transfer id was not used before.
   */
  lemma {:induction false} FilesInTurn(ss: seq<Senders.Sending>, rxs: seq<seq<Chunk>>, codecs: Codecs, incoming: Bytes)
    requires Senders.AllGood(ss, codecs.packet) && Senders.ArriveInTurn(ss, codecs.packet, rxs)
    requires forall k :: 0 <= k < |ss| ==> ss[k].tr.data != []
    requires HeardOn(incoming, codecs) == Senders.Flatten(rxs) && !Crashes(Kiss.Frames(incoming), codecs)
    ensures var ending := Endpoint(map[], FileAssembly.START, incoming, codecs);
            ending.running && FileAssembly.DiskOf(ending.files.writes) == Senders.DiskAfter(ss)
  {
    Senders.FlattenIsSent(ss, codecs.packet, rxs);
    Senders.SendersAreHonest(ss, codecs.packet, HeardOn(incoming, codecs));
    InputIsRun(Senders.AirOf(ss, codecs.packet), codecs, incoming);
    Senders.FilesInTurn(ss, codecs.packet, rxs);
  }

  /**
   Two files one after another, each getting through: the second is delivered if and only if its sender's
   counter hands out another id than the first one's did, or it is the first file over again.
   */
  lemma {:induction false} SecondFileExactly(a: Senders.Sending, b: Senders.Sending, first: seq<Chunk>,
                                             second: seq<Chunk>, codecs: Codecs, incoming: Bytes)
    requires Senders.Good(a, codecs.packet) && Senders.Good(b, codecs.packet) && Senders.Apart(a, b)
    requires Senders.ArrivesWhole(a, codecs.packet, first) && Senders.ArrivesWhole(b, codecs.packet, second)
    requires a.tr.data != [] && b.tr.data != []
    requires HeardOn(incoming, codecs) == first + second && !Crashes(Kiss.Frames(incoming), codecs)
    ensures var ending := Endpoint(map[], FileAssembly.START, incoming, codecs);
            var disk := FileAssembly.DiskOf(ending.files.writes);
            && ending.running
            && (b.tr.name in disk && disk[b.tr.name] == b.tr.data <==>
                a.id != b.id || (a.tr.name == b.tr.name && a.tr.data == b.tr.data))
  {
    Senders.TwoGood(a, b, codecs.packet);
    Senders.TwoInTurn(a, b, codecs.packet, first, second);
    var ss, rxs := [a, b], [first, second];
    FilesInTurn(ss, rxs, codecs, incoming);
    Senders.SecondFileExactly(a, b);
  }

  // ---- Fragments through the link ----

  /** What the sender's frames need so that every receiver hears them. */
  ghost predicate Audible(from: Sender) {
    && Sendable(from.source, BROADCAST, from.digipeaters)
    && |from.digipeaters| < MAX_DIGIPEATERS
    && (from.signedChar ==>
        && Link.PlainCallsign(from.source)
        && forall i :: 0 <= i < |from.digipeaters| ==> Link.PlainCallsign(from.digipeaters[i]))
  }

  function BodyOf(codecs: Codecs, from: Sender, c: Chunk): Bytes
    requires Sendable(from.source, BROADCAST, from.digipeaters)
  {
    Body(PayloadOf(codecs, c), from.source, BROADCAST, from.digipeaters)
  }

  /** A fragment's frame is interpreted as the fragment, whoever sent it and through whomever. */
  lemma {:induction false} FragmentHeard(codecs: Codecs, from: Sender, c: Chunk)
    requires Reliable(codecs) && Audible(from)
    ensures Interpret(BodyOf(codecs, from, c), codecs) == Got(c)
  {
    var payload := PayloadOf(codecs, c);
    BodyHeard(payload, from.source, BROADCAST, from.digipeaters);
    BroadcastHeard();
    assert payload[1..] == codecs.toText(codecs.chunk.encode(ChunkMessage(c)));
  }

  /** Base64 payloads and ordinary callsigns never need an escape, so the sender's `char` does not matter. */
  lemma {:induction false} FragmentPlain(codecs: Codecs, from: Sender, c: Chunk)
    requires Reliable(codecs) && Audible(from) && from.signedChar
    ensures Link.Plain(BodyOf(codecs, from, c))
  {
    var payload := PayloadOf(codecs, c);
    Link.BodyPlain(payload, from.source, BROADCAST, from.digipeaters);
    Link.PlainConcat([OPENING], codecs.toText(codecs.chunk.encode(ChunkMessage(c))));
  }

  // ---- The air between a sender and the receiver ----

  /**
   What reaches the receiver, with the noise before it: transmission `at`, as it was sent or as a digipeater
   repeats its fragment; some other frame; a bare delimiter.
   */
  datatype Event =
    | Copy(noise: Bytes, at: nat)
    | Relay(noise: Bytes, at: nat, via: Sender)
    | Other(noise: Bytes, frame: Bytes)
    | Mark(noise: Bytes)

  /** Transmissions exist, digipeaters are audible, and other frames are not the program's, or damaged. */
  ghost predicate Possible(e: Event, codecs: Codecs, trace: seq<Chunk>) {
    match e
    case Copy(_, at) => at < |trace|
    case Relay(_, at, via) => at < |trace| && Audible(via)
    case Other(_, frame) => frame != [] ==> Interpret(frame, codecs).Ignored? || Interpret(frame, codecs).Malformed?
    case Mark(_) => true
  }

  ghost predicate AllPossible(events: seq<Event>, codecs: Codecs, trace: seq<Chunk>) {
    forall i :: 0 <= i < |events| ==> Possible(events[i], codecs, trace)
  }

  /** The bytes of an event, given the bytes that were sent. */
  function EventBytes(e: Event, codecs: Codecs, trace: seq<Chunk>, sent: seq<Bytes>): Bytes
    requires |sent| == |trace|
    requires e.Copy? || e.Relay? ==> e.at < |trace|
    requires e.Relay? ==> Sendable(e.via.source, BROADCAST, e.via.digipeaters)
  {
    match e
    case Copy(_, at) => sent[at]
    case Relay(_, at, via) => FrameOf(codecs, via, trace[at])
    case Other(_, frame) => Kiss.Encode(false, frame)
    case Mark(_) => [Kiss.FEND]
  }

  /** Transmissions exist and digipeaters can send. */
  predicate Placed(events: seq<Event>, trace: seq<Chunk>) {
    && (forall i :: 0 <= i < |events| && (events[i].Copy? || events[i].Relay?) ==> events[i].at < |trace|)
    && (forall i :: 0 <= i < |events| && events[i].Relay? ==>
          Sendable(events[i].via.source, BROADCAST, events[i].via.digipeaters))
  }

  lemma {:induction false} PossibleIsPlaced(events: seq<Event>, codecs: Codecs, trace: seq<Chunk>)
    requires AllPossible(events, codecs, trace)
    ensures Placed(events, trace)
  {
    assert forall i :: 0 <= i < |events| ==> Possible(events[i], codecs, trace);
  }

  function Line(events: seq<Event>, codecs: Codecs, trace: seq<Chunk>, sent: seq<Bytes>): Bytes
    requires |sent| == |trace| && Placed(events, trace)
  {
    if events == [] then []
    else events[0].noise + (EventBytes(events[0], codecs, trace, sent) + Line(events[1..], codecs, trace, sent))
  }

  /** The fragments that get through. */
  function Through(events: seq<Event>, trace: seq<Chunk>): seq<Chunk>
    requires Placed(events, trace)
  {
    if events == [] then []
    else (if events[0].Copy? || events[0].Relay? then [trace[events[0].at]] else []) + Through(events[1..], trace)
  }

  /** The events as frames and delimiters on the line. */
  function ItemOf(e: Event, codecs: Codecs, from: Sender, trace: seq<Chunk>): Kiss.Item
    requires e.Copy? || e.Relay? ==> e.at < |trace|
    requires Sendable(from.source, BROADCAST, from.digipeaters)
    requires e.Relay? ==> Sendable(e.via.source, BROADCAST, e.via.digipeaters)
  {
    match e
    case Copy(noise, at) => Kiss.Framed(noise, from.signedChar, BodyOf(codecs, from, trace[at]))
    case Relay(noise, at, via) => Kiss.Framed(noise, via.signedChar, BodyOf(codecs, via, trace[at]))
    case Other(noise, frame) => Kiss.Framed(noise, false, frame)
    case Mark(noise) => Kiss.Delimiter(noise)
  }

  ghost function ItemsOf(events: seq<Event>, codecs: Codecs, from: Sender, trace: seq<Chunk>): (r: seq<Kiss.Item>)
    requires AllPossible(events, codecs, trace) && Audible(from)
    ensures |r| == |events|
  {
    if events == [] then []
    else [ItemOf(events[0], codecs, from, trace)] + ItemsOf(events[1..], codecs, from, trace)
  }

  /** `sent` is the frames of `trace`. */
  ghost predicate Sends(codecs: Codecs, from: Sender, trace: seq<Chunk>, sent: seq<Bytes>)
    requires Sendable(from.source, BROADCAST, from.digipeaters)
  {
    |sent| == |trace| && forall j :: 0 <= j < |trace| ==> sent[j] == FrameOf(codecs, from, trace[j])
  }

  lemma {:induction false} LineIsStream(events: seq<Event>, codecs: Codecs, from: Sender, trace: seq<Chunk>,
                                        sent: seq<Bytes>)
    requires AllPossible(events, codecs, trace) && Audible(from) && Sends(codecs, from, trace, sent)
    ensures Line(events, codecs, trace, sent) == Kiss.Stream(ItemsOf(events, codecs, from, trace))
  {
    if events != [] {
      LineIsStream(events[1..], codecs, from, trace, sent);
      assert Possible(events[0], codecs, trace);
      assert EventBytes(events[0], codecs, trace, sent) == Kiss.BytesOf(ItemOf(events[0], codecs, from, trace));
    }
  }

  lemma {:induction false} EventSuits(e: Event, codecs: Codecs, from: Sender, trace: seq<Chunk>)
    requires Reliable(codecs) && Audible(from) && Possible(e, codecs, trace)
    ensures Kiss.Suits(ItemOf(e, codecs, from, trace))
  {
    match e
    case Copy(_, at) =>
      if from.signedChar {
        FragmentPlain(codecs, from, trace[at]);
      }
    case Relay(_, at, via) =>
      if via.signedChar {
        FragmentPlain(codecs, via, trace[at]);
      }
    case _ =>
  }

  lemma {:induction false} EventsSuit(events: seq<Event>, codecs: Codecs, from: Sender, trace: seq<Chunk>)
    requires Reliable(codecs) && Audible(from) && AllPossible(events, codecs, trace)
    ensures Kiss.AllSuit(ItemsOf(events, codecs, from, trace))
  {
    if events != [] {
      EventSuits(events[0], codecs, from, trace);
      EventsSuit(events[1..], codecs, from, trace);
    }
  }

  lemma {:induction false} HeardFirst(frame: Bytes, frames: seq<Bytes>, codecs: Codecs)
    requires Interpret(frame, codecs) != Crash
    ensures var signal := Interpret(frame, codecs);
            HeardIn([frame] + frames, codecs) == (if signal.Got? then [signal.chunk] else []) + HeardIn(frames, codecs)
    ensures Crashes([frame] + frames, codecs) <==> Crashes(frames, codecs)
  {
    assert ([frame] + frames)[1..] == frames;
    assert [] + HeardIn(frames, codecs) == HeardIn(frames, codecs);
    CrashesFirst(frame, frames, codecs);
  }

  /** A fragment on the line is heard. */
  lemma {:induction false} FragmentFirst(codecs: Codecs, from: Sender, c: Chunk, frames: seq<Bytes>)
    requires Reliable(codecs) && Audible(from)
    ensures BodyOf(codecs, from, c) != []
    ensures HeardIn([BodyOf(codecs, from, c)] + frames, codecs) == [c] + HeardIn(frames, codecs)
    ensures Crashes([BodyOf(codecs, from, c)] + frames, codecs) <==> Crashes(frames, codecs)
  {
    ListLength([BROADCAST, from.source] + from.digipeaters);
    FragmentHeard(codecs, from, c);
    HeardFirst(BodyOf(codecs, from, c), frames, codecs);
  }

  /** An event is a fragment that gets through, or something the program ignores. */
  lemma {:induction false} EventHeard(e: Event, codecs: Codecs, from: Sender, trace: seq<Chunk>, frames: seq<Bytes>)
    requires Reliable(codecs) && Audible(from) && Possible(e, codecs, trace)
    ensures var all := Kiss.FrameIn(ItemOf(e, codecs, from, trace)) + frames;
            && HeardIn(all, codecs) == (if e.Copy? || e.Relay? then [trace[e.at]] else []) + HeardIn(frames, codecs)
            && (Crashes(all, codecs) <==> Crashes(frames, codecs))
  {
    assert [] + frames == frames && [] + HeardIn(frames, codecs) == HeardIn(frames, codecs);
    match e
    case Copy(_, at) => FragmentFirst(codecs, from, trace[at], frames);
    case Relay(_, at, via) => FragmentFirst(codecs, via, trace[at], frames);
    case Other(_, frame) =>
      if frame != [] {
        HeardFirst(frame, frames, codecs);
      }
    case Mark(_) =>
  }

  lemma {:induction false} EventsHeard(events: seq<Event>, codecs: Codecs, from: Sender, trace: seq<Chunk>)
    requires Reliable(codecs) && Audible(from) && AllPossible(events, codecs, trace)
    ensures var frames := Kiss.FramesIn(ItemsOf(events, codecs, from, trace));
            HeardIn(frames, codecs) == Through(events, trace) && !Crashes(frames, codecs)
  {
    if events != [] {
      EventsHeard(events[1..], codecs, from, trace);
      EventHeard(events[0], codecs, from, trace, Kiss.FramesIn(ItemsOf(events[1..], codecs, from, trace)));
    }
  }

  /** What the receiver hears on the line is the fragments that get through, and nothing crashes it. */
  lemma {:induction false} LineHeard(events: seq<Event>, codecs: Codecs, from: Sender, trace: seq<Chunk>,
                                     sent: seq<Bytes>, tail: Bytes)
    requires Reliable(codecs) && Audible(from) && AllPossible(events, codecs, trace) && Sends(codecs, from, trace, sent)
    requires Kiss.Receivable(Kiss.IDLE, ItemsOf(events, codecs, from, trace)) && Kiss.FEND !in tail
    ensures var incoming := Line(events, codecs, trace, sent) + tail;
            HeardOn(incoming, codecs) == Through(events, trace) && !Crashes(Kiss.Frames(incoming), codecs)
  {
    LineIsStream(events, codecs, from, trace, sent);
    EventsSuit(events, codecs, from, trace);
    Kiss.StreamDecodes(ItemsOf(events, codecs, from, trace), tail);
    EventsHeard(events, codecs, from, trace);
  }

  // ---- Delivery ----

  /** Any input whose fragments are a session's, in order and each at least once, delivers the file. */
  lemma {:induction false} FileArrives(id: U32, tr: Transfers.Transfer, seed: U32, codecs: Codecs, config: Config,
                                       incoming: Bytes)
    requires Transfers.Valid(tr) && tr.data != []
    requires EndToEnd.GoodSession(PacketsOf(id, tr), codecs.packet, config)
    requires EndToEnd.InOrder(HeardOn(incoming, codecs), Session(PacketsOf(id, tr), seed, codecs.packet, config))
    requires EndToEnd.Covered(PacketsOf(id, tr), seed, codecs.packet, config, HeardOn(incoming, codecs))
    requires !Crashes(Kiss.Frames(incoming), codecs)
    ensures var ending := Endpoint(map[], FileAssembly.START, incoming, codecs);
            ending.running && EndToEnd.FileArrived(id, tr, Some(ending.files))
  {
    var packets, rx := PacketsOf(id, tr), HeardOn(incoming, codecs);
    EndToEnd.InOrderFromSession(packets, seed, codecs.packet, config, rx);
    EndToEnd.SessionHonest(packets, seed, codecs.packet, config, rx);
    EndToEnd.SessionAirValid(packets, seed, codecs.packet, config);
    InputIsRun(SessionAir(packets, seed, codecs.packet, config), codecs, incoming);
    EndToEnd.FileIsDelivered(id, tr, seed, codecs.packet, config, rx);
  }

  /** The air lets a session through: in order, each fragment at least once, with noise that does no harm. */
  ghost predicate GetsThrough(events: seq<Event>, tail: Bytes, packets: seq<Packet>, seed: U32, codecs: Codecs,
                              config: Config, from: Sender)
    requires config.maxPacketSize >= 1
  {
    var trace := Session(packets, seed, codecs.packet, config);
    && Audible(from)
    && AllPossible(events, codecs, trace)
    && Kiss.Receivable(Kiss.IDLE, ItemsOf(events, codecs, from, trace)) && Kiss.FEND !in tail
    && EndToEnd.InOrder(Through(events, trace), trace)
    && EndToEnd.Covered(packets, seed, codecs.packet, config, Through(events, trace))
  }

  /**
   The whole program, delivery. A nonempty file of less than 2^32 bytes is sent in packets with any chunk
   size, any fragment size and any number of retransmissions; the air keeps the order of frames, loses and
   repeats them, but gets each fragment through at least once, directly or by digipeaters; between them are
   noise, damaged frames, frames of others and delimiters. Then the receiving program, fed the bytes, does
   not exit, and its disk holds the file.
   */
  lemma {:induction false} FileCrossesTheAir(id: U32, tr: Transfers.Transfer, seed: U32, codecs: Codecs, config: Config,
                                             from: Sender, sent: seq<Bytes>, events: seq<Event>, tail: Bytes)
    requires Reliable(codecs) && Transfers.Valid(tr) && tr.data != []
    requires EndToEnd.GoodSession(PacketsOf(id, tr), codecs.packet, config)
    requires GetsThrough(events, tail, PacketsOf(id, tr), seed, codecs, config, from)
    requires Sends(codecs, from, Session(PacketsOf(id, tr), seed, codecs.packet, config), sent)
    ensures var trace := Session(PacketsOf(id, tr), seed, codecs.packet, config);
            var ending := Endpoint(map[], FileAssembly.START, Line(events, codecs, trace, sent) + tail, codecs);
            ending.running && EndToEnd.FileArrived(id, tr, Some(ending.files))
  {
    var trace := Session(PacketsOf(id, tr), seed, codecs.packet, config);
    LineHeard(events, codecs, from, trace, sent, tail);
    FileArrives(id, tr, seed, codecs, config, Line(events, codecs, trace, sent) + tail);
  }

  /** Transmissions m to n - 1, each once, as they were sent. */
  function Copies(m: nat, n: nat): (events: seq<Event>)
    ensures |events| == if m < n then n - m else 0
    ensures forall i :: 0 <= i < |events| ==> events[i] == Copy([], m + i)
  {
    seq(if m < n then n - m else 0, i requires 0 <= i => Copy([], m + i))
  }

  lemma {:induction false} AllThrough(m: nat, trace: seq<Chunk>)
    requires m <= |trace|
    ensures Through(Copies(m, |trace|), trace) == trace[m..]
    decreases |trace| - m
  {
    var events := Copies(m, |trace|);
    if m < |trace| {
      assert events[1..] == Copies(m + 1, |trace|);
      AllThrough(m + 1, trace);
      assert trace[m..] == [trace[m]] + trace[m + 1..];
    }
  }

  lemma {:induction false} ItemAt(events: seq<Event>, codecs: Codecs, from: Sender, trace: seq<Chunk>, i: nat)
    requires AllPossible(events, codecs, trace) && Audible(from) && i < |events|
    ensures ItemsOf(events, codecs, from, trace)[i] == ItemOf(events[i], codecs, from, trace)
  {
    if i > 0 {
      ItemAt(events[1..], codecs, from, trace, i - 1);
    }
  }

  lemma {:induction false} CopiesReceivable(codecs: Codecs, from: Sender, trace: seq<Chunk>)
    requires Audible(from)
    ensures var events := Copies(0, |trace|);
            && AllPossible(events, codecs, trace)
            && Kiss.Receivable(Kiss.IDLE, ItemsOf(events, codecs, from, trace))
  {
    var events := Copies(0, |trace|);
    var items := ItemsOf(events, codecs, from, trace);
    forall i | 0 <= i < |items| ensures items[i].noise == [] {
      ItemAt(events, codecs, from, trace, i);
    }
    Kiss.TidyIsReceivable(Kiss.IDLE, items);
  }

  /** An air that delivers each transmission once, without noise, gets any session through. */
  lemma {:induction false} ClearAirGetsThrough(packets: seq<Packet>, seed: U32, codecs: Codecs, config: Config,
                                               from: Sender)
    requires EndToEnd.GoodSession(packets, codecs.packet, config) && config.retransmitCount >= 1 && Audible(from)
    ensures GetsThrough(Copies(0, |Session(packets, seed, codecs.packet, config)|), [], packets, seed, codecs, config,
                        from)
  {
    var trace := Session(packets, seed, codecs.packet, config);
    CopiesReceivable(codecs, from, trace);
    AllThrough(0, trace);
    assert trace[0..] == trace;
    EndToEnd.AllInOrder(trace);
    EndToEnd.SessionCovers(packets, seed, codecs.packet, config);
  }

  function BytesSent(t: Transmission): Bytes { t.bytes }

  /** `trace` is the fragments of a session and `sent` their frames. */
  ghost predicate SentSession(packets: seq<Packet>, seed: U32, codecs: Codecs, config: Config, from: Sender,
                              trace: seq<Chunk>, sent: seq<Bytes>) {
    && config.maxPacketSize >= 1 && trace == Session(packets, seed, codecs.packet, config)
    && Sendable(from.source, BROADCAST, from.digipeaters) && Sends(codecs, from, trace, sent)
  }

  lemma {:induction false} FramedIsSent(was: seq<Transmission>, now: seq<Transmission>, packets: seq<Packet>, seed: U32,
                                        codecs: Codecs, config: Config, from: Sender, gone: seq<Chunk>)
    requires config.maxPacketSize >= 1 && GoneOf(Done, gone, Session(packets, seed, codecs.packet, config))
    requires Sendable(from.source, BROADCAST, from.digipeaters) && SoFar(was, now, codecs, from, gone)
    ensures was <= now && gone == Session(packets, seed, codecs.packet, config)
    ensures SentSession(packets, seed, codecs, config, from, gone, Map(BytesSent, now[|was|..]))
  {
  }

  /** The sending program transmits a file. */
  method TransmitFile(sender: FileSender, path: string, data: Bytes, maxChunk: nat, callsign: CallsignConfig,
                      digipeaters: seq<CallsignConfig>)
    returns (r: FileResult, trace: seq<Chunk>, sent: seq<Bytes>)
    requires sender.aprs.config.maxPacketSize >= 1 && Sendable(callsign, BROADCAST, digipeaters)
    requires Fits(PacketsFor(sender.nextTransferId, path, data, maxChunk), sender.aprs.codecs)
    modifies sender, sender.aprs
    ensures r != Refused && r != Exited
    ensures r == Done ==>
            SentSession(PacketsFor(old(sender.nextTransferId), path, data, maxChunk), old(sender.aprs.nextPayloadId),
                        sender.aprs.codecs, sender.aprs.config, Sender(sender.aprs.signedChar, callsign, digipeaters),
                        trace, sent)
  {
    var packets := PacketsFor(sender.nextTransferId, path, data, maxChunk);
    var seed, before := sender.aprs.nextPayloadId, |sender.aprs.sent|;
    ghost var was := sender.aprs.sent;
    ghost var gone;
    r, gone := sender.Send(path, Some(data), maxChunk, callsign, CallsignConfig([], 0), digipeaters);
    trace, sent := [], [];
    if r == Done {
      FramedIsSent(was, sender.aprs.sent, packets, seed, sender.aprs.codecs, sender.aprs.config,
                   Sender(sender.aprs.signedChar, callsign, digipeaters), gone);
      trace := Session(packets, seed, sender.aprs.codecs.packet, sender.aprs.config);
      sent := Map(BytesSent, sender.aprs.sent[before..]);
    }
  }

  /** The bytes on the line reach a receiving program. */
  method Hear(incoming: Bytes, aprs: AprsStation, receiver: FileReceiver) returns (running: bool)
    requires aprs.Valid() && receiver.Valid()
    modifies aprs`incoming, aprs.chunkReceiver, receiver
    ensures receiver.disk == FileAssembly.DiskOf(receiver.state.writes)
    ensures Endpoint(old(aprs.chunkReceiver.cells), old(receiver.state), incoming, aprs.codecs)
            == Ending(running, receiver.state)
  {
    aprs.incoming := incoming;
    running := ReceiveFiles(aprs, receiver);
  }

  /** A receiving program, from its start, is fed the bytes. */
  method Listen(incoming: Bytes, codecs: Codecs, config: Config, signedChar: bool, seed: nat)
    returns (running: bool, receiver: FileReceiver)
    ensures receiver.disk == FileAssembly.DiskOf(receiver.state.writes)
    ensures Endpoint(map[], FileAssembly.START, incoming, codecs) == Ending(running, receiver.state)
  {
    var aprs := new AprsStation(config, codecs, signedChar, seed);
    receiver := new FileReceiver();
    running := Hear(incoming, aprs, receiver);
  }

  /** What the air lets through of a file's session leaves the file on the disk. */
  lemma {:induction false} SessionArrives(counter: U32, path: string, data: Bytes, maxChunk: nat, seed: U32,
                                          codecs: Codecs, config: Config, from: Sender, trace: seq<Chunk>,
                                          sent: seq<Bytes>, events: seq<Event>, tail: Bytes)
    requires Reliable(codecs) && data != [] && |data| < WORD
    requires EndToEnd.GoodSession(PacketsFor(counter, path, data, maxChunk), codecs.packet, config)
    requires GetsThrough(events, tail, PacketsFor(counter, path, data, maxChunk), seed, codecs, config, from)
    requires SentSession(PacketsFor(counter, path, data, maxChunk), seed, codecs, config, from, trace, sent)
    ensures Placed(events, trace) && |sent| == |trace|
    ensures var ending := Endpoint(map[], FileAssembly.START, Line(events, codecs, trace, sent) + tail, codecs);
            ending.running && FileAssembly.DiskOf(ending.files.writes) == map[BaseName(path) := data]
  {
    var tr := Transfers.Transfer(BaseName(path), data, maxChunk);
    PossibleIsPlaced(events, codecs, trace);
    FileCrossesTheAir(IdGenerator.NextId(counter).0, tr, seed, codecs, config, from, sent, events, tail);
  }

  /** A sending program, the air, and a receiving program from its start: afterwards the file is on its disk. */
  method SendAndReceive(sender: FileSender, path: string, data: Bytes, maxChunk: nat, callsign: CallsignConfig,
                        digipeaters: seq<CallsignConfig>, events: seq<Event>, tail: Bytes, signedChar: bool, clock: nat)
    returns (r: FileResult, running: bool, receiver: FileReceiver?)
    requires Reliable(sender.aprs.codecs) && data != [] && |data| < WORD
    requires EndToEnd.GoodSession(PacketsFor(sender.nextTransferId, path, data, maxChunk), sender.aprs.codecs.packet,
                                  sender.aprs.config)
    requires GetsThrough(events, tail, PacketsFor(sender.nextTransferId, path, data, maxChunk),
                         sender.aprs.nextPayloadId, sender.aprs.codecs, sender.aprs.config,
                         Sender(sender.aprs.signedChar, callsign, digipeaters))
    modifies sender, sender.aprs
    ensures r != Refused && r != Exited
    ensures r == Done ==> receiver != null && running && receiver.disk == map[BaseName(path) := data]
  {
    running, receiver := true, null;
    ghost var counter, seed := sender.nextTransferId, sender.aprs.nextPayloadId;
    var codecs, config := sender.aprs.codecs, sender.aprs.config;
    var trace, sent;
    r, trace, sent := TransmitFile(sender, path, data, maxChunk, callsign, digipeaters);
    if r == Done {
      SessionArrives(counter, path, data, maxChunk, seed, codecs, config,
                     Sender(sender.aprs.signedChar, callsign, digipeaters), trace, sent, events, tail);
      running, receiver := Listen(Line(events, codecs, trace, sent) + tail, codecs, config, signedChar, clock);
    }
  }
}

/** The file sender: a header and the chunks of a file, each broadcast as a packet of its own. */
module FileSending {
  import opened Basics
  import opened Cutting
  import opened Proto
  import opened IdGenerator
  import opened Ax25
  import opened Broadcast
  import opened Station
  import opened Transfers
  import Delivery

  function AsPacket(c: FileTransferChunk): Packet { ChunkPacket(c) }

  /** The packets of a transfer, in the order they are sent. */
  function PacketsOf(id: U32, tr: Transfer): (r: seq<Packet>)
    ensures |r| == 1 + |Pieces(tr)|
  {
    [HeaderPacket(Header(id, tr))] + Map(AsPacket, Chunks(id, tr))
  }

  /** The file name a path ends in. */
  function BaseName(path: string): (name: string)
    ensures '/' !in name && |name| <= |path| && name == path[|path| - |name|..]
    ensures |name| < |path| ==> path[|path| - |name| - 1] == '/'
  {
    if path == [] || path[|path| - 1] == '/' then [] else BaseName(path[..|path| - 1]) + [path[|path| - 1]]
  }

  /** The packets of the file at `path`, from a transfer counter. */
  function PacketsFor(counter: U32, path: string, data: Bytes, maxChunk: nat): seq<Packet> {
    PacketsOf(NextId(counter).0, Transfer(BaseName(path), data, maxChunk))
  }

  lemma {:induction false} PacketsAre(counter: U32, path: string, data: Bytes, maxChunk: nat, packets: seq<Packet>)
    requires var id, name := NextId(counter).0, BaseName(path);
             packets == [HeaderPacket(FileTransferHeader(Some(name), Some(Wrap(|data|)), Some(id)))]
                        + Map(AsPacket, Chunks(id, Transfer(name, data, maxChunk)))
    ensures packets == PacketsFor(counter, path, data, maxChunk)
  {
  }

  /** Every packet of the transfer fits the 32-bit offset of the fragmenting loop. */
  ghost predicate Fits(packets: seq<Packet>, codecs: Codecs) {
    forall i :: 0 <= i < |packets| ==> |codecs.packet.encode(packets[i])| < WORD
  }

  /** `Refused`: the file could not be read, or a peer was named and directed mode does not exist. */
  datatype FileResult = Done | Refused | LinkFailed | Exited

  /** All of `all` went out, or, if sending failed, a part of it from its start. */
  ghost predicate GoneOf(r: FileResult, gone: seq<Chunk>, all: seq<Chunk>) {
    gone <= all && (r == Done ==> gone == all)
  }

  /** What has gone out so far, if anything can. */
  ghost predicate SoFar(before: seq<Transmission>, now: seq<Transmission>, codecs: Codecs, from: Sender,
                        gone: seq<Chunk>) {
    Sendable(from.source, BROADCAST, from.digipeaters) ==> Framed(before, now, codecs, from, gone)
  }

  lemma {:induction false} StepsAreFramed(was: seq<Transmission>, now: seq<Transmission>, clock: nat, codecs: Codecs,
                                          from: Sender, part: seq<Chunk>, start: nat, interval: nat)
    requires InStep(was, now, clock, codecs, from, part, start, interval, start + |part| * interval)
    ensures SoFar(was, now, codecs, from, part)
  {
  }

  lemma {:induction false} FramedJoins(before: seq<Transmission>, was: seq<Transmission>, now: seq<Transmission>,
                                       codecs: Codecs, from: Sender, first: seq<Chunk>, second: seq<Chunk>)
    requires SoFar(before, was, codecs, from, first) && SoFar(was, now, codecs, from, second)
    ensures SoFar(before, now, codecs, from, first + second)
  {
    if Sendable(from.source, BROADCAST, from.digipeaters) {
      forall j | 0 <= j < |first + second|
        ensures now[|before| + j].bytes == FrameOf(codecs, from, (first + second)[j])
      {
        if j < |first| {
          assert now[|before| + j] == was[|before| + j];
        } else {
          assert now[|before| + j] == now[|was| + (j - |first|)];
        }
      }
    }
  }

  /** The trace of the packet at `i`. */
  function PacketTrace(packets: seq<Packet>, i: nat, seed: U32, codec: Codec<Packet>, config: Config): seq<Chunk>
    requires config.maxPacketSize >= 1 && i < |packets|
  {
    Rounds(IdAt(seed, i), Delivery.Sent(codec.encode(packets[i]), config.maxPacketSize), config.retransmitCount)
  }

  lemma {:induction false} SessionSnoc(packets: seq<Packet>, i: nat, seed: U32, codec: Codec<Packet>, config: Config)
    requires config.maxPacketSize >= 1 && i < |packets|
    ensures Session(packets[..i + 1], seed, codec, config) ==
            Session(packets[..i], seed, codec, config) + PacketTrace(packets, i, seed, codec, config)
  {
    assert packets[..i + 1][..i] == packets[..i];
  }

  /** The packet at `i`, or a part of it, after those before it. */
  lemma {:induction false} SessionGrows(packets: seq<Packet>, i: nat, seed: U32, codec: Codec<Packet>, config: Config,
                                        part: seq<Chunk>)
    requires config.maxPacketSize >= 1 && i < |packets| && part <= PacketTrace(packets, i, seed, codec, config)
    ensures Session(packets[..i], seed, codec, config) + part <= Session(packets, seed, codec, config)
    ensures Session(packets[..i + 1], seed, codec, config) ==
            Session(packets[..i], seed, codec, config) + PacketTrace(packets, i, seed, codec, config)
  {
    SessionSnoc(packets, i, seed, codec, config);
    SessionPrefix(packets, i + 1, seed, codec, config);
    PrefixChain(Session(packets[..i], seed, codec, config), part, PacketTrace(packets, i, seed, codec, config),
                Session(packets, seed, codec, config));
  }

  lemma {:induction false} SessionPrefix(packets: seq<Packet>, i: nat, seed: U32, codec: Codec<Packet>, config: Config)
    requires config.maxPacketSize >= 1 && i <= |packets|
    ensures Session(packets[..i], seed, codec, config) <= Session(packets, seed, codec, config)
  {
    if i < |packets| {
      var n := |packets| - 1;
      SessionPrefix(packets[..n], i, seed, codec, config);
      assert packets[..n][..i] == packets[..i];
    } else {
      assert packets[..i] == packets;
    }
  }

  /** The size the chunking loop cuts at. */
  function CutSize(data: Bytes, maxChunk: nat): (max: nat)
    ensures max >= 1
    ensures forall name :: Pieces(Transfer(name, data, maxChunk)) == Cut(data, max)
  {
    if maxChunk != 0 then maxChunk else if data == [] then 1 else |data|
  }

  /** The chunking loop's state: the pieces cut off so far, and their chunks. */
  ghost predicate ChunksSoFar(id: U32, data: Bytes, max: nat, offset: nat, pieces: seq<Bytes>,
                              chunks: seq<FileTransferChunk>)
    requires max >= 1
  {
    CutSoFar(data, max, offset, pieces) && chunks == Number(id, pieces)
  }

  lemma {:induction false} ChunksStart(id: U32, data: Bytes, max: nat)
    requires max >= 1
    ensures ChunksSoFar(id, data, max, 0, [], [])
  {
    CutStarts(data, max);
  }

  lemma {:induction false} ChunksStep(id: U32, data: Bytes, max: nat, offset: nat, size: nat, pieces: seq<Bytes>,
                                      chunks: seq<FileTransferChunk>)
    requires max >= 1 && ChunksSoFar(id, data, max, offset, pieces, chunks)
    requires offset < |data| && size == Min(max, |data| - offset)
    ensures var piece := data[offset..offset + size];
            ChunksSoFar(id, data, max, offset + size, pieces + [piece],
                        chunks + [FileTransferChunk(Some(id), Some(Ordinal(|pieces|)), Some(piece))])
  {
    CutStep(data, max, offset, size, pieces);
    NumberGrows(id, pieces, data[offset..offset + size]);
  }

  lemma {:induction false} ChunksEnd(id: U32, data: Bytes, max: nat, pieces: seq<Bytes>, chunks: seq<FileTransferChunk>)
    requires max >= 1 && ChunksSoFar(id, data, max, |data|, pieces, chunks)
    ensures chunks == Number(id, Cut(data, max))
  {
    CutEnds(data, max, pieces);
  }

  class FileSender {
    const aprs: AprsStation
    var nextTransferId: U32

    constructor (aprs: AprsStation)
      ensures this.aprs == aprs && nextTransferId == 0
    {
      this.aprs := aprs;
      nextTransferId := 0;
    }

    method GetNextTransferId() returns (id: U32)
      modifies this
      ensures (id, nextTransferId) == NextId(old(nextTransferId))
    {
      id := nextTransferId;
      nextTransferId := Inc(nextTransferId);
      if id == 0 {
        id := nextTransferId;
        nextTransferId := Inc(nextTransferId);
      }
    }

    /** Sends a file. `gone` is what went on the air: all of the session's fragments, or those before a failure. */
    method Send(path: string, contents: Option<Bytes>, maxChunk: nat, callsign: CallsignConfig, peer: CallsignConfig,
                digipeaters: seq<CallsignConfig>) returns (r: FileResult, ghost gone: seq<Chunk>)
      requires aprs.config.maxPacketSize >= 1
      requires contents.Some? ==> Fits(PacketsFor(nextTransferId, path, contents.value, maxChunk), aprs.codecs)
      modifies this, aprs
      ensures r == Refused <==> contents.None? || peer.callsign != []
      ensures r == Refused ==> gone == [] && aprs.sent == old(aprs.sent)
      ensures nextTransferId == if contents.None? then old(nextTransferId) else NextId(old(nextTransferId)).1
      ensures r != Refused ==>
              var packets := PacketsFor(old(nextTransferId), path, contents.value, maxChunk);
              GoneOf(r, gone, Session(packets, old(aprs.nextPayloadId), aprs.codecs.packet, aprs.config))
      ensures r == Exited ==> !Sendable(callsign, BROADCAST, digipeaters)
      ensures r != Refused ==>
              SoFar(old(aprs.sent), aprs.sent, aprs.codecs, Sender(aprs.signedChar, callsign, digipeaters), gone)
    {
      if contents.None? {
        return Refused, [];
      }
      var name := BaseName(path);
      var data := contents.value;
      var id := GetNextTransferId();
      var header := FileTransferHeader(Some(name), Some(Wrap(|data|)), Some(id));
      var chunks := CutFile(id, name, data, maxChunk);
      var broadcastMode := peer.callsign == [];
      if !broadcastMode {
        return Refused, [];
      }
      var packets := [HeaderPacket(header)] + Map(AsPacket, chunks);
      PacketsAre(old(nextTransferId), path, data, maxChunk, packets);
      r, gone := SendBroadcast(packets, callsign, digipeaters);
    }

    /** The packets one after another, up to the first that fails. */
    method SendBroadcast(packets: seq<Packet>, callsign: CallsignConfig, digipeaters: seq<CallsignConfig>)
      returns (r: FileResult, ghost gone: seq<Chunk>)
      requires aprs.config.maxPacketSize >= 1 && Fits(packets, aprs.codecs)
      modifies aprs
      ensures r != Refused
      ensures GoneOf(r, gone, Session(packets, old(aprs.nextPayloadId), aprs.codecs.packet, aprs.config))
      ensures r == Exited ==> !Sendable(callsign, BROADCAST, digipeaters)
      ensures SoFar(old(aprs.sent), aprs.sent, aprs.codecs, Sender(aprs.signedChar, callsign, digipeaters), gone)
    {
      gone := [];
      ghost var from := Sender(aprs.signedChar, callsign, digipeaters);
      ghost var seed := old(aprs.nextPayloadId);
      for i := 0 to |packets|
        invariant aprs.nextPayloadId == CounterAt(seed, i)
        invariant gone == Session(packets[..i], seed, aprs.codecs.packet, aprs.config)
        invariant SoFar(old(aprs.sent), aprs.sent, aprs.codecs, from, gone)
      {
        ghost var was := aprs.sent;
        var result;
        ghost var start, part;
        result, start, part := aprs.SendBroadcastPacket(packets[i], callsign, digipeaters);
        StepsAreFramed(was, aprs.sent, aprs.clock, aprs.codecs, from, part, start, aprs.config.transmitIntervalUs);
        FramedJoins(old(aprs.sent), was, aprs.sent, aprs.codecs, from, gone, part);
        SessionGrows(packets, i, seed, aprs.codecs.packet, aprs.config, part);
        gone := gone + part;
        if result != Ok {
          return if result == Failed then LinkFailed else Exited, gone;
        }
      }
      assert packets[..|packets|] == packets;
      return Done, gone;
    }

    /** The chunking loop. */
    method CutFile(id: U32, name: string, data: Bytes, maxChunk: nat) returns (chunks: seq<FileTransferChunk>)
      ensures chunks == Chunks(id, Transfer(name, data, maxChunk))
    {
      chunks := [];
      var chunkId: U32 := 1;
      var offset := 0;
      ghost var max := CutSize(data, maxChunk);
      ghost var pieces: seq<Bytes> := [];
      ChunksStart(id, data, max);
      while offset < |data|
        invariant ChunksSoFar(id, data, max, offset, pieces, chunks) && chunkId == Ordinal(|pieces|)
      {
        var size := if maxChunk == 0 then |data| else maxChunk;
        size := Min(|data| - offset, size);
        ChunksStep(id, data, max, offset, size, pieces, chunks);
        var chunk := FileTransferChunk(Some(id), Some(chunkId), Some(data[offset..offset + size]));
        chunkId := Inc(chunkId);
        chunks := chunks + [chunk];
        pieces := pieces + [data[offset..offset + size]];
        offset := offset + size;
      }
      ChunksEnd(id, data, max, pieces, chunks);
    }
  }
}

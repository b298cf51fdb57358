/** What a station puts on the air for one packet, and for the packets of a session. */
module Broadcast {
  import opened Basics
  import opened Cutting
  import opened Proto
  import opened IdGenerator
  import Reassembly
  import Delivery

  datatype Config = Config(transmitIntervalUs: nat, retransmitCount: nat, maxPacketSize: nat)

  /** Fragment k, counted from 0, as sent in a retransmission round. */
  function SentChunk(id: U32, s: Delivery.Sent, k: nat, round: nat): Chunk
    requires s.max >= 1 && k < |Cut(s.data, s.max)|
  {
    Chunk(Some(id), Some(Ordinal(k)), if k == 0 then Some(Wrap(|s.data|)) else None,
          Some(Cut(s.data, s.max)[k]), Some(Wrap(round)))
  }

  function Round(id: U32, s: Delivery.Sent, round: nat): (r: seq<Chunk>)
    requires s.max >= 1
    ensures |r| == |Cut(s.data, s.max)|
  {
    seq(|Cut(s.data, s.max)|, k requires 0 <= k < |Cut(s.data, s.max)| => SentChunk(id, s, k, round))
  }

  /** The inner sending loop's state: the pieces cut off so far, and that their fragments were sent after `earlier`. */
  ghost predicate RoundSoFar(id: U32, s: Delivery.Sent, round: nat, offset: nat, pieces: seq<Bytes>,
                             earlier: seq<Chunk>, gone: seq<Chunk>)
    requires s.max >= 1
  {
    CutSoFar(s.data, s.max, offset, pieces) && Extends(earlier, Round(id, s, round), |pieces|, gone)
  }

  /** `gone` is `earlier` and then the first k fragments of `all`. */
  ghost predicate Extends(earlier: seq<Chunk>, all: seq<Chunk>, k: nat, gone: seq<Chunk>) {
    k <= |all| && gone == earlier + all[..k] && gone <= earlier + all
  }

  lemma {:induction false} ExtendsNext(earlier: seq<Chunk>, all: seq<Chunk>, k: nat, gone: seq<Chunk>)
    requires Extends(earlier, all, k, gone) && k < |all|
    ensures Extends(earlier, all, k + 1, gone + [all[k]])
  {
    TakeStep(earlier, all, k);
    PrefixOfTake(earlier, all, k + 1);
  }

  lemma {:induction false} RoundStarts(id: U32, s: Delivery.Sent, round: nat, earlier: seq<Chunk>)
    requires s.max >= 1
    ensures RoundSoFar(id, s, round, 0, [], earlier, earlier)
  {
    CutStarts(s.data, s.max);
    PrefixOfTake(earlier, Round(id, s, round), 0);
  }

  /** The fragment the loop builds is the next one of the round. */
  lemma {:induction false} RoundStep(id: U32, s: Delivery.Sent, round: nat, offset: nat, size: nat, pieces: seq<Bytes>,
                                     earlier: seq<Chunk>, gone: seq<Chunk>)
    requires s.max >= 1 && RoundSoFar(id, s, round, offset, pieces, earlier, gone)
    requires offset < |s.data| && size == Min(s.max, |s.data| - offset)
    ensures var piece := s.data[offset..offset + size];
            var chunk := Chunk(Some(id), Some(Ordinal(|pieces|)), if offset == 0 then Some(Wrap(|s.data|)) else None,
                               Some(piece), Some(Wrap(round)));
            RoundSoFar(id, s, round, offset + size, pieces + [piece], earlier, gone + [chunk])
  {
    var piece := s.data[offset..offset + size];
    CutStep(s.data, s.max, offset, size, pieces);
    NextFragment(id, s, round, offset, piece, pieces);
    ExtendsNext(earlier, Round(id, s, round), |pieces|, gone);
  }

  lemma {:induction false} NextFragment(id: U32, s: Delivery.Sent, round: nat, offset: nat, piece: Bytes,
                                        pieces: seq<Bytes>)
    requires s.max >= 1 && |pieces| < |Cut(s.data, s.max)| && piece == Cut(s.data, s.max)[|pieces|]
    requires offset == 0 <==> pieces == []
    ensures Round(id, s, round)[|pieces|] ==
            Chunk(Some(id), Some(Ordinal(|pieces|)), if offset == 0 then Some(Wrap(|s.data|)) else None,
                  Some(piece), Some(Wrap(round)))
  {
  }

  lemma {:induction false} RoundEnds(id: U32, s: Delivery.Sent, round: nat, pieces: seq<Bytes>, earlier: seq<Chunk>,
                                     gone: seq<Chunk>)
    requires s.max >= 1 && RoundSoFar(id, s, round, |s.data|, pieces, earlier, gone)
    ensures gone == earlier + Round(id, s, round)
  {
    CutEnds(s.data, s.max, pieces);
  }

  /** All fragments of a packet, once in each of the rounds 1 to `rounds`. */
  function Rounds(id: U32, s: Delivery.Sent, rounds: nat): seq<Chunk>
    requires s.max >= 1
  {
    if rounds == 0 then [] else Rounds(id, s, rounds - 1) + Round(id, s, rounds)
  }

  /** The fragments of several packets sent one after another, from payload counter `seed`. */
  function Session(packets: seq<Packet>, seed: U32, codec: Codec<Packet>, config: Config): seq<Chunk>
    requires config.maxPacketSize >= 1
  {
    if packets == [] then []
    else
      var n := |packets| - 1;
      Session(packets[..n], seed, codec, config)
      + Rounds(IdAt(seed, n), Delivery.Sent(codec.encode(packets[n]), config.maxPacketSize), config.retransmitCount)
  }

  /** The same fragments as entries of the air: payload id to packet. */
  function SessionAir(packets: seq<Packet>, seed: U32, codec: Codec<Packet>, config: Config): Delivery.Air {
    if packets == [] then map[]
    else
      var n := |packets| - 1;
      var sent := Delivery.Sent(codec.encode(packets[n]), config.maxPacketSize);
      SessionAir(packets[..n], seed, codec, config)[IdAt(seed, n) as nat := sent]
  }

  // ---- What the fragments are ----

  lemma {:induction false} SentChunkView(id: U32, s: Delivery.Sent, k: nat, round: nat)
    requires s.max >= 1 && k < |Cut(s.data, s.max)| && |s.data| < WORD
    ensures var c := SentChunk(id, s, k, round);
            && Reassembly.Accepted(c) && Reassembly.IdOf(c) == id && Reassembly.NumOf(c) == k + 1
            && Reassembly.View(c) == Delivery.Fragments(s)[k]
  {
    CutIsEven(s.data, s.max);
    OrdinalIs(k);
  }

  /** The trace of one packet: round r sends fragment k + 1 at position (r - 1) * n + k, and nothing else. */
  lemma {:induction false} RoundsAt(id: U32, s: Delivery.Sent, rounds: nat, j: nat)
    requires s.max >= 1
    ensures |Rounds(id, s, rounds)| == rounds * |Cut(s.data, s.max)|
    ensures j < |Rounds(id, s, rounds)| ==>
            var n := |Cut(s.data, s.max)|;
            n > 0 && Rounds(id, s, rounds)[j] == SentChunk(id, s, j % n, j / n + 1)
  {
    var n := |Cut(s.data, s.max)|;
    if rounds > 0 {
      RoundsAt(id, s, rounds - 1, j);
      assert rounds * n == (rounds - 1) * n + n;
      var before := (rounds - 1) * n;
      if before <= j < before + n {
        Quotient(j, rounds - 1, n, j - before);
        assert Rounds(id, s, rounds)[j] == Round(id, s, rounds)[j - before];
      }
    }
  }

  lemma {:induction false} RoundsPrefix(id: U32, s: Delivery.Sent, rounds: nat, i: nat)
    requires s.max >= 1 && 1 <= i <= rounds
    ensures Rounds(id, s, i - 1) + Round(id, s, i) <= Rounds(id, s, rounds)
  {
    if i < rounds {
      RoundsPrefix(id, s, rounds - 1, i);
    }
  }

  lemma {:induction false} RoundsMember(id: U32, s: Delivery.Sent, rounds: nat, j: nat)
    requires s.max >= 1 && j < |Rounds(id, s, rounds)|
    ensures exists k: nat, round: nat ::
              k < |Cut(s.data, s.max)| && Rounds(id, s, rounds)[j] == SentChunk(id, s, k, round)
  {
    if j >= |Rounds(id, s, rounds - 1)| {
      var k := j - |Rounds(id, s, rounds - 1)|;
      assert Rounds(id, s, rounds)[j] == SentChunk(id, s, k, rounds);
    } else {
      RoundsMember(id, s, rounds - 1, j);
    }
  }

  // ---- Pacing ----

  /** Transmission times at least `interval` apart from `start` on, in the order sent. */
  ghost predicate Paced(times: seq<nat>, start: nat, interval: nat) {
    && (forall j :: 0 <= j < |times| ==> times[j] >= start + j * interval)
    && (forall i, j :: 0 <= i < j < |times| ==> times[i] <= times[j])
  }

  /** By any time t at most floor((t - start) / interval) + 1 transmissions have begun. */
  lemma {:induction false} PacingBound(times: seq<nat>, start: nat, interval: nat, t: nat, k: nat)
    requires Paced(times, start, interval) && interval >= 1 && t >= start
    requires k <= |times| && forall j :: 0 <= j < k ==> times[j] <= t
    ensures k <= (t - start) / interval + 1
  {
    if k > 0 {
      assert times[k - 1] >= start + (k - 1) * interval;
      var q := (t - start) / interval;
      assert t - start < (q + 1) * interval;
      ScaleMonotone(q + 1, k - 1, interval);
    }
  }
}

/** From the fragments on the air to the files on the receiver's disk. */
module EndToEnd {
  import opened Basics
  import opened Numbered
  import opened Cutting
  import opened Proto
  import opened IdGenerator
  import opened Reassembly
  import opened Delivery
  import opened Broadcast
  import opened Transfers
  import opened FileSending
  import FileAssembly
  import FileRuns

  /** The packets reported, in order. */
  function Reports(outcomes: seq<Outcome>): seq<Packet> {
    if outcomes == [] then []
    else
      Reports(outcomes[..|outcomes| - 1])
      + match outcomes[|outcomes| - 1] case Deliver(p) => [p] case _ => []
  }

  /** What the file layer is given when the fragments `rx` arrive. */
  function Reported(rx: seq<Chunk>, codec: Codec<Packet>): seq<Packet> {
    Reports(Run(rx, codec.decode).1)
  }

  lemma {:induction false} ReportedSnoc(a: seq<Chunk>, c: Chunk, codec: Codec<Packet>)
    ensures var (cells, outcome) := Step(Run(a, codec.decode).0, c, codec.decode);
            && Run(a + [c], codec.decode) == (cells, Run(a, codec.decode).1 + [outcome])
            && Reported(a + [c], codec) == Reported(a, codec) + match outcome case Deliver(p) => [p] case _ => []
  {
    assert (a + [c])[..|a|] == a;
    var before := Run(a, codec.decode).1;
    var outcome := Step(Run(a, codec.decode).0, c, codec.decode).1;
    assert (before + [outcome])[..|before|] == before;
  }

  lemma {:induction false} ReportedLonger(a: seq<Chunk>, c: Chunk, codec: Codec<Packet>)
    ensures Reported(a, codec) <= Reported(a + [c], codec)
  {
    ReportedSnoc(a, c, codec);
  }

  lemma {:induction false} ReportedPrefix(a: seq<Chunk>, b: seq<Chunk>, codec: Codec<Packet>)
    ensures Reported(a, codec) <= Reported(a + b, codec)
  {
    if b == [] {
      AppendNothing(a);
    } else {
      var front, last := b[..|b| - 1], b[|b| - 1];
      AppendLast(a, b);
      ReportedPrefix(a, front, codec);
      ReportedLonger(a + front, last, codec);
      PrefixTransitive(Reported(a, codec), Reported(a + front, codec), Reported(a + b, codec));
    }
  }

  // ---- One sender's session ----

  /** What the theorems assume of the packets of a session. */
  ghost predicate GoodSession(packets: seq<Packet>, codec: Codec<Packet>, config: Config) {
    && RoundTrips(codec)
    && config.maxPacketSize >= 1
    && |packets| < WORD
    && forall i :: 0 <= i < |packets| ==> 1 <= |codec.encode(packets[i])| < WORD
  }

  lemma {:induction false} GoodFront(packets: seq<Packet>, codec: Codec<Packet>, config: Config)
    requires GoodSession(packets, codec, config) && packets != []
    ensures GoodSession(packets[..|packets| - 1], codec, config)
  {
  }

  lemma {:induction false} AirEntry(packets: seq<Packet>, seed: U32, codec: Codec<Packet>, config: Config, k: nat)
    requires GoodSession(packets, codec, config) && k < |packets|
    ensures var air := SessionAir(packets, seed, codec, config);
            IdAt(seed, k) in air && air[IdAt(seed, k)] == Sent(codec.encode(packets[k]), config.maxPacketSize)
  {
    var n := |packets| - 1;
    if k < n {
      var front := packets[..n];
      assert front[k] == packets[k];
      GoodFront(packets, codec, config);
      AirEntry(front, seed, codec, config, k);
      DistinctIds(seed, k, n);
    }
  }

  lemma {:induction false} DistinctIds(seed: U32, i: nat, j: nat)
    requires i < j < WORD - 1
    ensures IdAt(seed, i) != IdAt(seed, j)
  {
    IdsDiffer(seed, j, i);
  }

  lemma {:induction false} AirIds(packets: seq<Packet>, seed: U32, codec: Codec<Packet>, config: Config, id: nat)
    requires GoodSession(packets, codec, config) && id in SessionAir(packets, seed, codec, config)
    ensures exists k :: 0 <= k < |packets| && IdAt(seed, k) == id
  {
    var n := |packets| - 1;
    if id != IdAt(seed, n) {
      AirIds(packets[..n], seed, codec, config, id);
    }
  }

  lemma {:induction false} SessionAirValid(packets: seq<Packet>, seed: U32, codec: Codec<Packet>, config: Config)
    requires GoodSession(packets, codec, config)
    ensures ValidAir(SessionAir(packets, seed, codec, config), codec.decode)
  {
    var air := SessionAir(packets, seed, codec, config);
    forall id | id in air ensures ValidSent(air[id], codec.decode) {
      AirIds(packets, seed, codec, config, id);
      var k :| 0 <= k < |packets| && IdAt(seed, k) == id;
      AirEntry(packets, seed, codec, config, k);
    }
  }

  /** `c` is a fragment of packet k of the session. */
  ghost predicate OfPacket(packets: seq<Packet>, seed: U32, codec: Codec<Packet>, config: Config, k: nat, c: Chunk)
    requires k < |packets|
  {
    var s := Sent(codec.encode(packets[k]), config.maxPacketSize);
    && Accepted(c) && IdOf(c) == IdAt(seed, k) && s.max >= 1
    && 1 <= NumOf(c) <= |Fragments(s)| && View(c) == Fragments(s)[NumOf(c) - 1]
  }

  lemma {:induction false} RoundsOfPacket(packets: seq<Packet>, seed: U32, codec: Codec<Packet>, config: Config, k: nat,
                                          j: nat)
    requires GoodSession(packets, codec, config) && k < |packets|
    requires j < |Rounds(IdAt(seed, k), Sent(codec.encode(packets[k]), config.maxPacketSize), config.retransmitCount)|
    ensures OfPacket(packets, seed, codec, config, k,
                     Rounds(IdAt(seed, k), Sent(codec.encode(packets[k]), config.maxPacketSize),
                            config.retransmitCount)[j])
  {
    var s := Sent(codec.encode(packets[k]), config.maxPacketSize);
    RoundsMember(IdAt(seed, k), s, config.retransmitCount, j);
    var i: nat, round: nat :| i < |Cut(s.data, s.max)|
      && Rounds(IdAt(seed, k), s, config.retransmitCount)[j] == SentChunk(IdAt(seed, k), s, i, round);
    SentChunkView(IdAt(seed, k), s, i, round);
  }

  // ---- The channel ----

  /** `rx` is what a channel that keeps order, but loses and repeats, makes of `trace`. */
  ghost predicate InOrder(rx: seq<Chunk>, trace: seq<Chunk>) {
    exists at: seq<nat> :: Picks(rx, trace, at)
  }

  ghost predicate Picks(rx: seq<Chunk>, trace: seq<Chunk>, at: seq<nat>) {
    && |at| == |rx|
    && (forall i :: 0 <= i < |rx| ==> at[i] < |trace| && rx[i] == trace[at[i]])
    && (forall i, j :: 0 <= i < j < |rx| ==> at[i] <= at[j])
  }

  /** Such a channel keeps apart what was sent first and what was sent second. */
  lemma {:induction false} SplitInOrder(rx: seq<Chunk>, first: seq<Chunk>, second: seq<Chunk>) returns (n: nat)
    requires InOrder(rx, first + second)
    ensures n <= |rx| && InOrder(rx[..n], first)
    ensures forall i :: n <= i < |rx| ==> rx[i] in second
  {
    var at :| Picks(rx, first + second, at);
    n := SplitPicks(rx, first, second, at);
    assert Picks(rx[..n], first, at[..n]);
    forall i | n <= i < |rx| ensures rx[i] in second {
      assert rx[i] == second[at[i] - |first|];
    }
  }

  lemma {:induction false} SplitPicks(rx: seq<Chunk>, first: seq<Chunk>, second: seq<Chunk>, at: seq<nat>)
    returns (n: nat)
    requires Picks(rx, first + second, at)
    ensures n <= |rx|
    ensures forall i :: 0 <= i < n ==> at[i] < |first|
    ensures forall i :: n <= i < |rx| ==> at[i] >= |first|
  {
    n := 0;
    while n < |rx| && at[n] < |first|
      invariant n <= |rx|
      invariant forall i :: 0 <= i < n ==> at[i] < |first|
    {
      n := n + 1;
    }
  }

  // ---- Delivery ----

  /** The fragments of one packet, arriving after everything else, add one report. */
  lemma {:induction false} BlockReported(air: Air, a: seq<Chunk>, b: seq<Chunk>, id: nat, codec: Codec<Packet>)
    requires ValidAir(air, codec.decode) && Delivery.AllHonest(air, a + b) && id in air
    requires forall i :: 0 <= i < |a| ==> IdOf(a[i]) != id
    requires forall i :: 0 <= i < |b| ==> IdOf(b[i]) == id
    requires AllSeen(air, a + b, id)
    ensures Reported(a + b, codec) == Reported(a, codec) + [codec.decode(air[id].data).value]
  {
    var cs, packet := a + b, codec.decode(air[id].data).value;
    ReportedExactlyOnce(air, cs, id, codec.decode);
    var t: nat :| IsOnlyReport(cs, id, t, packet, codec.decode);
    RunTake(cs, |a|, codec.decode);
    assert cs[..|a|] == a;
    LateReport(Run(cs, codec.decode).1, |a|, t, packet);
  }

  lemma {:induction false} NothingMore(outcomes: seq<Outcome>, n: nat)
    requires n <= |outcomes| && forall u :: n <= u < |outcomes| ==> outcomes[u] == Nothing
    ensures Reports(outcomes) == Reports(outcomes[..n])
  {
    if n < |outcomes| {
      var front := outcomes[..|outcomes| - 1];
      NothingMore(front, n);
      assert front[..n] == outcomes[..n];
    } else {
      assert outcomes[..n] == outcomes;
    }
  }

  lemma {:induction false} LateReport(outcomes: seq<Outcome>, n: nat, t: nat, packet: Packet)
    requires n <= t < |outcomes| && outcomes[t] == Deliver(packet)
    requires forall u :: n <= u < |outcomes| && u != t ==> outcomes[u] == Nothing
    ensures Reports(outcomes) == Reports(outcomes[..n]) + [packet]
  {
    var front := outcomes[..|outcomes| - 1];
    assert front[..n] == outcomes[..n];
    if t == |outcomes| - 1 {
      NothingMore(front, n);
    } else {
      LateReport(front, n, t, packet);
    }
  }

  lemma {:induction false} RunTake(cs: seq<Chunk>, n: nat, parse: Parser)
    requires n <= |cs|
    ensures Run(cs, parse).1[..n] == Run(cs[..n], parse).1
  {
    if n < |cs| {
      RunPrefix(cs, n, parse);
    } else {
      assert cs[..n] == cs;
    }
  }

  /** All fragments of every packet of the session have arrived. */
  ghost predicate Covered(packets: seq<Packet>, seed: U32, codec: Codec<Packet>, config: Config, rx: seq<Chunk>)
    requires config.maxPacketSize >= 1
  {
    forall k :: 0 <= k < |packets| ==>
      Full(|Fragments(Sent(codec.encode(packets[k]), config.maxPacketSize))|, Seen(rx, IdAt(seed, k)))
  }

  /** Each arrival belongs to some packet of the session. */
  ghost predicate FromSession(packets: seq<Packet>, seed: U32, codec: Codec<Packet>, config: Config, rx: seq<Chunk>) {
    forall i :: 0 <= i < |rx| ==> FromPacket(packets, seed, codec, config, rx[i])
  }

  ghost predicate FromPacket(packets: seq<Packet>, seed: U32, codec: Codec<Packet>, config: Config, c: Chunk) {
    exists k :: 0 <= k < |packets| && OfPacket(packets, seed, codec, config, k, c)
  }

  lemma {:induction false} SessionHonest(packets: seq<Packet>, seed: U32, codec: Codec<Packet>, config: Config,
                                         rx: seq<Chunk>)
    requires GoodSession(packets, codec, config) && FromSession(packets, seed, codec, config, rx)
    ensures Delivery.AllHonest(SessionAir(packets, seed, codec, config), rx)
  {
    var air := SessionAir(packets, seed, codec, config);
    forall i | 0 <= i < |rx| ensures Honest(air, rx[i]) {
      assert FromPacket(packets, seed, codec, config, rx[i]);
      var k :| 0 <= k < |packets| && OfPacket(packets, seed, codec, config, k, rx[i]);
      AirEntry(packets, seed, codec, config, k);
    }
  }

  lemma {:induction false} InOrderFromSession(packets: seq<Packet>, seed: U32, codec: Codec<Packet>, config: Config,
                                              rx: seq<Chunk>)
    requires GoodSession(packets, codec, config) && InOrder(rx, Session(packets, seed, codec, config))
    ensures FromSession(packets, seed, codec, config, rx)
  {
    if packets == [] {
      var at :| Picks(rx, Session(packets, seed, codec, config), at);
    } else {
      var n := |packets| - 1;
      var front := packets[..n];
      var s := Sent(codec.encode(packets[n]), config.maxPacketSize);
      var block := Rounds(IdAt(seed, n), s, config.retransmitCount);
      var m := SplitInOrder(rx, Session(front, seed, codec, config), block);
      InOrderFromSession(front, seed, codec, config, rx[..m]);
      forall i | 0 <= i < |rx| ensures FromPacket(packets, seed, codec, config, rx[i]) {
        if i < m {
          assert FromPacket(front, seed, codec, config, rx[..m][i]);
          var k :| 0 <= k < n && OfPacket(front, seed, codec, config, k, rx[i]);
          assert OfPacket(packets, seed, codec, config, k, rx[i]);
        } else {
          assert rx[i] in block;
          var j := IndexIn(block, rx[i]);
          RoundsOfPacket(packets, seed, codec, config, n, j);
          assert OfPacket(packets, seed, codec, config, n, rx[i]);
        }
      }
    }
  }

  /** Fragments of other packets do not count. */
  lemma {:induction false} SeenConcat(a: seq<Chunk>, b: seq<Chunk>, id: nat)
    ensures Seen(a + b, id) == Seen(a, id) + Seen(b, id)
  {
    var all := a + b;
    forall x | x in Seen(a, id) ensures x in Seen(all, id) {
      var i :| 0 <= i < |a| && About(a[i], id) && NumOf(a[i]) == x;
      assert About(all[i], id);
    }
    forall x | x in Seen(b, id) ensures x in Seen(all, id) {
      var i :| 0 <= i < |b| && About(b[i], id) && NumOf(b[i]) == x;
      assert About(all[|a| + i], id);
    }
    forall x | x in Seen(all, id) ensures x in Seen(a, id) + Seen(b, id) {
      var i :| 0 <= i < |all| && About(all[i], id) && NumOf(all[i]) == x;
      if i >= |a| {
        assert About(b[i - |a|], id);
      }
    }
  }

  lemma {:induction false} SeenForeign(b: seq<Chunk>, id: nat, other: nat)
    requires id != other && forall i :: 0 <= i < |b| ==> IdOf(b[i]) == other
    ensures Seen(b, id) == {}
  {
  }

  /**
   Over a channel that keeps order and gets every fragment through at least once, the packets reported
   are exactly the packets sent, each once, in the order sent.
   */
  lemma {:induction false} DeliveredInOrder(packets: seq<Packet>, seed: U32, codec: Codec<Packet>, config: Config,
                                            rx: seq<Chunk>)
    requires GoodSession(packets, codec, config)
    requires InOrder(rx, Session(packets, seed, codec, config)) && Covered(packets, seed, codec, config, rx)
    ensures Reported(rx, codec) == packets
    decreases |packets|
  {
    if packets == [] {
      NothingSent(rx);
    } else {
      var front := packets[..|packets| - 1];
      var a, b := SplitSession(packets, seed, codec, config, rx);
      FrontCovered(packets, seed, codec, config, a, b);
      DeliveredInOrder(front, seed, codec, config, a);
      InOrderFromSession(packets, seed, codec, config, rx);
      LastReported(packets, seed, codec, config, a, b);
      FrontAndLast(packets);
    }
  }

  // ---- A channel that loses nothing ----

  lemma {:induction false} AllInOrder(trace: seq<Chunk>)
    ensures InOrder(trace, trace)
  {
    assert Picks(trace, trace, seq(|trace|, i => i));
  }

  /** One round is enough to send every fragment of a packet. */
  lemma {:induction false} RoundsCover(id: U32, s: Sent, rounds: nat)
    requires s.max >= 1 && |s.data| < WORD && rounds >= 1
    ensures Full(|Fragments(s)|, Seen(Rounds(id, s, rounds), id))
  {
    var n, sent := |Fragments(s)|, Rounds(id, s, rounds);
    forall k | 1 <= k <= n ensures k in Seen(sent, id) {
      RoundHas(id, s, rounds, k - 1);
      SentChunkView(id, s, k - 1, 1);
      assert About(sent[k - 1], id) && NumOf(sent[k - 1]) == k;
    }
  }

  lemma {:induction false} RoundHas(id: U32, s: Sent, rounds: nat, k: nat)
    requires s.max >= 1 && rounds >= 1 && k < |Cut(s.data, s.max)|
    ensures k < |Rounds(id, s, rounds)| && Rounds(id, s, rounds)[k] == SentChunk(id, s, k, 1)
  {
    var n := |Cut(s.data, s.max)|;
    RoundsAt(id, s, rounds, k);
    assert rounds * n >= n by {
      ScaleMonotone(1, rounds, n);
    }
    Quotient(k, 0, n, k);
  }

  lemma {:induction false} FullOfEither(n: nat, a: seq<Chunk>, b: seq<Chunk>, id: nat)
    requires Full(n, Seen(a, id)) || Full(n, Seen(b, id))
    ensures Full(n, Seen(a + b, id))
  {
    SeenConcat(a, b, id);
  }

  /** A session's trace covers packet k if the part before its last packet covers the packets before. */
  lemma {:induction false} CoverStep(packets: seq<Packet>, seed: U32, codec: Codec<Packet>, config: Config,
                                     first: seq<Chunk>, n: nat, k: nat)
    requires GoodSession(packets, codec, config) && config.retransmitCount >= 1 && k <= n == |packets| - 1
    requires Covered(packets[..n], seed, codec, config, first)
    ensures var last := Sent(codec.encode(packets[n]), config.maxPacketSize);
            Full(|Fragments(Sent(codec.encode(packets[k]), config.maxPacketSize))|,
                 Seen(first + Rounds(IdAt(seed, n), last, config.retransmitCount), IdAt(seed, k)))
  {
    var s := Sent(codec.encode(packets[k]), config.maxPacketSize);
    var last := Sent(codec.encode(packets[n]), config.maxPacketSize);
    if k < n {
      assert packets[..n][k] == packets[k];
    } else {
      RoundsCover(IdAt(seed, n), last, config.retransmitCount);
    }
    FullOfEither(|Fragments(s)|, first, Rounds(IdAt(seed, n), last, config.retransmitCount), IdAt(seed, k));
  }

  lemma {:induction false} SessionCovers(packets: seq<Packet>, seed: U32, codec: Codec<Packet>, config: Config)
    requires GoodSession(packets, codec, config) && config.retransmitCount >= 1
    ensures Covered(packets, seed, codec, config, Session(packets, seed, codec, config))
  {
    if packets != [] {
      var n := |packets| - 1;
      var first := Session(packets[..n], seed, codec, config);
      GoodFront(packets, codec, config);
      SessionCovers(packets[..n], seed, codec, config);
      forall k | 0 <= k < |packets|
        ensures Full(|Fragments(Sent(codec.encode(packets[k]), config.maxPacketSize))|,
                     Seen(Session(packets, seed, codec, config), IdAt(seed, k)))
      {
        CoverStep(packets, seed, codec, config, first, n, k);
      }
    }
  }

  lemma {:induction false} LastPick(rx: seq<Chunk>, trace: seq<Chunk>, at: seq<nat>)
    requires Picks(rx, trace, at)
    ensures rx == [] || at[|rx| - 1] < |trace|
  {
  }

  lemma {:induction false} NothingSent(rx: seq<Chunk>)
    requires InOrder(rx, [])
    ensures rx == []
  {
    var at :| Picks(rx, [], at);
    LastPick(rx, [], at);
  }

  /** What arrives divides into the arrivals before the session's last packet and those of the last packet. */
  lemma {:induction false} SplitSession(packets: seq<Packet>, seed: U32, codec: Codec<Packet>, config: Config,
                                        rx: seq<Chunk>)
    returns (a: seq<Chunk>, b: seq<Chunk>)
    requires GoodSession(packets, codec, config) && packets != []
    requires InOrder(rx, Session(packets, seed, codec, config))
    ensures rx == a + b && InOrder(a, Session(packets[..|packets| - 1], seed, codec, config))
    ensures forall i :: 0 <= i < |a| ==> IdOf(a[i]) != IdAt(seed, |packets| - 1)
    ensures forall i :: 0 <= i < |b| ==> IdOf(b[i]) == IdAt(seed, |packets| - 1)
  {
    var n := |packets| - 1;
    var front := packets[..n];
    var s := Sent(codec.encode(packets[n]), config.maxPacketSize);
    var block := Rounds(IdAt(seed, n), s, config.retransmitCount);
    var m := SplitInOrder(rx, Session(front, seed, codec, config), block);
    a, b := rx[..m], rx[m..];
    SplitAt(rx, m);
    BlockIds(packets, seed, codec, config, b, block);
    FrontIds(front, seed, codec, config, a, n);
  }

  lemma {:induction false} FrontCovered(packets: seq<Packet>, seed: U32, codec: Codec<Packet>, config: Config,
                                        a: seq<Chunk>, b: seq<Chunk>)
    requires GoodSession(packets, codec, config) && packets != [] && Covered(packets, seed, codec, config, a + b)
    requires forall i :: 0 <= i < |b| ==> IdOf(b[i]) == IdAt(seed, |packets| - 1)
    ensures Covered(packets[..|packets| - 1], seed, codec, config, a)
  {
    var n := |packets| - 1;
    var front := packets[..n];
    forall k | 0 <= k < n
      ensures Full(|Fragments(Sent(codec.encode(front[k]), config.maxPacketSize))|, Seen(a, IdAt(seed, k)))
    {
      DistinctIds(seed, k, n);
      SeenConcat(a, b, IdAt(seed, k));
      SeenForeign(b, IdAt(seed, k), IdAt(seed, n));
      assert packets[k] == front[k];
    }
  }

  lemma {:induction false} LastReported(packets: seq<Packet>, seed: U32, codec: Codec<Packet>, config: Config,
                                        a: seq<Chunk>, b: seq<Chunk>)
    requires GoodSession(packets, codec, config) && packets != []
    requires FromSession(packets, seed, codec, config, a + b) && Covered(packets, seed, codec, config, a + b)
    requires forall i :: 0 <= i < |a| ==> IdOf(a[i]) != IdAt(seed, |packets| - 1)
    requires forall i :: 0 <= i < |b| ==> IdOf(b[i]) == IdAt(seed, |packets| - 1)
    ensures Reported(a + b, codec) == Reported(a, codec) + [packets[|packets| - 1]]
  {
    SessionHonest(packets, seed, codec, config, a + b);
    SessionAirValid(packets, seed, codec, config);
    AirEntry(packets, seed, codec, config, |packets| - 1);
    BlockReported(SessionAir(packets, seed, codec, config), a, b, IdAt(seed, |packets| - 1), codec);
  }

  lemma {:induction false} BlockIds(packets: seq<Packet>, seed: U32, codec: Codec<Packet>, config: Config,
                                    b: seq<Chunk>, block: seq<Chunk>)
    requires GoodSession(packets, codec, config) && packets != []
    requires var n := |packets| - 1; var s := Sent(codec.encode(packets[n]), config.maxPacketSize);
             block == Rounds(IdAt(seed, n), s, config.retransmitCount)
    requires forall i :: 0 <= i < |b| ==> b[i] in block
    ensures forall i :: 0 <= i < |b| ==> IdOf(b[i]) == IdAt(seed, |packets| - 1)
  {
    forall i | 0 <= i < |b| ensures IdOf(b[i]) == IdAt(seed, |packets| - 1) {
      assert b[i] in block;
      var j := IndexIn(block, b[i]);
      RoundsOfPacket(packets, seed, codec, config, |packets| - 1, j);
    }
  }

  lemma {:induction false} FrontIds(front: seq<Packet>, seed: U32, codec: Codec<Packet>, config: Config, a: seq<Chunk>,
                                    n: nat)
    requires GoodSession(front, codec, config) && |front| == n < WORD - 1
    requires InOrder(a, Session(front, seed, codec, config))
    ensures forall i :: 0 <= i < |a| ==> IdOf(a[i]) != IdAt(seed, n)
  {
    InOrderFromSession(front, seed, codec, config, a);
    forall i | 0 <= i < |a| ensures IdOf(a[i]) != IdAt(seed, n) {
      assert FromPacket(front, seed, codec, config, a[i]);
      var k :| 0 <= k < n && OfPacket(front, seed, codec, config, k, a[i]);
      DistinctIds(seed, k, n);
    }
  }

  // ---- The file, end to end ----

  lemma {:induction false} PacketAt(id: U32, tr: Transfer, k: nat)
    requires k < |PacketsOf(id, tr)|
    ensures PacketsOf(id, tr)[k] == if k == 0 then HeaderPacket(Header(id, tr)) else ChunkPacket(Chunks(id, tr)[k - 1])
  {
    var chunks := Chunks(id, tr);
    MappedAfter(HeaderPacket(Header(id, tr)), AsPacket, chunks, k);
  }

  lemma {:induction false} PacketIs(id: U32, tr: Transfer, k: nat)
    requires Transfers.Valid(tr) && k < |PacketsOf(id, tr)|
    ensures HonestPacket(id, tr, PacketsOf(id, tr)[k])
    ensures k > 0 ==> PacketsOf(id, tr)[k].ChunkPacket? && FileAssembly.ChunkNum(PacketsOf(id, tr)[k].fileChunk) == k
  {
    PacketAt(id, tr, k);
    if k > 0 {
      HonestChunk(id, tr, k);
    }
  }

  lemma {:induction false} PacketsAreHonest(id: U32, tr: Transfer)
    requires Transfers.Valid(tr)
    ensures var ps := PacketsOf(id, tr);
            && Transfers.AllHonest(id, tr, ps) && ps[0].HeaderPacket?
            && Full(|Chunks(id, tr)|, Have(ps))
  {
    var ps := PacketsOf(id, tr);
    forall i | 0 <= i < |ps| ensures HonestPacket(id, tr, ps[i]) {
      PacketIs(id, tr, i);
    }
    forall k: nat | 1 <= k <= |Chunks(id, tr)| ensures k in Have(ps) {
      PacketIs(id, tr, k);
    }
  }

  /** The receiver has the file: it never exited, the transfer is complete, and the disk holds exactly the file. */
  ghost predicate FileArrived(id: U32, tr: Transfer, st: Option<FileAssembly.FileState>) {
    && st.Some?
    && FileRuns.IsFinished(id, tr, st.value)
    && FileAssembly.DiskOf(st.value.writes) == map[tr.name := tr.data]
  }

  /**
   For every nonempty file and all chunk and packet sizes: over a channel that keeps order and loses and
   repeats, but gets each fragment through at least once, the file arrives.
   */
  lemma {:induction false} FileIsDelivered(id: U32, tr: Transfer, seed: U32, codec: Codec<Packet>, config: Config,
                                           rx: seq<Chunk>)
    requires Transfers.Valid(tr) && tr.data != []
    requires GoodSession(PacketsOf(id, tr), codec, config)
    requires InOrder(rx, Session(PacketsOf(id, tr), seed, codec, config))
    requires Covered(PacketsOf(id, tr), seed, codec, config, rx)
    ensures FileArrived(id, tr, FileAssembly.Run(Reported(rx, codec)))
  {
    var ps := PacketsOf(id, tr);
    DeliveredInOrder(ps, seed, codec, config, rx);
    PacketsAreHonest(id, tr);
    FileRuns.HeaderFirstNotDoomed(ps);
    FileRuns.HeaderFirstNew(ps);
    ChunksShape(id, tr);
    assert 1 in Have(ps);
    FileRuns.Confluence(id, tr, ps);
    assert id in FileAssembly.Run(ps).value.cells;
  }

  // ---- Anything goes: many senders, any order, losses and repeats ----

  /** The payloads on the air that are about `id` are packets of one transfer. The others may be anything. */
  ghost predicate Carries(air: Air, codec: Codec<Packet>, id: U32, tr: Transfer) {
    forall pid :: pid in air && codec.decode(air[pid].data).Some? ==>
      var p := codec.decode(air[pid].data).value;
      FileAssembly.About(p, id) ==> HonestPacket(id, tr, p)
  }

  /** Every file chunk on the air is numbered from 1 and not empty. */
  ghost predicate CarriesSolid(air: Air, codec: Codec<Packet>) {
    forall pid :: pid in air && codec.decode(air[pid].data).Some? ==> FileRuns.Solid(codec.decode(air[pid].data).value)
  }

  /** No other transfer on the air announces this name. */
  ghost predicate CarriesName(air: Air, codec: Codec<Packet>, id: nat, name: string) {
    forall pid, x :: pid in air && codec.decode(air[pid].data).Some? ==>
      FileRuns.Announces(codec.decode(air[pid].data).value, x, name) ==> x == id
  }

  lemma {:induction false} ReportsMember(outcomes: seq<Outcome>, p: Packet)
    ensures p in Reports(outcomes) <==> exists t :: 0 <= t < |outcomes| && outcomes[t] == Deliver(p)
  {
    if outcomes != [] {
      var front := outcomes[..|outcomes| - 1];
      ReportsMember(front, p);
      assert forall t :: 0 <= t < |front| ==> front[t] == outcomes[t];
    }
  }

  lemma {:induction false} SeenTake(cs: seq<Chunk>, n: nat, id: nat)
    requires n <= |cs|
    ensures Seen(cs[..n], id) <= Seen(cs, id)
  {
    SeenConcat(cs[..n], cs[n..], id);
    assert cs == cs[..n] + cs[n..];
  }

  lemma {:induction false} ReportedIsSeen(air: Air, rx: seq<Chunk>, codec: Codec<Packet>, t: nat)
    requires ValidAir(air, codec.decode) && Delivery.AllHonest(air, rx)
    requires t < |rx| && Run(rx, codec.decode).1[t].Deliver?
    ensures var pid := IdOf(rx[t]);
            && pid in air && air[pid].max >= 1 && AllSeen(air, rx, pid)
            && codec.decode(air[pid].data) == Some(Run(rx, codec.decode).1[t].packet)
  {
    ReportedWhenComplete(air, rx, t, codec.decode);
    SeenTake(rx, t + 1, IdOf(rx[t]));
  }

  lemma {:induction false} SeenIsReported(air: Air, rx: seq<Chunk>, codec: Codec<Packet>, pid: nat)
    requires ValidAir(air, codec.decode) && Delivery.AllHonest(air, rx) && pid in air && AllSeen(air, rx, pid)
    ensures codec.decode(air[pid].data).value in Reported(rx, codec)
  {
    var p := codec.decode(air[pid].data).value;
    ReportedExactlyOnce(air, rx, pid, codec.decode);
    var t: nat :| IsOnlyReport(rx, pid, t, p, codec.decode);
    ReportsMember(Run(rx, codec.decode).1, p);
  }

  /** The packets reported are exactly those all of whose fragments have arrived. */
  lemma {:induction false} ReportedExactly(air: Air, rx: seq<Chunk>, codec: Codec<Packet>, p: Packet)
    requires ValidAir(air, codec.decode) && Delivery.AllHonest(air, rx)
    ensures p in Reported(rx, codec) <==>
            exists pid :: pid in air && AllSeen(air, rx, pid) && codec.decode(air[pid].data).value == p
  {
    var outcomes := Run(rx, codec.decode).1;
    ReportsMember(outcomes, p);
    if p in Reported(rx, codec) {
      var t :| 0 <= t < |outcomes| && outcomes[t] == Deliver(p);
      ReportedIsSeen(air, rx, codec, t);
    }
    if pid :| pid in air && AllSeen(air, rx, pid) && codec.decode(air[pid].data).value == p {
      SeenIsReported(air, rx, codec, pid);
    }
  }

  /** What is reported was on the air. */
  lemma {:induction false} ReportedWasSent(air: Air, rx: seq<Chunk>, codec: Codec<Packet>, p: Packet) returns (pid: nat)
    requires ValidAir(air, codec.decode) && Delivery.AllHonest(air, rx) && p in Reported(rx, codec)
    ensures pid in air && codec.decode(air[pid].data) == Some(p)
  {
    ReportedExactly(air, rx, codec, p);
    pid :| pid in air && AllSeen(air, rx, pid) && codec.decode(air[pid].data).value == p;
    assert ValidSent(air[pid], codec.decode);
  }

  lemma {:induction false} ReportedAreSole(air: Air, rx: seq<Chunk>, codec: Codec<Packet>, id: U32, tr: Transfer)
    requires ValidAir(air, codec.decode) && Delivery.AllHonest(air, rx) && Carries(air, codec, id, tr)
    ensures FileRuns.Sole(id, tr, Reported(rx, codec))
  {
    var ps := Reported(rx, codec);
    forall i | 0 <= i < |ps| && FileAssembly.About(ps[i], id) ensures HonestPacket(id, tr, ps[i]) {
      var pid := ReportedWasSent(air, rx, codec, ps[i]);
    }
  }

  lemma {:induction false} ReportedAreSolid(air: Air, rx: seq<Chunk>, codec: Codec<Packet>)
    requires ValidAir(air, codec.decode) && Delivery.AllHonest(air, rx) && CarriesSolid(air, codec)
    ensures FileRuns.AllSolid(Reported(rx, codec))
  {
    var ps := Reported(rx, codec);
    forall i | 0 <= i < |ps| ensures FileRuns.Solid(ps[i]) {
      var pid := ReportedWasSent(air, rx, codec, ps[i]);
    }
  }

  lemma {:induction false} ReportedOwnName(air: Air, rx: seq<Chunk>, codec: Codec<Packet>, id: nat, name: string)
    requires ValidAir(air, codec.decode) && Delivery.AllHonest(air, rx) && CarriesName(air, codec, id, name)
    ensures FileRuns.OwnName(id, name, Reported(rx, codec))
  {
    var ps := Reported(rx, codec);
    forall i, x | 0 <= i < |ps| && FileRuns.Announces(ps[i], x, name) ensures x == id {
      var pid := ReportedWasSent(air, rx, codec, ps[i]);
    }
  }

  /**
   Safety. Whatever the channel loses, repeats or reorders, whatever else is on the air, and whether or not
   the program exits in the end: every write it has made for a transfer whose id no other transfer on the
   air has is a nonempty prefix of its file, under its name, and extends the write before.
   */
  lemma {:induction false} WritesAreSafe(air: Air, rx: seq<Chunk>, codec: Codec<Packet>, id: U32, tr: Transfer)
    requires ValidAir(air, codec.decode) && Delivery.AllHonest(air, rx)
    requires Transfers.Valid(tr) && Carries(air, codec, id, tr)
    ensures var ws := FileAssembly.WritesOf(FileAssembly.Until(Reported(rx, codec)).writes, id);
            && (forall w :: w in ws ==> w.name == tr.name)
            && FileRuns.Progressive(ws, tr.data, tr.data)
  {
    var ps := Reported(rx, codec);
    var n := FileAssembly.UntilIsRun(ps);
    ReportedAreSole(air, rx, codec, id, tr);
    assert FileRuns.Sole(id, tr, ps[..n]);
    RunIsSafe(ps[..n], id, tr);
  }

  lemma {:induction false} RunIsSafe(ps: seq<Packet>, id: U32, tr: Transfer)
    requires Transfers.Valid(tr) && FileRuns.Sole(id, tr, ps) && FileAssembly.Run(ps).Some?
    ensures var ws := FileAssembly.WritesOf(FileAssembly.Run(ps).value.writes, id);
            && (forall w :: w in ws ==> w.name == tr.name)
            && FileRuns.Progressive(ws, tr.data, tr.data)
  {
    var mine := FileAssembly.Only(ps, id);
    FileRuns.EachTransfer(id, tr, ps);
    FileRuns.WritesAreTheTransfers(id, tr, mine);
    FileRuns.WritesArePrefixes(id, tr, mine);
    PrefixShape(id, tr, Have(mine));
  }

  /**
   Liveness, exactly. In any run that has not exited, a transfer with an id of its own is complete if and
   only if, among the packets reported for it, the header came before the last missing chunk and no two later
   chunks came before both the header and chunk 1; and then its last write is the whole file. If its name is
   its own too, that is exactly when the disk holds the file under its name. `Arrivals` says the same of the
   fragments.
   */
  lemma {:induction false} FinishedExactly(air: Air, rx: seq<Chunk>, codec: Codec<Packet>, id: U32, tr: Transfer)
    requires ValidAir(air, codec.decode) && Delivery.AllHonest(air, rx)
    requires Transfers.Valid(tr) && Carries(air, codec, id, tr)
    requires FileAssembly.Run(Reported(rx, codec)).Some?
    ensures var st := FileAssembly.Run(Reported(rx, codec)).value;
            var mine := FileAssembly.Only(Reported(rx, codec), id);
            var ws, disk := FileAssembly.WritesOf(st.writes, id), FileAssembly.DiskOf(st.writes);
            var done := Completes(|Chunks(id, tr)|, mine) && !Doomed(mine);
            && (FileRuns.IsFinished(id, tr, st) <==> done)
            && (done ==> ws != [] && ws[|ws| - 1] == FileAssembly.Write(id, tr.name, tr.data))
            && (CarriesName(air, codec, id, tr.name) ==> (tr.name in disk && disk[tr.name] == tr.data <==> done))
  {
    var ps := Reported(rx, codec);
    ReportedAreSole(air, rx, codec, id, tr);
    RunFinished(ps, id, tr);
    if CarriesName(air, codec, id, tr.name) {
      ReportedOwnName(air, rx, codec, id, tr.name);
      FileRuns.WholeOnDisk(id, tr, ps);
    }
  }

  lemma {:induction false} RunFinished(ps: seq<Packet>, id: U32, tr: Transfer)
    requires Transfers.Valid(tr) && FileRuns.Sole(id, tr, ps) && FileAssembly.Run(ps).Some?
    ensures var st := FileAssembly.Run(ps).value;
            var mine := FileAssembly.Only(ps, id);
            var ws := FileAssembly.WritesOf(st.writes, id);
            && (Completes(|Chunks(id, tr)|, mine) ==> !Doomed(mine))
            && (FileRuns.IsFinished(id, tr, st) <==> Completes(|Chunks(id, tr)|, mine))
            && (FileRuns.IsFinished(id, tr, st) ==>
                  ws != [] && ws[|ws| - 1] == FileAssembly.Write(id, tr.name, tr.data))
  {
    var mine := FileAssembly.Only(ps, id);
    FileRuns.EachTransfer(id, tr, ps);
    SingleTransfer(id, tr, mine);
    FileRuns.FinishedExactly(id, tr, mine);
    if Completes(|Chunks(id, tr)|, mine) {
      RunningNotDoomed(|Chunks(id, tr)|, mine);
      FileRuns.FinishedIsWritten(id, tr, mine);
    }
  }

  /** Packets that completed a transfer and did not end the program were never premature. */
  lemma {:induction false} RunningNotDoomed(n: nat, ps: seq<Packet>)
    requires !Transfers.Exited(ps) && Completes(n, ps)
    ensures !Doomed(ps)
  {
    CompletesMeans(n, ps);
    if ps != [] {
      DoomedGrows(ps);
    }
  }
}

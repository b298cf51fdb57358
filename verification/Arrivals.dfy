/**
 What the fragments that arrive decide: which transfers complete and whether the program exits. The
 conditions here speak of arrivals only; what the two layers do with them is in the theorems.
 */
module Arrivals {
  import opened Basics
  import opened Numbered
  import opened Proto
  import opened Reassembly
  import opened Delivery
  import opened Transfers
  import opened EndToEnd
  import FileAssembly
  import FileRuns

  /** All fragments of payload `pid` have arrived, and it carries `p`. */
  ghost predicate Whole(air: Air, codec: Codec<Packet>, rx: seq<Chunk>, pid: nat, p: Packet) {
    pid in air && air[pid].max >= 1 && AllSeen(air, rx, pid) && codec.decode(air[pid].data) == Some(p)
  }

  /** The chunks of a transfer that have arrived as whole packets. */
  ghost function ChunksIn(air: Air, codec: Codec<Packet>, rx: seq<Chunk>, id: nat): set<nat> {
    set pid | pid in air && HoldsChunk(air, codec, rx, pid, id) ::
      FileAssembly.ChunkNum(codec.decode(air[pid].data).value.fileChunk)
  }

  ghost predicate HoldsChunk(air: Air, codec: Codec<Packet>, rx: seq<Chunk>, pid: nat, id: nat)
    requires pid in air
  {
    && air[pid].max >= 1 && AllSeen(air, rx, pid)
    && codec.decode(air[pid].data).Some?
    && codec.decode(air[pid].data).value.ChunkPacket?
    && FileAssembly.About(codec.decode(air[pid].data).value, id)
  }

  ghost predicate HeaderIn(air: Air, codec: Codec<Packet>, rx: seq<Chunk>, id: nat) {
    exists pid, p :: Whole(air, codec, rx, pid, p) && p.HeaderPacket? && FileAssembly.About(p, id)
  }

  /** Some packet of the transfer has arrived whole. */
  ghost predicate Started(air: Air, codec: Codec<Packet>, rx: seq<Chunk>, id: nat) {
    exists pid, p :: Whole(air, codec, rx, pid, p) && FileAssembly.About(p, id)
  }

  /** The header was in before the chunk that made the set of chunks full. */
  ghost predicate CompletesBy(air: Air, codec: Codec<Packet>, rx: seq<Chunk>, id: nat, n: nat) {
    exists t :: 0 <= t < |rx| && FillsAt(air, codec, rx, id, n, t)
  }

  ghost predicate FillsAt(air: Air, codec: Codec<Packet>, rx: seq<Chunk>, id: nat, n: nat, t: nat)
    requires t < |rx|
  {
    && HeaderIn(air, codec, rx[..t], id)
    && !Full(n, ChunksIn(air, codec, rx[..t], id))
    && Full(n, ChunksIn(air, codec, rx[..t + 1], id))
  }

  /** Two chunks are in, but neither the header nor chunk 1. */
  ghost predicate TooEarly(air: Air, codec: Codec<Packet>, rx: seq<Chunk>, id: nat) {
    && !HeaderIn(air, codec, rx, id)
    && TwoOrMore(ChunksIn(air, codec, rx, id)) && 1 !in ChunksIn(air, codec, rx, id)
  }

  /** That was so at some moment: the transfer's tracker lost its id. */
  ghost predicate LostBy(air: Air, codec: Codec<Packet>, rx: seq<Chunk>, id: nat) {
    exists q :: 0 <= q <= |rx| && TooEarly(air, codec, rx[..q], id)
  }

  /** Transfer `y` is `x`, or started before it. */
  ghost predicate AheadOf(air: Air, codec: Codec<Packet>, rx: seq<Chunk>, y: nat, x: nat) {
    if y == x then Started(air, codec, rx, x)
    else exists q :: 0 <= q <= |rx| && OnlyFirst(air, codec, rx[..q], y, x)
  }

  ghost predicate OnlyFirst(air: Air, codec: Codec<Packet>, rx: seq<Chunk>, y: nat, x: nat) {
    Started(air, codec, rx, y) && !Started(air, codec, rx, x)
  }

  /** A transfer that lost its id is `x`, or started before it: the search for `x` meets it. */
  ghost predicate Meets(air: Air, codec: Codec<Packet>, rx: seq<Chunk>, x: nat) {
    exists y :: LostBy(air, codec, rx, y) && AheadOf(air, codec, rx, y, x)
  }

  /** Arrival `t` completes a packet, and the search for its transfer meets one that lost its id. */
  ghost predicate ExitsAt(air: Air, codec: Codec<Packet>, rx: seq<Chunk>, t: nat)
    requires t < |rx|
  {
    && IdOf(rx[t]) in air && air[IdOf(rx[t])].max >= 1 && Delivery.CompletesAt(air, rx, t)
    && codec.decode(air[IdOf(rx[t])].data).Some?
    && var p := codec.decode(air[IdOf(rx[t])].data).value;
       FileAssembly.Accepted(p) && Meets(air, codec, rx[..t], FileAssembly.TransferId(p))
  }

  ghost predicate Exits(air: Air, codec: Codec<Packet>, rx: seq<Chunk>) {
    exists t :: 0 <= t < |rx| && ExitsAt(air, codec, rx, t)
  }

  /** The transfer is complete: it filled up after its header, and its tracker was not lost before. */
  ghost predicate Finishes(air: Air, codec: Codec<Packet>, rx: seq<Chunk>, id: U32, tr: Transfer) {
    CompletesBy(air, codec, rx, id, |Chunks(id, tr)|) && !LostBy(air, codec, rx, id)
  }

  // ---- The same of the packets reported ----

  lemma {:induction false} OnlyMember(ps: seq<Packet>, id: nat, p: Packet)
    ensures p in FileAssembly.Only(ps, id) <==> p in ps && FileAssembly.About(p, id)
  {
    if ps != [] {
      var front, last := ps[..|ps| - 1], ps[|ps| - 1];
      OnlyMember(front, id, p);
      assert p in ps <==> p in front || p == last;
    }
  }

  /** The packets of a transfer that are reported. */
  function Mine(rx: seq<Chunk>, codec: Codec<Packet>, id: nat): seq<Packet> {
    FileAssembly.Only(Reported(rx, codec), id)
  }

  lemma {:induction false} MineExactly(air: Air, rx: seq<Chunk>, codec: Codec<Packet>, id: nat, p: Packet)
    requires ValidAir(air, codec.decode) && Delivery.AllHonest(air, rx)
    ensures p in Mine(rx, codec, id) <==> FileAssembly.About(p, id) && exists pid :: Whole(air, codec, rx, pid, p)
  {
    OnlyMember(Reported(rx, codec), id, p);
    ReportedExactly(air, rx, codec, p);
    if pid :| pid in air && AllSeen(air, rx, pid) && codec.decode(air[pid].data).value == p {
      assert ValidSent(air[pid], codec.decode) && Whole(air, codec, rx, pid, p);
    }
  }

  lemma {:induction false} HaveIs(air: Air, rx: seq<Chunk>, codec: Codec<Packet>, id: nat)
    requires ValidAir(air, codec.decode) && Delivery.AllHonest(air, rx)
    ensures Have(Mine(rx, codec, id)) == ChunksIn(air, codec, rx, id)
  {
    var mine := Mine(rx, codec, id);
    forall k | k in Have(mine) ensures k in ChunksIn(air, codec, rx, id) {
      var i :| 0 <= i < |mine| && mine[i].ChunkPacket? && FileAssembly.ChunkNum(mine[i].fileChunk) == k;
      MineExactly(air, rx, codec, id, mine[i]);
      var pid :| Whole(air, codec, rx, pid, mine[i]);
      assert HoldsChunk(air, codec, rx, pid, id);
    }
    forall k | k in ChunksIn(air, codec, rx, id) ensures k in Have(mine) {
      var pid :| pid in air && HoldsChunk(air, codec, rx, pid, id)
        && FileAssembly.ChunkNum(codec.decode(air[pid].data).value.fileChunk) == k;
      var p := codec.decode(air[pid].data).value;
      assert Whole(air, codec, rx, pid, p);
      MineExactly(air, rx, codec, id, p);
      var i :| 0 <= i < |mine| && mine[i] == p;
    }
  }

  lemma {:induction false} HeaderIs(air: Air, rx: seq<Chunk>, codec: Codec<Packet>, id: nat)
    requires ValidAir(air, codec.decode) && Delivery.AllHonest(air, rx)
    ensures HeaderSeen(Mine(rx, codec, id)) <==> HeaderIn(air, codec, rx, id)
  {
    var mine := Mine(rx, codec, id);
    if HeaderSeen(mine) {
      var i :| 0 <= i < |mine| && mine[i].HeaderPacket?;
      MineExactly(air, rx, codec, id, mine[i]);
    }
    if HeaderIn(air, codec, rx, id) {
      var pid, p :| Whole(air, codec, rx, pid, p) && p.HeaderPacket? && FileAssembly.About(p, id);
      MineExactly(air, rx, codec, id, p);
      var i :| 0 <= i < |mine| && mine[i] == p;
    }
  }

  lemma {:induction false} StartedIs(air: Air, rx: seq<Chunk>, codec: Codec<Packet>, id: nat)
    requires ValidAir(air, codec.decode) && Delivery.AllHonest(air, rx)
    ensures id in FileRuns.FirstSeen(Reported(rx, codec)) <==> Started(air, codec, rx, id)
  {
    var ps := Reported(rx, codec);
    FileRuns.FirstSeenHas(ps, id);
    if r :| 0 <= r < |ps| && FileAssembly.About(ps[r], id) {
      OnlyMember(ps, id, ps[r]);
      MineExactly(air, rx, codec, id, ps[r]);
    }
    if Started(air, codec, rx, id) {
      var pid, p :| Whole(air, codec, rx, pid, p) && FileAssembly.About(p, id);
      MineExactly(air, rx, codec, id, p);
      OnlyMember(ps, id, p);
    }
  }

  // ---- One more arrival ----

  /** An arrival reports at most one packet. */
  lemma {:induction false} MineGrows(rx: seq<Chunk>, codec: Codec<Packet>, id: nat)
    requires rx != []
    ensures var front, mine := rx[..|rx| - 1], Mine(rx, codec, id);
            mine == Mine(front, codec, id) || (mine != [] && mine[..|mine| - 1] == Mine(front, codec, id))
  {
    var front, c := rx[..|rx| - 1], rx[|rx| - 1];
    assert front + [c] == rx;
    ReportedSnoc(front, c, codec);
    var outcome := Step(Run(front, codec.decode).0, c, codec.decode).1;
    var ps := Reported(front, codec);
    match outcome {
      case Deliver(p) =>
        assert (ps + [p])[..|ps|] == ps;
        FileAssembly.OnlyGrows(ps + [p], id);
      case _ =>
        assert ps + [] == ps;
    }
  }

  lemma {:induction false} FillsAtFront(air: Air, codec: Codec<Packet>, rx: seq<Chunk>, id: nat, n: nat, m: nat, t: nat)
    requires t < m <= |rx|
    ensures FillsAt(air, codec, rx[..m], id, n, t) <==> FillsAt(air, codec, rx, id, n, t)
  {
    assert rx[..m][..t] == rx[..t] && rx[..m][..t + 1] == rx[..t + 1];
  }

  lemma {:induction false} CompletesByGrows(air: Air, codec: Codec<Packet>, rx: seq<Chunk>, id: nat, n: nat)
    requires rx != []
    ensures CompletesBy(air, codec, rx, id, n) <==>
            CompletesBy(air, codec, rx[..|rx| - 1], id, n) || FillsAt(air, codec, rx, id, n, |rx| - 1)
  {
    var m := |rx| - 1;
    if CompletesBy(air, codec, rx[..m], id, n) {
      var t :| 0 <= t < m && FillsAt(air, codec, rx[..m], id, n, t);
      FillsAtFront(air, codec, rx, id, n, m, t);
    }
    if CompletesBy(air, codec, rx, id, n) {
      var t :| 0 <= t < |rx| && FillsAt(air, codec, rx, id, n, t);
      if t < m {
        FillsAtFront(air, codec, rx, id, n, m, t);
      }
    }
  }

  lemma {:induction false} CompletesIs(air: Air, rx: seq<Chunk>, codec: Codec<Packet>, id: nat, n: nat)
    requires ValidAir(air, codec.decode) && Delivery.AllHonest(air, rx)
    ensures Completes(n, Mine(rx, codec, id)) <==> CompletesBy(air, codec, rx, id, n)
  {
    if rx != [] {
      var front, mine := rx[..|rx| - 1], Mine(rx, codec, id);
      assert rx[..|rx|] == rx;
      CompletesIs(air, front, codec, id, n);
      CompletesByGrows(air, codec, rx, id, n);
      MineGrows(rx, codec, id);
      HeaderIs(air, front, codec, id);
      HaveIs(air, front, codec, id);
      HaveIs(air, rx, codec, id);
      if mine != Mine(front, codec, id) {
        CompletesGrows(n, mine);
      }
    }
  }

  lemma {:induction false} LostLater(air: Air, codec: Codec<Packet>, rx: seq<Chunk>, id: nat, m: nat)
    requires m <= |rx| && LostBy(air, codec, rx[..m], id)
    ensures LostBy(air, codec, rx, id)
  {
    var q :| 0 <= q <= m && TooEarly(air, codec, rx[..m][..q], id);
    assert rx[..m][..q] == rx[..q];
  }

  lemma {:induction false} LostNow(air: Air, codec: Codec<Packet>, rx: seq<Chunk>, id: nat)
    requires TooEarly(air, codec, rx, id)
    ensures LostBy(air, codec, rx, id)
  {
    assert rx[..|rx|] == rx;
  }

  lemma {:induction false} LostWhen(air: Air, codec: Codec<Packet>, rx: seq<Chunk>, id: nat) returns (q: nat)
    requires LostBy(air, codec, rx, id)
    ensures q <= |rx| && TooEarly(air, codec, rx[..q], id)
  {
    q :| 0 <= q <= |rx| && TooEarly(air, codec, rx[..q], id);
  }

  lemma {:induction false} LostBefore(air: Air, codec: Codec<Packet>, rx: seq<Chunk>, id: nat, m: nat, q: nat)
    requires q <= m <= |rx| && TooEarly(air, codec, rx[..q], id)
    ensures LostBy(air, codec, rx[..m], id)
  {
    assert rx[..m][..q] == rx[..q];
  }

  lemma {:induction false} LostEarlier(air: Air, codec: Codec<Packet>, rx: seq<Chunk>, id: nat, m: nat)
    requires |rx| == m + 1 && LostBy(air, codec, rx, id) && !TooEarly(air, codec, rx, id)
    ensures LostBy(air, codec, rx[..m], id)
  {
    var q := LostWhen(air, codec, rx, id);
    assert rx[..|rx|] == rx;
    assert q != |rx|;
    LostBefore(air, codec, rx, id, m, q);
  }

  lemma {:induction false} LostByGrows(air: Air, codec: Codec<Packet>, rx: seq<Chunk>, id: nat)
    requires rx != []
    ensures LostBy(air, codec, rx, id) <==> LostBy(air, codec, rx[..|rx| - 1], id) || TooEarly(air, codec, rx, id)
  {
    if TooEarly(air, codec, rx, id) {
      LostNow(air, codec, rx, id);
    } else if LostBy(air, codec, rx[..|rx| - 1], id) {
      LostLater(air, codec, rx, id, |rx| - 1);
    } else if LostBy(air, codec, rx, id) {
      LostEarlier(air, codec, rx, id, |rx| - 1);
    }
  }

  lemma {:induction false} TooEarlyIs(air: Air, rx: seq<Chunk>, codec: Codec<Packet>, id: nat)
    requires ValidAir(air, codec.decode) && Delivery.AllHonest(air, rx)
    ensures Premature(Mine(rx, codec, id)) <==> TooEarly(air, codec, rx, id)
  {
    HeaderIs(air, rx, codec, id);
    HaveIs(air, rx, codec, id);
  }

  lemma {:induction false} LostIs(air: Air, rx: seq<Chunk>, codec: Codec<Packet>, id: nat)
    requires ValidAir(air, codec.decode) && Delivery.AllHonest(air, rx)
    ensures Doomed(Mine(rx, codec, id)) <==> LostBy(air, codec, rx, id)
  {
    TooEarlyIs(air, rx, codec, id);
    if rx == [] {
      assert Mine(rx, codec, id) == [] && rx[..0] == rx && Mine(rx, codec, id)[..0] == [];
    } else {
      var front, mine := rx[..|rx| - 1], Mine(rx, codec, id);
      LostIs(air, front, codec, id);
      LostByGrows(air, codec, rx, id);
      MineGrows(rx, codec, id);
      if mine != Mine(front, codec, id) {
        DoomedGrows(mine);
      } else {
        PrematureDooms(mine);
      }
    }
  }

  lemma {:induction false} PrematureDooms(ps: seq<Packet>)
    ensures Premature(ps) ==> Doomed(ps)
  {
    assert ps[..|ps|] == ps;
  }

  lemma {:induction false} AheadGrows(air: Air, codec: Codec<Packet>, rx: seq<Chunk>, y: nat, x: nat)
    requires rx != [] && y != x
    ensures AheadOf(air, codec, rx, y, x) <==>
            AheadOf(air, codec, rx[..|rx| - 1], y, x) || OnlyFirst(air, codec, rx, y, x)
  {
    var front := rx[..|rx| - 1];
    assert rx[..|rx|] == rx;
    if AheadOf(air, codec, front, y, x) {
      var q :| 0 <= q <= |front| && OnlyFirst(air, codec, front[..q], y, x);
      assert front[..q] == rx[..q];
    }
    if AheadOf(air, codec, rx, y, x) {
      var q :| 0 <= q <= |rx| && OnlyFirst(air, codec, rx[..q], y, x);
      if q < |rx| {
        assert front[..q] == rx[..q];
      }
    }
  }

  lemma {:induction false} SelfStarted(ps: seq<Packet>, x: nat)
    ensures FileRuns.StartedBefore(ps, x, x) <==> x in FileRuns.FirstSeen(ps)
  {
    if ps != [] {
      SelfStarted(ps[..|ps| - 1], x);
      FileRuns.StartedGrows(ps, x, x);
    }
  }

  /** The reports after one more arrival. */
  lemma {:induction false} ReportedGrows(rx: seq<Chunk>, codec: Codec<Packet>)
    requires rx != []
    ensures var front := rx[..|rx| - 1]; var outcome := Run(rx, codec.decode).1[|rx| - 1];
            Reported(rx, codec) ==
            if outcome.Deliver? then Reported(front, codec) + [outcome.packet] else Reported(front, codec)
  {
    var front, c := rx[..|rx| - 1], rx[|rx| - 1];
    assert front + [c] == rx;
    ReportedSnoc(front, c, codec);
  }

  lemma {:induction false} StartedSnoc(ps: seq<Packet>, p: Packet, y: nat, x: nat)
    ensures FileRuns.StartedBefore(ps + [p], y, x) <==>
            FileRuns.StartedBefore(ps, y, x) || (FileAssembly.About(p, y) && x !in FileRuns.FirstSeen(ps))
    ensures x in FileRuns.FirstSeen(ps + [p]) <==> x in FileRuns.FirstSeen(ps) || FileAssembly.About(p, x)
  {
    assert (ps + [p])[..|ps|] == ps;
    FileRuns.StartedGrows(ps + [p], y, x);
  }

  lemma {:induction false} AheadIs(air: Air, rx: seq<Chunk>, codec: Codec<Packet>, y: nat, x: nat)
    requires ValidAir(air, codec.decode) && Delivery.AllHonest(air, rx)
    ensures FileRuns.StartedBefore(Reported(rx, codec), y, x) <==> AheadOf(air, codec, rx, y, x)
    decreases |rx|, 1
  {
    StartedIs(air, rx, codec, x);
    StartedIs(air, rx, codec, y);
    if y == x {
      SelfStarted(Reported(rx, codec), x);
    } else if rx == [] {
      assert Reported(rx, codec) == [] && rx[..0] == rx;
    } else {
      AheadStep(air, rx, codec, y, x);
    }
  }

  lemma {:induction false} AheadStep(air: Air, rx: seq<Chunk>, codec: Codec<Packet>, y: nat, x: nat)
    requires ValidAir(air, codec.decode) && Delivery.AllHonest(air, rx) && rx != [] && y != x
    requires y in FileRuns.FirstSeen(Reported(rx, codec)) <==> Started(air, codec, rx, y)
    requires x in FileRuns.FirstSeen(Reported(rx, codec)) <==> Started(air, codec, rx, x)
    ensures FileRuns.StartedBefore(Reported(rx, codec), y, x) <==> AheadOf(air, codec, rx, y, x)
    decreases |rx|, 0
  {
    var front := rx[..|rx| - 1];
    var ps := Reported(front, codec);
    AheadIs(air, front, codec, y, x);
    AheadGrows(air, codec, rx, y, x);
    ReportedGrows(rx, codec);
    StartedIs(air, front, codec, x);
    StartedIs(air, front, codec, y);
    var outcome := Run(rx, codec.decode).1[|rx| - 1];
    if outcome.Deliver? {
      StartedSnoc(ps, outcome.packet, y, x);
      StartedSnoc(ps, outcome.packet, x, y);
    }
    if OnlyFirst(air, codec, front, y, x) {
      assert front[..|front|] == front;
    }
  }

  // ---- The exit ----

  lemma {:induction false} ExitsAtFront(air: Air, codec: Codec<Packet>, rx: seq<Chunk>, m: nat, t: nat)
    requires t < m <= |rx|
    ensures ExitsAt(air, codec, rx[..m], t) <==> ExitsAt(air, codec, rx, t)
  {
    assert rx[..m][..t] == rx[..t] && rx[..m][..t + 1] == rx[..t + 1] && rx[..m][t] == rx[t];
  }

  lemma {:induction false} ExitsLater(air: Air, codec: Codec<Packet>, rx: seq<Chunk>, m: nat)
    requires m <= |rx| && Exits(air, codec, rx[..m])
    ensures Exits(air, codec, rx)
  {
    var t :| 0 <= t < m && ExitsAt(air, codec, rx[..m], t);
    ExitsAtFront(air, codec, rx, m, t);
  }

  lemma {:induction false} ExitsEarlier(air: Air, codec: Codec<Packet>, rx: seq<Chunk>, m: nat, t: nat)
    requires t < m <= |rx| && ExitsAt(air, codec, rx, t)
    ensures Exits(air, codec, rx[..m])
  {
    ExitsAtFront(air, codec, rx, m, t);
  }

  /** The arrival at which the program exits. */
  lemma {:induction false} ExitOf(air: Air, codec: Codec<Packet>, rx: seq<Chunk>)
    returns (t: nat)
    requires Exits(air, codec, rx)
    ensures t < |rx| && ExitsAt(air, codec, rx, t)
  {
    t :| 0 <= t < |rx| && ExitsAt(air, codec, rx, t);
  }

  lemma {:induction false} ExitsHere(air: Air, codec: Codec<Packet>, rx: seq<Chunk>, t: nat)
    requires t < |rx| && ExitsAt(air, codec, rx, t)
    ensures Exits(air, codec, rx)
  {
  }

  lemma {:induction false} ExitsOnlyEarlier(air: Air, codec: Codec<Packet>, rx: seq<Chunk>, m: nat)
    requires |rx| == m + 1 && Exits(air, codec, rx) && !ExitsAt(air, codec, rx, m)
    ensures Exits(air, codec, rx[..m])
  {
    var t := ExitOf(air, codec, rx);
    assert t != m;
    ExitsEarlier(air, codec, rx, m, t);
  }

  /** The program has exited by now if it had before, or exits at the last arrival. */
  lemma {:induction false} ExitsGrows(air: Air, codec: Codec<Packet>, rx: seq<Chunk>, m: nat)
    requires |rx| == m + 1
    ensures Exits(air, codec, rx) <==> Exits(air, codec, rx[..m]) || ExitsAt(air, codec, rx, m)
  {
    if ExitsAt(air, codec, rx, m) {
      ExitsHere(air, codec, rx, m);
    } else if Exits(air, codec, rx[..m]) {
      ExitsLater(air, codec, rx, m);
    } else if Exits(air, codec, rx) {
      ExitsOnlyEarlier(air, codec, rx, m);
    }
  }

  lemma {:induction false} MeetsIs(air: Air, rx: seq<Chunk>, codec: Codec<Packet>, x: nat)
    requires ValidAir(air, codec.decode) && Delivery.AllHonest(air, rx)
    ensures FileRuns.MeetsLost(Reported(rx, codec), x) <==> Meets(air, codec, rx, x)
  {
    forall y: nat
      ensures Doomed(FileAssembly.Only(Reported(rx, codec), y)) <==> LostBy(air, codec, rx, y)
      ensures FileRuns.StartedBefore(Reported(rx, codec), y, x) <==> AheadOf(air, codec, rx, y, x)
    {
      LostIs(air, rx, codec, y);
      AheadIs(air, rx, codec, y, x);
    }
  }

  lemma {:induction false} SomeExitSnoc(ps: seq<Packet>, p: Packet)
    ensures FileRuns.SomeExit(ps + [p]) <==>
            || FileRuns.SomeExit(ps)
            || (FileAssembly.Accepted(p) && FileRuns.MeetsLost(ps, FileAssembly.TransferId(p)))
  {
    assert (ps + [p])[..|ps|] == ps && (ps + [p])[|ps|] == p;
    FileRuns.SomeExitGrows(ps + [p]);
  }

  lemma {:induction false} SomeExitIs(air: Air, rx: seq<Chunk>, codec: Codec<Packet>)
    requires ValidAir(air, codec.decode) && Delivery.AllHonest(air, rx)
    ensures FileRuns.SomeExit(Reported(rx, codec)) <==> Exits(air, codec, rx)
  {
    if rx == [] {
      assert Reported(rx, codec) == [];
    } else {
      var t := |rx| - 1;
      var front := rx[..t];
      SomeExitIs(air, front, codec);
      ExitsGrows(air, codec, rx, t);
      ReportedGrows(rx, codec);
      ReportedWhenComplete(air, rx, t, codec.decode);
      var outcome := Run(rx, codec.decode).1[t];
      if outcome.Deliver? {
        SomeExitSnoc(Reported(front, codec), outcome.packet);
        MeetsIs(air, front, codec, FileAssembly.TransferId(outcome.packet));
      }
    }
  }

  /**
   The program exits if and only if some arrival completes a packet when a transfer that had lost its id,
   two of its chunks in before its header and its chunk 1, is that packet's or started first. Transfers may
   share ids; chunks need only be numbered from 1 and not empty.
   */
  lemma {:induction false} ExitsExactly(air: Air, rx: seq<Chunk>, codec: Codec<Packet>)
    requires ValidAir(air, codec.decode) && Delivery.AllHonest(air, rx) && CarriesSolid(air, codec)
    ensures FileAssembly.Run(Reported(rx, codec)) == None <==> Exits(air, codec, rx)
  {
    ReportedAreSolid(air, rx, codec);
    FileRuns.ExitsExactly(Reported(rx, codec));
    SomeExitIs(air, rx, codec);
  }

  /**
   A transfer with an id of its own is complete and the program running if and only if it never exited, the
   fragments of the header were in before the last missing chunk's, and never were two chunks in but neither
   header nor chunk 1. Then the last write is the whole file; if the name is its own too, that is exactly
   when, the program running, the disk holds the file under its name.
   */
  lemma {:induction false} FinishesExactly(air: Air, rx: seq<Chunk>, codec: Codec<Packet>, id: U32, tr: Transfer)
    requires ValidAir(air, codec.decode) && Delivery.AllHonest(air, rx) && CarriesSolid(air, codec)
    requires Transfers.Valid(tr) && Carries(air, codec, id, tr)
    ensures var st := FileAssembly.Run(Reported(rx, codec));
            var done := !Exits(air, codec, rx) && Finishes(air, codec, rx, id, tr);
            && (st.Some? && FileRuns.IsFinished(id, tr, st.value) <==> done)
            && (done ==>
                  var ws := FileAssembly.WritesOf(st.value.writes, id);
                  ws != [] && ws[|ws| - 1] == FileAssembly.Write(id, tr.name, tr.data))
            && (CarriesName(air, codec, id, tr.name) && st.Some? ==>
                  var disk := FileAssembly.DiskOf(st.value.writes);
                  tr.name in disk && disk[tr.name] == tr.data <==> done)
  {
    ExitsExactly(air, rx, codec);
    if FileAssembly.Run(Reported(rx, codec)).Some? {
      EndToEnd.FinishedExactly(air, rx, codec, id, tr);
      CompletesIs(air, rx, codec, id, |Chunks(id, tr)|);
      LostIs(air, rx, codec, id);
    }
  }
}

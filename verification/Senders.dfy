/**
 Several files on one air, from one program or from many: what their senders put there, and what becomes of
 files that are sent one after another. Transfer ids come from a counter that every program starts at 0.
 */
module Senders {
  import opened Basics
  import opened Numbered
  import opened Proto
  import opened IdGenerator
  import opened Reassembly
  import opened Delivery
  import opened Broadcast
  import opened Transfers
  import opened FileSending
  import opened EndToEnd
  import FileAssembly
  import FileRuns

  /** One file being sent: its transfer id, the payload counter it starts from, and the station's settings. */
  datatype Sending = Sending(id: U32, tr: Transfer, seed: U32, config: Config)

  function PacketsBy(s: Sending): seq<Packet> {
    PacketsOf(s.id, s.tr)
  }

  ghost predicate Good(s: Sending, codec: Codec<Packet>) {
    Transfers.Valid(s.tr) && GoodSession(PacketsBy(s), codec, s.config)
  }

  function TraceOf(s: Sending, codec: Codec<Packet>): seq<Chunk>
    requires s.config.maxPacketSize >= 1
  {
    Session(PacketsBy(s), s.seed, codec, s.config)
  }

  function OwnAir(s: Sending, codec: Codec<Packet>): Air {
    SessionAir(PacketsBy(s), s.seed, codec, s.config)
  }

  /** No payload id is used by both. */
  ghost predicate Apart(s: Sending, t: Sending) {
    forall i: nat, j: nat :: i < |PacketsBy(s)| && j < |PacketsBy(t)| ==> IdAt(s.seed, i) != IdAt(t.seed, j)
  }

  /** What the theorems assume of several sendings. */
  ghost predicate AllGood(ss: seq<Sending>, codec: Codec<Packet>) {
    && (forall k :: 0 <= k < |ss| ==> Good(ss[k], codec))
    && (forall k, l :: 0 <= k < l < |ss| ==> Apart(ss[k], ss[l]))
  }

  // ---- What the senders put on the air ----

  function AirOf(ss: seq<Sending>, codec: Codec<Packet>): Air {
    if ss == [] then map[] else AirOf(ss[..|ss| - 1], codec) + OwnAir(ss[|ss| - 1], codec)
  }

  lemma {:induction false} OwnIds(s: Sending, codec: Codec<Packet>, pid: nat) returns (k: nat)
    requires Good(s, codec) && pid in OwnAir(s, codec)
    ensures k < |PacketsBy(s)| && IdAt(s.seed, k) == pid
    ensures OwnAir(s, codec)[pid] == Sent(codec.encode(PacketsBy(s)[k]), s.config.maxPacketSize)
  {
    AirIds(PacketsBy(s), s.seed, codec, s.config, pid);
    k :| 0 <= k < |PacketsBy(s)| && IdAt(s.seed, k) == pid;
    AirEntry(PacketsBy(s), s.seed, codec, s.config, k);
  }

  /** Every payload on the air is some sender's. */
  lemma {:induction false} PayloadOf(ss: seq<Sending>, codec: Codec<Packet>, pid: nat) returns (k: nat)
    requires AllGood(ss, codec) && pid in AirOf(ss, codec)
    ensures k < |ss| && pid in OwnAir(ss[k], codec) && AirOf(ss, codec)[pid] == OwnAir(ss[k], codec)[pid]
  {
    var n := |ss| - 1;
    if pid in OwnAir(ss[n], codec) {
      k := n;
    } else {
      k := PayloadOf(ss[..n], codec, pid);
    }
  }

  lemma {:induction false} NotShared(s: Sending, t: Sending, codec: Codec<Packet>, pid: nat)
    requires Good(s, codec) && Good(t, codec) && Apart(s, t) && pid in OwnAir(s, codec)
    ensures pid !in OwnAir(t, codec)
  {
    var i := OwnIds(s, codec, pid);
    if pid in OwnAir(t, codec) {
      var j := OwnIds(t, codec, pid);
    }
  }

  lemma {:induction false} GoodFront(ss: seq<Sending>, codec: Codec<Packet>)
    requires AllGood(ss, codec) && ss != []
    ensures AllGood(ss[..|ss| - 1], codec) && Good(ss[|ss| - 1], codec)
    ensures forall k :: 0 <= k < |ss| - 1 ==> Good(ss[k], codec) && Apart(ss[k], ss[|ss| - 1])
  {
  }

  /** And every sender's payload is on the air as it was sent. */
  lemma {:induction false} OwnIsOnAir(ss: seq<Sending>, codec: Codec<Packet>, k: nat, pid: nat)
    requires AllGood(ss, codec) && k < |ss| && pid in OwnAir(ss[k], codec)
    ensures pid in AirOf(ss, codec) && AirOf(ss, codec)[pid] == OwnAir(ss[k], codec)[pid]
  {
    var n := |ss| - 1;
    GoodFront(ss, codec);
    if k < n {
      OwnIsOnAir(ss[..n], codec, k, pid);
      NotShared(ss[k], ss[n], codec, pid);
    }
  }

  /** `c` is one of the fragments somebody sends. */
  ghost predicate SentBy(ss: seq<Sending>, codec: Codec<Packet>, c: Chunk) {
    exists k :: 0 <= k < |ss| && SentByOne(ss[k], codec, c)
  }

  ghost predicate SentByOne(s: Sending, codec: Codec<Packet>, c: Chunk) {
    s.config.maxPacketSize >= 1 && c in TraceOf(s, codec)
  }

  ghost predicate AllSentBy(ss: seq<Sending>, codec: Codec<Packet>, rx: seq<Chunk>) {
    forall i :: 0 <= i < |rx| ==> SentBy(ss, codec, rx[i])
  }

  lemma {:induction false} TraceIsHonest(s: Sending, codec: Codec<Packet>, c: Chunk)
    requires Good(s, codec) && SentByOne(s, codec, c)
    ensures Honest(OwnAir(s, codec), c)
  {
    var trace := TraceOf(s, codec);
    AllInOrder(trace);
    InOrderFromSession(PacketsBy(s), s.seed, codec, s.config, trace);
    SessionHonest(PacketsBy(s), s.seed, codec, s.config, trace);
  }

  lemma {:induction false} HonestOnAir(ss: seq<Sending>, codec: Codec<Packet>, k: nat, c: Chunk)
    requires AllGood(ss, codec) && k < |ss| && Honest(OwnAir(ss[k], codec), c)
    ensures Honest(AirOf(ss, codec), c)
  {
    OwnIsOnAir(ss, codec, k, IdOf(c));
  }

  /** The packet a payload on the air carries is one of its sender's. */
  lemma {:induction false} CarriedBy(ss: seq<Sending>, codec: Codec<Packet>, pid: nat) returns (k: nat)
    requires AllGood(ss, codec) && pid in AirOf(ss, codec)
    ensures ValidSent(AirOf(ss, codec)[pid], codec.decode)
    ensures k < |ss| && HonestPacket(ss[k].id, ss[k].tr, codec.decode(AirOf(ss, codec)[pid].data).value)
  {
    k := PayloadOf(ss, codec, pid);
    assert Good(ss[k], codec);
    var i := OwnIds(ss[k], codec, pid);
    PacketIs(ss[k].id, ss[k].tr, i);
  }

  /**
   What the senders put on the air meets the hypotheses of the theorems about arbitrary arrivals: whatever
   selection of their fragments arrives, in whatever order, is honest, and their chunks are solid.
   */
  lemma {:induction false} SendersAreHonest(ss: seq<Sending>, codec: Codec<Packet>, rx: seq<Chunk>)
    requires AllGood(ss, codec) && AllSentBy(ss, codec, rx)
    ensures ValidAir(AirOf(ss, codec), codec.decode) && Delivery.AllHonest(AirOf(ss, codec), rx)
    ensures CarriesSolid(AirOf(ss, codec), codec)
  {
    var air := AirOf(ss, codec);
    forall pid | pid in air
      ensures ValidSent(air[pid], codec.decode) && FileRuns.Solid(codec.decode(air[pid].data).value)
    {
      var k := CarriedBy(ss, codec, pid);
      assert Good(ss[k], codec);
      FileRuns.HonestIsSolid(ss[k].id, ss[k].tr, codec.decode(air[pid].data).value);
    }
    forall i | 0 <= i < |rx| ensures Honest(air, rx[i]) {
      assert SentBy(ss, codec, rx[i]);
      var k :| 0 <= k < |ss| && SentByOne(ss[k], codec, rx[i]);
      assert Good(ss[k], codec);
      TraceIsHonest(ss[k], codec, rx[i]);
      HonestOnAir(ss, codec, k, rx[i]);
    }
  }

  ghost predicate OwnId(ss: seq<Sending>, k: nat)
    requires k < |ss|
  {
    forall l :: 0 <= l < |ss| && ss[l].id == ss[k].id ==> l == k
  }

  ghost predicate OwnName(ss: seq<Sending>, k: nat)
    requires k < |ss|
  {
    forall l :: 0 <= l < |ss| && ss[l].tr.name == ss[k].tr.name ==> l == k
  }

  /** A transfer whose id no other sending has is carried alone. */
  lemma {:induction false} OwnIdIsCarried(ss: seq<Sending>, codec: Codec<Packet>, k: nat)
    requires AllGood(ss, codec) && k < |ss| && OwnId(ss, k)
    ensures Carries(AirOf(ss, codec), codec, ss[k].id, ss[k].tr)
  {
    var air := AirOf(ss, codec);
    forall pid | pid in air && codec.decode(air[pid].data).Some?
      ensures var p := codec.decode(air[pid].data).value;
              FileAssembly.About(p, ss[k].id) ==> HonestPacket(ss[k].id, ss[k].tr, p)
    {
      var l := CarriedBy(ss, codec, pid);
      AcceptedHonest(ss[l].id, ss[l].tr, codec.decode(air[pid].data).value);
    }
  }

  /** And one whose name no other has announces it alone. */
  lemma {:induction false} OwnNameIsCarried(ss: seq<Sending>, codec: Codec<Packet>, k: nat)
    requires AllGood(ss, codec) && k < |ss| && OwnName(ss, k)
    ensures CarriesName(AirOf(ss, codec), codec, ss[k].id, ss[k].tr.name)
  {
    var air := AirOf(ss, codec);
    forall pid, x | pid in air && codec.decode(air[pid].data).Some?
                    && FileRuns.Announces(codec.decode(air[pid].data).value, x, ss[k].tr.name)
      ensures x == ss[k].id
    {
      var l := CarriedBy(ss, codec, pid);
      AcceptedHonest(ss[l].id, ss[l].tr, codec.decode(air[pid].data).value);
    }
  }

  // ---- Files sent one after another ----

  /** Traffic with different payload ids does not interfere: what comes second is reported as if it came alone. */
  lemma {:induction false} ReportedConcat(a: seq<Chunk>, b: seq<Chunk>, codec: Codec<Packet>)
    requires forall i, j :: 0 <= i < |a| && 0 <= j < |b| ==> IdOf(a[i]) != IdOf(b[j])
    ensures Reported(a + b, codec) == Reported(a, codec) + Reported(b, codec)
    decreases |b|
  {
    if b == [] {
      AppendNothing(a);
      AppendNothing(Reported(a, codec));
      assert Reported(b, codec) == [];
    } else {
      var front, c := b[..|b| - 1], b[|b| - 1];
      AppendLast(a, b);
      FrontAndLast(b);
      ReportedConcat(a, front, codec);
      ReportedSnoc(a + front, c, codec);
      ReportedSnoc(front, c, codec);
      SameCell(a, front, IdOf(c), codec);
      StepSame(Run(a + front, codec.decode).0, Run(front, codec.decode).0, c, codec.decode);
    }
  }

  lemma {:induction false} StepSame(cells: Cells, others: Cells, c: Chunk, parse: Parser)
    requires Reassembly.Lookup(cells, IdOf(c)) == Reassembly.Lookup(others, IdOf(c))
    ensures Step(cells, c, parse).1 == Step(others, c, parse).1
  {
  }

  lemma {:induction false} SameCell(a: seq<Chunk>, b: seq<Chunk>, id: nat, codec: Codec<Packet>)
    requires forall i :: 0 <= i < |a| ==> IdOf(a[i]) != id
    ensures Reassembly.Lookup(Run(a + b, codec.decode).0, id) == Reassembly.Lookup(Run(b, codec.decode).0, id)
  {
    PayloadsAreIndependent(a + b, id, codec.decode);
    PayloadsAreIndependent(b, id, codec.decode);
    OnlyOf(a, b, id);
  }

  lemma {:induction false} OnlyOf(a: seq<Chunk>, b: seq<Chunk>, id: nat)
    requires forall i :: 0 <= i < |a| ==> IdOf(a[i]) != id
    ensures Reassembly.Only(a + b, id) == Reassembly.Only(b, id)
    decreases |a| + |b|
  {
    if b != [] {
      AppendLast(a, b);
      var front := b[..|b| - 1];
      OnlyOf(a, front, id);
      assert (a + b)[..|a + b| - 1] == a + front;
    } else if a != [] {
      AppendNothing(a);
      OnlyOf(a[..|a| - 1], [], id);
      AppendNothing(a[..|a| - 1]);
    } else {
      assert a + b == b;
    }
  }

  function AllPackets(ss: seq<Sending>): seq<Packet> {
    if ss == [] then [] else AllPackets(ss[..|ss| - 1]) + PacketsBy(ss[|ss| - 1])
  }

  predicate Used(ss: seq<Sending>, id: nat) {
    exists k :: 0 <= k < |ss| && ss[k].id == id
  }

  /** The disk when files are sent one after another: a file is lost if its transfer id was used before. */
  function DiskAfter(ss: seq<Sending>): map<string, Bytes> {
    if ss == [] then map[]
    else
      var front, s := ss[..|ss| - 1], ss[|ss| - 1];
      if Used(front, s.id) then DiskAfter(front) else DiskAfter(front)[s.tr.name := s.tr.data]
  }

  lemma {:induction false} UsedGrows(ss: seq<Sending>, id: nat)
    requires ss != []
    ensures Used(ss, id) <==> Used(ss[..|ss| - 1], id) || ss[|ss| - 1].id == id
  {
    var front := ss[..|ss| - 1];
    if Used(front, id) {
      var k :| 0 <= k < |front| && front[k].id == id;
      assert ss[k].id == id;
    }
    if k :| 0 <= k < |ss| && ss[k].id == id {
      if k < |front| {
        assert front[k].id == id;
      }
    }
  }

  // ---- One more session at the file layer ----

  lemma {:induction false} OnlyConcat(a: seq<Packet>, b: seq<Packet>, id: nat)
    ensures FileAssembly.Only(a + b, id) == FileAssembly.Only(a, id) + FileAssembly.Only(b, id)
  {
    if b == [] {
      AppendNothing(a);
      AppendNothing(FileAssembly.Only(a, id));
    } else {
      var front := b[..|b| - 1];
      AppendLast(a, b);
      assert (a + b)[..|a + b| - 1] == a + front;
      OnlyConcat(a, front, id);
    }
  }

  lemma {:induction false} OnlyAll(ps: seq<Packet>, id: nat)
    requires forall i :: 0 <= i < |ps| ==> FileAssembly.About(ps[i], id)
    ensures FileAssembly.Only(ps, id) == ps
  {
    if ps != [] {
      OnlyAll(ps[..|ps| - 1], id);
      FrontAndLast(ps);
    }
  }

  lemma {:induction false} WritesOfConcat(a: seq<FileAssembly.Write>, b: seq<FileAssembly.Write>, id: nat)
    ensures FileAssembly.WritesOf(a + b, id) == FileAssembly.WritesOf(a, id) + FileAssembly.WritesOf(b, id)
  {
    if b == [] {
      AppendNothing(a);
      AppendNothing(FileAssembly.WritesOf(a, id));
    } else {
      var front := b[..|b| - 1];
      AppendLast(a, b);
      assert (a + b)[..|a + b| - 1] == a + front;
      WritesOfConcat(a, front, id);
    }
  }

  lemma {:induction false} WritesOfAll(ws: seq<FileAssembly.Write>, id: nat)
    requires forall w :: w in ws ==> w.id == id
    ensures FileAssembly.WritesOf(ws, id) == ws
  {
    if ws != [] {
      WritesOfAll(ws[..|ws| - 1], id);
      FrontAndLast(ws);
    }
  }

  lemma {:induction false} DiskSuffix(ws: seq<FileAssembly.Write>, more: seq<FileAssembly.Write>, name: string)
    requires more != [] && forall w :: w in more ==> w.name == name
    ensures FileAssembly.DiskOf(ws + more) == FileAssembly.DiskOf(ws)[name := more[|more| - 1].contents]
  {
    var front, last := more[..|more| - 1], more[|more| - 1];
    assert last in more;
    AppendLast(ws, more);
    FileAssembly.DiskGrows(ws + front, last);
    if front == [] {
      AppendNothing(ws);
    } else {
      DiskSuffix(ws, front, name);
    }
  }

  /** `now` is `was` with writes `ws` of transfer `id`, and no other tracker touched. */
  ghost predicate Adds(was: FileAssembly.FileState, now: FileAssembly.FileState, id: nat, ws: seq<FileAssembly.Write>,
                       ids: set<nat>) {
    && now.writes == was.writes + ws && (forall w :: w in ws ==> w.id == id)
    && now.cells.Keys == was.cells.Keys + ids
    && (forall x :: x in was.cells && x != id ==> x in now.cells && now.cells[x] == was.cells[x])
  }

  lemma {:induction false} AddsNothing(st: FileAssembly.FileState, id: nat)
    ensures Adds(st, st, id, [], {})
  {
    AppendNothing(st.writes);
  }

  lemma {:induction false} AddsMore(was: FileAssembly.FileState, mid: FileAssembly.FileState,
                                    now: FileAssembly.FileState, id: nat, ws: seq<FileAssembly.Write>,
                                    added: seq<FileAssembly.Write>, ids: set<nat>)
    requires Adds(was, mid, id, ws, ids) && Adds(mid, now, id, added, {id}) && ids <= {id}
    ensures Adds(was, now, id, ws + added, {id})
  {
    assert was.writes + ws + added == was.writes + (ws + added);
  }

  lemma {:induction false} StepAdds(st: FileAssembly.FileState, p: Packet) returns (ws: seq<FileAssembly.Write>)
    requires FileAssembly.WellFormed(st) && FileAssembly.Accepted(p) && FileAssembly.Step(st, p).Some?
    ensures Adds(st, FileAssembly.Step(st, p).value, FileAssembly.TransferId(p), ws, {FileAssembly.TransferId(p)})
  {
    var id := FileAssembly.TransferId(p);
    var (t, write) := FileAssembly.CellStep(FileAssembly.Lookup(st.cells, id), p);
    ws := if write.None? then [] else [FileAssembly.Write(id, t.header.filename.GetOr(""), write.value)];
    AppendNothing(st.writes);
  }

  lemma {:induction false} RunSnoc(ps: seq<Packet>, p: Packet)
    ensures FileAssembly.Run(ps + [p]) ==
            (match FileAssembly.Run(ps) case None => None case Some(st) => FileAssembly.Step(st, p))
  {
    assert (ps + [p])[..|ps|] == ps;
  }

  /** Packets about one transfer add writes of that transfer, and touch no other tracker. */
  lemma {:induction false} RunAbout(ps: seq<Packet>, more: seq<Packet>, id: nat) returns (ws: seq<FileAssembly.Write>)
    requires FileAssembly.Run(ps + more).Some? && forall i :: 0 <= i < |more| ==> FileAssembly.About(more[i], id)
    ensures FileAssembly.Run(ps).Some?
    ensures Adds(FileAssembly.Run(ps).value, FileAssembly.Run(ps + more).value, id, ws, if more == [] then {} else {id})
    decreases |more|
  {
    if more == [] {
      AppendNothing(ps);
      ws := [];
      AddsNothing(FileAssembly.Run(ps).value, id);
    } else {
      var front, p := more[..|more| - 1], more[|more| - 1];
      AppendLast(ps, more);
      RunSnoc(ps + front, p);
      ws := RunAbout(ps, front, id);
      var mid := FileAssembly.Run(ps + front).value;
      var added := StepAdds(mid, p);
      AddsMore(FileAssembly.Run(ps).value, mid, FileAssembly.Run(ps + more).value, id, ws, added,
               if front == [] then {} else {id});
      ws := ws + added;
    }
  }

  lemma {:induction false} SessionShape(id: U32, tr: Transfer)
    requires Transfers.Valid(tr)
    ensures var ps := PacketsOf(id, tr);
            && Transfers.AllHonest(id, tr, ps) && ps[0].HeaderPacket?
            && (forall i :: 0 <= i < |ps| ==> FileAssembly.About(ps[i], id))
  {
    PacketsAreHonest(id, tr);
    var ps := PacketsOf(id, tr);
    forall i | 0 <= i < |ps| ensures FileAssembly.About(ps[i], id) {
      assert HonestPacket(id, tr, ps[i]);
      AcceptedHonest(id, tr, ps[i]);
    }
  }

  lemma {:induction false} HeaderFirstJoins(ps: seq<Packet>, id: nat, more: seq<Packet>)
    requires FileAssembly.HeaderFirst(ps) && more != [] && more[0].HeaderPacket?
    requires forall i :: 0 <= i < |more| ==> FileAssembly.About(more[i], id)
    ensures FileAssembly.HeaderFirst(ps + more)
  {
    var all := ps + more;
    forall t | 0 <= t < |all| && FileAssembly.Accepted(all[t]) && all[t].ChunkPacket?
      ensures exists s :: && 0 <= s < t && FileAssembly.Accepted(all[s]) && all[s].HeaderPacket?
                          && FileAssembly.TransferId(all[s]) == FileAssembly.TransferId(all[t])
    {
      if t < |ps| {
        assert ps[t] == all[t];
        var s :| && 0 <= s < t && FileAssembly.Accepted(ps[s]) && ps[s].HeaderPacket?
                 && FileAssembly.TransferId(ps[s]) == FileAssembly.TransferId(ps[t]);
        assert all[s] == ps[s];
      } else {
        assert all[t] == more[t - |ps|] && all[|ps|] == more[0];
      }
    }
  }

  /** A transfer that is new to a running program, and is sent from the header on, is written whole. */
  lemma {:induction false} NewSession(ps: seq<Packet>, id: U32, tr: Transfer)
    requires Transfers.Valid(tr) && tr.data != [] && FileAssembly.Run(ps + PacketsOf(id, tr)).Some?
    requires FileAssembly.Run(ps).Some? && id !in FileAssembly.Run(ps).value.cells
    ensures var st := FileAssembly.Run(ps + PacketsOf(id, tr)).value;
            && FileRuns.IsFinished(id, tr, st)
            && FileAssembly.DiskOf(st.writes) ==
               FileAssembly.DiskOf(FileAssembly.Run(ps).value.writes)[tr.name := tr.data]
  {
    var more := PacketsOf(id, tr);
    SessionShape(id, tr);
    var ws := RunAbout(ps, more, id);
    NewToRun(ps, more, id, tr);
    NewWrites(ps, more, id, tr, ws);
    DiskSuffix(FileAssembly.Run(ps).value.writes, ws, tr.name);
  }

  /** Its packets are the first about its id, so it fares as it would alone. */
  lemma {:induction false} NewToRun(ps: seq<Packet>, more: seq<Packet>, id: U32, tr: Transfer)
    requires Transfers.Valid(tr) && tr.data != [] && more == PacketsOf(id, tr) && FileAssembly.Run(ps + more).Some?
    requires FileAssembly.Run(ps).Some? && id !in FileAssembly.Run(ps).value.cells
    ensures FileAssembly.Only(ps, id) == [] && FileAssembly.Only(ps + more, id) == more
    ensures FileRuns.IsFinished(id, tr, FileAssembly.Run(ps + more).value)
    ensures FileAssembly.WritesOf(FileAssembly.Run(ps + more).value.writes, id) == WritesAfter(id, tr, more)
    ensures Completes(|Chunks(id, tr)|, more)
  {
    SessionShape(id, tr);
    NothingAbout(ps, id);
    OnlyConcat(ps, more, id);
    OnlyAll(more, id);
    var all := ps + more;
    assert forall i :: 0 <= i < |ps| ==> all[i] == ps[i];
    forall i | 0 <= i < |all| && FileAssembly.About(all[i], id) ensures HonestPacket(id, tr, all[i]) {
      assert i >= |ps| ==> all[i] == more[i - |ps|];
    }
    FileRuns.EachTransfer(id, tr, all);
    WholeSession(id, tr);
    RunFinished(all, id, tr);
  }

  /** All packets of a transfer, header first, complete it. */
  lemma {:induction false} WholeSession(id: U32, tr: Transfer)
    requires Transfers.Valid(tr) && tr.data != []
    ensures Completes(|Chunks(id, tr)|, PacketsOf(id, tr))
  {
    var ps := PacketsOf(id, tr);
    PacketsAreHonest(id, tr);
    FileRuns.HeaderFirstNew(ps);
    ChunksShape(id, tr);
    assert 1 in Have(ps);
    FileRuns.CompletesWhenFull(id, tr, ps);
  }

  lemma {:induction false} NothingAbout(ps: seq<Packet>, id: nat)
    requires FileAssembly.Run(ps).Some? && id !in FileAssembly.Run(ps).value.cells
    ensures FileAssembly.Only(ps, id) == [] && forall i :: 0 <= i < |ps| ==> !FileAssembly.About(ps[i], id)
  {
    forall i | 0 <= i < |ps| ensures !FileAssembly.About(ps[i], id) {
      if FileAssembly.About(ps[i], id) {
        FileAssembly.KnownAfter(ps, i);
      }
    }
    OnlyNone(ps, id);
  }

  lemma {:induction false} OnlyNone(ps: seq<Packet>, id: nat)
    requires forall i :: 0 <= i < |ps| ==> !FileAssembly.About(ps[i], id)
    ensures FileAssembly.Only(ps, id) == []
  {
    if ps != [] {
      OnlyNone(ps[..|ps| - 1], id);
    }
  }

  lemma {:induction false} NoWritesYet(ps: seq<Packet>, id: nat)
    requires FileAssembly.Run(ps).Some? && FileAssembly.Only(ps, id) == []
    ensures FileAssembly.WritesOf(FileAssembly.Run(ps).value.writes, id) == []
  {
    FileAssembly.TransfersAreIndependent(ps, id);
  }

  lemma {:induction false} SuffixIs(was: seq<FileAssembly.Write>, ws: seq<FileAssembly.Write>, id: nat)
    requires FileAssembly.WritesOf(was, id) == [] && forall w :: w in ws ==> w.id == id
    ensures FileAssembly.WritesOf(was + ws, id) == ws
  {
    WritesOfConcat(was, ws, id);
    WritesOfAll(ws, id);
    assert [] + ws == ws;
  }

  lemma {:induction false} NewWrites(ps: seq<Packet>, more: seq<Packet>, id: U32, tr: Transfer,
                                     ws: seq<FileAssembly.Write>)
    requires Transfers.Valid(tr) && tr.data != [] && Transfers.AllHonest(id, tr, more)
    requires FileAssembly.Run(ps).Some? && FileAssembly.Run(ps + more).Some? && FileAssembly.Only(ps, id) == []
    requires FileAssembly.Run(ps + more).value.writes == FileAssembly.Run(ps).value.writes + ws
    requires forall w :: w in ws ==> w.id == id
    requires FileAssembly.WritesOf(FileAssembly.Run(ps + more).value.writes, id) == WritesAfter(id, tr, more)
    requires Completes(|Chunks(id, tr)|, more)
    ensures ws != [] && ws[|ws| - 1].contents == tr.data && forall w :: w in ws ==> w.name == tr.name
  {
    NoWritesYet(ps, id);
    SuffixIs(FileAssembly.Run(ps).value.writes, ws, id);
    FileRuns.WritesAreTheTransfers(id, tr, more);
    FileRuns.FinishedIsWritten(id, tr, more);
  }

  /**
   A transfer whose id has been completed before: whatever comes about it, from whichever sender, is ignored.
   Nothing is written, and no tracker changes.
   */
  lemma {:induction false} UsedSession(ps: seq<Packet>, more: seq<Packet>, id: nat)
    requires FileAssembly.Run(ps + more).Some? && forall i :: 0 <= i < |more| ==> FileAssembly.About(more[i], id)
    requires FileAssembly.Run(ps).Some? && id in FileAssembly.Run(ps).value.cells
    requires FileAssembly.Run(ps).value.cells[id].isComplete
    ensures FileAssembly.Run(ps + more).value.writes == FileAssembly.Run(ps).value.writes
    ensures FileAssembly.Run(ps + more).value.cells == FileAssembly.Run(ps).value.cells
  {
    var was, now := FileAssembly.Run(ps).value, FileAssembly.Run(ps + more).value;
    var ws := RunAbout(ps, more, id);
    assert (ps + more)[..|ps|] == ps;
    FileAssembly.CompletedStays(ps + more, |ps|, id);
    NoneAdded(was.writes, ws, id);
    SameCells(was, now, id, ws, if more == [] then {} else {id});
  }

  lemma {:induction false} NoneAdded(was: seq<FileAssembly.Write>, ws: seq<FileAssembly.Write>, id: nat)
    requires forall w :: w in ws ==> w.id == id
    requires FileAssembly.WritesOf(was + ws, id) == FileAssembly.WritesOf(was, id)
    ensures ws == []
  {
    WritesOfConcat(was, ws, id);
    WritesOfAll(ws, id);
  }

  lemma {:induction false} SameCells(was: FileAssembly.FileState, now: FileAssembly.FileState, id: nat,
                                     ws: seq<FileAssembly.Write>, ids: set<nat>)
    requires Adds(was, now, id, ws, ids) && ids <= {id} && ws == []
    requires id in was.cells && FileAssembly.Lookup(now.cells, id) == Some(was.cells[id])
    ensures now.writes == was.writes && now.cells == was.cells
  {
    assert now.cells.Keys == was.cells.Keys;
  }

  /** Every tracker is complete, with a header; there is one for each id used. */
  ghost predicate Settled(st: FileAssembly.FileState, ss: seq<Sending>) {
    && (forall id :: id in st.cells <==> Used(ss, id))
    && (forall id :: id in st.cells ==> st.cells[id].isComplete)
  }

  /**
   Files sent one after another, each from the header on: all that matters is which ids were used before.
   A file is written whole if its transfer id is new, and lost entirely if it is not.
   */
  lemma {:induction false} InTurn(ss: seq<Sending>)
    requires forall k :: 0 <= k < |ss| ==> Transfers.Valid(ss[k].tr) && ss[k].tr.data != []
    ensures FileAssembly.HeaderFirst(AllPackets(ss))
    ensures FileAssembly.Run(AllPackets(ss)).Some? && Settled(FileAssembly.Run(AllPackets(ss)).value, ss)
    ensures FileAssembly.DiskOf(FileAssembly.Run(AllPackets(ss)).value.writes) == DiskAfter(ss)
  {
    if ss != [] {
      var front, s := ss[..|ss| - 1], ss[|ss| - 1];
      InTurn(front);
      OneMore(ss);
    }
  }

  lemma {:induction false} OneMore(ss: seq<Sending>)
    requires ss != []
    requires Transfers.Valid(ss[|ss| - 1].tr) && ss[|ss| - 1].tr.data != []
    requires var ps := AllPackets(ss[..|ss| - 1]);
             && FileAssembly.HeaderFirst(ps)
             && FileAssembly.Run(ps).Some? && Settled(FileAssembly.Run(ps).value, ss[..|ss| - 1])
             && FileAssembly.DiskOf(FileAssembly.Run(ps).value.writes) == DiskAfter(ss[..|ss| - 1])
    ensures FileAssembly.HeaderFirst(AllPackets(ss))
    ensures FileAssembly.Run(AllPackets(ss)).Some? && Settled(FileAssembly.Run(AllPackets(ss)).value, ss)
    ensures FileAssembly.DiskOf(FileAssembly.Run(AllPackets(ss)).value.writes) == DiskAfter(ss)
  {
    var front, s := ss[..|ss| - 1], ss[|ss| - 1];
    var ps, more := AllPackets(front), PacketsBy(s);
    SessionShape(s.id, s.tr);
    HeaderFirstJoins(ps, s.id, more);
    FileAssembly.HeaderFirstNeverExits(ps + more);
    forall id ensures Used(ss, id) <==> Used(front, id) || s.id == id {
      UsedGrows(ss, id);
    }
    if Used(front, s.id) {
      UsedSession(ps, more, s.id);
    } else {
      var ws := RunAbout(ps, more, s.id);
      NewSession(ps, s.id, s.tr);
    }
  }

  // ---- From the fragments ----

  function Flatten(rxs: seq<seq<Chunk>>): seq<Chunk> {
    if rxs == [] then [] else Flatten(rxs[..|rxs| - 1]) + rxs[|rxs| - 1]
  }

  /** What arrives of one sending: its fragments in order, each at least once. */
  ghost predicate ArrivesWhole(s: Sending, codec: Codec<Packet>, rx: seq<Chunk>) {
    && s.config.maxPacketSize >= 1
    && InOrder(rx, TraceOf(s, codec))
    && Covered(PacketsBy(s), s.seed, codec, s.config, rx)
  }

  /** Over a clear air everything that is sent arrives whole, with one round or more. */
  lemma {:induction false} ClearAirArrives(s: Sending, codec: Codec<Packet>)
    requires Good(s, codec) && s.config.retransmitCount >= 1
    ensures ArrivesWhole(s, codec, TraceOf(s, codec))
  {
    AllInOrder(TraceOf(s, codec));
    SessionCovers(PacketsBy(s), s.seed, codec, s.config);
  }

  ghost predicate ArriveInTurn(ss: seq<Sending>, codec: Codec<Packet>, rxs: seq<seq<Chunk>>) {
    |rxs| == |ss| && forall k :: 0 <= k < |ss| ==> ArrivesWhole(ss[k], codec, rxs[k])
  }

  /** `c` is a fragment of this sending, by its bytes and by its payload id. */
  ghost predicate Of(s: Sending, codec: Codec<Packet>, c: Chunk) {
    SentByOne(s, codec, c) && exists k: nat :: k < |PacketsBy(s)| && IdAt(s.seed, k) == IdOf(c)
  }

  ghost predicate AllOf(s: Sending, codec: Codec<Packet>, rx: seq<Chunk>) {
    forall i :: 0 <= i < |rx| ==> Of(s, codec, rx[i])
  }

  ghost predicate OfOne(ss: seq<Sending>, codec: Codec<Packet>, c: Chunk) {
    exists l :: 0 <= l < |ss| && Of(ss[l], codec, c)
  }

  ghost predicate AllOfOne(ss: seq<Sending>, codec: Codec<Packet>, rx: seq<Chunk>) {
    forall i :: 0 <= i < |rx| ==> OfOne(ss, codec, rx[i])
  }

  lemma {:induction false} ArrivedIsOf(s: Sending, codec: Codec<Packet>, rx: seq<Chunk>)
    requires Good(s, codec) && ArrivesWhole(s, codec, rx)
    ensures AllOf(s, codec, rx)
  {
    InOrderFromSession(PacketsBy(s), s.seed, codec, s.config, rx);
    var at :| Picks(rx, TraceOf(s, codec), at);
    forall i | 0 <= i < |rx| ensures Of(s, codec, rx[i]) {
      assert rx[i] == TraceOf(s, codec)[at[i]];
      assert FromPacket(PacketsBy(s), s.seed, codec, s.config, rx[i]);
      var k :| 0 <= k < |PacketsBy(s)| && OfPacket(PacketsBy(s), s.seed, codec, s.config, k, rx[i]);
    }
  }

  lemma {:induction false} OfMore(ss: seq<Sending>, codec: Codec<Packet>, front: seq<Chunk>, last: seq<Chunk>)
    requires ss != [] && AllOfOne(ss[..|ss| - 1], codec, front) && AllOf(ss[|ss| - 1], codec, last)
    ensures AllOfOne(ss, codec, front + last)
  {
    var n := |ss| - 1;
    forall i | 0 <= i < |front + last| ensures OfOne(ss, codec, (front + last)[i]) {
      if i < |front| {
        assert OfOne(ss[..n], codec, front[i]);
        var l :| 0 <= l < n && Of(ss[..n][l], codec, front[i]);
        assert Of(ss[l], codec, front[i]);
      } else {
        assert Of(ss[n], codec, last[i - |front|]);
      }
    }
  }

  lemma {:induction false} FlattenIsOf(ss: seq<Sending>, codec: Codec<Packet>, rxs: seq<seq<Chunk>>)
    requires AllGood(ss, codec) && ArriveInTurn(ss, codec, rxs)
    ensures AllOfOne(ss, codec, Flatten(rxs))
  {
    if ss != [] {
      var n := |ss| - 1;
      GoodFront(ss, codec);
      FlattenIsOf(ss[..n], codec, rxs[..n]);
      assert ArrivesWhole(ss[n], codec, rxs[n]);
      ArrivedIsOf(ss[n], codec, rxs[n]);
      OfMore(ss, codec, Flatten(rxs[..n]), rxs[n]);
    }
  }

  lemma {:induction false} FlattenIsSent(ss: seq<Sending>, codec: Codec<Packet>, rxs: seq<seq<Chunk>>)
    requires AllGood(ss, codec) && ArriveInTurn(ss, codec, rxs)
    ensures AllSentBy(ss, codec, Flatten(rxs))
  {
    FlattenIsOf(ss, codec, rxs);
    var rx := Flatten(rxs);
    forall i | 0 <= i < |rx| ensures SentBy(ss, codec, rx[i]) {
      assert OfOne(ss, codec, rx[i]);
      var l :| 0 <= l < |ss| && Of(ss[l], codec, rx[i]);
    }
  }

  /** The fragments of one sending have payload ids that none of the earlier ones has. */
  lemma {:induction false} ApartFromLast(ss: seq<Sending>, codec: Codec<Packet>, c: Chunk, d: Chunk)
    requires AllGood(ss, codec) && ss != [] && OfOne(ss[..|ss| - 1], codec, c) && Of(ss[|ss| - 1], codec, d)
    ensures IdOf(c) != IdOf(d)
  {
    var n := |ss| - 1;
    GoodFront(ss, codec);
    var l :| 0 <= l < n && Of(ss[..n][l], codec, c);
    assert Apart(ss[l], ss[n]);
  }

  lemma {:induction false} AllApart(ss: seq<Sending>, codec: Codec<Packet>, front: seq<Chunk>, last: seq<Chunk>)
    requires AllGood(ss, codec) && ss != []
    requires AllOfOne(ss[..|ss| - 1], codec, front) && AllOf(ss[|ss| - 1], codec, last)
    ensures forall i, j :: 0 <= i < |front| && 0 <= j < |last| ==> IdOf(front[i]) != IdOf(last[j])
  {
    forall i, j | 0 <= i < |front| && 0 <= j < |last| ensures IdOf(front[i]) != IdOf(last[j]) {
      ApartFromLast(ss, codec, front[i], last[j]);
    }
  }

  /** Sessions that arrive one after another are reported one after another. */
  lemma {:induction false} ReportedInTurn(ss: seq<Sending>, codec: Codec<Packet>, rxs: seq<seq<Chunk>>)
    requires AllGood(ss, codec) && ArriveInTurn(ss, codec, rxs)
    ensures Reported(Flatten(rxs), codec) == AllPackets(ss)
  {
    if ss == [] {
      assert Flatten(rxs) == [] && Reported([], codec) == [];
    } else {
      GoodFront(ss, codec);
      ReportedInTurn(ss[..|ss| - 1], codec, rxs[..|ss| - 1]);
      FlattenIsOf(ss[..|ss| - 1], codec, rxs[..|ss| - 1]);
      LastInTurn(ss, codec, Flatten(rxs[..|ss| - 1]), rxs[|ss| - 1]);
    }
  }

  lemma {:induction false} LastInTurn(ss: seq<Sending>, codec: Codec<Packet>, front: seq<Chunk>, last: seq<Chunk>)
    requires AllGood(ss, codec) && ss != [] && AllOfOne(ss[..|ss| - 1], codec, front)
    requires ArrivesWhole(ss[|ss| - 1], codec, last) && Reported(front, codec) == AllPackets(ss[..|ss| - 1])
    ensures Reported(front + last, codec) == AllPackets(ss)
  {
    var s := ss[|ss| - 1];
    GoodFront(ss, codec);
    ArrivedIsOf(s, codec, last);
    DeliveredInOrder(PacketsBy(s), s.seed, codec, s.config, last);
    AllApart(ss, codec, front, last);
    ReportedConcat(front, last, codec);
  }

  /**
   Files sent one after another over an air that gets each session through: the disk holds exactly those
   whose transfer id was new.
   */
  lemma {:induction false} FilesInTurn(ss: seq<Sending>, codec: Codec<Packet>, rxs: seq<seq<Chunk>>)
    requires AllGood(ss, codec) && ArriveInTurn(ss, codec, rxs)
    requires forall k :: 0 <= k < |ss| ==> ss[k].tr.data != []
    ensures var run := FileAssembly.Run(Reported(Flatten(rxs), codec));
            run.Some? && FileAssembly.DiskOf(run.value.writes) == DiskAfter(ss)
  {
    ReportedInTurn(ss, codec, rxs);
    forall k | 0 <= k < |ss| ensures Transfers.Valid(ss[k].tr) {
      assert Good(ss[k], codec);
    }
    InTurn(ss);
  }

  // ---- Two files ----

  lemma {:induction false} FlattenTwo(first: seq<Chunk>, second: seq<Chunk>)
    ensures Flatten([first, second]) == first + second
  {
    assert [first, second][..1] == [first] && [first][..0] == [];
    assert [] + first == first;
    assert Flatten([first]) == first;
  }

  lemma {:induction false} TwoGood(a: Sending, b: Sending, codec: Codec<Packet>)
    requires Good(a, codec) && Good(b, codec) && Apart(a, b)
    ensures AllGood([a, b], codec)
  {
  }

  /** Two sendings, the second after the first, as sendings in turn. */
  lemma {:induction false} TwoInTurn(a: Sending, b: Sending, codec: Codec<Packet>, first: seq<Chunk>,
                                     second: seq<Chunk>)
    requires ArrivesWhole(a, codec, first) && ArrivesWhole(b, codec, second) && a.tr.data != [] && b.tr.data != []
    ensures ArriveInTurn([a, b], codec, [first, second]) && Flatten([first, second]) == first + second
    ensures forall k :: 0 <= k < |[a, b]| ==> [a, b][k].tr.data != []
  {
    FlattenTwo(first, second);
    var ss, rxs := [a, b], [first, second];
    forall k | 0 <= k < |ss| ensures ArrivesWhole(ss[k], codec, rxs[k]) && ss[k].tr.data != [] {
      assert k == 0 ==> ss[k] == a && rxs[k] == first;
      assert k == 1 ==> ss[k] == b && rxs[k] == second;
    }
  }

  lemma {:induction false} DiskAfterTwo(a: Sending, b: Sending)
    ensures DiskAfter([a, b]) ==
            if a.id == b.id then map[a.tr.name := a.tr.data] else map[a.tr.name := a.tr.data][b.tr.name := b.tr.data]
  {
    assert [a, b][..1] == [a] && [a][..0] == [];
    assert !Used([], a.id);
    assert DiskAfter([a]) == map[a.tr.name := a.tr.data];
    assert Used([a], b.id) <==> [a][0].id == b.id;
  }

  /** The second of two files is on the disk if and only if its id is new, or it is the first file over again. */
  lemma {:induction false} SecondFileExactly(a: Sending, b: Sending)
    ensures var disk := DiskAfter([a, b]);
            b.tr.name in disk && disk[b.tr.name] == b.tr.data <==>
            a.id != b.id || (a.tr.name == b.tr.name && a.tr.data == b.tr.data)
  {
    DiskAfterTwo(a, b);
  }

  /**
   Every program starts its transfer counter at 0, so the first file of every program has id 1: of two files
   with different names from two programs, the second is lost. One program gives its files different ids.
   */
  lemma {:induction false} SecondProgramIsLost(a: Sending, b: Sending)
    requires a.id == NextId(0).0 && b.id == NextId(0).0 && a.tr.name != b.tr.name
    ensures NextId(0).0 == 1 && b.tr.name !in DiskAfter([a, b])
  {
    DiskAfterTwo(a, b);
  }

  lemma {:induction false} OneProgramDelivers(counter: U32, a: Sending, b: Sending)
    requires a.id == NextId(counter).0 && b.id == NextId(NextId(counter).1).0
    ensures DiskAfter([a, b]) == map[a.tr.name := a.tr.data][b.tr.name := b.tr.data]
  {
    assert CounterAt(counter, 0) == counter && CounterAt(counter, 1) == NextId(counter).1;
    IdsDiffer(counter, 0, 1);
    DiskAfterTwo(a, b);
  }

  lemma {:induction false} WholeChunk(id: U32, tr: Transfer)
    requires Transfers.Valid(tr) && |Chunks(id, tr)| == 1
    ensures var c := Chunks(id, tr)[0]; FileAssembly.Contents([c]) == tr.data && tr.data != []
  {
    ChunksShape(id, tr);
    var all := Chunks(id, tr);
    assert all == [all[0]] && all[..0] == [] && [all[0]][..0] == [] && [all[0]][..1] == [all[0]];
    assert FileAssembly.Leading([all[0]]) == 1;
  }

  lemma {:induction false} OneHeader(id: U32, tr: Transfer)
    ensures FileAssembly.Run([HeaderPacket(Header(id, tr))]) ==
            Some(FileAssembly.FileState([id], map[id := FileAssembly.Tracker(Header(id, tr), [], false)], []))
  {
    var one := [HeaderPacket(Header(id, tr))];
    assert one[..0] == [];
    assert FileAssembly.START.order + [id] == [id];
  }

  lemma {:induction false} HeaderAgain(id: U32, t: FileAssembly.Tracker, tr: Transfer)
    requires FileAssembly.TrackerId(t) == Some(id) && !t.isComplete && t.chunks == []
    ensures FileAssembly.Step(FileAssembly.FileState([id], map[id := t], []), HeaderPacket(Header(id, tr))) ==
            Some(FileAssembly.FileState([id], map[id := FileAssembly.Tracker(Header(id, tr), [], false)], []))
  {
    var st := FileAssembly.FileState([id], map[id := t], []);
    FileAssembly.StepKnown(st, HeaderPacket(Header(id, tr)));
    assert map[id := t][id := FileAssembly.Tracker(Header(id, tr), [], false)]
        == map[id := FileAssembly.Tracker(Header(id, tr), [], false)];
  }

  /** A second header with the same id replaces the first. */
  lemma {:induction false} TwoHeaders(id: U32, a: Transfer, b: Transfer)
    ensures FileAssembly.Run([HeaderPacket(Header(id, a)), HeaderPacket(Header(id, b))]) ==
            Some(FileAssembly.FileState([id], map[id := FileAssembly.Tracker(Header(id, b), [], false)], []))
  {
    var p, q := HeaderPacket(Header(id, a)), HeaderPacket(Header(id, b));
    OneHeader(id, a);
    RunSnoc([p], q);
    HeaderAgain(id, FileAssembly.Tracker(Header(id, a), [], false), b);
    assert [p] + [q] == [p, q];
  }

  /** Two transfers with one id at the same time are merged: the second file's name gets the first file's bytes. */
  lemma {:induction false} MergedFiles(id: U32, a: Transfer, b: Transfer)
    requires Transfers.Valid(a) && Transfers.Valid(b) && |Chunks(id, a)| == 1
    ensures var ps := [HeaderPacket(Header(id, a)), HeaderPacket(Header(id, b)), ChunkPacket(Chunks(id, a)[0])];
            FileAssembly.Run(ps).Some? && FileAssembly.Run(ps).value.writes == [FileAssembly.Write(id, b.name, a.data)]
  {
    var c := Chunks(id, a)[0];
    var two := [HeaderPacket(Header(id, a)), HeaderPacket(Header(id, b))];
    var ps := [HeaderPacket(Header(id, a)), HeaderPacket(Header(id, b)), ChunkPacket(c)];
    assert ps[..2] == two;
    HonestChunk(id, a, 1);
    AcceptedHonest(id, a, ChunkPacket(c));
    WholeChunk(id, a);
    TwoHeaders(id, a, b);
    var t := FileAssembly.Tracker(Header(id, b), [], false);
    var st := FileAssembly.Run(two).value;
    assert FileAssembly.TrackerId(t) == Some(id);
    assert FileAssembly.Absorb(t, c).1 == Some(a.data);
    FileAssembly.StepKnown(st, ChunkPacket(c));
    assert [] + [FileAssembly.Write(id, b.name, a.data)] == [FileAssembly.Write(id, b.name, a.data)];
  }
}

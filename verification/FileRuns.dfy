/** Theorems about runs of the file layer: what is written, when a transfer completes, when the program exits. */
module FileRuns {
  import opened Basics
  import opened Numbered
  import opened Proto
  import opened FileAssembly
  import opened Transfers

  // ---- One transfer ----

  ghost predicate IsFinished(id: U32, tr: Transfer, st: FileState) {
    id in st.cells && st.cells[id] == Tracker(Header(id, tr), [], true)
  }

  /**
   When a file arrives. Any arrival order is allowed; the transfer finishes exactly when the header came
   before the last missing chunk and no two later chunks had come before both the header and chunk 1.
   */
  lemma {:induction false} FinishedExactly(id: U32, tr: Transfer, ps: seq<Packet>)
    requires Valid(tr) && AllHonest(id, tr, ps)
    ensures Run(ps).Some? && IsFinished(id, tr, Run(ps).value) <==> Completes(|Chunks(id, tr)|, ps) && !Doomed(ps)
  {
    SingleTransfer(id, tr, ps);
    if ps != [] {
      DoomedGrows(ps);
    }
  }

  lemma {:induction false} WritesAreTheTransfers(id: U32, tr: Transfer, ps: seq<Packet>)
    ensures forall w :: w in WritesAfter(id, tr, ps) ==> w.id == id && w.name == tr.name
  {
    if ps != [] {
      WritesAreTheTransfers(id, tr, ps[..|ps| - 1]);
    }
  }

  /** `writes` replaces the file again and again by a longer or equal nonempty prefix of `data`, up to `last`. */
  ghost predicate Progressive(writes: seq<Write>, data: Bytes, last: Bytes) {
    && last <= data
    && (forall i :: 0 <= i < |writes| ==> writes[i].contents != [] && writes[i].contents <= last)
    && (forall i, j :: 0 <= i < j < |writes| ==> writes[i].contents <= writes[j].contents)
  }

  lemma {:induction false} ProgressiveGrows(writes: seq<Write>, data: Bytes, last: Bytes, next: Bytes, w: Write)
    requires Progressive(writes, data, last) && last <= next <= data
    requires w.contents == next != []
    ensures Progressive(writes, data, next) && Progressive(writes + [w], data, next)
  {
  }

  /** Safety: each write is a nonempty prefix of the file sent, and extends the write before it. */
  lemma {:induction false} WritesArePrefixes(id: U32, tr: Transfer, ps: seq<Packet>)
    requires Valid(tr) && AllHonest(id, tr, ps)
    ensures Progressive(WritesAfter(id, tr, ps), tr.data, Prefix(id, tr, Have(ps)))
  {
    PrefixShape(id, tr, Have(ps));
    if ps != [] {
      var front := ps[..|ps| - 1];
      WritesArePrefixes(id, tr, front);
      HaveGrows(ps);
      PrefixGrows(id, tr, Have(front), Have(ps));
      assert HonestPacket(id, tr, ps[|ps| - 1]);
      ChunksShape(id, tr);
      match LastWrite(id, tr, ps) {
        case None =>
        case Some(w) =>
          ProgressiveGrows(WritesAfter(id, tr, front), tr.data, Prefix(id, tr, Have(front)), w, Write(id, tr.name, w));
      }
    }
  }

  /** A chunk that was not there came after a header: from then on the disk follows the arrivals. */
  ghost predicate NewAfterHeader(ps: seq<Packet>) {
    exists t :: 0 <= t < |ps| && NewAt(ps, t)
  }

  ghost predicate NewAt(ps: seq<Packet>, t: nat)
    requires t < |ps|
  {
    HeaderSeen(ps[..t]) && Have(ps[..t + 1]) != Have(ps[..t])
  }

  lemma {:induction false} NewAtFront(ps: seq<Packet>, n: nat, t: nat)
    requires t < n <= |ps|
    ensures NewAt(ps[..n], t) <==> NewAt(ps, t)
  {
    assert ps[..n][..t] == ps[..t] && ps[..n][..t + 1] == ps[..t + 1];
  }

  lemma {:induction false} NewGrows(ps: seq<Packet>)
    requires ps != []
    ensures var front := ps[..|ps| - 1];
            NewAfterHeader(ps) <==> NewAfterHeader(front) || (HeaderSeen(front) && Have(ps) != Have(front))
  {
    var n := |ps| - 1;
    assert ps[..n + 1] == ps;
    if NewAfterHeader(ps[..n]) {
      var t :| 0 <= t < n && NewAt(ps[..n], t);
      NewAtFront(ps, n, t);
    }
    if HeaderSeen(ps[..n]) && Have(ps) != Have(ps[..n]) {
      assert NewAt(ps, n);
    }
    if NewAfterHeader(ps) {
      var t :| 0 <= t < |ps| && NewAt(ps, t);
      if t < n {
        NewAtFront(ps, n, t);
      }
    }
  }

  lemma {:induction false} NewNeedsHeader(ps: seq<Packet>)
    requires NewAfterHeader(ps)
    ensures HeaderSeen(ps) && Have(ps) != {}
  {
    NewGrows(ps);
    HaveGrows(ps);
    if NewAfterHeader(ps[..|ps| - 1]) {
      NewNeedsHeader(ps[..|ps| - 1]);
    }
  }

  /** After the header exactly the new chunks write, once chunk 1 is in. */
  lemma {:induction false} LastWriteStep(id: U32, tr: Transfer, ps: seq<Packet>)
    requires AllHonest(id, tr, ps) && ps != []
    ensures var known, front := Have(ps), ps[..|ps| - 1];
            LastWrite(id, tr, ps) ==
            if HeaderSeen(front) && known != Have(front) && 1 in known then Some(Prefix(id, tr, known)) else None
  {
    HaveGrows(ps);
    assert HonestPacket(id, tr, ps[|ps| - 1]);
  }

  lemma {:induction false} WriteFacts(id: U32, tr: Transfer, ps: seq<Packet>)
    requires AllHonest(id, tr, ps) && ps != []
    ensures var known, front := Have(ps), ps[..|ps| - 1]; var w := LastWrite(id, tr, ps);
            && (w.Some? ==> NewAfterHeader(ps) && 1 in known && w.value == Prefix(id, tr, known))
            && (w.None? && NewAfterHeader(ps) && 1 in known ==> NewAfterHeader(front) && known == Have(front))
            && (w.None? && NewAfterHeader(front) && 1 in Have(front) ==> NewAfterHeader(ps) && 1 in known)
  {
    LastWriteStep(id, tr, ps);
    NewGrows(ps);
    HaveGrows(ps);
    if NewAfterHeader(ps[..|ps| - 1]) {
      NewNeedsHeader(ps[..|ps| - 1]);
    }
  }

  lemma {:induction false} WritesGrow(id: U32, tr: Transfer, ps: seq<Packet>)
    requires ps != []
    ensures var front, w := ps[..|ps| - 1], LastWrite(id, tr, ps);
            WritesAfter(id, tr, ps) ==
            if w.None? then WritesAfter(id, tr, front) else WritesAfter(id, tr, front) + [Write(id, tr.name, w.value)]
  {
  }

  /**
   The last write is the longest gapless prefix, and there is one if and only if a new chunk came after
   the header, wherever that stood, and chunk 1 is in.
   */
  lemma {:induction false} LastWriteIsCurrent(id: U32, tr: Transfer, ps: seq<Packet>)
    requires AllHonest(id, tr, ps)
    ensures var ws := WritesAfter(id, tr, ps);
            if NewAfterHeader(ps) && 1 in Have(ps)
            then ws != [] && ws[|ws| - 1] == Write(id, tr.name, Prefix(id, tr, Have(ps)))
            else ws == []
  {
    if ps != [] {
      var front := ps[..|ps| - 1];
      LastWriteIsCurrent(id, tr, front);
      WriteFacts(id, tr, ps);
      WritesGrow(id, tr, ps);
    }
  }

  /** The disk a single transfer leaves. */
  lemma {:induction false} DiskOfOne(id: U32, tr: Transfer, ps: seq<Packet>)
    requires Valid(tr) && AllHonest(id, tr, ps)
    ensures var ws := WritesAfter(id, tr, ps);
            DiskOf(ws) == if ws == [] then map[] else map[tr.name := ws[|ws| - 1].contents]
  {
    WritesAreTheTransfers(id, tr, ps);
    OneName(WritesAfter(id, tr, ps), tr.name);
  }

  lemma {:induction false} OneName(ws: seq<Write>, name: string)
    requires forall w :: w in ws ==> w.name == name
    ensures DiskOf(ws) == if ws == [] then map[] else map[name := ws[|ws| - 1].contents]
  {
    if ws != [] {
      OneName(ws[..|ws| - 1], name);
    }
  }

  lemma {:induction false} HeaderFirstNotDoomed(ps: seq<Packet>)
    requires ps != [] && ps[0].HeaderPacket?
    ensures !Doomed(ps)
  {
    forall q | 0 <= q <= |ps| ensures !Premature(ps[..q]) {
      if q == 0 {
        assert Have(ps[..q]) == {};
      } else {
        assert ps[..q][0].HeaderPacket?;
      }
    }
  }

  /** Completion needs no more than the full set, once a new chunk has come after the header. */
  lemma {:induction false} CompletesWhenFull(id: U32, tr: Transfer, ps: seq<Packet>)
    requires AllHonest(id, tr, ps)
    ensures var n := |Chunks(id, tr)|; Completes(n, ps) <==> NewAfterHeader(ps) && Full(n, Have(ps))
  {
    if ps != [] {
      var n, front, p := |Chunks(id, tr)|, ps[..|ps| - 1], ps[|ps| - 1];
      CompletesWhenFull(id, tr, front);
      CompletesGrows(n, ps);
      NewGrows(ps);
      HaveGrows(ps);
      assert HonestPacket(id, tr, p);
      if Full(n, Have(front)) {
        assert Have(ps) == Have(front);
      }
    }
  }

  /**
   Once a header is in and the tracker was not lost, only the set of chunks that have arrived matters, and
   whether one of them was new after the header: tracker and disk are functions of these, and the transfer
   is complete, with the whole file on disk, exactly when the set is full and a new chunk did come after.
   */
  lemma {:induction false} Confluence(id: U32, tr: Transfer, ps: seq<Packet>)
    requires Valid(tr) && AllHonest(id, tr, ps)
    requires HeaderSeen(ps) && !Doomed(ps)
    ensures Run(ps).Some?
    ensures var st := Run(ps).value; var all := Chunks(id, tr); var known := Prefix(id, tr, Have(ps));
            var done := NewAfterHeader(ps) && Full(|all|, Have(ps));
            && Lookup(st.cells, id) ==
               Some(if done then Tracker(Header(id, tr), [], true)
                    else Tracker(Header(id, tr), Held(all, Have(ps)), false))
            && DiskOf(st.writes) == (if NewAfterHeader(ps) && known != [] then map[tr.name := known] else map[])
            && (done <==> DiskOf(st.writes) == map[tr.name := tr.data])
  {
    TrackerIs(id, tr, ps);
    DiskIs(id, tr, ps);
    DiskIsWhole(id, tr, ps);
  }

  lemma {:induction false} TrackerIs(id: U32, tr: Transfer, ps: seq<Packet>)
    requires Valid(tr) && AllHonest(id, tr, ps) && HeaderSeen(ps) && !Doomed(ps)
    ensures Run(ps) == Some(StateAfter(id, tr, ps)) && Run(ps).value.writes == WritesAfter(id, tr, ps)
    ensures var all := Chunks(id, tr);
            CellAfter(id, tr, ps) ==
            Some(if NewAfterHeader(ps) && Full(|all|, Have(ps)) then Tracker(Header(id, tr), [], true)
                 else Tracker(Header(id, tr), Held(all, Have(ps)), false))
  {
    SingleTransfer(id, tr, ps);
    DoomedGrows(ps);
    CompletesWhenFull(id, tr, ps);
  }

  lemma {:induction false} DiskIsWhole(id: U32, tr: Transfer, ps: seq<Packet>)
    requires Valid(tr) && AllHonest(id, tr, ps)
    ensures var known := Prefix(id, tr, Have(ps));
            (if NewAfterHeader(ps) && known != [] then map[tr.name := known] else map[]) == map[tr.name := tr.data]
            <==> NewAfterHeader(ps) && Full(|Chunks(id, tr)|, Have(ps))
  {
    PrefixShape(id, tr, Have(ps));
    var known := Prefix(id, tr, Have(ps));
    SameEntry(tr.name, known, tr.data);
    if NewAfterHeader(ps) {
      NewMeansData(id, tr, ps);
    }
  }

  lemma {:induction false} SameEntry(name: string, a: Bytes, b: Bytes)
    ensures map[name := a] == map[name := b] <==> a == b
    ensures map[name := b] != map[]
  {
    assert map[name := a][name] == a && map[name := b][name] == b;
    assert name in map[name := b];
  }

  lemma {:induction false} DiskIs(id: U32, tr: Transfer, ps: seq<Packet>)
    requires Valid(tr) && AllHonest(id, tr, ps)
    ensures var known := Prefix(id, tr, Have(ps));
            DiskOf(WritesAfter(id, tr, ps)) ==
            if NewAfterHeader(ps) && known != [] then map[tr.name := known] else map[]
  {
    LastWriteIsCurrent(id, tr, ps);
    DiskOfOne(id, tr, ps);
    PrefixShape(id, tr, Have(ps));
    if NewAfterHeader(ps) {
      NewMeansData(id, tr, ps);
    }
  }

  /** Only a file that is not empty has chunks. */
  lemma {:induction false} NewMeansData(id: U32, tr: Transfer, ps: seq<Packet>)
    requires AllHonest(id, tr, ps) && NewAfterHeader(ps)
    ensures tr.data != []
  {
    NewNeedsHeader(ps);
    var k :| k in Have(ps);
    var i :| 0 <= i < |ps| && ps[i].ChunkPacket? && ChunkNum(ps[i].fileChunk) == k;
    assert HonestPacket(id, tr, ps[i]);
  }

  /** When the header comes first, the first chunk of all is a new one after it. */
  lemma {:induction false} HeaderFirstNew(ps: seq<Packet>)
    requires ps != [] && ps[0].HeaderPacket?
    ensures HeaderSeen(ps) && (NewAfterHeader(ps) <==> Have(ps) != {})
  {
    var front := ps[..|ps| - 1];
    NewGrows(ps);
    HaveGrows(ps);
    if front == [] {
      assert Have(front) == {};
    } else {
      assert front[0] == ps[0];
      HeaderFirstNew(front);
    }
  }

  /** The chunk that completes the set writes the whole file. */
  lemma {:induction false} FinishedIsWritten(id: U32, tr: Transfer, ps: seq<Packet>)
    requires Valid(tr) && AllHonest(id, tr, ps) && tr.data != [] && Completes(|Chunks(id, tr)|, ps)
    ensures var ws := WritesAfter(id, tr, ps); ws != [] && ws[|ws| - 1] == Write(id, tr.name, tr.data)
  {
    CompletesWhenFull(id, tr, ps);
    LastWriteIsCurrent(id, tr, ps);
    PrefixShape(id, tr, Have(ps));
  }

  // ---- What can go wrong on one transfer ----

  /** A header that comes after all the chunks comes too late: nothing is ever written. */
  lemma {:induction false} LateHeader(id: U32, tr: Transfer, ps: seq<Packet>, t: nat)
    requires Valid(tr) && AllHonest(id, tr, ps) && t <= |ps|
    requires !HeaderSeen(ps[..t]) && Full(|Chunks(id, tr)|, Have(ps[..t]))
    ensures WritesAfter(id, tr, ps) == [] && !Completes(|Chunks(id, tr)|, ps) && Full(|Chunks(id, tr)|, Have(ps))
  {
    var n := |Chunks(id, tr)|;
    if t == |ps| {
      assert ps[..t] == ps;
      NoHeaderNoWrites(id, tr, ps);
      if Completes(n, ps) {
        CompletesMeans(n, ps);
      }
    } else {
      var front := ps[..|ps| - 1];
      assert front[..t] == ps[..t];
      LateHeader(id, tr, front, t);
      assert HonestPacket(id, tr, ps[|ps| - 1]);
      HaveGrows(ps);
      CompletesGrows(n, ps);
    }
  }

  lemma {:induction false} NoHeaderNoWrites(id: U32, tr: Transfer, ps: seq<Packet>)
    requires !HeaderSeen(ps)
    ensures WritesAfter(id, tr, ps) == []
  {
    if ps != [] {
      HaveGrows(ps);
      NoHeaderNoWrites(id, tr, ps[..|ps| - 1]);
    }
  }

  lemma {:induction false} OnlyOneChunk(ps: seq<Packet>)
    requires forall i :: 0 <= i < |ps| && ps[i].ChunkPacket? ==> ChunkNum(ps[i].fileChunk) == 1
    ensures !Doomed(ps)
  {
    forall q | 0 <= q <= |ps| ensures !Premature(ps[..q]) {
      assert forall a :: a in Have(ps[..q]) ==> a == 1;
    }
  }

  lemma {:induction false} FirstChunkAlone(c: Packet)
    requires c.ChunkPacket? && ChunkNum(c.fileChunk) == 1
    ensures !HeaderSeen([c]) && Full(1, Have([c]))
  {
    assert [c][0].ChunkPacket? && ChunkNum([c][0].fileChunk) in Have([c]);
  }

  /** For instance: the one chunk of a file, its header, and the chunk again. All has arrived; nothing is written. */
  lemma {:induction false} HeaderAfterChunk(id: U32, tr: Transfer)
    requires Valid(tr) && |Chunks(id, tr)| == 1
    ensures var c := ChunkPacket(Chunks(id, tr)[0]); var ps := [c, HeaderPacket(Header(id, tr)), c];
            && AllHonest(id, tr, ps) && Full(1, Have(ps))
            && Run(ps).Some? && Run(ps).value.writes == [] && !IsFinished(id, tr, Run(ps).value)
  {
    var c := ChunkPacket(Chunks(id, tr)[0]);
    var ps := [c, HeaderPacket(Header(id, tr)), c];
    HonestChunk(id, tr, 1);
    FirstChunkAlone(c);
    assert ps[..1] == [c];
    LateHeader(id, tr, ps, 1);
    OnlyOneChunk(ps[..2]);
    SingleTransfer(id, tr, ps);
    FinishedExactly(id, tr, ps);
  }

  lemma {:induction false} TwoArePremature(b: Packet, c: Packet)
    requires b.ChunkPacket? && c.ChunkPacket?
    requires ChunkNum(b.fileChunk) != ChunkNum(c.fileChunk) && ChunkNum(b.fileChunk) != 1 && ChunkNum(c.fileChunk) != 1
    ensures Doomed([b, c])
  {
    var two := [b, c];
    assert two[0].ChunkPacket? && two[1].ChunkPacket? && two[..2] == two;
    assert ChunkNum(two[0].fileChunk) in Have(two) && ChunkNum(two[1].fileChunk) in Have(two);
    assert Premature(two[..2]);
  }

  /** Two later chunks before chunk 1 and the header: the next packet ends the program. */
  lemma {:induction false} EarlyExit(id: U32, tr: Transfer)
    requires Valid(tr) && |Chunks(id, tr)| >= 3
    ensures var ps := [ChunkPacket(Chunks(id, tr)[1]), ChunkPacket(Chunks(id, tr)[2]), HeaderPacket(Header(id, tr))];
            AllHonest(id, tr, ps) && Run(ps) == None
  {
    var b, c, h := ChunkPacket(Chunks(id, tr)[1]), ChunkPacket(Chunks(id, tr)[2]), HeaderPacket(Header(id, tr));
    var ps := [b, c, h];
    HonestChunk(id, tr, 2);
    HonestChunk(id, tr, 3);
    TwoArePremature(b, c);
    assert ps[..|ps| - 1] == [b, c];
    SingleTransfer(id, tr, ps);
  }

  /** An empty file is announced, and that is all: it is never written and never complete. */
  lemma {:induction false} EmptyFile(id: U32, tr: Transfer, ps: seq<Packet>)
    requires tr.data == [] && AllHonest(id, tr, ps)
    ensures Run(ps).Some? && Run(ps).value.writes == [] && !IsFinished(id, tr, Run(ps).value)
  {
    SingleTransfer(id, tr, ps);
    NoChunks(id, tr, ps);
    assert !Completes(0, ps);
    assert forall q :: 0 <= q <= |ps| ==> Have(ps[..q]) == {};
  }

  lemma {:induction false} NoChunks(id: U32, tr: Transfer, ps: seq<Packet>)
    requires tr.data == [] && AllHonest(id, tr, ps)
    ensures Have(ps) == {} && WritesAfter(id, tr, ps) == []
  {
    if ps != [] {
      NoChunks(id, tr, ps[..|ps| - 1]);
      assert HonestPacket(id, tr, ps[|ps| - 1]);
      HaveGrows(ps);
    } else {
      assert Have(ps) == {};
    }
  }

  // ---- Many transfers at once ----

  /** All packets about `id` are those of one transfer. Nothing is asked of the others. */
  ghost predicate Sole(id: U32, tr: Transfer, ps: seq<Packet>) {
    forall i :: 0 <= i < |ps| && About(ps[i], id) ==> HonestPacket(id, tr, ps[i])
  }

  lemma {:induction false} OnlyHonest(id: U32, tr: Transfer, ps: seq<Packet>)
    requires Sole(id, tr, ps)
    ensures AllHonest(id, tr, Only(ps, id))
  {
    if ps != [] {
      var front, p := ps[..|ps| - 1], ps[|ps| - 1];
      OnlyHonest(id, tr, front);
      assert About(p, id) ==> HonestPacket(id, tr, p);
    }
  }

  /** In a run on any packets, a transfer whose id is its own fares as it would alone. */
  lemma {:induction false} EachTransfer(id: U32, tr: Transfer, ps: seq<Packet>)
    requires Valid(tr) && Sole(id, tr, ps) && Run(ps).Some?
    ensures AllHonest(id, tr, Only(ps, id)) && !Exited(Only(ps, id))
    ensures Lookup(Run(ps).value.cells, id) == CellAfter(id, tr, Only(ps, id))
    ensures WritesOf(Run(ps).value.writes, id) == WritesAfter(id, tr, Only(ps, id))
  {
    TransfersAreIndependent(ps, id);
    OnlyHonest(id, tr, ps);
    SingleTransfer(id, tr, Only(ps, id));
  }

  // ---- The disk under many transfers ----

  /** A header that announces file `name` for transfer `id`. */
  predicate Announces(p: Packet, id: nat, name: string) {
    About(p, id) && p.HeaderPacket? && p.header.filename == Some(name)
  }

  ghost predicate Announced(ps: seq<Packet>, id: nat, name: string) {
    exists i :: 0 <= i < |ps| && Announces(ps[i], id, name)
  }

  /** Every name a tracker or a write has was announced for its transfer. */
  ghost predicate AllAnnounced(ps: seq<Packet>, st: FileState) {
    && (forall id :: id in st.cells && st.cells[id].header.filename.Some? ==>
          Announced(ps, id, st.cells[id].header.filename.value))
    && (forall w :: w in st.writes ==> Announced(ps, w.id, w.name))
  }

  lemma {:induction false} AnnouncedLater(ps: seq<Packet>, id: nat, name: string)
    requires ps != []
    ensures Announced(ps[..|ps| - 1], id, name) || Announces(ps[|ps| - 1], id, name) ==> Announced(ps, id, name)
  {
    var front := ps[..|ps| - 1];
    if Announced(front, id, name) {
      var i :| 0 <= i < |front| && Announces(front[i], id, name);
      assert Announces(ps[i], id, name);
    }
  }

  /** A step keeps a tracker's name, or takes it from the packet. */
  lemma {:induction false} NameKept(cell: Option<Tracker>, p: Packet)
    requires Accepted(p)
    ensures var (t, write) := CellStep(cell, p);
            && (t.header.filename.Some? ==>
                  || (cell.Some? && cell.value.header == t.header)
                  || (p.HeaderPacket? && p.header == t.header))
            && (write.Some? ==> t.header.filename.Some?)
  {
  }

  lemma {:induction false} StepAnnounced(ps: seq<Packet>, st: FileState)
    requires ps != [] && WellFormed(st) && AllAnnounced(ps[..|ps| - 1], st) && Step(st, ps[|ps| - 1]).Some?
    ensures AllAnnounced(ps, Step(st, ps[|ps| - 1]).value)
  {
    var front, p := ps[..|ps| - 1], ps[|ps| - 1];
    forall id, name | Announced(front, id, name) ensures Announced(ps, id, name) {
      AnnouncedLater(ps, id, name);
    }
    if Accepted(p) {
      NameKept(Lookup(st.cells, TransferId(p)), p);
      var t := CellStep(Lookup(st.cells, TransferId(p)), p).0;
      if t.header.filename.Some? {
        AnnouncedLater(ps, TransferId(p), t.header.filename.value);
      }
    }
  }

  lemma {:induction false} NamesAnnounced(ps: seq<Packet>)
    requires Run(ps).Some?
    ensures AllAnnounced(ps, Run(ps).value)
  {
    if ps != [] {
      NamesAnnounced(ps[..|ps| - 1]);
      StepAnnounced(ps, Run(ps[..|ps| - 1]).value);
    }
  }

  /** No other transfer announces this name. */
  ghost predicate OwnName(id: nat, name: string, ps: seq<Packet>) {
    forall i, x :: 0 <= i < |ps| && Announces(ps[i], x, name) ==> x == id
  }

  lemma {:induction false} DiskEntry(writes: seq<Write>, id: nat, name: string)
    requires forall w :: w in writes ==> (w.id == id <==> w.name == name)
    ensures var ws, disk := WritesOf(writes, id), DiskOf(writes);
            && (name in disk <==> ws != [])
            && (ws != [] ==> disk[name] == ws[|ws| - 1].contents)
  {
    if writes != [] {
      var front := writes[..|writes| - 1];
      assert forall w :: w in front ==> w in writes;
      assert writes[|writes| - 1] in writes;
      DiskEntry(front, id, name);
    }
  }

  lemma {:induction false} WritesOfMember(writes: seq<Write>, id: nat, w: Write)
    ensures w in WritesOf(writes, id) <==> w in writes && w.id == id
  {
    if writes != [] {
      var front, last := writes[..|writes| - 1], writes[|writes| - 1];
      WritesOfMember(front, id, w);
      assert w in writes <==> w in front || w == last;
    }
  }

  /**
   What is on the disk under the name of a transfer whose id and name are its own: the longest gapless
   prefix, once a new chunk has come after the header and chunk 1 is in, and nothing before.
   */
  lemma {:induction false} FileOnDisk(id: U32, tr: Transfer, ps: seq<Packet>)
    requires Valid(tr) && Sole(id, tr, ps) && OwnName(id, tr.name, ps) && Run(ps).Some?
    ensures var mine, disk := Only(ps, id), DiskOf(Run(ps).value.writes);
            && (tr.name in disk <==> NewAfterHeader(mine) && 1 in Have(mine))
            && (tr.name in disk ==> disk[tr.name] == Prefix(id, tr, Have(mine)))
  {
    var mine, writes := Only(ps, id), Run(ps).value.writes;
    EachTransfer(id, tr, ps);
    NamesAnnounced(ps);
    WritesAreTheTransfers(id, tr, mine);
    forall w | w in writes ensures w.id == id <==> w.name == tr.name {
      WritesOfMember(writes, id, w);
      assert Announced(ps, w.id, w.name);
    }
    DiskEntry(writes, id, tr.name);
    LastWriteIsCurrent(id, tr, mine);
  }

  /** The whole file is on the disk if and only if the header came before the last missing chunk. */
  lemma {:induction false} WholeOnDisk(id: U32, tr: Transfer, ps: seq<Packet>)
    requires Valid(tr) && Sole(id, tr, ps) && OwnName(id, tr.name, ps) && Run(ps).Some?
    ensures var disk := DiskOf(Run(ps).value.writes);
            tr.name in disk && disk[tr.name] == tr.data <==> Completes(|Chunks(id, tr)|, Only(ps, id))
  {
    var mine := Only(ps, id);
    FileOnDisk(id, tr, ps);
    EachTransfer(id, tr, ps);
    CompletesWhenFull(id, tr, mine);
    PrefixShape(id, tr, Have(mine));
    if NewAfterHeader(mine) {
      NewMeansData(id, tr, mine);
      ChunksShape(id, tr);
    }
  }

  // ---- The exit ----

  function FirstSeen(ps: seq<Packet>): seq<nat> {
    if ps == [] then []
    else
      var front, p := ps[..|ps| - 1], ps[|ps| - 1];
      if Accepted(p) && TransferId(p) !in FirstSeen(front) then FirstSeen(front) + [TransferId(p)] else FirstSeen(front)
  }

  lemma {:induction false} OrderIsFirstSeen(ps: seq<Packet>)
    requires Run(ps).Some?
    ensures Run(ps).value.order == FirstSeen(ps)
  {
    if ps != [] {
      OrderIsFirstSeen(ps[..|ps| - 1]);
    }
  }

  /** A packet of `y` came and none of `x` came before it. */
  ghost predicate StartedBefore(ps: seq<Packet>, y: nat, x: nat) {
    exists s :: 0 <= s < |ps| && About(ps[s], y) && forall r :: 0 <= r < s ==> !About(ps[r], x)
  }

  lemma {:induction false} FirstSeenHas(ps: seq<Packet>, x: nat)
    ensures x in FirstSeen(ps) <==> exists r :: 0 <= r < |ps| && About(ps[r], x)
  {
    if ps != [] {
      var front, p := ps[..|ps| - 1], ps[|ps| - 1];
      FirstSeenHas(front, x);
      assert forall r :: 0 <= r < |front| ==> front[r] == ps[r];
    }
  }

  ghost predicate ListedBefore(order: seq<nat>, y: nat, x: nat) {
    exists i :: 0 <= i < |order| && order[i] == y && x !in order[..i]
  }

  lemma {:induction false} ListedGrows(order: seq<nat>, z: nat, y: nat, x: nat)
    ensures ListedBefore(order + [z], y, x) <==> ListedBefore(order, y, x) || (z == y && x !in order)
  {
    var longer := order + [z];
    if ListedBefore(longer, y, x) {
      var i :| 0 <= i < |longer| && longer[i] == y && x !in longer[..i];
      if i < |order| {
        assert order[..i] == longer[..i];
      } else {
        assert order == longer[..i];
      }
    }
    if ListedBefore(order, y, x) {
      var i :| 0 <= i < |order| && order[i] == y && x !in order[..i];
      assert order[..i] == longer[..i] && longer[i] == y;
    }
    if z == y && x !in order {
      assert longer[..|order|] == order && longer[|order|] == y;
    }
  }

  lemma {:induction false} StartedGrows(ps: seq<Packet>, y: nat, x: nat)
    requires ps != []
    ensures var front, p := ps[..|ps| - 1], ps[|ps| - 1];
            StartedBefore(ps, y, x) <==> StartedBefore(front, y, x) || (About(p, y) && x !in FirstSeen(front))
  {
    var front, p := ps[..|ps| - 1], ps[|ps| - 1];
    FirstSeenHas(front, x);
    if StartedBefore(front, y, x) {
      var s :| 0 <= s < |front| && About(front[s], y) && forall r :: 0 <= r < s ==> !About(front[r], x);
      assert About(ps[s], y) && forall r :: 0 <= r < s ==> ps[r] == front[r];
    }
    if About(p, y) && x !in FirstSeen(front) {
      assert forall r :: 0 <= r < |front| ==> ps[r] == front[r];
      assert About(ps[|front|], y);
    }
    if StartedBefore(ps, y, x) {
      var s :| 0 <= s < |ps| && About(ps[s], y) && forall r :: 0 <= r < s ==> !About(ps[r], x);
      assert forall r :: 0 <= r < |front| ==> ps[r] == front[r];
      if s < |front| {
        assert About(front[s], y);
      }
    }
  }

  lemma {:induction false} ListedIsStarted(ps: seq<Packet>, y: nat, x: nat)
    ensures ListedBefore(FirstSeen(ps), y, x) <==> StartedBefore(ps, y, x)
  {
    if ps != [] {
      var front, p := ps[..|ps| - 1], ps[|ps| - 1];
      ListedIsStarted(front, y, x);
      StartedGrows(ps, y, x);
      if Accepted(p) {
        var order := FirstSeen(front);
        if TransferId(p) !in order {
          ListedGrows(order, TransferId(p), y, x);
        } else if TransferId(p) == y && x !in order {
          var i :| 0 <= i < |order| && order[i] == y;
          assert x !in order[..i];
        }
      }
    }
  }

  /** What every sender's chunks are: numbered from 1, and not empty. */
  predicate Solid(p: Packet) {
    Accepted(p) && p.ChunkPacket? ==> ChunkNum(p.fileChunk) >= 1 && ChunkBytes(p.fileChunk) != []
  }

  ghost predicate AllSolid(ps: seq<Packet>) {
    forall i :: 0 <= i < |ps| ==> Solid(ps[i])
  }

  lemma {:induction false} HonestIsSolid(id: U32, tr: Transfer, p: Packet)
    requires Valid(tr) && HonestPacket(id, tr, p)
    ensures Solid(p) && About(p, id)
  {
    ChunksShape(id, tr);
  }

  /** The tracker of one id, from packets of any transfers with that id, as far as the exit depends on it. */
  ghost predicate Tracks(ps: seq<Packet>, cell: Option<Tracker>) {
    if ps == [] then cell == None
    else cell.Some? && TracksSome(ps, cell.value)
  }

  ghost predicate TracksSome(ps: seq<Packet>, t: Tracker) {
    if Doomed(ps) then t == Tracker(NO_HEADER, [], true)
    else if HeaderSeen(ps) then t.header.id.Some?
    else HoldsAll(t, Have(ps))
  }

  /** A tracker without header that holds chunks with exactly these numbers. */
  ghost predicate HoldsAll(t: Tracker, have: set<nat>) {
    && t.header == NO_HEADER && !t.isComplete && t.chunks != []
    && StrictlySorted(ChunkNum, t.chunks)
    && (forall i :: 0 <= i < |t.chunks| ==> ChunkNum(t.chunks[i]) >= 1 && ChunkBytes(t.chunks[i]) != [])
    && (forall k :: k in have <==> Has(ChunkNum, t.chunks, k))
  }

  lemma {:induction false} InsertHolds(chunks: seq<FileTransferChunk>, c: FileTransferChunk, k: nat)
    ensures Has(ChunkNum, Insert(ChunkNum, chunks, c), k) <==> Has(ChunkNum, chunks, k) || ChunkNum(c) == k
  {
    InsertContents(ChunkNum, chunks, c);
    var after := Insert(ChunkNum, chunks, c);
    if Has(ChunkNum, after, k) {
      var i :| 0 <= i < |after| && ChunkNum(after[i]) == k;
      assert after[i] in chunks || after[i] == c;
    }
    if i :| 0 <= i < |chunks| && ChunkNum(chunks[i]) == k {
      assert chunks[i] in multiset(after);
      assert chunks[i] in after;
    }
    assert c in multiset(after);
    assert c in after;
  }

  lemma {:induction false} InsertKeeps(chunks: seq<FileTransferChunk>, c: FileTransferChunk)
    requires forall i :: 0 <= i < |chunks| ==> ChunkNum(chunks[i]) >= 1 && ChunkBytes(chunks[i]) != []
    requires ChunkNum(c) >= 1 && ChunkBytes(c) != []
    ensures var after := Insert(ChunkNum, chunks, c);
            after != [] && forall i :: 0 <= i < |after| ==> ChunkNum(after[i]) >= 1 && ChunkBytes(after[i]) != []
  {
    InsertContents(ChunkNum, chunks, c);
  }

  /** Without chunk 1 nothing is known from the start of the file; with it, something is. */
  lemma {:induction false} ContentsNeedFirst(chunks: seq<FileTransferChunk>)
    requires chunks != [] && StrictlySorted(ChunkNum, chunks)
    requires forall i :: 0 <= i < |chunks| ==> ChunkNum(chunks[i]) >= 1 && ChunkBytes(chunks[i]) != []
    ensures Contents(chunks) == [] <==> !Has(ChunkNum, chunks, 1)
  {
    var n := Leading(chunks);
    if n > 0 {
      assert ChunkNum(chunks[0]) == 1;
      JoinNonempty(chunks[..n]);
    } else {
      forall i | 0 <= i < |chunks| ensures ChunkNum(chunks[i]) != 1 {
        assert i > 0 ==> ChunkNum(chunks[0]) < ChunkNum(chunks[i]);
      }
    }
  }

  /** A new chunk for a tracker without header: the tracker is lost without chunk 1, and goes on with it. */
  lemma {:induction false} HeldStep(t: Tracker, have: set<nat>, c: FileTransferChunk)
    requires HoldsAll(t, have) && ChunkNum(c) >= 1 && ChunkBytes(c) != [] && ChunkNum(c) !in have
    ensures var more := have + {ChunkNum(c)};
            if 1 in more then HoldsAll(Absorb(t, c).0, more) else Absorb(t, c).0 == Tracker(NO_HEADER, [], true)
  {
    var after := Insert(ChunkNum, t.chunks, c);
    InsertStrictlySorts(ChunkNum, t.chunks, c);
    InsertKeeps(t.chunks, c);
    forall k ensures k in have + {ChunkNum(c)} <==> Has(ChunkNum, after, k) {
      InsertHolds(t.chunks, c, k);
    }
    ContentsNeedFirst(after);
  }

  lemma {:induction false} HeldTwice(t: Tracker, have: set<nat>)
    requires HoldsAll(t, have)
    ensures have != {}
  {
    assert Has(ChunkNum, t.chunks, ChunkNum(t.chunks[0]));
  }

  /** A header, or a chunk after one. */
  lemma {:induction false} TrackHeaded(ps: seq<Packet>, cell: Option<Tracker>)
    requires ps != [] && Accepted(ps[|ps| - 1]) && HeaderSeen(ps)
    requires !Doomed(ps[..|ps| - 1]) && Tracks(ps[..|ps| - 1], cell)
    ensures Tracks(ps, Some(CellStep(cell, ps[|ps| - 1]).0))
  {
    HaveGrows(ps);
    DoomedGrows(ps);
  }

  /** The first chunk of all. */
  lemma {:induction false} TrackFirst(ps: seq<Packet>)
    requires |ps| == 1 && Accepted(ps[0]) && Solid(ps[0]) && ps[0].ChunkPacket?
    ensures Tracks(ps, Some(CellStep(None, ps[0]).0))
  {
    HaveGrows(ps);
    DoomedGrows(ps);
    var c := ps[0].fileChunk;
    assert ps[..0] == [] && Have(ps[..0]) == {};
    assert !Doomed(ps[..0]);
    assert Have(ps) == {ChunkNum(c)};
    assert [c][0] == c;
    assert HoldsAll(Tracker(NO_HEADER, [c], false), Have(ps));
  }

  /** A chunk that is there already, before the header. */
  lemma {:induction false} TrackRepeat(ps: seq<Packet>, t: Tracker)
    requires |ps| > 1 && ps[|ps| - 1].ChunkPacket? && !HeaderSeen(ps[..|ps| - 1])
    requires !Doomed(ps[..|ps| - 1]) && HoldsAll(t, Have(ps[..|ps| - 1]))
    requires Accepted(ps[|ps| - 1]) && ChunkNum(ps[|ps| - 1].fileChunk) in Have(ps[..|ps| - 1])
    ensures Tracks(ps, Some(CellStep(Some(t), ps[|ps| - 1]).0))
  {
    RepeatFacts(0, ps);
    HaveGrows(ps);
  }

  /** A new chunk before the header. */
  lemma {:induction false} TrackNew(ps: seq<Packet>, t: Tracker)
    requires |ps| > 1 && ps[|ps| - 1].ChunkPacket? && !HeaderSeen(ps[..|ps| - 1])
    requires !Doomed(ps[..|ps| - 1]) && HoldsAll(t, Have(ps[..|ps| - 1]))
    requires Accepted(ps[|ps| - 1]) && Solid(ps[|ps| - 1]) && ChunkNum(ps[|ps| - 1].fileChunk) !in Have(ps[..|ps| - 1])
    ensures Tracks(ps, Some(CellStep(Some(t), ps[|ps| - 1]).0))
  {
    var front, c := ps[..|ps| - 1], ps[|ps| - 1].fileChunk;
    var have, more := Have(front), Have(ps);
    HaveGrows(ps);
    DoomedGrows(ps);
    HeldTwice(t, have);
    var a :| a in have;
    assert a in more && ChunkNum(c) in more && a != ChunkNum(c);
    HeldStep(t, have, c);
  }

  lemma {:induction false} TrackStep(ps: seq<Packet>, cell: Option<Tracker>)
    requires ps != [] && Accepted(ps[|ps| - 1]) && Solid(ps[|ps| - 1])
    requires !Doomed(ps[..|ps| - 1]) && Tracks(ps[..|ps| - 1], cell)
    ensures Tracks(ps, Some(CellStep(cell, ps[|ps| - 1]).0))
  {
    var front, p := ps[..|ps| - 1], ps[|ps| - 1];
    HaveGrows(ps);
    if HeaderSeen(ps) {
      TrackHeaded(ps, cell);
    } else if front == [] {
      TrackFirst(ps);
    } else if ChunkNum(p.fileChunk) in Have(front) {
      TrackRepeat(ps, cell.value);
    } else {
      TrackNew(ps, cell.value);
    }
  }

  /** A tracker that lost its id is met at once by a packet with that id. */
  lemma {:induction false} LostBlocks(st: FileState, id: nat)
    requires WellFormed(st) && id in st.cells && TrackerId(st.cells[id]).None?
    ensures Blocked(st, id)
  {
    var i :| 0 <= i < |st.order| && st.order[i] == id;
    assert id !in st.order[..i];
  }

  lemma {:induction false} TracksOwn(ps: seq<Packet>, id: nat)
    requires Run(ps).Some? && AllSolid(ps) && forall i :: 0 <= i < |ps| ==> About(ps[i], id)
    ensures Tracks(ps, Lookup(Run(ps).value.cells, id))
  {
    if ps != [] {
      var front, p := ps[..|ps| - 1], ps[|ps| - 1];
      TracksOwn(front, id);
      var st := Run(front).value;
      if Doomed(front) {
        DoomedNonempty(front);
        LostBlocks(st, id);
      }
      TrackStep(ps, Lookup(st.cells, id));
    }
  }

  lemma {:induction false} OnlyAbout(ps: seq<Packet>, id: nat)
    requires AllSolid(ps)
    ensures AllSolid(Only(ps, id)) && forall i :: 0 <= i < |Only(ps, id)| ==> About(Only(ps, id)[i], id)
  {
    if ps != [] {
      OnlyAbout(ps[..|ps| - 1], id);
      assert Solid(ps[|ps| - 1]);
    }
  }

  lemma {:induction false} TracksLost(ps: seq<Packet>, t: Tracker)
    requires TracksSome(ps, t)
    ensures TrackerId(t).None? ==> Doomed(ps) || !HeaderSeen(ps)
    ensures Doomed(ps) ==> TrackerId(t).None?
  {
  }

  /** In a run that has not exited, a tracker has lost its id if and only if its packets were premature once. */
  lemma {:induction false} LostIsDoomed(ps: seq<Packet>, id: nat)
    requires AllSolid(ps) && Run(ps).Some? && id in Run(ps).value.cells
    ensures TrackerId(Run(ps).value.cells[id]).None? <==> Doomed(Only(ps, id))
  {
    var mine, t := Only(ps, id), Run(ps).value.cells[id];
    TransfersAreIndependent(ps, id);
    OnlyAbout(ps, id);
    TracksOwn(mine, id);
    RunOk(ps);
    LostId(id, t);
    TracksLost(mine, t);
  }

  /** A transfer that is the one packet `t` is about, or started before it, lost its id in the packets before `t`. */
  ghost predicate ExitsAt(ps: seq<Packet>, t: nat)
    requires t < |ps|
  {
    Accepted(ps[t]) && MeetsLost(ps[..t], TransferId(ps[t]))
  }

  /** The search for `x` meets a tracker that lost its id. */
  ghost predicate MeetsLost(ps: seq<Packet>, x: nat) {
    exists y :: Doomed(Only(ps, y)) && StartedBefore(ps, y, x)
  }

  ghost predicate SomeExit(ps: seq<Packet>) {
    exists t :: 0 <= t < |ps| && ExitsAt(ps, t)
  }

  lemma {:induction false} ExitsAtFront(ps: seq<Packet>, n: nat, t: nat)
    requires t < n <= |ps|
    ensures ExitsAt(ps[..n], t) <==> ExitsAt(ps, t)
  {
    assert ps[..n][..t] == ps[..t];
  }

  lemma {:induction false} SomeExitLater(ps: seq<Packet>, n: nat)
    requires n <= |ps| && SomeExit(ps[..n])
    ensures SomeExit(ps)
  {
    var t :| 0 <= t < n && ExitsAt(ps[..n], t);
    ExitsAtFront(ps, n, t);
  }

  lemma {:induction false} SomeExitEarlier(ps: seq<Packet>, n: nat, t: nat)
    requires t < n <= |ps| && ExitsAt(ps, t)
    ensures SomeExit(ps[..n])
  {
    ExitsAtFront(ps, n, t);
  }

  lemma {:induction false} SomeExitGrows(ps: seq<Packet>)
    requires ps != []
    ensures SomeExit(ps) <==> SomeExit(ps[..|ps| - 1]) || ExitsAt(ps, |ps| - 1)
  {
    var n := |ps| - 1;
    if SomeExit(ps[..n]) {
      SomeExitLater(ps, n);
    }
    if t :| 0 <= t < |ps| && ExitsAt(ps, t) {
      if t < n {
        SomeExitEarlier(ps, n, t);
      }
    }
  }

  /**
   When the program exits, whatever the number of transfers and the order, and also when transfers share an
   id: every chunk need only be numbered from 1 and not empty.
   */
  lemma {:induction false} ExitsExactly(ps: seq<Packet>)
    requires AllSolid(ps)
    ensures Run(ps) == None <==> SomeExit(ps)
  {
    if ps != [] {
      var front, p := ps[..|ps| - 1], ps[|ps| - 1];
      ExitsExactly(front);
      SomeExitGrows(ps);
      if Run(front).Some? && Accepted(p) {
        StepExits(front, TransferId(p));
      }
    }
  }

  lemma {:induction false} StepExits(front: seq<Packet>, x: nat)
    requires AllSolid(front) && Run(front).Some?
    ensures Blocked(Run(front).value, x) <==> MeetsLost(front, x)
  {
    var st := Run(front).value;
    OrderIsFirstSeen(front);
    if Blocked(st, x) {
      var i :| 0 <= i < |st.order| && TrackerId(st.cells[st.order[i]]).None? && x !in st.order[..i];
      var y := st.order[i];
      LostIsDoomed(front, y);
      ListedIsStarted(front, y, x);
    }
    if y :| Doomed(Only(front, y)) && StartedBefore(front, y, x) {
      ListedIsStarted(front, y, x);
      LostIsDoomed(front, y);
    }
  }
}

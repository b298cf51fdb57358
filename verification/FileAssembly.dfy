/**
 What the file layer's receiver does, one tracker per transfer id. `FileReception` proves that the
 program's vector of trackers implements this machine.
 */
module FileAssembly {
  import opened Basics
  import opened Numbered
  import opened Proto

  const NO_HEADER := FileTransferHeader(None, None, None)

  datatype Tracker = Tracker(header: FileTransferHeader, chunks: seq<FileTransferChunk>, isComplete: bool)

  /** One write of a file: the transfer it was for, the name and the whole new contents. */
  datatype Write = Write(id: nat, name: string, contents: Bytes)

  /** The trackers by transfer id, the ids in the order their trackers were made, and all writes so far. */
  datatype FileState = FileState(order: seq<nat>, cells: map<nat, Tracker>, writes: seq<Write>)

  const START := FileState([], map[], [])

  function ChunkNum(c: FileTransferChunk): nat { c.chunkId.GetOr(0) }

  function ChunkBytes(c: FileTransferChunk): Bytes { c.chunk.GetOr([]) }

  /** The id a tracker can still tell, if any. The program exits when it asks a tracker that cannot. */
  function TrackerId(t: Tracker): Option<nat> {
    if t.header.id.Some? then t.header.id
    else if t.chunks == [] || t.chunks[0].id.None? then None
    else t.chunks[0].id
  }

  predicate Accepted(p: Packet) {
    match p
    case HeaderPacket(h) => h.id.Some? && h.size.Some? && h.filename.Some?
    case ChunkPacket(c) => c.id.Some? && c.chunkId.Some? && c.chunk.Some?
    case EmptyPacket => false
  }

  function TransferId(p: Packet): nat {
    match p
    case HeaderPacket(h) => h.id.GetOr(0)
    case ChunkPacket(c) => c.id.GetOr(0)
    case EmptyPacket => 0
  }

  /** How many chunks from the front are numbered 1, 2, 3, ... */
  function Leading(chunks: seq<FileTransferChunk>): (n: nat)
    ensures n <= |chunks|
    ensures forall i :: 0 <= i < n ==> ChunkNum(chunks[i]) == i + 1
    ensures n < |chunks| ==> ChunkNum(chunks[n]) != n + 1
  {
    if chunks == [] then 0
    else
      var n := Leading(chunks[..|chunks| - 1]);
      if n == |chunks| - 1 && ChunkNum(chunks[n]) == |chunks| then |chunks| else n
  }

  /** The part of the file known without a gap. */
  function Contents(chunks: seq<FileTransferChunk>): Bytes {
    JoinBy(ChunkBytes, chunks[..Leading(chunks)])
  }

  /** A chunk reaching a tracker that exists and is not complete. */
  function Absorb(t: Tracker, c: FileTransferChunk): (Tracker, Option<Bytes>) {
    if Has(ChunkNum, t.chunks, ChunkNum(c)) then (t, None)
    else
      var chunks := Insert(ChunkNum, t.chunks, c);
      var contents := Contents(chunks);
      (if |contents| == t.header.size.GetOr(0) then Tracker(t.header, [], true) else Tracker(t.header, chunks, false),
       if contents != [] && t.header.filename.Some? then Some(contents) else None)
  }

  function CellStep(cell: Option<Tracker>, p: Packet): (Tracker, Option<Bytes>)
    requires Accepted(p)
  {
    match (cell, p)
    case (None, HeaderPacket(h)) => (Tracker(h, [], false), None)
    case (None, ChunkPacket(c)) => (Tracker(NO_HEADER, [c], false), None)
    case (Some(t), HeaderPacket(h)) => (if t.isComplete then t else t.(header := h), None)
    case (Some(t), ChunkPacket(c)) => if t.isComplete then (t, None) else Absorb(t, c)
  }

  function Lookup(cells: map<nat, Tracker>, id: nat): Option<Tracker> {
    if id in cells then Some(cells[id]) else None
  }

  /** The search for `id` asks a tracker that has lost its id before it meets the right one. */
  predicate Blocked(st: FileState, id: nat)
    requires forall x :: x in st.order ==> x in st.cells
  {
    exists i :: 0 <= i < |st.order| && TrackerId(st.cells[st.order[i]]).None? && id !in st.order[..i]
  }

  ghost predicate WellFormed(st: FileState) {
    && (forall x :: x in st.order <==> x in st.cells)
    && (forall i, j :: 0 <= i < j < |st.order| ==> st.order[i] != st.order[j])
  }

  /** One packet. `None` is the program's exit. */
  function Step(st: FileState, p: Packet): (r: Option<FileState>)
    requires WellFormed(st)
    ensures r.Some? ==> WellFormed(r.value)
  {
    if !Accepted(p) then Some(st)
    else
      var id := TransferId(p);
      if Blocked(st, id) then None
      else
        var (t, write) := CellStep(Lookup(st.cells, id), p);
        Some(FileState(
          if id in st.cells then st.order else st.order + [id],
          st.cells[id := t],
          match write case None => st.writes case Some(w) => st.writes + [Write(id, t.header.filename.GetOr(""), w)]))
  }

  lemma {:induction false} StepKnown(st: FileState, p: Packet)
    requires WellFormed(st) && Accepted(p) && TransferId(p) in st.cells && !Blocked(st, TransferId(p))
    ensures var id := TransferId(p); var (t, write) := CellStep(Some(st.cells[id]), p);
            Step(st, p) == Some(FileState(
              st.order, st.cells[id := t],
              if write.None? then st.writes else st.writes + [Write(id, t.header.filename.GetOr(""), write.value)]))
  {
  }

  function Run(ps: seq<Packet>): (r: Option<FileState>)
    ensures r.Some? ==> WellFormed(r.value)
  {
    if ps == [] then Some(START)
    else
      match Run(ps[..|ps| - 1])
      case None => None
      case Some(st) => Step(st, ps[|ps| - 1])
  }

  /** The state the program last had: after the whole run, or, if it exited, just before the exit. */
  function Until(ps: seq<Packet>): (r: FileState)
    ensures WellFormed(r)
  {
    match Run(ps)
    case Some(st) => st
    case None => Until(ps[..|ps| - 1])
  }

  /** That is the state after a prefix of the run; when the program has not exited, after all of it. */
  lemma {:induction false} UntilIsRun(ps: seq<Packet>) returns (n: nat)
    ensures n <= |ps| && Run(ps[..n]) == Some(Until(ps))
    ensures Run(ps).Some? ==> n == |ps|
    ensures forall m :: n < m <= |ps| ==> Run(ps[..m]) == None
  {
    assert ps[..|ps|] == ps;
    if Run(ps).Some? {
      n := |ps|;
    } else {
      var front := ps[..|ps| - 1];
      n := UntilIsRun(front);
      assert front[..n] == ps[..n];
      forall m | n < m <= |ps| ensures Run(ps[..m]) == None {
        if m < |ps| {
          assert front[..m] == ps[..m];
        }
      }
    }
  }

  /** After the exit nothing changes. */
  lemma {:induction false} ExitIsFinal(ps: seq<Packet>, more: seq<Packet>)
    requires Run(ps) == None
    ensures Run(ps + more) == None && Until(ps + more) == Until(ps)
  {
    if more == [] {
      assert ps + more == ps;
    } else {
      ExitIsFinal(ps, more[..|more| - 1]);
      assert (ps + more)[..|ps + more| - 1] == ps + more[..|more| - 1];
    }
  }

  /** The disk after some writes: each replaces the whole file. */
  function DiskOf(writes: seq<Write>): map<string, Bytes> {
    if writes == [] then map[]
    else DiskOf(writes[..|writes| - 1])[writes[|writes| - 1].name := writes[|writes| - 1].contents]
  }

  lemma {:induction false} DiskGrows(writes: seq<Write>, w: Write)
    ensures DiskOf(writes + [w]) == DiskOf(writes)[w.name := w.contents]
  {
    assert (writes + [w])[..|writes|] == writes;
  }

  // ---- What holds of every tracker in every run ----

  ghost predicate TrackerOk(id: nat, t: Tracker) {
    && StrictlySorted(ChunkNum, t.chunks)
    && (forall i :: 0 <= i < |t.chunks| ==> t.chunks[i].id == Some(id))
    && (t.header == NO_HEADER || (t.header.id == Some(id) && t.header.size.Some? && t.header.filename.Some?))
    && (t.isComplete ==> t.chunks == [])
    && (t.chunks == [] ==> t.isComplete || t.header != NO_HEADER)
  }

  ghost predicate AllOk(st: FileState) {
    WellFormed(st) && forall id :: id in st.cells ==> TrackerOk(id, st.cells[id])
  }

  /** A tracker has lost its id exactly when it was completed without a header. */
  lemma {:induction false} LostId(id: nat, t: Tracker)
    requires TrackerOk(id, t)
    ensures TrackerId(t) == if t.isComplete && t.header == NO_HEADER then None else Some(id)
  {
  }

  lemma {:induction false} CellStepOk(id: nat, cell: Option<Tracker>, p: Packet)
    requires Accepted(p) && TransferId(p) == id
    requires cell.Some? ==> TrackerOk(id, cell.value)
    ensures TrackerOk(id, CellStep(cell, p).0)
  {
    if
      && cell.Some? && p.ChunkPacket? && !cell.value.isComplete
      && !Has(ChunkNum, cell.value.chunks, ChunkNum(p.fileChunk))
    {
      var chunks := cell.value.chunks;
      InsertStrictlySorts(ChunkNum, chunks, p.fileChunk);
      InsertContents(ChunkNum, chunks, p.fileChunk);
      var after := Insert(ChunkNum, chunks, p.fileChunk);
      forall i | 0 <= i < |after| ensures after[i].id == Some(id) {
        if after[i] in chunks {
          var k :| 0 <= k < |chunks| && chunks[k] == after[i];
        }
      }
    }
  }

  lemma {:induction false} StepOk(st: FileState, p: Packet)
    requires AllOk(st)
    ensures Step(st, p).Some? ==> AllOk(Step(st, p).value)
  {
    if Accepted(p) {
      CellStepOk(TransferId(p), Lookup(st.cells, TransferId(p)), p);
    }
  }

  lemma {:induction false} RunOk(ps: seq<Packet>)
    ensures Run(ps).Some? ==> AllOk(Run(ps).value)
  {
    if ps != [] && Run(ps[..|ps| - 1]).Some? {
      RunOk(ps[..|ps| - 1]);
      StepOk(Run(ps[..|ps| - 1]).value, ps[|ps| - 1]);
    }
  }

  // ---- Transfers do not interfere ----

  predicate About(p: Packet, id: nat) {
    Accepted(p) && TransferId(p) == id
  }

  function Only(ps: seq<Packet>, id: nat): seq<Packet> {
    if ps == [] then []
    else Only(ps[..|ps| - 1], id) + if About(ps[|ps| - 1], id) then [ps[|ps| - 1]] else []
  }

  function WritesOf(writes: seq<Write>, id: nat): seq<Write> {
    if writes == [] then []
    else WritesOf(writes[..|writes| - 1], id) + if writes[|writes| - 1].id == id then [writes[|writes| - 1]] else []
  }

  /** `mine` is the part of `st` that concerns transfer `id`. */
  ghost predicate PartOf(mine: FileState, st: FileState, id: nat) {
    && Lookup(mine.cells, id) == Lookup(st.cells, id)
    && mine.writes == WritesOf(st.writes, id)
    && mine.order == if id in st.cells then [id] else []
  }

  lemma {:induction false} OnlyGrows(ps: seq<Packet>, id: nat)
    requires ps != []
    ensures var front, p := ps[..|ps| - 1], ps[|ps| - 1];
            if About(p, id) then Only(ps, id) != [] && Only(ps, id)[|Only(ps, id)| - 1] == p
                                 && Only(ps, id)[..|Only(ps, id)| - 1] == Only(front, id)
            else Only(ps, id) == Only(front, id)
  {
  }

  /** In a run that has not exited, a transfer's tracker and writes are those of its own packets alone. */
  lemma {:induction false} TransfersAreIndependent(ps: seq<Packet>, id: nat)
    requires Run(ps).Some?
    ensures Run(Only(ps, id)).Some? && PartOf(Run(Only(ps, id)).value, Run(ps).value, id)
  {
    if ps != [] {
      var front, p := ps[..|ps| - 1], ps[|ps| - 1];
      TransfersAreIndependent(front, id);
      OnlyGrows(ps, id);
      NextStep(Run(front).value, Run(Only(front, id)).value, p, id);
    }
  }

  lemma {:induction false} NextStep(st: FileState, mine: FileState, p: Packet, id: nat)
    requires WellFormed(st) && WellFormed(mine) && PartOf(mine, st, id) && Step(st, p).Some?
    ensures var next := if About(p, id) then Step(mine, p) else Some(mine);
            next.Some? && PartOf(next.value, Step(st, p).value, id)
  {
    if About(p, id) {
      OwnStep(st, mine, p, id);
    } else {
      ForeignStep(st, mine, p, id);
    }
  }

  lemma {:induction false} WritesOfSnoc(writes: seq<Write>, w: Write, id: nat)
    ensures WritesOf(writes + [w], id) == WritesOf(writes, id) + if w.id == id then [w] else []
  {
    assert (writes + [w])[..|writes|] == writes;
  }

  lemma {:induction false} OwnStep(st: FileState, mine: FileState, p: Packet, id: nat)
    requires WellFormed(st) && WellFormed(mine) && PartOf(mine, st, id) && About(p, id) && Step(st, p).Some?
    ensures Step(mine, p).Some? && PartOf(Step(mine, p).value, Step(st, p).value, id)
  {
    OwnBlock(st, mine, id);
    var (t, write) := CellStep(Lookup(st.cells, id), p);
    if write.Some? {
      WritesOfSnoc(st.writes, Write(id, t.header.filename.GetOr(""), write.value), id);
    }
  }

  lemma {:induction false} ForeignStep(st: FileState, mine: FileState, p: Packet, id: nat)
    requires WellFormed(st) && PartOf(mine, st, id) && !About(p, id) && Step(st, p).Some?
    ensures PartOf(mine, Step(st, p).value, id)
  {
    if Accepted(p) {
      var (t, write) := CellStep(Lookup(st.cells, TransferId(p)), p);
      if write.Some? {
        WritesOfSnoc(st.writes, Write(TransferId(p), t.header.filename.GetOr(""), write.value), id);
        assert WritesOf(st.writes, id) + [] == WritesOf(st.writes, id);
      }
    }
  }

  lemma {:induction false} OwnBlock(st: FileState, mine: FileState, id: nat)
    requires WellFormed(st) && WellFormed(mine)
    requires Lookup(mine.cells, id) == Lookup(st.cells, id)
    requires mine.order == if id in st.cells then [id] else []
    ensures Blocked(mine, id) ==> Blocked(st, id)
  {
    if Blocked(mine, id) {
      assert mine.order == [id] && mine.order[..0] == [];
      var i :| 0 <= i < |st.order| && st.order[i] == id;
      assert id !in st.order[..i];
    }
  }

  /** A completed transfer is left alone: its tracker stays as it is and nothing is written for it again. */
  lemma {:induction false} CompletedStays(ps: seq<Packet>, n: nat, id: nat)
    requires n <= |ps| && Run(ps).Some?
    ensures Run(ps[..n]).Some?
    ensures var st := Run(ps[..n]).value;
            id in st.cells && st.cells[id].isComplete ==>
            && Lookup(Run(ps).value.cells, id) == Some(st.cells[id])
            && WritesOf(Run(ps).value.writes, id) == WritesOf(st.writes, id)
  {
    if n == |ps| {
      assert ps[..n] == ps;
    } else {
      var front, p := ps[..|ps| - 1], ps[|ps| - 1];
      assert ps[..n] == front[..n];
      CompletedStays(front, n, id);
      var before := Run(front).value;
      if id in before.cells && before.cells[id].isComplete {
        CompletedStep(before, p, id);
      }
    }
  }

  lemma {:induction false} CompletedStep(st: FileState, p: Packet, id: nat)
    requires WellFormed(st) && Step(st, p).Some? && id in st.cells && st.cells[id].isComplete
    ensures Lookup(Step(st, p).value.cells, id) == Some(st.cells[id])
    ensures WritesOf(Step(st, p).value.writes, id) == WritesOf(st.writes, id)
  {
    if Accepted(p) && TransferId(p) != id {
      var (t, write) := CellStep(Lookup(st.cells, TransferId(p)), p);
      if write.Some? {
        WritesOfSnoc(st.writes, Write(TransferId(p), t.header.filename.GetOr(""), write.value), id);
        assert WritesOf(st.writes, id) + [] == WritesOf(st.writes, id);
      }
    }
  }

  // ---- Header first ----

  /** Every chunk comes after a header of its transfer. */
  ghost predicate HeaderFirst(ps: seq<Packet>) {
    forall t :: 0 <= t < |ps| && Accepted(ps[t]) && ps[t].ChunkPacket? ==>
      exists s :: 0 <= s < t && Accepted(ps[s]) && ps[s].HeaderPacket? && TransferId(ps[s]) == TransferId(ps[t])
  }

  lemma {:induction false} HeaderFirstFront(ps: seq<Packet>)
    requires HeaderFirst(ps) && ps != []
    ensures HeaderFirst(ps[..|ps| - 1])
  {
    var front := ps[..|ps| - 1];
    forall t | 0 <= t < |front| && Accepted(front[t]) && front[t].ChunkPacket?
      ensures exists s ::
                && 0 <= s < t && Accepted(front[s]) && front[s].HeaderPacket?
                && TransferId(front[s]) == TransferId(front[t])
    {
      assert ps[t] == front[t];
      var s :| 0 <= s < t && Accepted(ps[s]) && ps[s].HeaderPacket? && TransferId(ps[s]) == TransferId(ps[t]);
      assert front[s] == ps[s];
    }
  }

  /** No tracker can lose its id: each has a header. */
  ghost predicate AllHeaded(st: FileState) {
    forall id :: id in st.cells ==> st.cells[id].header.id.Some?
  }

  lemma {:induction false} HeadedStep(st: FileState, p: Packet)
    requires WellFormed(st) && AllHeaded(st)
    requires Accepted(p) && p.ChunkPacket? ==> TransferId(p) in st.cells
    ensures Step(st, p).Some? && AllHeaded(Step(st, p).value)
    ensures forall id :: id in st.cells || (Accepted(p) && id == TransferId(p)) ==> id in Step(st, p).value.cells
  {
    assert !Blocked(st, TransferId(p));
  }

  lemma {:induction false} KnownAfter(ps: seq<Packet>, s: nat)
    requires Run(ps).Some? && s < |ps| && Accepted(ps[s])
    ensures TransferId(ps[s]) in Run(ps).value.cells
  {
    if s < |ps| - 1 {
      KnownAfter(ps[..|ps| - 1], s);
    }
  }

  /** Then the program never exits, whatever the packets say. */
  lemma {:induction false} HeaderFirstNeverExits(ps: seq<Packet>)
    requires HeaderFirst(ps)
    ensures Run(ps).Some? && AllHeaded(Run(ps).value)
  {
    if ps != [] {
      var front, p := ps[..|ps| - 1], ps[|ps| - 1];
      HeaderFirstFront(ps);
      HeaderFirstNeverExits(front);
      if Accepted(p) && p.ChunkPacket? {
        var s :| && 0 <= s < |front| && Accepted(ps[s]) && ps[s].HeaderPacket?
                 && TransferId(ps[s]) == TransferId(ps[|front|]);
        KnownAfter(front, s);
      }
      HeadedStep(Run(front).value, p);
    }
  }
}

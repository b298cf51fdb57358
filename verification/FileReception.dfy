/** The file receiver as the program has it: a vector of trackers, searched and updated in place, and a disk. */
module FileReception {
  import opened Basics
  import opened Numbered
  import opened Proto
  import opened FileAssembly

  /** `Exit` is the fatal "invalid FileChunks tracker". */
  datatype Search = Found(index: nat) | Absent | Exit

  /** The trackers in the order they were made. */
  ghost function VectorOf(st: FileState): (r: seq<Tracker>)
    requires WellFormed(st)
    ensures |r| == |st.order| && forall i :: 0 <= i < |r| ==> r[i] == st.cells[st.order[i]]
  {
    seq(|st.order|, i requires 0 <= i < |st.order| => st.cells[st.order[i]])
  }

  /** The vector holds the trackers of `st`; the disk holds what was written. */
  ghost predicate Agrees(trackers: seq<Tracker>, disk: map<string, Bytes>, st: FileState) {
    AllOk(st) && trackers == VectorOf(st) && disk == DiskOf(st.writes)
  }

  /** The disk follows the writes. */
  lemma {:induction false} DiskFollows(st: FileState, p: Packet, t: Tracker, write: Option<Bytes>)
    requires WellFormed(st) && Accepted(p) && TransferId(p) in st.cells && !Blocked(st, TransferId(p))
    requires (t, write) == CellStep(Some(st.cells[TransferId(p)]), p)
    ensures Step(st, p).Some?
    ensures Step(st, p).value.order == st.order && Step(st, p).value.cells == st.cells[TransferId(p) := t]
    ensures var name := t.header.filename.GetOr("");
            DiskOf(Step(st, p).value.writes) ==
            if write.None? then DiskOf(st.writes) else DiskOf(st.writes)[name := write.value]
    ensures write.None? ==> Step(st, p).value.writes == st.writes
  {
    StepKnown(st, p);
    if write.Some? {
      DiskGrows(st.writes, Write(TransferId(p), t.header.filename.GetOr(""), write.value));
    }
  }

  lemma {:induction false} VectorMoved(st: FileState, next: FileState, i: nat, t: Tracker)
    requires WellFormed(st) && WellFormed(next) && i < |st.order|
    requires next.order == st.order && next.cells == st.cells[st.order[i] := t]
    ensures VectorOf(next) == VectorOf(st)[i := t]
  {
  }

  lemma {:induction false} AgreesIs(disk: map<string, Bytes>, st: FileState)
    requires AllOk(st) && disk == DiskOf(st.writes)
    ensures Agrees(VectorOf(st), disk, st)
  {
  }

  /** A packet for the tracker at `i`, which becomes `t`. */
  lemma {:induction false} Updated(trackers: seq<Tracker>, disk: map<string, Bytes>, st: FileState, p: Packet, i: nat,
                                   t: Tracker, write: Option<Bytes>)
    requires Agrees(trackers, disk, st) && i < |trackers|
    requires Accepted(p) && TransferId(p) == st.order[i] && !Blocked(st, TransferId(p))
    requires (t, write) == CellStep(Some(trackers[i]), p)
    ensures Step(st, p).Some?
    ensures Agrees(trackers[i := t],
                   if write.None? then disk else disk[t.header.filename.GetOr("") := write.value],
                   Step(st, p).value)
  {
    StepOk(st, p);
    DiskFollows(st, p, t, write);
    VectorMoved(st, Step(st, p).value, i, t);
    AgreesIs(if write.None? then disk else disk[t.header.filename.GetOr("") := write.value], Step(st, p).value);
  }

  /** A packet that leaves the tracker at `i` as it is. */
  lemma {:induction false} Unmoved(trackers: seq<Tracker>, disk: map<string, Bytes>, st: FileState, p: Packet, i: nat)
    requires Agrees(trackers, disk, st) && i < |trackers|
    requires Accepted(p) && TransferId(p) == st.order[i] && !Blocked(st, TransferId(p))
    requires CellStep(Some(trackers[i]), p) == (trackers[i], None)
    ensures Step(st, p) == Some(st)
  {
    DiskFollows(st, p, trackers[i], None);
    assert st.cells[TransferId(p) := trackers[i]] == st.cells;
  }

  /** The same for a chunk, on a tracker that is not complete. */
  lemma {:induction false} ChunkUpdated(trackers: seq<Tracker>, disk: map<string, Bytes>, st: FileState,
                                        chunk: FileTransferChunk, i: nat, t: Tracker, write: Option<Bytes>)
    requires Agrees(trackers, disk, st) && i < |trackers| && !trackers[i].isComplete
    requires var p := ChunkPacket(chunk); Accepted(p) && TransferId(p) == st.order[i] && !Blocked(st, TransferId(p))
    requires (t, write) == Absorb(trackers[i], chunk)
    ensures write.Some? ==> t.header.filename.Some?
    ensures Step(st, ChunkPacket(chunk)).Some?
    ensures Agrees(trackers[i := t], if write.None? then disk else disk[t.header.filename.value := write.value],
                   Step(st, ChunkPacket(chunk)).value)
  {
    assert CellStep(Some(trackers[i]), ChunkPacket(chunk)) == (t, write);
    Updated(trackers, disk, st, ChunkPacket(chunk), i, t, write);
  }

  lemma {:induction false} VectorGrows(st: FileState, next: FileState, id: nat, t: Tracker)
    requires WellFormed(st) && WellFormed(next) && id !in st.cells
    requires next.order == st.order + [id] && next.cells == st.cells[id := t]
    ensures VectorOf(next) == VectorOf(st) + [t]
  {
  }

  /** The first packet of a transfer. */
  lemma {:induction false} Added(trackers: seq<Tracker>, disk: map<string, Bytes>, st: FileState, p: Packet)
    requires Agrees(trackers, disk, st)
    requires Accepted(p) && TransferId(p) !in st.cells && !Blocked(st, TransferId(p))
    ensures Step(st, p).Some?
    ensures Agrees(trackers + [CellStep(None, p).0], disk, Step(st, p).value)
  {
    StepOk(st, p);
    VectorGrows(st, Step(st, p).value, TransferId(p), CellStep(None, p).0);
  }

  /** The loop that glues chunks 1, 2, 3, ... together and stops at the first gap; its counter is 32 bits wide. */
  method GatherContents(chunks: seq<FileTransferChunk>) returns (contents: Bytes)
    requires StrictlySorted(ChunkNum, chunks)
    ensures contents == Contents(chunks)
  {
    var chunkId: U32 := 1;
    contents := [];
    var i := 0;
    while i < |chunks|
      invariant 0 <= i <= |chunks|
      invariant forall j :: 0 <= j < i ==> ChunkNum(chunks[j]) == j + 1
      invariant chunkId == Ordinal(i)
      invariant contents == JoinBy(ChunkBytes, chunks[..i])
    {
      var expected := chunkId;
      assert i > 0 ==> ChunkNum(chunks[i]) > ChunkNum(chunks[i - 1]);
      OrdinalIs(i);
      assert expected == i + 1;
      chunkId := Inc(chunkId);
      if ChunkNum(chunks[i]) != expected {
        break;
      }
      contents := contents + ChunkBytes(chunks[i]);
      assert chunks[..i + 1][..i] == chunks[..i];
      i := i + 1;
    }
    assert Leading(chunks) == i;
  }

  /** A chunk for a tracker that is not complete: the tracker afterwards and the new file contents, if any. */
  method AbsorbChunk(t: Tracker, chunk: FileTransferChunk) returns (after: Tracker, write: Option<Bytes>)
    requires StrictlySorted(ChunkNum, t.chunks)
    ensures (after, write) == Absorb(t, chunk)
  {
    for k := 0 to |t.chunks|
      invariant forall j :: 0 <= j < k ==> ChunkNum(t.chunks[j]) != ChunkNum(chunk)
    {
      if ChunkNum(t.chunks[k]) == ChunkNum(chunk) {
        assert Has(ChunkNum, t.chunks, ChunkNum(chunk));
        return t, None;
      }
    }
    SortAfterAppend(ChunkNum, t.chunks, chunk);
    InsertStrictlySorts(ChunkNum, t.chunks, chunk);
    var chunks := Sort(ChunkNum, t.chunks + [chunk]);
    var contents := GatherContents(chunks);
    write := None;
    if contents != [] {
      if t.header.filename.Some? {
        write := Some(contents);
      }
    }
    if |contents| == t.header.size.GetOr(0) {
      after := Tracker(t.header, [], true);
    } else {
      after := Tracker(t.header, chunks, false);
    }
  }

  class FileReceiver {
    var trackers: seq<Tracker>
    var disk: map<string, Bytes>
    ghost var state: FileState

    ghost predicate Valid()
      reads this
    {
      Agrees(trackers, disk, state)
    }

    constructor ()
      ensures Valid() && state == START
    {
      trackers, disk := [], map[];
      state := START;
    }

    method GetFileChunksForId(id: nat) returns (r: Search)
      requires Valid()
      ensures r.Exit? <==> Blocked(state, id)
      ensures r.Absent? ==> id !in state.cells
      ensures r.Found? ==> r.index < |trackers| && state.order[r.index] == id
    {
      for i := 0 to |trackers|
        invariant id !in state.order[..i]
        invariant forall j :: 0 <= j < i ==> TrackerId(trackers[j]).Some?
      {
        assert TrackerOk(state.order[i], trackers[i]);
        LostId(state.order[i], trackers[i]);
        if TrackerId(trackers[i]).None? {
          return Exit;
        }
        if TrackerId(trackers[i]).value == id {
          NotBlockedBy(id, i);
          return Found(i);
        }
      }
      assert state.order[..|trackers|] == state.order;
      return Absent;
    }

    lemma {:induction false} NotBlockedBy(id: nat, i: nat)
      requires Valid() && i < |trackers| && state.order[i] == id
      requires forall j :: 0 <= j <= i ==> TrackerId(trackers[j]).Some?
      ensures !Blocked(state, id)
    {
      assert forall j :: i < j < |state.order| ==> state.order[..j][i] == id;
    }

    /** Handles a header; false means the program exits. */
    method HandleTransferHeader(header: FileTransferHeader) returns (running: bool)
      requires Valid()
      modifies this
      ensures Valid()
      ensures var next := Step(old(state), HeaderPacket(header));
              running == next.Some? && state == if running then next.value else old(state)
    {
      if header.id.None? || header.size.None? || header.filename.None? {
        return true;
      }
      var id: nat := header.id.value;
      var search := GetFileChunksForId(id);
      if search.Exit? {
        return false;
      }
      ghost var st := state;
      if search.Absent? {
        Added(trackers, disk, st, HeaderPacket(header));
        trackers := trackers + [Tracker(header, [], false)];
      } else {
        var i := search.index;
        if trackers[i].isComplete {
          Unmoved(trackers, disk, st, HeaderPacket(header), i);
          return true;
        }
        Updated(trackers, disk, st, HeaderPacket(header), i, trackers[i].(header := header), None);
        trackers := trackers[i := trackers[i].(header := header)];
      }
      state := Step(st, HeaderPacket(header)).value;
      return true;
    }

    /** Handles a chunk: at most one write, of the gapless prefix; false means the program exits. */
    method HandleTransferChunk(chunk: FileTransferChunk) returns (running: bool)
      requires Valid()
      modifies this
      ensures Valid()
      ensures var next := Step(old(state), ChunkPacket(chunk));
              running == next.Some? && state == if running then next.value else old(state)
    {
      if chunk.id.None? || chunk.chunkId.None? || chunk.chunk.None? {
        return true;
      }
      var id: nat := chunk.id.value;
      var search := GetFileChunksForId(id);
      if search.Exit? {
        return false;
      }
      ghost var st := state;
      if search.Absent? {
        Added(trackers, disk, st, ChunkPacket(chunk));
        trackers := trackers + [Tracker(NO_HEADER, [chunk], false)];
      } else {
        var i := search.index;
        if trackers[i].isComplete {
          Unmoved(trackers, disk, st, ChunkPacket(chunk), i);
          return true;
        }
        assert TrackerOk(st.order[i], trackers[i]);
        var t, contents := AbsorbChunk(trackers[i], chunk);
        ChunkUpdated(trackers, disk, st, chunk, i, t, contents);
        trackers := trackers[i := t];
        if contents.Some? {
          disk := disk[t.header.filename.value := contents.value];
        }
      }
      state := Step(st, ChunkPacket(chunk)).value;
      return true;
    }
  }
}

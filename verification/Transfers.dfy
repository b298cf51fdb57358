/** One file transfer: what its sender makes of the file, and what the file layer makes of its packets in any order. */
module Transfers {
  import opened Basics
  import opened Numbered
  import opened Cutting
  import opened Proto
  import opened FileAssembly

  /** A file to send. `maxChunk` 0 means the file is not chunked. */
  datatype Transfer = Transfer(name: string, data: Bytes, maxChunk: nat)

  ghost predicate Valid(tr: Transfer) {
    |tr.data| < WORD
  }

  function PieceSize(tr: Transfer): nat {
    if tr.maxChunk == 0 then |tr.data| else tr.maxChunk
  }

  function Pieces(tr: Transfer): seq<Bytes> {
    if tr.data == [] then [] else Cut(tr.data, PieceSize(tr))
  }

  function Header(id: U32, tr: Transfer): FileTransferHeader {
    FileTransferHeader(Some(tr.name), Some(Wrap(|tr.data|)), Some(id))
  }

  /** Pieces as chunks numbered from 1; the number is 32 bits wide. */
  function Number(id: U32, pieces: seq<Bytes>): (r: seq<FileTransferChunk>)
    ensures |r| == |pieces|
    ensures forall i :: 0 <= i < |r| ==> r[i] == FileTransferChunk(Some(id), Some(Ordinal(i)), Some(pieces[i]))
  {
    seq(|pieces|, i requires 0 <= i < |pieces| => FileTransferChunk(Some(id), Some(Ordinal(i)), Some(pieces[i])))
  }

  lemma {:induction false} NumberGrows(id: U32, pieces: seq<Bytes>, piece: Bytes)
    ensures Number(id, pieces + [piece]) ==
            Number(id, pieces) + [FileTransferChunk(Some(id), Some(Ordinal(|pieces|)), Some(piece))]
  {
  }

  function Chunks(id: U32, tr: Transfer): (r: seq<FileTransferChunk>)
    ensures |r| == |Pieces(tr)|
  {
    Number(id, Pieces(tr))
  }

  ghost predicate HonestPacket(id: U32, tr: Transfer, p: Packet) {
    match p
    case HeaderPacket(h) => h == Header(id, tr)
    case ChunkPacket(c) => 1 <= ChunkNum(c) <= |Chunks(id, tr)| && c == Chunks(id, tr)[ChunkNum(c) - 1]
    case EmptyPacket => false
  }

  ghost predicate AllHonest(id: U32, tr: Transfer, ps: seq<Packet>) {
    forall i :: 0 <= i < |ps| ==> HonestPacket(id, tr, ps[i])
  }

  lemma {:induction false} ChunksShape(id: U32, tr: Transfer)
    requires Valid(tr)
    ensures Enumerated(ChunkNum, Chunks(id, tr))
    ensures JoinBy(ChunkBytes, Chunks(id, tr)) == tr.data
    ensures forall i :: 0 <= i < |Chunks(id, tr)| ==> ChunkBytes(Chunks(id, tr)[i]) != []
    ensures tr.data != [] <==> Chunks(id, tr) != []
  {
    if tr.data != [] {
      CutIsEven(tr.data, PieceSize(tr));
      CutJoins(tr.data, PieceSize(tr));
      assert |Chunks(id, tr)| < WORD;
      forall i | 0 <= i < |Chunks(id, tr)| ensures ChunkNum(Chunks(id, tr)[i]) == i + 1 {
        OrdinalIs(i);
      }
      JoinSame(ChunkBytes, Chunks(id, tr), Itself, Pieces(tr));
    }
  }

  lemma {:induction false} HonestChunk(id: U32, tr: Transfer, k: nat)
    requires Valid(tr) && 1 <= k <= |Chunks(id, tr)|
    ensures ChunkNum(Chunks(id, tr)[k - 1]) == k && HonestPacket(id, tr, ChunkPacket(Chunks(id, tr)[k - 1]))
  {
    ChunksShape(id, tr);
    var chunks := Chunks(id, tr);
    assert ChunkNum(chunks[k - 1]) == k;
  }

  lemma {:induction false} ChunkIs(id: U32, tr: Transfer, p: Packet)
    requires HonestPacket(id, tr, p) && p.ChunkPacket?
    ensures var k := ChunkNum(p.fileChunk); 1 <= k <= |Chunks(id, tr)| && p == ChunkPacket(Chunks(id, tr)[k - 1])
  {
  }

  // ---- What has arrived ----

  ghost function Have(ps: seq<Packet>): set<nat> {
    set i | 0 <= i < |ps| && ps[i].ChunkPacket? :: ChunkNum(ps[i].fileChunk)
  }

  ghost predicate HeaderSeen(ps: seq<Packet>) {
    exists i :: 0 <= i < |ps| && ps[i].HeaderPacket?
  }

  ghost predicate TwoOrMore(have: set<nat>) {
    exists a, b :: a in have && b in have && a != b
  }

  /** Two different chunks, neither of them the first, and no header. */
  ghost predicate Premature(ps: seq<Packet>) {
    !HeaderSeen(ps) && TwoOrMore(Have(ps)) && 1 !in Have(ps)
  }

  /** At some moment so far the arrivals were premature: the tracker lost its id. */
  ghost predicate Doomed(ps: seq<Packet>) {
    exists q :: 0 <= q <= |ps| && Premature(ps[..q])
  }

  /** The header came before the chunk that made the set of chunks complete. */
  ghost predicate Completes(n: nat, ps: seq<Packet>) {
    exists t :: 0 <= t < |ps| && CompletesAt(n, ps, t)
  }

  ghost predicate CompletesAt(n: nat, ps: seq<Packet>, t: nat)
    requires t < |ps|
  {
    HeaderSeen(ps[..t]) && !Full(n, Have(ps[..t])) && Full(n, Have(ps[..t + 1]))
  }

  lemma {:induction false} HaveGrows(ps: seq<Packet>)
    requires ps != []
    ensures var front, last := ps[..|ps| - 1], ps[|ps| - 1];
            && Have(ps) == (if last.ChunkPacket? then Have(front) + {ChunkNum(last.fileChunk)} else Have(front))
            && (HeaderSeen(ps) <==> HeaderSeen(front) || last.HeaderPacket?)
  {
    var front, last := ps[..|ps| - 1], ps[|ps| - 1];
    forall x | x in Have(front) ensures x in Have(ps) {
      var i :| 0 <= i < |front| && front[i].ChunkPacket? && ChunkNum(front[i].fileChunk) == x;
      assert ps[i].ChunkPacket? && ChunkNum(ps[i].fileChunk) == x;
    }
    if last.ChunkPacket? {
      assert ChunkNum(ps[|ps| - 1].fileChunk) in Have(ps);
    }
    if HeaderSeen(front) {
      var i :| 0 <= i < |front| && front[i].HeaderPacket?;
      assert ps[i].HeaderPacket?;
    }
  }

  lemma {:induction false} DoomedGrows(ps: seq<Packet>)
    requires ps != []
    ensures Doomed(ps) <==> Doomed(ps[..|ps| - 1]) || Premature(ps)
  {
    var front := ps[..|ps| - 1];
    if Doomed(front) {
      var q :| 0 <= q <= |front| && Premature(front[..q]);
      assert front[..q] == ps[..q];
    }
    if Premature(ps) {
      assert ps[..|ps|] == ps;
    }
    if Doomed(ps) {
      var q :| 0 <= q <= |ps| && Premature(ps[..q]);
      if q < |ps| {
        assert front[..q] == ps[..q];
      } else {
        assert ps[..q] == ps;
      }
    }
  }

  lemma {:induction false} CompletesGrows(n: nat, ps: seq<Packet>)
    requires ps != []
    ensures var front := ps[..|ps| - 1];
            Completes(n, ps) <==>
            Completes(n, front) || (HeaderSeen(front) && !Full(n, Have(front)) && Full(n, Have(ps)))
  {
    var front := ps[..|ps| - 1];
    assert ps[..|ps| - 1 + 1] == ps;
    if Completes(n, front) {
      var t :| 0 <= t < |front| && CompletesAt(n, front, t);
      assert front[..t] == ps[..t] && front[..t + 1] == ps[..t + 1];
      assert CompletesAt(n, ps, t);
    }
    if HeaderSeen(front) && !Full(n, Have(front)) && Full(n, Have(ps)) {
      assert CompletesAt(n, ps, |ps| - 1);
    }
    if Completes(n, ps) {
      var t :| 0 <= t < |ps| && CompletesAt(n, ps, t);
      if t < |front| {
        assert front[..t] == ps[..t] && front[..t + 1] == ps[..t + 1];
        assert CompletesAt(n, front, t);
      }
    }
  }

  // ---- The gapless part of a set of chunks ----

  /** The largest j <= n such that 1, ..., j are all in `have`. */
  ghost function Lead(n: nat, have: set<nat>): (j: nat)
    ensures j <= n && Full(j, have)
    ensures j < n ==> j + 1 !in have
  {
    if n == 0 then 0
    else
      var j := Lead(n - 1, have);
      if j == n - 1 && n in have then n else j
  }

  /** The bytes of the file known without a gap from its start. */
  ghost function Prefix(id: U32, tr: Transfer, have: set<nat>): Bytes {
    JoinBy(ChunkBytes, Chunks(id, tr)[..Lead(|Chunks(id, tr)|, have)])
  }

  lemma {:induction false} LeadingIs(held: seq<FileTransferChunk>, all: seq<FileTransferChunk>, j: nat)
    requires Enumerated(ChunkNum, all) && j <= |all| && j <= |held| && held[..j] == all[..j]
    requires j < |held| ==> ChunkNum(held[j]) != j + 1
    ensures Leading(held) == j
  {
    forall i | 0 <= i < j ensures ChunkNum(held[i]) == i + 1 {
      assert held[i] == held[..j][i] == all[..j][i];
    }
  }

  lemma {:induction false} HeldContents(id: U32, tr: Transfer, have: set<nat>)
    requires Valid(tr)
    ensures Contents(Held(Chunks(id, tr), have)) == Prefix(id, tr, have)
  {
    var all := Chunks(id, tr);
    var held := Held(all, have);
    var j := Lead(|all|, have);
    ChunksShape(id, tr);
    HeldPrefix(all, have, j);
    HeldPieces(ChunkNum, all, have);
    assert j < |held| ==> HeldPiece(ChunkNum, all, have, held[j]);
    LeadingIs(held, all, j);
  }

  /** A prefix of the file; empty without chunk 1; the whole file exactly when no chunk is missing. */
  lemma {:induction false} PrefixShape(id: U32, tr: Transfer, have: set<nat>)
    requires Valid(tr)
    ensures Prefix(id, tr, have) <= tr.data
    ensures tr.data != [] ==> (Prefix(id, tr, have) == [] <==> 1 !in have)
    ensures |Prefix(id, tr, have)| == |tr.data| <==> Full(|Chunks(id, tr)|, have)
    ensures Full(|Chunks(id, tr)|, have) ==> Prefix(id, tr, have) == tr.data
  {
    var all := Chunks(id, tr);
    var j := Lead(|all|, have);
    ChunksShape(id, tr);
    PrefixSplit(all, j);
    if j == |all| {
      assert all[..j] == all;
    } else {
      JoinNonempty(all[j..]);
    }
    if j > 0 {
      JoinNonempty(all[..j]);
    }
  }

  lemma {:induction false} PrefixSplit(chunks: seq<FileTransferChunk>, j: nat)
    requires j <= |chunks|
    ensures JoinBy(ChunkBytes, chunks) == JoinBy(ChunkBytes, chunks[..j]) + JoinBy(ChunkBytes, chunks[j..])
  {
    var first, rest := chunks[..j], chunks[j..];
    SplitAt(chunks, j);
    JoinConcat(ChunkBytes, first, rest);
  }

  lemma {:induction false} JoinNonempty(chunks: seq<FileTransferChunk>)
    requires chunks != [] && ChunkBytes(chunks[|chunks| - 1]) != []
    ensures JoinBy(ChunkBytes, chunks) != []
  {
  }

  lemma {:induction false} LeadGrows(n: nat, a: set<nat>, b: set<nat>)
    requires a <= b
    ensures Lead(n, a) <= Lead(n, b)
  {
    assert Full(Lead(n, a), b);
  }

  lemma {:induction false} PrefixGrows(id: U32, tr: Transfer, a: set<nat>, b: set<nat>)
    requires a <= b
    ensures Prefix(id, tr, a) <= Prefix(id, tr, b)
  {
    var all := Chunks(id, tr);
    LeadGrows(|all|, a, b);
    var i, j := Lead(|all|, a), Lead(|all|, b);
    assert all[..j] == all[..i] + all[i..j];
    JoinConcat(ChunkBytes, all[..i], all[i..j]);
  }

  // ---- The whole behaviour of the file layer on one transfer, in closed form ----

  /**
   What has arrived of a transfer, as far as the file layer can tell: whether anything did, whether the tracker
   lost its id, whether a header did, whether the set of chunks filled up after it, and which chunks did.
   */
  datatype History = History(any: bool, lost: bool, headed: bool, done: bool, have: set<nat>)

  ghost function HistoryOf(n: nat, ps: seq<Packet>): History {
    History(ps != [], Doomed(ps), HeaderSeen(ps), Completes(n, ps), Have(ps))
  }

  /** The tracker, as a function of that. */
  ghost function CellFor(id: U32, tr: Transfer, s: History): Option<Tracker> {
    var all := Chunks(id, tr);
    if !s.any then None
    else if s.lost then Some(Tracker(NO_HEADER, [], true))
    else if !s.headed then Some(Tracker(NO_HEADER, Held(all, s.have), false))
    else if s.done then Some(Tracker(Header(id, tr), [], true))
    else Some(Tracker(Header(id, tr), Held(all, s.have), false))
  }

  ghost function CellAfter(id: U32, tr: Transfer, ps: seq<Packet>): Option<Tracker> {
    CellFor(id, tr, HistoryOf(|Chunks(id, tr)|, ps))
  }

  /** A new chunk after the header writes the gapless prefix, if there is one. */
  ghost function LastWrite(id: U32, tr: Transfer, ps: seq<Packet>): Option<Bytes>
    requires ps != []
  {
    var front, last := ps[..|ps| - 1], ps[|ps| - 1];
    if last.ChunkPacket? && ChunkNum(last.fileChunk) !in Have(front) && HeaderSeen(front) && 1 in Have(ps)
    then Some(Prefix(id, tr, Have(ps))) else None
  }

  ghost function WritesAfter(id: U32, tr: Transfer, ps: seq<Packet>): seq<Write> {
    if ps == [] then []
    else
      match LastWrite(id, tr, ps)
      case None => WritesAfter(id, tr, ps[..|ps| - 1])
      case Some(w) => WritesAfter(id, tr, ps[..|ps| - 1]) + [Write(id, tr.name, w)]
  }

  /** A file layer that has heard of at most one transfer. */
  ghost function Alone(id: nat, cell: Option<Tracker>, writes: seq<Write>): FileState {
    if cell.None? then FileState([], map[], writes) else FileState([id], map[id := cell.value], writes)
  }

  ghost function StateAfter(id: U32, tr: Transfer, ps: seq<Packet>): FileState {
    Alone(id, CellAfter(id, tr, ps), WritesAfter(id, tr, ps))
  }

  lemma {:induction false} AbsorbFresh(id: U32, tr: Transfer, header: FileTransferHeader, have: set<nat>, k: nat)
    requires Valid(tr) && 1 <= k <= |Chunks(id, tr)| && k !in have
    ensures var all := Chunks(id, tr); var known := Prefix(id, tr, have + {k});
            Absorb(Tracker(header, Held(all, have), false), all[k - 1]) ==
            (if |known| == header.size.GetOr(0) then Tracker(header, [], true)
             else Tracker(header, Held(all, have + {k}), false),
             if known != [] && header.filename.Some? then Some(known) else None)
  {
    ChunksShape(id, tr);
    HeldHas(ChunkNum, Chunks(id, tr), have, k);
    HeldInsert(ChunkNum, Chunks(id, tr), have, k);
    HeldContents(id, tr, have + {k});
  }

  /** Without a header a chunk is never written, and without chunk 1 a second chunk passes for the last. */
  lemma {:induction false} AbsorbEarly(id: U32, tr: Transfer, have: set<nat>, k: nat)
    requires Valid(tr) && 1 <= k <= |Chunks(id, tr)| && k !in have
    ensures var all := Chunks(id, tr); var more := have + {k};
            Absorb(Tracker(NO_HEADER, Held(all, have), false), all[k - 1]) ==
            (if 1 in more then Tracker(NO_HEADER, Held(all, more), false) else Tracker(NO_HEADER, [], true), None)
  {
    AbsorbFresh(id, tr, NO_HEADER, have, k);
    ChunksShape(id, tr);
    PrefixShape(id, tr, have + {k});
  }

  /** With its header a chunk writes the gapless prefix, and completes the transfer when nothing is missing. */
  lemma {:induction false} AbsorbNew(id: U32, tr: Transfer, have: set<nat>, k: nat)
    requires Valid(tr) && 1 <= k <= |Chunks(id, tr)| && k !in have
    ensures var all := Chunks(id, tr); var more := have + {k}; var header := Header(id, tr);
            Absorb(Tracker(header, Held(all, have), false), all[k - 1]) ==
            (if Full(|all|, more) then Tracker(header, [], true) else Tracker(header, Held(all, more), false),
             if 1 in more then Some(Prefix(id, tr, more)) else None)
  {
    AbsorbFresh(id, tr, Header(id, tr), have, k);
    ChunksShape(id, tr);
    PrefixShape(id, tr, have + {k});
  }

  lemma {:induction false} AbsorbOld(id: U32, tr: Transfer, header: FileTransferHeader, have: set<nat>, k: nat)
    requires Valid(tr) && 1 <= k <= |Chunks(id, tr)| && k in have
    ensures var t := Tracker(header, Held(Chunks(id, tr), have), false);
            Absorb(t, Chunks(id, tr)[k - 1]) == (t, None)
  {
    ChunksShape(id, tr);
    HeldHas(ChunkNum, Chunks(id, tr), have, k);
  }

  lemma {:induction false} CompletesMeans(n: nat, ps: seq<Packet>)
    requires Completes(n, ps)
    ensures HeaderSeen(ps) && Full(n, Have(ps))
  {
    var t :| 0 <= t < |ps| && CompletesAt(n, ps, t);
    var i :| 0 <= i < t && ps[..t][i].HeaderPacket?;
    assert ps[i].HeaderPacket?;
    forall k | k in Have(ps[..t + 1]) ensures k in Have(ps) {
      var i :| 0 <= i < t + 1 && ps[..t + 1][i].ChunkPacket? && ChunkNum(ps[..t + 1][i].fileChunk) == k;
      assert ps[i].ChunkPacket? && ChunkNum(ps[i].fileChunk) == k;
    }
  }

  // ---- One packet, on the tracker ----

  /** What one more packet makes of what was seen, while the tracker has its id. */
  ghost function Next(n: nat, s: History, p: Packet): History {
    match p
    case EmptyPacket => s
    case HeaderPacket(_) => s.(any := true, headed := true)
    case ChunkPacket(c) =>
      var more := s.have + {ChunkNum(c)};
      if ChunkNum(c) in s.have then s
      else if s.headed then s.(done := Full(n, more), have := more)
      else History(true, s.any && 1 !in more, false, s.done, more)
  }

  /** The write it causes. */
  ghost function WriteFor(id: U32, tr: Transfer, s: History, p: Packet): Option<Bytes> {
    match p
    case ChunkPacket(c) =>
      var more := s.have + {ChunkNum(c)};
      if ChunkNum(c) !in s.have && s.headed && 1 in more then Some(Prefix(id, tr, more)) else None
    case _ => None
  }

  /** What can have been seen while the tracker has its id. */
  ghost predicate Sensible(n: nat, s: History) {
    && !s.lost
    && (!s.any ==> !s.headed && s.have == {})
    && (s.done ==> s.headed && Full(n, s.have))
  }

  lemma {:induction false} CellHeader(id: U32, tr: Transfer, s: History)
    requires Sensible(|Chunks(id, tr)|, s)
    ensures CellStep(CellFor(id, tr, s), HeaderPacket(Header(id, tr)))
            == (CellFor(id, tr, s.(any := true, headed := true)).value, None)
  {
    HeldNothing(Chunks(id, tr));
  }

  lemma {:induction false} CellRepeat(id: U32, tr: Transfer, s: History, k: nat)
    requires Valid(tr) && 1 <= k <= |Chunks(id, tr)| && k in s.have && Sensible(|Chunks(id, tr)|, s)
    ensures s.any
    ensures CellStep(CellFor(id, tr, s), ChunkPacket(Chunks(id, tr)[k - 1])) == (CellFor(id, tr, s).value, None)
  {
    AbsorbOld(id, tr, if s.headed then Header(id, tr) else NO_HEADER, s.have, k);
  }

  lemma {:induction false} CellNewHeaded(id: U32, tr: Transfer, s: History, k: nat)
    requires Valid(tr) && 1 <= k <= |Chunks(id, tr)| && k !in s.have && Sensible(|Chunks(id, tr)|, s) && s.headed
    ensures var more := s.have + {k};
            CellStep(CellFor(id, tr, s), ChunkPacket(Chunks(id, tr)[k - 1]))
            == (CellFor(id, tr, s.(done := Full(|Chunks(id, tr)|, more), have := more)).value,
                if 1 in more then Some(Prefix(id, tr, more)) else None)
  {
    AbsorbNew(id, tr, s.have, k);
  }

  lemma {:induction false} CellNewEarly(id: U32, tr: Transfer, s: History, k: nat)
    requires Valid(tr) && 1 <= k <= |Chunks(id, tr)| && k !in s.have && Sensible(|Chunks(id, tr)|, s) && !s.headed
    ensures var more := s.have + {k};
            CellStep(CellFor(id, tr, s), ChunkPacket(Chunks(id, tr)[k - 1]))
            == (CellFor(id, tr, History(true, s.any && 1 !in more, false, s.done, more)).value, None)
  {
    if s.any {
      AbsorbEarly(id, tr, s.have, k);
    } else {
      ChunksShape(id, tr);
      HeldInsert(ChunkNum, Chunks(id, tr), {}, k);
      HeldNothing(Chunks(id, tr));
    }
  }

  lemma {:induction false} CellNext(id: U32, tr: Transfer, s: History, p: Packet)
    requires Valid(tr) && HonestPacket(id, tr, p) && Accepted(p) && Sensible(|Chunks(id, tr)|, s)
    ensures var next := CellFor(id, tr, Next(|Chunks(id, tr)|, s, p)); var write := WriteFor(id, tr, s, p);
            && next.Some? && CellStep(CellFor(id, tr, s), p) == (next.value, write)
            && (write.Some? ==> next.value.header == Header(id, tr))
  {
    match p
    case HeaderPacket(_) => CellHeader(id, tr, s);
    case ChunkPacket(c) =>
      var k := ChunkNum(c);
      ChunkIs(id, tr, p);
      if k in s.have {
        CellRepeat(id, tr, s, k);
      } else if s.headed {
        CellNewHeaded(id, tr, s, k);
      } else {
        CellNewEarly(id, tr, s, k);
      }
  }

  // ---- One packet, on what has arrived ----

  lemma {:induction false} HeaderFacts(n: nat, ps: seq<Packet>)
    requires ps != [] && ps[|ps| - 1].HeaderPacket? && !Doomed(ps[..|ps| - 1])
    ensures var front := ps[..|ps| - 1];
            && HeaderSeen(ps) && !Doomed(ps) && Have(ps) == Have(front) && (Completes(n, ps) <==> Completes(n, front))
            && (Completes(n, front) ==> HeaderSeen(front))
            && (front == [] ==> !HeaderSeen(front) && !Completes(n, front) && Have(front) == {})
  {
    HaveGrows(ps);
    DoomedGrows(ps);
    CompletesGrows(n, ps);
    if Completes(n, ps[..|ps| - 1]) {
      CompletesMeans(n, ps[..|ps| - 1]);
    }
  }

  lemma {:induction false} RepeatFacts(n: nat, ps: seq<Packet>)
    requires ps != [] && ps[|ps| - 1].ChunkPacket? && !Doomed(ps[..|ps| - 1])
    requires ChunkNum(ps[|ps| - 1].fileChunk) in Have(ps[..|ps| - 1])
    ensures var front := ps[..|ps| - 1];
            && (HeaderSeen(ps) <==> HeaderSeen(front)) && !Doomed(ps) && Have(ps) == Have(front)
            && (Completes(n, ps) <==> Completes(n, front)) && |ps| > 1
  {
    var front := ps[..|ps| - 1];
    HaveGrows(ps);
    assert Have(ps) == Have(front);
    DoomedGrows(ps);
    CompletesGrows(n, ps);
    assert front[..|front|] == front;
  }

  lemma {:induction false} NewHeadedFacts(n: nat, ps: seq<Packet>)
    requires ps != [] && ps[|ps| - 1].ChunkPacket? && !Doomed(ps[..|ps| - 1])
    requires 1 <= ChunkNum(ps[|ps| - 1].fileChunk) <= n
    requires ChunkNum(ps[|ps| - 1].fileChunk) !in Have(ps[..|ps| - 1]) && HeaderSeen(ps[..|ps| - 1])
    ensures var front := ps[..|ps| - 1];
            && Have(ps) == Have(front) + {ChunkNum(ps[|ps| - 1].fileChunk)}
            && HeaderSeen(ps) && !Doomed(ps) && !Completes(n, front)
            && (Completes(n, ps) <==> Full(n, Have(ps)))
            && |ps| > 1
  {
    var front := ps[..|ps| - 1];
    HaveGrows(ps);
    DoomedGrows(ps);
    CompletesGrows(n, ps);
    assert !Full(n, Have(front));
    if Completes(n, front) {
      CompletesMeans(n, front);
    }
  }

  lemma {:induction false} NewEarlyFacts(n: nat, ps: seq<Packet>)
    requires ps != [] && ps[|ps| - 1].ChunkPacket? && !Doomed(ps[..|ps| - 1])
    requires ChunkNum(ps[|ps| - 1].fileChunk) !in Have(ps[..|ps| - 1]) && !HeaderSeen(ps[..|ps| - 1])
    requires |ps| > 1 ==> ps[0] != EmptyPacket
    ensures var front := ps[..|ps| - 1];
            && Have(ps) == Have(front) + {ChunkNum(ps[|ps| - 1].fileChunk)}
            && !HeaderSeen(ps) && (Doomed(ps) <==> front != [] && 1 !in Have(ps))
            && (front == [] ==> Have(front) == {})
  {
    var front := ps[..|ps| - 1];
    HaveGrows(ps);
    DoomedGrows(ps);
    if front != [] {
      assert front[0].ChunkPacket? && ChunkNum(front[0].fileChunk) in Have(front);
      assert TwoOrMore(Have(ps));
    } else {
      assert Have(front) == {};
    }
  }

  lemma {:induction false} HistorySensible(n: nat, ps: seq<Packet>)
    requires !Doomed(ps)
    ensures Sensible(n, HistoryOf(n, ps))
  {
    if Completes(n, ps) {
      CompletesMeans(n, ps);
    }
  }

  lemma {:induction false} HeaderArrives(n: nat, ps: seq<Packet>)
    requires ps != [] && ps[|ps| - 1].HeaderPacket? && !Doomed(ps[..|ps| - 1])
    ensures HistoryOf(n, ps) == HistoryOf(n, ps[..|ps| - 1]).(any := true, headed := true)
  {
    HeaderFacts(n, ps);
  }

  lemma {:induction false} RepeatArrives(n: nat, ps: seq<Packet>)
    requires ps != [] && ps[|ps| - 1].ChunkPacket? && !Doomed(ps[..|ps| - 1])
    requires ChunkNum(ps[|ps| - 1].fileChunk) in Have(ps[..|ps| - 1])
    ensures HistoryOf(n, ps) == HistoryOf(n, ps[..|ps| - 1])
  {
    RepeatFacts(n, ps);
  }

  lemma {:induction false} ChunkAfterHeader(n: nat, ps: seq<Packet>)
    requires ps != [] && ps[|ps| - 1].ChunkPacket? && !Doomed(ps[..|ps| - 1])
    requires 1 <= ChunkNum(ps[|ps| - 1].fileChunk) <= n
    requires ChunkNum(ps[|ps| - 1].fileChunk) !in Have(ps[..|ps| - 1]) && HeaderSeen(ps[..|ps| - 1])
    ensures var before := HistoryOf(n, ps[..|ps| - 1]); var more := before.have + {ChunkNum(ps[|ps| - 1].fileChunk)};
            HistoryOf(n, ps) == before.(done := Full(n, more), have := more)
  {
    NewHeadedFacts(n, ps);
  }

  lemma {:induction false} ChunkBeforeHeader(n: nat, ps: seq<Packet>)
    requires ps != [] && ps[|ps| - 1].ChunkPacket? && !Doomed(ps[..|ps| - 1])
    requires ChunkNum(ps[|ps| - 1].fileChunk) !in Have(ps[..|ps| - 1]) && !HeaderSeen(ps[..|ps| - 1])
    requires |ps| > 1 ==> ps[0] != EmptyPacket
    ensures var before := HistoryOf(n, ps[..|ps| - 1]); var more := before.have + {ChunkNum(ps[|ps| - 1].fileChunk)};
            HistoryOf(n, ps) == History(true, before.any && 1 !in more, false, before.done, more)
  {
    NewEarlyFacts(n, ps);
    CompletesGrows(n, ps);
  }

  /** The last packet moves what was seen before it to what has been seen after it. */
  lemma {:induction false} HistoryNext(n: nat, ps: seq<Packet>)
    requires ps != [] && !Doomed(ps[..|ps| - 1]) && ps[0] != EmptyPacket && ps[|ps| - 1] != EmptyPacket
    requires ps[|ps| - 1].ChunkPacket? ==> 1 <= ChunkNum(ps[|ps| - 1].fileChunk) <= n
    ensures HistoryOf(n, ps) == Next(n, HistoryOf(n, ps[..|ps| - 1]), ps[|ps| - 1])
  {
    var front, p := ps[..|ps| - 1], ps[|ps| - 1];
    if p.HeaderPacket? {
      HeaderArrives(n, ps);
    } else if ChunkNum(p.fileChunk) in Have(front) {
      RepeatArrives(n, ps);
    } else if HeaderSeen(front) {
      ChunkAfterHeader(n, ps);
    } else {
      ChunkBeforeHeader(n, ps);
    }
  }

  lemma {:induction false} LastWriteIs(id: U32, tr: Transfer, ps: seq<Packet>)
    requires ps != []
    ensures LastWrite(id, tr, ps) == WriteFor(id, tr, HistoryOf(|Chunks(id, tr)|, ps[..|ps| - 1]), ps[|ps| - 1])
  {
    HaveGrows(ps);
  }

  lemma {:induction false} NotBlocked(id: U32, tr: Transfer, ps: seq<Packet>)
    requires Run(ps) == Some(StateAfter(id, tr, ps)) && !Doomed(ps)
    ensures !Blocked(StateAfter(id, tr, ps), id)
  {
    RunOk(ps);
    if ps != [] {
      var st := StateAfter(id, tr, ps);
      assert id in st.cells;
      LostId(id, st.cells[id]);
      assert st.order == [id] && TrackerId(st.cells[id]).Some?;
    }
  }

  /** The program exits on the first packet after a premature moment, and not before. */
  ghost predicate Exited(ps: seq<Packet>) {
    ps != [] && Doomed(ps[..|ps| - 1])
  }

  lemma {:induction false} StepAlone(id: nat, cell: Option<Tracker>, writes: seq<Write>, p: Packet, name: string)
    requires Accepted(p) && TransferId(p) == id && !Blocked(Alone(id, cell, writes), id)
    requires var (t, write) := CellStep(cell, p); write.Some? ==> t.header.filename == Some(name)
    ensures var (t, write) := CellStep(cell, p);
            Step(Alone(id, cell, writes), p) ==
            Some(Alone(id, Some(t), if write.None? then writes else writes + [Write(id, name, write.value)]))
  {
    var st := Alone(id, cell, writes);
    var (t, write) := CellStep(cell, p);
    assert Lookup(st.cells, id) == cell;
    assert st.cells[id := t] == map[id := t];
    assert (if id in st.cells then st.order else st.order + [id]) == [id];
  }

  /**
   The file layer on the packets of one transfer, in any order and with any repeats: whether it has
   exited, and if not, its tracker and every write it made, as functions of what arrived.
   */
  lemma {:induction false} SingleTransfer(id: U32, tr: Transfer, ps: seq<Packet>)
    requires Valid(tr) && AllHonest(id, tr, ps)
    ensures Run(ps) == if Exited(ps) then None else Some(StateAfter(id, tr, ps))
  {
    if ps != [] {
      var front := ps[..|ps| - 1];
      SingleTransfer(id, tr, front);
      if front != [] {
        DoomedGrows(front);
      }
      if Doomed(front) {
        LostExits(id, tr, ps);
      } else {
        RunGrows(id, tr, ps);
      }
    }
  }

  lemma {:induction false} RunGrows(id: U32, tr: Transfer, ps: seq<Packet>)
    requires Valid(tr) && AllHonest(id, tr, ps) && ps != [] && !Doomed(ps[..|ps| - 1])
    requires Run(ps[..|ps| - 1]) == Some(StateAfter(id, tr, ps[..|ps| - 1]))
    ensures Run(ps) == Some(StateAfter(id, tr, ps))
  {
    var front, p := ps[..|ps| - 1], ps[|ps| - 1];
    var cell, t, write := CellAfter(id, tr, front), CellAfter(id, tr, ps), LastWrite(id, tr, ps);
    assert HonestPacket(id, tr, p);
    HonestStep(id, tr, ps);
    NotBlocked(id, tr, front);
    AcceptedHonest(id, tr, p);
    RunAlone(id, ps, cell, t.value, WritesAfter(id, tr, front), write, tr.name);
  }

  lemma {:induction false} AcceptedHonest(id: U32, tr: Transfer, p: Packet)
    requires HonestPacket(id, tr, p)
    ensures Accepted(p) && TransferId(p) == id
  {
  }

  lemma {:induction false} RunAlone(id: nat, ps: seq<Packet>, cell: Option<Tracker>, t: Tracker, writes: seq<Write>,
                                    write: Option<Bytes>, name: string)
    requires ps != [] && Accepted(ps[|ps| - 1]) && TransferId(ps[|ps| - 1]) == id
    requires Run(ps[..|ps| - 1]) == Some(Alone(id, cell, writes)) && !Blocked(Alone(id, cell, writes), id)
    requires CellStep(cell, ps[|ps| - 1]) == (t, write) && (write.Some? ==> t.header.filename == Some(name))
    ensures Run(ps) == Some(Alone(id, Some(t), if write.None? then writes else writes + [Write(id, name, write.value)]))
  {
    StepAlone(id, cell, writes, ps[|ps| - 1], name);
  }

  lemma {:induction false} DoomedNonempty(ps: seq<Packet>)
    requires Doomed(ps)
    ensures ps != []
  {
    var q :| 0 <= q <= |ps| && Premature(ps[..q]);
    var a :| a in Have(ps[..q]);
  }

  lemma {:induction false} LostIsBlocked(id: nat, writes: seq<Write>)
    ensures Blocked(Alone(id, Some(Tracker(NO_HEADER, [], true)), writes), id)
  {
    var st := Alone(id, Some(Tracker(NO_HEADER, [], true)), writes);
    assert st.order[0] == id && st.order[..0] == [];
  }

  lemma {:induction false} BlockedExits(ps: seq<Packet>, st: FileState)
    requires ps != [] && Accepted(ps[|ps| - 1]) && Run(ps[..|ps| - 1]) == Some(st)
    requires WellFormed(st) && Blocked(st, TransferId(ps[|ps| - 1]))
    ensures Run(ps) == None
  {
  }

  lemma {:induction false} LostExits(id: U32, tr: Transfer, ps: seq<Packet>)
    requires ps != [] && HonestPacket(id, tr, ps[|ps| - 1]) && Doomed(ps[..|ps| - 1])
    requires Run(ps[..|ps| - 1]) == None || Run(ps[..|ps| - 1]) == Some(StateAfter(id, tr, ps[..|ps| - 1]))
    ensures Run(ps) == None
  {
    var front := ps[..|ps| - 1];
    if Run(front).Some? {
      DoomedNonempty(front);
      assert CellAfter(id, tr, front) == Some(Tracker(NO_HEADER, [], true));
      LostIsBlocked(id, WritesAfter(id, tr, front));
      AcceptedHonest(id, tr, ps[|ps| - 1]);
      BlockedExits(ps, StateAfter(id, tr, front));
    }
  }

  /** The last packet moves the tracker from the closed form before it to the closed form after it. */
  ghost predicate Stepped(id: U32, tr: Transfer, ps: seq<Packet>)
    requires ps != [] && Accepted(ps[|ps| - 1])
  {
    var t := CellAfter(id, tr, ps);
    && t.Some?
    && CellStep(CellAfter(id, tr, ps[..|ps| - 1]), ps[|ps| - 1]) == (t.value, LastWrite(id, tr, ps))
    && (LastWrite(id, tr, ps).Some? ==> t.value.header == Header(id, tr))
  }

  lemma {:induction false} HonestStep(id: U32, tr: Transfer, ps: seq<Packet>)
    requires Valid(tr) && AllHonest(id, tr, ps) && ps != [] && !Doomed(ps[..|ps| - 1])
    ensures Accepted(ps[|ps| - 1]) && Stepped(id, tr, ps)
  {
    var n, p := |Chunks(id, tr)|, ps[|ps| - 1];
    assert HonestPacket(id, tr, p) && HonestPacket(id, tr, ps[0]);
    AcceptedHonest(id, tr, p);
    HistoryNext(n, ps);
    HistorySensible(n, ps[..|ps| - 1]);
    CellNext(id, tr, HistoryOf(n, ps[..|ps| - 1]), p);
    LastWriteIs(id, tr, ps);
  }
}

/** The packet receiver as the program has it: two vectors, searched and updated in place. */
module PacketReceiver {
  import opened Basics
  import opened Numbered
  import opened Proto
  import opened Reassembly

  /** The fragments of one payload, in the order of the last sort. */
  datatype PacketChunks = PacketChunks(chunks: seq<Chunk>) {
    function Id(): nat {
      if chunks == [] then 0 else IdOf(chunks[0])
    }

    ghost predicate Valid() {
      && chunks != []
      && (forall i :: 0 <= i < |chunks| ==> About(chunks[i], Id()))
      && StrictlySorted(NumOf, chunks)
    }

    function Frags(): seq<Fragment> {
      Map(View, chunks)
    }
  }

  ghost predicate Consistent(packets: seq<PacketChunks>, completed: seq<nat>) {
    && (forall i :: 0 <= i < |packets| ==> packets[i].Valid())
    && (forall i, j :: 0 <= i < j < |packets| ==> packets[i].Id() != packets[j].Id())
    && (forall i, j :: 0 <= i < j < |completed| ==> completed[i] != completed[j])
    && (forall i :: 0 <= i < |packets| ==> packets[i].Id() !in completed)
  }

  ghost predicate Tracked(packets: seq<PacketChunks>, id: nat) {
    exists i :: 0 <= i < |packets| && packets[i].Id() == id
  }

  /** What the vectors say of the cells, and the cells of the vectors. */
  ghost predicate PacketsAre(packets: seq<PacketChunks>, cells: Cells) {
    forall i :: 0 <= i < |packets| ==> Lookup(cells, packets[i].Id()) == Some(Partial(packets[i].Frags()))
  }

  ghost predicate CompletedAre(completed: seq<nat>, cells: Cells) {
    forall id :: id in completed ==> Lookup(cells, id) == Some(Done)
  }

  ghost predicate AllTracked(packets: seq<PacketChunks>, completed: seq<nat>, cells: Cells) {
    forall id :: id in cells ==> id in completed || Tracked(packets, id)
  }

  /** The two vectors are consistent and stand for `cells`: they determine it, id by id. */
  ghost predicate StandFor(packets: seq<PacketChunks>, completed: seq<nat>, cells: Cells) {
    && Consistent(packets, completed)
    && PacketsAre(packets, cells) && CompletedAre(completed, cells) && AllTracked(packets, completed, cells)
  }

  /** The vectors stand for one map of cells only. */
  lemma {:induction false} StandForOne(packets: seq<PacketChunks>, completed: seq<nat>, a: Cells, b: Cells)
    requires StandFor(packets, completed, a) && StandFor(packets, completed, b)
    ensures a == b
  {
    forall id | id in a ensures Lookup(b, id) == Lookup(a, id) {
    }
    forall id | id in b ensures Lookup(a, id) == Lookup(b, id) {
    }
    assert forall id :: id in a ==> Lookup(b, id).Some?;
    assert forall id :: id in b ==> Lookup(a, id).Some?;
  }

  // ---- The abstract step, case by case ----

  lemma {:induction false} StepDone(cells: Cells, chunk: Chunk, parse: Parser)
    requires Accepted(chunk) && Lookup(cells, IdOf(chunk)) == Some(Done)
    ensures Step(cells, chunk, parse) == (cells, Nothing)
  {
    assert cells[IdOf(chunk) := Done] == cells;
  }

  lemma {:induction false} StepPartial(cells: Cells, chunk: Chunk, frags: seq<Fragment>, parse: Parser)
    requires Accepted(chunk) && Lookup(cells, IdOf(chunk)) == Some(Partial(frags))
    ensures Step(cells, chunk, parse) ==
            if Has(Num, frags, NumOf(chunk)) then (cells, Nothing)
            else
              var (cell, outcome) := Close(Insert(Num, frags, View(chunk)), parse);
              (cells[IdOf(chunk) := cell], outcome)
  {
    assert cells[IdOf(chunk) := Partial(frags)] == cells;
  }

  lemma {:induction false} StepNew(cells: Cells, chunk: Chunk, parse: Parser)
    requires Accepted(chunk) && IdOf(chunk) !in cells
    ensures var (cell, outcome) := Close([View(chunk)], parse);
            Step(cells, chunk, parse) == (cells[IdOf(chunk) := cell], outcome)
  {
  }

  // ---- The vector updates ----

  lemma {:induction false} PacketUpdated(packets: seq<PacketChunks>, completed: seq<nat>, cells: Cells, i: nat,
                                         p: PacketChunks)
    requires StandFor(packets, completed, cells) && i < |packets|
    requires p.Valid() && p.Id() == packets[i].Id()
    ensures StandFor(packets[i := p], completed, cells[p.Id() := Partial(p.Frags())])
  {
    var after := packets[i := p];
    SameIds(packets, after);
    ConsistentUpdate(packets, completed, i, p);
    forall j | 0 <= j < |after|
      ensures Lookup(cells[p.Id() := Partial(p.Frags())], after[j].Id()) == Some(Partial(after[j].Frags()))
    {
      if j != i {
        assert after[j] == packets[j];
      }
    }
  }

  lemma {:induction false} ConsistentUpdate(packets: seq<PacketChunks>, completed: seq<nat>, i: nat, p: PacketChunks)
    requires Consistent(packets, completed) && i < |packets| && p.Valid() && p.Id() == packets[i].Id()
    ensures Consistent(packets[i := p], completed)
  {
  }

  lemma {:induction false} SameIds(packets: seq<PacketChunks>, after: seq<PacketChunks>)
    requires |after| == |packets| && forall j :: 0 <= j < |packets| ==> after[j].Id() == packets[j].Id()
    ensures forall id :: Tracked(packets, id) <==> Tracked(after, id)
  {
    forall id | Tracked(packets, id) ensures Tracked(after, id) {
      var j :| 0 <= j < |packets| && packets[j].Id() == id;
      assert after[j].Id() == id;
    }
    forall id | Tracked(after, id) ensures Tracked(packets, id) {
      var j :| 0 <= j < |after| && after[j].Id() == id;
      assert packets[j].Id() == id;
    }
  }

  /** `rest` is `packets` without its i-th element. */
  ghost predicate Erased(packets: seq<PacketChunks>, i: nat, rest: seq<PacketChunks>) {
    && i < |packets| && |rest| == |packets| - 1
    && (forall j :: 0 <= j < i ==> rest[j] == packets[j])
    && (forall j :: i < j < |packets| ==> rest[j - 1] == packets[j])
  }

  lemma {:induction false} EraseAt(packets: seq<PacketChunks>, i: nat)
    requires i < |packets|
    ensures Erased(packets, i, packets[..i] + packets[i + 1..])
  {
  }

  lemma {:induction false} ErasedFrom(packets: seq<PacketChunks>, i: nat, rest: seq<PacketChunks>, j: nat)
    returns (k: nat)
    requires Erased(packets, i, rest) && j < |rest|
    ensures k < |packets| && k != i && rest[j] == packets[k] && k == if j < i then j else j + 1
  {
    k := if j < i then j else j + 1;
    assert k > i ==> rest[k - 1] == packets[k];
  }

  lemma {:induction false} ConsistentErase(packets: seq<PacketChunks>, completed: seq<nat>, i: nat,
                                           rest: seq<PacketChunks>)
    requires Consistent(packets, completed) && Erased(packets, i, rest)
    ensures Consistent(rest, completed + [packets[i].Id()])
  {
    forall j | 0 <= j < |rest|
      ensures rest[j].Valid() && rest[j].Id() !in completed && rest[j].Id() != packets[i].Id()
    {
      var k := ErasedFrom(packets, i, rest, j);
    }
    forall j, l | 0 <= j < l < |rest| ensures rest[j].Id() != rest[l].Id() {
      var k := ErasedFrom(packets, i, rest, j);
      var m := ErasedFrom(packets, i, rest, l);
    }
  }

  lemma {:induction false} RestAre(packets: seq<PacketChunks>, completed: seq<nat>, cells: Cells, i: nat,
                                   rest: seq<PacketChunks>)
    requires Consistent(packets, completed) && PacketsAre(packets, cells) && Erased(packets, i, rest)
    ensures PacketsAre(rest, cells[packets[i].Id() := Done])
  {
    forall j | 0 <= j < |rest|
      ensures Lookup(cells[packets[i].Id() := Done], rest[j].Id()) == Some(Partial(rest[j].Frags()))
    {
      var k := ErasedFrom(packets, i, rest, j);
    }
  }

  lemma {:induction false} RestTracked(packets: seq<PacketChunks>, completed: seq<nat>, cells: Cells, i: nat,
                                       rest: seq<PacketChunks>)
    requires AllTracked(packets, completed, cells) && Erased(packets, i, rest)
    ensures AllTracked(rest, completed + [packets[i].Id()], cells[packets[i].Id() := Done])
  {
    forall x | x in cells && x != packets[i].Id() && x !in completed ensures Tracked(rest, x) {
      var j :| 0 <= j < |packets| && packets[j].Id() == x;
      assert rest[if j < i then j else j - 1].Id() == x;
    }
  }

  lemma {:induction false} PacketFinished(packets: seq<PacketChunks>, completed: seq<nat>, cells: Cells, i: nat,
                                          rest: seq<PacketChunks>)
    requires StandFor(packets, completed, cells) && Erased(packets, i, rest)
    ensures StandFor(rest, completed + [packets[i].Id()], cells[packets[i].Id() := Done])
  {
    ConsistentErase(packets, completed, i, rest);
    RestAre(packets, completed, cells, i, rest);
    RestTracked(packets, completed, cells, i, rest);
  }

  lemma {:induction false} PacketAtOnce(packets: seq<PacketChunks>, completed: seq<nat>, cells: Cells, id: nat)
    requires StandFor(packets, completed, cells) && id !in cells
    ensures StandFor(packets, completed + [id], cells[id := Done])
  {
    assert id !in completed;
    assert forall i :: 0 <= i < |packets| ==> packets[i].Id() in cells;
  }

  lemma {:induction false} MoreAre(packets: seq<PacketChunks>, cells: Cells, p: PacketChunks)
    requires PacketsAre(packets, cells) && p.Id() !in cells
    ensures PacketsAre(packets + [p], cells[p.Id() := Partial(p.Frags())])
  {
    var after := packets + [p];
    forall j | 0 <= j < |after|
      ensures Lookup(cells[p.Id() := Partial(p.Frags())], after[j].Id()) == Some(Partial(after[j].Frags()))
    {
      assert j < |packets| ==> after[j] == packets[j] && packets[j].Id() in cells;
    }
  }

  lemma {:induction false} MoreTracked(packets: seq<PacketChunks>, completed: seq<nat>, cells: Cells, p: PacketChunks)
    requires AllTracked(packets, completed, cells)
    ensures AllTracked(packets + [p], completed, cells[p.Id() := Partial(p.Frags())])
  {
    var after := packets + [p];
    assert after[|packets|].Id() == p.Id();
    forall id | id in cells && id !in completed ensures Tracked(after, id) {
      var j :| 0 <= j < |packets| && packets[j].Id() == id;
      assert after[j].Id() == id;
    }
  }

  lemma {:induction false} ConsistentMore(packets: seq<PacketChunks>, completed: seq<nat>, cells: Cells,
                                          p: PacketChunks)
    requires Consistent(packets, completed) && PacketsAre(packets, cells) && CompletedAre(completed, cells)
    requires p.Valid() && p.Id() !in cells
    ensures Consistent(packets + [p], completed)
  {
    assert forall i :: 0 <= i < |packets| ==> packets[i].Id() in cells;
    assert p.Id() !in completed;
  }

  lemma {:induction false} PacketAdded(packets: seq<PacketChunks>, completed: seq<nat>, cells: Cells, p: PacketChunks)
    requires StandFor(packets, completed, cells) && p.Valid() && p.Id() !in cells
    ensures StandFor(packets + [p], completed, cells[p.Id() := Partial(p.Frags())])
  {
    ConsistentMore(packets, completed, cells, p);
    MoreAre(packets, cells, p);
    MoreTracked(packets, completed, cells, p);
  }

  // ---- One arrival ----

  lemma {:induction false} AppendStaysAbout(p: PacketChunks, chunk: Chunk)
    requires p.Valid() && About(chunk, p.Id())
    ensures var after := Insert(NumOf, p.chunks, chunk); forall i :: 0 <= i < |after| ==> About(after[i], p.Id())
  {
    InsertContents(NumOf, p.chunks, chunk);
    var after := Insert(NumOf, p.chunks, chunk);
    forall i | 0 <= i < |after| ensures About(after[i], p.Id()) {
      if after[i] in p.chunks {
        var k :| 0 <= k < |p.chunks| && p.chunks[k] == after[i];
      }
    }
  }

  lemma {:induction false} AppendValid(p: PacketChunks, chunk: Chunk)
    requires p.Valid() && About(chunk, p.Id())
    requires forall k :: 0 <= k < |p.chunks| ==> NumOf(p.chunks[k]) != NumOf(chunk)
    ensures var after := PacketChunks(Insert(NumOf, p.chunks, chunk)); after.Valid() && after.Id() == p.Id()
  {
    AppendStaysAbout(p, chunk);
    InsertStrictlySorts(NumOf, p.chunks, chunk);
  }

  lemma {:induction false} AppendNew(p: PacketChunks, chunk: Chunk)
    requires forall k :: 0 <= k < |p.chunks| ==> NumOf(p.chunks[k]) != NumOf(chunk)
    ensures !Has(Num, p.Frags(), NumOf(chunk))
  {
    assert forall k :: 0 <= k < |p.Frags()| ==> p.Frags()[k].num == NumOf(p.chunks[k]);
  }

  lemma {:induction false} AppendSorts(p: PacketChunks, chunk: Chunk)
    requires p.Valid() && About(chunk, p.Id())
    requires forall k :: 0 <= k < |p.chunks| ==> NumOf(p.chunks[k]) != NumOf(chunk)
    ensures !Has(Num, p.Frags(), NumOf(chunk))
    ensures var after := PacketChunks(Sort(NumOf, p.chunks + [chunk]));
            && after.Valid() && after.Id() == p.Id()
            && after.Frags() == Insert(Num, p.Frags(), View(chunk))
  {
    SortAfterAppend(NumOf, p.chunks, chunk);
    AppendValid(p, chunk);
    AppendNew(p, chunk);
    InsertMap(NumOf, Num, View, p.chunks, chunk);
  }

  lemma {:induction false} SingleFragment(chunk: Chunk)
    requires Accepted(chunk)
    ensures var p := PacketChunks(Sort(NumOf, [chunk]));
            p.chunks == [chunk] && p.Valid() && p.Id() == IdOf(chunk) && p.Frags() == [View(chunk)]
  {
    SortSorted(NumOf, [chunk]);
  }

  /** A fragment that the packet at `i` already holds. */
  lemma {:induction false} RepeatPushed(packets: seq<PacketChunks>, completed: seq<nat>, cells: Cells, i: nat,
                                        chunk: Chunk, parse: Parser)
    requires StandFor(packets, completed, cells) && i < |packets| && About(chunk, packets[i].Id())
    requires Has(Num, packets[i].Frags(), NumOf(chunk))
    ensures Step(cells, chunk, parse) == (cells, Nothing)
  {
    StepPartial(cells, chunk, packets[i].Frags(), parse);
  }

  /** A new fragment for the packet at `i`, which becomes `q`; the vectors after it, and the cells. */
  lemma {:induction false} NewPushed(packets: seq<PacketChunks>, completed: seq<nat>, cells: Cells, i: nat,
                                     q: PacketChunks, chunk: Chunk, parse: Parser)
    requires StandFor(packets, completed, cells) && i < |packets| && About(chunk, packets[i].Id())
    requires !Has(Num, packets[i].Frags(), NumOf(chunk))
    requires q.Valid() && q.Id() == packets[i].Id() && q.Frags() == Insert(Num, packets[i].Frags(), View(chunk))
    ensures var (cell, outcome) := Close(q.Frags(), parse); var id := packets[i].Id();
            && Step(cells, chunk, parse) == (cells[id := cell], outcome)
            && cell == (if outcome.Deliver? then Done else Partial(q.Frags()))
            && StandFor(packets[..i] + packets[i + 1..], completed + [id], cells[id := Done])
            && StandFor(packets[i := q], completed, cells[id := Partial(q.Frags())])
  {
    StepPartial(cells, chunk, packets[i].Frags(), parse);
    EraseAt(packets, i);
    PacketFinished(packets, completed, cells, i, packets[..i] + packets[i + 1..]);
    PacketUpdated(packets, completed, cells, i, q);
  }

  // ---- The program's receiver ----

  class PacketChunkReceiver {
    const parse: Parser
    var packets: seq<PacketChunks>
    var completed: seq<nat>
    ghost var cells: Cells

    ghost predicate Valid()
      reads this
    {
      StandFor(packets, completed, cells)
    }

    constructor (parse: Parser)
      ensures Valid() && cells == map[] && this.parse == parse
    {
      this.parse := parse;
      packets, completed := [], [];
      cells := map[];
    }

    /** Pushes one fragment: the vectors move exactly as the abstract cells do, and the report is the same. */
    method PushPacketChunk(chunk: Chunk) returns (outcome: Outcome)
      requires Valid()
      modifies this
      ensures Valid()
      ensures outcome == Step(old(cells), chunk, parse).1
      ensures outcome != Abort ==> cells == Step(old(cells), chunk, parse).0
    {
      if !Accepted(chunk) {
        return Nothing;
      }
      var id := chunk.payloadId.value;
      if id in completed {
        StepDone(cells, chunk, parse);
        return Nothing;
      }
      for i := 0 to |packets|
        invariant packets == old(packets) && completed == old(completed) && cells == old(cells)
        invariant forall j :: 0 <= j < i ==> packets[j].Id() != id
      {
        if packets[i].Id() == id {
          outcome := PushToPacket(i, chunk);
          return;
        }
      }
      assert id !in cells;
      var chunks := [chunk];
      chunks, outcome := IsComplete(chunks);
      SingleFragment(chunk);
      StepNew(cells, chunk, parse);
      if outcome.Deliver? {
        PacketAtOnce(packets, completed, cells, id);
        completed, cells := completed + [id], cells[id := Done];
        return;
      }
      var p := PacketChunks(chunks);
      PacketAdded(packets, completed, cells, p);
      packets, cells := packets + [p], cells[p.Id() := Partial(p.Frags())];
    }

    /** The body of the search loop once the payload is found. */
    method PushToPacket(i: nat, chunk: Chunk) returns (outcome: Outcome)
      requires Valid() && i < |packets| && About(chunk, packets[i].Id())
      modifies this
      ensures Valid()
      ensures outcome == Step(old(cells), chunk, parse).1
      ensures outcome != Abort ==> cells == Step(old(cells), chunk, parse).0
    {
      var p := packets[i];
      var q;
      q, outcome := AddFragment(p, chunk);
      if q.None? {
        RepeatPushed(packets, completed, cells, i, chunk, parse);
        return Nothing;
      }
      NewPushed(packets, completed, cells, i, q.value, chunk, parse);
      if outcome.Deliver? {
        packets, completed, cells := packets[..i] + packets[i + 1..], completed + [p.Id()], cells[p.Id() := Done];
      } else {
        packets, cells := packets[i := q.value], cells[p.Id() := Partial(q.value.Frags())];
      }
    }

    /** The packet with one more fragment, and whether that completes it; `None` for a fragment it has. */
    method AddFragment(p: PacketChunks, chunk: Chunk) returns (q: Option<PacketChunks>, outcome: Outcome)
      requires p.Valid() && About(chunk, p.Id())
      ensures q.None? <==> Has(Num, p.Frags(), NumOf(chunk))
      ensures q.Some? ==>
              && q.value.Valid() && q.value.Id() == p.Id() && q.value.Frags() == Insert(Num, p.Frags(), View(chunk))
              && outcome == Close(q.value.Frags(), parse).1
    {
      for k := 0 to |p.chunks|
        invariant forall j :: 0 <= j < k ==> NumOf(p.chunks[j]) != NumOf(chunk)
      {
        if NumOf(p.chunks[k]) == NumOf(chunk) {
          assert p.Frags()[k].num == NumOf(chunk);
          return None, Nothing;
        }
      }
      AppendSorts(p, chunk);
      var chunks;
      chunks, outcome := IsComplete(p.chunks + [chunk]);
      return Some(PacketChunks(chunks)), outcome;
    }

    /** Sorts the fragments and, when they add up to the announced size, parses their concatenation. */
    method IsComplete(chunks: seq<Chunk>) returns (sorted: seq<Chunk>, outcome: Outcome)
      requires chunks != []
      ensures sorted == Sort(NumOf, chunks)
      ensures outcome == Close(Map(View, sorted), parse).1
    {
      sorted := Sort(NumOf, chunks);
      SortContract(NumOf, chunks);
      assert |sorted| == |multiset(sorted)| == |multiset(chunks)| == |chunks|;
      var serialized: Bytes := [];
      for i := 0 to |sorted|
        invariant serialized == JoinBy(Payload, Map(View, sorted)[..i])
      {
        serialized := serialized + sorted[i].payload.GetOr([]);
        assert Map(View, sorted)[..i + 1][..i] == Map(View, sorted)[..i];
      }
      assert Map(View, sorted)[..|sorted|] == Map(View, sorted);
      if sorted[0].totalPayloadSize.None? {
        return sorted, Nothing;
      }
      if |serialized| != sorted[0].totalPayloadSize.value {
        return sorted, Nothing;
      }
      var packet := parse(serialized);
      if packet.None? {
        return sorted, Abort;
      }
      return sorted, Deliver(packet.value);
    }
  }
}

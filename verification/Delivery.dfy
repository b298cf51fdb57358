/** The packet receiver against what honest senders put on the air, in any order, with losses and repeats. */
module Delivery {
  import opened Basics
  import opened Numbered
  import opened Cutting
  import opened Proto
  import opened Reassembly

  /** A serialized packet and the fragment size its sender used. */
  datatype Sent = Sent(data: Bytes, max: nat)

  /** Everything being sent by anyone, by payload id. Two payloads with one id are not representable. */
  type Air = map<nat, Sent>

  ghost predicate ValidAir(air: Air, parse: Parser) {
    forall id :: id in air ==> ValidSent(air[id], parse)
  }

  ghost predicate ValidSent(s: Sent, parse: Parser) {
    s.data != [] && s.max >= 1 && parse(s.data).Some?
  }

  function Fragments(s: Sent): (r: seq<Fragment>)
    requires s.max >= 1
    ensures |r| == |Cut(s.data, s.max)|
  {
    var pieces := Cut(s.data, s.max);
    seq(|pieces|, i requires 0 <= i < |pieces| =>
      Fragment(i + 1, if i == 0 then Some(|s.data|) else None, pieces[i]))
  }

  /** `c` is one of the fragments of a payload on the air; its retransmission round is arbitrary. */
  ghost predicate Honest(air: Air, c: Chunk) {
    && Accepted(c)
    && IdOf(c) in air
    && var s := air[IdOf(c)];
       s.max >= 1 && 1 <= NumOf(c) <= |Fragments(s)| && View(c) == Fragments(s)[NumOf(c) - 1]
  }

  ghost predicate AllHonest(air: Air, cs: seq<Chunk>) {
    forall i :: 0 <= i < |cs| ==> Honest(air, cs[i])
  }

  /** The fragment numbers of payload `id` that have arrived. */
  ghost function Seen(cs: seq<Chunk>, id: nat): set<nat> {
    set i | 0 <= i < |cs| && About(cs[i], id) :: NumOf(cs[i])
  }

  ghost predicate AllSeen(air: Air, cs: seq<Chunk>, id: nat)
    requires id in air && air[id].max >= 1
  {
    Full(|Fragments(air[id])|, Seen(cs, id))
  }

  /** The cell of a payload as a function of the set of its fragments that have arrived. */
  ghost function CellOf(s: Sent, have: set<nat>): Option<Cell>
    requires s.max >= 1
  {
    if have == {} then None
    else if Full(|Fragments(s)|, have) then Some(Done)
    else Some(Partial(Held(Fragments(s), have)))
  }

  lemma {:induction false} FragmentsShape(s: Sent)
    requires s.max >= 1
    ensures Enumerated(Num, Fragments(s))
    ensures JoinBy(Payload, Fragments(s)) == s.data
    ensures forall i :: 0 <= i < |Fragments(s)| ==> Payload(Fragments(s)[i]) != []
    ensures s.data != [] ==> Fragments(s) != []
  {
    CutIsEven(s.data, s.max);
    CutJoins(s.data, s.max);
    JoinSame(Payload, Fragments(s), Itself, Cut(s.data, s.max));
  }

  /** The byte count is an exact completion test on the pieces of one payload. */
  lemma {:induction false} HeldIsComplete(s: Sent, have: set<nat>)
    requires s.max >= 1 && s.data != []
    ensures CompleteBytes(Held(Fragments(s), have)) == if Full(|Fragments(s)|, have) then Some(s.data) else None
  {
    var frags := Fragments(s);
    FragmentsShape(s);
    HeldBytes(Payload, frags, have);
    var h := Held(frags, have);
    if Full(|frags|, have) {
      HeldFull(frags, have);
    } else if h != [] {
      HeldMembers(Num, frags, have);
      assert HeldPiece(Num, frags, have, h[0]);
    }
  }

  ghost function Nums(fs: seq<Fragment>): set<nat> {
    set i | 0 <= i < |fs| :: fs[i].num
  }

  /**
   For any distinct fragments of one payload, in any order: sorted, they begin with the announced total
   and add up to it if and only if none is missing, and then they join to the packet.
   */
  lemma {:induction false} ByteCountIsExact(s: Sent, fs: seq<Fragment>)
    requires s.max >= 1 && s.data != []
    requires forall i, j :: 0 <= i < j < |fs| ==> fs[i].num != fs[j].num
    requires forall i :: 0 <= i < |fs| ==> 1 <= fs[i].num <= |Fragments(s)| && fs[i] == Fragments(s)[fs[i].num - 1]
    ensures CompleteBytes(Sort(Num, fs)) == if Full(|Fragments(s)|, Nums(fs)) then Some(s.data) else None
  {
    SortIsHeld(s, fs);
    HeldIsComplete(s, Nums(fs));
  }

  lemma {:induction false} NumsGrow(fs: seq<Fragment>)
    requires fs != []
    ensures Nums(fs) == Nums(fs[..|fs| - 1]) + {fs[|fs| - 1].num}
    ensures (forall i, j :: 0 <= i < j < |fs| ==> fs[i].num != fs[j].num) ==> fs[|fs| - 1].num !in Nums(fs[..|fs| - 1])
  {
    var front := fs[..|fs| - 1];
    assert fs[|fs| - 1].num in Nums(fs);
    forall x | x in Nums(front) ensures x in Nums(fs) {
      var i :| 0 <= i < |front| && front[i].num == x;
      assert fs[i].num == x;
    }
  }

  lemma {:induction false} SortIsHeld(s: Sent, fs: seq<Fragment>)
    requires s.max >= 1
    requires forall i, j :: 0 <= i < j < |fs| ==> fs[i].num != fs[j].num
    requires forall i :: 0 <= i < |fs| ==> 1 <= fs[i].num <= |Fragments(s)| && fs[i] == Fragments(s)[fs[i].num - 1]
    ensures Sort(Num, fs) == Held(Fragments(s), Nums(fs))
  {
    if fs == [] {
      HeldNothing(Fragments(s));
      assert Nums(fs) == {};
    } else {
      var front, last := fs[..|fs| - 1], fs[|fs| - 1];
      SortIsHeld(s, front);
      FragmentsShape(s);
      NumsGrow(fs);
      HeldInsert(Num, Fragments(s), Nums(front), last.num);
    }
  }

  lemma {:induction false} SeenGrows(cs: seq<Chunk>, id: nat)
    requires cs != []
    ensures var front, last := cs[..|cs| - 1], cs[|cs| - 1];
            Seen(cs, id) == if About(last, id) then Seen(front, id) + {NumOf(last)} else Seen(front, id)
  {
    var front, last := cs[..|cs| - 1], cs[|cs| - 1];
    forall x | x in Seen(front, id) ensures x in Seen(cs, id) {
      var i :| 0 <= i < |front| && About(front[i], id) && NumOf(front[i]) == x;
      assert About(cs[i], id) && NumOf(cs[i]) == x;
    }
    if About(last, id) {
      assert NumOf(cs[|cs| - 1]) in Seen(cs, id);
    }
  }

  lemma {:induction false} CloseHeld(s: Sent, have: set<nat>, parse: Parser)
    requires ValidSent(s, parse) && have != {}
    ensures Close(Held(Fragments(s), have), parse) ==
            (CellOf(s, have).value, if Full(|Fragments(s)|, have) then Deliver(parse(s.data).value) else Nothing)
  {
    HeldIsComplete(s, have);
  }

  /** One push of an honest fragment acts on the set of fragments seen. */
  lemma {:induction false} PushHonest(s: Sent, have: set<nat>, k: nat, parse: Parser)
    requires ValidSent(s, parse) && 1 <= k <= |Fragments(s)|
    ensures Push(CellOf(s, have), Fragments(s)[k - 1], parse) ==
            (CellOf(s, have + {k}).value,
             if Full(|Fragments(s)|, have + {k}) && !Full(|Fragments(s)|, have) then Deliver(parse(s.data).value)
             else Nothing)
  {
    FragmentsShape(s);
    HeldHas(Num, Fragments(s), have, k);
    if k in have {
      assert have + {k} == have;
    } else {
      HeldInsert(Num, Fragments(s), have, k);
      CloseHeld(s, have + {k}, parse);
      if have == {} {
        HeldNothing(Fragments(s));
      }
    }
  }

  /** One step of the machine acts on the cell of the fragment's payload, by the set of fragments seen. */
  lemma {:induction false} StepHonest(air: Air, cells: Cells, have: set<nat>, c: Chunk, id: nat, parse: Parser)
    requires ValidAir(air, parse) && Honest(air, c) && id in air && Lookup(cells, id) == CellOf(air[id], have)
    ensures Lookup(Step(cells, c, parse).0, id) ==
            CellOf(air[id], if About(c, id) then have + {NumOf(c)} else have)
  {
    if About(c, id) {
      PushHonest(air[id], have, NumOf(c), parse);
    }
  }

  /**
   Each payload's state is a function of the set of its fragments that have arrived: their order, their
   repetition and the traffic of other payloads leave no trace. The program's exit is not reached.
   */
  lemma {:induction false} StateIsTheSetSeen(air: Air, cs: seq<Chunk>, id: nat, parse: Parser)
    requires ValidAir(air, parse) && AllHonest(air, cs) && id in air
    ensures Lookup(Run(cs, parse).0, id) == CellOf(air[id], Seen(cs, id))
  {
    if cs != [] {
      var front, last := cs[..|cs| - 1], cs[|cs| - 1];
      StateIsTheSetSeen(air, front, id, parse);
      SeenGrows(cs, id);
      StepHonest(air, Run(front, parse).0, Seen(front, id), last, id, parse);
    }
  }

  /** Payload `id` is complete after `cs[..t + 1]` and was not after `cs[..t]`. */
  ghost predicate CompletesAt(air: Air, cs: seq<Chunk>, t: nat)
    requires t < |cs| && IdOf(cs[t]) in air && air[IdOf(cs[t])].max >= 1
  {
    AllSeen(air, cs[..t + 1], IdOf(cs[t])) && !AllSeen(air, cs[..t], IdOf(cs[t]))
  }

  /** A packet is reported exactly when its last missing fragment first arrives, and it is the packet sent. */
  lemma {:induction false} ReportedWhenComplete(air: Air, cs: seq<Chunk>, t: nat, parse: Parser)
    requires ValidAir(air, parse) && AllHonest(air, cs) && t < |cs|
    ensures Honest(air, cs[t])
    ensures Run(cs, parse).1[t] ==
            if CompletesAt(air, cs, t) then Deliver(parse(air[IdOf(cs[t])].data).value) else Nothing
  {
    assert Honest(air, cs[t]);
    var id := IdOf(cs[t]);
    assert AllHonest(air, cs[..t]);
    RunPrefix(cs, t, parse);
    StateIsTheSetSeen(air, cs[..t], id, parse);
    SeenNext(cs, t);
    StepReport(air, Run(cs[..t], parse).0, Seen(cs[..t], id), cs[t], parse);
  }

  lemma {:induction false} StepReport(air: Air, cells: Cells, have: set<nat>, c: Chunk, parse: Parser)
    requires ValidAir(air, parse) && Honest(air, c) && Lookup(cells, IdOf(c)) == CellOf(air[IdOf(c)], have)
    ensures var s := air[IdOf(c)]; var n := |Fragments(s)|;
            Step(cells, c, parse).1 ==
            if Full(n, have + {NumOf(c)}) && !Full(n, have) then Deliver(parse(s.data).value) else Nothing
  {
    PushHonest(air[IdOf(c)], have, NumOf(c), parse);
  }

  lemma {:induction false} SeenNext(cs: seq<Chunk>, t: nat)
    requires t < |cs| && Accepted(cs[t])
    ensures Seen(cs[..t + 1], IdOf(cs[t])) == Seen(cs[..t], IdOf(cs[t])) + {NumOf(cs[t])}
  {
    SeenGrows(cs[..t + 1], IdOf(cs[t]));
    assert cs[..t + 1][..t] == cs[..t];
  }

  lemma {:induction false} OrderDoesNotMatter(air: Air, cs: seq<Chunk>, ds: seq<Chunk>, parse: Parser)
    requires ValidAir(air, parse) && AllHonest(air, cs) && AllHonest(air, ds)
    requires forall id :: id in air ==> Seen(cs, id) == Seen(ds, id)
    ensures Run(cs, parse).0 == Run(ds, parse).0
  {
    var a, b := Run(cs, parse).0, Run(ds, parse).0;
    OnlyHonestCells(air, cs, parse);
    OnlyHonestCells(air, ds, parse);
    forall id | id in air ensures Lookup(a, id) == Lookup(b, id) {
      StateIsTheSetSeen(air, cs, id, parse);
      StateIsTheSetSeen(air, ds, id, parse);
    }
    SameLookups(a, b, air.Keys);
  }

  lemma {:induction false} SameLookups(a: Cells, b: Cells, ids: set<nat>)
    requires a.Keys <= ids && b.Keys <= ids && forall id :: id in ids ==> Lookup(a, id) == Lookup(b, id)
    ensures a == b
  {
    forall id | id in ids ensures id in a <==> id in b {
      assert Lookup(a, id) == Lookup(b, id);
    }
    forall id | id in a ensures id in b && a[id] == b[id] {
      assert Lookup(a, id) == Lookup(b, id);
    }
    assert a.Keys == b.Keys;
  }

  lemma {:induction false} OnlyHonestCells(air: Air, cs: seq<Chunk>, parse: Parser)
    requires AllHonest(air, cs)
    ensures Run(cs, parse).0.Keys <= air.Keys
  {
    if cs != [] {
      OnlyHonestCells(air, cs[..|cs| - 1], parse);
    }
  }

  ghost predicate IsOnlyReport(cs: seq<Chunk>, id: nat, t: nat, packet: Packet, parse: Parser) {
    && t < |cs| && IdOf(cs[t]) == id && Run(cs, parse).1[t] == Deliver(packet)
    && forall u :: 0 <= u < |cs| && u != t && IdOf(cs[u]) == id ==> Run(cs, parse).1[u] == Nothing
  }

  /** A payload all of whose fragments arrive is reported once, whatever else happens on the air. */
  lemma {:induction false} ReportedExactlyOnce(air: Air, cs: seq<Chunk>, id: nat, parse: Parser)
    requires ValidAir(air, parse) && AllHonest(air, cs) && id in air && AllSeen(air, cs, id)
    ensures exists t: nat :: IsOnlyReport(cs, id, t, parse(air[id].data).value, parse)
  {
    var t := FirstFull(air, cs, id, parse);
    ReportedWhenComplete(air, cs, t, parse);
    forall u | 0 <= u < |cs| && u != t && IdOf(cs[u]) == id ensures Run(cs, parse).1[u] == Nothing {
      ReportedWhenComplete(air, cs, u, parse);
      if Run(cs, parse).1[u].Deliver? {
        ReportedAtMostOnce(cs, if t < u then t else u, if t < u then u else t, parse);
      }
    }
    assert IsOnlyReport(cs, id, t, parse(air[id].data).value, parse);
  }

  lemma {:induction false} FirstFull(air: Air, cs: seq<Chunk>, id: nat, parse: Parser) returns (t: nat)
    requires ValidAir(air, parse) && AllHonest(air, cs) && id in air && AllSeen(air, cs, id)
    ensures t < |cs| && IdOf(cs[t]) == id && CompletesAt(air, cs, t)
  {
    FragmentsShape(air[id]);
    assert 1 in Seen(cs, id);
    var front := cs[..|cs| - 1];
    if AllSeen(air, front, id) {
      t := FirstFull(air, front, id, parse);
      assert front[..t] == cs[..t] && front[..t + 1] == cs[..t + 1];
    } else {
      t := |cs| - 1;
      SeenGrows(cs, id);
      assert cs[..t + 1] == cs;
    }
  }
}

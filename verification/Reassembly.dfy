/**
 What the packet layer's receiver does, one cell per payload id. `PacketReceiver` proves that the
 vectors of the program implement this machine; here the machine is related to what was sent.
 */
module Reassembly {
  import opened Basics
  import opened Numbered
  import opened Proto

  /** A stored fragment, without its retransmission round, which the receiver never reads. */
  datatype Fragment = Fragment(num: nat, total: Option<nat>, payload: Bytes)

  datatype Cell = Partial(frags: seq<Fragment>) | Done

  /** One cell for each payload id heard of. */
  type Cells = map<nat, Cell>

  /** `Abort` is the program's exit on a payload that is complete and does not parse. */
  datatype Outcome = Nothing | Deliver(packet: Packet) | Abort

  type Parser = Bytes -> Option<Packet>

  function Num(f: Fragment): nat { f.num }

  function Payload(f: Fragment): Bytes { f.payload }

  predicate Accepted(c: Chunk) {
    && c.payloadId.Some?
    && c.chunkId.Some?
    && (c.chunkId.value == 1 ==> c.totalPayloadSize.Some?)
    && c.payload.Some?
  }

  function IdOf(c: Chunk): nat { c.payloadId.GetOr(0) }

  function NumOf(c: Chunk): nat { c.chunkId.GetOr(0) }

  function View(c: Chunk): Fragment {
    Fragment(NumOf(c), c.totalPayloadSize, c.payload.GetOr([]))
  }

  /** The completion test: the first fragment in order announces the number of bytes held. */
  function CompleteBytes(frags: seq<Fragment>): Option<Bytes> {
    if frags != [] && frags[0].total == Some(|JoinBy(Payload, frags)|) then Some(JoinBy(Payload, frags)) else None
  }

  function Close(frags: seq<Fragment>, parse: Parser): (Cell, Outcome) {
    match CompleteBytes(frags)
    case None => (Partial(frags), Nothing)
    case Some(bytes) =>
      match parse(bytes)
      case None => (Partial(frags), Abort)
      case Some(packet) => (Done, Deliver(packet))
  }

  function Push(cell: Option<Cell>, f: Fragment, parse: Parser): (Cell, Outcome) {
    match cell
    case None => Close([f], parse)
    case Some(Done) => (Done, Nothing)
    case Some(Partial(frags)) =>
      if Has(Num, frags, f.num) then (Partial(frags), Nothing) else Close(Insert(Num, frags, f), parse)
  }

  function Lookup(cells: Cells, id: nat): Option<Cell> {
    if id in cells then Some(cells[id]) else None
  }

  function Step(cells: Cells, c: Chunk, parse: Parser): (Cells, Outcome) {
    if !Accepted(c) then (cells, Nothing)
    else
      var (cell, outcome) := Push(Lookup(cells, IdOf(c)), View(c), parse);
      (cells[IdOf(c) := cell], outcome)
  }

  /** The cells after a run and the outcome of each push. A real run ends at its first `Abort`. */
  function Run(cs: seq<Chunk>, parse: Parser): (r: (Cells, seq<Outcome>))
    ensures |r.1| == |cs|
  {
    if cs == [] then (map[], [])
    else
      var (cells, outcomes) := Run(cs[..|cs| - 1], parse);
      var (cells', outcome) := Step(cells, cs[|cs| - 1], parse);
      (cells', outcomes + [outcome])
  }

  lemma {:induction false} RunPrefix(cs: seq<Chunk>, t: nat, parse: Parser)
    requires t < |cs|
    ensures Run(cs, parse).1[t] == Step(Run(cs[..t], parse).0, cs[t], parse).1
    ensures Run(cs, parse).1[..t] == Run(cs[..t], parse).1
  {
    if t < |cs| - 1 {
      var front := cs[..|cs| - 1];
      RunPrefix(front, t, parse);
      assert front[..t] == cs[..t];
      assert Run(cs, parse).1[..t] == Run(front, parse).1[..t];
    }
  }

  // ---- Arbitrary traffic ----

  predicate About(c: Chunk, id: nat) {
    Accepted(c) && IdOf(c) == id
  }

  function Only(cs: seq<Chunk>, id: nat): seq<Chunk> {
    if cs == [] then []
    else Only(cs[..|cs| - 1], id) + if About(cs[|cs| - 1], id) then [cs[|cs| - 1]] else []
  }

  function OutcomesOf(cs: seq<Chunk>, id: nat, parse: Parser): seq<Outcome> {
    if cs == [] then []
    else
      OutcomesOf(cs[..|cs| - 1], id, parse)
      + if About(cs[|cs| - 1], id) then [Run(cs, parse).1[|cs| - 1]] else []
  }

  /** Payloads do not interfere: traffic for other ids changes neither a payload's cell nor its outcomes. */
  lemma {:induction false} PayloadsAreIndependent(cs: seq<Chunk>, id: nat, parse: Parser)
    ensures Lookup(Run(cs, parse).0, id) == Lookup(Run(Only(cs, id), parse).0, id)
    ensures OutcomesOf(cs, id, parse) == Run(Only(cs, id), parse).1
  {
    if cs != [] {
      var front, last := cs[..|cs| - 1], cs[|cs| - 1];
      PayloadsAreIndependent(front, id, parse);
      if About(last, id) {
        assert Only(cs, id)[..|Only(cs, id)| - 1] == Only(front, id);
      } else {
        assert Only(cs, id) == Only(front, id);
        assert OutcomesOf(cs, id, parse) == OutcomesOf(front, id, parse);
      }
    }
  }

  lemma {:induction false} DoneStays(cs: seq<Chunk>, id: nat, i: nat, j: nat, parse: Parser)
    requires i <= j <= |cs|
    ensures Lookup(Run(cs[..i], parse).0, id) == Some(Done) ==> Lookup(Run(cs[..j], parse).0, id) == Some(Done)
    decreases j
  {
    if i < j {
      DoneStays(cs, id, i, j - 1, parse);
      assert cs[..j][..j - 1] == cs[..j - 1];
    }
  }

  /** Whatever arrives, honest or not, no payload id is reported twice. */
  lemma {:induction false} ReportedAtMostOnce(cs: seq<Chunk>, i: nat, j: nat, parse: Parser)
    requires i < j < |cs|
    requires Run(cs, parse).1[i].Deliver? && Run(cs, parse).1[j].Deliver?
    ensures IdOf(cs[i]) != IdOf(cs[j])
  {
    RunPrefix(cs, i, parse);
    RunPrefix(cs, j, parse);
    assert cs[..i + 1][..i] == cs[..i];
    DoneStays(cs, IdOf(cs[i]), i + 1, j, parse);
  }
}

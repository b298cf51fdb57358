/** AX.25 addresses and UI frames, as the program builds and parses them (AX.25 version 2.2, section 3.12). */
module Ax25 {
  import opened Basics

  datatype CallsignConfig = CallsignConfig(callsign: Bytes, ssid: int)

  const SPACE: Byte := 0x20

  /** The most digipeaters a frame may be sent through. */
  const MAX_DIGIPEATERS := 8

  /** What the encoder accepts; on anything else the program exits. */
  predicate Encodable(c: CallsignConfig) {
    0 <= c.ssid <= 15 && |c.callsign| <= 6
  }

  predicate AllEncodable(cs: seq<CallsignConfig>) {
    forall i :: 0 <= i < |cs| ==> Encodable(cs[i])
  }

  function ShiftUp(b: Byte): Byte { b << 1 }

  function ShiftDown(b: Byte): Byte { b >> 1 }

  function SevenBits(b: Byte): Byte { b & 0x7f }

  function Spaces(n: nat): (r: Bytes)
    ensures |r| == n
  {
    if n == 0 then [] else [SPACE] + Spaces(n - 1)
  }

  function Padded(callsign: Bytes): (r: Bytes)
    requires |callsign| <= 6
    ensures |r| == 6
  {
    callsign + Spaces(6 - |callsign|)
  }

  function SsidByte(ssid: int, last: bool): Byte
    requires 0 <= ssid <= 15
  {
    0x60 | ((ssid as bv8) << 1) | (if last then 0x01 else 0x00)
  }

  function EncodeCallsign(c: CallsignConfig, last: bool): (r: Bytes)
    requires Encodable(c)
    ensures |r| == 7
  {
    Map(ShiftUp, Padded(c.callsign)) + [SsidByte(c.ssid, last)]
  }

  /** The characters before the first space. */
  function UpToSpace(name: Bytes): Bytes {
    if name == [] || name[0] == SPACE then [] else [name[0]] + UpToSpace(name[1..])
  }

  predicate MaskOk(b: Byte) { b & 0x60 == 0x60 }

  predicate LastOf(b: Byte) { b & 0x01 > 0 }

  function SsidOf(b: Byte): int { ((b & 0x17) >> 1) as int }

  /** The address at `offset` and its "last" bit; `None` on a short frame or a wrong mask. */
  function DecodeCallsign(frame: Bytes, offset: nat): Option<(CallsignConfig, bool)> {
    if offset + 7 > |frame| then None
    else if !MaskOk(frame[offset + 6]) then None
    else Some((CallsignConfig(UpToSpace(Map(ShiftDown, frame[offset..offset + 6])), SsidOf(frame[offset + 6])),
               LastOf(frame[offset + 6])))
  }

  /** Destination, source and digipeaters: only the final address carries the "last" bit. */
  function EncodeList(cs: seq<CallsignConfig>): Bytes
    requires AllEncodable(cs)
  {
    if cs == [] then [] else EncodeCallsign(cs[0], |cs| == 1) + EncodeList(cs[1..])
  }

  predicate Sendable(source: CallsignConfig, destination: CallsignConfig, digipeaters: seq<CallsignConfig>) {
    && |digipeaters| <= MAX_DIGIPEATERS
    && Encodable(source) && Encodable(destination)
    && AllEncodable(digipeaters)
  }

  /** The frame that carries `payload`: addresses, UI control byte, no layer 3. */
  function Body(payload: Bytes, source: CallsignConfig, destination: CallsignConfig, digipeaters: seq<CallsignConfig>)
    : Bytes
    requires Sendable(source, destination, digipeaters)
  {
    EncodeList([destination, source] + digipeaters) + [0x03, 0xf0] + payload
  }

  // ---- Parsing ----

  datatype DigiResult = Bad(heard: seq<CallsignConfig>) | Good(heard: seq<CallsignConfig>, offset: nat)

  /** The loop over digipeaters, from its i-th turn. */
  function Digis(frame: Bytes, offset: nat, i: nat, last: bool): DigiResult
    requires i <= MAX_DIGIPEATERS
    decreases MAX_DIGIPEATERS - i
  {
    if i == MAX_DIGIPEATERS || last then Good([], offset)
    else
      match DecodeCallsign(frame, offset)
      case None => Bad([])
      case Some((c, l)) =>
        if i == 7 && l then Bad([c])
        else
          match Digis(frame, offset + 7, i + 1, l)
          case Bad(more) => Bad([c] + more)
          case Good(more, end) => Good([c] + more, end)
  }

  /** A received frame, or what was appended to the digipeater list before it was rejected. */
  datatype Reception =
    | Rejected(digipeaters: seq<CallsignConfig>)
    | Frame(source: CallsignConfig, destination: CallsignConfig, digipeaters: seq<CallsignConfig>, payload: Bytes)

  /** A C++ string read at its own length yields NUL. */
  function ByteAt(frame: Bytes, i: nat): Byte {
    if i < |frame| then frame[i] else 0x00
  }

  function ParseFrame(frame: Bytes): Reception {
    match DecodeCallsign(frame, 0)
    case None => Rejected([])
    case Some((destination, _)) =>
      match DecodeCallsign(frame, 7)
      case None => Rejected([])
      case Some((source, last)) =>
        match Digis(frame, 14, 0, last)
        case Bad(digipeaters) => Rejected(digipeaters)
        case Good(digipeaters, offset) =>
          if ByteAt(frame, offset) != 0x03 || ByteAt(frame, offset + 1) != 0xf0 then Rejected(digipeaters)
          else Frame(source, destination, digipeaters, frame[offset + 2..])
  }

  // ---- The loops of the program ----

  /** `None` is the program's exit. */
  method EncodeAX25Callsign(c: CallsignConfig, last: bool) returns (r: Option<Bytes>)
    ensures r == if Encodable(c) then Some(EncodeCallsign(c, last)) else None
  {
    if c.ssid < 0 || c.ssid > 15 {
      return None;
    }
    if |c.callsign| > 6 {
      return None;
    }
    var padded := Padded(c.callsign);
    var formatted: Bytes := [];
    for i := 0 to |padded|
      invariant formatted == Map(ShiftUp, padded)[..i]
    {
      assert ShiftUp(padded[i]) == padded[i] << 1;
      formatted := formatted + [padded[i] << 1];
    }
    assert formatted == Map(ShiftUp, padded);
    return Some(formatted + [0x60 | ((c.ssid as bv8) << 1) | (if last then 0x01 else 0x00)]);
  }

  lemma {:induction false} UpToSpaceStep(name: Bytes, i: nat)
    requires i < |name|
    ensures UpToSpace(name[i..]) == if name[i] == SPACE then [] else [name[i]] + UpToSpace(name[i + 1..])
  {
    assert name[i..][1..] == name[i + 1..];
  }

  /** One turn of the name loop. */
  lemma {:induction false} NameStep(field: Bytes, i: nat, name: Bytes)
    requires i < |field|
    ensures var shifted := Map(ShiftDown, field); var c := ShiftDown(field[i]);
            name + UpToSpace(shifted[i..]) == if c == SPACE then name else name + [c] + UpToSpace(shifted[i + 1..])
  {
    var shifted := Map(ShiftDown, field);
    UpToSpaceStep(shifted, i);
    AppendNothing(name);
  }

  /** The name loop over the six characters of an address. */
  method DecodeName(field: Bytes) returns (name: Bytes)
    ensures name == UpToSpace(Map(ShiftDown, field))
  {
    name := [];
    ghost var shifted := Map(ShiftDown, field);
    for i := 0 to |field|
      invariant name + UpToSpace(shifted[i..]) == UpToSpace(shifted)
    {
      var c := ShiftDown(field[i]);
      NameStep(field, i, name);
      if c == SPACE {
        return;
      }
      name := name + [c];
    }
    AppendNothing(name);
  }

  method DecodeAX25Callsign(frame: Bytes, offset: nat) returns (r: Option<(CallsignConfig, bool)>)
    ensures r == DecodeCallsign(frame, offset)
  {
    if offset + 7 > |frame| {
      return None;
    }
    var ssid := frame[offset + 6];
    if !MaskOk(ssid) {
      return None;
    }
    var name := DecodeName(frame[offset..offset + 6]);
    return Some((CallsignConfig(name, SsidOf(ssid)), LastOf(ssid)));
  }

  /** A result with the digipeaters heard earlier put in front. */
  function Preceded(heard: seq<CallsignConfig>, r: DigiResult): DigiResult {
    match r
    case Bad(more) => Bad(heard + more)
    case Good(more, end) => Good(heard + more, end)
  }

  lemma {:induction false} PrecededStep(heard: seq<CallsignConfig>, c: CallsignConfig, r: DigiResult)
    ensures Preceded(heard, Preceded([c], r)) == Preceded(heard + [c], r)
    ensures Preceded([], r) == r
  {
    assert heard + ([c] + r.heard) == heard + [c] + r.heard;
    assert [] + r.heard == r.heard;
  }

  lemma {:induction false} DigisStep(frame: Bytes, offset: nat, i: nat, last: bool)
    requires i < MAX_DIGIPEATERS && !last
    ensures var next := DecodeCallsign(frame, offset);
            Digis(frame, offset, i, last) ==
            if next.None? then Bad([])
            else if i == 7 && next.value.1 then Bad([next.value.0])
            else Preceded([next.value.0], Digis(frame, offset + 7, i + 1, next.value.1))
  {
  }

  /** The loop over the digipeaters of a frame whose source address was last or not. */
  method DecodeDigipeaters(frame: Bytes, sourceIsLast: bool) returns (r: DigiResult)
    ensures r == Digis(frame, 14, 0, sourceIsLast)
  {
    var last, offset, i := sourceIsLast, 14, 0;
    var heard: seq<CallsignConfig> := [];
    while i < 8 && !last
      invariant 0 <= i <= 8
      invariant Digis(frame, 14, 0, sourceIsLast) == Preceded(heard, Digis(frame, offset, i, last))
    {
      DigisStep(frame, offset, i, last);
      var next := DecodeAX25Callsign(frame, offset);
      if next.None? {
        assert heard + [] == heard;
        return Bad(heard);
      }
      PrecededStep(heard, next.value.0, Digis(frame, offset + 7, i + 1, next.value.1));
      heard := heard + [next.value.0];
      last, offset := next.value.1, offset + 7;
      if i == 7 && last {
        return Bad(heard);
      }
      i := i + 1;
    }
    assert heard + [] == heard;
    return Good(heard, offset);
  }

  // ---- One address ----

  /** What a receiver makes of a callsign: seven-bit characters up to the first space, and SSID bit 2 lost. */
  function Heard(c: CallsignConfig): CallsignConfig {
    CallsignConfig(UpToSpace(Map(SevenBits, c.callsign)), if (c.ssid / 4) % 2 == 0 then c.ssid else c.ssid - 4)
  }

  /** The callsigns that come through unchanged. */
  predicate Faithful(c: CallsignConfig) {
    && (forall i :: 0 <= i < |c.callsign| ==> c.callsign[i] < 0x80 && c.callsign[i] != SPACE)
    && (c.ssid / 4) % 2 == 0
  }

  lemma {:induction false} SsidBits(ssid: int, last: bool)
    requires 0 <= ssid <= 15
    ensures var b := SsidByte(ssid, last);
            MaskOk(b) && LastOf(b) == last && SsidOf(b) == if (ssid / 4) % 2 == 0 then ssid else ssid - 4
  {
  }

  lemma {:induction false} Shifts(b: Byte)
    ensures ShiftDown(ShiftUp(b)) == SevenBits(b)
    ensures SevenBits(b) == b <==> b < 0x80
    ensures SevenBits(SPACE) == SPACE
  {
  }

  lemma {:induction false} SpacesEnd(name: Bytes, n: nat)
    ensures UpToSpace(name + Spaces(n)) == UpToSpace(name)
  {
    if name != [] {
      assert (name + Spaces(n))[1..] == name[1..] + Spaces(n);
      SpacesEnd(name[1..], n);
    }
  }

  lemma {:induction false} ShiftedBytes(s: Bytes)
    ensures Map(ShiftDown, Map(ShiftUp, s)) == Map(SevenBits, s)
  {
    forall i | 0 <= i < |s| ensures ShiftDown(ShiftUp(s[i])) == SevenBits(s[i]) {
      Shifts(s[i]);
    }
  }

  lemma {:induction false} MaskedSpaces(n: nat)
    ensures Map(SevenBits, Spaces(n)) == Spaces(n)
  {
    if n > 0 {
      Shifts(SPACE);
      MaskedSpaces(n - 1);
      assert Map(SevenBits, Spaces(n)) == [SevenBits(SPACE)] + Map(SevenBits, Spaces(n - 1));
    }
  }

  lemma {:induction false} ShiftedName(callsign: Bytes)
    requires |callsign| <= 6
    ensures Map(ShiftDown, Map(ShiftUp, Padded(callsign))) == Map(SevenBits, callsign) + Spaces(6 - |callsign|)
  {
    var n := 6 - |callsign|;
    ShiftedBytes(Padded(callsign));
    MaskedSpaces(n);
    MapConcat(SevenBits, callsign, Spaces(n));
  }

  lemma {:induction false} AddressHeard(frame: Bytes, offset: nat, c: CallsignConfig, last: bool)
    requires Encodable(c) && offset + 7 <= |frame| && frame[offset..offset + 7] == EncodeCallsign(c, last)
    ensures DecodeCallsign(frame, offset) == Some((Heard(c), last))
  {
    var code := EncodeCallsign(c, last);
    assert frame[offset + 6] == code[6] == SsidByte(c.ssid, last);
    assert frame[offset..offset + 6] == code[..6] == Map(ShiftUp, Padded(c.callsign));
    SsidBits(c.ssid, last);
    ShiftedName(c.callsign);
    SpacesEnd(Map(SevenBits, c.callsign), 6 - |c.callsign|);
  }

  lemma {:induction false} UpToSpaceWhole(name: Bytes)
    ensures |UpToSpace(name)| <= |name|
    ensures |UpToSpace(name)| == |name| ==> UpToSpace(name) == name
    ensures |UpToSpace(name)| == |name| <==> forall i :: 0 <= i < |name| ==> name[i] != SPACE
  {
    if name != [] {
      UpToSpaceWhole(name[1..]);
      assert forall i :: 1 <= i < |name| ==> name[i] == name[1..][i - 1];
    }
  }

  /** Which callsigns survive one hop, exactly. */
  lemma {:induction false} HeardExactly(c: CallsignConfig)
    ensures Heard(c) == c <==> Faithful(c)
  {
    var name := Map(SevenBits, c.callsign);
    UpToSpaceWhole(name);
    forall i | 0 <= i < |c.callsign|
      ensures name[i] == c.callsign[i] <==> c.callsign[i] < 0x80
    {
      Shifts(c.callsign[i]);
    }
  }

  // ---- The address list ----

  lemma {:induction false} EncodeListStep(cs: seq<CallsignConfig>, i: nat, before: Bytes)
    requires AllEncodable(cs) && i < |cs|
    ensures before + EncodeList(cs[i..]) == before + EncodeCallsign(cs[i], i == |cs| - 1) + EncodeList(cs[i + 1..])
  {
    assert cs[i..][1..] == cs[i + 1..];
  }

  lemma {:induction false} ListLength(cs: seq<CallsignConfig>)
    requires AllEncodable(cs)
    ensures |EncodeList(cs)| == 7 * |cs|
  {
    if cs != [] {
      ListLength(cs[1..]);
    }
  }

  lemma {:induction false} ListAt(cs: seq<CallsignConfig>, i: nat, at: nat)
    requires AllEncodable(cs) && i < |cs| && at == 7 * i
    ensures |EncodeList(cs)| == 7 * |cs|
    ensures EncodeList(cs)[at..at + 7] == EncodeCallsign(cs[i], i == |cs| - 1)
  {
    var head, tail := EncodeCallsign(cs[0], |cs| == 1), EncodeList(cs[1..]);
    ListLength(cs);
    ListLength(cs[1..]);
    if i > 0 {
      ListAt(cs[1..], i - 1, at - 7);
      SliceOfTail(head, tail, at - 7, at);
    } else {
      SliceOfPrefix(head, head + tail, 0, 7);
    }
  }

  /** Seven bytes an address; the "last" bit is set in the last of them and in no other. */
  lemma {:induction false} ListShape(cs: seq<CallsignConfig>, i: nat)
    requires AllEncodable(cs) && i < |cs|
    ensures |EncodeList(cs)| == 7 * |cs|
    ensures LastOf(EncodeList(cs)[7 * i + 6]) <==> i == |cs| - 1
  {
    ListAt(cs, i, 7 * i);
    assert EncodeList(cs)[7 * i + 6] == EncodeList(cs)[7 * i..7 * i + 7][6];
    SsidBits(cs[i].ssid, i == |cs| - 1);
  }

  lemma {:induction false} ListInFrame(frame: Bytes, cs: seq<CallsignConfig>, i: nat, at: nat)
    requires AllEncodable(cs) && EncodeList(cs) <= frame && i < |cs| && at == 7 * i
    ensures at + 7 <= |frame| && frame[at..at + 7] == EncodeCallsign(cs[i], i == |cs| - 1)
  {
    ListAt(cs, i, at);
    SliceOfPrefix(EncodeList(cs), frame, at, at + 7);
  }

  /** The i-th address of a list at the start of a frame is heard, and its "last" bit is right. */
  lemma {:induction false} ListHeard(frame: Bytes, cs: seq<CallsignConfig>, i: nat, at: nat)
    requires AllEncodable(cs) && EncodeList(cs) <= frame && i < |cs| && at == 7 * i
    ensures DecodeCallsign(frame, at) == Some((Heard(cs[i]), i == |cs| - 1))
  {
    ListInFrame(frame, cs, i, at);
    AddressHeard(frame, at, cs[i], i == |cs| - 1);
  }

  /** Lists of callsigns that come through unchanged have different encodings. */
  lemma {:induction false} ListsDiffer(cs: seq<CallsignConfig>, ds: seq<CallsignConfig>)
    requires AllEncodable(cs) && AllEncodable(ds)
    requires (forall c :: c in cs ==> Faithful(c)) && (forall d :: d in ds ==> Faithful(d))
    ensures EncodeList(cs) == EncodeList(ds) <==> cs == ds
  {
    if EncodeList(cs) == EncodeList(ds) {
      var frame := EncodeList(cs);
      ListLength(cs);
      ListLength(ds);
      forall i | 0 <= i < |cs| ensures cs[i] == ds[i] {
        ListHeard(frame, cs, i, 7 * i);
        ListHeard(frame, ds, i, 7 * i);
        HeardExactly(cs[i]);
        HeardExactly(ds[i]);
      }
    }
  }

  lemma {:induction false} HeardFrom(cs: seq<CallsignConfig>, i: nat)
    requires i < |cs|
    ensures Map(Heard, cs[i..]) == [Heard(cs[i])] + Map(Heard, cs[i + 1..])
  {
  }

  /** One turn of the loop hears one digipeater; an eighth that is the last is too many. */
  lemma {:induction false} DigisTurn(frame: Bytes, cs: seq<CallsignConfig>, i: nat, at: nat)
    requires AllEncodable(cs) && EncodeList(cs) <= frame
    requires |cs| <= 2 + MAX_DIGIPEATERS && i < |cs| - 2 && at == 14 + 7 * i
    ensures Digis(frame, at, i, false) ==
            if i == 7 then Bad([Heard(cs[i + 2])])
            else Preceded([Heard(cs[i + 2])], Digis(frame, at + 7, i + 1, i + 1 == |cs| - 2))
  {
    ListHeard(frame, cs, i + 2, at);
    DigisStep(frame, at, i, false);
  }

  /** What the loop hears from its i-th turn on. */
  function HeardAfter(cs: seq<CallsignConfig>, i: nat): DigiResult
    requires 2 + i <= |cs|
  {
    if |cs| == 10 && i < 8 then Bad(Map(Heard, cs[i + 2..])) else Good(Map(Heard, cs[i + 2..]), 7 * |cs|)
  }

  lemma {:induction false} HeardAfterTurn(cs: seq<CallsignConfig>, i: nat)
    requires 2 + i < |cs| <= 10
    ensures HeardAfter(cs, i) ==
            if i == 7 then Bad([Heard(cs[i + 2])]) else Preceded([Heard(cs[i + 2])], HeardAfter(cs, i + 1))
  {
    HeardFrom(cs, i + 2);
    if i == 7 {
      assert Map(Heard, cs[i + 3..]) == [];
    }
  }

  lemma {:induction false} NoneHeard(frame: Bytes, cs: seq<CallsignConfig>, at: nat)
    requires 2 <= |cs| <= 2 + MAX_DIGIPEATERS && at == 7 * |cs|
    ensures Digis(frame, at, |cs| - 2, true) == HeardAfter(cs, |cs| - 2)
  {
    assert Map(Heard, cs[|cs|..]) == [];
  }

  lemma {:induction false} DigisHeard(frame: Bytes, cs: seq<CallsignConfig>, i: nat, at: nat)
    requires AllEncodable(cs) && EncodeList(cs) <= frame
    requires 2 <= |cs| <= 2 + MAX_DIGIPEATERS && i <= |cs| - 2 && at == 14 + 7 * i
    ensures Digis(frame, at, i, i == |cs| - 2) == HeardAfter(cs, i)
    decreases |cs| - i
  {
    if i < |cs| - 2 {
      DigisTurn(frame, cs, i, at);
      HeardAfterTurn(cs, i);
      DigisHeard(frame, cs, i + 1, at + 7);
    } else {
      NoneHeard(frame, cs, at);
    }
  }

  // ---- Frames ----

  lemma {:induction false} BodyTail(addresses: Bytes, payload: Bytes)
    ensures var frame := addresses + [0x03, 0xf0] + payload;
            frame[|addresses|] == 0x03 && frame[|addresses| + 1] == 0xf0 && frame[|addresses| + 2..] == payload
  {
  }

  /** What a receiver makes of a sent frame: every address as heard; nothing at all with eight digipeaters. */
  lemma {:induction false} BodyHeard(payload: Bytes, source: CallsignConfig, destination: CallsignConfig,
                                     digipeaters: seq<CallsignConfig>)
    requires Sendable(source, destination, digipeaters)
    ensures ParseFrame(Body(payload, source, destination, digipeaters)) ==
            if |digipeaters| == MAX_DIGIPEATERS then Rejected(Map(Heard, digipeaters))
            else Frame(Heard(source), Heard(destination), Map(Heard, digipeaters), payload)
  {
    var cs := [destination, source] + digipeaters;
    var frame := Body(payload, source, destination, digipeaters);
    ListLength(cs);
    ListHeard(frame, cs, 0, 0);
    ListHeard(frame, cs, 1, 7);
    DigisHeard(frame, cs, 0, 14);
    assert cs[2..] == digipeaters;
    BodyTail(EncodeList(cs), payload);
  }

  /** Which frames come back as they were sent. */
  lemma {:induction false} RoundTripExactly(payload: Bytes, source: CallsignConfig, destination: CallsignConfig,
                                            digipeaters: seq<CallsignConfig>)
    requires Sendable(source, destination, digipeaters)
    ensures ParseFrame(Body(payload, source, destination, digipeaters)) ==
            Frame(source, destination, digipeaters, payload)
        <==> |digipeaters| < MAX_DIGIPEATERS && forall c :: c in [destination, source] + digipeaters ==> Faithful(c)
  {
    BodyHeard(payload, source, destination, digipeaters);
    forall c ensures Heard(c) == c <==> Faithful(c) {
      HeardExactly(c);
    }
    var cs := [destination, source] + digipeaters;
    if forall c :: c in cs ==> Faithful(c) {
      assert destination in cs && source in cs;
      assert forall i :: 0 <= i < |digipeaters| ==> digipeaters[i] in cs;
      assert Map(Heard, digipeaters) == digipeaters;
    }
    if Map(Heard, digipeaters) == digipeaters {
      assert forall i :: 0 <= i < |digipeaters| ==> Heard(digipeaters[i]) == digipeaters[i];
    }
  }

  lemma {:induction false} DigisEnd(frame: Bytes, offset: nat, i: nat, last: bool)
    requires i <= MAX_DIGIPEATERS
    ensures var r := Digis(frame, offset, i, last); r.Good? ==> r.offset == offset + 7 * |r.heard|
    decreases MAX_DIGIPEATERS - i
  {
    if i != MAX_DIGIPEATERS && !last && DecodeCallsign(frame, offset).Some? {
      DigisEnd(frame, offset + 7, i + 1, DecodeCallsign(frame, offset).value.1);
    }
  }

  /** An accepted frame has the length that its parts announce. */
  lemma {:induction false} ParsedLength(frame: Bytes)
    ensures var r := ParseFrame(frame); r.Frame? ==> |frame| == 16 + 7 * |r.digipeaters| + |r.payload|
  {
    if ParseFrame(frame).Frame? {
      DigisEnd(frame, 14, 0, DecodeCallsign(frame, 7).value.1);
    }
  }
}

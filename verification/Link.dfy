/** One frame over the air: AX.25 inside KISS, there and back. */
module Link {
  import opened Basics
  import opened Ax25
  import Kiss

  /** What `Send` hands to the TNC. */
  function Transmit(signedChar: bool, payload: Bytes, source: CallsignConfig, destination: CallsignConfig,
                    digipeaters: seq<CallsignConfig>): Bytes
    requires Sendable(source, destination, digipeaters)
  {
    Kiss.Encode(signedChar, Body(payload, source, destination, digipeaters))
  }

  /** What one call of `Receive` makes of the incoming bytes, and the bytes it leaves. */
  function Receive(incoming: Bytes): Option<(Reception, Bytes)> {
    match Kiss.DecodeFrom(Kiss.IDLE, incoming)
    case None => None
    case Some((frame, unread)) => Some((ParseFrame(frame), unread))
  }

  ghost predicate Plain(bytes: Bytes) {
    forall i :: 0 <= i < |bytes| ==> !Kiss.Special(bytes[i])
  }

  /**
   The whole link, as written. What is sent comes back unchanged, and not one byte more is read, exactly
   when there are at most seven digipeaters, no SSID has bit 2 set, callsigns are seven-bit without
   spaces, and either `char` is unsigned or the frame holds neither 0xc0 nor 0xdb.
   */
  lemma {:induction false} LinkExactly(signedChar: bool, payload: Bytes, source: CallsignConfig,
                                       destination: CallsignConfig, digipeaters: seq<CallsignConfig>, rest: Bytes)
    requires Sendable(source, destination, digipeaters)
    ensures Receive(Transmit(signedChar, payload, source, destination, digipeaters) + rest)
            == Some((Frame(source, destination, digipeaters, payload), rest))
        <==> && |digipeaters| < MAX_DIGIPEATERS
             && (forall c :: c in [destination, source] + digipeaters ==> Faithful(c))
             && (signedChar ==> Plain(Body(payload, source, destination, digipeaters)))
  {
    var body := Body(payload, source, destination, digipeaters);
    var input := Kiss.Encode(signedChar, body) + rest;
    ListLength([destination, source] + digipeaters);
    RoundTripExactly(payload, source, destination, digipeaters);
    Kiss.SurvivesExactly(signedChar, body, rest);
    var r := Kiss.DecodeFrom(Kiss.IDLE, input);
    if r.Some? && r.value.1 == rest && ParseFrame(r.value.0) == Frame(source, destination, digipeaters, payload) {
      ParsedLength(r.value.0);
      SameLengthSurvives(signedChar, body, rest);
    }
  }

  /** If a call returns as many bytes as were framed and stops where the frame stopped, it returns the frame. */
  lemma {:induction false} SameLengthSurvives(signedChar: bool, frame: Bytes, rest: Bytes)
    requires frame != []
    requires var r := Kiss.DecodeFrom(Kiss.IDLE, Kiss.Encode(signedChar, frame) + rest);
             r.Some? && r.value.1 == rest && |r.value.0| == |frame|
    ensures Kiss.DecodeFrom(Kiss.IDLE, Kiss.Encode(signedChar, frame) + rest) == Some((frame, rest))
  {
    Kiss.SurvivesExactly(signedChar, frame, rest);
    if signedChar {
      Kiss.VerbatimLength(frame, rest);
      Kiss.NoSpecials(frame);
    }
  }

  /** SSID 4 is heard as 0, and frames through eight digipeaters are not heard at all. */
  lemma {:induction false} Losses(payload: Bytes)
    ensures var station := CallsignConfig([0x4e], 4);
            && ParseFrame(Body(payload, station, station, [])) ==
               Frame(CallsignConfig([0x4e], 0), CallsignConfig([0x4e], 0), [], payload)
            && ParseFrame(Body(payload, station, station, seq(8, _ => station))).Rejected?
  {
    var station := CallsignConfig([0x4e], 4);
    BodyHeard(payload, station, station, []);
    BodyHeard(payload, station, station, seq(8, _ => station));
    Shifts(0x4e);
    var name := Map(SevenBits, [0x4e as Byte]);
    assert name == [0x4e];
    assert UpToSpace(name) == [0x4e] by {
      assert name[1..] == [];
    }
    assert Map(Heard, []) == [];
  }

  // ---- Frames that need no escapes ----

  /** Callsign characters whose shifted form is not 0xc0; letters and digits are. */
  predicate PlainCallsign(c: CallsignConfig) {
    forall i :: 0 <= i < |c.callsign| ==> c.callsign[i] != 0x60 && c.callsign[i] != 0xe0
  }

  lemma {:induction false} PlainConcat(a: Bytes, b: Bytes)
    ensures Plain(a + b) <==> Plain(a) && Plain(b)
  {
    if Plain(a + b) {
      forall i | 0 <= i < |a| ensures !Kiss.Special(a[i]) {
        assert (a + b)[i] == a[i];
      }
      forall i | 0 <= i < |b| ensures !Kiss.Special(b[i]) {
        assert (a + b)[|a| + i] == b[i];
      }
    }
  }

  lemma {:induction false} ShiftedPlain(b: Byte)
    ensures Kiss.Special(ShiftUp(b)) <==> b == 0x60 || b == 0xe0
  {
  }

  lemma {:induction false} SsidPlain(ssid: int, last: bool)
    requires 0 <= ssid <= 15
    ensures !Kiss.Special(SsidByte(ssid, last))
  {
  }

  lemma {:induction false} SpacesPlain(n: nat)
    ensures Plain(Map(ShiftUp, Spaces(n)))
  {
    if n > 0 {
      SpacesPlain(n - 1);
      ShiftedPlain(SPACE);
      assert Map(ShiftUp, Spaces(n)) == [ShiftUp(SPACE)] + Map(ShiftUp, Spaces(n - 1));
    }
  }

  lemma {:induction false} AddressPlain(c: CallsignConfig, last: bool)
    requires Encodable(c)
    ensures Plain(EncodeCallsign(c, last)) <==> PlainCallsign(c)
  {
    var name := Map(ShiftUp, c.callsign);
    var spaces := Map(ShiftUp, Spaces(6 - |c.callsign|));
    MapConcat(ShiftUp, c.callsign, Spaces(6 - |c.callsign|));
    SpacesPlain(6 - |c.callsign|);
    SsidPlain(c.ssid, last);
    PlainConcat(name, spaces);
    PlainConcat(name + spaces, [SsidByte(c.ssid, last)]);
    forall i | 0 <= i < |c.callsign| ensures Kiss.Special(name[i]) <==> c.callsign[i] == 0x60 || c.callsign[i] == 0xe0 {
      ShiftedPlain(c.callsign[i]);
    }
    assert Plain(name) <==> PlainCallsign(c);
  }

  lemma {:induction false} ListPlain(cs: seq<CallsignConfig>)
    requires AllEncodable(cs)
    ensures Plain(EncodeList(cs)) <==> forall i :: 0 <= i < |cs| ==> PlainCallsign(cs[i])
  {
    if cs != [] {
      AddressPlain(cs[0], |cs| == 1);
      ListPlain(cs[1..]);
      PlainConcat(EncodeCallsign(cs[0], |cs| == 1), EncodeList(cs[1..]));
      assert forall i :: 1 <= i < |cs| ==> cs[i] == cs[1..][i - 1];
    }
  }

  /** A frame needs no escape exactly when its callsigns and its payload need none. */
  lemma {:induction false} BodyPlain(payload: Bytes, source: CallsignConfig, destination: CallsignConfig,
                                     digipeaters: seq<CallsignConfig>)
    requires Sendable(source, destination, digipeaters)
    ensures Plain(Body(payload, source, destination, digipeaters)) <==>
            && Plain(payload) && PlainCallsign(source) && PlainCallsign(destination)
            && forall i :: 0 <= i < |digipeaters| ==> PlainCallsign(digipeaters[i])
  {
    var cs := [destination, source] + digipeaters;
    ListPlain(cs);
    PlainConcat(EncodeList(cs), [0x03, 0xf0]);
    PlainConcat(EncodeList(cs) + [0x03, 0xf0], payload);
    assert cs[0] == destination && cs[1] == source;
    assert forall i :: 0 <= i < |digipeaters| ==> cs[i + 2] == digipeaters[i];
  }
}

/** KISS framing, after "The KISS TNC" (Chepponis and Karn, 1987), as the program encodes and decodes it. */
module Kiss {
  import opened Basics

  const FEND: Byte := 0xc0
  const FESC: Byte := 0xdb
  const TFEND: Byte := 0xdc
  const TFESC: Byte := 0xdd

  predicate Special(b: Byte) { b == FEND || b == FESC }

  /**
   The program compares a `char` with a constant above 0x7f. Where `char` is signed such a comparison
   never holds; whether it is signed is the compiler's choice, so it is a parameter here.
   */
  predicate CharIs(signedChar: bool, b: Byte, constant: Byte) {
    b == constant && !(signedChar && constant >= 0x80)
  }

  function Escape(signedChar: bool, b: Byte): Bytes {
    if CharIs(signedChar, b, FEND) then [FESC, TFEND]
    else if CharIs(signedChar, b, FESC) then [FESC, TFESC]
    else [b]
  }

  function EscapeAll(signedChar: bool, frame: Bytes): Bytes {
    if frame == [] then [] else Escape(signedChar, frame[0]) + EscapeAll(signedChar, frame[1..])
  }

  function Encode(signedChar: bool, frame: Bytes): Bytes {
    [FEND, 0x00] + EscapeAll(signedChar, frame) + [FEND]
  }

  /** The decoder's four variables. */
  datatype State = State(frame: Bytes, inFrame: bool, inEscape: bool, nextIsHeader: bool)

  const IDLE := State([], false, false, false)

  predicate Returns(st: State, b: Byte) {
    b == FEND && st.frame != []
  }

  /** One received byte, when it does not end the call. */
  function Feed(st: State, b: Byte): State {
    if b == FEND then st.(nextIsHeader := true)
    else if st.nextIsHeader then
      st.(inFrame := st.inFrame || b & 0x0f == 0, nextIsHeader := false)
    else if !st.inFrame then st
    else if b == FESC then
      if st.inEscape then st.(inEscape := false, frame := []) else st.(inEscape := true)
    else if st.inEscape then
      if b == TFEND then st.(inEscape := false, frame := st.frame + [FEND])
      else if b == TFESC then st.(inEscape := false, frame := st.frame + [FESC])
      else st.(inEscape := false, inFrame := false, frame := [])
    else st.(frame := st.frame + [b])
  }

  /** The frame a call returns and the bytes it leaves unread. `None`: it is still waiting for input. */
  function DecodeFrom(st: State, input: Bytes): (r: Option<(Bytes, Bytes)>)
    ensures r.Some? ==> |r.value.1| < |input| && r.value.0 != []
    decreases |input|
  {
    if input == [] then None
    else if Returns(st, input[0]) then Some((st.frame, input[1..]))
    else DecodeFrom(Feed(st, input[0]), input[1..])
  }

  /** The frames that successive calls return; each call starts afresh. */
  function Frames(input: Bytes): seq<Bytes>
    decreases |input|
  {
    match DecodeFrom(IDLE, input)
    case None => []
    case Some(r) => [r.0] + Frames(r.1)
  }

  // ---- The loops of the program ----

  method EncodeKISSFrame(signedChar: bool, frame: Bytes) returns (kiss: Bytes)
    ensures kiss == Encode(signedChar, frame)
  {
    kiss := [FEND];
    kiss := kiss + [0x00];
    for i := 0 to |frame|
      invariant kiss + EscapeAll(signedChar, frame[i..]) == [FEND, 0x00] + EscapeAll(signedChar, frame)
    {
      var b := frame[i];
      ghost var before := kiss;
      if CharIs(signedChar, b, FEND) {
        kiss := kiss + [FESC, TFEND];
      } else if CharIs(signedChar, b, FESC) {
        kiss := kiss + [FESC, TFESC];
      } else {
        kiss := kiss + [b];
      }
      assert kiss == before + Escape(signedChar, b);
      EscapeStep(signedChar, frame, i, before);
    }
    kiss := kiss + [FEND];
  }

  lemma {:induction false} EscapeStep(signedChar: bool, frame: Bytes, i: nat, before: Bytes)
    requires i < |frame|
    ensures before + EscapeAll(signedChar, frame[i..]) ==
            before + Escape(signedChar, frame[i]) + EscapeAll(signedChar, frame[i + 1..])
  {
    assert frame[i..][1..] == frame[i + 1..];
  }

  method DecodeKISSFrame(incoming: Bytes) returns (frame: Option<Bytes>, unread: Bytes)
    ensures match DecodeFrom(IDLE, incoming)
            case None => frame == None && unread == []
            case Some(r) => frame == Some(r.0) && unread == r.1
  {
    var buffer: Bytes := [];
    var inFrame, inEscape, nextIsHeader := false, false, false;
    unread := incoming;
    while unread != []
      invariant DecodeFrom(IDLE, incoming) == DecodeFrom(State(buffer, inFrame, inEscape, nextIsHeader), unread)
      decreases |unread|
    {
      var b := unread[0];
      unread := unread[1..];
      if b == FEND {
        if buffer != [] {
          return Some(buffer), unread;
        }
        nextIsHeader := true;
      } else if nextIsHeader {
        if b & 0x0f == 0 {
          inFrame := true;
        }
        nextIsHeader := false;
      } else if inFrame {
        if b == FESC {
          if inEscape {
            inEscape := false;
            buffer := [];
          } else {
            inEscape := true;
          }
        } else if inEscape {
          inEscape := false;
          if b == TFEND {
            buffer := buffer + [FEND];
          } else if b == TFESC {
            buffer := buffer + [FESC];
          } else {
            inFrame := false;
            buffer := [];
          }
        } else {
          buffer := buffer + [b];
        }
      }
    }
    return None, [];
  }

  // ---- Transparency ----

  function Specials(frame: Bytes): nat {
    if frame == [] then 0 else (if Special(frame[0]) then 1 else 0) + Specials(frame[1..])
  }

  /** With unsigned bytes the encoded body never contains the delimiter, and grows by one byte per escape. */
  lemma {:induction false} Transparent(frame: Bytes)
    ensures FEND !in EscapeAll(false, frame)
    ensures |Encode(false, frame)| == |frame| + 3 + Specials(frame)
  {
    if frame != [] {
      Transparent(frame[1..]);
    }
  }

  /** A frame without the two special bytes goes out as it is, whatever the compiler's `char`. */
  lemma {:induction false} PlainFrames(signedChar: bool, frame: Bytes)
    requires forall i :: 0 <= i < |frame| ==> !Special(frame[i])
    ensures EscapeAll(signedChar, frame) == frame
    ensures Specials(frame) == 0
  {
    if frame != [] {
      PlainFrames(signedChar, frame[1..]);
    }
  }

  // ---- One frame ----

  lemma {:induction false} DecodeBody(st: State, frame: Bytes, rest: Bytes)
    requires st.inFrame && !st.inEscape && !st.nextIsHeader && st.frame + frame != []
    ensures DecodeFrom(st, EscapeAll(false, frame) + [FEND] + rest) == Some((st.frame + frame, rest))
    decreases |frame|
  {
    if frame == [] {
      AppendNothing(st.frame);
      assert ([] + [FEND] + rest)[1..] == rest;
    } else {
      var b, tail := frame[0], frame[1..];
      var after := st.(frame := st.frame + [b]);
      DecodeBody(after, tail, rest);
      assert frame == [b] + tail;
      BodySplits(b, tail, rest);
      DecodeByte(st, b, EscapeAll(false, tail) + [FEND] + rest);
      assert after.frame + tail == st.frame + frame;
    }
  }

  lemma {:induction false} BodySplits(b: Byte, tail: Bytes, rest: Bytes)
    ensures EscapeAll(false, [b] + tail) + [FEND] + rest == Escape(false, b) + (EscapeAll(false, tail) + [FEND] + rest)
  {
    assert ([b] + tail)[1..] == tail;
  }

  /** One byte of a body. */
  lemma {:induction false} DecodeByte(st: State, b: Byte, input: Bytes)
    requires st.inFrame && !st.inEscape && !st.nextIsHeader
    ensures DecodeFrom(st, Escape(false, b) + input) == DecodeFrom(st.(frame := st.frame + [b]), input)
  {
    var all := Escape(false, b) + input;
    if Special(b) {
      assert all[1..][1..] == input;
      assert Feed(Feed(st, FESC), all[1]) == st.(frame := st.frame + [b]);
    } else {
      assert all[1..] == input;
    }
  }

  lemma {:induction false} DecodeOpening(st: State, input: Bytes)
    requires st.frame == []
    ensures DecodeFrom(st, [FEND, 0x00] + input) == DecodeFrom(st.(inFrame := true, nextIsHeader := false), input)
  {
    var all := [FEND, 0x00] + input;
    assert all[1..][1..] == input;
  }

  /** An encoded frame is the opening, the body and the closing delimiter. */
  lemma {:induction false} EncodedSplit(signedChar: bool, frame: Bytes, rest: Bytes)
    ensures Encode(signedChar, frame) + rest == [FEND, 0x00] + (EscapeAll(signedChar, frame) + [FEND] + rest)
  {
  }

  /**
   Which decoder states survive to read the next frame: exactly those with nothing collected and no
   escape pending, whatever the other two flags. The frame then comes back at its closing delimiter.
   */
  lemma {:induction false} DecodesFromExactly(st: State, frame: Bytes, rest: Bytes)
    requires frame != []
    ensures DecodeFrom(st, Encode(false, frame) + rest) == Some((frame, rest)) <==> st.frame == [] && !st.inEscape
  {
    var body := EscapeAll(false, frame) + [FEND] + rest;
    EncodedSplit(false, frame, rest);
    if st.frame == [] {
      DecodeOpening(st, body);
      var open := st.(inFrame := true, nextIsHeader := false);
      if st.inEscape {
        StrayEscape(open, frame, rest);
      } else {
        DecodeBody(open, frame, rest);
        assert [] + frame == frame;
      }
    } else {
      assert ([FEND, 0x00] + body)[1..] == [0x00] + body;
    }
  }

  /** A pending escape turns the first byte of the body into another, or loses the frame. */
  lemma {:induction false} StrayEscape(st: State, frame: Bytes, rest: Bytes)
    requires frame != [] && st.frame == [] && st.inFrame && st.inEscape && !st.nextIsHeader
    ensures DecodeFrom(st, EscapeAll(false, frame) + [FEND] + rest) != Some((frame, rest))
  {
    var b, tail := frame[0], frame[1..];
    var after := EscapeAll(false, tail) + [FEND] + rest;
    assert EscapeAll(false, frame) + [FEND] + rest == Escape(false, b) + after;
    StrayFirst(st, b, after);
    if b == TFEND || b == TFESC || Special(b) {
      WrongStart(Misread(b), frame, rest);
    } else {
      LostFrame(tail, rest);
    }
  }

  /** What a pending escape makes of the first byte of a body. */
  function Misread(b: Byte): Byte {
    if b == FEND then TFEND else if b == FESC then TFESC else if b == TFEND then FEND else FESC
  }

  lemma {:induction false} StrayFirst(st: State, b: Byte, after: Bytes)
    requires st.frame == [] && st.inFrame && st.inEscape && !st.nextIsHeader
    ensures DecodeFrom(st, Escape(false, b) + after) ==
            DecodeFrom(if b == TFEND || b == TFESC || Special(b) then State([Misread(b)], true, false, false) else IDLE,
                       after)
  {
    var all := Escape(false, b) + after;
    assert [] + [Misread(b)] == [Misread(b)];
    if Special(b) {
      assert all[1..][1..] == after;
    } else {
      assert all[1..] == after;
    }
  }

  lemma {:induction false} WrongStart(c: Byte, frame: Bytes, rest: Bytes)
    requires frame != [] && c != frame[0]
    ensures DecodeFrom(State([c], true, false, false), EscapeAll(false, frame[1..]) + [FEND] + rest)
            != Some((frame, rest))
  {
    DecodeBody(State([c], true, false, false), frame[1..], rest);
    assert ([c] + frame[1..])[0] == c;
  }

  lemma {:induction false} LostFrame(tail: Bytes, rest: Bytes)
    ensures var r := DecodeFrom(IDLE, EscapeAll(false, tail) + [FEND] + rest); r.Some? ==> |r.value.1| < |rest|
  {
    Transparent(tail);
    Outside(EscapeAll(false, tail), [FEND] + rest);
    assert EscapeAll(false, tail) + [FEND] + rest == EscapeAll(false, tail) + ([FEND] + rest);
    assert ([FEND] + rest)[1..] == rest;
  }

  /** Outside a frame everything up to the next delimiter is dropped. */
  lemma {:induction false} Outside(noise: Bytes, input: Bytes)
    requires FEND !in noise
    ensures DecodeFrom(IDLE, noise + input) == DecodeFrom(IDLE, input)
  {
    if noise == [] {
      assert noise + input == input;
    } else {
      assert (noise + input)[1..] == noise[1..] + input;
      Outside(noise[1..], input);
    }
  }

  // ---- The two kinds of `char` ----

  /** Only bytes that are not special can end up in the frame, so they bound its length. */
  lemma {:induction false} DecodedLength(st: State, input: Bytes)
    ensures var r := DecodeFrom(st, input);
            r.Some? ==> |r.value.0| + Specials(input) + |r.value.1| <= |st.frame| + |input| + Specials(r.value.1)
    decreases |input|
  {
    if input != [] && !Returns(st, input[0]) {
      DecodedLength(Feed(st, input[0]), input[1..]);
    } else if input != [] {
      SpecialsBound(input);
    }
  }

  lemma {:induction false} SpecialsBound(input: Bytes)
    ensures Specials(input) <= |input|
  {
    if input != [] {
      SpecialsBound(input[1..]);
    }
  }

  lemma {:induction false} SpecialsConcat(a: Bytes, b: Bytes)
    ensures Specials(a + b) == Specials(a) + Specials(b)
  {
    if a == [] {
      assert a + b == b;
    } else {
      assert (a + b)[1..] == a[1..] + b;
      SpecialsConcat(a[1..], b);
    }
  }

  lemma {:induction false} NoSpecials(frame: Bytes)
    ensures Specials(frame) == 0 <==> forall i :: 0 <= i < |frame| ==> !Special(frame[i])
  {
    if frame != [] {
      NoSpecials(frame[1..]);
      if Specials(frame) == 0 {
        forall i | 0 <= i < |frame| ensures !Special(frame[i]) {
          assert i > 0 ==> frame[i] == frame[1..][i - 1];
        }
      } else if forall i :: 0 <= i < |frame| ==> !Special(frame[i]) {
        assert !Special(frame[0]);
      }
    }
  }

  lemma {:induction false} SignedIsVerbatim(frame: Bytes)
    ensures EscapeAll(true, frame) == frame
  {
    if frame != [] {
      SignedIsVerbatim(frame[1..]);
    }
  }

  /** Sent verbatim, a frame that comes back as long as it was, up to its own end, has no special byte. */
  lemma {:induction false} VerbatimLength(frame: Bytes, rest: Bytes)
    requires frame != []
    requires var r := DecodeFrom(IDLE, Encode(true, frame) + rest);
             r.Some? && r.value.1 == rest && |r.value.0| == |frame|
    ensures Specials(frame) == 0
  {
    SignedIsVerbatim(frame);
    EncodedSplit(true, frame, rest);
    var body := frame + [FEND] + rest;
    DecodeOpening(IDLE, body);
    DecodedLength(State([], true, false, false), body);
    assert body == frame + ([FEND] + rest);
    SpecialsConcat(frame, [FEND] + rest);
    assert ([FEND] + rest)[1..] == rest;
  }

  /**
   When one frame survives the link: always where `char` is unsigned; where it is signed, exactly when
   the frame has neither special byte.
   */
  lemma {:induction false} SurvivesExactly(signedChar: bool, frame: Bytes, rest: Bytes)
    requires frame != []
    ensures DecodeFrom(IDLE, Encode(signedChar, frame) + rest) == Some((frame, rest))
        <==> !signedChar || forall i :: 0 <= i < |frame| ==> !Special(frame[i])
  {
    NoSpecials(frame);
    DecodesFromExactly(IDLE, frame, rest);
    if signedChar {
      SignedIsVerbatim(frame);
      if Specials(frame) == 0 {
        PlainFrames(false, frame);
      } else if DecodeFrom(IDLE, Encode(true, frame) + rest) == Some((frame, rest)) {
        VerbatimLength(frame, rest);
      }
    }
  }

  /** Where `char` is signed, a frame with 0xc0 in it is cut there and the rest is left for the next call. */
  lemma {:induction false} SignedCharCuts(rest: Bytes)
    ensures DecodeFrom(IDLE, Encode(true, [0x41, FEND, 0x42]) + rest) == Some(([0x41], [0x42, FEND] + rest))
  {
    SignedIsVerbatim([0x41, FEND, 0x42]);
    EncodedSplit(true, [0x41, FEND, 0x42], rest);
    var body := [0x41, FEND, 0x42] + [FEND] + rest;
    DecodeOpening(IDLE, body);
    assert body[1..] == [FEND, 0x42, FEND] + rest;
    assert ([FEND, 0x42, FEND] + rest)[1..] == [0x42, FEND] + rest;
    var open := State([], true, false, false);
    assert [] + [0x41 as Byte] == [0x41];
    assert DecodeFrom(open, body) == DecodeFrom(Feed(open, 0x41), body[1..]);
  }

  // ---- Noise between frames ----

  /** The decoder after one byte: where a call returns, the next one starts afresh. */
  function FeedOn(st: State, b: Byte): State {
    if Returns(st, b) then IDLE else Feed(st, b)
  }

  /** The decoder after any bytes, over as many calls as they take. */
  function FeedAll(st: State, bytes: Bytes): State
    decreases |bytes|
  {
    if bytes == [] then st else FeedAll(FeedOn(st, bytes[0]), bytes[1..])
  }

  /** The frames returned on the way. */
  function ReturnedOn(st: State, bytes: Bytes): seq<Bytes>
    decreases |bytes|
  {
    if bytes == [] then []
    else (if Returns(st, bytes[0]) then [st.frame] else []) + ReturnedOn(FeedOn(st, bytes[0]), bytes[1..])
  }

  /** What successive calls return when the first one goes on from `st`. */
  function FramesFrom(st: State, input: Bytes): seq<Bytes> {
    match DecodeFrom(st, input)
    case None => []
    case Some(r) => [r.0] + Frames(r.1)
  }

  /** The states that read the next frame: see `DecodesFromExactly`. */
  predicate Clean(st: State) { st.frame == [] && !st.inEscape }

  lemma {:induction false} FeedNoise(st: State, noise: Bytes, input: Bytes)
    requires FEND !in noise
    ensures DecodeFrom(st, noise + input) == DecodeFrom(FeedAll(st, noise), input)
    decreases |noise|
  {
    if noise == [] {
      assert noise + input == input;
    } else {
      assert (noise + input)[1..] == noise[1..] + input;
      FeedNoise(Feed(st, noise[0]), noise[1..], input);
    }
  }

  lemma {:induction false} IdleStays(noise: Bytes)
    requires FEND !in noise
    ensures FeedAll(IDLE, noise) == IDLE
  {
    if noise != [] {
      IdleStays(noise[1..]);
    }
  }

  lemma {:induction false} Waiting(st: State, tail: Bytes)
    requires FEND !in tail
    ensures DecodeFrom(st, tail) == None
    decreases |tail|
  {
    if tail != [] {
      Waiting(Feed(st, tail[0]), tail[1..]);
    }
  }

  lemma {:induction false} EncodeAlike(signedChar: bool, frame: Bytes)
    requires signedChar ==> forall b :: b in frame ==> !Special(b)
    ensures Encode(signedChar, frame) == Encode(false, frame)
  {
    if signedChar {
      PlainFrames(true, frame);
      PlainFrames(false, frame);
    }
  }

  /** An empty frame leaves the decoder inside a frame, with a header byte still to come. */
  const AFTER_EMPTY := State([], true, false, true)

  lemma {:induction false} EmptyFrame(st: State, rest: Bytes)
    requires Clean(st)
    ensures DecodeFrom(st, Encode(false, []) + rest) == DecodeFrom(AFTER_EMPTY, rest)
  {
    EncodedSplit(false, [], rest);
    DecodeOpening(st, [FEND] + rest);
    assert EscapeAll(false, []) + [FEND] + rest == [FEND] + rest;
    assert ([FEND] + rest)[1..] == rest;
  }

  /**
   Bytes read inside a frame that leave nothing collected: somewhere an escape is followed by a byte that
   means nothing after it, which drops the frame for good, or a doubled escape, which empties it, comes last.
   */
  predicate Dropped(bytes: Bytes) {
    if |bytes| < 2 then false
    else if bytes[0] != FESC then Dropped(bytes[1..])
    else if bytes[1] == FESC then |bytes| == 2 || Dropped(bytes[2..])
    else if bytes[1] == TFEND || bytes[1] == TFESC then Dropped(bytes[2..])
    else true
  }

  /** Noise that does no harm after an empty frame. Its first byte passes for a header. */
  predicate Harmless(noise: Bytes) {
    |noise| <= 1 || Dropped(noise[1..])
  }

  lemma {:induction false} DroppedIsClean(st: State, bytes: Bytes)
    requires st.inFrame && !st.inEscape && !st.nextIsHeader && FEND !in bytes
    ensures Clean(FeedAll(st, bytes)) <==> (bytes == [] && st.frame == []) || Dropped(bytes)
    decreases |bytes|
  {
    if bytes != [] {
      var b, rest := bytes[0], bytes[1..];
      if b != FESC {
        DroppedIsClean(st.(frame := st.frame + [b]), rest);
      } else {
        var escaped := st.(inEscape := true);
        assert Feed(st, FESC) == escaped && FeedAll(st, bytes) == FeedAll(escaped, rest);
        if rest != [] {
          EscapedIsClean(escaped, rest);
          assert bytes == [FESC] + rest;
        }
      }
    }
  }

  /** The same after an escape. */
  lemma {:induction false} EscapedIsClean(st: State, rest: Bytes)
    requires st.inFrame && st.inEscape && !st.nextIsHeader && FEND !in rest && rest != []
    ensures Clean(FeedAll(Feed(st, rest[0]), rest[1..])) <==> Dropped([FESC] + rest)
    decreases |rest|
  {
    var next := Feed(st, rest[0]);
    assert ([FESC] + rest)[2..] == rest[1..];
    if rest[0] == FESC || rest[0] == TFEND || rest[0] == TFESC {
      DroppedIsClean(next, rest[1..]);
    } else {
      IdleStays(rest[1..]);
    }
  }

  lemma {:induction false} HarmlessIsClean(noise: Bytes)
    requires FEND !in noise
    ensures Clean(FeedAll(AFTER_EMPTY, noise)) <==> Harmless(noise)
  {
    if noise != [] {
      assert Feed(AFTER_EMPTY, noise[0]) == State([], true, false, false);
      DroppedIsClean(State([], true, false, false), noise[1..]);
    }
  }

  lemma {:induction false} FirstByte(st: State, b: Byte, input: Bytes)
    ensures FramesFrom(st, [b] + input) ==
            (if Returns(st, b) then [st.frame] else []) + FramesFrom(FeedOn(st, b), input)
  {
    assert ([b] + input)[1..] == input;
  }

  /** Any bytes divide into those that were read and what the calls make of the rest. */
  lemma {:induction false} CallsSplit(st: State, before: Bytes, input: Bytes)
    ensures FramesFrom(st, before + input) == ReturnedOn(st, before) + FramesFrom(FeedAll(st, before), input)
    decreases |before|
  {
    if before == [] {
      assert before + input == input;
    } else {
      var b, rest := before[0], before[1..];
      assert before == [b] + rest;
      AppendTwice([b], rest, input);
      FirstByte(st, b, rest + input);
      CallsSplit(FeedOn(st, b), rest, input);
      AppendTwice(if Returns(st, b) then [st.frame] else [], ReturnedOn(FeedOn(st, b), rest),
                  FramesFrom(FeedAll(st, before), input));
    }
  }

  /**
   After any bytes at all, delimiters and frames among them: the calls return what these bytes make them
   return, and then the next frame, up to its own end, if and only if the bytes leave the decoder clean.
   */
  lemma {:induction false} ReadAfterAnythingExactly(st: State, before: Bytes, frame: Bytes, rest: Bytes)
    requires frame != []
    ensures var input := Encode(false, frame) + rest; var after := FeedAll(st, before);
            && FramesFrom(st, before + input) == ReturnedOn(st, before) + FramesFrom(after, input)
            && (DecodeFrom(after, input) == Some((frame, rest)) <==> Clean(after))
            && (Clean(after) ==> FramesFrom(st, before + input) == ReturnedOn(st, before) + ([frame] + Frames(rest)))
  {
    CallsSplit(st, before, Encode(false, frame) + rest);
    DecodesFromExactly(FeedAll(st, before), frame, rest);
  }

  /** For instance: of two frames that share a delimiter, the second is lost. */
  lemma {:induction false} SharedDelimiter(first: Bytes, second: Bytes)
    requires first != []
    ensures Frames(Encode(false, first) + ([0x00] + EscapeAll(false, second) + [FEND])) == [first]
  {
    var noise := [0x00] + EscapeAll(false, second);
    Transparent(second);
    DecodesFromExactly(IDLE, first, noise + [FEND]);
    Outside(noise, [FEND]);
    assert [FEND][1..] == [];
    assert DecodeFrom(IDLE, [FEND]) == None;
  }

  /** From any state: the frame after noise is read if and only if the noise leaves the decoder clean. */
  lemma {:induction false} ReadAfterNoiseExactly(st: State, noise: Bytes, frame: Bytes, rest: Bytes)
    requires FEND !in noise && frame != []
    ensures DecodeFrom(st, noise + (Encode(false, frame) + rest)) == Some((frame, rest))
        <==> Clean(FeedAll(st, noise))
  {
    FeedNoise(st, noise, Encode(false, frame) + rest);
    DecodesFromExactly(FeedAll(st, noise), frame, rest);
  }

  /** The frame after an empty frame and noise is read if and only if the noise is harmless. */
  lemma {:induction false} NoiseAfterEmptyExactly(noise: Bytes, frame: Bytes, rest: Bytes)
    requires FEND !in noise && frame != []
    ensures DecodeFrom(IDLE, Encode(false, []) + (noise + (Encode(false, frame) + rest))) == Some((frame, rest))
        <==> Harmless(noise)
  {
    EmptyFrame(IDLE, noise + (Encode(false, frame) + rest));
    ReadAfterNoiseExactly(AFTER_EMPTY, noise, frame, rest);
    HarmlessIsClean(noise);
  }

  /** Noise without an escape byte does no harm if and only if it is at most one byte. */
  lemma {:induction false} PlainNoise(noise: Bytes)
    requires FESC !in noise
    ensures Harmless(noise) <==> |noise| <= 1
  {
    if |noise| > 1 {
      NothingDropped(noise[1..]);
    }
  }

  lemma {:induction false} NothingDropped(bytes: Bytes)
    requires FESC !in bytes
    ensures !Dropped(bytes)
  {
    if |bytes| >= 2 {
      NothingDropped(bytes[1..]);
    }
  }

  /** For instance: two bytes of noise after an empty frame, and the second is returned as a frame. */
  lemma {:induction false} NoiseAfterEmptyFrame(rest: Bytes)
    ensures DecodeFrom(IDLE, Encode(false, []) + ([0x41, 0x42, FEND] + rest)) == Some(([0x42], rest))
  {
    EmptyFrame(IDLE, [0x41, 0x42, FEND] + rest);
    var open := State([], true, false, false);
    var input := [0x41, 0x42, FEND] + rest;
    var second := [0x42, FEND] + rest;
    assert input[1..] == second && second[1..] == [FEND] + rest;
    assert ([FEND] + rest)[1..] == rest;
    assert Feed(AFTER_EMPTY, 0x41) == open && Feed(open, 0x42) == State([0x42], true, false, false);
    assert DecodeFrom(AFTER_EMPTY, input) == DecodeFrom(open, second);
    assert DecodeFrom(open, second) == DecodeFrom(State([0x42], true, false, false), [FEND] + rest);
  }

  // ---- A stream of frames ----

  /** What is on the line: a frame as some sender encodes it, or a bare delimiter; and the noise before it. */
  datatype Item = Framed(noise: Bytes, signedChar: bool, frame: Bytes) | Delimiter(noise: Bytes)

  function BytesOf(item: Item): Bytes {
    match item
    case Framed(_, signedChar, frame) => Encode(signedChar, frame)
    case Delimiter(_) => [FEND]
  }

  function Stream(items: seq<Item>): Bytes {
    if items == [] then [] else items[0].noise + (BytesOf(items[0]) + Stream(items[1..]))
  }

  /** The frame a receiver should get from an item, if any. */
  function FrameIn(item: Item): seq<Bytes> {
    if item.Framed? && item.frame != [] then [item.frame] else []
  }

  function FramesIn(items: seq<Item>): seq<Bytes> {
    if items == [] then [] else FrameIn(items[0]) + FramesIn(items[1..])
  }

  /** The state an item leaves behind when it is read from `st`. */
  function Behind(st: State, item: Item): State {
    match item
    case Framed(_, _, frame) => if frame == [] then AFTER_EMPTY else IDLE
    case Delimiter(_) => st.(nextIsHeader := true)
  }

  /** The noise before the item, read from `st`, leaves the decoder clean. */
  predicate Fits(st: State, item: Item) {
    FEND !in item.noise && Clean(FeedAll(st, item.noise))
  }

  /** Every item fits the state the one before it leaves. */
  predicate Receivable(st: State, items: seq<Item>)
    decreases |items|
  {
    items != [] ==> Fits(st, items[0]) && Receivable(Behind(FeedAll(st, items[0].noise), items[0]), items[1..])
  }

  /** The frame suits its sender's `char`. */
  ghost predicate Suits(item: Item) {
    item.Framed? && item.signedChar ==> forall b :: b in item.frame ==> !Special(b)
  }

  ghost predicate AllSuit(items: seq<Item>) {
    forall i :: 0 <= i < |items| ==> Suits(items[i])
  }

  /** It is enough that noise has no delimiter and comes only first or after nonempty frames. */
  ghost predicate Tidy(items: seq<Item>) {
    && (forall i :: 0 <= i < |items| ==> FEND !in items[i].noise)
    && (forall i :: 0 < i < |items| && FrameIn(items[i - 1]) == [] ==> items[i].noise == [])
  }

  lemma {:induction false} TidyIsReceivable(st: State, items: seq<Item>)
    requires Tidy(items) && Clean(st) && (st != IDLE && items != [] ==> items[0].noise == [])
    ensures Receivable(st, items)
    decreases |items|
  {
    if items != [] {
      IdleStays(items[0].noise);
      var next := Behind(FeedAll(st, items[0].noise), items[0]);
      var rest := items[1..];
      assert forall i :: 0 <= i < |rest| ==> rest[i] == items[i + 1];
      TidyIsReceivable(next, rest);
    }
  }

  lemma {:induction false} DelimiterRead(st: State, rest: Bytes)
    requires Clean(st)
    ensures DecodeFrom(st, [FEND] + rest) == DecodeFrom(st.(nextIsHeader := true), rest)
  {
    assert ([FEND] + rest)[1..] == rest;
  }

  /** One item from a state it fits: its frame is returned, or the call goes on from the state behind it. */
  lemma {:induction false} FirstItem(st: State, item: Item, rest: Bytes)
    requires Fits(st, item) && Suits(item)
    ensures DecodeFrom(st, item.noise + (BytesOf(item) + rest)) ==
            if FrameIn(item) == [] then DecodeFrom(Behind(FeedAll(st, item.noise), item), rest)
            else Some((item.frame, rest))
  {
    var clean := FeedAll(st, item.noise);
    FeedNoise(st, item.noise, BytesOf(item) + rest);
    match item {
      case Delimiter(_) => DelimiterRead(clean, rest);
      case Framed(_, signedChar, frame) =>
        EncodeAlike(signedChar, frame);
        if frame == [] {
          EmptyFrame(clean, rest);
        } else {
          DecodesFromExactly(clean, frame, rest);
        }
    }
  }

  lemma {:induction false} StreamSplits(items: seq<Item>, tail: Bytes)
    requires items != []
    ensures Stream(items) + tail == items[0].noise + (BytesOf(items[0]) + (Stream(items[1..]) + tail))
  {
  }

  lemma {:induction false} StreamFrom(st: State, items: seq<Item>, tail: Bytes)
    requires Receivable(st, items) && AllSuit(items) && FEND !in tail
    ensures FramesFrom(st, Stream(items) + tail) == FramesIn(items)
    decreases |items|
  {
    if items == [] {
      assert Stream(items) + tail == tail;
      Waiting(st, tail);
    } else {
      var next := Behind(FeedAll(st, items[0].noise), items[0]);
      StreamSplits(items, tail);
      FirstItem(st, items[0], Stream(items[1..]) + tail);
      assert Suits(items[0]) && forall i :: 0 <= i < |items[1..]| ==> items[1..][i] == items[i + 1];
      StreamFrom(next, items[1..], tail);
    }
  }

  /**
   Successive calls return the nonempty frames of a stream, in order, past empty frames, bare delimiters
   and noise; a trailing piece of noise leaves the last call waiting.
   */
  lemma {:induction false} StreamDecodes(items: seq<Item>, tail: Bytes)
    requires Receivable(IDLE, items) && AllSuit(items) && FEND !in tail
    ensures Frames(Stream(items) + tail) == FramesIn(items)
  {
    StreamFrom(IDLE, items, tail);
  }
}

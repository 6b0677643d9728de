/**
 SLIP framing (section "PROTOCOL" of RFC 1055) as the simulated bootloader speaks it: the encoder,
 the byte-by-byte decoder and what the decoder delivers for streams of frames.
 */
module Slip {
  import opened Common

  const FRAME_END: byte := 0xC0
  const ESCAPE: byte := 0xDB
  const ESCAPED_END: byte := 0xDC
  const ESCAPED_ESCAPE: byte := 0xDD

  // ----- the encoder -----

  function Escaped(b: byte): (r: seq<byte>)
    ensures FRAME_END !in r
  {
    if b == FRAME_END then [ESCAPE, ESCAPED_END]
    else if b == ESCAPE then [ESCAPE, ESCAPED_ESCAPE]
    else [b]
  }

  function Body(payload: seq<byte>): seq<byte> {
    if payload == [] then [] else Escaped(payload[0]) + Body(payload[1..])
  }

  function Frame(payload: seq<byte>): seq<byte> {
    [FRAME_END] + Body(payload) + [FRAME_END]
  }

  /** Between the two ends of a frame there is no end byte. */
  lemma {:induction false} BodyHasNoEnd(payload: seq<byte>)
    ensures FRAME_END !in Body(payload)
  {
    if payload != [] {
      BodyHasNoEnd(payload[1..]);
    }
  }

  lemma {:induction false} BodyAppend(payload: seq<byte>, b: byte)
    ensures Body(payload + [b]) == Body(payload) + Escaped(b)
  {
    if payload == [] {
      assert [b][1..] == [];
    } else {
      BodyAppend(payload[1..], b);
      assert (payload + [b])[1..] == payload[1..] + [b];
    }
  }

  /** On the wire: two end bytes, and before the last one what each byte of the payload is sent as. */
  lemma OnTheWire(payload: seq<byte>, b: byte)
    ensures Frame([]) == [0xC0, 0xC0]
    ensures var before, sent := Frame(payload), Frame(payload + [b]);
      && before != []
      && sent == before[..|before| - 1]
                 + (if b == 0xC0 then [0xDB, 0xDC] else if b == 0xDB then [0xDB, 0xDD] else [b]) + [0xC0]
  {
    BodyAppend(payload, b);
    assert Frame(payload)[..|Frame(payload)| - 1] == [FRAME_END] + Body(payload);
  }

  method SlipEscape(payload: seq<byte>) returns (out: seq<byte>)
    ensures out == Frame(payload)
  {
    out := [FRAME_END];
    for i := 0 to |payload|
      invariant out == [FRAME_END] + Body(payload[..i])
    {
      BodyAppend(payload[..i], payload[i]);
      assert payload[..i + 1] == payload[..i] + [payload[i]];
      if payload[i] == FRAME_END {
        out := out + [ESCAPE, ESCAPED_END];
      } else if payload[i] == ESCAPE {
        out := out + [ESCAPE, ESCAPED_ESCAPE];
      } else {
        out := out + [payload[i]];
      }
    }
    assert payload[..|payload|] == payload;
    out := out + [FRAME_END];
  }

  // ----- the decoder -----

  datatype State = State(started: bool, escaped: bool, pending: seq<byte>)

  const INITIAL := State(false, false, [])
  /** Between two frames. */
  const IDLE := State(true, false, [])

  class Decoder {
    var started: bool
    var escaped: bool
    var pending: seq<byte>

    ghost function Now(): State
      reads this
    {
      State(started, escaped, pending)
    }

    constructor ()
      ensures Now() == INITIAL
    {
      started, escaped, pending := false, false, [];
    }

    /** One byte of the stream; what is handed to the bootloader, if this completes a frame. */
    method Feed(b: byte) returns (frame: Option<seq<byte>>)
      modifies this
      ensures Now() == Step(old(Now()), b) && frame == Completed(old(Now()), b)
    {
      frame := None;
      if b == FRAME_END {
        if started && pending != [] {
          frame := Some(pending);
          pending := [];
        }
        started := true;
      } else if started {
        if escaped {
          pending := pending + [if b == ESCAPED_END then FRAME_END else ESCAPE];
          escaped := false;
        } else if b == ESCAPE {
          escaped := true;
        } else {
          pending := pending + [b];
        }
      }
    }

    /** The whole stream. */
    method FeedAll(stream: seq<byte>) returns (frames: seq<seq<byte>>)
      modifies this
      ensures Now() == After(old(Now()), stream) && frames == Delivered(old(Now()), stream)
    {
      frames := [];
      ghost var start := Now();
      for i := 0 to |stream|
        invariant Now() == After(start, stream[..i]) && frames == Delivered(start, stream[..i])
      {
        var frame := Feed(stream[i]);
        Extend(start, stream[..i], stream[i..i + 1]);
        assert stream[..i + 1] == stream[..i] + stream[i..i + 1];
        OneByte(After(start, stream[..i]), stream[i..i + 1]);
        if frame.Some? {
          frames := frames + [frame.value];
        }
      }
      assert stream[..|stream|] == stream;
    }
  }

  function Step(s: State, b: byte): State {
    if b == FRAME_END then State(true, s.escaped, if s.started then [] else s.pending)
    else if !s.started then s
    else if s.escaped then State(true, false, s.pending + [if b == ESCAPED_END then FRAME_END else ESCAPE])
    else if b == ESCAPE then s.(escaped := true)
    else s.(pending := s.pending + [b])
  }

  function Completed(s: State, b: byte): Option<seq<byte>> {
    if b == FRAME_END && s.started && s.pending != [] then Some(s.pending) else None
  }

  function After(s: State, stream: seq<byte>): State
    decreases |stream|
  {
    if stream == [] then s else After(Step(s, stream[0]), stream[1..])
  }

  function Delivered(s: State, stream: seq<byte>): seq<seq<byte>>
    decreases |stream|
  {
    if stream == [] then []
    else (match Completed(s, stream[0]) case None => [] case Some(f) => [f]) +
         Delivered(Step(s, stream[0]), stream[1..])
  }

  lemma OneByte(s: State, one: seq<byte>)
    requires |one| == 1
    ensures After(s, one) == Step(s, one[0])
    ensures Delivered(s, one) == match Completed(s, one[0]) case None => [] case Some(f) => [f]
  {
  }

  /** A stream may be cut anywhere. */
  lemma {:induction false} Extend(s: State, a: seq<byte>, b: seq<byte>)
    ensures After(s, a + b) == After(After(s, a), b)
    ensures Delivered(s, a + b) == Delivered(s, a) + Delivered(After(s, a), b)
    decreases |a|
  {
    if a == [] {
      assert a + b == b;
    } else {
      assert (a + b)[1..] == a[1..] + b;
      Extend(Step(s, a[0]), a[1..], b);
    }
  }

  /** Before the first end byte nothing happens at all. */
  lemma {:induction false} NoiseIsIgnored(s: State, noise: seq<byte>)
    requires !s.started && FRAME_END !in noise
    ensures After(s, noise) == s && Delivered(s, noise) == []
    decreases |noise|
  {
    if noise != [] {
      NoiseIsIgnored(s, noise[1..]);
    }
  }

  lemma EscapedIsUndone(s: State, b: byte)
    requires s.started && !s.escaped
    ensures After(s, Escaped(b)) == s.(pending := s.pending + [b]) && Delivered(s, Escaped(b)) == []
  {
    var e := Escaped(b);
    if |e| == 2 {
      assert e[1..] == [e[1]];
      OneByte(Step(s, e[0]), e[1..]);
    }
  }

  lemma {:induction false} BodyIsCollected(s: State, payload: seq<byte>)
    requires s.started && !s.escaped
    ensures After(s, Body(payload)) == s.(pending := s.pending + payload) && Delivered(s, Body(payload)) == []
    decreases |payload|
  {
    if payload != [] {
      var next := s.(pending := s.pending + [payload[0]]);
      EscapedIsUndone(s, payload[0]);
      Extend(s, Escaped(payload[0]), Body(payload[1..]));
      BodyIsCollected(next, payload[1..]);
      assert s.pending + payload == next.pending + payload[1..];
    } else {
      assert s.pending + payload == s.pending;
    }
  }

  /** A payload that is empty is not delivered. */
  function Full(payloads: seq<seq<byte>>): seq<seq<byte>> {
    if payloads == [] then []
    else (if payloads[0] == [] then [] else [payloads[0]]) + Full(payloads[1..])
  }

  /** A frame in the stream, cut into its end bytes and its body. */
  lemma FrameInParts(s: State, payload: seq<byte>)
    ensures var begun := Step(s, FRAME_END);
      var read := After(begun, Body(payload));
      && After(s, Frame(payload)) == Step(read, FRAME_END)
      && Delivered(s, Frame(payload))
         == Delivered(s, [FRAME_END]) + Delivered(begun, Body(payload)) + Delivered(read, [FRAME_END])
  {
    var begun := Step(s, FRAME_END);
    Extend(s, [FRAME_END] + Body(payload), [FRAME_END]);
    Extend(s, [FRAME_END], Body(payload));
    OneByte(s, [FRAME_END]);
    OneByte(After(begun, Body(payload)), [FRAME_END]);
  }

  lemma FrameIsDelivered(s: State, payload: seq<byte>)
    requires s == IDLE || s == INITIAL
    ensures After(s, Frame(payload)) == IDLE && Delivered(s, Frame(payload)) == if payload == [] then [] else [payload]
  {
    hide Step;
    FrameInParts(s, payload);
    EndByte(s);
    BodyIsCollected(IDLE, payload);
    assert [] + payload == payload;
    EndByte(State(true, false, payload));
  }

  lemma EndByte(s: State)
    ensures Step(s, FRAME_END) == State(true, s.escaped, if s.started then [] else s.pending)
    ensures Delivered(s, [FRAME_END]) == if s.started && s.pending != [] then [s.pending] else []
  {
    OneByte(s, [FRAME_END]);
  }

  function Frames(payloads: seq<seq<byte>>): seq<byte> {
    if payloads == [] then [] else Frame(payloads[0]) + Frames(payloads[1..])
  }

  lemma {:induction false} FramesAreDelivered(s: State, payloads: seq<seq<byte>>)
    requires s == IDLE || s == INITIAL
    ensures Delivered(s, Frames(payloads)) == Full(payloads)
    decreases |payloads|
  {
    if payloads != [] {
      hide Frame;
      FrameIsDelivered(s, payloads[0]);
      Extend(s, Frame(payloads[0]), Frames(payloads[1..]));
      FramesAreDelivered(IDLE, payloads[1..]);
    }
  }

  lemma {:induction false} FullKeepsNonEmpty(payloads: seq<seq<byte>>)
    requires forall i :: 0 <= i < |payloads| ==> payloads[i] != []
    ensures Full(payloads) == payloads
  {
    if payloads != [] {
      FullKeepsNonEmpty(payloads[1..]);
    }
  }

  /** Whatever noise precedes them, the payloads are delivered in order, each exactly once. */
  lemma RoundTrip(noise: seq<byte>, payloads: seq<seq<byte>>)
    requires FRAME_END !in noise
    ensures Delivered(INITIAL, noise + Frames(payloads)) == Full(payloads)
    ensures (forall i :: 0 <= i < |payloads| ==> payloads[i] != []) ==>
      Delivered(INITIAL, noise + Frames(payloads)) == payloads
  {
    Extend(INITIAL, noise, Frames(payloads));
    NoiseIsIgnored(INITIAL, noise);
    FramesAreDelivered(INITIAL, payloads);
    if forall i :: 0 <= i < |payloads| ==> payloads[i] != [] {
      FullKeepsNonEmpty(payloads);
    }
  }

  // ----- damage -----

  /** What is in front of a frame that has been begun in the middle of another. */
  function Cut(s: State): seq<seq<byte>> {
    if s.started && s.pending != [] then [s.pending] else []
  }

  /** The decoder has nothing pending before it has seen an end byte; every run keeps that. */
  predicate Reached(s: State) {
    !s.started ==> s == INITIAL
  }

  lemma {:induction false} RunsAreReached(s: State, stream: seq<byte>)
    requires Reached(s)
    ensures Reached(After(s, stream))
    decreases |stream|
  {
    if stream != [] {
      RunsAreReached(Step(s, stream[0]), stream[1..]);
    }
  }

  /** The byte that begins a body is not the one that is taken for the second half of an escape. */
  lemma FirstEscaped(b: byte, s: State)
    requires s == State(true, true, [])
    ensures var after := After(s, Escaped(b));
      && after == State(true, false, after.pending) && after.pending != [] && Delivered(s, Escaped(b)) == []
      && forall rest: seq<byte>, sent: seq<byte> :: after.pending + rest != [b] + sent || |rest| != |sent|
  {
    var e := Escaped(b);
    var first: seq<byte> := [if e[0] == ESCAPED_END then FRAME_END else ESCAPE];
    assert e == e[..1] + e[1..];
    Extend(s, e[..1], e[1..]);
    OneByte(s, e[..1]);
    if |e| == 2 {
      OneByte(State(true, false, first), e[1..]);
      assert |After(s, e).pending| == 2;
    } else {
      assert After(s, e).pending == first && first[0] != b;
      forall rest: seq<byte>, sent: seq<byte>
        ensures first + rest != [b] + sent
      {
        assert (first + rest)[0] != ([b] + sent)[0];
      }
    }
  }

  lemma DamagedBody(payload: seq<byte>)
    requires payload != []
    ensures var s := State(true, true, []);
      var after := After(s, Body(payload));
      && after == State(true, false, after.pending) && after.pending != [] && after.pending != payload
      && Delivered(s, Body(payload)) == []
  {
    var s, e, rest := State(true, true, []), Escaped(payload[0]), payload[1..];
    FirstEscaped(payload[0], s);
    var next := After(s, e);
    Extend(s, e, Body(rest));
    BodyIsCollected(next, rest);
    assert payload == [payload[0]] + rest;
  }

  /**
   A frame after anything at all: it is delivered as it was sent if and only if no escape is left
   open, and in either case the decoder is in step again behind it.
   */
  lemma FrameAfterAnything(s: State, payload: seq<byte>)
    requires Reached(s) && payload != []
    ensures After(s, Frame(payload)) == IDLE
    ensures Delivered(s, Frame(payload)) == Cut(s) + [payload] <==> !s.escaped
  {
    hide Step;
    FrameInParts(s, payload);
    EndByte(s);
    if s.escaped {
      DamagedBody(payload);
      var read := After(State(true, true, []), Body(payload));
      EndByte(read);
      assert Delivered(s, Frame(payload)) == Cut(s) + [read.pending];
      assert (Cut(s) + [read.pending])[|Cut(s)|] != (Cut(s) + [payload])[|Cut(s)|];
    } else {
      BodyIsCollected(IDLE, payload);
      assert [] + payload == payload;
      EndByte(State(true, false, payload));
    }
  }

  /** At most the first frame behind damaged input is lost. */
  lemma Resynchronises(garbage: seq<byte>, payload: seq<byte>, payloads: seq<seq<byte>>)
    requires payload != []
    ensures Delivered(INITIAL, garbage + Frame(payload) + Frames(payloads))
         == Delivered(INITIAL, garbage + Frame(payload)) + Full(payloads)
  {
    RunsAreReached(INITIAL, garbage);
    FrameAfterAnything(After(INITIAL, garbage), payload);
    Extend(INITIAL, garbage, Frame(payload));
    Extend(INITIAL, garbage + Frame(payload), Frames(payloads));
    FramesAreDelivered(IDLE, payloads);
  }

  /** An input that shows it: the letter A, framed behind a frame cut off in an escape, arrives as an escape byte. */
  lemma EscapeStaysOpen()
    ensures After(INITIAL, [FRAME_END, ESCAPE]) == State(true, true, [])
    ensures Delivered(INITIAL, [FRAME_END, ESCAPE] + Frame([65])) == [[ESCAPE]]
  {
    var damaged: seq<byte> := [FRAME_END, ESCAPE];
    assert damaged == [FRAME_END] + [ESCAPE];
    OneByte(INITIAL, [FRAME_END]);
    OneByte(IDLE, [ESCAPE]);
    Extend(INITIAL, [FRAME_END], [ESCAPE]);
    Extend(INITIAL, damaged, Frame([65]));
    var open := State(true, true, []);
    assert Body([65]) == [65] by { assert [65][1..] == []; }
    assert Frame([65]) == [FRAME_END] + ([65] + [FRAME_END]);
    Extend(open, [FRAME_END], [65] + [FRAME_END]);
    OneByte(open, [FRAME_END]);
    Extend(open, [65], [FRAME_END]);
    OneByte(open, [65]);
    assert After(open, [65]) == State(true, false, [ESCAPE]);
    OneByte(State(true, false, [ESCAPE]), [FRAME_END]);
  }
}

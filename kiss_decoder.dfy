/**
 * The receive half of the KISS codec, DotPacket.Kiss/KissDecoder.cs: a byte-at-a-time
 * framing state machine that queues completed frames.
 */
module KissDecoding {
  import opened Wrappers
  import opened Bytes
  import opened KissConstants
  import opened KissFrames
  import opened KissEncoding

  /** The locals of `Process`: the open frame buffer (null when outside a frame) and the escape flag. */
  datatype DecoderState = DecoderState(frameBuffer: Option<seq<byte>>, escapeMode: bool)

  /** The state `Process` starts in. */
  const Idle := DecoderState(None, false)

  /** The decoder is only ever escaped inside an open frame. */
  predicate EscapeInsideFrame(s: DecoderState)
  {
    s.escapeMode ==> s.frameBuffer.Some?
  }

  /** A new state and the frames enqueued on the way to it. */
  datatype Decoded = Decoded(state: DecoderState, frames: seq<KissFrame>)

  /** The state with `b` appended to the open frame buffer. */
  function Open(buffer: seq<byte>, escapeMode: bool): DecoderState
  {
    DecoderState(Some(buffer), escapeMode)
  }

  /**
   * One pass of the `switch` in `KissDecoder.Process` on byte `b`; `now` is the clock
   * reading the completed frame is stamped with.
   */
  function DecodeByte(s: DecoderState, b: byte, now: Timestamp): (d: Decoded)
    ensures |d.frames| <= 1
    ensures EscapeInsideFrame(s) ==> EscapeInsideFrame(d.state)
    ensures d.frames != [] ==>
              (b == Fend && d.state == Idle && s.frameBuffer.Some? &&
               RawBytes(d.frames[0]) == s.frameBuffer.value + (if s.escapeMode then [Fesc] else []) &&
               d.frames[0].created == now)
  {
    if b == Fend then
      var frameBuffer :=
        if s.escapeMode && s.frameBuffer.Some? then Some(s.frameBuffer.value + [Fesc]) else s.frameBuffer;
      if frameBuffer.None? then Decoded(Open([], false), [])
      else if |frameBuffer.value| == 0 then Decoded(Open([], false), [])
      else Decoded(Idle, [NewKissFrame(now, frameBuffer.value).value])
    else if s.frameBuffer.None? then Decoded(s, [])
    else
      var buffer := s.frameBuffer.value;
      if b == Fesc then
        Decoded(Open(if s.escapeMode then buffer + [Fesc] else buffer, true), [])
      else if b == Tfend then
        if s.escapeMode then Decoded(Open(buffer + [Fend], false), [])
        else Decoded(Open(buffer + [Tfend], false), [])
      else if b == Tfesc then
        if s.escapeMode then Decoded(Open(buffer + [Fesc], false), [])
        else Decoded(Open(buffer + [Tfesc], false), [])
      else if s.escapeMode then Decoded(Open(buffer + [Fesc, b], false), [])
      else Decoded(Open(buffer + [b], false), [])
  }

  /** Any byte other than `Fend` received outside a frame is discarded. */
  lemma OutsideFrameDiscarded(s: DecoderState, b: byte, now: Timestamp)
    requires s.frameBuffer.None? && b != Fend
    ensures DecodeByte(s, b, now) == Decoded(s, [])
  {
  }

  /**
   * Frame ends: one opens an empty frame when none is open, one on an open empty frame
   * is ignored, one on an open non-empty unescaped frame completes it.
   */
  lemma FendCases(s: DecoderState, now: Timestamp)
    ensures s.frameBuffer.None? ==> DecodeByte(s, Fend, now) == Decoded(Open([], false), [])
    ensures s == Open([], false) ==> DecodeByte(s, Fend, now) == Decoded(s, [])
    ensures s.frameBuffer.Some? && !s.escapeMode && s.frameBuffer.value != [] ==>
              DecodeByte(s, Fend, now) == Decoded(Idle, [NewKissFrame(now, s.frameBuffer.value).value])
  {
  }

  /** After an escape, `Tfend` and `Tfesc` stand for `Fend` and `Fesc` and end the escape. */
  lemma EscapedTransposeDecoded(buffer: seq<byte>, b: byte, now: Timestamp)
    requires b == Tfend || b == Tfesc
    ensures DecodeByte(Open(buffer, true), b, now) ==
            Decoded(Open(buffer + [if b == Tfend then Fend else Fesc], false), [])
  {
  }

  /** Outside an escape every byte but `Fend` and `Fesc` is data, `Tfend` and `Tfesc` included. */
  lemma UnescapedByteIsData(buffer: seq<byte>, b: byte, now: Timestamp)
    requires b != Fend && b != Fesc
    ensures DecodeByte(Open(buffer, false), b, now) == Decoded(Open(buffer + [b], false), [])
  {
  }

  /**
   * Self-healing: an escape followed by anything but a transposed byte keeps the `Fesc`
   * as data; a second `Fesc` stays escaped, an ordinary byte or `Fend` ends the escape.
   */
  lemma BrokenEscapeKeptAsData(buffer: seq<byte>, b: byte, now: Timestamp)
    requires b != Tfend && b != Tfesc
    ensures b == Fesc ==> DecodeByte(Open(buffer, true), b, now) == Decoded(Open(buffer + [Fesc], true), [])
    ensures b != Fesc && b != Fend ==>
              DecodeByte(Open(buffer, true), b, now) == Decoded(Open(buffer + [Fesc, b], false), [])
    ensures b == Fend ==>
              DecodeByte(Open(buffer, true), b, now) ==
              Decoded(Idle, [NewKissFrame(now, buffer + [Fesc]).value])
  {
  }

  /** `Process` run over `input`, `clock[i]` being the time at which `input[i]` is handled. */
  function Decode(s: DecoderState, input: seq<byte>, clock: seq<Timestamp>): (d: Decoded)
    requires |clock| == |input|
    ensures EscapeInsideFrame(s) ==> EscapeInsideFrame(d.state)
    ensures |d.frames| <= |input|
    decreases |input|
  {
    if |input| == 0 then Decoded(s, [])
    else
      var first := DecodeByte(s, input[0], clock[0]);
      var rest := Decode(first.state, input[1..], clock[1..]);
      Decoded(rest.state, first.frames + rest.frames)
  }

  /** Decoding one byte then the rest. */
  lemma DecodeCons(s: DecoderState, b: byte, rest: seq<byte>, c: Timestamp, cs: seq<Timestamp>)
    requires |cs| == |rest|
    ensures var first := DecodeByte(s, b, c); var next := Decode(first.state, rest, cs);
            Decode(s, [b] + rest, [c] + cs) == Decoded(next.state, first.frames + next.frames)
  {
    assert ([b] + rest)[1..] == rest && ([c] + cs)[1..] == cs;
  }

  /** Decoding a concatenation is decoding the parts in turn. */
  lemma {:induction false} DecodeAppend(s: DecoderState, a: seq<byte>, b: seq<byte>, ca: seq<Timestamp>, cb: seq<Timestamp>)
    requires |ca| == |a| && |cb| == |b|
    ensures var da := Decode(s, a, ca); var db := Decode(da.state, b, cb);
            Decode(s, a + b, ca + cb) == Decoded(db.state, da.frames + db.frames)
    decreases |a|
  {
    if |a| == 0 {
      assert a + b == b && ca + cb == cb;
    } else {
      assert (a + b)[0] == a[0] && (ca + cb)[0] == ca[0];
      assert (a + b)[1..] == a[1..] + b;
      assert (ca + cb)[1..] == ca[1..] + cb;
      DecodeAppend(DecodeByte(s, a[0], ca[0]).state, a[1..], b, ca[1..], cb);
    }
  }

  /** Bytes before the first frame end are discarded and never start a frame. */
  lemma {:induction false} LeadingBytesDiscarded(noise: seq<byte>, clock: seq<Timestamp>)
    requires |clock| == |noise|
    requires forall i :: 0 <= i < |noise| ==> noise[i] != Fend
    ensures Decode(Idle, noise, clock) == Decoded(Idle, [])
    decreases |noise|
  {
    if |noise| > 0 {
      LeadingBytesDiscarded(noise[1..], clock[1..]);
    }
  }

  /** A run of frame ends opens a frame and emits nothing: empty frames are never queued. */
  lemma {:induction false} FendRunEmitsNothing(s: DecoderState, n: nat, clock: seq<Timestamp>)
    requires s == Idle || s == Open([], false)
    requires |clock| == n > 0
    ensures Decode(s, seq(n, _ => Fend), clock) == Decoded(Open([], false), [])
    decreases n
  {
    var fends := seq(n, _ => Fend);
    if n > 1 {
      assert fends[1..] == seq(n - 1, _ => Fend);
      FendRunEmitsNothing(Open([], false), n - 1, clock[1..]);
    }
  }

  /** Decoding a single byte. */
  lemma DecodeSingle(s: DecoderState, b: byte, c: Timestamp)
    ensures Decode(s, [b], [c]) == DecodeByte(s, b, c)
  {
    DecodeCons(s, b, [], c, []);
    assert [b] + [] == [b] && [c] + [] == [c];
  }

  /** One escaped data byte decodes to itself inside an open, unescaped frame. */
  lemma DecodeEscapedByte(buffer: seq<byte>, x: byte, clock: seq<Timestamp>)
    requires |clock| == |EscapeByte(x)|
    ensures Decode(Open(buffer, false), EscapeByte(x), clock) == Decoded(Open(buffer + [x], false), [])
  {
    var s := Open(buffer, false);
    if x == Fend || x == Fesc {
      var t := if x == Fend then Tfend else Tfesc;
      assert EscapeByte(x) == [Fesc] + [t];
      assert clock == [clock[0]] + [clock[1]];
      DecodeCons(s, Fesc, [t], clock[0], [clock[1]]);
      DecodeSingle(Open(buffer, true), t, clock[1]);
    } else {
      assert clock == [clock[0]];
      DecodeSingle(s, x, clock[0]);
    }
  }

  /** Two quiet stretches of input in a row form one quiet stretch. */
  lemma DecodeQuietThen(s: DecoderState, a: seq<byte>, b: seq<byte>, ca: seq<Timestamp>, cb: seq<Timestamp>, mid: DecoderState, fin: DecoderState)
    requires |ca| == |a| && |cb| == |b|
    requires Decode(s, a, ca) == Decoded(mid, [])
    requires Decode(mid, b, cb) == Decoded(fin, [])
    ensures Decode(s, a + b, ca + cb) == Decoded(fin, [])
  {
    DecodeAppend(s, a, b, ca, cb);
    var none: seq<KissFrame> := [];
    assert none + none == none;
  }

  /** An escaped payload decodes to itself inside an open, unescaped frame. */
  lemma {:induction false} DecodeEscapedPayload(buffer: seq<byte>, d: seq<byte>, clock: seq<Timestamp>)
    requires |clock| == |Escape(d)|
    ensures Decode(Open(buffer, false), Escape(d), clock) == Decoded(Open(buffer + d, false), [])
    decreases |d|
  {
    if |d| == 0 {
      assert buffer + d == buffer;
    } else {
      var head, tail := EscapeByte(d[0]), Escape(d[1..]);
      assert Escape(d) == head + tail;
      var k := |head|;
      var c1, c2 := clock[..k], clock[k..];
      assert clock == c1 + c2;
      var mid := Open(buffer + [d[0]], false);
      assert buffer + [d[0]] + d[1..] == buffer + d;
      assert Decode(Open(buffer, false), head, c1) == Decoded(mid, []) by {
        DecodeEscapedByte(buffer, d[0], c1);
      }
      assert Decode(mid, tail, c2) == Decoded(Open(buffer + d, false), []) by {
        DecodeEscapedPayload(buffer + [d[0]], d[1..], c2);
      }
      DecodeQuietThen(Open(buffer, false), head, tail, c1, c2, mid, Open(buffer + d, false));
    }
  }

  /**
   * The unescape law: from the idle state, `Fend, h, Escape(d), Fend` with a header `h`
   * that is neither `Fend` nor `Fesc` yields exactly the frame `[h] + d` and ends idle.
   */
  lemma UnescapeLaw(h: byte, d: seq<byte>, clock: seq<Timestamp>)
    requires h != Fend && h != Fesc
    requires |clock| == |Escape(d)| + 3
    ensures Decode(Idle, [Fend, h] + Escape(d) + [Fend], clock) ==
            Decoded(Idle, [KissFrame(clock[|clock| - 1], h / 16, h % 16, d)])
  {
    var e := Escape(d);
    var n := |clock|;
    var c1, c2, c3 := clock[..2], clock[2..n - 1], clock[n - 1..];
    assert clock == c1 + c2 + c3;
    assert Decode(Idle, [Fend, h], c1) == Decoded(Open([h], false), []) by {
      DecodeCons(Idle, Fend, [h], c1[0], [c1[1]]);
      DecodeSingle(Open([], false), h, c1[1]);
      assert [Fend, h] == [Fend] + [h] && c1 == [c1[0]] + [c1[1]];
      assert [] + [h] == [h];
    }
    assert Decode(Open([h] + d, false), [Fend], c3) ==
           Decoded(Idle, [NewKissFrame(clock[n - 1], [h] + d).value]) by {
      assert c3 == [c3[0]];
      DecodeSingle(Open([h] + d, false), Fend, c3[0]);
    }
    DecodeEscapedPayload([h], d, c2);
    DecodeAppend(Idle, [Fend, h], e, c1, c2);
    DecodeAppend(Idle, [Fend, h] + e, [Fend], c1 + c2, c3);
    assert ([h] + d)[1..] == d;
  }

  /**
   * Round trip with the encoder: the bytes `QueueFrame` produces for a frame whose
   * nibbles fit and whose header byte is not special decode to that same frame.
   */
  lemma EncodeThenDecode(f: KissFrame, clock: seq<Timestamp>)
    requires NibblesInRange(f) && HeaderByte(f) != Fend && HeaderByte(f) != Fesc
    requires |clock| == |EncodeFrame(f)|
    ensures Decode(Idle, EncodeFrame(f), clock) ==
            Decoded(Idle, [f.(created := clock[|clock| - 1])])
  {
    EscapeLength(f.data);
    UnescapeLaw(HeaderByte(f), f.data, clock);
    SplitJoin(f);
  }

  /**
   * A header byte equal to `Fend` is taken as a repeated frame end: decoding behaves as
   * if the frame had no header, so the payload's first byte becomes the header.
   */
  lemma HeaderFendIsSwallowed(f: KissFrame, clock: seq<Timestamp>)
    requires HeaderByte(f) == Fend
    requires |clock| == |EncodeFrame(f)|
    ensures Decode(Idle, EncodeFrame(f), clock) == Decode(Idle, EncodeFrame(f)[1..], clock[1..])
  {
    var e := EncodeFrame(f);
    assert e == [Fend] + e[1..];
    assert e[1..] == [Fend] + e[2..];
    assert clock == [clock[0]] + clock[1..];
    assert clock[1..] == [clock[1]] + clock[2..];
    DecodeAppend(Idle, [Fend], e[1..], [clock[0]], clock[1..]);
    DecodeAppend(Idle, [Fend], e[2..], [clock[1]], clock[2..]);
    DecodeAppend(Open([], false), [Fend], e[2..], [clock[1]], clock[2..]);
  }

  /** `Fend 00 41 42 Fend` yields one frame: address 0, command 0, data `41 42`. */
  lemma PlainFrameExample(clock: seq<Timestamp>)
    requires |clock| == 5
    ensures Decode(Idle, [Fend, 0x00, 0x41, 0x42, Fend], clock).frames ==
            [KissFrame(clock[4], 0, 0, [0x41, 0x42])]
  {
    assert Escape([0x41, 0x42]) == [0x41, 0x42];
    assert [Fend, 0x00, 0x41, 0x42, Fend] == [Fend, 0x00] + Escape([0x41, 0x42]) + [Fend];
    UnescapeLaw(0x00, [0x41, 0x42], clock);
  }

  /** `Fend 00 Fesc Tfend Fend` yields one frame whose data is the single byte `C0`. */
  lemma EscapedFendExample(clock: seq<Timestamp>)
    requires |clock| == 5
    ensures Decode(Idle, [Fend, 0x00, Fesc, Tfend, Fend], clock).frames ==
            [KissFrame(clock[4], 0, 0, [0xC0])]
  {
    assert Escape([Fend]) == [Fesc, Tfend];
    assert [Fend, 0x00, Fesc, Tfend, Fend] == [Fend, 0x00] + Escape([Fend]) + [Fend];
    UnescapeLaw(0x00, [Fend], clock);
  }

  /** `KissDecoder`: the frame queue `_frames` filled by `Process`. */
  class KissDecoder {
    /** `_frames`, oldest first. */
    var frames: seq<KissFrame>

    constructor ()
      ensures frames == []
    {
      frames := [];
    }

    /**
     * `Process` over the bytes the stream yields before cancellation: every completed
     * frame is stamped with the clock and enqueued at the tail, in completion order.
     */
    method Process(input: seq<byte>, clock: seq<Timestamp>)
      requires |clock| == |input|
      modifies this
      ensures frames == old(frames) + Decode(Idle, input, clock).frames
    {
      var frameBuffer: Option<seq<byte>> := None;
      var escapeMode := false;
      var i := 0;
      while i < |input|
        invariant 0 <= i <= |input|
        invariant frames + Decode(DecoderState(frameBuffer, escapeMode), input[i..], clock[i..]).frames ==
                  old(frames) + Decode(Idle, input, clock).frames
      {
        ghost var before := frames;
        ghost var s := DecoderState(frameBuffer, escapeMode);
        ghost var step := DecodeByte(s, input[i], clock[i]);
        assert Decode(s, input[i..], clock[i..]).frames ==
               step.frames + Decode(step.state, input[i + 1..], clock[i + 1..]).frames by {
          assert input[i..][1..] == input[i + 1..];
          assert clock[i..][1..] == clock[i + 1..];
        }
        var b := input[i];
        if b == Fend {
          if escapeMode {
            if frameBuffer.Some? {
              frameBuffer := Some(frameBuffer.value + [Fesc]);
            }
            escapeMode := false;
          }
          if frameBuffer.None? {
            frameBuffer := Some([]);
          } else if |frameBuffer.value| > 0 {
            var frame := NewKissFrame(clock[i], frameBuffer.value);
            frames := frames + [frame.value];
            frameBuffer := None;
            escapeMode := false;
          }
        } else if b == Fesc {
          if frameBuffer.Some? {
            if escapeMode {
              frameBuffer := Some(frameBuffer.value + [Fesc]);
            }
            escapeMode := true;
          }
        } else if b == Tfend {
          if frameBuffer.Some? {
            if escapeMode {
              escapeMode := false;
              frameBuffer := Some(frameBuffer.value + [Fend]);
            } else {
              frameBuffer := Some(frameBuffer.value + [Tfend]);
            }
          }
        } else if b == Tfesc {
          if frameBuffer.Some? {
            if escapeMode {
              escapeMode := false;
              frameBuffer := Some(frameBuffer.value + [Fesc]);
            } else {
              frameBuffer := Some(frameBuffer.value + [Tfesc]);
            }
          }
        } else {
          if frameBuffer.Some? {
            ghost var buffer := frameBuffer.value;
            if escapeMode {
              escapeMode := false;
              frameBuffer := Some(frameBuffer.value + [Fesc]);
            }
            frameBuffer := Some(frameBuffer.value + [b]);
            assert s.escapeMode ==> frameBuffer.value == buffer + [Fesc, b];
          }
        }
        assert DecoderState(frameBuffer, escapeMode) == step.state && frames == before + step.frames by {
          assert b == input[i];
        }
        assert frames + Decode(step.state, input[i + 1..], clock[i + 1..]).frames ==
               before + Decode(s, input[i..], clock[i..]).frames;
        i := i + 1;
      }
    }

    /** `PeekNextFrame`: the oldest queued frame, or null; nothing is removed. */
    method PeekNextFrame() returns (frame: Option<KissFrame>)
      ensures frame.None? <==> frames == []
      ensures frame.Some? ==> frame.value == frames[0]
    {
      if |frames| == 0 {
        return None;
      }
      return Some(frames[0]);
    }

    /** `TakeNextFrame`: removes and returns the oldest queued frame, or null. */
    method TakeNextFrame() returns (frame: Option<KissFrame>)
      modifies this
      ensures frame.None? <==> old(frames) == []
      ensures frame.Some? ==> frame.value == old(frames)[0] && frames == old(frames)[1..]
      ensures frame.None? ==> frames == old(frames)
    {
      if |frames| == 0 {
        return None;
      }
      frame := Some(frames[0]);
      frames := frames[1..];
    }

    /** `OutstandingFrames`: a copy of the queue, oldest first; the queue is left as it is. */
    method OutstandingFrames() returns (snapshot: seq<KissFrame>)
      ensures snapshot == frames
    {
      snapshot := frames;
    }
  }
}

/**
 * The byte-at-a-time receive half used by the virtual TNC, DotPacket.Kiss/KissConsumer.cs.
 * It frames exactly like `KissDecoder` but does not leave escape mode after a transposed
 * byte.
 */
module KissConsuming {
  import opened Wrappers
  import opened Bytes
  import opened KissConstants
  import opened KissFrames
  import KissDecoding

  /** What `Stream.ReadByte` returns: a byte, or -1 when no byte was read. */
  type ReadResult = x: int | -1 <= x < 256

  /** The locals of `Process`: the open frame buffer (null outside a frame) and the escape flag. */
  datatype ConsumerState = ConsumerState(framebuffer: Option<seq<byte>>, escapeMode: bool)

  const Idle := ConsumerState(None, false)

  function Open(buffer: seq<byte>, escapeMode: bool): ConsumerState
  {
    ConsumerState(Some(buffer), escapeMode)
  }

  /** The consumer is only ever escaped inside an open frame. */
  predicate EscapeInsideFrame(s: ConsumerState)
  {
    s.escapeMode ==> s.framebuffer.Some?
  }

  /** A new state and the frames enqueued on the way to it. */
  datatype Consumed = Consumed(state: ConsumerState, frames: seq<KissFrame>)

  /** One pass of the `switch` in `KissConsumer.Process` on the read result `r`. */
  function ConsumeByte(s: ConsumerState, r: ReadResult, now: Timestamp): (c: Consumed)
    ensures |c.frames| <= 1
    ensures EscapeInsideFrame(s) ==> EscapeInsideFrame(c.state)
    ensures c.frames != [] ==>
              (r == Fend && c.state == Idle && s.framebuffer.Some? &&
               RawBytes(c.frames[0]) == s.framebuffer.value + (if s.escapeMode then [Fesc] else []) &&
               c.frames[0].created == now)
  {
    if r == -1 then Consumed(s, [])
    else if r == Fend then
      var framebuffer :=
        if s.escapeMode && s.framebuffer.Some? then Some(s.framebuffer.value + [Fesc]) else s.framebuffer;
      if framebuffer.None? then Consumed(Open([], false), [])
      else if |framebuffer.value| == 0 then Consumed(Open([], false), [])
      else Consumed(Idle, [NewKissFrame(now, framebuffer.value).value])
    else if s.framebuffer.None? then Consumed(s, [])
    else
      var buffer := s.framebuffer.value;
      if r == Fesc then
        Consumed(Open(if s.escapeMode then buffer + [Fesc] else buffer, true), [])
      else if r == Tfend then
        if s.escapeMode then Consumed(Open(buffer + [Fend], true), [])
        else Consumed(Open(buffer + [Tfend], false), [])
      else if r == Tfesc then
        if s.escapeMode then Consumed(Open(buffer + [Fesc], true), [])
        else Consumed(Open(buffer + [Tfesc], false), [])
      else if s.escapeMode then Consumed(Open(buffer + [Fesc, r], false), [])
      else Consumed(Open(buffer + [r], false), [])
  }

  /** An end-of-stream read changes nothing. */
  lemma EndOfStreamIgnored(s: ConsumerState, now: Timestamp)
    ensures ConsumeByte(s, -1, now) == Consumed(s, [])
  {
  }

  /** Any read other than `Fend` outside a frame is discarded. */
  lemma OutsideFrameDiscarded(s: ConsumerState, r: ReadResult, now: Timestamp)
    requires s.framebuffer.None? && r != Fend
    ensures ConsumeByte(s, r, now) == Consumed(s, [])
  {
  }

  /** Frame ends open a frame, are ignored on an empty open frame, and complete a non-empty one. */
  lemma FendCases(s: ConsumerState, now: Timestamp)
    ensures s.framebuffer.None? ==> ConsumeByte(s, Fend, now) == Consumed(Open([], false), [])
    ensures s == Open([], false) ==> ConsumeByte(s, Fend, now) == Consumed(s, [])
    ensures s.framebuffer.Some? && !s.escapeMode && s.framebuffer.value != [] ==>
              ConsumeByte(s, Fend, now) == Consumed(Idle, [NewKissFrame(now, s.framebuffer.value).value])
  {
  }

  /**
   * After an escape, `Tfend` and `Tfesc` append `Fend` and `Fesc` but the consumer
   * STAYS escaped.
   */
  lemma EscapedTransposeKeepsEscape(buffer: seq<byte>, r: ReadResult, now: Timestamp)
    requires r == Tfend || r == Tfesc
    ensures ConsumeByte(Open(buffer, true), r, now) ==
            Consumed(Open(buffer + [if r == Tfend then Fend else Fesc], true), [])
  {
  }

  /**
   * Escape mode is left only on a `Fend` or an ordinary byte, which first append the
   * pending `Fesc`; a second `Fesc` appends the first one and stays escaped.
   */
  lemma EscapeLeftOnlyByFendOrData(s: ConsumerState, r: ReadResult, now: Timestamp)
    requires s.framebuffer.Some? && s.escapeMode && r != -1
    ensures !ConsumeByte(s, r, now).state.escapeMode <==> r !in {Fesc, Tfend, Tfesc}
    ensures r == Fesc ==> ConsumeByte(s, r, now) == Consumed(Open(s.framebuffer.value + [Fesc], true), [])
    ensures r !in {Fend, Fesc, Tfend, Tfesc} ==>
              ConsumeByte(s, r, now) == Consumed(Open(s.framebuffer.value + [Fesc, r], false), [])
  {
  }

  /** `Process` run over the read results, `clock[i]` being the time `input[i]` is handled. */
  function Consume(s: ConsumerState, input: seq<ReadResult>, clock: seq<Timestamp>): (c: Consumed)
    requires |clock| == |input|
    ensures EscapeInsideFrame(s) ==> EscapeInsideFrame(c.state)
    ensures |c.frames| <= |input|
    decreases |input|
  {
    if |input| == 0 then Consumed(s, [])
    else
      var first := ConsumeByte(s, input[0], clock[0]);
      var rest := Consume(first.state, input[1..], clock[1..]);
      Consumed(rest.state, first.frames + rest.frames)
  }

  lemma ConsumeCons(s: ConsumerState, r: ReadResult, rest: seq<ReadResult>, c: Timestamp, cs: seq<Timestamp>)
    requires |cs| == |rest|
    ensures var first := ConsumeByte(s, r, c); var next := Consume(first.state, rest, cs);
            Consume(s, [r] + rest, [c] + cs) == Consumed(next.state, first.frames + next.frames)
  {
    assert ([r] + rest)[1..] == rest && ([c] + cs)[1..] == cs;
  }

  /** A read that emits nothing hands the rest of the input to the next state. */
  lemma ConsumeQuiet(s: ConsumerState, r: ReadResult, rest: seq<ReadResult>, c: Timestamp, cs: seq<Timestamp>, next: ConsumerState)
    requires |cs| == |rest|
    requires ConsumeByte(s, r, c) == Consumed(next, [])
    ensures Consume(s, [r] + rest, [c] + cs) == Consume(next, rest, cs)
  {
    ConsumeCons(s, r, rest, c, cs);
  }

  /** After `Fend 00 Fesc`, the bytes `Tfend Fend` close a frame holding `00 C0 DB`. */
  lemma EscapedFendTail(c3: Timestamp, c4: Timestamp)
    ensures Consume(Open([0x00], true), [Tfend, Fend], [c3, c4]) ==
            Consumed(Idle, [KissFrame(c4, 0, 0, [Fend, Fesc])])
  {
    var s4 := Open([0x00, Fend], true);
    var r4 := Consumed(Idle, [KissFrame(c4, 0, 0, [Fend, Fesc])]);
    assert Consume(s4, [Fend], [c4]) == r4 by {
      ConsumeCons(s4, Fend, [], c4, []);
      assert [0x00, Fend] + [Fesc] == [0x00, Fend, Fesc];
      assert [Fend] + [] == [Fend] && [c4] + [] == [c4];
    }
    assert [0x00] + [Fend] == [0x00, Fend];
    assert [Tfend, Fend] == [Tfend] + [Fend] && [c3, c4] == [c3] + [c4];
    ConsumeQuiet(Open([0x00], true), Tfend, [Fend], c3, [c4], s4);
  }

  /** `Fend` opens a frame, then `00` is buffered. */
  lemma EscapedFendOpening(c: seq<Timestamp>)
    requires |c| == 5
    ensures Consume(Idle, [Fend, 0x00, Fesc, Tfend, Fend], c) ==
            Consume(Open([0x00], false), [Fesc, Tfend, Fend], c[2..])
  {
    var s1, s2 := Open([], false), Open([0x00], false);
    assert Consume(s1, [0x00, Fesc, Tfend, Fend], c[1..]) == Consume(s2, [Fesc, Tfend, Fend], c[2..]) by {
      assert [] + [0x00] == [0x00];
      assert c[1..] == [c[1]] + c[2..];
      assert [0x00, Fesc, Tfend, Fend] == [0x00] + [Fesc, Tfend, Fend];
      ConsumeQuiet(s1, 0x00, [Fesc, Tfend, Fend], c[1], c[2..], s2);
    }
    assert c == [c[0]] + c[1..];
    assert [Fend, 0x00, Fesc, Tfend, Fend] == [Fend] + [0x00, Fesc, Tfend, Fend];
    ConsumeQuiet(Idle, Fend, [0x00, Fesc, Tfend, Fend], c[0], c[1..], s1);
  }

  /**
   * `Fend 00 Fesc Tfend Fend` yields the data `C0 DB`: the escape is still pending at
   * the closing `Fend`, which flushes it as a literal `Fesc`. `KissDecoder` yields `C0`.
   */
  lemma EscapedFendExample(clock: seq<Timestamp>)
    requires |clock| == 5
    ensures Consume(Idle, [Fend, 0x00, Fesc, Tfend, Fend], clock).frames ==
            [KissFrame(clock[4], 0, 0, [Fend, Fesc])]
    ensures KissDecoding.Decode(KissDecoding.Idle, [Fend, 0x00, Fesc, Tfend, Fend], clock).frames ==
            [KissFrame(clock[4], 0, 0, [Fend])]
  {
    var c := clock;
    assert Consume(Open([0x00], false), [Fesc, Tfend, Fend], c[2..]) ==
           Consume(Open([0x00], true), [Tfend, Fend], [c[3], c[4]]) by {
      assert c[2..] == [c[2]] + [c[3], c[4]];
      assert [Fesc, Tfend, Fend] == [Fesc] + [Tfend, Fend];
      ConsumeQuiet(Open([0x00], false), Fesc, [Tfend, Fend], c[2], [c[3], c[4]], Open([0x00], true));
    }
    EscapedFendOpening(c);
    EscapedFendTail(c[3], c[4]);
    KissDecoding.EscapedFendExample(clock);
  }

  /** The decoder state with the same buffer and flag. */
  function AsDecoderState(s: ConsumerState): KissDecoding.DecoderState
  {
    KissDecoding.DecoderState(s.framebuffer, s.escapeMode)
  }

  /**
   * On a stream without `Fesc` bytes neither machine is ever escaped, and the consumer
   * frames exactly as the decoder does: same frames, same final state.
   */
  lemma {:induction false} SameFramingWithoutEscapes(s: ConsumerState, input: seq<byte>, clock: seq<Timestamp>)
    requires !s.escapeMode && |clock| == |input|
    requires forall i :: 0 <= i < |input| ==> input[i] != Fesc
    ensures var c := Consume(s, input, clock); var d := KissDecoding.Decode(AsDecoderState(s), input, clock);
            AsDecoderState(c.state) == d.state && c.frames == d.frames
    decreases |input|
  {
    if |input| > 0 {
      var first := ConsumeByte(s, input[0], clock[0]);
      assert AsDecoderState(first.state) == KissDecoding.DecodeByte(AsDecoderState(s), input[0], clock[0]).state;
      SameFramingWithoutEscapes(first.state, input[1..], clock[1..]);
    }
  }

  /** `KissConsumer`: the frame queue `_frames` filled by `Process`. */
  class KissConsumer {
    /** `_frames`, oldest first. */
    var frames: seq<KissFrame>

    constructor ()
      ensures frames == []
    {
      frames := [];
    }

    /**
     * `Process` over the results of the `ReadByte` calls made before cancellation:
     * completed frames are stamped with the clock and enqueued in completion order.
     */
    method Process(input: seq<ReadResult>, clock: seq<Timestamp>)
      requires |clock| == |input|
      modifies this
      ensures frames == old(frames) + Consume(Idle, input, clock).frames
    {
      var framebuffer: Option<seq<byte>> := None;
      var escapeMode := false;
      var i := 0;
      while i < |input|
        invariant 0 <= i <= |input|
        invariant frames + Consume(ConsumerState(framebuffer, escapeMode), input[i..], clock[i..]).frames ==
                  old(frames) + Consume(Idle, input, clock).frames
      {
        ghost var before := frames;
        ghost var s := ConsumerState(framebuffer, escapeMode);
        ghost var step := ConsumeByte(s, input[i], clock[i]);
        assert Consume(s, input[i..], clock[i..]).frames ==
               step.frames + Consume(step.state, input[i + 1..], clock[i + 1..]).frames by {
          assert input[i..][1..] == input[i + 1..];
          assert clock[i..][1..] == clock[i + 1..];
        }
        var readByte := input[i];
        if readByte == -1 {
          // no byte read, try again
        } else if readByte == Fend {
          if escapeMode {
            if framebuffer.Some? {
              framebuffer := Some(framebuffer.value + [Fesc]);
            }
            escapeMode := false;
          }
          if framebuffer.None? {
            framebuffer := Some([]);
          } else if |framebuffer.value| > 0 {
            var frame := NewKissFrame(clock[i], framebuffer.value);
            frames := frames + [frame.value];
            framebuffer := None;
          }
        } else if readByte == Fesc {
          if framebuffer.Some? {
            if escapeMode {
              framebuffer := Some(framebuffer.value + [Fesc]);
            }
            escapeMode := true;
          }
        } else if readByte == Tfend {
          if framebuffer.Some? {
            if escapeMode {
              framebuffer := Some(framebuffer.value + [Fend]);
            } else {
              framebuffer := Some(framebuffer.value + [Tfend]);
            }
          }
        } else if readByte == Tfesc {
          if framebuffer.Some? {
            if escapeMode {
              framebuffer := Some(framebuffer.value + [Fesc]);
            } else {
              framebuffer := Some(framebuffer.value + [Tfesc]);
            }
          }
        } else {
          if framebuffer.Some? {
            ghost var buffer := framebuffer.value;
            if escapeMode {
              escapeMode := false;
              framebuffer := Some(framebuffer.value + [Fesc]);
            }
            framebuffer := Some(framebuffer.value + [readByte]);
            assert s.escapeMode ==> framebuffer.value == buffer + [Fesc, readByte];
          }
        }
        assert ConsumerState(framebuffer, escapeMode) == step.state && frames == before + step.frames by {
          assert readByte == input[i];
        }
        assert frames + Consume(step.state, input[i + 1..], clock[i + 1..]).frames ==
               before + Consume(s, input[i..], clock[i..]).frames;
        i := i + 1;
      }
    }

    /** `PeekNextFrame`: the oldest queued frame, or null; nothing is removed. */
    method PeekNextFrame() returns (frame: Option<KissFrame>)
      ensures frame.None? <==> frames == []
      ensures frame.Some? ==> frame.value == frames[0]
    {
      if |frames| == 0 {
        return None;
      }
      return Some(frames[0]);
    }

    /** `TakeNextFrame`: removes and returns the oldest queued frame, or null. */
    method TakeNextFrame() returns (frame: Option<KissFrame>)
      modifies this
      ensures frame.None? <==> old(frames) == []
      ensures frame.Some? ==> frame.value == old(frames)[0] && frames == old(frames)[1..]
      ensures frame.None? ==> frames == old(frames)
    {
      if |frames| == 0 {
        return None;
      }
      frame := Some(frames[0]);
      frames := frames[1..];
    }

    /** `OutstandingFrames`: a copy of the queue, oldest first; the queue is left as it is. */
    method OutstandingFrames() returns (snapshot: seq<KissFrame>)
      ensures snapshot == frames
    {
      snapshot := frames;
    }
  }
}

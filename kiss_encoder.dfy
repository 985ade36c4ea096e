/** The transmit half of the KISS codec, DotPacket.Kiss/KissEncoder.cs. */
module KissEncoding {
  import opened Wrappers
  import opened Bytes
  import opened KissConstants
  import opened KissFrames

  /** How one data byte is written on the wire. */
  function EscapeByte(b: byte): seq<byte>
  {
    if b == Fend then [Fesc, Tfend]
    else if b == Fesc then [Fesc, Tfesc]
    else [b]
  }

  /** The escaped form of a payload, byte by byte in order. */
  function Escape(d: seq<byte>): seq<byte>
  {
    if |d| == 0 then [] else EscapeByte(d[0]) + Escape(d[1..])
  }

  /** The number of `Fend` and `Fesc` bytes in `d`: the LINQ `Count` that sizes the output. */
  function SpecialCount(d: seq<byte>): nat
  {
    if |d| == 0 then 0 else (if d[0] == Fend || d[0] == Fesc then 1 else 0) + SpecialCount(d[1..])
  }

  /** A wire image without a bare frame end, each escape followed by a transposed byte. */
  predicate WellEscaped(e: seq<byte>)
  {
    (forall i :: 0 <= i < |e| ==> e[i] != Fend) &&
    (forall i :: 0 <= i < |e| && e[i] == Fesc ==> i + 1 < |e| && (e[i + 1] == Tfend || e[i + 1] == Tfesc))
  }

  lemma {:induction false} EscapeLength(d: seq<byte>)
    ensures |Escape(d)| == |d| + SpecialCount(d)
  {
    if |d| > 0 {
      EscapeLength(d[1..]);
    }
  }

  lemma {:induction false} EscapeAppend(a: seq<byte>, b: seq<byte>)
    ensures Escape(a + b) == Escape(a) + Escape(b)
  {
    if |a| == 0 {
      assert a + b == b;
    } else {
      assert (a + b)[1..] == a[1..] + b;
      EscapeAppend(a[1..], b);
    }
  }

  lemma {:induction false} EscapeIsWellEscaped(d: seq<byte>)
    ensures WellEscaped(Escape(d))
  {
    if |d| > 0 {
      EscapeIsWellEscaped(d[1..]);
      var head, tail := EscapeByte(d[0]), Escape(d[1..]);
      assert Escape(d) == head + tail;
      forall i | 0 <= i < |head + tail| && (head + tail)[i] == Fesc
        ensures i + 1 < |head + tail| && ((head + tail)[i + 1] == Tfend || (head + tail)[i + 1] == Tfesc)
      {
        if i >= |head| {
          assert (head + tail)[i] == tail[i - |head|];
        }
      }
    }
  }

  /** The bytes `QueueFrame` enqueues for one frame: the header byte is not escaped. */
  function EncodeFrame(f: KissFrame): (r: seq<byte>)
    ensures |r| == |f.data| + SpecialCount(f.data) + 3
    ensures r[0] == Fend && r[1] == HeaderByte(f) && r[|r| - 1] == Fend
    ensures WellEscaped(r[2..|r| - 1])
  {
    EscapeLength(f.data);
    EscapeIsWellEscaped(f.data);
    var r := [Fend, HeaderByte(f)] + Escape(f.data) + [Fend];
    assert r[2..|r| - 1] == Escape(f.data);
    r
  }

  /** The queued entries in order with the null ones dropped: what the writer writes. */
  function NonNull(q: seq<Option<seq<byte>>>): seq<seq<byte>>
  {
    if |q| == 0 then []
    else NonNull(q[..|q| - 1]) + (if q[|q| - 1].Some? then [q[|q| - 1].value] else [])
  }

  /** Escaping one more byte extends the escaped prefix, within the whole escaped length. */
  lemma EscapePrefixStep(d: seq<byte>, i: nat)
    requires i < |d|
    ensures Escape(d[..i + 1]) == Escape(d[..i]) + EscapeByte(d[i])
    ensures |Escape(d[..i + 1])| <= |Escape(d)|
  {
    assert d[..i + 1] == d[..i] + [d[i]];
    EscapeAppend(d[..i], [d[i]]);
    assert d == d[..i + 1] + d[i + 1..];
    EscapeAppend(d[..i + 1], d[i + 1..]);
  }

  /**
   * `KissEncoder.KissEscape`: fills a buffer sized from the special-byte count, moving
   * an output index one or two places per input byte.
   */
  method KissEscape(dataToEscape: seq<byte>) returns (escaped: seq<byte>)
    ensures escaped == Escape(dataToEscape)
  {
    EscapeLength(dataToEscape);
    var buffer := new byte[|dataToEscape| + SpecialCount(dataToEscape)](_ => 0);
    var escapedIndex := 0;
    var bIndex := 0;
    while bIndex < |dataToEscape|
      invariant 0 <= bIndex <= |dataToEscape|
      invariant 0 <= escapedIndex <= buffer.Length == |Escape(dataToEscape)|
      invariant buffer[..escapedIndex] == Escape(dataToEscape[..bIndex])
    {
      var b := dataToEscape[bIndex];
      ghost var before := buffer[..escapedIndex];
      assert escapedIndex + |EscapeByte(b)| <= buffer.Length &&
             before + EscapeByte(b) == Escape(dataToEscape[..bIndex + 1]) by {
        EscapePrefixStep(dataToEscape, bIndex);
      }
      if b == Fend {
        buffer[escapedIndex] := Fesc;
        buffer[escapedIndex + 1] := Tfend;
        escapedIndex := escapedIndex + 2;
      } else if b == Fesc {
        buffer[escapedIndex] := Fesc;
        buffer[escapedIndex + 1] := Tfesc;
        escapedIndex := escapedIndex + 2;
      } else {
        buffer[escapedIndex] := b;
        escapedIndex := escapedIndex + 1;
      }
      assert buffer[..escapedIndex] == before + EscapeByte(b) by {
        assert |before| + |EscapeByte(b)| == escapedIndex;
        assert forall k :: 0 <= k < |before| ==> buffer[k] == before[k];
      }
      bIndex := bIndex + 1;
    }
    assert dataToEscape[..bIndex] == dataToEscape;
    assert buffer[..] == buffer[..escapedIndex];
    escaped := buffer[..];
  }

  /** `KissEncoder`: a queue of serialised frames drained by a background writer. */
  class KissEncoder {
    /** `_frames`; an entry is `None` when a null array was queued. */
    var frames: seq<Option<seq<byte>>>

    constructor ()
      ensures frames == []
    {
      frames := [];
    }

    /** Serialises `frame` and appends it at the tail of the queue. */
    method QueueFrame(frame: KissFrame)
      modifies this
      ensures frames == old(frames) + [Some(EncodeFrame(frame))]
    {
      var frameBytes: seq<byte> := [];
      frameBytes := frameBytes + [Fend];
      frameBytes := frameBytes + [HeaderByte(frame)];
      var escapedData := KissEscape(frame.data);
      frameBytes := frameBytes + escapedData;
      frameBytes := frameBytes + [Fend];
      assert frameBytes == [Fend, HeaderByte(frame)] + Escape(frame.data) + [Fend];
      frames := frames + [Some(frameBytes)];
    }

    /**
     * `QueueRawFrame` as written: it throws `ArgumentException` (`accepted` false) when
     * the QUEUE is empty, whatever `rawFrame` holds; otherwise it appends `rawFrame`.
     */
    method QueueRawFrame(rawFrame: Option<seq<byte>>) returns (accepted: bool)
      modifies this
      ensures accepted <==> old(frames) != []
      ensures frames == if accepted then old(frames) + [rawFrame] else old(frames)
    {
      if |frames| == 0 {
        return false;
      }
      frames := frames + [rawFrame];
      return true;
    }

    /**
     * `QueueRawFrame` as its message ("Frame data is empty") intends: it refuses a
     * null or empty `rawFrame`, whatever the queue holds.
     */
    method QueueRawFrameChecked(rawFrame: Option<seq<byte>>) returns (accepted: bool)
      modifies this
      ensures accepted <==> rawFrame.Some? && |rawFrame.value| > 0
      ensures frames == if accepted then old(frames) + [rawFrame] else old(frames)
    {
      if rawFrame.None? || |rawFrame.value| == 0 {
        return false;
      }
      frames := frames + [rawFrame];
      return true;
    }

    /**
     * `iterations` rounds of the writer loop of `ProcessAsync`: each round takes at most
     * one entry from the head, skips a null one and otherwise writes it; `written` is
     * the sequence of writes made to the stream.
     */
    method ProcessAsync(iterations: nat) returns (written: seq<seq<byte>>)
      modifies this
      ensures var k := if iterations < |old(frames)| then iterations else |old(frames)|;
              frames == old(frames)[k..] && written == NonNull(old(frames)[..k])
    {
      written := [];
      var n := 0;
      ghost var taken := 0;
      while n < iterations
        invariant 0 <= n <= iterations
        invariant taken == (if n < |old(frames)| then n else |old(frames)|)
        invariant frames == old(frames)[taken..]
        invariant written == NonNull(old(frames)[..taken])
      {
        if |frames| > 0 {
          var frame := frames[0];
          frames := frames[1..];
          assert old(frames)[..taken + 1] == old(frames)[..taken] + [frame];
          taken := taken + 1;
          if frame.Some? {
            written := written + [frame.value];
          }
        }
        n := n + 1;
      }
    }
  }

  /** The refusal of a raw frame by an encoder whose queue is still empty. */
  method RawFrameRefusedByIdleEncoder() returns (accepted: bool)
    ensures !accepted
  {
    var encoder := new KissEncoder();
    accepted := encoder.QueueRawFrame(Some([0x00, 0x41]));
  }

  /** The intended check accepts the same raw frame on an empty queue. */
  method RawFrameAcceptedWhenCheckingArgument() returns (accepted: bool)
    ensures accepted
  {
    var encoder := new KissEncoder();
    accepted := encoder.QueueRawFrameChecked(Some([0x00, 0x41]));
  }
}

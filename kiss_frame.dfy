/** The decoded KISS frame record of DotPacket.Kiss/KissFrame.cs. */
module KissFrames {
  import opened Wrappers
  import opened Bytes

  /** A `DateTime` reading, in ticks. The clock itself is an input of the model. */
  type Timestamp = int

  /**
   * A KISS frame: the high nibble of the first raw byte is the port (`address`),
   * the low nibble the KISS command, the remaining bytes the payload. `address` and
   * `command` are plain integers because the record's setters accept any `int`.
   */
  datatype KissFrame = KissFrame(created: Timestamp, address: int, command: int, data: seq<byte>)

  /**
   * The header byte the encoder writes, `(byte)((Address << 4) + Command)`: the
   * narrowing cast keeps the low eight bits of the two's-complement sum, which is the
   * Euclidean remainder modulo 256.
   */
  function HeaderByte(f: KissFrame): byte
  {
    (f.address * 16 + f.command) % 256
  }

  /** The raw frame a frame stands for: header byte, then payload. */
  function RawBytes(f: KissFrame): (r: seq<byte>)
    ensures |r| == |f.data| + 1
  {
    [HeaderByte(f)] + f.data
  }

  predicate NibblesInRange(f: KissFrame)
  {
    0 <= f.address < 16 && 0 <= f.command < 16
  }

  /**
   * The record's constructor `new KissFrame(created, rawFrame)`. `rawFrame[1..]` throws
   * on an empty array, which is the `None` result.
   */
  function NewKissFrame(created: Timestamp, rawFrame: seq<byte>): (r: Option<KissFrame>)
    ensures r.Some? <==> |rawFrame| > 0
    ensures r.Some? ==> r.value.created == created && NibblesInRange(r.value)
    ensures r.Some? ==> |r.value.data| == |rawFrame| - 1 && RawBytes(r.value) == rawFrame
  {
    if |rawFrame| == 0 then None
    else Some(KissFrame(created, rawFrame[0] / 16, rawFrame[0] % 16, rawFrame[1..]))
  }

  /** Splitting the header byte and joining the nibbles again gives back the frame. */
  lemma SplitJoin(f: KissFrame)
    requires NibblesInRange(f)
    ensures NewKissFrame(f.created, RawBytes(f)) == Some(f)
  {
    var h := f.address * 16 + f.command;
    assert 0 <= h < 256;
    assert HeaderByte(f) == h;
    assert h / 16 == f.address && h % 16 == f.command;
  }
}

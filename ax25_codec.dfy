/**
 * Decoding of the AX.25 frame header: DotPacket.Ax25/FrameCodec.cs. Address fields
 * follow section 3.12 of the AX.25 v2.2 specification (a six-character callsign
 * shifted up one bit, then an SSID byte), and the modulo-8 control field follows
 * its section 4.2.
 *
 * The source throws exceptions; here each decoder returns a `Result` whose error
 * names the exception and, for `FrameFormatException`, its message.
 */
module Ax25Codec {
  import opened Wrappers
  import opened Bytes
  import opened Ax25Parts

  /** The messages of the `FrameFormatException`s the codec throws. */
  datatype FormatError =
    | DestinationExtensionBitSet
    | TooManyAddresses
    | ControlFieldMalformed
    | InteriorExtensionBitSet(byteIndex: nat)
    | CallsignInvalid
    | AddressFieldMalformed
    | FrameTypeUndetermined

  datatype DecodeError =
    | FrameFormat(reason: FormatError)
      /** `ArgumentOutOfRangeException` from a range index past the end of the frame. */
    | SliceOutOfRange
      /** An exception thrown by the `AddressFramePart` constructor. */
    | InvalidArgument(argument: ArgumentError)
    | NotImplemented

  // ---------------------------------------------------------------------------
  // Callsigns

  predicate IsCallsignChar(c: char)
  {
    '0' <= c <= '9' || 'A' <= c <= 'Z'
  }

  /** The callsign test the decoder intends: non-empty, digits and capital letters only. */
  predicate IsValidCallsign(s: string)
  {
    |s| > 0 && forall i :: 0 <= i < |s| ==> IsCallsignChar(s[i])
  }

  /**
   * `Regex.IsMatch(s, "^[0-9A-Z]*$")` as .NET evaluates it: without the multi-line
   * option `$` matches at the end of the input and also just before a final line feed.
   */
  predicate PatternMatchesAsWritten(s: string)
  {
    (forall i :: 0 <= i < |s| ==> IsCallsignChar(s[i])) ||
    (|s| > 0 && s[|s| - 1] == '\n' && forall i :: 0 <= i < |s| - 1 ==> IsCallsignChar(s[i]))
  }

  /** The test on line 155 as written: not blank, and the anchored pattern matches. */
  predicate CallsignAcceptedAsWritten(s: string)
  {
    !IsNullOrWhiteSpace(s) && PatternMatchesAsWritten(s)
  }

  /** A callsign of digits and capitals is never blank. */
  lemma ValidCallsignNotBlank(s: string)
    requires IsValidCallsign(s)
    ensures !IsNullOrWhiteSpace(s)
  {
    assert !IsWhiteSpace(s[0]);
  }

  /** Without a line feed in it, the test as written is exactly the intended one. */
  lemma AsWrittenAgreesWithoutLineFeed(s: string)
    requires forall i :: 0 <= i < |s| ==> s[i] != '\n'
    ensures CallsignAcceptedAsWritten(s) <==> IsValidCallsign(s)
  {
    if IsValidCallsign(s) {
      ValidCallsignNotBlank(s);
    }
  }

  /** The test as written lets a callsign ending in a line feed through. */
  lemma AsWrittenAcceptsTrailingLineFeed()
    ensures CallsignAcceptedAsWritten("N0CAL\n")
    ensures !IsValidCallsign("N0CAL\n")
  {
    var s := "N0CAL\n";
    assert !IsWhiteSpace(s[0]);
    assert forall i :: 0 <= i < |s| - 1 ==> IsCallsignChar(s[i]);
    assert !IsCallsignChar(s[5]);
  }

  /** `string.TrimEnd(' ')`: the longest prefix that does not end in a space. */
  function TrimEnd(s: string): string
  {
    if |s| > 0 && s[|s| - 1] == ' ' then TrimEnd(s[..|s| - 1]) else s
  }

  /** Trimming keeps a prefix that does not end in a space and drops only spaces. */
  lemma {:induction false} TrimEndMeaning(s: string)
    ensures var t := TrimEnd(s);
      |t| <= |s| && t == s[..|t|] && (t == [] || t[|t| - 1] != ' ') &&
      forall i :: |t| <= i < |s| ==> s[i] == ' '
  {
    if |s| > 0 && s[|s| - 1] == ' ' {
      TrimEndMeaning(s[..|s| - 1]);
      assert s[..|s| - 1][..|TrimEnd(s)|] == s[..|TrimEnd(s)|];
    }
  }

  /** Trimming a callsign padded with spaces gives the callsign back. */
  lemma TrimPadding(c: string, n: nat)
    requires IsValidCallsign(c)
    ensures TrimEnd(c + seq(n, _ => ' ')) == c
  {
    var s := c + seq(n, _ => ' ');
    var t := TrimEnd(s);
    TrimEndMeaning(s);
    assert s[|c| - 1] == c[|c| - 1] != ' ';
    assert |t| >= |c|;
    assert forall i :: |c| <= i < |s| ==> s[i] == ' ';
    assert |t| <= |c| by {
      assert |t| == 0 || t[|t| - 1] == s[|t| - 1];
    }
    assert t == s[..|c|] == c;
  }

  /** `Encoding.ASCII.GetString` on bytes below 0x80. */
  function AsciiString(bytes: seq<byte>): (s: string)
    requires forall i :: 0 <= i < |bytes| ==> bytes[i] < 128
    ensures |s| == |bytes|
  {
    seq(|bytes|, i requires 0 <= i < |bytes| => bytes[i] as char)
  }

  /** The six callsign bytes, each shifted down one bit; a field shorter than six leaves zeros. */
  function CallsignBytes(field: seq<byte>): (cb: seq<byte>)
    ensures |cb| == 6
    ensures forall i :: 0 <= i < 6 ==> cb[i] < 128
    ensures forall i :: 0 <= i < 6 ==> cb[i] == (if i < |field| then field[i] / 2 else 0)
  {
    seq(6, i requires 0 <= i < 6 => if i < |field| then field[i] / 2 else 0)
  }

  /** The callsign text of a field, trailing filler spaces removed. */
  function CallsignText(field: seq<byte>): string
  {
    TrimEnd(AsciiString(CallsignBytes(field)))
  }

  // ---------------------------------------------------------------------------
  // One address field

  /** What `DecodeAddressField` returns: the address and its `out` extension flag. */
  datatype DecodedAddress = DecodedAddress(address: AddressFramePart, addressExtensionBitSet: bool)

  /** No byte before the last has bit 0 set. */
  predicate NoInteriorExtension(field: seq<byte>)
  {
    forall j :: 0 <= j < |field| - 1 ==> field[j] % 2 == 0
  }

  /** The first byte at or after `from`, other than the last, with bit 0 set. */
  function FirstInteriorExtension(field: seq<byte>, from: nat): Option<nat>
    decreases |field| - from
  {
    if from + 1 >= |field| then None
    else if field[from] % 2 == 1 then Some(from)
    else FirstInteriorExtension(field, from + 1)
  }

  /** The search finds the first interior byte with bit 0 set, and finds none exactly when there is none. */
  lemma {:induction false} FirstInteriorExtensionMeaning(field: seq<byte>, from: nat)
    ensures var k := FirstInteriorExtension(field, from);
      k.Some? ==> from <= k.value < |field| - 1 && field[k.value] % 2 == 1 &&
                  forall j :: from <= j < k.value ==> field[j] % 2 == 0
    ensures FirstInteriorExtension(field, from).None? <==>
      forall j :: from <= j < |field| - 1 ==> field[j] % 2 == 0
    decreases |field| - from
  {
    if from + 1 < |field| && field[from] % 2 == 0 {
      FirstInteriorExtensionMeaning(field, from + 1);
    }
  }

  /** The address of an SSID byte: bit 7 command, bit 6 and bit 5 reserved, bits 4 to 1 the SSID. */
  function SsidByteAddress(callsign: string, b: byte): Result<AddressFramePart, ArgumentError>
  {
    NewAddressFramePart(callsign, (b / 2) % 16, (b / 128) % 2 == 1, (b / 32) % 2 == 1, (b / 64) % 2 == 1)
  }

  /**
   * What `DecodeAddressField` computes for `field`: the interior extension bits are
   * checked first, then the callsign, then the SSID byte `field[6]` is read (its
   * absence is the caught `IndexOutOfRangeException`).
   */
  function AddressFieldSpec(field: seq<byte>): Result<DecodedAddress, DecodeError>
  {
    match FirstInteriorExtension(field, 0)
    case Some(k) => Failure(FrameFormat(InteriorExtensionBitSet(k)))
    case None =>
      var callsign := CallsignText(field);
      if !IsValidCallsign(callsign) then Failure(FrameFormat(CallsignInvalid))
      else if |field| < 7 then Failure(FrameFormat(AddressFieldMalformed))
      else
        ValidCallsignNotBlank(callsign);
        match SsidByteAddress(callsign, field[6])
        case Failure(e) => Failure(InvalidArgument(e))
        case Success(a) => Success(DecodedAddress(a, field[|field| - 1] % 2 == 1))
  }

  /**
   * What the outcome of decoding one address field means: success exactly for a field
   * of at least seven bytes with no interior extension bit and a valid callsign, and
   * then the callsign, SSID, command bit, reserved bits and extension bit read from the field.
   */
  lemma AddressFieldMeaning(field: seq<byte>)
    ensures var r := AddressFieldSpec(field);
      r.Success? <==> |field| >= 7 && NoInteriorExtension(field) && IsValidCallsign(CallsignText(field))
    ensures var r := AddressFieldSpec(field);
      |field| < 7 ==> r.Failure? && r.error.FrameFormat?
    ensures var r := AddressFieldSpec(field);
      r.Failure? ==> !r.error.InvalidArgument?
    ensures var r := AddressFieldSpec(field);
      r.Failure? && r.error == FrameFormat(CallsignInvalid) ==>
      NoInteriorExtension(field) && !IsValidCallsign(CallsignText(field))
    ensures var r := AddressFieldSpec(field);
      r.Success? ==>
      var a := r.value.address;
      a.callsign == CallsignText(field) && |a.callsign| <= 6 &&
      0 <= a.ssid < 16 && 2 * a.ssid == field[6] % 32 - field[6] % 2 &&
      a.commandOrRepeated == (field[6] >= 128) &&
      a.reserved5 == ((field[6] / 32) % 2 == 1) && a.reserved6 == ((field[6] / 64) % 2 == 1) &&
      r.value.addressExtensionBitSet == (field[|field| - 1] % 2 == 1)
  {
    FirstInteriorExtensionMeaning(field, 0);
    TrimEndMeaning(AsciiString(CallsignBytes(field)));
    if FirstInteriorExtension(field, 0).None? && IsValidCallsign(CallsignText(field)) && |field| >= 7 {
      ValidCallsignNotBlank(CallsignText(field));
      SsidBits(field[6]);
    }
  }

  /** Bits 4 to 1 of an SSID byte, and bit 7. */
  lemma SsidBits(b: byte)
    ensures 2 * ((b / 2) % 16) == b % 32 - b % 2
    ensures ((b / 128) % 2 == 1) == (b >= 128)
  {
    assert b == 32 * (b / 32) + b % 32;
    assert b % 32 == 2 * ((b % 32) / 2) + b % 2;
    assert b / 2 == 16 * (b / 32) + (b % 32) / 2;
  }

  /** `DecodeAddressField`: the loop over the field's bytes filling `callsignBytes`. */
  method DecodeAddressField(field: seq<byte>) returns (r: Result<DecodedAddress, DecodeError>)
    ensures r == AddressFieldSpec(field)
  {
    var addressExtensionBitSet := false;
    var callsignBytes := new byte[6](_ => 0);
    var i := 0;
    while i < |field|
      invariant 0 <= i <= |field|
      invariant FirstInteriorExtension(field, 0) == FirstInteriorExtension(field, i)
      invariant forall k :: 0 <= k < 6 ==> callsignBytes[k] == (if k < i then field[k] / 2 else 0)
      invariant addressExtensionBitSet == (i == |field| && |field| > 0 && field[|field| - 1] % 2 == 1)
    {
      if i == |field| - 1 {
        addressExtensionBitSet := field[i] % 2 == 1;
      } else if field[i] % 2 == 1 {
        return Failure(FrameFormat(InteriorExtensionBitSet(i)));
      }
      if i < 6 {
        callsignBytes[i] := field[i] / 2;
      }
      i := i + 1;
    }
    assert callsignBytes[..] == CallsignBytes(field);
    var callsign := TrimEnd(AsciiString(callsignBytes[..]));
    if !IsValidCallsign(callsign) {
      return Failure(FrameFormat(CallsignInvalid));
    }
    if |field| < 7 {
      return Failure(FrameFormat(AddressFieldMalformed));
    }
    var ssidByte := field[6];
    var command := (ssidByte / 128) % 2 == 1;
    var reserved6 := (ssidByte / 64) % 2 == 1;
    var reserved5 := (ssidByte / 32) % 2 == 1;
    var ssid := (ssidByte / 2) % 16;
    var address := NewAddressFramePart(callsign, ssid, command, reserved5, reserved6);
    r := match address
      case Failure(e) => Failure(InvalidArgument(e))
      case Success(a) => Success(DecodedAddress(a, addressExtensionBitSet));
  }

  /**
   * What `DecodeAddressField` computes with the callsign test of line 155 exactly as
   * written. `AddressFieldSpec`, which the chain decoder uses, applies the corrected
   * test `IsValidCallsign` instead.
   */
  function AddressFieldAsWritten(field: seq<byte>): Result<DecodedAddress, DecodeError>
  {
    match FirstInteriorExtension(field, 0)
    case Some(k) => Failure(FrameFormat(InteriorExtensionBitSet(k)))
    case None =>
      var callsign := CallsignText(field);
      if !CallsignAcceptedAsWritten(callsign) then Failure(FrameFormat(CallsignInvalid))
      else if |field| < 7 then Failure(FrameFormat(AddressFieldMalformed))
      else
        match SsidByteAddress(callsign, field[6])
        case Failure(e) => Failure(InvalidArgument(e))
        case Success(a) => Success(DecodedAddress(a, field[|field| - 1] % 2 == 1))
  }

  /** The two address decoders agree on every field whose callsign holds no line feed. */
  lemma AddressFieldDecodersAgree(field: seq<byte>)
    requires forall i :: 0 <= i < |CallsignText(field)| ==> CallsignText(field)[i] != '\n'
    ensures AddressFieldAsWritten(field) == AddressFieldSpec(field)
  {
    AsWrittenAgreesWithoutLineFeed(CallsignText(field));
  }

  /** A field shorter than seven bytes never decodes. */
  lemma ShortFieldRejected(field: seq<byte>)
    requires |field| < 7
    ensures AddressFieldSpec(field).Failure?
    ensures NoInteriorExtension(field) && IsValidCallsign(CallsignText(field)) ==>
      AddressFieldSpec(field) == Failure(FrameFormat(AddressFieldMalformed))
  {
    FirstInteriorExtensionMeaning(field, 0);
  }

  // ---------------------------------------------------------------------------
  // Reference encoding of address fields

  /** An address the reference encoder can write: a valid callsign of at most six characters and a 4-bit SSID. */
  predicate Encodable(a: AddressFramePart)
  {
    IsValidCallsign(a.callsign) && |a.callsign| <= 6 && 0 <= a.ssid < 16
  }

  /** Callsign byte `i`: the character, or a filler space past its end, shifted up one bit. */
  function PaddedCallsignByte(callsign: string, i: nat): (b: byte)
    requires IsValidCallsign(callsign)
    ensures b % 2 == 0
  {
    2 * (if i < |callsign| then callsign[i] as int else 0x20)
  }

  /** The SSID byte: command, reserved bits, SSID and the extension bit for the last field. */
  function SsidByte(a: AddressFramePart, last: bool): byte
    requires 0 <= a.ssid < 16
  {
    (if a.commandOrRepeated then 128 else 0) + (if a.reserved6 then 64 else 0) +
    (if a.reserved5 then 32 else 0) + 2 * a.ssid + (if last then 1 else 0)
  }

  /** The seven-byte address field of `a` as section 3.12 of AX.25 v2.2 lays it out. */
  function AddressFieldBytes(a: AddressFramePart, last: bool): (field: seq<byte>)
    requires Encodable(a)
    ensures |field| == 7
  {
    seq(6, i requires 0 <= i < 6 => PaddedCallsignByte(a.callsign, i)) + [SsidByte(a, last)]
  }

  lemma SsidByteDecomposes(a: AddressFramePart, last: bool)
    requires 0 <= a.ssid < 16
    ensures var b := SsidByte(a, last);
      (b / 2) % 16 == a.ssid && ((b / 128) % 2 == 1) == a.commandOrRepeated &&
      ((b / 64) % 2 == 1) == a.reserved6 && ((b / 32) % 2 == 1) == a.reserved5 &&
      (b % 2 == 1) == last
  {
    var c := if a.commandOrRepeated then 1 else 0;
    var r6 := if a.reserved6 then 1 else 0;
    var r5 := if a.reserved5 then 1 else 0;
    var l := if last then 1 else 0;
    var b := SsidByte(a, last);
    assert b == 128 * c + 64 * r6 + 32 * r5 + 2 * a.ssid + l;
    assert b / 2 == 64 * c + 32 * r6 + 16 * r5 + a.ssid;
    assert b / 32 == 4 * c + 2 * r6 + r5;
    assert b / 64 == 2 * c + r6;
    assert b / 128 == c;
  }

  /** Decoding the reference encoding of an address gives the address and the extension flag back. */
  lemma AddressFieldRoundTrip(a: AddressFramePart, last: bool)
    requires Encodable(a)
    ensures AddressFieldSpec(AddressFieldBytes(a, last)) == Success(DecodedAddress(a, last))
  {
    var field := AddressFieldBytes(a, last);
    var cs := a.callsign;
    assert NoInteriorExtension(field) by {
      forall j | 0 <= j < 6
        ensures field[j] % 2 == 0
      {
        assert field[j] == PaddedCallsignByte(cs, j);
      }
    }
    FirstInteriorExtensionMeaning(field, 0);
    var padding := seq(6 - |cs|, _ => ' ');
    assert AsciiString(CallsignBytes(field)) == cs + padding by {
      forall i | 0 <= i < 6
        ensures AsciiString(CallsignBytes(field))[i] == (cs + padding)[i]
      {
        assert field[i] == PaddedCallsignByte(cs, i);
      }
    }
    TrimPadding(cs, 6 - |cs|);
    assert CallsignText(field) == cs;
    SsidByteDecomposes(a, last);
    assert field[6] == SsidByte(a, last);
    ValidCallsignNotBlank(cs);
  }

  /** Worked example: N0CALL, SSID 1, both reserved bits set, not the last field. */
  lemma N0CallFieldExample()
    ensures AddressFieldSpec([0x9C, 0x60, 0x86, 0x82, 0x98, 0x98, 0x62])
         == Success(DecodedAddress(AddressFramePart("N0CALL", 1, false, true, true), false))
  {
    var a := AddressFramePart("N0CALL", 1, false, true, true);
    assert IsValidCallsign(a.callsign) by {
      assert forall i :: 0 <= i < 6 ==> IsCallsignChar(a.callsign[i]);
    }
    AddressFieldRoundTrip(a, false);
    assert AddressFieldBytes(a, false) == [0x9C, 0x60, 0x86, 0x82, 0x98, 0x98, 0x62];
  }

  /**
   * The field `9C 60 86 82 98 14 60`, whose callsign characters are "N0CAL" and a line
   * feed: the corrected test refuses it, the test as written accepts it and the field
   * decodes to an address whose callsign ends in a line feed.
   */
  lemma LineFeedCallsignField()
    ensures CallsignText([0x9C, 0x60, 0x86, 0x82, 0x98, 0x14, 0x60]) == "N0CAL\n"
    ensures CallsignAcceptedAsWritten("N0CAL\n")
    ensures AddressFieldSpec([0x9C, 0x60, 0x86, 0x82, 0x98, 0x14, 0x60]) == Failure(FrameFormat(CallsignInvalid))
    ensures AddressFieldAsWritten([0x9C, 0x60, 0x86, 0x82, 0x98, 0x14, 0x60])
         == Success(DecodedAddress(AddressFramePart("N0CAL\n", 0, false, true, true), false))
  {
    var field: seq<byte> := [0x9C, 0x60, 0x86, 0x82, 0x98, 0x14, 0x60];
    assert AsciiString(CallsignBytes(field)) == "N0CAL\n";
    AsWrittenAcceptsTrailingLineFeed();
    assert FirstInteriorExtension(field, 0) == None;
  }

  // ---------------------------------------------------------------------------
  // The address chain

  datatype AddressChain = AddressChain(destination: AddressFramePart, source: AddressFramePart, digipeaters: seq<AddressFramePart>)

  /**
   * The addresses after the field at `offset`: each iteration moves seven bytes on,
   * refuses an offset beyond `maxOffset`, slices `fieldLength` bytes and decodes them,
   * and the chain stops at the field whose extension bit is set.
   */
  function AddressesAfter(frame: seq<byte>, fieldLength: nat, maxOffset: int, offset: nat)
    : (r: Result<seq<AddressFramePart>, DecodeError>)
    ensures r.Success? ==> |r.value| >= 1 && offset + 7 * |r.value| <= maxOffset
    decreases maxOffset - offset
  {
    var next := offset + 7;
    if next > maxOffset then Failure(FrameFormat(TooManyAddresses))
    else if next + fieldLength > |frame| then Failure(SliceOutOfRange)
    else match AddressFieldSpec(frame[next..next + fieldLength])
      case Failure(e) => Failure(e)
      case Success(d) =>
        if d.addressExtensionBitSet then Success([d.address])
        else match AddressesAfter(frame, fieldLength, maxOffset, next)
          case Failure(e) => Failure(e)
          case Success(rest) => Success([d.address] + rest)
  }

  /**
   * What `DecodeFrameAddresses` computes, with the slice length and the digipeater
   * limit as parameters, and with the corrected callsign test of `AddressFieldSpec`.
   * The source slices six bytes and bounds the offset by 21, which is
   * `AddressChainSpec(frame, 6, 2)` up to that test: both refuse every frame, but a
   * destination whose callsign ends in a line feed is refused here as an invalid
   * callsign and in the source as a malformed field.
   */
  function AddressChainSpec(frame: seq<byte>, fieldLength: nat, maxDigipeaters: nat)
    : (r: Result<AddressChain, DecodeError>)
    ensures r.Success? ==> |r.value.digipeaters| <= maxDigipeaters
    ensures r.Success? ==> fieldLength >= 7
  {
    if fieldLength > |frame| then Failure(SliceOutOfRange)
    else match AddressFieldSpec(frame[..fieldLength])
      case Failure(e) => Failure(e)
      case Success(dest) =>
        if dest.addressExtensionBitSet then Failure(FrameFormat(DestinationExtensionBitSet))
        else ChainAfter(dest.address, AddressesAfter(frame, fieldLength, 7 * (maxDigipeaters + 1), 0))
  }

  /** A destination field with its extension bit set ends decoding with that error. */
  lemma DestinationExtensionRejected(frame: seq<byte>, fieldLength: nat, maxDigipeaters: nat)
    requires fieldLength <= |frame|
    requires AddressFieldSpec(frame[..fieldLength]).Success?
    requires AddressFieldSpec(frame[..fieldLength]).value.addressExtensionBitSet
    ensures AddressChainSpec(frame, fieldLength, maxDigipeaters) == Failure(FrameFormat(DestinationExtensionBitSet))
  {
  }

  /** The chain of a destination and the outcome of decoding the addresses after it: source first, then digipeaters. */
  function ChainAfter(destination: AddressFramePart, addresses: Result<seq<AddressFramePart>, DecodeError>)
    : Result<AddressChain, DecodeError>
    requires addresses.Success? ==> |addresses.value| >= 1
  {
    match addresses
    case Failure(e) => Failure(e)
    case Success(v) => Success(AddressChain(destination, v[0], v[1..]))
  }

  /**
   * The corrected `DecodeFrameAddresses`: whole seven-byte slices, and the digipeater
   * limit a parameter instead of a hard-coded offset bound.
   */
  function DecodeFrameAddressesSpec(frame: seq<byte>, maxDigipeaters: nat): (r: Result<AddressChain, DecodeError>)
    ensures r.Success? ==> |r.value.digipeaters| <= maxDigipeaters
  {
    AddressChainSpec(frame, 7, maxDigipeaters)
  }

  /** `Prepend(xs, r)`: the addresses `xs` decoded so far in front of the outcome `r` of the rest. */
  function Prepend(xs: seq<AddressFramePart>, r: Result<seq<AddressFramePart>, DecodeError>)
    : Result<seq<AddressFramePart>, DecodeError>
  {
    match r
    case Failure(e) => Failure(e)
    case Success(v) => Success(xs + v)
  }

  lemma AddressChainSpecUnfold(frame: seq<byte>, fieldLength: nat, maxDigipeaters: nat, d: DecodedAddress)
    requires fieldLength <= |frame| && AddressFieldSpec(frame[..fieldLength]) == Success(d)
    requires !d.addressExtensionBitSet
    ensures AddressChainSpec(frame, fieldLength, maxDigipeaters)
         == ChainAfter(d.address, AddressesAfter(frame, fieldLength, 7 * (maxDigipeaters + 1), 0))
  {
  }

  lemma PrependPrepend(xs: seq<AddressFramePart>, ys: seq<AddressFramePart>, r: Result<seq<AddressFramePart>, DecodeError>)
    ensures Prepend(xs, Prepend(ys, r)) == Prepend(xs + ys, r)
  {
    if r.Success? {
      assert xs + (ys + r.value) == (xs + ys) + r.value;
    }
  }

  /** One iteration of the chain loop, when the field at the next offset decodes. */
  lemma AddressesAfterStep(frame: seq<byte>, fieldLength: nat, maxOffset: int, offset: nat, d: DecodedAddress)
    requires offset + 7 <= maxOffset && offset + 7 + fieldLength <= |frame|
    requires AddressFieldSpec(frame[offset + 7..offset + 7 + fieldLength]) == Success(d)
    ensures AddressesAfter(frame, fieldLength, maxOffset, offset)
         == if d.addressExtensionBitSet then Success([d.address])
            else Prepend([d.address], AddressesAfter(frame, fieldLength, maxOffset, offset + 7))
  {
  }

  /** An iteration of the chain loop that stops early: the whole outcome is that failure. */
  lemma ChainLoopFails(all: Result<seq<AddressFramePart>, DecodeError>, decoded: seq<AddressFramePart>,
                       frame: seq<byte>, fieldLength: nat, maxOffset: int, offset: nat)
    requires all == Prepend(decoded, AddressesAfter(frame, fieldLength, maxOffset, offset))
    ensures offset + 7 > maxOffset ==> all == Failure(FrameFormat(TooManyAddresses))
    ensures offset + 7 <= maxOffset && offset + 7 + fieldLength > |frame| ==> all == Failure(SliceOutOfRange)
    ensures offset + 7 <= maxOffset && offset + 7 + fieldLength <= |frame| ==>
      var field := AddressFieldSpec(frame[offset + 7..offset + 7 + fieldLength]);
      field.Failure? ==> all == Failure(field.error)
  {
  }

  /** An iteration of the chain loop that decodes one more address. */
  lemma ChainLoopStep(all: Result<seq<AddressFramePart>, DecodeError>, decoded: seq<AddressFramePart>,
                      frame: seq<byte>, fieldLength: nat, maxOffset: int, offset: nat,
                      field: seq<byte>, d: DecodedAddress)
    requires all == Prepend(decoded, AddressesAfter(frame, fieldLength, maxOffset, offset))
    requires offset + 7 <= maxOffset && offset + 7 + fieldLength <= |frame|
    requires field == frame[offset + 7..offset + 7 + fieldLength]
    requires AddressFieldSpec(field) == Success(d)
    ensures d.addressExtensionBitSet ==> all == Success(decoded + [d.address])
    ensures !d.addressExtensionBitSet ==>
      all == Prepend(decoded + [d.address], AddressesAfter(frame, fieldLength, maxOffset, offset + 7))
  {
    AddressesAfterStep(frame, fieldLength, maxOffset, offset, d);
    PrependPrepend(decoded, [d.address], AddressesAfter(frame, fieldLength, maxOffset, offset + 7));
  }

  /**
   * `DecodeFrameAddresses`: the destination field is decoded first, then the loop
   * (`DecodeAddressesAfter`) reads the source and the digipeaters. The source passes
   * `fieldLength` 6 and `maxDigipeaters` 2.
   */
  method DecodeFrameAddresses(frameBytes: seq<byte>, fieldLength: nat, maxDigipeaters: nat)
    returns (r: Result<AddressChain, DecodeError>)
    ensures r == AddressChainSpec(frameBytes, fieldLength, maxDigipeaters)
  {
    if fieldLength > |frameBytes| {
      return Failure(SliceOutOfRange);
    }
    var destination := DecodeAddressField(frameBytes[..fieldLength]);
    if destination.Failure? {
      return Failure(destination.error);
    }
    if destination.value.addressExtensionBitSet {
      return Failure(FrameFormat(DestinationExtensionBitSet));
    }
    AddressChainSpecUnfold(frameBytes, fieldLength, maxDigipeaters, destination.value);
    r := DecodeAddressesAfter(frameBytes, fieldLength, maxDigipeaters, destination.value.address);
  }

  /**
   * The loop of `DecodeFrameAddresses` advancing `currentByteOffset` seven bytes at a
   * time, taking the first address as the source and the rest as digipeaters.
   */
  method DecodeAddressesAfter(frameBytes: seq<byte>, fieldLength: nat, maxDigipeaters: nat, destination: AddressFramePart)
    returns (r: Result<AddressChain, DecodeError>)
    ensures r == ChainAfter(destination, AddressesAfter(frameBytes, fieldLength, 7 * (maxDigipeaters + 1), 0))
  {
    ghost var maxOffset := 7 * (maxDigipeaters + 1);
    ghost var all := AddressesAfter(frameBytes, fieldLength, maxOffset, 0);
    var source: Option<AddressFramePart> := None;
    var digipeaters: seq<AddressFramePart> := [];
    var currentByteOffset: nat := 0;
    var noRemainingAddresses := false;
    ghost var decoded: seq<AddressFramePart> := [];
    assert all == Prepend(decoded, all) by {
      if all.Success? {
        assert decoded + all.value == all.value;
      }
    }
    while !noRemainingAddresses
      invariant currentByteOffset <= maxOffset
      invariant source.None? <==> currentByteOffset == 0
      invariant source.None? ==> decoded == [] && digipeaters == []
      invariant source.Some? ==> decoded == [source.value] + digipeaters
      invariant noRemainingAddresses ==> source.Some? && all == Success(decoded)
      invariant !noRemainingAddresses ==>
        all == Prepend(decoded, AddressesAfter(frameBytes, fieldLength, maxOffset, currentByteOffset))
      decreases maxOffset - currentByteOffset, !noRemainingAddresses
    {
      ghost var previous := currentByteOffset;
      currentByteOffset := currentByteOffset + 7;
      if currentByteOffset > 7 * (maxDigipeaters + 1) {
        ChainLoopFails(all, decoded, frameBytes, fieldLength, maxOffset, previous);
        return Failure(FrameFormat(TooManyAddresses));
      }
      if currentByteOffset + fieldLength > |frameBytes| {
        ChainLoopFails(all, decoded, frameBytes, fieldLength, maxOffset, previous);
        return Failure(SliceOutOfRange);
      }
      var field := frameBytes[currentByteOffset..currentByteOffset + fieldLength];
      var address := DecodeAddressField(field);
      if address.Failure? {
        ChainLoopFails(all, decoded, frameBytes, fieldLength, maxOffset, previous);
        return Failure(address.error);
      }
      ChainLoopStep(all, decoded, frameBytes, fieldLength, maxOffset, previous, field, address.value);
      noRemainingAddresses := address.value.addressExtensionBitSet;
      if source.None? {
        source := Some(address.value.address);
      } else {
        digipeaters := digipeaters + [address.value.address];
      }
      decoded := decoded + [address.value.address];
    }
    r := Success(AddressChain(destination, source.value, digipeaters));
  }

  /** The chain as written never decodes: its six-byte destination slice has no SSID byte. */
  lemma AddressChainAsWrittenFails(frame: seq<byte>)
    ensures AddressChainSpec(frame, 6, 2).Failure?
  {
  }

  /** The reference encoding of the addresses after the destination; the last one carries the extension bit. */
  function AddressesBytes(addresses: seq<AddressFramePart>): (bytes: seq<byte>)
    requires forall i :: 0 <= i < |addresses| ==> Encodable(addresses[i])
    ensures |bytes| == 7 * |addresses|
  {
    if addresses == [] then []
    else AddressFieldBytes(addresses[0], |addresses| == 1) + AddressesBytes(addresses[1..])
  }

  /** The reference encoding of a whole address chain. */
  function ChainBytes(c: AddressChain): (bytes: seq<byte>)
    requires Encodable(c.destination) && Encodable(c.source)
    requires forall i :: 0 <= i < |c.digipeaters| ==> Encodable(c.digipeaters[i])
    ensures |bytes| == 14 + 7 * |c.digipeaters|
  {
    AddressFieldBytes(c.destination, false) + AddressesBytes([c.source] + c.digipeaters)
  }

  predicate ChainEncodable(c: AddressChain)
  {
    Encodable(c.destination) && Encodable(c.source) &&
    forall i :: 0 <= i < |c.digipeaters| ==> Encodable(c.digipeaters[i])
  }

  lemma MiddleOfConcat(p: seq<byte>, m: seq<byte>, q: seq<byte>)
    ensures (p + m + q)[|p|..|p| + |m|] == m
  {
    assert forall k :: 0 <= k < |m| ==> (p + m + q)[|p|..|p| + |m|][k] == m[k];
  }

  lemma Regroup(p: seq<byte>, h: seq<byte>, t: seq<byte>, q: seq<byte>)
    ensures p + (h + t) + q == p + h + (t + q) == (p + h) + t + q
  {
  }

  /** An encoded address field placed after `prefix` decodes back wherever it sits. */
  lemma EncodedFieldAt(prefix: seq<byte>, a: AddressFramePart, last: bool, rest: seq<byte>)
    requires Encodable(a)
    ensures AddressFieldSpec((prefix + AddressFieldBytes(a, last) + rest)[|prefix|..|prefix| + 7])
         == Success(DecodedAddress(a, last))
  {
    MiddleOfConcat(prefix, AddressFieldBytes(a, last), rest);
    AddressFieldRoundTrip(a, last);
  }

  /** The first of several encoded address fields decodes, and the loop goes on after it. */
  lemma EncodedHeadStep(prefix: seq<byte>, addresses: seq<AddressFramePart>, suffix: seq<byte>, maxOffset: int)
    requires 7 <= |prefix| <= maxOffset && |addresses| >= 1
    requires forall i :: 0 <= i < |addresses| ==> Encodable(addresses[i])
    ensures var frame := prefix + AddressesBytes(addresses) + suffix;
            var longer := prefix + AddressFieldBytes(addresses[0], |addresses| == 1);
            && frame == longer + AddressesBytes(addresses[1..]) + suffix
            && |longer| - 7 == |prefix|
            && AddressesAfter(frame, 7, maxOffset, |prefix| - 7)
               == if |addresses| == 1 then Success([addresses[0]])
                  else Prepend([addresses[0]], AddressesAfter(frame, 7, maxOffset, |prefix|))
  {
    var frame := prefix + AddressesBytes(addresses) + suffix;
    var offset := |prefix| - 7;
    var n := |addresses|;
    var a := addresses[0];
    var head := AddressFieldBytes(a, n == 1);
    var tail := AddressesBytes(addresses[1..]);
    var d := DecodedAddress(a, n == 1);
    assert AddressesBytes(addresses) == head + tail;
    Regroup(prefix, head, tail, suffix);
    assert AddressFieldSpec(frame[offset + 7..offset + 7 + 7]) == Success(d) by {
      EncodedFieldAt(prefix, a, n == 1, tail + suffix);
    }
    AddressesAfterStep(frame, 7, maxOffset, offset, d);
  }

  /**
   * The reference encoding of `addresses`, placed after the `prefix` that ends with
   * the field at `|prefix| - 7`, decodes to `addresses` when the bound leaves room.
   */
  lemma {:induction false} AddressesAfterEncoded(prefix: seq<byte>, addresses: seq<AddressFramePart>, suffix: seq<byte>, maxOffset: int)
    requires |prefix| >= 7 && |addresses| >= 1
    requires forall i :: 0 <= i < |addresses| ==> Encodable(addresses[i])
    ensures AddressesAfter(prefix + AddressesBytes(addresses) + suffix, 7, maxOffset, |prefix| - 7)
         == if |prefix| - 7 + 7 * |addresses| <= maxOffset then Success(addresses)
            else Failure(FrameFormat(TooManyAddresses))
    decreases |addresses|
  {
    var frame := prefix + AddressesBytes(addresses) + suffix;
    var offset := |prefix| - 7;
    var n := |addresses|;
    if |prefix| <= maxOffset {
      var a := addresses[0];
      var longer := prefix + AddressFieldBytes(a, n == 1);
      EncodedHeadStep(prefix, addresses, suffix, maxOffset);
      if n == 1 {
        assert addresses == [a];
      } else {
        AddressesAfterEncoded(longer, addresses[1..], suffix, maxOffset);
        assert |longer| - 7 + 7 * |addresses[1..]| == offset + 7 * n;
        assert [a] + addresses[1..] == addresses;
      }
    }
  }

  /**
   * Decoding the reference encoding of a chain followed by anything gives the chain
   * back when it has at most `maxDigipeaters` digipeaters, and "too many addresses"
   * otherwise.
   */
  lemma AddressChainRoundTrip(c: AddressChain, maxDigipeaters: nat, rest: seq<byte>)
    requires ChainEncodable(c)
    ensures AddressChainSpec(ChainBytes(c) + rest, 7, maxDigipeaters)
         == if |c.digipeaters| <= maxDigipeaters then Success(c)
            else Failure(FrameFormat(TooManyAddresses))
  {
    var destination := AddressFieldBytes(c.destination, false);
    var addresses := [c.source] + c.digipeaters;
    var frame := ChainBytes(c) + rest;
    assert frame == destination + AddressesBytes(addresses) + rest;
    MiddleOfConcat([], destination, AddressesBytes(addresses) + rest);
    assert frame[..7] == destination;
    AddressFieldRoundTrip(c.destination, false);
    AddressesAfterEncoded(destination, addresses, rest, 7 * (maxDigipeaters + 1));
    assert addresses[1..] == c.digipeaters;
  }

  /**
   * The bound as written (an offset above 21 is refused) accepts a chain with two
   * digipeaters, four address fields, where its comment allows three fields.
   */
  lemma TwoDigipeatersPassBound(c: AddressChain, rest: seq<byte>)
    requires ChainEncodable(c) && |c.digipeaters| == 2
    ensures AddressChainSpec(ChainBytes(c) + rest, 7, 2) == Success(c)
    ensures DecodeFrameAddressesSpec(ChainBytes(c) + rest, 1) == Failure(FrameFormat(TooManyAddresses))
  {
    AddressChainRoundTrip(c, 2, rest);
    AddressChainRoundTrip(c, 1, rest);
  }

  // ---------------------------------------------------------------------------
  // The control field

  /**
   * `DecodeControlField` as written: the frame type is bits 1-0 and poll/final bit 4;
   * `10` is refused, although bit 1 of an information frame is part of N(S).
   */
  function DecodeControlFieldAsWritten(field: byte): (r: Result<ControlFramePart, DecodeError>)
    ensures r.Failure? <==> field % 4 == 2
    ensures r.Failure? ==> r.error == FrameFormat(FrameTypeUndetermined)
    ensures r.Success? ==> r.value.pollFinal == ((field / 16) % 2 == 1)
    ensures r.Success? && r.value.Information? ==> r.value.sendSequence % 2 == 0
  {
    var pollFinal := (field / 16) % 2 == 1;
    var frameType := field % 4;
    if frameType == 0 then Success(Information((field / 2) % 8, (field / 32) % 8, pollFinal))
    else if frameType == 1 then Success(Supervisory((field / 32) % 8, pollFinal, SupervisoryFrameTypeOf((field / 4) % 4)))
    else if frameType == 3 then Success(Unnumbered(pollFinal))
    else Failure(FrameFormat(FrameTypeUndetermined))
  }

  /**
   * The corrected control decoder: bit 0 clear is an information frame whatever bit 1
   * holds, `01` supervisory, `11` unnumbered; every byte decodes.
   */
  function DecodeControlField(field: byte): (r: Result<ControlFramePart, DecodeError>)
    ensures r.Success?
    ensures r.value.pollFinal == ((field / 16) % 2 == 1)
    ensures r.value.Information? <==> field % 2 == 0
    ensures r.value.Unnumbered? <==> field % 4 == 3
  {
    var pollFinal := (field / 16) % 2 == 1;
    if field % 2 == 0 then Success(Information((field / 2) % 8, (field / 32) % 8, pollFinal))
    else if field % 4 == 1 then Success(Supervisory((field / 32) % 8, pollFinal, SupervisoryFrameTypeOf((field / 4) % 4)))
    else Success(Unnumbered(pollFinal))
  }

  /**
   * The two decoders agree on every byte except those ending in `10`, which the code as
   * written refuses and which are information frames with an odd N(S).
   */
  lemma ControlDecodersAgree(field: byte)
    ensures field % 4 != 2 ==> DecodeControlFieldAsWritten(field) == DecodeControlField(field)
    ensures field % 4 == 2 ==>
      DecodeControlFieldAsWritten(field).Failure? &&
      DecodeControlField(field).value.Information? && DecodeControlField(field).value.sendSequence % 2 == 1
  {
    if field % 4 == 2 {
      assert field / 2 == 2 * (field / 4) + 1;
    }
  }

  /** The byte 0x02, an information frame with N(S) 1: refused as written, decoded when corrected. */
  lemma OddSendSequenceExample()
    ensures DecodeControlFieldAsWritten(0x02) == Failure(FrameFormat(FrameTypeUndetermined))
    ensures DecodeControlField(0x02) == Success(Information(1, 0, false))
  {
  }

  /** A control part a modulo-8 control byte can carry. */
  predicate ControlEncodable(p: ControlFramePart)
  {
    match p
    case Information(send, receive, _) => 0 <= send < 8 && 0 <= receive < 8
    case Supervisory(receive, _, _) => 0 <= receive < 8
    case Unnumbered(_) => true
  }

  /** The reference control byte laid out as in section 4.2 of the AX.25 v2.2 specification; an unnumbered frame gets all modifier bits clear. */
  function ControlFieldByte(p: ControlFramePart): byte
    requires ControlEncodable(p)
  {
    var pf := if p.pollFinal then 16 else 0;
    match p
    case Information(send, receive, _) => 32 * receive + pf + 2 * send
    case Supervisory(receive, _, t) => 32 * receive + pf + 4 * SupervisoryCode(t) + 1
    case Unnumbered(_) => pf + 3
  }

  /** Decoding the reference byte of a control part gives the part back. */
  lemma ControlFieldRoundTrip(p: ControlFramePart)
    requires ControlEncodable(p)
    ensures DecodeControlField(ControlFieldByte(p)) == Success(p)
  {
    var pf := if p.pollFinal then 1 else 0;
    match p
    case Information(send, receive, _) =>
      ControlByteFields(ControlFieldByte(p), 2 * send, receive, pf);
    case Supervisory(receive, _, t) =>
      ControlByteFields(ControlFieldByte(p), 4 * SupervisoryCode(t) + 1, receive, pf);
      assert SupervisoryFrameTypeOf(SupervisoryCode(t)) == t;
    case Unnumbered(_) =>
      ControlByteFields(ControlFieldByte(p), 3, 0, pf);
  }

  /** A byte built from a receive number, a poll/final bit and a low nibble splits back into them. */
  lemma ControlByteFields(b: int, low: int, receive: int, pf: int)
    requires 0 <= low < 16 && 0 <= receive < 8 && 0 <= pf < 2
    requires b == 32 * receive + 16 * pf + low
    ensures b % 2 == low % 2 && b % 4 == low % 4
    ensures (b / 2) % 8 == low / 2 && (b / 4) % 4 == low / 4
    ensures (b / 16) % 2 == pf && (b / 32) % 8 == receive
  {
    var q := 2 * receive + pf;
    assert b == 16 * q + low;
    assert b / 16 == q;
    assert b == 2 * (8 * q + low / 2) + low % 2;
    assert b / 2 == 8 * q + low / 2;
    assert b == 4 * (4 * q + low / 4) + low % 4;
    assert b / 4 == 4 * q + low / 4;
  }

  /**
   * Every information or supervisory byte is the reference byte of what it decodes to;
   * an unnumbered byte loses its modifier bits 2, 3 and 5 to 7.
   */
  lemma ControlFieldByteRecovered(b: byte)
    ensures ControlEncodable(DecodeControlField(b).value)
    ensures b % 4 != 3 ==> ControlFieldByte(DecodeControlField(b).value) == b
    ensures b % 4 == 3 ==> ControlFieldByte(DecodeControlField(b).value) == 3 + 16 * ((b / 16) % 2)
  {
    var low, receive, pf := b % 16, b / 32, (b / 16) % 2;
    assert b == 32 * receive + 16 * pf + low && receive < 8 by {
      assert b == 16 * (b / 16) + low;
      assert b / 16 == 2 * receive + pf;
    }
    ControlByteFields(b, low, receive, pf);
    if b % 2 == 0 {
      assert low == 2 * (low / 2);
    } else if b % 4 == 1 {
      assert low == 4 * (low / 4) + 1;
      assert SupervisoryCode(SupervisoryFrameTypeOf((b / 4) % 4)) == (b / 4) % 4;
    }
  }

  /** Worked example: 0x05 is a Receive Not Ready supervisory frame, N(R) 0, poll/final clear. */
  lemma ReceiveNotReadyExample()
    ensures DecodeControlFieldAsWritten(0x05) == Success(Supervisory(0, false, ReceiveNotReady))
    ensures DecodeControlField(0x05) == Success(Supervisory(0, false, ReceiveNotReady))
  {
  }

  // ---------------------------------------------------------------------------
  // The frame remainder

  /**
   * The control-byte reads of `DecodeFrameRemainder` from `index`: a missing first
   * byte, or a missing second byte in extended mode, is a malformed control field
   * (the caught `IndexOutOfRangeException`); extended mode is then not implemented;
   * otherwise the one control byte is returned.
   */
  function ControlByteAt(frameBytes: seq<byte>, index: nat, extendedMode: bool): Result<byte, DecodeError>
  {
    if index >= |frameBytes| then Failure(FrameFormat(ControlFieldMalformed))
    else if extendedMode && index + 1 >= |frameBytes| then Failure(FrameFormat(ControlFieldMalformed))
    else if extendedMode then Failure(NotImplemented)
    else Success(frameBytes[index])
  }

  /** `DecodeFrameRemainder` as written: the control byte is looked for one past the end of the addresses. */
  function DecodeFrameRemainderAsWritten(frameBytes: seq<byte>, digipeaters: seq<AddressFramePart>, extendedMode: bool)
    : (r: Result<ControlFramePart, DecodeError>)
    ensures extendedMode ==> r.Failure? && (r.error.FrameFormat? ==> r.error.reason == ControlFieldMalformed)
    ensures r == Failure(FrameFormat(ControlFieldMalformed)) <==>
      |frameBytes| <= 14 + 7 * |digipeaters| + (if extendedMode then 2 else 1)
    ensures !extendedMode && |frameBytes| > 15 + 7 * |digipeaters| ==>
      r == DecodeControlFieldAsWritten(frameBytes[15 + 7 * |digipeaters|])
    ensures extendedMode && |frameBytes| >= 17 + 7 * |digipeaters| ==> r == Failure(NotImplemented)
  {
    match ControlByteAt(frameBytes, 14 + 7 * |digipeaters| + 1, extendedMode)
    case Failure(e) => Failure(e)
    case Success(control) => DecodeControlFieldAsWritten(control)
  }

  /** The corrected `DecodeFrameRemainder`: the control byte directly follows the last address field. */
  function DecodeFrameRemainder(frameBytes: seq<byte>, digipeaters: seq<AddressFramePart>, extendedMode: bool)
    : (r: Result<ControlFramePart, DecodeError>)
    ensures extendedMode ==> r.Failure? && (r.error.FrameFormat? ==> r.error.reason == ControlFieldMalformed)
    ensures extendedMode ==> (r.error == NotImplemented <==> |frameBytes| >= 14 + 7 * |digipeaters| + 2)
    ensures r == Failure(FrameFormat(ControlFieldMalformed)) <==>
      |frameBytes| < 14 + 7 * |digipeaters| + (if extendedMode then 2 else 1)
  {
    match ControlByteAt(frameBytes, 14 + 7 * |digipeaters|, extendedMode)
    case Failure(e) => Failure(e)
    case Success(control) => DecodeControlField(control)
  }

  /**
   * A header of address chain and control byte: the index as written runs past a frame
   * that ends with its control byte, the corrected index decodes that byte.
   */
  lemma ControlIndexOffByOne(c: AddressChain, control: byte)
    requires ChainEncodable(c)
    ensures DecodeFrameRemainderAsWritten(ChainBytes(c) + [control], c.digipeaters, false)
         == Failure(FrameFormat(ControlFieldMalformed))
    ensures DecodeFrameRemainder(ChainBytes(c) + [control], c.digipeaters, false)
         == DecodeControlField(control)
  {
    var frame := ChainBytes(c) + [control];
    assert frame[14 + 7 * |c.digipeaters|] == control;
  }

  /**
   * A whole header round trip: the reference chain, the reference control byte and any
   * further bytes decode to the chain and the control part.
   */
  lemma HeaderRoundTrip(c: AddressChain, maxDigipeaters: nat, p: ControlFramePart, rest: seq<byte>)
    requires ChainEncodable(c) && |c.digipeaters| <= maxDigipeaters
    requires ControlEncodable(p)
    ensures DecodeFrameAddressesSpec(ChainBytes(c) + [ControlFieldByte(p)] + rest, maxDigipeaters) == Success(c)
    ensures DecodeFrameRemainder(ChainBytes(c) + [ControlFieldByte(p)] + rest, c.digipeaters, false) == Success(p)
  {
    var frame := ChainBytes(c) + [ControlFieldByte(p)] + rest;
    assert frame == ChainBytes(c) + ([ControlFieldByte(p)] + rest);
    AddressChainRoundTrip(c, maxDigipeaters, [ControlFieldByte(p)] + rest);
    assert frame[14 + 7 * |c.digipeaters|] == ControlFieldByte(p);
    ControlFieldRoundTrip(p);
  }
}

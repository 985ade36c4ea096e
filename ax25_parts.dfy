/**
 * The parts of an AX.25 frame header: DotPacket.Ax25/FrameParts/AddressFramePart.cs,
 * ControlFramePart.cs and SupervisoryFrameType.cs.
 */
module Ax25Parts {
  import opened Wrappers

  /** The supervisory frame kinds, with the enum values 0 to 3. */
  datatype SupervisoryFrameType = ReceiveReady | ReceiveNotReady | ImplicitReject | SelectiveReject

  /** The enum value of a supervisory kind. */
  function SupervisoryCode(t: SupervisoryFrameType): (v: int)
    ensures 0 <= v < 4
  {
    match t
    case ReceiveReady => 0
    case ReceiveNotReady => 1
    case ImplicitReject => 2
    case SelectiveReject => 3
  }

  /** The cast `(SupervisoryFrameType)v` of a two-bit value. */
  function SupervisoryFrameTypeOf(v: int): (t: SupervisoryFrameType)
    requires 0 <= v < 4
    ensures SupervisoryCode(t) == v
  {
    if v == 0 then ReceiveReady
    else if v == 1 then ReceiveNotReady
    else if v == 2 then ImplicitReject
    else SelectiveReject
  }

  /**
   * A decoded modulo-8 control field. The source's `ControlFramePart` carries a frame
   * type tag and nullable sequence numbers; each tag fills exactly the fields of one
   * variant here.
   */
  datatype ControlFramePart =
    | Information(sendSequence: int, receiveSequence: int, pollFinal: bool)
    | Supervisory(receiveSequence: int, pollFinal: bool, supervisoryType: SupervisoryFrameType)
    | Unnumbered(pollFinal: bool)

  /** One address of the AX.25 address chain. */
  datatype AddressFramePart =
    AddressFramePart(callsign: string, ssid: int, commandOrRepeated: bool, reserved5: bool, reserved6: bool)

  /** The exceptions the record's constructor throws. */
  datatype ArgumentError =
    | CallsignNullOrWhiteSpace   // ArgumentNullException
    | CallsignTooLong            // ArgumentException

  /** `char.IsWhiteSpace`: the Unicode separators and the controls U+0009 to U+000D, U+0085. */
  predicate IsWhiteSpace(c: char)
  {
    var n := c as int;
    (0x09 <= n <= 0x0D) || n == 0x20 || n == 0x85 || n == 0xA0 || n == 0x1680 ||
    (0x2000 <= n <= 0x200A) || n == 0x2028 || n == 0x2029 || n == 0x202F || n == 0x205F || n == 0x3000
  }

  /** `string.IsNullOrWhiteSpace` on a non-null string. */
  predicate IsNullOrWhiteSpace(s: string)
  {
    forall i :: 0 <= i < |s| ==> IsWhiteSpace(s[i])
  }

  /**
   * The constructor `new AddressFramePart(...)`: it refuses a blank callsign and one
   * longer than six characters, and otherwise stores its arguments as given.
   */
  function NewAddressFramePart(callsign: string, ssid: int, commandOrRepeated: bool, reserved5: bool, reserved6: bool)
    : (r: Result<AddressFramePart, ArgumentError>)
    ensures r == Failure(CallsignNullOrWhiteSpace) <==> IsNullOrWhiteSpace(callsign)
    ensures r == Failure(CallsignTooLong) <==> !IsNullOrWhiteSpace(callsign) && |callsign| > 6
    ensures r.Success? ==> r.value == AddressFramePart(callsign, ssid, commandOrRepeated, reserved5, reserved6)
  {
    if IsNullOrWhiteSpace(callsign) then Failure(CallsignNullOrWhiteSpace)
    else if |callsign| > 6 then Failure(CallsignTooLong)
    else Success(AddressFramePart(callsign, ssid, commandOrRepeated, reserved5, reserved6))
  }
}

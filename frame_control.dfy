/** The 802.11 Frame Control field (section 8.2.4.1 of IEEE Std 802.11-2012):
    a 16-bit word holding the protocol version (bits 0-1), the frame type
    (bits 2-3), the subtype (bits 4-7) and eight flag bits (bits 8-15). */
module FrameControl {
  import opened Bytes

  type Bits2 = x: int | 0 <= x < 4
  type Bits4 = x: int | 0 <= x < 16

  /** Frame type of control frames. */
  const ControlType: Bits2 := 1
  /** Subtype of a Block Ack Request among the control frames. */
  const BlockAckRequestSubType: Bits4 := 8

  /** The decoded field; `flags` holds To DS, From DS, More Fragments, Retry,
      Power Management, More Data, Protected Frame and Order, lowest bit first. */
  datatype FrameControlField = FrameControlField(
    protocolVersion: Bits2,
    frameType: Bits2,
    subType: Bits4,
    flags: byte)

  /** The 16-bit word `Field` of a decoded Frame Control. */
  function Field(fc: FrameControlField): u16
  {
    fc.protocolVersion + 4 * fc.frameType + 16 * fc.subType + 256 * fc.flags
  }

  /** Splits a 16-bit word into its Frame Control parts. */
  function Decode(field: u16): FrameControlField
  {
    FrameControlField(field % 4, field / 4 % 4, field / 16 % 16, field / 256)
  }

  /** The field a default-constructed Frame Control holds: every bit clear. */
  function Empty(): FrameControlField
  {
    FrameControlField(0, 0, 0, 0)
  }

  /** The empty field is the all-zero word, both ways. */
  lemma EmptyIsZero()
    ensures Field(Empty()) == 0 && Decode(0) == Empty()
  {
    assert Decode(0) == FrameControlField(0, 0, 0, 0);
  }

  /** The field with its type and subtype replaced, as assigning a frame
      kind to a Frame Control does; the version and flags are kept. */
  function WithKind(fc: FrameControlField, frameType: Bits2, subType: Bits4): (r: FrameControlField)
    ensures r.frameType == frameType && r.subType == subType
    ensures r.protocolVersion == fc.protocolVersion && r.flags == fc.flags
  {
    FrameControlField(fc.protocolVersion, frameType, subType, fc.flags)
  }

  /** On the 16-bit word, assigning the frame kind rewrites bits 2-7 to the
      type and subtype and leaves the version bits and the flag byte as they
      were. */
  lemma WithKindWord(fc: FrameControlField, frameType: Bits2, subType: Bits4)
    ensures Field(WithKind(fc, frameType, subType)) % 4 == Field(fc) % 4
    ensures Field(WithKind(fc, frameType, subType)) / 256 == Field(fc) / 256
    ensures Field(WithKind(fc, frameType, subType)) / 4 % 64 == frameType + 4 * subType
  {
    var r := Field(WithKind(fc, frameType, subType));
    var kind := frameType + 4 * subType;
    Split4(fc.protocolVersion, kind + 64 * fc.flags);
    Split256(fc.protocolVersion + 4 * kind, fc.flags);
    Split256(fc.protocolVersion + 4 * fc.frameType + 16 * fc.subType, fc.flags);
    Split4(fc.protocolVersion, fc.frameType + 4 * fc.subType + 64 * fc.flags);
    Split64(kind, fc.flags);
  }

  /** A word made of a low part below 4 (or 64, or 256) and a high part
      splits back into them by division and remainder. */
  lemma Split4(low: int, high: int)
    requires 0 <= low < 4
    ensures (low + 4 * high) / 4 == high && (low + 4 * high) % 4 == low
  {
  }

  lemma Split64(low: int, high: int)
    requires 0 <= low < 64
    ensures (low + 64 * high) / 64 == high && (low + 64 * high) % 64 == low
  {
  }

  lemma Split256(low: int, high: int)
    requires 0 <= low < 256
    ensures (low + 256 * high) / 256 == high && (low + 256 * high) % 256 == low
  {
  }

  /** Decoding an encoded field gives back every part. */
  lemma DecodeField(fc: FrameControlField)
    ensures Decode(Field(fc)) == fc
  {
    var f := Field(fc);
    var low := fc.protocolVersion + 4 * fc.frameType + 16 * fc.subType;
    assert f == low + 256 * fc.flags;
    assert f / 256 == fc.flags && f % 256 == low;
    assert f / 16 == fc.subType + 16 * fc.flags;
    assert f / 4 == fc.frameType + 4 * fc.subType + 64 * fc.flags;
  }

  /** Encoding a decoded word gives back the word. */
  lemma FieldDecode(field: u16)
    ensures Field(Decode(field)) == field
  {
    var q4, q16, q256 := field / 4, field / 16, field / 256;
    assert field == 4 * q4 + field % 4;
    assert field == 16 * q16 + field % 16;
    assert field == 256 * q256 + field % 256;
    assert q4 == 4 * q16 + q4 % 4;
    assert q16 == 16 * q256 + q16 % 16;
  }
}

/** The 802.11 Block Ack Request control frame (BlockAckReq, section 8.3.1.8
    of IEEE Std 802.11-2012): Frame Control, Duration, receiver and
    transmitter addresses, BAR Control and Starting Sequence Control, twenty
    bytes in all.

    `Encode` and `Decode` give the wire format as values; the class
    `BlockAckRequestFrame` is the frame object itself: semantic fields held in
    memory over a byte window that reads decode defensively and that
    `UpdateCalculatedValues` re-encodes on demand. */
module BlockAcknowledgmentRequest {
  import opened Bytes
  import opened EndianCodec
  import FrameControl
  import MacFields
  import opened BlockAcknowledgmentRequestFields
  import opened ByteSegment

  /** A six-byte MAC address. */
  type MacAddress = s: seq<byte> | |s| == 6 witness [0, 0, 0, 0, 0, 0]

  /** The address a read of a truncated address field yields. */
  const ZeroAddress: MacAddress := [0, 0, 0, 0, 0, 0]

  /** Length in bytes of every Block Ack Request frame: the sum of its field
      widths, which is also where its last field ends. */
  function FrameSize(): (n: nat)
    ensures n == 20
    ensures n == BlockAckStartingSequenceControlPosition + BlockAckStartingSequenceControlLength
  {
    MacFields.FrameControlLength + MacFields.DurationIDLength + MacFields.AddressLength * 2
      + BlockAckRequestControlLength + BlockAckStartingSequenceControlLength
  }

  /** The semantic content of a frame. The Frame Control is held decoded;
      Duration and BAR Control are the 16-bit words of their fields. */
  datatype BlockAckRequest = BlockAckRequest(
    frameControl: FrameControl.FrameControlField,
    duration: u16,
    receiverAddress: MacAddress,
    transmitterAddress: MacAddress,
    blockAckControl: u16,
    startingSequenceControl: u16)

  /** The wire bytes of a frame, fields in order, words little-endian. */
  function Encode(v: BlockAckRequest): (bytes: seq<byte>)
    ensures |bytes| == FrameSize()
  {
    LittleBytes(FrameControl.Field(v.frameControl)) + LittleBytes(v.duration)
      + v.receiverAddress + v.transmitterAddress
      + LittleBytes(v.blockAckControl) + LittleBytes(v.startingSequenceControl)
  }

  /** Defensive read of a 16-bit field of `window`: 0 when the window is too
      short to hold it, otherwise the value its two bytes encode. */
  function U16OrZero(window: seq<byte>, position: nat): (v: u16)
    ensures |window| < position + 2 ==> v == 0
    ensures position + 2 <= |window| ==> LittleBytes(v) == window[position..position + 2]
  {
    if |window| >= position + 2 then
      LittleBytesOfToUInt16(window, position);
      ToUInt16(window, position)
    else
      0
  }

  /** Defensive read of an address field of `window`: all zero when the
      window is too short to hold it. */
  function AddressOrZero(window: seq<byte>, position: nat): MacAddress
  {
    if |window| >= position + 6 then window[position..position + 6] else ZeroAddress
  }

  /** What a frame parsed from `window` holds: every field read defensively. */
  function Decode(window: seq<byte>): BlockAckRequest
  {
    BlockAckRequest(
      FrameControl.Decode(U16OrZero(window, MacFields.FrameControlPosition)),
      U16OrZero(window, MacFields.DurationIDPosition),
      AddressOrZero(window, MacFields.AddressPosition(0)),
      AddressOrZero(window, MacFields.AddressPosition(1)),
      U16OrZero(window, BlockAckRequestControlPosition),
      U16OrZero(window, BlockAckStartingSequenceControlPosition))
  }

  /** Where each field lands on the wire: Frame Control at 0, Duration at 2,
      the receiver address at 4, the transmitter address at 10, BAR Control
      at 16 and Starting Sequence Control at 18, words little-endian. */
  lemma EncodeLayout(v: BlockAckRequest)
    ensures Encode(v)[0..2] == LittleBytes(FrameControl.Field(v.frameControl))
    ensures Encode(v)[2..4] == LittleBytes(v.duration)
    ensures Encode(v)[4..10] == v.receiverAddress
    ensures Encode(v)[10..16] == v.transmitterAddress
    ensures Encode(v)[16..18] == LittleBytes(v.blockAckControl)
    ensures Encode(v)[18..20] == LittleBytes(v.startingSequenceControl)
  {
    var e := Encode(v);
    var tail := LittleBytes(v.blockAckControl) + LittleBytes(v.startingSequenceControl);
    assert e == LittleBytes(FrameControl.Field(v.frameControl)) + LittleBytes(v.duration)
      + v.receiverAddress + v.transmitterAddress + tail;
    assert e[16..20] == tail;
    assert e[16..18] == tail[0..2] && e[18..20] == tail[2..4];
  }

  /** Parsing the encoding of a frame gives back every field of the frame. */
  lemma DecodeEncode(v: BlockAckRequest)
    ensures Decode(Encode(v)) == v
  {
    var e := Encode(v);
    EncodeLayout(v);
    FrameControl.DecodeField(v.frameControl);
    U16At(e, 0, FrameControl.Field(v.frameControl));
    U16At(e, 2, v.duration);
    U16At(e, 16, v.blockAckControl);
    U16At(e, 18, v.startingSequenceControl);
  }

  /** A defensive read where the window holds the encoding of `v` yields `v`. */
  lemma U16At(window: seq<byte>, position: nat, v: u16)
    requires position + 2 <= |window| && window[position..position + 2] == LittleBytes(v)
    ensures U16OrZero(window, position) == v
  {
    LittleBytesInjective(U16OrZero(window, position), v);
  }

  /** Re-encoding a parsed frame reproduces the first FrameSize bytes of the
      window exactly. */
  lemma EncodeDecode(window: seq<byte>)
    requires |window| >= FrameSize()
    ensures Encode(Decode(window)) == window[..FrameSize()]
  {
    var d := Decode(window);
    FrameControl.FieldDecode(U16OrZero(window, 0));
    var e := Encode(d);
    forall i | 0 <= i < FrameSize()
      ensures e[i] == window[i]
    {
      if i < 2 {
        assert e[i] == window[0..2][i];
      } else if i < 4 {
        assert e[i] == window[2..4][i - 2];
      } else if i < 16 {
      } else if i < 18 {
        assert e[i] == window[16..18][i - 16];
      } else {
        assert e[i] == window[18..20][i - 18];
      }
    }
  }

  /** Parsing looks at the first FrameSize bytes only. */
  lemma DecodeIgnoresTrailer(window: seq<byte>, trailer: seq<byte>)
    requires |window| >= FrameSize()
    ensures Decode(window + trailer) == Decode(window)
  {
    var w := window + trailer;
    assert w[0..2] == window[0..2];
    assert w[2..4] == window[2..4];
    assert w[4..10] == window[4..10];
    assert w[10..16] == window[10..16];
    assert w[16..18] == window[16..18];
    assert w[18..20] == window[18..20];
    U16At(w, 0, U16OrZero(window, 0));
    U16At(w, 2, U16OrZero(window, 2));
    U16At(w, 16, U16OrZero(window, 16));
    U16At(w, 18, U16OrZero(window, 18));
  }

  /** A truncated window parses without fault: every field whose bytes are
      missing takes its default, and the fields before the cut still decode. */
  lemma DecodeTruncated(window: seq<byte>)
    requires |window| < FrameSize()
    ensures Decode(window).startingSequenceControl == 0
    ensures |window| < 18 ==> Decode(window).blockAckControl == 0
    ensures |window| < 16 ==> Decode(window).transmitterAddress == ZeroAddress
    ensures |window| < 10 ==> Decode(window).receiverAddress == ZeroAddress
    ensures |window| < 4 ==> Decode(window).duration == 0
    ensures |window| < 2 ==> Decode(window).frameControl == FrameControl.Empty()
    ensures |window| >= 18 ==> LittleBytes(Decode(window).blockAckControl) == window[16..18]
    ensures |window| >= 16 ==> Decode(window).transmitterAddress == window[10..16]
    ensures |window| >= 10 ==> Decode(window).receiverAddress == window[4..10]
    ensures |window| >= 4 ==> LittleBytes(Decode(window).duration) == window[2..4]
    ensures |window| >= 2 ==> LittleBytes(FrameControl.Field(Decode(window).frameControl)) == window[0..2]
  {
    if |window| >= 2 {
      DecodedFrameControlBytes(window);
    }
  }

  /** The Frame Control decoded from a window re-encodes to the window's
      first two bytes. */
  lemma DecodedFrameControlBytes(window: seq<byte>)
    requires |window| >= 2
    ensures LittleBytes(FrameControl.Field(Decode(window).frameControl)) == window[0..2]
  {
    var w := U16OrZero(window, 0);
    FrameControl.FieldDecode(w);
    assert Decode(window).frameControl == FrameControl.Decode(w);
  }

  class BlockAckRequestFrame {
    /** The byte window; null until a frame built from values is encoded. */
    var header: ByteArraySegment?
    var frameControl: FrameControl.FrameControlField
    var duration: u16
    var receiverAddress: MacAddress
    var transmitterAddress: MacAddress
    var blockAcknowledgmentControl: u16
    var blockAckStartingSequenceControl: u16

    /** The objects the frame reads and writes: itself, its window and the
        window's bytes. */
    ghost var Repr: set<object>

    ghost predicate Valid()
      reads this, Repr
    {
      this in Repr
      && (header != null ==> header in Repr && header.bytes in Repr && header.bytesLength <= header.bytes.Length)
    }

    /** The semantic fields, as a value. */
    function Semantic(): BlockAckRequest
      reads this
    {
      BlockAckRequest(frameControl, duration, receiverAddress, transmitterAddress,
                      blockAcknowledgmentControl, blockAckStartingSequenceControl)
    }

    /** The window is missing, reaches past its capacity, or is shorter than
        a frame: re-encoding must first allocate a fresh buffer. */
    predicate NeedsReallocation()
      reads this, header
    {
      header == null || header.length > header.bytesLength - header.offset || header.length < FrameSize()
    }

    /** The window is exactly one frame long and holds the encoding of the
        current semantic fields. */
    ghost predicate IsEncoded()
      reads this, Repr
      requires Valid()
    {
      header != null && header.length == FrameSize() && header.InBounds()
      && header.Window() == Encode(Semantic())
    }

    /** A valid window also never needs reallocating. */
    lemma EncodedNeedsNoReallocation()
      requires Valid() && IsEncoded()
      ensures !NeedsReallocation()
    {
    }

    /** Defensive 16-bit read at `position` of the window. `EndianBitConverter`
        reads the backing bytes unchecked once the window is long enough, so the
        bytes must then exist. */
    function ReadU16OrZero(position: nat): (v: u16)
      reads this, Repr
      requires Valid() && header != null
      requires header.length >= position + 2 ==> header.offset + position + 2 <= header.bytes.Length
      ensures header.length < position + 2 ==> v == 0
      ensures header.length >= position + 2 ==>
        LittleBytes(v) == header.bytes[header.offset + position..header.offset + position + 2]
    {
      if header.length >= position + 2 then
        LittleBytesOfToUInt16(header.bytes[..], header.offset + position);
        ToUInt16(header.bytes[..], header.offset + position)
      else
        0
    }

    /** The BAR Control word, or 0 when the window is shorter than 18 bytes. */
    function BlockAckRequestControlBytes(): (v: u16)
      reads this, Repr
      requires Valid() && header != null
      requires header.length >= BlockAckRequestControlPosition + BlockAckRequestControlLength ==>
        header.offset + BlockAckRequestControlPosition + BlockAckRequestControlLength <= header.bytes.Length
      ensures header.length < BlockAckRequestControlPosition + BlockAckRequestControlLength ==> v == 0
      ensures header.length >= BlockAckRequestControlPosition + BlockAckRequestControlLength ==>
        v == ToUInt16(header.bytes[..], header.offset + BlockAckRequestControlPosition)
    {
      ReadU16OrZero(BlockAckRequestControlPosition)
    }

    /** The Starting Sequence Control word, or 0 when the window is shorter
        than 20 bytes. */
    function BlockAckStartingSequenceControlBytes(): (v: u16)
      reads this, Repr
      requires Valid() && header != null
      requires header.length >= BlockAckStartingSequenceControlPosition + BlockAckStartingSequenceControlLength ==>
        header.offset + BlockAckStartingSequenceControlPosition + BlockAckStartingSequenceControlLength <= header.bytes.Length
      ensures header.length < BlockAckStartingSequenceControlPosition + BlockAckStartingSequenceControlLength ==> v == 0
      ensures header.length >= BlockAckStartingSequenceControlPosition + BlockAckStartingSequenceControlLength ==>
        v == ToUInt16(header.bytes[..], header.offset + BlockAckStartingSequenceControlPosition)
    {
      ReadU16OrZero(BlockAckStartingSequenceControlPosition)
    }

    /** Defensive read of address slot `index`: all zero when the window is
        too short to hold it. */
    function GetAddress(index: nat): (a: MacAddress)
      reads this, Repr
      requires Valid() && header != null && index < 2
      requires header.length >= MacFields.AddressPosition(index) + 6 ==>
        header.offset + MacFields.AddressPosition(index) + 6 <= header.bytes.Length
      ensures header.length < MacFields.AddressPosition(index) + 6 ==> a == ZeroAddress
      ensures header.length >= MacFields.AddressPosition(index) + 6 ==>
        a == header.bytes[header.offset + MacFields.AddressPosition(index)..header.offset + MacFields.AddressPosition(index) + 6]
    {
      var p := header.offset + MacFields.AddressPosition(index);
      if header.length >= MacFields.AddressPosition(index) + 6 then header.bytes[p..p + 6] else ZeroAddress
    }

    /** Unchecked little-endian write of `value` at `position` of the window:
        exactly two bytes change, and they encode `value`. */
    method WriteU16(position: nat, value: u16)
      requires Valid() && header != null
      requires header.offset + position + 2 <= header.bytes.Length
      modifies header.bytes
      ensures header.bytes[..] == Splice(old(header.bytes[..]), header.offset + position, LittleBytes(value))
      ensures ToUInt16(header.bytes[..], header.offset + position) == value
    {
      CopyBytes(value, header.bytes, header.offset + position);
      ToUInt16OfLittleBytes(value, header.bytes[..], header.offset + position);
    }

    /** Sets the BAR Control bytes; nothing outside bytes 16-17 of the window changes. */
    method SetBlockAckRequestControlBytes(value: u16)
      requires Valid() && header != null
      requires header.offset + BlockAckRequestControlPosition + BlockAckRequestControlLength <= header.bytes.Length
      modifies header.bytes
      ensures header.bytes[..] ==
        Splice(old(header.bytes[..]), header.offset + BlockAckRequestControlPosition, LittleBytes(value))
      ensures ToUInt16(header.bytes[..], header.offset + BlockAckRequestControlPosition) == value
    {
      WriteU16(BlockAckRequestControlPosition, value);
    }

    /** Sets the Starting Sequence Control bytes; nothing outside bytes 18-19
        of the window changes. */
    method SetBlockAckStartingSequenceControlBytes(value: u16)
      requires Valid() && header != null
      requires header.offset + BlockAckStartingSequenceControlPosition + BlockAckStartingSequenceControlLength
        <= header.bytes.Length
      modifies header.bytes
      ensures header.bytes[..] ==
        Splice(old(header.bytes[..]), header.offset + BlockAckStartingSequenceControlPosition, LittleBytes(value))
      ensures ToUInt16(header.bytes[..], header.offset + BlockAckStartingSequenceControlPosition) == value
    {
      WriteU16(BlockAckStartingSequenceControlPosition, value);
    }

    /** Unchecked write of `address` into address slot `index`. */
    method SetAddress(index: nat, address: MacAddress)
      requires Valid() && header != null && index < 2
      requires header.offset + MacFields.AddressPosition(index) + 6 <= header.bytes.Length
      modifies header.bytes
      ensures header.bytes[..] == Splice(old(header.bytes[..]), header.offset + MacFields.AddressPosition(index), address)
    {
      CopyRun(address, header.bytes, header.offset + MacFields.AddressPosition(index));
    }

    /** Parses a frame from a window: every field is read defensively, and the
        frame's own window (a new segment over the same bytes) is then given
        the length of one frame, whatever the input's length was. */
    constructor FromSegment(segment: ByteArraySegment)
      requires segment.InBounds()
      ensures Valid() && fresh(Repr - {segment.bytes})
      ensures header != null && header.bytes == segment.bytes && header.offset == segment.offset
      ensures header.length == FrameSize() && header.bytesLength == segment.bytesLength
      ensures Semantic() == Decode(segment.Window())
    {
      header := new ByteArraySegment.Copy(segment);
      frameControl := FrameControl.Empty();
      duration := 0;
      receiverAddress := ZeroAddress;
      transmitterAddress := ZeroAddress;
      blockAcknowledgmentControl := 0;
      blockAckStartingSequenceControl := 0;
      new;
      Repr := {this, header, header.bytes};
      ReadFields();
      header.length := FrameSize();
    }

    /** Once the window holds the frame's encoding, reading the fields back
        through the getters yields exactly the semantic fields. */
    lemma EncodedReadsBack()
      requires Valid() && IsEncoded()
      ensures BlockAckRequestControlBytes() == blockAcknowledgmentControl
      ensures BlockAckStartingSequenceControlBytes() == blockAckStartingSequenceControl
      ensures GetAddress(0) == receiverAddress && GetAddress(1) == transmitterAddress
      ensures FrameControl.Decode(ReadU16OrZero(MacFields.FrameControlPosition)) == frameControl
      ensures ReadU16OrZero(MacFields.DurationIDPosition) == duration
    {
      DecodeEncode(Semantic());
      DecodeThroughWindow(header.Window());
    }

    /** Decodes every semantic field from the window through the defensive
        getters, in field order. */
    method ReadFields()
      requires Valid() && header != null && header.InBounds()
      modifies this
      ensures header == old(header) && Repr == old(Repr)
      ensures Semantic() == Decode(header.Window())
    {
      DecodeThroughWindow(header.Window());
      var frameControlBytes := ReadU16OrZero(MacFields.FrameControlPosition);
      var durationBytes := ReadU16OrZero(MacFields.DurationIDPosition);
      var receiver := GetAddress(0);
      var transmitter := GetAddress(1);
      var requestControl := BlockAckRequestControlBytes();
      var startingSequence := BlockAckStartingSequenceControlBytes();
      frameControl := FrameControl.Decode(frameControlBytes);
      duration := durationBytes;
      receiverAddress := receiver;
      transmitterAddress := transmitter;
      blockAcknowledgmentControl := requestControl;
      blockAckStartingSequenceControl := startingSequence;
    }

    /** Decoding the bytes of an in-bounds window and reading each field
        through the frame's getters give the same frame. */
    lemma DecodeThroughWindow(window: seq<byte>)
      requires Valid() && header != null && header.InBounds() && window == header.Window()
      ensures Decode(window) == BlockAckRequest(
        FrameControl.Decode(ReadU16OrZero(MacFields.FrameControlPosition)),
        ReadU16OrZero(MacFields.DurationIDPosition),
        GetAddress(0), GetAddress(1),
        BlockAckRequestControlBytes(), BlockAckStartingSequenceControlBytes())
    {
      SameRead(window, MacFields.FrameControlPosition);
      SameRead(window, MacFields.DurationIDPosition);
      SameAddress(window, 0);
      SameAddress(window, 1);
      SameRead(window, BlockAckRequestControlPosition);
      SameRead(window, BlockAckStartingSequenceControlPosition);
    }

    /** A read through the window object agrees with the read of its bytes. */
    lemma SameRead(window: seq<byte>, position: nat)
      requires Valid() && header != null && header.InBounds() && window == header.Window()
      ensures ReadU16OrZero(position) == U16OrZero(window, position)
    {
      if header.length >= position + 2 {
        assert window[position] == header.bytes[header.offset + position];
        assert window[position + 1] == header.bytes[header.offset + position + 1];
      }
    }

    /** An address read through the window object agrees with the read of its bytes. */
    lemma SameAddress(window: seq<byte>, index: nat)
      requires Valid() && header != null && header.InBounds() && window == header.Window() && index < 2
      ensures GetAddress(index) == AddressOrZero(window, MacFields.AddressPosition(index))
    {
      var p := MacFields.AddressPosition(index);
      if header.length >= p + 6 {
        var o := header.offset;
        var all := header.bytes[..];
        assert window == all[o..o + header.length];
        SliceOfSlice(all, o, o + header.length, p, 6);
        assert header.bytes[o + p..o + p + 6] == all[o + p..o + p + 6];
      }
    }

    /** Builds a frame from values: a Block Ack Request control frame with the
        given addresses and every other field zero, with no window until the
        first re-encode. */
    constructor (transmitterAddress: MacAddress, receiverAddress: MacAddress)
      ensures Valid() && fresh(Repr) && header == null
      ensures frameControl.frameType == FrameControl.ControlType
      ensures frameControl.subType == FrameControl.BlockAckRequestSubType
      ensures frameControl.protocolVersion == 0 && frameControl.flags == 0
      ensures FrameControl.Field(frameControl) == 0x84
      ensures duration == 0 && blockAcknowledgmentControl == 0 && blockAckStartingSequenceControl == 0
      ensures this.receiverAddress == receiverAddress && this.transmitterAddress == transmitterAddress
    {
      header := null;
      frameControl := FrameControl.WithKind(FrameControl.Empty(), FrameControl.ControlType,
                                            FrameControl.BlockAckRequestSubType);
      duration := 0;
      this.receiverAddress := receiverAddress;
      this.transmitterAddress := transmitterAddress;
      blockAcknowledgmentControl := 0;
      blockAckStartingSequenceControl := 0;
      Repr := {this};
    }

    /** Writes every semantic field into the window, in field order: the
        frame's encoding replaces the window's first FrameSize bytes. */
    method WriteFields()
      requires Valid() && header != null
      requires header.offset + FrameSize() <= header.bytes.Length
      modifies header.bytes
      ensures header.bytes[..] == Splice(old(header.bytes[..]), header.offset, Encode(Semantic()))
    {
      ghost var v := Semantic();
      ghost var o := header.offset;
      ghost var e0 := LittleBytes(FrameControl.Field(v.frameControl));
      ghost var e1 := LittleBytes(v.duration);
      ghost var e4 := LittleBytes(v.blockAckControl);
      ghost var e5 := LittleBytes(v.startingSequenceControl);
      ghost var b0 := header.bytes[..];
      WriteU16(MacFields.FrameControlPosition, FrameControl.Field(frameControl));
      WriteU16(MacFields.DurationIDPosition, duration);
      ghost var b2 := header.bytes[..];
      SpliceAdjacent(b0, o, e0, e1);
      assert b2 == Splice(b0, o, e0 + e1);
      SetAddress(0, receiverAddress);
      ghost var b3 := header.bytes[..];
      SpliceAdjacent(b0, o, e0 + e1, v.receiverAddress);
      assert b3 == Splice(b0, o, e0 + e1 + v.receiverAddress);
      SetAddress(1, transmitterAddress);
      ghost var b4 := header.bytes[..];
      SpliceAdjacent(b0, o, e0 + e1 + v.receiverAddress, v.transmitterAddress);
      assert b4 == Splice(b0, o, e0 + e1 + v.receiverAddress + v.transmitterAddress);
      SetBlockAckRequestControlBytes(blockAcknowledgmentControl);
      ghost var b5 := header.bytes[..];
      SpliceAdjacent(b0, o, e0 + e1 + v.receiverAddress + v.transmitterAddress, e4);
      assert b5 == Splice(b0, o, e0 + e1 + v.receiverAddress + v.transmitterAddress + e4);
      assert LittleBytes(blockAckStartingSequenceControl) == e5;
      SetBlockAckStartingSequenceControlBytes(blockAckStartingSequenceControl);
      ghost var b6 := header.bytes[..];
      ghost var prefix := e0 + e1 + v.receiverAddress + v.transmitterAddress + e4;
      assert |prefix| == BlockAckStartingSequenceControlPosition;
      assert b5 == Splice(b0, o, prefix);
      assert b6 == Splice(b5, header.offset + BlockAckStartingSequenceControlPosition, e5);
      SpliceAdjacent(b0, o, prefix, e5);
      assert Encode(v) == prefix + e5;
      assert Semantic() == v;
    }

    /** Re-encodes every semantic field into the window, first replacing the
        window by a fresh zeroed buffer of exactly one frame when the current
        one is missing, reaches past its bytes, or is too short; the window
        then holds exactly the frame's encoding. When the window already held
        it, nothing changes, so a second call is a no-op. */
    method UpdateCalculatedValues()
      requires Valid()
      modifies Repr
      ensures Valid() && fresh(Repr - old(Repr))
      ensures Semantic() == old(Semantic())
      ensures IsEncoded() && !NeedsReallocation()
      ensures old(NeedsReallocation()) ==>
        fresh(header) && fresh(header.bytes) && header.offset == 0
        && header.bytes.Length == FrameSize() && header.bytesLength == FrameSize()
      ensures old(NeedsReallocation()) ==> unchanged(old(Repr) - {this})
      ensures !old(NeedsReallocation()) ==> unchanged(old(Repr) - {this, header, header.bytes})
      ensures !old(NeedsReallocation()) ==>
        header == old(header) && header.bytes == old(header.bytes) && header.offset == old(header.offset)
        && header.bytesLength == old(header.bytesLength)
        && header.bytes[..] == Splice(old(header.bytes[..]), header.offset, Encode(Semantic()))
      ensures old(IsEncoded()) ==> header == old(header) && header.bytes[..] == old(header.bytes[..])
    {
      ghost var repr := Repr;
      ghost var reuse := !NeedsReallocation();
      ghost var kept := if reuse then Repr - {this, header, header.bytes} else {};
      if header == null || header.length > header.bytesLength - header.offset || header.length < FrameSize() {
        var buffer := new byte[FrameSize()];
        header := new ByteArraySegment(buffer);
        Repr := Repr + {header, buffer};
      }
      assert fresh(Repr - repr);
      WriteFields();
      header.length := FrameSize();
      assert unchanged(kept);
      assert header.Window() == header.bytes[..][header.offset..header.offset + FrameSize()];
      if old(IsEncoded()) {
        SpliceUnchanged(old(header.bytes[..]), header.offset, Encode(Semantic()));
      }
    }
  }
}

/** Field widths and positions shared by every 802.11 MAC frame (the header
    layout of section 8.2.3 of IEEE Std 802.11-2012). Positions are relative
    to the start of the frame; each is derived from the field before it. */
module MacFields {
  const FrameControlLength: int := 2
  const DurationIDLength: int := 2
  const AddressLength: int := 6

  const FrameControlPosition: int := 0
  const DurationIDPosition: int := FrameControlPosition + FrameControlLength
  const Address1Position: int := DurationIDPosition + DurationIDLength
  const Address2Position: int := Address1Position + AddressLength

  /** Byte position of logical address slot `index` in a control frame, whose
      addresses follow Duration back to back: slot 0 is the receiver address,
      slot 1 the transmitter address. */
  function AddressPosition(index: nat): (p: nat)
    requires index < 2
    ensures p == 4 || p == 10
    ensures p == FrameControlLength + DurationIDLength + index * AddressLength
  {
    if index == 0 then Address1Position else Address2Position
  }
}

/** Positions and lengths of the two fields that a Block Ack Request frame adds
    after the two addresses of a control frame (section 8.3.1.8 of IEEE Std
    802.11-2012). */
module BlockAcknowledgmentRequestFields {
  import MacFields

  const BlockAckRequestControlLength: int := 2
  const BlockAckStartingSequenceControlLength: int := 2

  const BlockAckRequestControlPosition: int :=
    MacFields.DurationIDPosition + MacFields.DurationIDLength + 2 * MacFields.AddressLength
  const BlockAckStartingSequenceControlPosition: int :=
    BlockAckRequestControlPosition + BlockAckRequestControlLength

  /** The layout has the values the standard fixes: BAR Control at 16 and
      Starting Sequence Control at 18, two bytes each, right after the
      transmitter address. */
  lemma LayoutValues()
    ensures BlockAckRequestControlPosition == 16 && BlockAckStartingSequenceControlPosition == 18
    ensures BlockAckRequestControlPosition == MacFields.Address2Position + MacFields.AddressLength
  {
  }
}

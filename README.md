# Block Ack Request frame and Ethernet header layout

This project models two parts of the PacketDotNet packet codec.

The first is the 802.11 Block Ack Request control frame (BlockAckReq, section
8.3.1.8 of IEEE Std 802.11-2012). It is twenty bytes long and holds these
fields:

- Frame Control;
- Duration;
- the receiver and transmitter addresses;
- BAR Control;
- Starting Sequence Control.

The frame object keeps its semantic fields in memory over a byte window
(`ByteArraySegment`: backing bytes, offset, length and capacity
`BytesLength`, the end of the part of the bytes the segment may use):

- reads of the window are defensive, giving 0 (or the all-zero address) when
  the window is too short;
- writes go unchecked into the backing bytes;
- `UpdateCalculatedValues` re-encodes every field. Before it writes, it
  reallocates a fresh buffer of exactly one frame whenever the window is
  missing, reaches past its capacity, or is shorter than a frame.

The second is the Ethernet II header layout table (`EthernetFields`, IEEE
802.3 clause 3.2). Its derived positions come from the literal widths, and the
model proves that the destination, source and Length/Type fields tile
[0, 14) exactly.

Files:

- `bytes.dfy`: the `byte` and `u16` types, and `Splice`, the buffer after a
  run of bytes is copied in.
- `endian_codec.dfy`: little-endian 16-bit read and write, as the library's
  little-endian converter performs them.
- `byte_array_segment.dfy`: the byte window class.
- `mac_fields.dfy`: the 802.11 MAC header constants and the Block Ack Request
  field constants.
- `frame_control.dfy`: the Frame Control word and its parts.
- `block_acknowledgment_request_frame.dfy`: the wire format as values
  (`Encode`/`Decode`) and the frame class `BlockAckRequestFrame`.
- `ethernet_fields.dfy`: the Ethernet layout table.

## Model

| member | source | states |
|---|---|---|
| BlockAcknowledgmentRequest.FrameSize | PacketDotNet/Ieee80211/BlockAcknowledgmentRequestFrame.cs:92-96 | The frame length is the sum of the field widths. That sum is 20, and it is also where the last field (Starting Sequence Control) ends. |
| BlockAcknowledgmentRequestFields.LayoutValues | PacketDotNet/Ieee80211/BlockAcknowledgmentRequestFrame.cs:115-120 | BAR Control sits at 16 and Starting Sequence Control at 18, right after the transmitter address. |
| MacFields.AddressPosition | PacketDotNet/Ieee80211/BlockAcknowledgmentRequestFrame.cs:44-45 | Address slot 0 (receiver) is at 4 and slot 1 (transmitter) at 10. The addresses follow Frame Control and Duration back to back. |
| BlockAcknowledgmentRequest.BlockAckRequestFrame.BlockAckRequestControlBytes | PacketDotNet/Ieee80211/BlockAcknowledgmentRequestFrame.cs:113-124 | A window shorter than 18 bytes reads as 0. Otherwise the read gives the little-endian word at offset + 16 of the backing bytes. |
| BlockAcknowledgmentRequest.BlockAckRequestFrame.BlockAckStartingSequenceControlBytes | PacketDotNet/Ieee80211/BlockAcknowledgmentRequestFrame.cs:138-149 | A window shorter than 20 bytes reads as 0. Otherwise the read gives the little-endian word at offset + 18 of the backing bytes. |
| BlockAcknowledgmentRequest.BlockAckRequestFrame.ReadU16OrZero | PacketDotNet/Ieee80211/BlockAcknowledgmentRequestFrame.cs:42-43 | A defensive 16-bit read, as for Frame Control and Duration. It gives 0 on truncation; otherwise the little-endian encoding of the result is exactly the two window bytes. |
| BlockAcknowledgmentRequest.BlockAckRequestFrame.GetAddress | PacketDotNet/Ieee80211/BlockAcknowledgmentRequestFrame.cs:44-45 | A defensive address read. It gives the all-zero address on truncation, and otherwise the six window bytes of the slot. |
| BlockAcknowledgmentRequest.BlockAckRequestFrame.SetBlockAckRequestControlBytes | PacketDotNet/Ieee80211/BlockAcknowledgmentRequestFrame.cs:125-127 | The buffer becomes the old buffer with the two little-endian bytes of the value spliced in at offset + 16. Every other byte is unchanged, and the word there now reads as the value. |
| BlockAcknowledgmentRequest.BlockAckRequestFrame.SetBlockAckStartingSequenceControlBytes | PacketDotNet/Ieee80211/BlockAcknowledgmentRequestFrame.cs:150-152 | The same as the BAR Control setter, at offset + 18. |
| BlockAcknowledgmentRequest.BlockAckRequestFrame.WriteU16 | PacketDotNet/Ieee80211/BlockAcknowledgmentRequestFrame.cs:165-166 | The unchecked 16-bit write used for Frame Control and Duration. Exactly two bytes change, and they read back as the value. |
| BlockAcknowledgmentRequest.BlockAckRequestFrame.SetAddress | PacketDotNet/Ieee80211/BlockAcknowledgmentRequestFrame.cs:167-168 | The six address bytes are spliced in at the slot's position, and nothing else changes. |
| BlockAcknowledgmentRequest.BlockAckRequestFrame.WriteFields | PacketDotNet/Ieee80211/BlockAcknowledgmentRequestFrame.cs:165-171 | The six writes together splice the whole encoding of the semantic fields into the buffer at the window offset. |
| BlockAcknowledgmentRequest.BlockAckRequestFrame.UpdateCalculatedValues | PacketDotNet/Ieee80211/BlockAcknowledgmentRequestFrame.cs:158-174 | See the list below the table. |
| BlockAcknowledgmentRequest.BlockAckRequestFrame.EncodedNeedsNoReallocation | PacketDotNet/Ieee80211/BlockAcknowledgmentRequestFrame.cs:160 | A window that holds an encoded frame never meets the reallocation condition, so a second re-encode keeps the buffer. |
| BlockAcknowledgmentRequest.BlockAckRequestFrame.EncodedReadsBack | PacketDotNet/Ieee80211/BlockAcknowledgmentRequestFrame.cs:119-120 | After re-encoding, the write/read round trip holds for every field. The BAR Control and Starting Sequence Control getters give back exactly the semantic values, and so do the address, Frame Control and Duration reads. |
| BlockAcknowledgmentRequest.BlockAckRequestFrame.FromSegment | PacketDotNet/Ieee80211/BlockAcknowledgmentRequestFrame.cs:38-50 | The frame shares the input's bytes, offset and capacity. Its semantic fields are the defensive decode of the input window, so a short input gives defaults. Its window length is set to 20 whatever the input's length was. |
| BlockAcknowledgmentRequest.BlockAckRequestFrame.ReadFields | PacketDotNet/Ieee80211/BlockAcknowledgmentRequestFrame.cs:42-47 | Reading every field through the getters gives `Decode` of the window. The window itself is left as it was. |
| BlockAcknowledgmentRequest.BlockAckRequestFrame.DecodeThroughWindow | PacketDotNet/Ieee80211/BlockAcknowledgmentRequestFrame.cs:42-47 | The class getters agree with the pure `Decode` on the window's bytes. |
| BlockAcknowledgmentRequest.BlockAckRequestFrame.constructor | PacketDotNet/Ieee80211/BlockAcknowledgmentRequestFrame.cs:61-73 | See the list below the table. |
| BlockAcknowledgmentRequest.Encode | PacketDotNet/Ieee80211/BlockAcknowledgmentRequestFrame.cs:165-171 | The wire bytes of a frame are exactly FrameSize long. |
| BlockAcknowledgmentRequest.EncodeLayout | PacketDotNet/Ieee80211/BlockAcknowledgmentRequestFrame.cs:165-171 | Each field lands at its wire position: Frame Control at 0, Duration at 2, receiver at 4..10, transmitter at 10..16, BAR Control at 16 and Starting Sequence Control at 18. Words are low byte first. |
| BlockAcknowledgmentRequest.DecodeEncode | PacketDotNet/Ieee80211/BlockAcknowledgmentRequestFrame.cs:42-47 | Parsing the encoding of any frame value gives back every field. |
| BlockAcknowledgmentRequest.EncodeDecode | PacketDotNet/Ieee80211/BlockAcknowledgmentRequestFrame.cs:42-47 | Re-encoding the parse of a window of at least 20 bytes gives back its first 20 bytes. |
| BlockAcknowledgmentRequest.DecodeIgnoresTrailer | PacketDotNet/Ieee80211/BlockAcknowledgmentRequestFrame.cs:42-49 | Bytes past the first 20 never affect the parse. |
| BlockAcknowledgmentRequest.DecodeTruncated | PacketDotNet/Ieee80211/BlockAcknowledgmentRequestFrame.cs:113-123 | A window shorter than a frame parses without fault. Each field whose bytes are missing takes its default (0 or the zero address). Every field before the cut still decodes from its own bytes: Frame Control from bytes 0-1, Duration from 2-3, the receiver from 4-9, the transmitter from 10-15 and BAR Control from 16-17. |
| BlockAcknowledgmentRequest.DecodedFrameControlBytes | PacketDotNet/Ieee80211/BlockAcknowledgmentRequestFrame.cs:42 | The Frame Control decoded from a window of at least two bytes re-encodes to exactly those two bytes. |
| BlockAcknowledgmentRequest.Decode | PacketDotNet/Ieee80211/BlockAcknowledgmentRequestFrame.cs:42-47 | The defensive parse of a window as a value. It is specified by `DecodeEncode`, `EncodeDecode`, `DecodeIgnoresTrailer` and `DecodeTruncated`. |
| BlockAcknowledgmentRequest.BlockAckRequestFrame.NeedsReallocation | PacketDotNet/Ieee80211/BlockAcknowledgmentRequestFrame.cs:160 | The reallocation test: no window, a window reaching past the segment's capacity (`BytesLength`), or one shorter than a frame. `EncodedNeedsNoReallocation` and `UpdateCalculatedValues` state what follows from it. |
| BlockAcknowledgmentRequest.AddressOrZero | PacketDotNet/Ieee80211/BlockAcknowledgmentRequestFrame.cs:44-45 | The value-level defensive address read: the all-zero address when the window cannot hold the six bytes, otherwise those six bytes. `Decode`, `DecodeTruncated` and `DecodeEncode` state its behaviour. |
| BlockAcknowledgmentRequest.U16OrZero | PacketDotNet/Ieee80211/BlockAcknowledgmentRequestFrame.cs:115-123 | The value-level defensive read: 0 when truncated, otherwise the value whose little-endian bytes are the window's two bytes. |
| FrameControl.WithKind | PacketDotNet/Ieee80211/BlockAcknowledgmentRequestFrame.cs:72 | Assigning the frame kind replaces the type and subtype, and keeps the protocol version and flags. |
| FrameControl.WithKindWord | PacketDotNet/Ieee80211/BlockAcknowledgmentRequestFrame.cs:72 | On the 16-bit Frame Control word, assigning the frame kind sets bits 2-7 to type + 4 * subtype. The version bits 0-1 and the flag byte (bits 8-15) keep their values. The from-values constructor's word is therefore 0x84. |
| FrameControl.Field | PacketDotNet/Ieee80211/BlockAcknowledgmentRequestFrame.cs:165 | The 16-bit word of a Frame Control. Its inverse is `Decode`, by `DecodeField` and `FieldDecode`. |
| FrameControl.Decode | PacketDotNet/Ieee80211/BlockAcknowledgmentRequestFrame.cs:42 | Splits a 16-bit word into the Frame Control parts. Its inverse is `Field`, by `DecodeField` and `FieldDecode`. |
| FrameControl.Empty | PacketDotNet/Ieee80211/BlockAcknowledgmentRequestFrame.cs:66 | A default-constructed Frame Control. `EmptyIsZero` states that it is the zero word. |
| FrameControl.EmptyIsZero | PacketDotNet/Ieee80211/BlockAcknowledgmentRequestFrame.cs:66 | A default Frame Control is the all-zero word, both ways. |
| FrameControl.DecodeField | PacketDotNet/Ieee80211/BlockAcknowledgmentRequestFrame.cs:42 | Decoding the word of a Frame Control gives back every part. |
| FrameControl.FieldDecode | PacketDotNet/Ieee80211/BlockAcknowledgmentRequestFrame.cs:165 | Encoding the parts of a word gives back the word. |
| EndianCodec.ToUInt16OfLittleBytes | PacketDotNet/Ieee80211/BlockAcknowledgmentRequestFrame.cs:119-120 | A little-endian read of bytes written by a little-endian write gives the value written. |
| EndianCodec.LittleBytesOfToUInt16 | PacketDotNet/Ieee80211/BlockAcknowledgmentRequestFrame.cs:144-145 | Re-encoding a value read gives back exactly the two bytes read. |
| EndianCodec.LittleBytesInjective | PacketDotNet/Ieee80211/BlockAcknowledgmentRequestFrame.cs:125-127 | Distinct values never write the same two bytes. |
| EndianCodec.CopyBytes | PacketDotNet/Ieee80211/BlockAcknowledgmentRequestFrame.cs:125-127 | The buffer changes only at `index` and `index + 1`, which receive the low and then the high byte of the value. |
| EndianCodec.CopyRun | PacketDotNet/Ieee80211/BlockAcknowledgmentRequestFrame.cs:167-168 | Copying a run replaces exactly the run's bytes at `index`. |
| Bytes.SpliceAdjacent | PacketDotNet/Ieee80211/BlockAcknowledgmentRequestFrame.cs:165-171 | Two writes to adjacent ranges equal one write of their concatenation. This is how the six field writes compose into one encoding. |
| Bytes.SpliceUnchanged | PacketDotNet/Ieee80211/BlockAcknowledgmentRequestFrame.cs:165-171 | Writing bytes that are already there changes nothing. This gives the idempotence of re-encoding. |
| ByteSegment.ByteArraySegment.Copy | PacketDotNet/Ieee80211/BlockAcknowledgmentRequestFrame.cs:40 | The copied segment has the same bytes, offset, length and capacity as the original. |
| ByteSegment.ByteArraySegment.constructor | PacketDotNet/Ieee80211/BlockAcknowledgmentRequestFrame.cs:162 | A segment over a whole array starts at offset 0, and its length and capacity are the array's length, so it is in bounds. |
| EndianCodec.ToUInt16 | PacketDotNet/Ieee80211/BlockAcknowledgmentRequestFrame.cs:119-120 | The little-endian read of two bytes. Its inverse is `LittleBytes`, by `ToUInt16OfLittleBytes` and `LittleBytesOfToUInt16`. |
| EndianCodec.LittleBytes | PacketDotNet/Ieee80211/BlockAcknowledgmentRequestFrame.cs:125-127 | The two bytes, low byte first, that the little-endian write stores. Its inverse is `ToUInt16`. |
| EthernetFields.DerivedValues | PacketDotNet/EthernetFields.cs:29-50 | DestinationMacPosition is 0, MacAddressLength is 6, SourceMacPosition is 6, TypePosition is 12 and HeaderLength is 14. |
| EthernetFields.EntriesInRange | PacketDotNet/EthernetFields.cs:29-50 | No position is negative, every length is positive, and every field ends inside the header. |
| EthernetFields.Contiguous | PacketDotNet/EthernetFields.cs:46-51 | The destination starts at 0, the source follows the destination, the type follows the source, and the type ends the header. |
| EthernetFields.FieldAt | PacketDotNet/EthernetFields.cs:46-51 | Every header byte belongs to exactly one field, so the fields do not overlap and cover [0, 14). |
| EthernetFields.NothingOutsideHeader | PacketDotNet/EthernetFields.cs:32 | No field covers a byte outside [0, HeaderLength). |

`BlockAcknowledgmentRequest.BlockAckRequestFrame.UpdateCalculatedValues` states:

- The semantic fields are unchanged.
- Afterwards the window is exactly 20 bytes long and holds the encoding of the
  semantic fields, so it no longer meets the reallocation condition.
- When the window was missing, past its capacity, or shorter than 20, the
  frame gets a fresh 20-byte buffer at offset 0, whose capacity is 20.
- In that case nothing the frame held before is written: the dropped window
  object and its bytes, which may be a capture shared with other packets,
  stay as they were.
- Otherwise the same buffer, offset and capacity are kept. The buffer changes
  only by the encoding spliced in at the offset. Every other object the frame
  holds stays as it was, including windows and buffers it dropped earlier.
- If the window already held the encoding, the window and its buffer are the
  same objects and every byte of the buffer keeps its value, so re-encoding
  is idempotent.

The model reproduces one consequence of the library's behaviour: a frame parsed from a
window shorter than 20 bytes at the start of a larger capture gets window
length 20 without any check (BlockAcknowledgmentRequestFrame.cs:49). A later re-encode then passes the
reallocation test whenever the capture's capacity reaches 20 bytes past the
offset. So it writes the frame's encoding over the capture bytes that follow
the short window. For example, a 10-byte window at offset 0 of a 100-byte
capture has capture bytes 10 to 19 overwritten.

`BlockAcknowledgmentRequest.BlockAckRequestFrame.constructor` states:

- There is no window until the first re-encode.
- The Frame Control has the control type and the Block Ack Request subtype,
  with version 0 and no flags, so its word is 0x84.
- Duration, BAR Control and Starting Sequence Control are 0.
- The two addresses are the ones given.

## Left out

- Six collaborators are not part of this model. Each is modelled from its use
  here:
  - `MacFrame`: its Frame Control, Duration and address accessors are
    modelled as the same defensive little-endian reads and unchecked writes
    the two control words use. An address reads as all zero when truncated.
  - `FrameControlField`: modelled with the bit layout of section 8.2.4.1 of
    IEEE Std 802.11-2012, because the from-values constructor assigns the
    frame kind through it. Its named flag accessors are left out.
  - `DurationField` and `BlockAcknowledgmentControlField`: modelled as their
    16-bit words.
  - `PhysicalAddress`: modelled as six bytes.
  - `ByteArraySegment`: modelled as the four members the frame uses: the
    bytes, the offset, the length and the capacity `BytesLength`. The
    capacity is kept within the array, as the library's segments keep it.
  - `EndianBitConverter`: modelled as its little-endian 16-bit read and write.
- Byte order: every word is taken as little-endian, as the two control words
  are.
- `MacFields` and `BlockAcknowledgmentRequestFields` are not part of this
  model either. Their constants take the widths and positions the standard
  fixes (2, 2, 6; 16 and 18), derived the way the field positions are.
- `GetAddressString` (PacketDotNet/Ieee80211/BlockAcknowledgmentRequestFrame.cs:183-186)
  formats addresses through the .NET library's string conversion, so it is
  left out.
- The PerfTest runner (PerfTest/Program.cs, PerfTest/LightweightTest.cs) is
  test tooling: reflection, symbolic links, console output and thread-local
  fixtures, with no protocol logic.
- BlockAcknowledgmentRequest.BlockAckRequestFrame.FromSegment: the frame gets
  its own window object over the input's bytes. Later writes through either
  object are seen by the other, but the model does not track this aliasing:
  the frame owns its window and its bytes.
- BlockAcknowledgmentRequest.BlockAckRequestFrame.FromSegment requires that
  the incoming window lies inside its capacity, and the capacity inside its
  bytes. Segments built by `ByteArraySegment`'s constructors keep that
  invariant. The constructor then sets the frame's window to 20 bytes even
  past a shorter capacity (BlockAcknowledgmentRequestFrame.cs:49), so the class
  does not assume its window is in bounds. Re-parsing such a stretched window
  is excluded, even where the array behind it holds the bytes and the library
  would not throw. `UpdateCalculatedValues` checks this the same way the library does.
- The getters and `GetAddress` require that a window long enough for the
  field also has the bytes behind it. Where the library would throw on such a
  window, the model excludes the call.
- BlockAcknowledgmentRequest.BlockAckRequestFrame.SetBlockAckRequestControlBytes: states the read-back through the little-endian read of the backing bytes, not through the getter; read-back through the getters is stated after a whole re-encode, by `EncodedReadsBack`.
- BlockAcknowledgmentRequest.BlockAckRequestFrame.SetBlockAckStartingSequenceControlBytes: the same, for the Starting Sequence Control word.
- BlockAcknowledgmentRequest.BlockAckRequestFrame.WriteU16: the same, for the Frame Control and Duration words.
- BlockAcknowledgmentRequest.BlockAckRequestFrame.SetAddress states the
  splice of the six bytes, but not a read-back through `GetAddress`.
- Fresh buffers: .NET zero-fills a fresh buffer. The model does not state
  this, because every byte of the fresh buffer is overwritten by the encoding
  before the method returns.
- Exceptions, the `ToString` machinery and parent/child packet linkage are
  not modelled.

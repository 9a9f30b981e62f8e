/** The Ethernet II / IEEE 802.3 clause 3.2 header layout: destination MAC
    address, source MAC address, then the two-byte Length/Type field. The
    derived positions are computed from the literal widths, as the static
    constructor of the layout table does once. */
module EthernetFields {

  const DestinationMacPosition: int := 0
  const MacAddressLength: int := 6
  const TypeLength: int := 2

  const SourceMacPosition: int := MacAddressLength
  const TypePosition: int := MacAddressLength * 2
  const HeaderLength: int := TypePosition + TypeLength

  /** The three fields of the header. */
  datatype Field = DestinationMac | SourceMac | Type

  function Position(f: Field): int
  {
    match f
    case DestinationMac => DestinationMacPosition
    case SourceMac => SourceMacPosition
    case Type => TypePosition
  }

  function Length(f: Field): int
  {
    match f
    case DestinationMac => MacAddressLength
    case SourceMac => MacAddressLength
    case Type => TypeLength
  }

  /** Byte `i` of the header lies inside field `f`. */
  predicate Covers(f: Field, i: int)
  {
    Position(f) <= i < Position(f) + Length(f)
  }

  /** The derived entries take the values the table documents. */
  lemma DerivedValues()
    ensures DestinationMacPosition == 0 && MacAddressLength == 6
    ensures SourceMacPosition == 6 && TypePosition == 12 && HeaderLength == 14
  {
  }

  /** No position or length in the table is negative, and every field ends
      inside the header. */
  lemma EntriesInRange(f: Field)
    ensures 0 <= Position(f) && 0 < Length(f)
    ensures Position(f) + Length(f) <= HeaderLength
  {
  }

  /** The fields follow each other without gaps: destination, source, type,
      and the type field ends the header. */
  lemma Contiguous()
    ensures Position(DestinationMac) == 0
    ensures Position(SourceMac) == Position(DestinationMac) + Length(DestinationMac)
    ensures Position(Type) == Position(SourceMac) + Length(SourceMac)
    ensures Position(Type) + Length(Type) == HeaderLength
  {
  }

  /** The field holding header byte `i`: the fields tile [0, HeaderLength)
      exactly, so every header byte belongs to one field and to no other. */
  function FieldAt(i: int): (f: Field)
    requires 0 <= i < HeaderLength
    ensures Covers(f, i)
    ensures forall g: Field :: Covers(g, i) ==> g == f
  {
    if i < SourceMacPosition then DestinationMac
    else if i < TypePosition then SourceMac
    else Type
  }

  /** No byte outside [0, HeaderLength) belongs to any field. */
  lemma NothingOutsideHeader(f: Field, i: int)
    requires i < 0 || HeaderLength <= i
    ensures !Covers(f, i)
  {
  }
}

/** A window (backing bytes, offset, logical length, capacity) over a byte
    buffer, the view through which every frame reads and writes its bytes. The
    capacity `bytesLength` is the end of the part of `bytes` the segment may
    use, and can lie below the end of the array for a sub-window. The logical
    length is not kept within the capacity: a frame may set it past the end,
    and code that depends on the window fitting checks `InBounds`. */
module ByteSegment {
  import opened Bytes

  class ByteArraySegment {
    var bytes: array<byte>
    var offset: nat
    var length: nat
    var bytesLength: nat

    /** A window over the whole of `bytes`, whose capacity is the whole array. */
    constructor (bytes: array<byte>)
      ensures this.bytes == bytes && offset == 0 && length == bytes.Length
      ensures bytesLength == bytes.Length && InBounds()
    {
      this.bytes := bytes;
      offset := 0;
      length := bytes.Length;
      bytesLength := bytes.Length;
    }

    /** A second window object over the same bytes, offset, length and capacity. */
    constructor Copy(other: ByteArraySegment)
      ensures bytes == other.bytes && offset == other.offset && length == other.length
      ensures bytesLength == other.bytesLength
    {
      bytes := other.bytes;
      offset := other.offset;
      length := other.length;
      bytesLength := other.bytesLength;
    }

    /** The window lies inside the capacity, and the capacity inside the
        backing buffer. */
    predicate InBounds()
      reads this
    {
      offset + length <= bytesLength <= bytes.Length
    }

    /** The bytes the window addresses. */
    function Window(): (w: seq<byte>)
      reads this, bytes
      requires InBounds()
      ensures |w| == length
    {
      bytes[offset..offset + length]
    }
  }
}

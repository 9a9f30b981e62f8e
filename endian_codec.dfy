/** Little-endian conversion of 16-bit values, as the 802.11 codec uses it:
    `ToUInt16` reads two bytes at an index, `CopyBytes` writes them. Neither
    checks bounds; callers establish that both bytes exist. */
module EndianCodec {
  import opened Bytes

  /** The little-endian `ushort` stored at `s[i]`, `s[i + 1]`. */
  function ToUInt16(s: seq<byte>, i: nat): u16
    requires i + 2 <= |s|
  {
    s[i] as int + 0x100 * s[i + 1] as int
  }

  /** The two bytes, low byte first, that encode `v`. */
  function LittleBytes(v: u16): (b: seq<byte>)
    ensures |b| == 2
  {
    [v % 0x100, v / 0x100]
  }

  /** Reading back an encoded value yields the value. */
  lemma ToUInt16OfLittleBytes(v: u16, s: seq<byte>, i: nat)
    requires i + 2 <= |s| && s[i..i + 2] == LittleBytes(v)
    ensures ToUInt16(s, i) == v
  {
    assert s[i] == s[i..i + 2][0] && s[i + 1] == s[i..i + 2][1];
  }

  /** Re-encoding a read value yields exactly the two bytes that were read. */
  lemma LittleBytesOfToUInt16(s: seq<byte>, i: nat)
    requires i + 2 <= |s|
    ensures LittleBytes(ToUInt16(s, i)) == s[i..i + 2]
  {
  }

  /** Little-endian encoding is injective: distinct values never share bytes. */
  lemma LittleBytesInjective(v: u16, w: u16)
    requires LittleBytes(v) == LittleBytes(w)
    ensures v == w
  {
    ToUInt16OfLittleBytes(v, LittleBytes(v), 0);
    ToUInt16OfLittleBytes(w, LittleBytes(w), 0);
  }

  /** Writes `value` little-endian at `buffer[index]`, `buffer[index + 1]` and
      nothing else; `EndianBitConverter` performs no bounds check, so the run must fit. */
  method CopyBytes(value: u16, buffer: array<byte>, index: nat)
    requires index + 2 <= buffer.Length
    modifies buffer
    ensures buffer[..] == Splice(old(buffer[..]), index, LittleBytes(value))
  {
    buffer[index] := value % 0x100;
    buffer[index + 1] := value / 0x100;
    assert buffer[..] == Splice(old(buffer[..]), index, LittleBytes(value));
  }

  /** `Array.Copy` of a whole run into `buffer` at `index`. */
  method CopyRun(run: seq<byte>, buffer: array<byte>, index: nat)
    requires index + |run| <= buffer.Length
    modifies buffer
    ensures buffer[..] == Splice(old(buffer[..]), index, run)
  {
    forall k | 0 <= k < |run| {
      buffer[index + k] := run[k];
    }
    assert buffer[..] == Splice(old(buffer[..]), index, run);
  }
}

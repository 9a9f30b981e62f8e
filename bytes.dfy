/** Byte-level vocabulary shared by every codec module: the .NET `byte` and
    `ushort` ranges, and the effect of copying a run of bytes into a buffer. */
module Bytes {

  /** A .NET `byte`. */
  type byte = b: int | 0 <= b < 0x100

  /** A .NET `ushort`. */
  type u16 = v: int | 0 <= v < 0x1_0000

  /** The buffer `s` after the bytes `w` have been copied into it starting at
      index `at`: the copied run replaces exactly `|w|` bytes and every other
      byte keeps its value. */
  function Splice(s: seq<byte>, at: nat, w: seq<byte>): (r: seq<byte>)
    requires at + |w| <= |s|
    ensures |r| == |s|
    ensures r[at..at + |w|] == w
    ensures forall i :: 0 <= i < |s| && !(at <= i < at + |w|) ==> r[i] == s[i]
  {
    s[..at] + w + s[at + |w|..]
  }

  /** Two copies into adjacent runs are one copy of the concatenated run. */
  lemma SpliceAdjacent(s: seq<byte>, at: nat, a: seq<byte>, b: seq<byte>)
    requires at + |a| + |b| <= |s|
    ensures Splice(Splice(s, at, a), at + |a|, b) == Splice(s, at, a + b)
  {
    var lhs := Splice(Splice(s, at, a), at + |a|, b);
    var rhs := Splice(s, at, a + b);
    forall i | 0 <= i < |s|
      ensures lhs[i] == rhs[i]
    {
      if at <= i < at + |a| {
        assert lhs[i] == a[i - at] == (a + b)[i - at];
      } else if at + |a| <= i < at + |a| + |b| {
        assert lhs[i] == b[i - at - |a|] == (a + b)[i - at];
      }
    }
  }

  /** A slice of a slice is a slice of the whole. */
  lemma SliceOfSlice(s: seq<byte>, lo: nat, hi: nat, p: nat, n: nat)
    requires lo <= hi <= |s| && p + n <= hi - lo
    ensures s[lo..hi][p..p + n] == s[lo + p..lo + p + n]
  {
    var a, b := s[lo..hi][p..p + n], s[lo + p..lo + p + n];
    assert forall k :: 0 <= k < n ==> a[k] == b[k];
  }

  /** Copying into a buffer the bytes it already holds changes nothing. */
  lemma SpliceUnchanged(s: seq<byte>, at: nat, w: seq<byte>)
    requires at + |w| <= |s|
    requires s[at..at + |w|] == w
    ensures Splice(s, at, w) == s
  {
    var r := Splice(s, at, w);
    forall i | 0 <= i < |s|
      ensures r[i] == s[i]
    {
      if at <= i < at + |w| {
        assert r[i] == r[at..at + |w|][i - at] == s[at..at + |w|][i - at];
      }
    }
  }
}

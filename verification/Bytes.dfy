/** Bytes, and words inside byte sequences. */
module Bytes {
  newtype byte = x: int | 0 <= x < 256

  function Word16(s: seq<byte>, at: nat): (w: nat)
    requires at + 2 <= |s|
    ensures w < 0x1_0000
  {
    s[at] as int + 0x100 * s[at + 1] as int
  }

  function Word32(s: seq<byte>, at: nat): (w: nat)
    requires at + 4 <= |s|
    ensures w < 0x1_0000_0000
  {
    Word16(s, at) + 0x1_0000 * Word16(s, at + 2)
  }

  /** A word with its most significant byte first, as networks send it. */
  function Read16(s: seq<byte>, at: nat): (w: nat)
    requires at + 2 <= |s|
    ensures w < 0x1_0000
  {
    0x100 * s[at] as int + s[at + 1] as int
  }

  function Put16(s: seq<byte>, at: nat, w: nat): (t: seq<byte>)
    requires at + 2 <= |s| && w < 0x1_0000
    ensures |t| == |s| && Word16(t, at) == w
    ensures forall i :: 0 <= i < |s| && !(at <= i < at + 2) ==> t[i] == s[i]
  {
    s[at := (w % 0x100) as byte][at + 1 := (w / 0x100) as byte]
  }

  function Put32(s: seq<byte>, at: nat, w: nat): (t: seq<byte>)
    requires at + 4 <= |s| && w < 0x1_0000_0000
    ensures |t| == |s| && Word32(t, at) == w
    ensures forall i :: 0 <= i < |s| && !(at <= i < at + 4) ==> t[i] == s[i]
  {
    Put16(Put16(s, at, w % 0x1_0000), at + 2, w / 0x1_0000)
  }

  /** A slice of a slice is a slice. */
  lemma SliceOfSlice<T>(s: seq<T>, a: nat, b: nat, i: nat, j: nat)
    requires i <= j && a + j <= b <= |s|
    ensures s[a..b][i..j] == s[a + i..a + j]
  {
    forall k | 0 <= k < j - i
      ensures s[a..b][i..j][k] == s[a + i..a + j][k]
    {
      assert s[a..b][i + k] == s[a + i + k];
    }
  }
}

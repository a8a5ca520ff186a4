/** Basic value types shared by the whole model: bytes, unsigned 32-bit
    words, buffer slicing and the two fixed-width byte orders. */
module Bytes {

  /** One octet, as held in a Node `Buffer` or `Uint8Array`. */
  type byte = x: int | 0 <= x < 256

  /** An unsigned 32-bit value, the range of a CRC-32. */
  type uint32 = x: int | 0 <= x < 0x1_0000_0000

  function Reverse<T>(s: seq<T>): (r: seq<T>)
    ensures |r| == |s|
    ensures forall i :: 0 <= i < |s| ==> r[i] == s[|s| - 1 - i]
  {
    if s == [] then [] else Reverse(s[1..]) + [s[0]]
  }

  /** JavaScript's `slice(from)` on a buffer: the suffix starting at `from`,
      or the empty buffer when `from` lies past the end. */
  function SliceFrom<T>(s: seq<T>, from: nat): (r: seq<T>)
    ensures |s| <= from ==> r == []
    ensures from < |s| ==> |r| == |s| - from
    ensures forall i :: 0 <= i < |r| ==> r[i] == s[from + i]
  {
    if |s| <= from then [] else s[from..]
  }

  /** JavaScript's `slice(0, to)` on a buffer: the prefix of length `to`,
      or the whole buffer when it is shorter than that. */
  function SliceTo<T>(s: seq<T>, to: nat): (r: seq<T>)
    ensures |r| == if |s| <= to then |s| else to
    ensures forall i :: 0 <= i < |r| ==> r[i] == s[i]
  {
    if |s| <= to then s else s[..to]
  }

  /** The `k` low-order bytes of `n`, least significant first. */
  function LittleEndian(n: nat, k: nat): (r: seq<byte>)
    ensures |r| == k
  {
    if k == 0 then [] else [n % 256] + LittleEndian(n / 256, k - 1)
  }

  /** The `k` low-order bytes of `n`, most significant first. */
  function BigEndian(n: nat, k: nat): (r: seq<byte>)
    ensures |r| == k
  {
    if k == 0 then [] else BigEndian(n / 256, k - 1) + [n % 256]
  }

  /** The value of a little-endian byte string. */
  function FromLittleEndian(s: seq<byte>): nat
  {
    if s == [] then 0 else s[0] + 256 * FromLittleEndian(s[1..])
  }

  /** Reading a little-endian encoding back gives the encoded value, when
      it fits in the chosen width. */
  lemma {:induction false} LittleEndianRoundTrip(n: nat, k: nat)
    requires n < Pow256(k)
    ensures FromLittleEndian(LittleEndian(n, k)) == n
  {
    if k > 0 {
      LittleEndianRoundTrip(n / 256, k - 1);
      assert LittleEndian(n, k)[1..] == LittleEndian(n / 256, k - 1);
    }
  }

  function Pow256(k: nat): (r: nat)
    ensures r >= 1
  {
    if k == 0 then 1 else 256 * Pow256(k - 1)
  }

  /** Reversing a big-endian encoding gives the little-endian one. */
  lemma {:induction false} ReverseBigEndian(n: nat, k: nat)
    ensures Reverse(BigEndian(n, k)) == LittleEndian(n, k)
  {
    if k > 0 {
      ReverseBigEndian(n / 256, k - 1);
      var b := BigEndian(n / 256, k - 1) + [n % 256];
      assert b[0..|b| - 1] == BigEndian(n / 256, k - 1);
      ReverseSnoc(BigEndian(n / 256, k - 1), n % 256);
    }
  }

  lemma ReverseSnoc<T>(s: seq<T>, x: T)
    ensures Reverse(s + [x]) == [x] + Reverse(s)
  {
  }
}

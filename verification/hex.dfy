/** The two string conversions the checksum goes through: JavaScript's
    `Number.prototype.toString(16)` on a non-negative integer, and Node's
    `Buffer.from(text, "hex")`. */
module Hex {
  import opened Bytes
  import opened Wrappers

  /** The lowercase digit for a nibble, as `toString(16)` writes it. */
  function Digit(v: int): (c: char)
    requires 0 <= v < 16
    ensures IsLowerHexDigit(c)
    ensures NibbleValue(c) == Some(v)
  {
    if v < 10 then ('0' as int + v) as char else ('a' as int + (v - 10)) as char
  }

  predicate IsLowerHexDigit(c: char)
  {
    '0' <= c <= '9' || 'a' <= c <= 'f'
  }

  /** The nibble a character stands for in Node's hex decoder, which accepts
      both letter cases; `None` for any other character. */
  function NibbleValue(c: char): (r: Option<int>)
    ensures r.Some? ==> 0 <= r.value < 16
  {
    if '0' <= c <= '9' then Some(c as int - '0' as int)
    else if 'a' <= c <= 'f' then Some(c as int - 'a' as int + 10)
    else if 'A' <= c <= 'F' then Some(c as int - 'A' as int + 10)
    else None
  }

  /** Number of hexadecimal digits `toString(16)` prints for `n` (at least one). */
  function NumDigits(n: nat): (d: nat)
    ensures d >= 1
  {
    if n < 16 then 1 else 1 + NumDigits(n / 16)
  }

  function Pow16(k: nat): (r: nat)
    ensures r >= 1
  {
    if k == 0 then 1 else 16 * Pow16(k - 1)
  }

  /** `n.toString(16)` for a non-negative integer `n`: lowercase, no sign,
      no leading zeros, and "0" for zero. */
  function ToHex(n: nat): (s: string)
    ensures |s| == NumDigits(n)
    ensures forall i :: 0 <= i < |s| ==> IsLowerHexDigit(s[i])
  {
    if n < 16 then [Digit(n)] else ToHex(n / 16) + [Digit(n % 16)]
  }

  /** The `w` low-order hexadecimal digits of `n`, most significant first,
      zero-filled on the left. */
  function Fixed(n: nat, w: nat): (s: string)
    ensures |s| == w
    ensures forall i :: 0 <= i < |s| ==> IsLowerHexDigit(s[i])
  {
    if w == 0 then [] else Fixed(n / 16, w - 1) + [Digit(n % 16)]
  }

  /** Value of a string of hexadecimal digits read most significant first. */
  function HexValue(s: string): nat
    requires forall i :: 0 <= i < |s| ==> NibbleValue(s[i]).Some?
  {
    if s == [] then 0 else 16 * HexValue(s[..|s| - 1]) + NibbleValue(s[|s| - 1]).value
  }

  /** JavaScript's `s.padStart(w, c)`: `s` preceded by as many copies of `c`
      as make it `w` characters long, or `s` unchanged when it is already that long. */
  function PadStart(s: string, w: nat, c: char): (r: string)
    ensures |r| == if |s| < w then w else |s|
    ensures |s| < w ==> r[w - |s|..] == s && forall i :: 0 <= i < w - |s| ==> r[i] == c
    ensures w <= |s| ==> r == s
  {
    if |s| < w then seq(w - |s|, _ => c) + s else s
  }

  /** Node's `Buffer.from(s, "hex")`: characters are decoded in pairs from
      the left; decoding stops at the first pair that is not two hex digits,
      and a trailing unpaired digit is dropped. */
  function HexDecode(s: string): (r: seq<byte>)
    ensures |r| <= |s| / 2
  {
    if |s| < 2 then []
    else match (NibbleValue(s[0]), NibbleValue(s[1]))
      case (Some(hi), Some(lo)) => [16 * hi + lo] + HexDecode(s[2..])
      case _ => []
  }

  /** `toString(16)` is the shortest hexadecimal rendering: it has exactly
      the value of `n`, and it starts with '0' only when `n` is zero. */
  lemma {:induction false} ToHexIsShortestRendering(n: nat)
    ensures HexValue(ToHex(n)) == n
    ensures n == 0 <==> ToHex(n)[0] == '0'
    ensures n == 0 ==> ToHex(n) == "0"
  {
    var s := ToHex(n);
    if n >= 16 {
      ToHexIsShortestRendering(n / 16);
      assert s[..|s| - 1] == ToHex(n / 16);
      assert s[0] == ToHex(n / 16)[0];
    }
  }

  /** `toString(16)` writes exactly the `NumDigits(n)` low-order digits of `n`. */
  lemma {:induction false} ToHexIsFixed(n: nat)
    ensures ToHex(n) == Fixed(n, NumDigits(n))
  {
    if n >= 16 {
      ToHexIsFixed(n / 16);
    }
  }

  /** `n` needs at most `k` digits exactly when it is below `16^k`. */
  lemma {:induction false} NumDigitsBound(n: nat, k: nat)
    requires k >= 1
    ensures NumDigits(n) <= k <==> n < Pow16(k)
  {
    if n >= 16 && k > 1 {
      NumDigitsBound(n / 16, k - 1);
    } else if n >= 16 {
      assert Pow16(1) == 16;
    } else {
      assert Pow16(k) >= 16;
    }
  }

  /** Decoding a string of an even number of hex digits splits at the pair
      boundary: the decoder never stops early on valid input. */
  lemma {:induction false} HexDecodeAppend(a: string, b: string)
    requires |a| % 2 == 0
    requires forall i :: 0 <= i < |a| ==> NibbleValue(a[i]).Some?
    ensures HexDecode(a + b) == HexDecode(a) + HexDecode(b)
  {
    if |a| > 0 {
      assert (a + b)[0] == a[0] && (a + b)[1] == a[1];
      assert (a + b)[2..] == a[2..] + b;
      HexDecodeAppend(a[2..], b);
    } else {
      assert a + b == b;
    }
  }

  /** A single unpaired digit decodes to nothing. */
  lemma HexDecodeOdd(c: char)
    ensures HexDecode([c]) == []
  {
  }

  lemma SplitByte(n: nat)
    ensures (n / 16) / 16 == n / 256
    ensures 16 * ((n / 16) % 16) + n % 16 == n % 256
  {
  }

  /** An even number `2k` of digits decodes to the `k` big-endian bytes of `n`. */
  lemma {:induction false} HexDecodeEven(n: nat, k: nat)
    ensures HexDecode(Fixed(n, 2 * k)) == BigEndian(n, k)
  {
    if k > 0 {
      HexDecodeEven(n / 256, k - 1);
      SplitByte(n);
      var hi := Digit((n / 16) % 16);
      var lo := Digit(n % 16);
      assert Fixed(n, 2 * k) == Fixed(n / 256, 2 * (k - 1)) + [hi, lo] by {
        assert Fixed(n / 16, 2 * k - 1) == Fixed(n / 256, 2 * (k - 1)) + [hi];
      }
      HexDecodeAppend(Fixed(n / 256, 2 * (k - 1)), [hi, lo]);
      assert HexDecode([hi, lo]) == [n % 256] by {
        assert [hi, lo][2..] == [];
      }
    }
  }

  /** An odd number `2k + 1` of digits loses its last digit: the result is
      the `k` big-endian bytes of `n / 16`. */
  lemma HexDecodeOddLength(n: nat, k: nat)
    ensures HexDecode(Fixed(n, 2 * k + 1)) == BigEndian(n / 16, k)
  {
    HexDecodeEven(n / 16, k);
    HexDecodeAppend(Fixed(n / 16, 2 * k), [Digit(n % 16)]);
    HexDecodeOdd(Digit(n % 16));
  }

  /** Zero-filling a rendering on the left adds leading zero digits and
      nothing else, as long as the value fits in the shorter width. */
  lemma {:induction false} FixedWiden(n: nat, w: nat, j: nat)
    requires n < Pow16(w)
    ensures Fixed(n, w + j) == seq(j, _ => '0') + Fixed(n, w)
  {
    if w == 0 {
      FixedOfZero(j);
    } else {
      FixedWiden(n / 16, w - 1, j);
      assert Fixed(n, w + j) == Fixed(n / 16, w - 1 + j) + [Digit(n % 16)];
    }
  }

  lemma {:induction false} FixedOfZero(j: nat)
    ensures Fixed(0, j) == seq(j, _ => '0')
  {
    if j > 0 {
      FixedOfZero(j - 1);
    }
  }
}

/** `getChecksum`: the CRC-32 of a buffer rendered with `toString(16)`,
    decoded as hex by `Buffer.from`, then byte-reversed, together with the
    zero-padded variant that always yields four bytes. */
module Checksum {
  import opened Bytes
  import opened Hex
  import opened Libraries

  /** The as-written checksum of a buffer whose CRC-32 is `crc`. Because
      `toString(16)` drops leading zeros and the hex decoder drops a trailing
      odd digit, it is the little-endian encoding of the CRC only when the CRC
      has eight hex digits; otherwise it is shorter, and with an odd digit
      count it has also lost the CRC's lowest nibble. */
  function ChecksumOfCrc(crc: uint32): (r: seq<byte>)
    ensures |r| == NumDigits(crc) / 2
    ensures |r| <= 4
    ensures |r| == 4 <==> crc >= 0x1000_0000
    ensures r == LittleEndian(if NumDigits(crc) % 2 == 0 then crc else crc / 16, NumDigits(crc) / 2)
  {
    ChecksumShape(crc);
    Reverse(HexDecode(ToHex(crc)))
  }

  lemma ChecksumShape(crc: uint32)
    ensures var d := NumDigits(crc);
      && Reverse(HexDecode(ToHex(crc))) == LittleEndian(if d % 2 == 0 then crc else crc / 16, d / 2)
      && d <= 8
      && (d == 8 <==> crc >= 0x1000_0000)
  {
    var d := NumDigits(crc);
    var k := d / 2;
    ToHexIsFixed(crc);
    if d % 2 == 0 {
      assert d == 2 * k;
      HexDecodeEven(crc, k);
      ReverseBigEndian(crc, k);
    } else {
      assert d == 2 * k + 1;
      HexDecodeOddLength(crc, k);
      ReverseBigEndian(crc / 16, k);
    }
    DigitCountOfWord(crc);
  }

  /** A 32-bit value has at most eight hex digits, and all eight exactly
      when it is at least 0x10000000. */
  lemma DigitCountOfWord(crc: uint32)
    ensures NumDigits(crc) <= 8
    ensures NumDigits(crc) == 8 <==> crc >= 0x1000_0000
  {
    PowersOfSixteen();
    NumDigitsBound(crc, 8);
    NumDigitsBound(crc, 7);
  }

  lemma PowersOfSixteen()
    ensures Pow16(6) == 0x100_0000
    ensures Pow16(7) == 0x1000_0000
    ensures Pow16(8) == 0x1_0000_0000
    ensures Pow256(4) == 0x1_0000_0000
  {
    assert Pow16(2) == 0x100;
    assert Pow16(4) == 0x1_0000 by {
      assert Pow16(3) == 0x1000;
    }
    assert Pow16(6) == 0x100_0000 by {
      assert Pow16(5) == 0x10_0000;
    }
    assert Pow256(2) == 0x1_0000;
  }

  /** The four little-endian bytes of `n`, spelled out. */
  lemma LittleEndianFour(n: nat)
    ensures LittleEndian(n, 4) == [n % 0x100, (n / 0x100) % 0x100, (n / 0x1_0000) % 0x100, (n / 0x100_0000) % 0x100]
  {
    assert n / 0x100 / 0x100 == n / 0x1_0000;
    assert n / 0x1_0000 / 0x100 == n / 0x100_0000;
    assert LittleEndian(n / 0x100_0000, 1) == [(n / 0x100_0000) % 0x100];
    assert LittleEndian(n / 0x1_0000, 2) == [(n / 0x1_0000) % 0x100, (n / 0x100_0000) % 0x100];
    assert LittleEndian(n / 0x100, 3) == [(n / 0x100) % 0x100, (n / 0x1_0000) % 0x100, (n / 0x100_0000) % 0x100];
  }

  /** `getChecksum(buffer)` as written. */
  function GetChecksum(lib: Foreign, buffer: seq<byte>): (r: seq<byte>)
    ensures |r| <= 4
    ensures |r| == 4 <==> lib.crc32(buffer) >= 0x1000_0000
  {
    ChecksumOfCrc(lib.crc32(buffer))
  }

  /** A four-byte checksum holds the CRC least significant byte first: byte
      `i` is `(crc >> 8*i) & 0xff`, and the bytes read back to the CRC. */
  lemma FullChecksumIsLittleEndianCrc(crc: uint32)
    requires |ChecksumOfCrc(crc)| == 4
    ensures var r := ChecksumOfCrc(crc);
      && r[0] == crc % 0x100
      && r[1] == (crc / 0x100) % 0x100
      && r[2] == (crc / 0x1_0000) % 0x100
      && r[3] == (crc / 0x100_0000) % 0x100
      && FromLittleEndian(r) == crc
  {
    DigitCountOfWord(crc);
    LittleEndianFour(crc);
    PowersOfSixteen();
    LittleEndianRoundTrip(crc, 4);
  }

  /** The checksum of a payload whose CRC-32 is 0x06b9df6f (the one-byte
      payload 0x63 has that CRC): seven hex digits, so three bytes, and the
      low nibble 0xf is gone. */
  lemma SevenDigitCrcLosesNibble()
    ensures ChecksumOfCrc(0x06b9_df6f) == [0xf6, 0x9d, 0x6b]
  {
    PowersOfSixteen();
    NumDigitsBound(0x06b9_df6f, 7);
    NumDigitsBound(0x06b9_df6f, 6);
    var r := LittleEndian(0x06b9_df6f / 16, 3);
    assert r == [0xf6, 0x9d, 0x6b];
  }

  /** The corrected checksum: the rendering zero-padded to eight
      digits before hex decoding, `crc32(b).toString(16).padStart(8, "0")`.
      It is always the four-byte little-endian encoding of the CRC. */
  function PaddedChecksumOfCrc(crc: uint32): (r: seq<byte>)
    ensures r == LittleEndian(crc, 4)
    ensures FromLittleEndian(r) == crc
  {
    PaddedShape(crc);
    Reverse(HexDecode(PadStart(ToHex(crc), 8, '0')))
  }

  lemma PaddedShape(crc: uint32)
    ensures Reverse(HexDecode(PadStart(ToHex(crc), 8, '0'))) == LittleEndian(crc, 4)
    ensures FromLittleEndian(LittleEndian(crc, 4)) == crc
  {
    var d := NumDigits(crc);
    DigitCountOfWord(crc);
    NumDigitsBound(crc, d);
    ToHexIsFixed(crc);
    FixedWiden(crc, d, 8 - d);
    assert PadStart(ToHex(crc), 8, '0') == Fixed(crc, 8);
    HexDecodeEven(crc, 4);
    ReverseBigEndian(crc, 4);
    PowersOfSixteen();
    LittleEndianRoundTrip(crc, 4);
  }

  /** The zero-padded checksum of a buffer. */
  function GetPaddedChecksum(lib: Foreign, buffer: seq<byte>): (r: seq<byte>)
    ensures |r| == 4
    ensures FromLittleEndian(r) == lib.crc32(buffer)
  {
    PaddedChecksumOfCrc(lib.crc32(buffer))
  }
}

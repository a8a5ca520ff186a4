/** The checksum-framed Base58 envelope: `checksum ++ payload`, Base58-encoded
    on the way out (the end of `getPaymentRequest`), split at byte 4 and
    checked on the way in (`parseB58`). Framing and unframing are written
    once, over any checksum function, and then instantiated with the
    checksum as written and with the zero-padded one. */
module Envelope {
  import opened Bytes
  import opened Wrappers
  import opened Libraries
  import opened Checksum

  /** Width of the checksum field that `parseB58` assumes. */
  const ChecksumWidth: nat := 4

  /** Encoding: the checksum of the payload, then the payload unchanged,
      as Base58 text. */
  function Frame(lib: Foreign, sum: seq<byte> -> seq<byte>, payload: seq<byte>): (text: string)
    ensures Base58RoundTrips(lib) ==> lib.base58Decode(text) == Some(sum(payload) + payload)
  {
    lib.base58Encode(sum(payload) + payload)
  }

  /** Decoding: Base58-decode, take everything from byte 4 on as the payload,
      and compare the `toString()` renderings of the first (up to) four bytes
      and of the recomputed checksum. There is no length check: a decoded
      buffer shorter than four bytes gives an empty payload and is judged by
      the comparison alone. */
  function Unframe(lib: Foreign, sum: seq<byte> -> seq<byte>, text: string): (r: Result<seq<byte>, Error>)
    ensures lib.base58Decode(text).None? <==> r == Failure(MalformedBase58)
    ensures lib.base58Decode(text).Some? ==>
      var decoded := lib.base58Decode(text).value;
      var data := SliceFrom(decoded, ChecksumWidth);
      && (r == Success(data) || r == Failure(InvalidChecksum))
      && (r.Success? <==> lib.render(SliceTo(decoded, ChecksumWidth)) == lib.render(sum(data)))
      && (SliceTo(decoded, ChecksumWidth) == sum(data) ==> r.Success?)
      && (|decoded| < ChecksumWidth ==> data == [])
  {
    match lib.base58Decode(text)
    case None => Failure(MalformedBase58)
    case Some(decoded) =>
      var data := SliceFrom(decoded, ChecksumWidth);
      if lib.render(SliceTo(decoded, ChecksumWidth)) != lib.render(sum(data)) then Failure(InvalidChecksum)
      else Success(data)
  }

  /** With a four-byte checksum, unframing a framed payload gives it back. */
  lemma FullChecksumRoundTrip(lib: Foreign, sum: seq<byte> -> seq<byte>, p: seq<byte>)
    requires Base58RoundTrips(lib)
    requires |sum(p)| == ChecksumWidth
    ensures Unframe(lib, sum, Frame(lib, sum, p)) == Success(p)
  {
    var decoded := sum(p) + p;
    assert SliceFrom(decoded, ChecksumWidth) == p;
    assert SliceTo(decoded, ChecksumWidth) == sum(p);
  }

  /** With a checksum shorter than four bytes, the split at byte 4 eats the
      first payload bytes: a non-empty payload never comes back; the result
      is an error or a strictly shorter buffer. */
  lemma ShortChecksumLosesPayload(lib: Foreign, sum: seq<byte> -> seq<byte>, p: seq<byte>)
    requires Base58RoundTrips(lib)
    requires |sum(p)| < ChecksumWidth
    requires p != []
    ensures var r := Unframe(lib, sum, Frame(lib, sum, p));
      r.Failure? || |r.value| < |p|
  {
    var decoded := sum(p) + p;
    assert |SliceFrom(decoded, ChecksumWidth)| < |p|;
  }

  /** The round trip holds exactly when the checksum has four bytes, or the
      payload is empty and its checksum has fewer. */
  lemma {:induction false} RoundTripExactly(lib: Foreign, sum: seq<byte> -> seq<byte>, p: seq<byte>)
    requires Base58RoundTrips(lib)
    ensures Unframe(lib, sum, Frame(lib, sum, p)) == Success(p)
        <==> |sum(p)| == ChecksumWidth || (p == [] && |sum(p)| < ChecksumWidth)
  {
    var decoded := sum(p) + p;
    var data := SliceFrom(decoded, ChecksumWidth);
    if |sum(p)| == ChecksumWidth {
      FullChecksumRoundTrip(lib, sum, p);
    } else if p == [] && |sum(p)| < ChecksumWidth {
      assert decoded == sum(p);
      assert data == [] == p;
    } else if |sum(p)| < ChecksumWidth {
      ShortChecksumLosesPayload(lib, sum, p);
    } else {
      assert |data| == |sum(p)| - ChecksumWidth + |p| > |p|;
    }
  }

  /** The checksum `getChecksum` computes. */
  function GetChecksumFn(lib: Foreign): (sum: seq<byte> -> seq<byte>)
    ensures forall b :: |sum(b)| <= ChecksumWidth
  {
    b => GetChecksum(lib, b)
  }

  /** The zero-padded checksum. */
  function PaddedChecksumFn(lib: Foreign): (sum: seq<byte> -> seq<byte>)
    ensures forall b :: |sum(b)| == ChecksumWidth
  {
    b => GetPaddedChecksum(lib, b)
  }

  /** `parseB58(b58Message)` as written. */
  function ParseB58(lib: Foreign, text: string): (r: Result<seq<byte>, Error>)
    ensures lib.base58Decode(text).None? <==> r == Failure(MalformedBase58)
    ensures lib.base58Decode(text).Some? ==>
      r == Success(SliceFrom(lib.base58Decode(text).value, ChecksumWidth)) || r == Failure(InvalidChecksum)
  {
    Unframe(lib, GetChecksumFn(lib), text)
  }

  /** `BS58.encode(Buffer.concat([getChecksum(p), p]))`, the last two lines of
      `getPaymentRequest`. */
  function FrameB58(lib: Foreign, p: seq<byte>): (text: string)
    ensures Base58RoundTrips(lib) ==> lib.base58Decode(text) == Some(GetChecksum(lib, p) + p)
  {
    Frame(lib, GetChecksumFn(lib), p)
  }

  /** The round trip of the code as written: `parseB58` returns the framed
      payload exactly when its CRC-32 has eight hex digits, or it is empty.
      An empty payload comes back whatever its CRC: its whole frame, at most
      four bytes, lands in the checksum slot, and it is compared with the
      checksum of the same empty payload. */
  lemma {:induction false} ParseB58RoundTrip(lib: Foreign, p: seq<byte>)
    requires Base58RoundTrips(lib)
    ensures ParseB58(lib, FrameB58(lib, p)) == Success(p) <==> lib.crc32(p) >= 0x1000_0000 || p == []
  {
    RoundTripExactly(lib, GetChecksumFn(lib), p);
  }

  /** A non-empty payload whose CRC-32 is below 0x10000000 never survives
      the round trip as written. */
  lemma {:induction false} ParseB58LosesShortCrcPayload(lib: Foreign, p: seq<byte>)
    requires Base58RoundTrips(lib)
    requires lib.crc32(p) < 0x1000_0000
    requires p != []
    ensures var r := ParseB58(lib, FrameB58(lib, p));
      r.Failure? || |r.value| < |p|
  {
    ShortChecksumLosesPayload(lib, GetChecksumFn(lib), p);
  }

  /** The payload 0x63, whose CRC-32 is 0x06b9df6f, is framed with a
      three-byte checksum; the decoded four bytes all go to the checksum
      slot, so parsing yields at best an empty payload. */
  lemma {:induction false} OneByteCounterexample(lib: Foreign)
    requires Base58RoundTrips(lib)
    requires lib.crc32([0x63]) == 0x06b9_df6f
    ensures lib.base58Decode(FrameB58(lib, [0x63])) == Some([0xf6, 0x9d, 0x6b, 0x63])
    ensures var r := ParseB58(lib, FrameB58(lib, [0x63]));
      r != Success([0x63]) && (r.Success? ==> r.value == [])
  {
    var p: seq<byte> := [0x63];
    var sum := GetChecksum(lib, p);
    assert sum == [0xf6, 0x9d, 0x6b] by {
      SevenDigitCrcLosesNibble();
    }
    var decoded := sum + p;
    assert decoded == [0xf6, 0x9d, 0x6b, 0x63];
    assert SliceFrom(decoded, ChecksumWidth) == [];
  }

  /** Parsing with the zero-padded checksum. */
  function ParseB58Padded(lib: Foreign, text: string): (r: Result<seq<byte>, Error>)
    ensures lib.base58Decode(text).None? <==> r == Failure(MalformedBase58)
    ensures lib.base58Decode(text).Some? ==>
      r == Success(SliceFrom(lib.base58Decode(text).value, ChecksumWidth)) || r == Failure(InvalidChecksum)
  {
    Unframe(lib, PaddedChecksumFn(lib), text)
  }

  /** Framing with the zero-padded checksum. */
  function FrameB58Padded(lib: Foreign, p: seq<byte>): (text: string)
    ensures Base58RoundTrips(lib) ==> lib.base58Decode(text) == Some(GetPaddedChecksum(lib, p) + p)
  {
    Frame(lib, PaddedChecksumFn(lib), p)
  }

  /** With the zero-padded checksum every payload survives the round trip. */
  lemma {:induction false} PaddedRoundTrip(lib: Foreign, p: seq<byte>)
    requires Base58RoundTrips(lib)
    ensures ParseB58Padded(lib, FrameB58Padded(lib, p)) == Success(p)
  {
    FullChecksumRoundTrip(lib, PaddedChecksumFn(lib), p);
  }

  /** If the renderings told different bytes apart, a buffer would be
      accepted exactly when its first four bytes are the checksum of the
      rest. `Buffer.prototype.toString()` does not meet this hypothesis in
      general (invalid UTF-8 sequences all render as U+FFFD). */
  lemma {:induction false} InjectiveRenderAcceptsExactlyMatching(lib: Foreign, sum: seq<byte> -> seq<byte>, text: string)
    requires forall a, b :: lib.render(a) == lib.render(b) ==> a == b
    requires lib.base58Decode(text).Some?
    ensures var decoded := lib.base58Decode(text).value;
      (Unframe(lib, sum, text).Success?
       <==> SliceTo(decoded, ChecksumWidth) == sum(SliceFrom(decoded, ChecksumWidth)))
  {
    var decoded := lib.base58Decode(text).value;
    var head := SliceTo(decoded, ChecksumWidth);
    var expected := sum(SliceFrom(decoded, ChecksumWidth));
    if lib.render(head) == lib.render(expected) {
      assert head == expected;
    }
  }
}

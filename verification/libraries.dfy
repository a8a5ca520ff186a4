/** The code the core calls but does not contain: `crc/crc32`, `bs58`,
    protobufjs and Node's `Buffer.prototype.toString`. Each is a field of one
    record that every operation takes as a parameter, so the model states
    what it relies on about them as explicit hypotheses instead of
    reimplementing them. */
module Libraries {
  import opened Bytes
  import opened Wrappers
  import opened Printable

  datatype Foreign = Foreign(
    /** `crc32(buffer)` from `crc/crc32`: an unsigned 32-bit value. */
    crc32: seq<byte> -> uint32,
    /** `BS58.encode`: Base58 text over the Bitcoin alphabet. */
    base58Encode: seq<byte> -> string,
    /** `BS58.decode`: `None` where it throws (a character outside the alphabet). */
    base58Decode: string -> Option<seq<byte>>,
    /** `Buffer.prototype.toString()`: UTF-8 decoding, lossy on invalid sequences. */
    render: seq<byte> -> string,
    /** `PrintableWrapper.encode(...).finish()`: `None` where it throws, for
        instance on an empty `value` string. Which values throw, and which are
        silently converted (a non-numeral string may become 0), is up to the
        library. */
    wrapperEncode: PrintableWrapper -> Option<seq<byte>>,
    /** `PrintableWrapper.decode`: `None` where it throws on malformed wire data. */
    wrapperDecode: seq<byte> -> Option<PrintableWrapper>)

  /** What every proof about the Base58 layer relies on: decoding inverts encoding. */
  ghost predicate Base58RoundTrips(lib: Foreign)
  {
    forall b :: lib.base58Decode(lib.base58Encode(b)) == Some(b)
  }

  /** The exceptions the core can raise or let through. */
  datatype Error =
    | MalformedBase58   // thrown by `BS58.decode`
    | InvalidChecksum   // thrown by `parseB58`
    | MalformedWrapper  // thrown by `PrintableWrapper.decode`
    | UnencodableRequest  // thrown by `PrintableWrapper.encode`
}

/** `getPaymentRequest`: decode the recipient's `PrintableWrapper`, build a
    new wrapper whose only populated variant is `paymentRequest`, serialize
    it and frame it as Base58 text; and the top-level flow that feeds it the
    payload of a parsed address token. */
module PaymentRequest {
  import opened Bytes
  import opened Wrappers
  import opened Printable
  import opened Libraries
  import opened Checksum
  import opened Envelope

  /** The wrapper `getPaymentRequest` hands to `PrintableWrapper.encode`:
      the `paymentRequest` variant alone, carrying the caller's amount and
      memo untouched and the address copied from the decoded input. */
  function RequestWrapper(decoded: PrintableWrapper, amount: Amount, memo: string): (w: PrintableWrapper)
    ensures w.PaymentRequestWrapper?
    ensures w.request.value == amount
    ensures w.request.memo == memo
    ensures w.request.publicAddress.Some? <==> decoded.PublicAddressWrapper?
    ensures decoded.PublicAddressWrapper? ==> w.request.publicAddress == Some(decoded.address)
  {
    PaymentRequestWrapper(PaymentRequest(PublicAddressField(decoded), amount, memo))
  }

  /** `PrintableWrapper.encode({paymentRequest: ...}).finish()`: the
      serialized request for a decoded input wrapper, or `None` where the
      encoder throws. */
  function RequestProto(lib: Foreign, decoded: PrintableWrapper, amount: Amount, memo: string): Option<seq<byte>>
  {
    lib.wrapperEncode(RequestWrapper(decoded, amount, memo))
  }

  /** `getPaymentRequest(publicAddress, amount, memo)`, apart from loading the
      schema. It fails where `PrintableWrapper.decode` throws on the input and
      where `PrintableWrapper.encode` throws on the new request, and nowhere
      else; otherwise its text Base58-decodes to the checksum followed by the
      serialized request, unchanged. */
  function GetPaymentRequest(lib: Foreign, publicAddress: seq<byte>, amount: Amount, memo: string): (r: Result<string, Error>)
    ensures lib.wrapperDecode(publicAddress).None? <==> r == Failure(MalformedWrapper)
    ensures lib.wrapperDecode(publicAddress).Some? ==>
      (RequestProto(lib, lib.wrapperDecode(publicAddress).value, amount, memo).None? <==> r == Failure(UnencodableRequest))
    ensures r.Success? <==>
      && lib.wrapperDecode(publicAddress).Some?
      && RequestProto(lib, lib.wrapperDecode(publicAddress).value, amount, memo).Some?
    ensures r.Success? && Base58RoundTrips(lib) ==>
      var proto := RequestProto(lib, lib.wrapperDecode(publicAddress).value, amount, memo).value;
      lib.base58Decode(r.value) == Some(GetChecksum(lib, proto) + proto)
  {
    match lib.wrapperDecode(publicAddress)
    case None => Failure(MalformedWrapper)
    case Some(decoded) =>
      match RequestProto(lib, decoded, amount, memo)
      case None => Failure(UnencodableRequest)
      case Some(proto) => Success(FrameB58(lib, proto))
  }

  /** What a recipient gets back from a payment request token: `parseB58`
      returns the serialized request exactly when its CRC-32 has eight hex
      digits (or it is empty); otherwise it throws or returns a truncated
      buffer. */
  lemma {:induction false} PaymentRequestParsesBack(lib: Foreign, publicAddress: seq<byte>, amount: Amount, memo: string)
    requires Base58RoundTrips(lib)
    requires lib.wrapperDecode(publicAddress).Some?
    requires RequestProto(lib, lib.wrapperDecode(publicAddress).value, amount, memo).Some?
    ensures var proto := RequestProto(lib, lib.wrapperDecode(publicAddress).value, amount, memo).value;
      var r := GetPaymentRequest(lib, publicAddress, amount, memo);
      && r.Success?
      && (ParseB58(lib, r.value) == Success(proto) <==> lib.crc32(proto) >= 0x1000_0000 || proto == [])
      && (lib.crc32(proto) < 0x1000_0000 && proto != [] ==>
            ParseB58(lib, r.value).Failure? || |ParseB58(lib, r.value).value| < |proto|)
  {
    var proto := RequestProto(lib, lib.wrapperDecode(publicAddress).value, amount, memo).value;
    ParseB58RoundTrip(lib, proto);
    if lib.crc32(proto) < 0x1000_0000 && proto != [] {
      ParseB58LosesShortCrcPayload(lib, proto);
    }
  }

  /** The module's top-level flow, `getPaymentRequest(parseB58(token), amount, memo)`:
      a failure of either step is the result; on success the new token frames
      a request built from the wrapper found in the address token's payload. */
  function RequestFromAddressToken(lib: Foreign, token: string, amount: Amount, memo: string): (r: Result<string, Error>)
    ensures ParseB58(lib, token).Failure? ==> r == Failure(ParseB58(lib, token).error)
    ensures ParseB58(lib, token).Success? && lib.wrapperDecode(ParseB58(lib, token).value).None? ==>
      r == Failure(MalformedWrapper)
    ensures ParseB58(lib, token).Success? && lib.wrapperDecode(ParseB58(lib, token).value).Some? ==>
      var decoded := lib.wrapperDecode(ParseB58(lib, token).value).value;
      (RequestProto(lib, decoded, amount, memo).None? <==> r == Failure(UnencodableRequest))
    ensures r.Success? <==>
      && ParseB58(lib, token).Success?
      && lib.wrapperDecode(ParseB58(lib, token).value).Some?
      && RequestProto(lib, lib.wrapperDecode(ParseB58(lib, token).value).value, amount, memo).Some?
    ensures r.Success? && Base58RoundTrips(lib) ==>
      var proto := RequestProto(lib, lib.wrapperDecode(ParseB58(lib, token).value).value, amount, memo).value;
      lib.base58Decode(r.value) == Some(GetChecksum(lib, proto) + proto)
  {
    match ParseB58(lib, token)
    case Failure(e) => Failure(e)
    case Success(payload) => GetPaymentRequest(lib, payload, amount, memo)
  }
}

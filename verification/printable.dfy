/** The shape of the protobuf messages the payment request is built from
    (`printable.PrintableWrapper` and its `paymentRequest` variant). The
    schema itself is loaded at run time; only the fields the core reads or
    writes are modelled. */
module Printable {
  import opened Wrappers

  /** A recipient's public address message. The core never looks inside it:
      it only copies it from the decoded input wrapper to the new request. */
  type PublicAddress(==)

  /** The `amount` argument, typed `string | number`; protobufjs is handed it
      exactly as the caller passed it. */
  datatype Amount = AmountText(text: string) | AmountNumber(number: int)

  /** The `paymentRequest` message. Its address is absent when the input
      wrapper held no `publicAddress`: protobufjs then leaves the field out. */
  datatype PaymentRequest = PaymentRequest(publicAddress: Option<PublicAddress>, value: Amount, memo: string)

  /** `PrintableWrapper`, a oneof: the variant this core reads, the variant it
      writes, and everything else (another variant, or none set). */
  datatype PrintableWrapper =
    | PublicAddressWrapper(address: PublicAddress)
    | PaymentRequestWrapper(request: PaymentRequest)
    | OtherWrapper

  /** The `.publicAddress` property of a decoded wrapper: the address when
      that variant is populated, nothing otherwise. */
  function PublicAddressField(w: PrintableWrapper): (r: Option<PublicAddress>)
    ensures r.Some? <==> w.PublicAddressWrapper?
    ensures r.Some? ==> r.value == w.address
  {
    match w
    case PublicAddressWrapper(a) => Some(a)
    case _ => None
  }
}

/** Message types, codes and the parsed and outgoing message (section 3 of RFC 7252). */
module Pdu {
  import opened Bytes
  import opened CoapOption

  datatype MessageType = Con | Non | Ack | Rst

  function TypeBits(t: MessageType): (bits: nat)
    ensures bits < 4
  {
    match t case Con => 0 case Non => 1 case Ack => 2 case Rst => 3
  }

  function TypeOfBits(bits: nat): MessageType
    requires bits < 4
  {
    match bits case 0 => Con case 1 => Non case 2 => Ack case _ => Rst
  }

  /** `Code`: three class bits and five detail bits. */
  type Code = byte

  const EMPTY_CODE: Code := 0
  const GET: Code := 1
  const PUT: Code := 3
  const DELETE: Code := 4

  function ClassBits(code: Code): nat { code / 32 }
  function DetailBits(code: Code): nat { code % 32 }

  predicate IsIdempotent(method_: Code) {
    method_ == GET || method_ == PUT || method_ == DELETE
  }

  predicate IsRequest(code: Code) {
    ClassBits(code) == 0 && DetailBits(code) != 0
  }

  /** The request codes are 0.01 to 0.31; GET, PUT and DELETE are the idempotent ones; class 2 is 2.00 to 2.31. */
  lemma CodesInNumbers(code: Code)
    ensures IsRequest(code) <==> 1 <= code <= 31
    ensures IsIdempotent(code) <==> code == 1 || code == 3 || code == 4
    ensures ClassBits(code) == 2 <==> 64 <= code <= 95
  {
  }

  predicate IsValidTypeCodeCombination(t: MessageType, code: Code) {
    match t
    case Con => true
    case Non => code != EMPTY_CODE
    case Ack => !IsRequest(code)
    case Rst => code == EMPTY_CODE
  }

  /** `Token`: its first `length` bytes; equality compares exactly those. */
  type Token = t: Span | |t| <= 8

  /** `Endpoint`: 32 opaque bytes compared as a whole. */
  type Endpoint = e: Span | |e| == 32 witness seq(32, _ => 0)

  /** A parsed datagram: `options` is the validated options span, `payload` is empty without marker. */
  datatype Message = Message(
    mtype: MessageType, code: Code, messageId: uint16, token: Token, options: Span, payload: Span)

  /**
   * The payload callback: absent, one that writes `bytes` when the window it is given
   * is large enough, or one that reports an error.
   */
  datatype PayloadCallback = NoCallback | Writes(bytes: Span) | Refuses

  datatype OutgoingMessage = OutgoingMessage(
    mtype: MessageType, code: Code, messageId: uint16, token: Token,
    options: seq<OptionView>, callback: PayloadCallback)
}

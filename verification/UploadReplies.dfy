/** How an upload is answered: the codes and options, in numbers (sections 2.2, 2.5 and 2.9 of RFC 7959). */
module UploadReplies {
  import opened Bytes
  import opened CoapOption
  import opened Pdu
  import opened Block
  import opened Upload

  /** The value of the first option numbered 27 is a block option: at most three bytes and not exponent 7. */
  predicate IsBlockValue(opt: OptionView) {
    opt.value.Uint? && opt.value.number < 0x100_0000 && opt.value.number % 8 != 7
  }

  lemma Block1InNumbers(req: Request)
    ensures Block1Of(req) ==
      match FirstWith(27, req.options)
      case None => Absent
      case Some(opt) =>
        if !IsBlockValue(opt) then Malformed
        else
          var raw := opt.value.number;
          Present(BlockOption(raw / 16, raw / 8 % 2 == 1, raw % 8))
  {
    hide FirstWith;
  }

  /** The request's block, read off its number: where it begins, and the size its exponent says. */
  function BlockOffset(raw: uint32): nat {
    raw / 16 * BlockBytes(raw % 8)
  }

  /** The block starts a transfer, continues the client's transfer or repeats its latest block. */
  predicate IsInOrder(t: Transfer, req: Request, raw: uint32) {
    || raw / 16 == 0
    || (t.phase == Receiving && t.client == req.sender && BlockOffset(raw) == t.expectedOffset)
    || (t.phase != Idle && t.client == req.sender && BlockOffset(raw) == t.prevOffset
        && BlockOffset(raw) + |req.payload| == t.expectedOffset)
  }

  /** A body that reaches to `end`, or that Size1 (60) announces, exceeds the buffer. */
  predicate ExceedsBuffer(req: Request, end: nat, capacity: nat) {
    end > capacity || (FindUint(req.options, 60).Some? && FindUint(req.options, 60).value > capacity)
  }

  /** The block option sent back: the request's number and M, and the smaller of the two exponents. */
  function EchoedBlock(raw: uint32, szx: Exponent): OptionView {
    var own: nat := raw % 8;
    OptionView(27, Uint(raw - own + if own < szx then own else szx))
  }

  lemma EchoInNumbers(raw: uint32, szx: Exponent)
    requires raw < 0x100_0000
    ensures Block1Option(BlockOption(raw / 16, raw / 8 % 2 == 1, Smaller(raw % 8, szx))) == EchoedBlock(raw, szx)
  {
    DecodedBits(raw);
    WholeShift(raw / 16);
  }

  /** Whether and how a block-wise request is accepted, on its numbers. */
  lemma AcceptedInNumbers(t: Transfer, szx: Exponent, req: Request, opt: OptionView)
    requires FirstWith(27, req.options) == Some(opt)
    ensures var (t', status) := TransferStep(t, szx, req);
      if !IsBlockValue(opt) then
        status == Rejected && RejectReply(t') == UploadReply(128, [])
      else
        var raw := opt.value.number;
        var more := raw / 8 % 2 == 1;
        if more && |req.payload| != BlockBytes(raw % 8) then
          status == Rejected && RejectReply(t') == UploadReply(128, [])
        else if !IsInOrder(t, req, raw) then
          status == Rejected && RejectReply(t') == UploadReply(136, [])
        else
          && status == (if more then Intermediate else Final)
          && t'.offset == BlockOffset(raw) && t'.data == req.payload && t'.echoBlock1
          && ContinueReply(t') == UploadReply(95, [EchoedBlock(raw, szx)])
          && forall resp: UploadReply :: Finished(t', resp) == resp.(options := resp.options + [EchoedBlock(raw, szx)])
  {
    Block1InNumbers(req);
    if IsBlockValue(opt) {
      SizeInNumbers(opt.value.number % 8);
      EchoInNumbers(opt.value.number, szx);
    }
    hide Size, BlockBytes, FirstWith, Block1Of, Block1Option, EchoedBlock;
  }

  /**
   * The answer to any request, by its numbers. Without Block1 (27) the payload is the body. A Block1
   * that is no block, or a block with M that is not full, is answered 4.00; one out of order 4.08; what would
   * exceed the buffer, or is announced to, 4.13 with the buffer's size as Size1 (60); any other
   * block with M 2.31 with its own number. Only what is left completes the body.
   */
  lemma AnswerInNumbers(a: Assembler, szx: Exponent, req: Request)
    ensures var (a', answer) := AssemblerStep(a, szx, req);
      var capacity := |a.buffer|;
      var tooLarge := UploadReply(141, [OptionView(60, Uint(ToU32(capacity)))]);
      match FirstWith(27, req.options)
      case None =>
        if ExceedsBuffer(req, |req.payload|, capacity) then answer == NeedsReply && ReplyOf(a') == tooLarge
        else answer == Complete && forall resp: UploadReply :: Finished(a'.transfer, resp) == resp
      case Some(opt) =>
        if !IsBlockValue(opt) then answer == NeedsReply && ReplyOf(a') == UploadReply(128, [])
        else
          var raw := opt.value.number;
          var more := raw / 8 % 2 == 1;
          if more && |req.payload| != BlockBytes(raw % 8) then answer == NeedsReply && ReplyOf(a') == UploadReply(128, [])
          else if !IsInOrder(a.transfer, req, raw) then answer == NeedsReply && ReplyOf(a') == UploadReply(136, [])
          else if ExceedsBuffer(req, BlockOffset(raw) + |req.payload|, capacity) then answer == NeedsReply && ReplyOf(a') == tooLarge
          else if more then answer == NeedsReply && ReplyOf(a') == UploadReply(95, [EchoedBlock(raw, szx)])
          else
            answer == Complete && forall resp: UploadReply ::
              Finished(a'.transfer, resp) == resp.(options := resp.options + [EchoedBlock(raw, szx)])
  {
    match FirstWith(27, req.options)
    case None =>
      Block1InNumbers(req);
      hide FirstWith, Block1Of, FindUint;
    case Some(opt) =>
      AcceptedInNumbers(a.transfer, szx, req, opt);
      hide TransferStep, FirstWith, FindUint, IsInOrder, BlockOffset, BlockBytes, EchoedBlock, Finished, ContinueReply, RejectReply;
  }
}

/** `UploadTransfer` and `UploadAssembler`: receiving a body in blocks (section 2.5 of RFC 7959). */
module Upload {
  import opened Bytes
  import opened CoapOption
  import opened Pdu
  import opened Block
  import opened OptionsIteration

  const CONTINUE: Code := 95
  const BAD_REQUEST: Code := 128
  const REQUEST_ENTITY_INCOMPLETE: Code := 136
  const REQUEST_ENTITY_TOO_LARGE: Code := 141

  datatype Phase = Idle | Receiving | Done
  datatype Status = Intermediate | Final | Rejected

  datatype Request = Request(sender: Endpoint, options: seq<OptionView>, payload: Span)

  /** The fields of `UploadTransfer`. */
  datatype Transfer = Transfer(
    client: Endpoint, data: Span, offset: nat, prevOffset: nat, expectedOffset: nat,
    replyBlock: BlockOption, rejectCode: Code, phase: Phase, echoBlock1: bool)

  /** The Block1 option of a request: absent, malformed or a block. */
  datatype Block1 = Absent | Malformed | Present(block: BlockOption)

  function Block1Of(req: Request): Block1 {
    match FirstWith(BLOCK1, req.options)
    case None => Absent
    case Some(OptionView(_, Uint(raw))) =>
      (match Decode(raw) case None => Malformed case Some(block) => Present(block))
    case Some(_) => Malformed
  }

  /** A block the encoding rules allow: all but the last have the size their exponent says. */
  predicate IsWellFormedBlock(req: Request) {
    Block1Of(req).Present? && (Block1Of(req).block.more ==> |req.payload| == Size(Block1Of(req).block.szx))
  }

  function OffsetOf(req: Request): nat {
    if Block1Of(req).Present? then ByteOffset(Block1Of(req).block) else 0
  }

  predicate HasMore(req: Request) {
    Block1Of(req).Present? && Block1Of(req).block.more
  }

  predicate Restarts(req: Request) {
    Block1Of(req).Present? && Block1Of(req).block.num == 0
  }

  predicate InSequence(t: Transfer, req: Request) {
    t.phase == Receiving && t.client == req.sender && OffsetOf(req) == t.expectedOffset
  }

  predicate Repeats(t: Transfer, req: Request) {
    && t.phase != Idle && t.client == req.sender && OffsetOf(req) == t.prevOffset
    && OffsetOf(req) + |req.payload| == t.expectedOffset
  }

  predicate AcceptsBlock(t: Transfer, req: Request) {
    IsWellFormedBlock(req) && (Restarts(req) || InSequence(t, req) || Repeats(t, req))
  }

  function Smaller(a: Exponent, b: Exponent): Exponent {
    if a < b then a else b
  }

  /** The fields after a request, and the answer. */
  function TransferStep(t: Transfer, preferredSzx: Exponent, req: Request): (Transfer, Status) {
    if Block1Of(req).Absent? then
      (t.(data := req.payload, offset := 0, echoBlock1 := false,
          phase := Idle, prevOffset := 0, expectedOffset := |req.payload|), Final)
    else if !AcceptsBlock(t, req) then
      (t.(data := [], offset := 0, echoBlock1 := false,
          rejectCode := if IsWellFormedBlock(req) then REQUEST_ENTITY_INCOMPLETE else BAD_REQUEST), Rejected)
    else
      var block := Block1Of(req).block;
      (Transfer(req.sender, req.payload, OffsetOf(req), OffsetOf(req), OffsetOf(req) + |req.payload|,
        BlockOption(block.num, block.more, Smaller(block.szx, preferredSzx)), t.rejectCode,
        if block.more then Receiving else Done, true),
       if block.more then Intermediate else Final)
  }

  /** A response without payload. */
  datatype UploadReply = UploadReply(code: Code, options: seq<OptionView>)

  function Block1Option(block: BlockOption): OptionView {
    OptionView(BLOCK1, Uint(Encode(block)))
  }

  function ContinueReply(t: Transfer): UploadReply {
    UploadReply(CONTINUE, [Block1Option(t.replyBlock)])
  }

  function RejectReply(t: Transfer): UploadReply {
    UploadReply(t.rejectCode, [])
  }

  /** The application's final response, with the block of a block-wise request. */
  function Finished(t: Transfer, resp: UploadReply): UploadReply {
    if t.echoBlock1 then resp.(options := resp.options + [Block1Option(t.replyBlock)]) else resp
  }

  /** The fields that every request starts by overwriting. */
  function Scratched(t: Transfer, req: Request): Transfer {
    t.(data := req.payload, offset := 0, echoBlock1 := false)
  }

  /** What a request makes of the fields does not depend on those it overwrites first. */
  lemma ScratchIsForgotten(t: Transfer, preferredSzx: Exponent, req: Request)
    ensures TransferStep(Scratched(t, req), preferredSzx, req) == TransferStep(t, preferredSzx, req)
    ensures Block1Of(req).Absent? ==>
      (TransferStep(t, preferredSzx, req)
        == (Scratched(t, req).(phase := Idle, prevOffset := 0, expectedOffset := |req.payload|), Final))
    ensures Block1Of(req).Malformed? ==>
      (TransferStep(t, preferredSzx, req) == (Scratched(t, req).(data := [], rejectCode := BAD_REQUEST), Rejected))
  {
    hide Block1Of, Size, ByteOffset;
  }

  class UploadTransfer {
    var client: Endpoint
    var data: Span
    var offset: nat
    var prevOffset: nat
    var expectedOffset: nat
    var replyBlock: BlockOption
    var rejectCode: Code
    var phase: Phase
    var echoBlock1: bool
    const preferredSzx: Exponent

    ghost function State(): Transfer
      reads this
    {
      Transfer(client, data, offset, prevOffset, expectedOffset, replyBlock, rejectCode, phase, echoBlock1)
    }

    constructor (preferredBlockSize: nat)
      ensures phase == Idle && preferredSzx == SzxFor(preferredBlockSize)
    {
      client := seq(32, _ => 0);
      data, offset, prevOffset, expectedOffset := [], 0, 0, 0;
      replyBlock, rejectCode, phase, echoBlock1 := BlockOption(0, false, 0), EMPTY_CODE, Idle, false;
      var szx := SzxForSize(preferredBlockSize);
      preferredSzx := szx;
    }

    method Accept(req: Request) returns (status: Status)
      modifies this
      ensures (State(), status) == TransferStep(old(State()), preferredSzx, req)
    {
      ScratchIsForgotten(State(), preferredSzx, req);
      hide Decode, FirstWith, TransferStep;
      ghost var before := State();
      data, offset, echoBlock1 := req.payload, 0, false;
      assert State() == Scratched(before, req);
      var opt := FirstWith(BLOCK1, req.options);
      if opt.None? {
        phase, prevOffset, expectedOffset := Idle, 0, |req.payload|;
        return Final;
      }
      var decoded := if opt.value.value.Uint? then Decode(opt.value.value.number) else None;
      if decoded.None? {
        status := RejectWith(BAD_REQUEST);
        return;
      }
      status := AcceptBlock(decoded.value, req);
    }

    /** The rest of `Accept`, for a request with a block. */
    method AcceptBlock(block: BlockOption, req: Request) returns (status: Status)
      requires Block1Of(req) == Present(block) && data == req.payload && offset == 0 && !echoBlock1
      modifies this
      ensures (State(), status) == TransferStep(old(State()), preferredSzx, req)
    {
      hide Block1Of, Size, ByteOffset;
      if block.more && |req.payload| != Size(block.szx) {
        status := RejectWith(BAD_REQUEST);
        return;
      }
      var at := ByteOffset(block);
      var restart := block.num == 0;
      var inSequence := phase == Receiving && client == req.sender && at == expectedOffset;
      var duplicate := phase != Idle && client == req.sender && at == prevOffset
        && at + |req.payload| == expectedOffset;
      if !restart && !inSequence && !duplicate {
        status := RejectWith(REQUEST_ENTITY_INCOMPLETE);
        return;
      }
      status := TakeBlock(block, req, at, restart, duplicate);
    }

    /** An accepted block. */
    method TakeBlock(block: BlockOption, req: Request, at: nat, restart: bool, duplicate: bool) returns (status: Status)
      requires Block1Of(req) == Present(block) && data == req.payload && AcceptsBlock(State(), req)
      requires at == ByteOffset(block) && restart == (block.num == 0) && duplicate == Repeats(State(), req)
      modifies this
      ensures (State(), status) == TransferStep(old(State()), preferredSzx, req)
    {
      hide Block1Of, Size, ByteOffset, IsWellFormedBlock;
      echoBlock1 := true;
      replyBlock := BlockOption(block.num, block.more, Smaller(block.szx, preferredSzx));
      offset := at;
      if restart {
        client := req.sender;
      }
      if !duplicate {
        prevOffset := at;
        expectedOffset := at + |req.payload|;
      }
      phase := if block.more then Receiving else Done;
      return if block.more then Intermediate else Final;
    }

    method RejectWith(code: Code) returns (status: Status)
      modifies this`rejectCode, this`data
      ensures rejectCode == code && data == [] && status == Rejected
    {
      rejectCode, data := code, [];
      return Rejected;
    }

    method Continue() returns (resp: UploadReply)
      ensures resp == ContinueReply(State())
    {
      resp := UploadReply(CONTINUE, []);
      resp := resp.(options := resp.options + [OptionView(BLOCK1, Uint(Encode(replyBlock)))]);
    }

    method Reject() returns (resp: UploadReply)
      ensures resp == RejectReply(State())
    {
      return UploadReply(rejectCode, []);
    }

    method Finish(resp0: UploadReply) returns (resp: UploadReply)
      ensures resp == Finished(State(), resp0)
    {
      resp := resp0;
      if echoBlock1 {
        resp := resp.(options := resp.options + [OptionView(BLOCK1, Uint(Encode(replyBlock)))]);
      }
    }

    method Reset()
      modifies this
      ensures State() == old(State()).(phase := Idle, prevOffset := 0, expectedOffset := 0)
    {
      phase, prevOffset, expectedOffset := Idle, 0, 0;
    }
  }

  // ----------------------------------------------------------- the assembler

  datatype ReplyKind = ReplyContinue | ReplyRejected | ReplyTooLarge
  datatype Answer = Complete | NeedsReply

  datatype Assembler = Assembler(transfer: Transfer, buffer: Span, bodySize: nat, replyKind: ReplyKind)

  function ResetTransfer(t: Transfer): Transfer {
    t.(phase := Idle, prevOffset := 0, expectedOffset := 0)
  }

  function Overwrite(buffer: Span, offset: nat, data: Span): Span
    requires offset + |data| <= |buffer|
  {
    buffer[..offset] + data + buffer[offset + |data|..]
  }

  lemma OverwriteNothing(buffer: Span, offset: nat, data: Span)
    requires offset + |data| <= |buffer|
    ensures Overwrite(buffer, offset, data[..0]) == buffer
  {
  }

  lemma OverwriteOneMore(buffer: Span, offset: nat, data: Span, i: nat)
    requires i < |data| && offset + |data| <= |buffer|
    ensures Overwrite(buffer, offset, data[..i])[offset + i := data[i]] == Overwrite(buffer, offset, data[..i + 1])
  {
  }

  predicate FitsBuffer(t: Transfer, req: Request, capacity: nat) {
    && t.offset + |t.data| <= capacity
    && (FindUint(req.options, SIZE1).Some? ==> FindUint(req.options, SIZE1).value <= capacity)
  }

  function AssemblerStep(a: Assembler, preferredSzx: Exponent, req: Request): (Assembler, Answer) {
    var (t, status) := TransferStep(a.transfer, preferredSzx, req);
    if status.Rejected? then (a.(transfer := t, replyKind := ReplyRejected), NeedsReply)
    else if !FitsBuffer(t, req, |a.buffer|) then (a.(transfer := ResetTransfer(t), replyKind := ReplyTooLarge), NeedsReply)
    else
      var buffer := Overwrite(a.buffer, t.offset, t.data);
      if status.Final? then (Assembler(t, buffer, t.offset + |t.data|, a.replyKind), Complete)
      else (Assembler(t, buffer, t.offset + |t.data|, ReplyContinue), NeedsReply)
  }

  /** The reply for the kind that the latest request has left behind. */
  function ReplyOf(a: Assembler): UploadReply {
    match a.replyKind
    case ReplyContinue => ContinueReply(a.transfer)
    case ReplyRejected => RejectReply(a.transfer)
    case ReplyTooLarge => UploadReply(REQUEST_ENTITY_TOO_LARGE, [OptionView(SIZE1, Uint(ToU32(|a.buffer|)))])
  }

  class UploadAssembler {
    const transfer: UploadTransfer
    const buffer: array<byte>
    var bodySize: nat
    var replyKind: ReplyKind

    ghost function State(): Assembler
      reads this, transfer, buffer
    {
      Assembler(transfer.State(), buffer[..], bodySize, replyKind)
    }

    constructor (buffer: array<byte>, preferredBlockSize: nat)
      ensures this.buffer == buffer && fresh(transfer) && transfer.phase == Idle && bodySize == 0
      ensures transfer.preferredSzx == SzxFor(preferredBlockSize)
    {
      transfer := new UploadTransfer(preferredBlockSize);
      this.buffer := buffer;
      bodySize, replyKind := 0, ReplyContinue;
    }

    method Accept(req: Request) returns (answer: Answer)
      modifies this, transfer, buffer
      ensures (State(), answer) == AssemblerStep(old(State()), transfer.preferredSzx, req)
    {
      hide TransferStep, FindUint;
      var status := transfer.Accept(req);
      if status == Rejected {
        replyKind := ReplyRejected;
        return NeedsReply;
      }
      var announced := FindUint(req.options, SIZE1);
      if announced.Some? && announced.value > buffer.Length {
        transfer.Reset();
        replyKind := ReplyTooLarge;
        return NeedsReply;
      }
      var end := transfer.offset + |transfer.data|;
      if end > buffer.Length {
        transfer.Reset();
        replyKind := ReplyTooLarge;
        return NeedsReply;
      }
      CopyInto(transfer.offset, transfer.data);
      bodySize := end;
      if status == Final {
        return Complete;
      }
      replyKind := ReplyContinue;
      return NeedsReply;
    }

    /** `memcpy(buffer + offset, data, size)`. */
    method CopyInto(offset: nat, data: Span)
      requires offset + |data| <= buffer.Length
      modifies buffer
      ensures buffer[..] == Overwrite(old(buffer[..]), offset, data)
    {
      ghost var before := buffer[..];
      OverwriteNothing(before, offset, data);
      for i := 0 to |data|
        invariant buffer[..] == Overwrite(before, offset, data[..i])
      {
        OverwriteOneMore(before, offset, data, i);
        ghost var now := buffer[..];
        buffer[offset + i] := data[i];
        assert buffer[..] == now[offset + i := data[i]];
      }
      assert data[..|data|] == data;
    }

    method Reset()
      modifies this`bodySize, transfer
      ensures State() == old(State()).(transfer := ResetTransfer(old(State()).transfer), bodySize := 0)
    {
      transfer.Reset();
      bodySize := 0;
    }

    method Reply() returns (resp: UploadReply)
      ensures resp == ReplyOf(State())
    {
      match replyKind {
        case ReplyContinue => resp := transfer.Continue();
        case ReplyRejected => resp := transfer.Reject();
        case ReplyTooLarge =>
          resp := UploadReply(REQUEST_ENTITY_TOO_LARGE, []);
          resp := resp.(options := resp.options + [OptionView(SIZE1, Uint(ToU32(buffer.Length)))]);
      }
    }

    method Body() returns (body: Span)
      requires bodySize <= buffer.Length
      ensures body == State().buffer[..bodySize]
    {
      body := buffer[..bodySize];
    }
  }
}

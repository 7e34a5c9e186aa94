/** A client that follows section 2.5 of RFC 7959 gets its body across, whatever else arrives. */
module UploadDelivery {
  import opened Bytes
  import opened CoapOption
  import opened Pdu
  import opened Block
  import opened Upload

  /** The client's body and the block it sent last: `body[pos..pos + len]` with exponent `szx`. */
  datatype Client = Client(endpoint: Endpoint, body: Span, started: bool, pos: nat, len: nat, szx: Exponent)

  predicate IsFinished(c: Client) {
    c.started && c.pos + c.len == |c.body|
  }

  function BlockLength(body: Span, pos: nat, szx: nat): nat
    requires pos <= |body|
  {
    if |body| - pos < Size(szx) then |body| - pos else Size(szx)
  }

  /** A request of the client with the block at `pos`; Size1 is absent or within the capacity. */
  predicate Carries(req: Request, c: Client, pos: nat, szx: Exponent, capacity: nat)
    requires pos <= |c.body|
  {
    var end := pos + BlockLength(c.body, pos, szx);
    && szx <= SZX_MAX && Quotient(pos, Size(szx)) <= NUM_MAX
    && req.sender == c.endpoint
    && Block1Of(req) == Present(BlockOption(Quotient(pos, Size(szx)), end < |c.body|, szx))
    && req.payload == c.body[pos..end]
    && (FindUint(req.options, SIZE1).Some? ==> FindUint(req.options, SIZE1).value <= capacity)
  }

  datatype Event =
    | Next(req: Request, szx: Exponent)
    | Again(req: Request)
    | Other(req: Request)

  /** A malformed Block1 request of anyone, or a block other than the first of somebody else. */
  predicate IsHarmless(c: Client, req: Request) {
    && !Block1Of(req).Absent?
    && (IsWellFormedBlock(req) ==> req.sender != c.endpoint && !Restarts(req))
  }

  /** The client sends its blocks in order, never with a greater block size than before. */
  predicate IsLegal(c: Client, e: Event, capacity: nat) {
    match e
    case Next(req, szx) =>
      && !IsFinished(c) && (c.started ==> c.pos + c.len <= |c.body| && szx <= c.szx)
      && Carries(req, c, if c.started then c.pos + c.len else 0, szx, capacity)
    case Again(req) => c.started && c.pos <= |c.body| && Carries(req, c, c.pos, c.szx, capacity)
    case Other(req) => IsHarmless(c, req)
  }

  function Advance(c: Client, szx: Exponent): Client {
    var pos := if c.started then c.pos + c.len else 0;
    if pos > |c.body| then c
    else c.(started := true, pos := pos, len := BlockLength(c.body, pos, szx), szx := szx)
  }

  /** The server, the client, and the answer and reply to the client's latest request. */
  datatype Session = Session(server: Assembler, client: Client, answer: Answer, reply: UploadReply)

  function Play(s: Session, preferred: Exponent, e: Event): Session {
    var (server, answer) := AssemblerStep(s.server, preferred, e.req);
    match e
    case Next(_, szx) => Session(server, Advance(s.client, szx), answer, ReplyOf(server))
    case Again(_) => Session(server, s.client, answer, ReplyOf(server))
    case Other(_) => s.(server := server)
  }

  function PlayAll(s: Session, preferred: Exponent, events: seq<Event>): Session
    decreases |events|
  {
    if events == [] then s else PlayAll(Play(s, preferred, events[0]), preferred, events[1..])
  }

  predicate AllLegal(s: Session, preferred: Exponent, events: seq<Event>)
    decreases |events|
  {
    events != [] ==>
      && IsLegal(s.client, events[0], |s.server.buffer|)
      && AllLegal(Play(s, preferred, events[0]), preferred, events[1..])
  }

  /** The last block sent starts where its exponent says, and carries as much as it can. */
  predicate IsAligned(c: Client) {
    && c.pos <= |c.body| && c.szx <= SZX_MAX
    && c.len == BlockLength(c.body, c.pos, c.szx) && c.pos % Size(c.szx) == 0
  }

  /** The server holds exactly what the client has sent so far and waits for what follows. */
  predicate InStep(s: Session, preferred: Exponent) {
    var t, c := s.server.transfer, s.client;
    && |c.body| <= |s.server.buffer|
    && (c.started ==>
      && IsAligned(c)
      && t.client == c.endpoint && t.prevOffset == c.pos && t.expectedOffset == c.pos + c.len
      && t.phase == (if IsFinished(c) then Done else Receiving)
      && t.replyBlock == BlockOption(ToU32(Quotient(c.pos, Size(c.szx))), !IsFinished(c), Smaller(c.szx, preferred))
      && (!IsFinished(c) ==> s.reply == ContinueReply(t))
      && s.server.bodySize == c.pos + c.len
      && s.server.buffer[..c.pos + c.len] == c.body[..c.pos + c.len]
      && s.answer == (if IsFinished(c) then Complete else NeedsReply))
  }

  lemma BlockOffset(pos: nat, szx: nat)
    requires pos % Size(szx) == 0
    ensures Quotient(pos, Size(szx)) * Size(szx) == pos
    ensures Quotient(pos, Size(szx)) == 0 <==> pos == 0
  {
    hide Size;
  }

  /** Any smaller size can be used for the following block, in particular the advertised one. */
  lemma NextIsAligned(c: Client, szx: Exponent)
    requires c.started ==> IsAligned(c) && szx <= c.szx
    requires !IsFinished(c)
    ensures c.started ==> c.len == Size(c.szx) && c.pos + c.len < |c.body|
    ensures (if c.started then c.pos + c.len else 0) % Size(szx) == 0
  {
    hide Size;
    if c.started {
      NextMultiple(c.pos, Size(c.szx));
      Renumber(c.pos + c.len, c.szx, szx);
    }
  }

  lemma NextMultiple(pos: nat, size: nat)
    requires size > 0 && pos % size == 0
    ensures (pos + size) % size == 0
  {
    var n := pos / size;
    assert pos + size == (n + 1) * size;
    DivExact(n + 1, size);
  }

  /** What the client's block at `c.pos` makes of the transfer. */
  lemma BlockFields(t: Transfer, preferred: Exponent, c: Client, req: Request, capacity: nat)
    requires c.started && IsAligned(c) && Carries(req, c, c.pos, c.szx, capacity)
    requires c.pos > 0 ==> InSequence(t, req) || Repeats(t, req)
    ensures TransferStep(t, preferred, req) ==
      (Transfer(c.endpoint, c.body[c.pos..c.pos + c.len], c.pos, c.pos, c.pos + c.len,
        BlockOption(ToU32(Quotient(c.pos, Size(c.szx))), !IsFinished(c), Smaller(c.szx, preferred)), t.rejectCode,
        if IsFinished(c) then Done else Receiving, true), if IsFinished(c) then Final else Intermediate)
  {
    hide Size, Block1Of, Quotient, InSequence, Repeats, ToU32;
    BlockOffset(c.pos, c.szx);
    NumberStays(Quotient(c.pos, Size(c.szx)));
  }

  lemma NumberStays(number: nat)
    requires number <= NUM_MAX
    ensures ToU32(number) == number
  {
  }

  /** The client's block at `c.pos` is accepted and leaves the two in step. */
  lemma {:induction false} BlockIsAccepted(a: Assembler, preferred: Exponent, c: Client, req: Request)
    requires c.started && IsAligned(c) && Carries(req, c, c.pos, c.szx, |a.buffer|)
    requires |c.body| <= |a.buffer|
    requires c.pos > 0 ==> InSequence(a.transfer, req) || Repeats(a.transfer, req)
    requires a.buffer[..c.pos] == c.body[..c.pos]
    ensures var (a', answer) := AssemblerStep(a, preferred, req); InStep(Session(a', c, answer, ReplyOf(a')), preferred)
  {
    hide TransferStep, AssemblerStep, FitsBuffer, Size, Block1Of, Quotient, InSequence, Repeats, ToU32, ContinueReply, Smaller;
    BlockFields(a.transfer, preferred, c, req, |a.buffer|);
    BlockFits(a, preferred, c, req);
    AssembledBlock(a, preferred, req);
    var end := c.pos + c.len;
    BufferGrows(a.buffer, c.body, c.pos, end);
  }

  lemma BlockFits(a: Assembler, preferred: Exponent, c: Client, req: Request)
    requires c.pos <= |c.body| <= |a.buffer| && Carries(req, c, c.pos, c.szx, |a.buffer|)
    requires var t := TransferStep(a.transfer, preferred, req).0; t.offset + |t.data| <= |c.body|
    ensures FitsBuffer(TransferStep(a.transfer, preferred, req).0, req, |a.buffer|)
  {
    hide TransferStep, Size, Block1Of, Quotient, BlockLength;
  }

  /** The assembler after a block that is accepted and fits. */
  lemma AssembledBlock(a: Assembler, preferred: Exponent, req: Request)
    requires !TransferStep(a.transfer, preferred, req).1.Rejected?
    requires FitsBuffer(TransferStep(a.transfer, preferred, req).0, req, |a.buffer|)
    ensures var (t, status) := TransferStep(a.transfer, preferred, req);
      && t.offset + |t.data| <= |a.buffer|
      && AssemblerStep(a, preferred, req) ==
        (Assembler(t, Overwrite(a.buffer, t.offset, t.data), t.offset + |t.data|,
          if status.Final? then a.replyKind else ReplyContinue), if status.Final? then Complete else NeedsReply)
  {
    hide TransferStep, Overwrite;
  }

  lemma BufferGrows(buffer: Span, body: Span, pos: nat, end: nat)
    requires pos <= end <= |body| <= |buffer| && buffer[..pos] == body[..pos]
    ensures |Overwrite(buffer, pos, body[pos..end])| == |buffer|
    ensures Overwrite(buffer, pos, body[pos..end])[..end] == body[..end]
  {
    assert Overwrite(buffer, pos, body[pos..end])[..end] == buffer[..pos] + body[pos..end];
    assert body[..end] == body[..pos] + body[pos..end];
  }

  lemma OffsetOfBlock(req: Request, c: Client, pos: nat, szx: Exponent, capacity: nat)
    requires pos <= |c.body| && Carries(req, c, pos, szx, capacity) && pos % Size(szx) == 0
    ensures OffsetOf(req) == pos
  {
    hide Size, Block1Of, Quotient;
    BlockOffset(pos, szx);
  }

  lemma SameBlock(req: Request, c: Client, c': Client, pos: nat, szx: Exponent, capacity: nat)
    requires c.body == c'.body && c.endpoint == c'.endpoint && pos <= |c.body|
    requires Carries(req, c, pos, szx, capacity)
    ensures Carries(req, c', pos, szx, capacity)
  {
  }

  lemma NextKeepsStep(s: Session, preferred: Exponent, req: Request, szx: Exponent)
    requires InStep(s, preferred) && IsLegal(s.client, Next(req, szx), |s.server.buffer|)
    ensures InStep(Play(s, preferred, Next(req, szx)), preferred)
  {
    hide Size, Carries, AssemblerStep;
    var c := s.client;
    var c' := Advance(c, szx);
    NextIsAligned(c, szx);
    OffsetOfBlock(req, c, c'.pos, szx, |s.server.buffer|);
    SameBlock(req, c, c', c'.pos, szx, |s.server.buffer|);
    hide OffsetOf;
    BlockIsAccepted(s.server, preferred, c', req);
  }

  lemma AgainKeepsStep(s: Session, preferred: Exponent, req: Request)
    requires InStep(s, preferred) && IsLegal(s.client, Again(req), |s.server.buffer|)
    ensures InStep(Play(s, preferred, Again(req)), preferred)
  {
    var c := s.client;
    OffsetOfBlock(req, c, c.pos, c.szx, |s.server.buffer|);
    hide Carries, AssemblerStep, Size, OffsetOf;
    BlockIsAccepted(s.server, preferred, c, req);
  }

  lemma OtherKeepsStep(s: Session, preferred: Exponent, req: Request)
    requires InStep(s, preferred) && IsLegal(s.client, Other(req), |s.server.buffer|)
    ensures InStep(Play(s, preferred, Other(req)), preferred)
  {
    hide AssemblerStep, IsHarmless, BlockLength, Size;
    HarmlessIsRejected(s.server, preferred, s.client, req);
  }

  /** Every legal event keeps them in step. */
  lemma {:induction false} EventKeepsStep(s: Session, preferred: Exponent, e: Event)
    requires InStep(s, preferred) && IsLegal(s.client, e, |s.server.buffer|)
    ensures InStep(Play(s, preferred, e), preferred)
  {
    hide InStep, IsLegal, Play;
    match e
    case Next(req, szx) => NextKeepsStep(s, preferred, req, szx);
    case Again(req) => AgainKeepsStep(s, preferred, req);
    case Other(req) => OtherKeepsStep(s, preferred, req);
  }

  lemma HarmlessIsRejected(a: Assembler, preferred: Exponent, c: Client, req: Request)
    requires IsHarmless(c, req) && (c.started ==> a.transfer.client == c.endpoint)
    ensures |AssemblerStep(a, preferred, req).0.buffer| == |a.buffer|
    ensures c.started ==>
      var a' := AssemblerStep(a, preferred, req).0;
      && a' == a.(transfer := a'.transfer, replyKind := a'.replyKind)
      && (a'.transfer.phase, a'.transfer.client) == (a.transfer.phase, a.transfer.client)
      && (a'.transfer.prevOffset, a'.transfer.expectedOffset) == (a.transfer.prevOffset, a.transfer.expectedOffset)
      && a'.transfer.replyBlock == a.transfer.replyBlock
  {
    hide Block1Of, Size;
  }

  /** The whole schedule keeps them in step. */
  lemma {:induction false} ScheduleKeepsStep(s: Session, preferred: Exponent, events: seq<Event>)
    requires InStep(s, preferred) && AllLegal(s, preferred, events)
    ensures InStep(PlayAll(s, preferred, events), preferred)
    decreases |events|
  {
    hide InStep, Play, IsLegal;
    if events != [] {
      EventKeepsStep(s, preferred, events[0]);
      ScheduleKeepsStep(Play(s, preferred, events[0]), preferred, events[1..]);
    }
  }

  function NewSession(server: Assembler, endpoint: Endpoint, body: Span): Session {
    Session(server, Client(endpoint, body, false, 0, 0, 0), NeedsReply, UploadReply(0, []))
  }

  /**
   * From any state of the server, once a legal schedule has got the client through its
   * body, its latest request was answered kComplete and `Body()` is its body. Until then
   * every request of the client is answered 2.31 with Block1: the request's number, M, and the smaller of
   * the client's exponent and the one the server prefers.
   */
  lemma BodyIsDelivered(server: Assembler, endpoint: Endpoint, body: Span, preferred: Exponent, events: seq<Event>)
    requires |body| <= |server.buffer|
    requires AllLegal(NewSession(server, endpoint, body), preferred, events)
    ensures var end := PlayAll(NewSession(server, endpoint, body), preferred, events);
      var c := end.client;
      && c.body == body
      && (IsFinished(c) ==>
        && end.answer == Complete
        && end.server.bodySize == |body| <= |end.server.buffer|
        && end.server.buffer[..end.server.bodySize] == body)
      && (c.started && !IsFinished(c) ==>
        && end.answer == NeedsReply
        && var next := BlockOption(ToU32(Quotient(c.pos, Size(c.szx))), true, Smaller(c.szx, preferred));
          end.reply == UploadReply(95, [OptionView(27, Uint(Encode(next)))]))
  {
    var start := NewSession(server, endpoint, body);
    ScheduleKeepsStep(start, preferred, events);
    SameClient(start, preferred, events);
    var end := PlayAll(start, preferred, events);
    assert end.client.body[..|body|] == body;
    hide PlayAll, AllLegal, Encode, Quotient, Size;
  }

  lemma {:induction false} SameClient(s: Session, preferred: Exponent, events: seq<Event>)
    ensures PlayAll(s, preferred, events).client.body == s.client.body
    decreases |events|
  {
    hide AssemblerStep;
    if events != [] {
      SameClient(Play(s, preferred, events[0]), preferred, events[1..]);
    }
  }
}

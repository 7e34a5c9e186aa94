/** What an upload keeps over every run of arbitrary requests and resets. */
module UploadSafety {
  import opened Bytes
  import opened Pdu
  import opened Block
  import opened Upload

  datatype Op = Deliver(req: Request) | DoReset

  function Step(a: Assembler, szx: Exponent, op: Op): Assembler {
    match op
    case Deliver(req) => AssemblerStep(a, szx, req).0
    case DoReset => a.(transfer := ResetTransfer(a.transfer), bodySize := 0)
  }

  function Run(a: Assembler, szx: Exponent, history: seq<Op>): Assembler {
    if history == [] then a
    else Step(Run(a, szx, history[..|history| - 1]), szx, history[|history| - 1])
  }

  /** The assembler accepted the block (it neither rejected it nor found it too large). */
  predicate IsAccepted(a: Assembler, szx: Exponent, req: Request) {
    var (t, status) := TransferStep(a.transfer, szx, req);
    !status.Rejected? && FitsBuffer(t, req, |a.buffer|)
  }

  predicate AreDeliveries(history: seq<Op>, picks: seq<nat>) {
    forall k :: 0 <= k < |picks| ==> picks[k] < |history| && history[picks[k]].Deliver?
  }

  /** The payloads of the picked requests, one after the other. */
  function Concat(history: seq<Op>, picks: seq<nat>): Span
    requires AreDeliveries(history, picks)
  {
    if picks == [] then []
    else Concat(history, picks[..|picks| - 1]) + history[picks[|picks| - 1]].req.payload
  }

  /** The `k`-th picked request continues, without a gap, what the earlier ones carry. */
  predicate Continues(start: Assembler, szx: Exponent, history: seq<Op>, picks: seq<nat>, client: Endpoint, k: nat)
    requires k < |picks| && AreDeliveries(history, picks)
  {
    var req := history[picks[k]].req;
    && (k > 0 ==> picks[k - 1] < picks[k])
    && req.sender == client
    && OffsetOf(req) == |Concat(history, picks[..k])|
    && (k + 1 < |picks| ==> HasMore(req))
    && IsAccepted(Run(start, szx, history[..picks[k]]), szx, req)
  }

  /**
   * `picks` are the positions of accepted requests of one client, in the order they came,
   * whose payloads follow each other from offset 0 on without a gap; only the last may lack the M bit.
   */
  predicate IsGapFree(start: Assembler, szx: Exponent, history: seq<Op>, picks: seq<nat>, client: Endpoint) {
    AreDeliveries(history, picks) && forall k :: 0 <= k < |picks| ==> Continues(start, szx, history, picks, client, k)
  }

  lemma {:induction false} ConcatExtends(history: seq<Op>, op: Op, picks: seq<nat>)
    requires AreDeliveries(history, picks)
    ensures AreDeliveries(history + [op], picks) && Concat(history + [op], picks) == Concat(history, picks)
  {
    if picks != [] {
      ConcatExtends(history, op, picks[..|picks| - 1]);
    }
  }

  /** Picks stay gap-free as the run goes on. */
  lemma GapFreeExtends(start: Assembler, szx: Exponent, history: seq<Op>, op: Op, picks: seq<nat>, client: Endpoint)
    requires IsGapFree(start, szx, history, picks, client)
    ensures IsGapFree(start, szx, history + [op], picks, client)
    ensures Concat(history + [op], picks) == Concat(history, picks)
  {
    hide Run, IsAccepted, OffsetOf, HasMore;
    ConcatExtends(history, op, picks);
    forall k | 0 <= k < |picks| ensures Continues(start, szx, history + [op], picks, client, k) {
      assert Continues(start, szx, history, picks, client, k);
      ConcatExtends(history, op, picks[..k]);
      assert (history + [op])[..picks[k]] == history[..picks[k]];
    }
  }

  /** A prefix of gap-free picks is gap-free. */
  lemma GapFreePrefix(start: Assembler, szx: Exponent, history: seq<Op>, picks: seq<nat>, client: Endpoint, n: nat)
    requires IsGapFree(start, szx, history, picks, client) && n <= |picks|
    ensures IsGapFree(start, szx, history, picks[..n], client)
    ensures n < |picks| ==> AllMore(history, picks[..n])
  {
    hide Run, IsAccepted, OffsetOf, HasMore;
    forall k | 0 <= k < n ensures Continues(start, szx, history, picks[..n], client, k) {
      assert Continues(start, szx, history, picks, client, k);
      assert picks[..n][..k] == picks[..k];
    }
    if n < |picks| {
      forall k | 0 <= k < n ensures HasMore(history[picks[..n][k]].req) {
        assert Continues(start, szx, history, picks, client, k);
      }
    }
  }

  predicate AllMore(history: seq<Op>, picks: seq<nat>)
    requires AreDeliveries(history, picks)
  {
    forall k :: 0 <= k < |picks| ==> HasMore(history[picks[k]].req)
  }

  /** A new block goes behind gap-free picks that all have the M bit. */
  lemma GapFreeAppend(start: Assembler, szx: Exponent, history: seq<Op>, req: Request, kept: seq<nat>, client: Endpoint)
    requires IsGapFree(start, szx, history, kept, client) && AllMore(history, kept)
    requires req.sender == client && OffsetOf(req) == |Concat(history, kept)|
    requires IsAccepted(Run(start, szx, history), szx, req)
    ensures var history' := history + [Deliver(req)];
      var picks := kept + [|history|];
      IsGapFree(start, szx, history', picks, client)
      && Concat(history', picks) == Concat(history, kept) + req.payload
      && Concat(history', picks[..|picks| - 1]) == Concat(history, kept)
  {
    hide Run, IsAccepted, OffsetOf, HasMore;
    var history' := history + [Deliver(req)];
    var picks := kept + [|history|];
    GapFreeExtends(start, szx, history, Deliver(req), kept, client);
    assert history'[..|history|] == history;
    assert picks[..|kept|] == kept;
    forall k | 0 <= k < |picks| ensures Continues(start, szx, history', picks, client, k) {
      if k < |kept| {
        assert Continues(start, szx, history', kept, client, k);
        assert picks[..k] == kept[..k];
        assert HasMore(history[kept[k]].req);
      }
    }
  }

  /** What the fields say about the requests seen so far. */
  predicate Inv(start: Assembler, szx: Exponent, history: seq<Op>, a: Assembler, picks: seq<nat>) {
    && |a.buffer| == |start.buffer|
    && a.bodySize <= |a.buffer|
    && (a.transfer.phase != Idle ==>
      && picks != [] && IsGapFree(start, szx, history, picks, a.transfer.client)
      && a.transfer.expectedOffset == |Concat(history, picks)| <= |a.buffer|
      && a.transfer.prevOffset == |Concat(history, picks[..|picks| - 1])|
      && a.buffer[..a.transfer.expectedOffset] == Concat(history, picks)
      && (a.transfer.phase == Receiving ==> AllMore(history, picks)))
  }

  predicate IsFresh(start: Assembler) {
    start.transfer.phase == Idle && start.bodySize <= |start.buffer|
  }

  /** The picks that a newly accepted block keeps. */
  function Kept(a: Assembler, req: Request, picks: seq<nat>): seq<nat> {
    if Block1Of(req).Absent? || Restarts(req) || picks == [] then []
    else if Repeats(a.transfer, req) then picks[..|picks| - 1]
    else picks
  }

  lemma KeptIsGapFree(start: Assembler, szx: Exponent, history: seq<Op>, a: Assembler, picks: seq<nat>, req: Request)
    requires Inv(start, szx, history, a, picks) && !TransferStep(a.transfer, szx, req).1.Rejected?
    ensures var kept := Kept(a, req, picks);
      && IsGapFree(start, szx, history, kept, req.sender) && AllMore(history, kept)
      && OffsetOf(req) == |Concat(history, kept)| <= |a.buffer|
      && a.buffer[..OffsetOf(req)] == Concat(history, kept)
  {
    hide Run, IsAccepted, HasMore, FitsBuffer, Continues;
    if !(Block1Of(req).Absent? || Restarts(req)) {
      GapFreePrefix(start, szx, history, picks, req.sender, |picks| - 1);
      var n := |picks| - 1;
      assert Concat(history, picks) == Concat(history, picks[..n]) + history[picks[n]].req.payload;
      assert a.buffer[..a.transfer.prevOffset] == a.buffer[..a.transfer.expectedOffset][..a.transfer.prevOffset];
    }
  }

  /** One accepted block: the buffer holds the kept blocks and then this one. */
  lemma {:induction false} AcceptedBlock(start: Assembler, szx: Exponent, history: seq<Op>, a: Assembler, picks: seq<nat>, req: Request)
    requires a == Run(start, szx, history) && Inv(start, szx, history, a, picks) && IsAccepted(a, szx, req)
    ensures var (a', answer) := AssemblerStep(a, szx, req);
      var history' := history + [Deliver(req)];
      var picks' := Kept(a, req, picks) + [|history|];
      && IsGapFree(start, szx, history', picks', req.sender)
      && a'.bodySize == |Concat(history', picks')| <= |a'.buffer| == |a.buffer|
      && a'.buffer[..a'.bodySize] == Concat(history', picks')
      && a'.transfer.expectedOffset == a'.bodySize
      && (answer == Complete <==> !HasMore(req))
      && Inv(start, szx, history', a', picks')
  {
    var kept := Kept(a, req, picks);
    KeptIsGapFree(start, szx, history, a, picks, req);
    GapFreeAppend(start, szx, history, req, kept, req.sender);
    hide Run, Continues, Block1Of, Kept, OffsetOf, HasMore;
    var (t, status) := TransferStep(a.transfer, szx, req);
    AcceptedFields(a.transfer, szx, req);
    var buffer := Overwrite(a.buffer, t.offset, t.data);
    assert buffer[..t.offset + |t.data|] == a.buffer[..t.offset] + t.data;
    var history', picks' := history + [Deliver(req)], kept + [|history|];
    AllMoreAppend(history, kept, req);
    assert picks'[..|picks'| - 1] == kept;
  }

  lemma AllMoreAppend(history: seq<Op>, kept: seq<nat>, req: Request)
    requires AreDeliveries(history, kept) && AllMore(history, kept)
    ensures HasMore(req) ==> AllMore(history + [Deliver(req)], kept + [|history|])
  {
  }

  /** What every accepted request leaves in the fields. */
  lemma AcceptedFields(t: Transfer, szx: Exponent, req: Request)
    requires !TransferStep(t, szx, req).1.Rejected?
    ensures var (t', status) := TransferStep(t, szx, req);
      && t'.data == req.payload && t'.offset == OffsetOf(req)
      && t'.expectedOffset == t'.offset + |t'.data|
      && (status.Final? <==> !HasMore(req))
      && (t'.phase == Receiving <==> HasMore(req))
      && (t'.phase != Idle ==> t'.client == req.sender && t'.prevOffset == t'.offset)
  {
  }

  /** A rejected request leaves position, client, phase, buffer and body untouched. */
  lemma RejectionChangesNothing(a: Assembler, szx: Exponent, req: Request)
    requires TransferStep(a.transfer, szx, req).1.Rejected?
    ensures var (a', answer) := AssemblerStep(a, szx, req);
      && answer == NeedsReply && a'.replyKind == ReplyRejected
      && (a'.transfer.phase, a'.transfer.client) == (a.transfer.phase, a.transfer.client)
      && (a'.transfer.prevOffset, a'.transfer.expectedOffset) == (a.transfer.prevOffset, a.transfer.expectedOffset)
      && a'.transfer.replyBlock == a.transfer.replyBlock
      && (a'.buffer, a'.bodySize) == (a.buffer, a.bodySize)
  {
  }

  /** The invariant holds after every run. */
  lemma {:induction false} Reachable(start: Assembler, szx: Exponent, history: seq<Op>) returns (picks: seq<nat>)
    requires IsFresh(start)
    ensures Inv(start, szx, history, Run(start, szx, history), picks)
    decreases |history|
  {
    picks := [];
    if history != [] {
      var n := |history| - 1;
      var before, op := history[..n], history[n];
      var a := Run(start, szx, before);
      picks := Reachable(start, szx, before);
      assert history == before + [op];
      picks := StepKeepsInv(start, szx, before, a, picks, op);
    }
  }

  lemma StepKeepsInv(start: Assembler, szx: Exponent, history: seq<Op>, a: Assembler, picks: seq<nat>, op: Op)
    returns (picks': seq<nat>)
    requires a == Run(start, szx, history) && Inv(start, szx, history, a, picks)
    ensures Inv(start, szx, history + [op], Step(a, szx, op), picks')
  {
    picks' := picks;
    if op.Deliver? && IsAccepted(a, szx, op.req) {
      AcceptedBlock(start, szx, history, a, picks, op.req);
      picks' := Kept(a, op.req, picks) + [|history|];
    } else {
      if a.transfer.phase != Idle {
        GapFreeExtends(start, szx, history, op, picks, a.transfer.client);
        ConcatExtends(history, op, picks[..|picks| - 1]);
      }
      if op.Deliver? && TransferStep(a.transfer, szx, op.req).1.Rejected? {
        RejectionChangesNothing(a, szx, op.req);
      }
      hide Run, Continues, TransferStep, Concat;
    }
  }

  /**
   * Whenever a request is answered kComplete, the body is the gap-free concatenation from
   * offset 0 of accepted blocks of its sender, the last of which is this request, and
   * `Received()` is its length.
   */
  lemma {:induction false} CompleteBodyIsGapFree(start: Assembler, szx: Exponent, history: seq<Op>, req: Request) returns (picks: seq<nat>)
    requires IsFresh(start)
    requires AssemblerStep(Run(start, szx, history), szx, req).1 == Complete
    ensures var a := AssemblerStep(Run(start, szx, history), szx, req).0;
      var history' := history + [Deliver(req)];
      && picks != [] && picks[|picks| - 1] == |history|
      && IsGapFree(start, szx, history', picks, req.sender) && !HasMore(req)
      && a.bodySize <= |a.buffer| == |start.buffer|
      && a.buffer[..a.bodySize] == Concat(history', picks)
      && a.transfer.expectedOffset == a.bodySize
  {
    var before := Reachable(start, szx, history);
    var a := Run(start, szx, history);
    AcceptedBlock(start, szx, history, a, before, req);
    picks := Kept(a, req, before) + [|history|];
  }
}

/** What an observable keeps over every run: its invariant, liveness probing and the order of Observe values. */
module ObserverRuns {
  import opened Bytes
  import opened CoapOption
  import opened Pdu
  import opened Block
  import opened Builder
  import opened Server
  import opened ObserverTable

  const SEQUENCE_MODULUS := 0x0100_0000
  const INITIAL_SEQUENCE: uint32 := 2

  // -------------------------------------------------------------------- runs

  /** What an observable holds: its observers and the sequence number. */
  datatype Board = Board(table: Observers, sequence: uint32)

  /** `mid` is the server's next message ID at the time. */
  datatype Op =
    | RegisterOp(endpoint: Endpoint, token: Token)
    | DeregisterOp(endpoint: Endpoint, token: Token)
    | RejectOp(endpoint: Endpoint, messageId: uint16)
    | NotifyOp(resp: WireResponse, type_: NotifyType, mid: uint16)

  /** A notification with a 2.xx code. */
  predicate Succeeds(op: Op) {
    op.NotifyOp? && ClassBits(op.resp.code) == 2
  }

  function SequenceAfter(sequence: uint32, op: Op): uint32 {
    if Succeeds(op) then ToU32(sequence + 1) else sequence
  }

  /** What a notification carries: with a 2.xx code the value of the advanced sequence number. */
  function NotificationOf(sequence: uint32, op: Op, conEvery: uint8): Notification
    requires op.NotifyOp?
  {
    Notification(op.resp, Succeeds(op), op.type_, conEvery,
      if Succeeds(op) then Some(ObserveValue(SequenceAfter(sequence, op))) else None)
  }

  function StepTable(b: Board, op: Op, conEvery: uint8): Observers {
    match op
    case RegisterOp(endpoint, token) => Register(b.table, endpoint, token)
    case DeregisterOp(endpoint, token) => RemovePair(b.table, endpoint, token)
    case RejectOp(endpoint, messageId) => RemoveMid(b.table, endpoint, messageId)
    case NotifyOp(_, _, mid) => NotifyAll(b.table, NotificationOf(b.sequence, op, conEvery), mid)
  }

  function Step(b: Board, op: Op, conEvery: uint8): Board {
    Board(StepTable(b, op, conEvery), SequenceAfter(b.sequence, op))
  }

  /** The notifications an operation sends. */
  function SentBy(b: Board, op: Op, conEvery: uint8): seq<(Endpoint, OutgoingMessage)> {
    if op.NotifyOp? then Notifications(b.table, NotificationOf(b.sequence, op, conEvery), op.mid) else []
  }

  function Run(b: Board, ops: seq<Op>, conEvery: uint8): Board {
    if ops == [] then b else Step(Run(b, ops[..|ops| - 1], conEvery), ops[|ops| - 1], conEvery)
  }

  /** Where the message IDs of the latest Notify begin. */
  function LatestBase(ops: seq<Op>): uint16 {
    if ops == [] then 0
    else if ops[|ops| - 1].NotifyOp? then ops[|ops| - 1].mid
    else LatestBase(ops[..|ops| - 1])
  }

  predicate IsEmpty(table: Observers) {
    forall i :: 0 <= i < |table| ==> !table[i].used
  }

  /** Over every run: pairs are distinct, and the message IDs are distinct ones of the most recent Notify. */
  lemma {:induction false} RunKeepsInv(b: Board, ops: seq<Op>, conEvery: uint8)
    requires IsEmpty(b.table) && |b.table| <= 0x1_0000
    ensures |Run(b, ops, conEvery).table| == |b.table|
    ensures Inv(Run(b, ops, conEvery).table, LatestBase(ops))
    decreases |ops|
  {
    if ops != [] {
      hide Inv, StepTable, IsEmpty;
      var before, op := ops[..|ops| - 1], ops[|ops| - 1];
      RunKeepsInv(b, before, conEvery);
      StepKeepsInv(Run(b, before, conEvery), LatestBase(before), op, conEvery);
    } else {
      EmptyInv(b.table);
    }
  }

  lemma EmptyInv(table: Observers)
    requires IsEmpty(table)
    ensures Inv(table, 0)
  {
  }

  lemma StepKeepsInv(b: Board, base: uint16, op: Op, conEvery: uint8)
    requires Inv(b.table, base) && |b.table| <= 0x1_0000
    ensures |StepTable(b, op, conEvery)| == |b.table|
    ensures Inv(StepTable(b, op, conEvery), if op.NotifyOp? then op.mid else base)
  {
    hide Inv, IsFor, IsRejectedBy, Notified, NotificationOf, FirstFor, FirstUnused;
    match op
    case RegisterOp(endpoint, token) => RegisterKeepsInv(b.table, base, endpoint, token);
    case DeregisterOp(endpoint, token) => RemovalKeepsInv(b.table, base, RemovePair(b.table, endpoint, token));
    case RejectOp(endpoint, messageId) => RemovalKeepsInv(b.table, base, RemoveMid(b.table, endpoint, messageId));
    case NotifyOp(_, _, mid) => NotifyKeepsInv(b.table, base, NotificationOf(b.sequence, op, conEvery), mid);
  }

  /** Every observer gets its notification, with the next of the consecutive message IDs. */
  lemma {:induction false} EveryObserverIsNotified(table: Observers, n: Notification, mid: uint16, i: nat)
    requires i < |table| && table[i].used
    ensures NotificationTo(table[i], n, ToU16(mid + UsedCount(table[..i]))) in Notifications(table, n, mid)
  {
    hide NotificationTo, UsedCount;
    var k := |table| - 1;
    if i < k {
      EveryObserverIsNotified(table[..k], n, mid, i);
      assert table[..k][..i] == table[..i];
    }
  }

  /** Every notification is one to a used entry. */
  lemma {:induction false} NotificationHasObserver(table: Observers, n: Notification, mid: uint16, m: (Endpoint, OutgoingMessage))
    returns (i: nat)
    requires m in Notifications(table, n, mid)
    ensures i < |table| && table[i].used && m == NotificationTo(table[i], n, ToU16(mid + UsedCount(table[..i])))
  {
    hide NotificationTo, UsedCount;
    var k := |table| - 1;
    if m in Notifications(table[..k], n, mid) {
      i := NotificationHasObserver(table[..k], n, mid, m);
      assert table[..k][..i] == table[..i];
    } else {
      i := k;
    }
  }

  /**
   * Section 4.5 of RFC 7641, on the messages: a client that rejects a 2.xx notification it was sent is
   * removed, and every other observer stays.
   */
  lemma RejectedNotificationEndsObservation(
    b: Board, base: uint16, op: Op, conEvery: uint8, m: (Endpoint, OutgoingMessage)) returns (i: nat)
    requires Inv(b.table, base) && |b.table| <= 0x1_0000 && Succeeds(op) && m in SentBy(b, op, conEvery)
    ensures i < |b.table| && IsFor(b.table[i], m.0, m.1.token)
    ensures var after := Step(b, op, conEvery);
      && IsFor(after.table[i], m.0, m.1.token)
      && Step(after, RejectOp(m.0, m.1.messageId), conEvery)
        == Board(after.table[i := after.table[i].(used := false)], after.sequence)
  {
    var n := NotificationOf(b.sequence, op, conEvery);
    i := NotificationHasObserver(b.table, n, op.mid, m);
    NotifiedMid(b.table, n, op.mid, i);
    NotifiedFields(b.table, n, op.mid, i);
    RejectionHitsItsObserver(b.table, base, n, op.mid, i);
    hide NotifyAll, NotificationTo, UsedCount, RemoveMid, Inv;
  }

  /** The latest notification to an observer can be rejected as long as no other notification was sent. */
  lemma {:induction false} RejectionStaysPossible(b: Board, ops: seq<Op>, conEvery: uint8, endpoint: Endpoint, token: Token, i: nat)
    requires i < |b.table| && IsFor(b.table[i], endpoint, token)
    requires forall k :: 0 <= k < |ops| ==> !ops[k].NotifyOp? && ops[k] != RegisterOp(endpoint, token)
    ensures var after := Run(b, ops, conEvery);
      && |after.table| == |b.table|
      && (IsFor(after.table[i], endpoint, token) ==> after.table[i] == b.table[i])
    decreases |ops|
  {
    hide StepTable, IsFor;
    if ops != [] {
      var before, op := ops[..|ops| - 1], ops[|ops| - 1];
      RejectionStaysPossible(b, before, conEvery, endpoint, token, i);
      SlotIsKept(Run(b, before, conEvery), op, conEvery, endpoint, token, i);
    }
  }

  lemma SlotIsKept(b: Board, op: Op, conEvery: uint8, endpoint: Endpoint, token: Token, i: nat)
    requires i < |b.table| && !op.NotifyOp? && op != RegisterOp(endpoint, token)
    ensures |StepTable(b, op, conEvery)| == |b.table|
    ensures IsFor(StepTable(b, op, conEvery)[i], endpoint, token) ==> StepTable(b, op, conEvery)[i] == b.table[i]
  {
    hide FirstFor, FirstUnused;
  }

  // ------------------------------------------------- liveness probing by CON

  /** `nonCount` after `n` notifications of one type to an observer that had `nonCount`. */
  function CountAfter(nonCount: uint8, type_: NotifyType, conEvery: uint8, n: nat): uint8 {
    if n == 0 then nonCount
    else
      var before := CountAfter(nonCount, type_, conEvery, n - 1);
      NextNonCount(before, SelectsCon(before, type_, conEvery))
  }

  lemma ModStep(n: nat, d: nat)
    requires d > 0 && n > 0
    ensures n % d == if (n - 1) % d + 1 == d then 0 else (n - 1) % d + 1
  {
    var q, r := (n - 1) / d, (n - 1) % d;
    assert n - 1 == q * d + r;
    if r + 1 == d {
      assert n == (q + 1) * d;
      DivExact(q + 1, d);
    } else {
      DivRest(q, d, r + 1);
    }
  }

  lemma DivRest(q: nat, d: nat, r: nat)
    requires r < d
    ensures (q * d + r) % d == r
  {
    var x := q * d + r;
    assert x == d * (x / d) + x % d;
    MulLe(x / d + 1, q, d);
    MulLe(q + 1, x / d, d);
    assert (x / d + 1) * d == d * (x / d) + d && (q + 1) * d == q * d + d;
  }

  /** In a run of kAuto only, the `n`-th notification since registration is a CON exactly when `n` is a multiple. */
  lemma {:induction false} AutoConExactlyAtMultiples(conEvery: uint8, n: nat)
    requires conEvery >= 1 && n >= 1
    ensures SelectsCon(CountAfter(0, Auto, conEvery, n - 1), Auto, conEvery) <==> n % conEvery == 0
    ensures CountAfter(0, Auto, conEvery, n) == n % conEvery
  {
    ModStep(n, conEvery);
    if n > 1 {
      AutoConExactlyAtMultiples(conEvery, n - 1);
    } else {
      ZeroMod(conEvery);
    }
    hide CountAfter;
    CountStep(conEvery, n);
  }

  lemma ZeroMod(d: nat)
    requires d > 0
    ensures 0 % d == 0
  {
    DivRest(0, d, 0);
  }

  lemma CountStep(conEvery: uint8, n: nat)
    requires n >= 1
    ensures var before := CountAfter(0, Auto, conEvery, n - 1);
      CountAfter(0, Auto, conEvery, n) == NextNonCount(before, SelectsCon(before, Auto, conEvery))
    ensures CountAfter(0, Auto, conEvery, 0) == 0
  {
  }

  predicate AllAuto(ops: seq<Op>) {
    forall i :: 0 <= i < |ops| && ops[i].NotifyOp? ==> ops[i].type_ == Auto
  }

  function NotifyCount(ops: seq<Op>): nat {
    if ops == [] then 0 else NotifyCount(ops[..|ops| - 1]) + if ops[|ops| - 1].NotifyOp? then 1 else 0
  }

  /** The slot of a pair that is in the table after an operation other than its registration was the pair's before. */
  lemma SlotWasHeld(b: Board, op: Op, conEvery: uint8, endpoint: Endpoint, token: Token, i: nat)
    requires i < |b.table| && op != RegisterOp(endpoint, token)
    ensures |StepTable(b, op, conEvery)| == |b.table|
    ensures IsFor(StepTable(b, op, conEvery)[i], endpoint, token) ==>
      && IsFor(b.table[i], endpoint, token)
      && StepTable(b, op, conEvery)[i].nonCount ==
        (if op.NotifyOp? then NextNonCount(b.table[i].nonCount, SelectsCon(b.table[i].nonCount, op.type_, conEvery))
         else b.table[i].nonCount)
  {
    hide SelectsCon, NextNonCount, FirstFor, FirstUnused, UsedCount;
  }

  /**
   * Over every run after a registration in which all notifications are kAuto, whatever else
   * happens to other observers: as long as the observer is in the table, the next kAuto
   * notification to it is a CON exactly when its number since the registration is a multiple.
   */
  lemma {:induction false} ObserverIsProbedAtMultiples(
    b: Board, endpoint: Endpoint, token: Token, ops: seq<Op>, conEvery: uint8, next: Op)
    requires SlotFor(b.table, endpoint, token) < |b.table| && RegisterOp(endpoint, token) !in ops
    requires conEvery >= 1 && AllAuto(ops) && next.NotifyOp? && next.type_ == Auto
    ensures var i := SlotFor(b.table, endpoint, token);
      var after := Run(Step(b, RegisterOp(endpoint, token), conEvery), ops, conEvery);
      && i < |after.table|
      && (IsFor(after.table[i], endpoint, token) ==>
        var mtype := if (NotifyCount(ops) + 1) % conEvery == 0 then Con else Non;
        var mid := ToU16(next.mid + UsedCount(after.table[..i]));
        var observe := NotificationOf(after.sequence, next, conEvery).observe;
        (endpoint, ResponseMessage(mtype, mid, token, next.resp, observe)) in SentBy(after, next, conEvery))
  {
    hide SelectsCon, Run, Step, ResponseMessage, UsedCount, SlotFor;
    var i := SlotFor(b.table, endpoint, token);
    var after := Run(Step(b, RegisterOp(endpoint, token), conEvery), ops, conEvery);
    CountFollowsNotifies(b, endpoint, token, ops, conEvery);
    AutoConExactlyAtMultiples(conEvery, NotifyCount(ops) + 1);
    if IsFor(after.table[i], endpoint, token) {
      EveryObserverIsNotified(after.table, NotificationOf(after.sequence, next, conEvery), next.mid, i);
    }
  }

  /** The counter of a registered observer over a run of kAuto. */
  lemma {:induction false} CountFollowsNotifies(b: Board, endpoint: Endpoint, token: Token, ops: seq<Op>, conEvery: uint8)
    requires SlotFor(b.table, endpoint, token) < |b.table| && RegisterOp(endpoint, token) !in ops && AllAuto(ops)
    ensures var i := SlotFor(b.table, endpoint, token);
      var after := Run(Step(b, RegisterOp(endpoint, token), conEvery), ops, conEvery);
      && |after.table| == |b.table|
      && (IsFor(after.table[i], endpoint, token) ==>
        after.table[i].nonCount == CountAfter(0, Auto, conEvery, NotifyCount(ops)))
    decreases |ops|
  {
    hide SelectsCon, NextNonCount, CountAfter, IsFor, SlotFor, SequenceAfter;
    CountStep(conEvery, NotifyCount(ops) + 1);
    if ops == [] {
    } else {
      hide StepTable;
      var before, op := ops[..|ops| - 1], ops[|ops| - 1];
      CountFollowsNotifies(b, endpoint, token, before, conEvery);
      SlotWasHeld(Run(Step(b, RegisterOp(endpoint, token), conEvery), before, conEvery), op, conEvery,
        endpoint, token, SlotFor(b.table, endpoint, token));
      CountStep(conEvery, NotifyCount(before) + 1);
    }
  }

  lemma ByteStep(x: nat)
    ensures (x % 0x100 + 1) % 0x100 == (x + 1) % 0x100
  {
  }

  lemma ForcedStep(nonCount: uint8, conEvery: uint8, n: nat)
    requires n > 0
    ensures CountAfter(nonCount, ForceNon, conEvery, n) == (CountAfter(nonCount, ForceNon, conEvery, n - 1) + 1) % 0x100
  {
  }

  /** Forced NON notifications count modulo 256: the next kAuto one is a CON exactly when the wrapped count has got there. */
  lemma {:induction false} ForcedNonsWrap(nonCount: uint8, conEvery: uint8, n: nat)
    ensures CountAfter(nonCount, ForceNon, conEvery, n) == (nonCount + n) % 0x100
    ensures SelectsCon(CountAfter(nonCount, ForceNon, conEvery, n), Auto, conEvery) <==> (nonCount + n) % 0x100 + 1 >= conEvery as int
  {
    if n > 0 {
      hide CountAfter;
      ForcedNonsWrap(nonCount, conEvery, n - 1);
      ForcedStep(nonCount, conEvery, n);
      ByteStep(nonCount + n - 1);
    }
  }

  /** After 256 forced NONs the counter is back at zero and nothing is probed. */
  lemma WrapExample()
    ensures !SelectsCon(CountAfter(0, ForceNon, 24, 256), Auto, 24)
  {
    hide CountAfter;
    ForcedNonsWrap(0, 24, 256);
  }

  // ------------------------------------------------------ order of the values

  /** The 24-bit Observe value of a sequence number. */
  function ObserveValue(sequence: uint32): uint32 {
    sequence % SEQUENCE_MODULUS
  }

  /** The freshness test of section 3.4 of RFC 7641, without its clock: `v2` is newer than `v1`. */
  predicate IsNewer(v1: uint32, v2: uint32) {
    (v1 < v2 && v2 - v1 < 0x80_0000) || (v1 > v2 && v1 - v2 > 0x80_0000)
  }

  /** Notifications `k` increments apart are put in order, across both wraps, exactly when `k` modulo 2^24 is in 1..2^23-1. */
  lemma OrderedExactlyWhenClose(sequence: uint32, k: nat)
    ensures IsNewer(ObserveValue(sequence), ObserveValue(ToU32(sequence + k)))
      <==> 0 < k % SEQUENCE_MODULUS < 0x80_0000
  {
    hide ToU32;
    TruncateTwice(sequence + k);
    AddMod(sequence, k);
    var value, step := sequence % SEQUENCE_MODULUS, k % SEQUENCE_MODULUS;
    SumWrapsOnce(value, step);
    assert ObserveValue(sequence) == value;
    assert ObserveValue(ToU32(sequence + k)) ==
      if value + step < SEQUENCE_MODULUS then value + step else value + step - SEQUENCE_MODULUS;
    hide ObserveValue;
  }

  lemma SumWrapsOnce(x: nat, y: nat)
    requires x < SEQUENCE_MODULUS && y < SEQUENCE_MODULUS
    ensures (x + y) % SEQUENCE_MODULUS == if x + y < SEQUENCE_MODULUS then x + y else x + y - SEQUENCE_MODULUS
  {
  }

  lemma TruncateTwice(x: nat)
    ensures ToU32(x) % SEQUENCE_MODULUS == x % SEQUENCE_MODULUS
  {
    var high, low := x / 0x1_0000_0000, ToU32(x);
    var q, r := low / SEQUENCE_MODULUS, low % SEQUENCE_MODULUS;
    assert x == SEQUENCE_MODULUS * (0x100 * high + q) + r;
    RestIs(x, 0x100 * high + q, r);
  }

  lemma RestIs(x: nat, q: nat, r: nat)
    requires x == SEQUENCE_MODULUS * q + r && r < SEQUENCE_MODULUS
    ensures x % SEQUENCE_MODULUS == r
  {
  }

  lemma AddMod(a: nat, b: nat)
    ensures (a + b) % SEQUENCE_MODULUS == (a % SEQUENCE_MODULUS + b % SEQUENCE_MODULUS) % SEQUENCE_MODULUS
  {
  }

  /** How many of the operations are notifications with a 2.xx code. */
  function Successes(ops: seq<Op>): nat {
    if ops == [] then 0 else Successes(ops[..|ops| - 1]) + if Succeeds(ops[|ops| - 1]) then 1 else 0
  }

  /** The sequence number counts the successful notifications, modulo 2^32, whatever else happens. */
  lemma {:induction false} SequenceCounts(b: Board, ops: seq<Op>, conEvery: uint8, i: nat, j: nat)
    requires i <= j <= |ops|
    ensures Run(b, ops[..j], conEvery).sequence == ToU32(Run(b, ops[..i], conEvery).sequence + Successes(ops[i..j]))
    decreases j
  {
    hide Run, Step, Successes, Succeeds, ToU32;
    var s := Run(b, ops[..i], conEvery).sequence;
    if i < j {
      SequenceCounts(b, ops, conEvery, i, j - 1);
      RunOneMore(b, ops, conEvery, j - 1);
      SequenceOneMore(Run(b, ops[..j - 1], conEvery), ops[j - 1], conEvery);
      SuccessesOneMore(ops, i, j - 1);
      WrapsOnce(s + Successes(ops[i..j - 1]));
    } else {
      assert ops[i..j] == [];
      NoSuccesses(s);
    }
  }

  lemma SequenceOneMore(b: Board, op: Op, conEvery: uint8)
    ensures Step(b, op, conEvery).sequence == if Succeeds(op) then ToU32(b.sequence + 1) else b.sequence
  {
    hide Succeeds, StepTable;
  }

  lemma NoSuccesses(sequence: uint32)
    ensures Successes([]) == 0 && ToU32(sequence + 0) == sequence
  {
  }

  lemma SuccessesOneMore(ops: seq<Op>, i: nat, j: nat)
    requires i <= j < |ops|
    ensures Successes(ops[i..j + 1]) == Successes(ops[i..j]) + if Succeeds(ops[j]) then 1 else 0
  {
    hide Succeeds;
    assert ops[i..j + 1][..j - i] == ops[i..j];
  }

  lemma RunOneMore(b: Board, ops: seq<Op>, conEvery: uint8, i: nat)
    requires i < |ops|
    ensures Run(b, ops[..i + 1], conEvery) == Step(Run(b, ops[..i], conEvery), ops[i], conEvery)
  {
    hide Step;
    assert ops[..i + 1][..i] == ops[..i];
  }

  lemma WrapsOnce(x: nat)
    ensures ToU32(ToU32(x) + 1) == ToU32(x + 1)
  {
  }

  /**
   * The operation shows the observer the Observe value `v`: in the response to its
   * registration, or as the first Observe option of a 2.xx notification to it.
   */
  ghost predicate Shows(b: Board, op: Op, conEvery: uint8, endpoint: Endpoint, token: Token, v: uint32) {
    match op
    case RegisterOp(e, t) =>
      (e, t) == (endpoint, token) && SlotFor(b.table, e, t) < |b.table| && v == ObserveValue(b.sequence)
    case NotifyOp(_, _, _) =>
      Succeeds(op) && (exists m ::
        m in SentBy(b, op, conEvery) && m.0 == endpoint && m.1.token == token && FindUint(m.1.options, OBSERVE) == Some(v))
    case _ => false
  }

  /** The server's own Observe option comes before one of the response's options. */
  lemma ObserveComesFirst(mtype: MessageType, mid: uint16, token: Token, resp: WireResponse, v: uint32)
    ensures FindUint(ResponseMessage(mtype, mid, token, resp, Some(v)).options, OBSERVE) == Some(v)
  {
    var observe := OptionView(OBSERVE, Uint(v));
    var rest := FrontOptions(None, resp.contentFormat) + resp.options;
    var all := FrontOptions(Some(v), resp.contentFormat) + resp.options;
    assert all == [observe] + rest;
    hide FrontOptions, StableSort;
    SortKeepsFirst(OBSERVE, all);
    FirstWithAppend(OBSERVE, [observe], rest);
    FirstWithOne(observe);
    hide FirstWith;
  }

  lemma {:induction false} NotificationsCarry(table: Observers, n: Notification, mid: uint16, v: uint32)
    requires n.observe == Some(v)
    ensures forall m :: m in Notifications(table, n, mid) ==> FindUint(m.1.options, OBSERVE) == Some(v)
  {
    hide FindUint, ResponseMessage, SelectsCon, UsedCount;
    if table != [] {
      var before, last := table[..|table| - 1], table[|table| - 1];
      NotificationsCarry(before, n, mid, v);
      var type_ := if SelectsCon(last.nonCount, n.type_, n.conEvery) then Con else Non;
      ObserveComesFirst(type_, ToU16(mid + UsedCount(before)), last.token, n.resp, v);
    }
  }

  lemma ShownIsSequence(b: Board, op: Op, conEvery: uint8, endpoint: Endpoint, token: Token, v: uint32)
    requires Shows(b, op, conEvery, endpoint, token, v)
    ensures v == ObserveValue(Step(b, op, conEvery).sequence)
  {
    hide FindUint, StepTable, Notifications, ObserveValue, SlotFor;
    if op.NotifyOp? {
      var n := NotificationOf(b.sequence, op, conEvery);
      NotificationsCarry(b.table, n, op.mid, n.observe.value);
    }
  }

  /**
   * Over every run, of any two Observe values shown to one observer the freshness test takes
   * the later for newer exactly when the number of successful notifications between them is,
   * modulo 2^24, in 1..2^23-1; no wrap of 24 or 32 bits matters.
   */
  lemma {:induction false} ShownValuesAreOrdered(
    b: Board, ops: seq<Op>, conEvery: uint8, endpoint: Endpoint, token: Token, i: nat, j: nat, v: uint32, w: uint32)
    requires i < j < |ops|
    requires Shows(Run(b, ops[..i], conEvery), ops[i], conEvery, endpoint, token, v)
    requires Shows(Run(b, ops[..j], conEvery), ops[j], conEvery, endpoint, token, w)
    ensures IsNewer(v, w) <==> 0 < Successes(ops[i + 1..j + 1]) % SEQUENCE_MODULUS < 0x80_0000
  {
    hide Run, Shows, IsNewer, ObserveValue, Successes, ToU32;
    ShownAfter(b, ops, conEvery, endpoint, token, i, v);
    ShownAfter(b, ops, conEvery, endpoint, token, j, w);
    SequenceCounts(b, ops, conEvery, i + 1, j + 1);
    OrderedExactlyWhenClose(Run(b, ops[..i + 1], conEvery).sequence, Successes(ops[i + 1..j + 1]));
  }

  lemma ShownAfter(b: Board, ops: seq<Op>, conEvery: uint8, endpoint: Endpoint, token: Token, i: nat, v: uint32)
    requires i < |ops| && Shows(Run(b, ops[..i], conEvery), ops[i], conEvery, endpoint, token, v)
    ensures v == ObserveValue(Run(b, ops[..i + 1], conEvery).sequence)
  {
    hide Shows, ObserveValue, Step;
    RunOneMore(b, ops, conEvery, i);
    ShownIsSequence(Run(b, ops[..i], conEvery), ops[i], conEvery, endpoint, token, v);
  }

  /**
   * The start value keeps the Observe values 0 and 1, which ask for something in requests, from
   * being shown until the 24-bit wrap, and only until then.
   */
  lemma ReservedValuesExactlyAfterWrap(
    b: Board, ops: seq<Op>, conEvery: uint8, endpoint: Endpoint, token: Token, j: nat, v: uint32)
    requires b.sequence == INITIAL_SEQUENCE && j < |ops|
    requires Shows(Run(b, ops[..j], conEvery), ops[j], conEvery, endpoint, token, v)
    ensures v <= 1 <==> (INITIAL_SEQUENCE + Successes(ops[..j + 1])) % SEQUENCE_MODULUS <= 1
  {
    hide Run, Shows, Successes, ToU32;
    ShownAfter(b, ops, conEvery, endpoint, token, j, v);
    RunNothing(b, ops, conEvery);
    SequenceCounts(b, ops, conEvery, 0, j + 1);
    assert ops[0..j + 1] == ops[..j + 1];
    TruncateTwice(INITIAL_SEQUENCE + Successes(ops[..j + 1]));
  }

  lemma RunNothing(b: Board, ops: seq<Op>, conEvery: uint8)
    ensures Run(b, ops[..0], conEvery) == b
  {
  }

  lemma {:induction false} AllSucceed(op: Op, n: nat)
    requires Succeeds(op)
    ensures Successes(seq(n, _ => op)) == n
  {
    hide Succeeds;
    if n > 0 {
      AllSucceed(op, n - 1);
      assert seq(n, _ => op)[..n - 1] == seq(n - 1, _ => op);
    }
  }

  /** After 2^24 - 2 notifications with a 2.xx code the next registration is answered with the value 0. */
  lemma ReservedValueExample(b: Board, conEvery: uint8, endpoint: Endpoint, token: Token, op: Op)
    requires b.sequence == INITIAL_SEQUENCE && Succeeds(op)
    ensures ObserveValue(Run(b, seq(0xFF_FFFE, _ => op), conEvery).sequence) == 0
  {
    hide Run, Successes, Succeeds;
    var ops := seq(0xFF_FFFE, _ => op);
    AllSucceed(op, 0xFF_FFFE);
    RunNothing(b, ops, conEvery);
    SequenceCounts(b, ops, conEvery, 0, 0xFF_FFFE);
    assert ops[0..0xFF_FFFE] == ops[..0xFF_FFFE] == ops;
  }
}

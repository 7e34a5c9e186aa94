/** What the Messenger keeps over every run of Send, Tick and OnReceive. */
module MessengerRuns {
  import opened Bytes
  import opened Pdu
  import opened Deserializer
  import opened Retransmission
  import opened PendingTable

  datatype Op =
    | SendOp(dest: Endpoint, msg: OutgoingMessage)
    | TickOp(delta: uint32)
    | ReceiveOp(sender: Endpoint, data: Span)

  function StepTable(table: Table, op: Op): Table {
    match op
    case SendOp(dest, msg) => SendTable(table, dest, msg)
    case TickOp(delta) => TickAll(table, delta).table
    case ReceiveOp(sender, data) => ReceiveTable(table, sender, data)
  }

  function Run(capacity: nat, ops: seq<Op>): Table {
    if ops == [] then seq(capacity, _ => None)
    else StepTable(Run(capacity, ops[..|ops| - 1]), ops[|ops| - 1])
  }

  // ------------------------------------------------------------ one entry

  predicate SameExchange(a: Slot, b: Slot) {
    a.destination == b.destination && a.bytes == b.bytes && a.messageId == b.messageId
  }

  /** The operation cancels or gives up this entry. */
  predicate Ends(slot: Slot, op: Op) {
    match op
    case SendOp(_, _) => false
    case TickOp(delta) => Advance(slot.retry, delta).1.GiveUp?
    case ReceiveOp(sender, data) =>
      sender == slot.destination && Parse(data).Ok? && AcksOrRejects(data, slot.messageId)
  }

  /**
   * An entry leaves the table exactly when a tick gives it up or its destination answers its
   * message ID with a decodable ACK without a request code or an empty RST. Otherwise it
   * keeps destination, bytes and message ID, and only a tick moves its timer.
   */
  lemma FateOfEntry(table: Table, op: Op, i: nat)
    requires i < |table| && table[i].Some?
    ensures |StepTable(table, op)| == |table|
    ensures StepTable(table, op)[i] ==
      if Ends(table[i].value, op) then None
      else Some(table[i].value.(retry := if op.TickOp? then Advance(table[i].value.retry, op.delta).0 else table[i].value.retry))
  {
    hide Advance, Parse, IsSerializable, Serialized;
    match op
    case SendOp(_, _) =>
    case TickOp(delta) => TickAt(table, delta, i);
    case ReceiveOp(_, data) =>
      CancellingBytes(data, table[i].value.messageId);
      hide AcksOrRejects;
  }

  /**
   * Sections 4.2 and 4.3 of RFC 7252: a datagram leads to at most one of an RST in reply, a
   * call of the handler and an RST call. A malformed one is answered exactly when it has the
   * header of a CON; a request in an ACK, a non-empty RST and an empty NON lead to nothing and cancel nothing.
   */
  lemma OneFatePerDatagram(sender: Endpoint, data: Span)
    ensures |RstTo(sender, data)| + |Dispatch(sender, data)| + |RstCalls(sender, data)| <= 1
    ensures Parse(data).Error? ==>
      && Dispatch(sender, data) == [] && RstCalls(sender, data) == []
      && (RstTo(sender, data) != [] <==> HeaderOf(data).Ok? && HeaderOf(data).value.mtype == Con)
    ensures Parse(data).Ok? && !IsValidTypeCodeCombination(Parse(data).value.mtype, Parse(data).value.code) ==>
      && RstTo(sender, data) == [] && Dispatch(sender, data) == [] && RstCalls(sender, data) == []
      && forall messageId :: !IsCancelling(data, messageId)
  {
    hide Parse, HeaderOf, RstBytes, MessageOf;
  }

  // ----------------------------------------------------------- conservation

  /** A confirmable message under way. */
  datatype Exchange = Exchange(destination: Endpoint, messageId: uint16, bytes: Span)

  function ExchangeOf(slot: Slot): Exchange {
    Exchange(slot.destination, slot.messageId, slot.bytes)
  }

  function Pending(table: Table): multiset<Exchange> {
    if table == [] then multiset{}
    else Pending(table[..|table| - 1]) + EntryOf(table[|table| - 1])
  }

  function EntryOf(entry: Option<Slot>): multiset<Exchange> {
    if entry.Some? then multiset{ExchangeOf(entry.value)} else multiset{}
  }

  function AcceptedBy(table: Table, op: Op): multiset<Exchange> {
    if op.SendOp? && IsTaken(table, op.msg) then multiset{Exchange(op.dest, op.msg.messageId, Serialized(op.msg))}
    else multiset{}
  }

  function Matching(table: Table, sender: Endpoint, messageId: uint16): multiset<Exchange> {
    if table == [] then multiset{}
    else
      var last := table[|table| - 1];
      Matching(table[..|table| - 1], sender, messageId) + if Matches(last, sender, messageId) then EntryOf(last) else multiset{}
  }

  function CancelledBy(table: Table, op: Op): multiset<Exchange> {
    if op.ReceiveOp? && Parse(op.data).Ok? && IsCancelling(op.data, Parse(op.data).value.messageId)
    then Matching(table, op.sender, Parse(op.data).value.messageId)
    else multiset{}
  }

  /** The exchanges of the `OnConTimeout` calls, one for each element of `TickAll`'s `givenUp`. */
  function GivenUp(slots: seq<Slot>): multiset<Exchange> {
    if slots == [] then multiset{} else GivenUp(slots[..|slots| - 1]) + multiset{ExchangeOf(slots[|slots| - 1])}
  }

  function GivenUpBy(table: Table, op: Op): multiset<Exchange> {
    if op.TickOp? then GivenUp(TickAll(table, op.delta).givenUp) else multiset{}
  }

  lemma {:induction false} PendingUpdate(table: Table, i: nat, slot: Slot)
    requires i < |table| && table[i].None?
    ensures Pending(table[i := Some(slot)]) == Pending(table) + multiset{ExchangeOf(slot)}
  {
    var n := |table| - 1;
    if i < n {
      PendingUpdate(table[..n], i, slot);
      assert table[i := Some(slot)][..n] == table[..n][i := Some(slot)];
    } else {
      assert table[i := Some(slot)][..n] == table[..n];
    }
  }

  lemma GivenUpAppend(xs: seq<Slot>, ys: seq<Slot>)
    requires |ys| <= 1
    ensures GivenUp(xs + ys) == GivenUp(xs) + GivenUp(ys)
  {
    if ys == [] {
      assert xs + ys == xs;
    } else {
      assert (xs + ys)[..|xs|] == xs && ys[..0] == [];
    }
  }

  lemma {:induction false} TickConserves(table: Table, delta: uint32)
    ensures Pending(table) == Pending(TickAll(table, delta).table) + GivenUp(TickAll(table, delta).givenUp)
  {
    hide TickSlot, EntryOf, GivenUp;
    if table == [] {
      NothingGivenUp();
    } else {
      var n := |table| - 1;
      var before, last := TickAll(table[..n], delta), TickSlot(table[n], delta);
      TickConserves(table[..n], delta);
      EntryConserves(table[n], delta);
      GivenUpAppend(before.givenUp, last.givenUp);
      assert (before.table + [last.entry])[..|before.table|] == before.table;
      Regroup(Pending(table[..n]), Pending(before.table), GivenUp(before.givenUp),
        EntryOf(table[n]), EntryOf(last.entry), GivenUp(last.givenUp));
    }
  }

  lemma NothingGivenUp()
    ensures GivenUp([]) == multiset{}
  {
  }

  lemma Regroup(
    a: multiset<Exchange>, a1: multiset<Exchange>, a2: multiset<Exchange>,
    b: multiset<Exchange>, b1: multiset<Exchange>, b2: multiset<Exchange>)
    requires a == a1 + a2 && b == b1 + b2
    ensures a + b == (a1 + b1) + (a2 + b2)
  {
  }

  /** The books stay balanced over one more operation. */
  lemma Balance(l: Ledger, before: multiset<Exchange>, after: multiset<Exchange>, step: Ledger)
    requires l.accepted == before + l.cancelled + l.givenUp
    requires before + step.accepted == after + step.cancelled + step.givenUp
    ensures l.accepted + step.accepted == after + (l.cancelled + step.cancelled) + (l.givenUp + step.givenUp)
  {
    var c, g, c1, g1 := l.cancelled, l.givenUp, step.cancelled, step.givenUp;
    assert l.accepted + step.accepted == (before + step.accepted) + c + g;
    assert (after + c1 + g1) + c + g == after + (c + c1) + (g + g1);
  }

  lemma EntryConserves(entry: Option<Slot>, delta: uint32)
    ensures EntryOf(entry) == EntryOf(TickSlot(entry, delta).entry) + GivenUp(TickSlot(entry, delta).givenUp)
    ensures |TickSlot(entry, delta).givenUp| <= 1
  {
    hide Advance, GivenUp;
    NothingGivenUp();
    if entry.Some? {
      OneGivenUp(entry.value);
      var one := multiset{ExchangeOf(entry.value)};
      assert one + multiset{} == one == multiset{} + one;
    }
  }

  lemma OneGivenUp(slot: Slot)
    ensures GivenUp([slot]) == multiset{ExchangeOf(slot)}
  {
    assert [slot][..0] == [] && GivenUp([]) == multiset{};
  }

  /** How many entries for this CON a tick gives up. */
  function GivingUp(table: Table, delta: uint32, destination: Endpoint, messageId: uint16): nat {
    if table == [] then 0
    else
      var last := table[|table| - 1];
      GivingUp(table[..|table| - 1], delta, destination, messageId)
      + if last.Some? && last.value.destination == destination && last.value.messageId == messageId
          && Advance(last.value.retry, delta).1.GiveUp? then 1 else 0
  }

  /** How many entries a tick repeats this transmission for. */
  function Repeating(table: Table, delta: uint32, what: Transmission): nat {
    if table == [] then 0
    else
      var last := table[|table| - 1];
      Repeating(table[..|table| - 1], delta, what)
      + if last.Some? && Transmission(last.value.destination, last.value.bytes) == what
          && Advance(last.value.retry, delta).1.Retransmit? then 1 else 0
  }

  /** A tick calls `OnConTimeout` once for each entry it gives up and transmits once for each it repeats. */
  lemma {:induction false} OneCallEach(
    table: Table, delta: uint32, destination: Endpoint, messageId: uint16, what: Transmission)
    ensures multiset(Timeouts(TickAll(table, delta).givenUp))[(destination, messageId)]
      == GivingUp(table, delta, destination, messageId)
    ensures multiset(TickAll(table, delta).sent)[what] == Repeating(table, delta, what)
  {
    hide Advance, Timeouts;
    if table == [] {
      NoTimeouts();
    } else {
      var before, last := TickAll(table[..|table| - 1], delta), TickSlot(table[|table| - 1], delta);
      OneCallEach(table[..|table| - 1], delta, destination, messageId, what);
      TimeoutsAppend(before.givenUp, last.givenUp);
      if table[|table| - 1].Some? {
        OneTimeout(table[|table| - 1].value);
        NoTimeouts();
      } else {
        NoTimeouts();
      }
    }
  }

  lemma NoTimeouts()
    ensures Timeouts([]) == []
  {
  }

  lemma OneTimeout(slot: Slot)
    ensures Timeouts([slot]) == [(slot.destination, slot.messageId)]
  {
  }

  lemma {:induction false} AckConserves(table: Table, sender: Endpoint, messageId: uint16)
    ensures Pending(table) == Pending(AckAll(table, sender, messageId)) + Matching(table, sender, messageId)
  {
    hide ExchangeOf;
    var rest := AckAll(table, sender, messageId);
    if table == [] {
      assert rest == [];
    } else {
      var n := |table| - 1;
      AckConserves(table[..n], sender, messageId);
      assert rest[..n] == AckAll(table[..n], sender, messageId);
      Regroup(Pending(table[..n]), Pending(rest[..n]), Matching(table[..n], sender, messageId),
        EntryOf(table[n]), EntryOf(rest[n]), if Matches(table[n], sender, messageId) then EntryOf(table[n]) else multiset{});
    }
  }

  /** One operation: what was pending and is accepted is pending, cancelled or given up. */
  lemma StepConserves(table: Table, op: Op)
    ensures Pending(table) + AcceptedBy(table, op) ==
      Pending(StepTable(table, op)) + CancelledBy(table, op) + GivenUpBy(table, op)
  {
    hide IsSerializable, Serialized, IsCancelling, Pending, GivenUp, TickAll, Matching, AckAll;
    match op
    case SendOp(dest, msg) =>
      if IsTaken(table, msg) {
        PendingUpdate(table, FirstFree(table), Slot(dest, Serialized(msg), msg.messageId, ARMED));
      }
    case TickOp(delta) => TickConserves(table, delta);
    case ReceiveOp(sender, data) =>
      if Parse(data).Ok? {
        AckConserves(table, sender, Parse(data).value.messageId);
      }
      hide Parse;
  }

  /** The totals of a run. */
  datatype Ledger = Ledger(accepted: multiset<Exchange>, cancelled: multiset<Exchange>, givenUp: multiset<Exchange>)

  function Account(capacity: nat, ops: seq<Op>): Ledger {
    if ops == [] then Ledger(multiset{}, multiset{}, multiset{})
    else
      var n := |ops| - 1;
      var l, table := Account(capacity, ops[..n]), Run(capacity, ops[..n]);
      Ledger(l.accepted + AcceptedBy(table, ops[n]),
        l.cancelled + CancelledBy(table, ops[n]),
        l.givenUp + GivenUpBy(table, ops[n]))
  }

  /** Every CON ever accepted is still pending, was cancelled by a match or was given up; none is counted twice. */
  lemma {:induction false} Conservation(capacity: nat, ops: seq<Op>)
    ensures var l := Account(capacity, ops);
      l.accepted == Pending(Run(capacity, ops)) + l.cancelled + l.givenUp
  {
    if ops == [] {
      NothingPending(capacity);
    } else {
      hide StepTable, Pending, AcceptedBy, CancelledBy, GivenUpBy;
      var before, op := ops[..|ops| - 1], ops[|ops| - 1];
      var table := Run(capacity, before);
      Conservation(capacity, before);
      StepConserves(table, op);
      Balance(Account(capacity, before), Pending(table), Pending(StepTable(table, op)),
        Ledger(AcceptedBy(table, op), CancelledBy(table, op), GivenUpBy(table, op)));
    }
  }

  lemma {:induction false} NothingPending(capacity: nat)
    ensures Pending(seq(capacity, _ => None)) == multiset{}
  {
    if capacity > 0 {
      NothingPending(capacity - 1);
      var table: Table := seq(capacity, _ => None);
      assert table[..capacity - 1] == seq(capacity - 1, _ => None);
    }
  }

  // ------------------------------------------------------- origin and timing

  /** The milliseconds ticked since operation `j`. */
  function Since(ops: seq<Op>, j: nat): nat
    requires j < |ops|
    decreases |ops|
  {
    if j == |ops| - 1 then 0
    else Since(ops[..|ops| - 1], j) + if ops[|ops| - 1].TickOp? then ops[|ops| - 1].delta else 0
  }

  predicate TicksAtMost(ops: seq<Op>, step: nat) {
    forall i :: 0 <= i < |ops| && ops[i].TickOp? ==> ops[i].delta <= step
  }

  /** A datagram that cancels the CON with this message ID to this destination. */
  predicate Cancels(op: Op, destination: Endpoint, messageId: uint16) {
    op.ReceiveOp? && op.sender == destination && Parse(op.data).Ok? && AcksOrRejects(op.data, messageId)
  }

  /** Some operation after the Send `j` cancels what it sent. */
  predicate IsCancelled(ops: seq<Op>, j: nat)
    requires j < |ops| && ops[j].SendOp?
  {
    exists n :: j < n < |ops| && Cancels(ops[n], ops[j].dest, ops[j].msg.messageId)
  }

  /**
   * What has become of the entry that a Send put into a slot: whether it is still there, what
   * the slot has transmitted since and when it was given up, with the milliseconds since the Send.
   */
  datatype Life = Life(live: bool, resent: seq<(nat, Transmission)>, givenUp: seq<nat>)

  function At(age: nat, sent: seq<Transmission>): seq<(nat, Transmission)> {
    seq(|sent|, k requires 0 <= k < |sent| => (age, sent[k]))
  }

  /** The effect of one more operation on the entry in slot `i`; `age` is the time after it. */
  function LifeStep(life: Life, table: Table, op: Op, i: nat, age: nat): Life {
    if !life.live || i >= |table| || table[i].None? then life
    else
      var fate := if op.TickOp? then TickSlot(table[i], op.delta) else Fate(None, [], []);
      Life(!Ends(table[i].value, op),
        life.resent + At(age, fate.sent),
        life.givenUp + if fate.givenUp == [] then [] else [age])
  }

  /** The life of the entry that operation `j` put into slot `i`. */
  function LifeOf(capacity: nat, ops: seq<Op>, j: nat, i: nat): Life
    requires j < |ops|
    decreases |ops|
  {
    var n := |ops| - 1;
    if j == n then Life(true, [], [])
    else LifeStep(LifeOf(capacity, ops[..n], j, i), Run(capacity, ops[..n]), ops[n], i, Since(ops, j))
  }

  /** Operation `j` is a Send that fills slot `i`. */
  predicate IsSendInto(capacity: nat, ops: seq<Op>, j: nat, i: nat) {
    && j < |ops| && ops[j].SendOp?
    && IsTaken(Run(capacity, ops[..j]), ops[j].msg) && FirstFree(Run(capacity, ops[..j])) == i
  }

  /** The `m`-th retransmission repeats what was sent and falls into its window. */
  predicate IsInWindow(resent: (nat, Transmission), first: Transmission, m: nat, step: nat) {
    resent.1 == first && Due(m) <= resent.0 < Due(m) + m * step
  }

  /** At most four retransmissions, each in its window, then giving up in the last one. */
  predicate IsPunctual(life: Life, first: Transmission, step: nat) {
    && |life.resent| <= 4
    && (forall m :: 0 <= m < |life.resent| ==> IsInWindow(life.resent[m], first, m + 1, step))
    && (life.givenUp != [] ==>
      |life.givenUp| == 1 && |life.resent| == 4 && 62000 <= life.givenUp[0] < 62000 + 5 * step)
  }

  /** `k` retransmissions are all that were due by `now`, up to the ticks' delay. */
  predicate IsUpToDate(k: nat, now: nat, step: nat) {
    Due(k) <= now < Due(k + 1) + k * step
  }

  /** While it lives the slot holds what was sent, and its timer has fired as often as it is old. */
  predicate IsAlive(life: Life, slot: Slot, sent: Slot, age: nat, step: nat) {
    SameExchange(slot, sent) && slot.retry.count == |life.resent| && IsOnTime(slot.retry, age, step)
  }

  /** The slot that a Send fills. */
  function SlotOf(op: Op): Slot
    requires op.SendOp?
  {
    Slot(op.dest, Serialized(op.msg), op.msg.messageId, ARMED)
  }

  /** A tick of a living entry keeps its life punctual. */
  lemma TickKeepsLife(life: Life, slot: Slot, sent: Slot, age: nat, step: nat, delta: uint32, table: Table, i: nat)
    requires life.live && life.givenUp == [] && i < |table| && table[i] == Some(slot)
    requires IsAlive(life, slot, sent, age, step) && IsPunctual(life, Transmission(sent.destination, sent.bytes), step)
    requires delta <= step <= MAX_STEP
    ensures var life' := LifeStep(life, table, TickOp(delta), i, age + delta);
      && IsPunctual(life', Transmission(sent.destination, sent.bytes), step)
      && (life'.live <==> life'.givenUp == []) && (life'.live <==> !Ends(slot, TickOp(delta)))
      && (life'.live ==> IsAlive(life', slot.(retry := Advance(slot.retry, delta).0), sent, age + delta, step))
  {
    hide IsOnTime, IsInWindow, Advance;
    AdvanceOnTime(slot.retry, age, step, delta);
    FiredInWindow(slot, sent, age, step, delta);
  }

  lemma FiredInWindow(slot: Slot, sent: Slot, age: nat, step: nat, delta: uint32)
    requires SameExchange(slot, sent) && IsOnTime(slot.retry, age, step) && delta <= step <= MAX_STEP
    ensures Advance(slot.retry, delta).1.Retransmit? ==>
      IsInWindow((age + delta, Transmission(slot.destination, slot.bytes)),
        Transmission(sent.destination, sent.bytes), slot.retry.count + 1, step)
    ensures Advance(slot.retry, delta).1.GiveUp? ==>
      slot.retry.count == 4 && 62000 <= age + delta < 62000 + 5 * step
  {
    AdvanceOnTime(slot.retry, age, step, delta);
    DueTimes();
    hide IsOnTime, Advance, Due;
  }

  /** What holds of the entry after every operation since it was filled. */
  predicate IsLife(capacity: nat, ops: seq<Op>, step: nat, j: nat, i: nat)
    requires IsSendInto(capacity, ops, j, i)
  {
    var life, table := LifeOf(capacity, ops, j, i), Run(capacity, ops);
    && IsPunctual(life, Transmission(ops[j].dest, Serialized(ops[j].msg)), step)
    && (life.live <==> life.givenUp == [] && !IsCancelled(ops, j))
    && (life.live ==> i < |table| && table[i].Some? && IsAlive(life, table[i].value, SlotOf(ops[j]), Since(ops, j), step))
  }

  lemma IsCancelledStep(ops: seq<Op>, op: Op, j: nat)
    requires j < |ops| && ops[j].SendOp?
    ensures IsCancelled(ops + [op], j) <==> IsCancelled(ops, j) || Cancels(op, ops[j].dest, ops[j].msg.messageId)
  {
    hide Cancels;
    var all := ops + [op];
    if IsCancelled(ops, j) {
      var n :| j < n < |ops| && Cancels(ops[n], ops[j].dest, ops[j].msg.messageId);
      assert all[n] == ops[n];
    }
    if Cancels(op, ops[j].dest, ops[j].msg.messageId) {
      assert all[|ops|] == op;
    }
  }

  lemma LifeStarts(capacity: nat, ops: seq<Op>, op: Op, step: nat, i: nat)
    requires IsSendInto(capacity, ops + [op], |ops|, i)
    ensures IsLife(capacity, ops + [op], step, |ops|, i)
  {
    hide IsSerializable, Serialized, IsInWindow, Cancels;
    assert (ops + [op])[..|ops|] == ops;
    assert IsOnTime(ARMED, 0, step);
  }

  lemma LifeGoesOn(capacity: nat, ops: seq<Op>, op: Op, step: nat, j: nat, i: nat)
    requires j < |ops| && IsSendInto(capacity, ops + [op], j, i) && IsSendInto(capacity, ops, j, i)
    requires IsLife(capacity, ops, step, j, i)
    requires step <= MAX_STEP && (op.TickOp? ==> op.delta <= step)
    ensures IsLife(capacity, ops + [op], step, j, i)
  {
    hide StepTable, IsTaken, Serialized, IsCancelled, IsInWindow, IsOnTime, Cancels, Ends, LifeStep;
    var all, table := ops + [op], Run(capacity, ops);
    assert all[..|ops|] == ops && all[j] == ops[j];
    IsCancelledStep(ops, op, j);
    TickCancelsNothing(op, ops[j].dest, ops[j].msg.messageId);
    var life := LifeOf(capacity, ops, j, i);
    var age, first := Since(ops, j), Transmission(ops[j].dest, Serialized(ops[j].msg));
    assert LifeOf(capacity, all, j, i) == LifeStep(life, table, op, i, Since(all, j));
    assert Run(capacity, all) == StepTable(table, op);
    if !life.live {
      DeadStaysDead(life, table, op, i, Since(all, j));
    } else {
      FateOfEntry(table, op, i);
      if op.TickOp? {
        assert op == TickOp(op.delta) && Since(all, j) == age + op.delta;
        TickKeepsLife(life, table[i].value, SlotOf(ops[j]), age, step, op.delta, table, i);
      } else {
        assert Since(all, j) == age;
        OtherKeepsLife(life, table[i].value, SlotOf(ops[j]), age, step, op, table, i);
      }
    }
  }

  lemma TickCancelsNothing(op: Op, destination: Endpoint, messageId: uint16)
    ensures op.TickOp? ==> !Cancels(op, destination, messageId)
  {
  }

  lemma DeadStaysDead(life: Life, table: Table, op: Op, i: nat, age: nat)
    requires !life.live
    ensures LifeStep(life, table, op, i, age) == life
  {
  }

  /** What is not a tick either cancels the entry or leaves it as it is. */
  lemma OtherKeepsLife(life: Life, slot: Slot, sent: Slot, age: nat, step: nat, op: Op, table: Table, i: nat)
    requires life.live && life.givenUp == [] && i < |table| && table[i] == Some(slot) && !op.TickOp?
    requires SameExchange(slot, sent)
    ensures LifeStep(life, table, op, i, age) == life.(live := !Cancels(op, sent.destination, sent.messageId))
    ensures Ends(slot, op) <==> Cancels(op, sent.destination, sent.messageId)
  {
    hide IsCancelling;
    assert life.resent + [] == life.resent;
    var none: seq<Transmission> := [];
    assert At(age, none) == [];
  }

  /** Over every run, of the entry of every accepted CON. */
  lemma {:induction false} EveryLifeIsPunctual(capacity: nat, ops: seq<Op>, step: nat, j: nat, i: nat)
    requires TicksAtMost(ops, step) && step <= MAX_STEP && IsSendInto(capacity, ops, j, i)
    ensures IsLife(capacity, ops, step, j, i)
    decreases |ops|
  {
    hide IsLife, Run, IsTaken;
    var n := |ops| - 1;
    var before, op := ops[..n], ops[n];
    assert ops == before + [op];
    if j == n {
      LifeStarts(capacity, before, op, step, i);
    } else {
      assert ops[..j] == before[..j];
      EveryLifeIsPunctual(capacity, before, step, j, i);
      LifeGoesOn(capacity, before, op, step, j, i);
    }
  }

  /**
   * Sections 4.2 and 4.8 of RFC 7252, for every accepted CON of every run with ticks of at
   * most `step`: its slot repeats exactly what was first sent at most four times, the m-th
   * time at 2000(2^m - 1) <= T < 2000(2^m - 1) + m * step milliseconds after the Send, and
   * gives it up at most once, after the fourth time, at 62000 <= T < 62000 + 5 * step. It
   * leaves its slot only by that or by a cancelling datagram; while it stays, everything due
   * has been repeated. So without one it has been given up once T reaches 62000 + 4 * step.
   */
  lemma FiresOnTime(capacity: nat, ops: seq<Op>, step: nat, j: nat)
    requires TicksAtMost(ops, step) && step <= MAX_STEP
    requires j < |ops| && ops[j].SendOp? && IsTaken(Run(capacity, ops[..j]), ops[j].msg)
    ensures var i := FirstFree(Run(capacity, ops[..j]));
      var life := LifeOf(capacity, ops, j, i);
      var first, k, now := Transmission(ops[j].dest, Serialized(ops[j].msg)), |life.resent|, Since(ops, j);
      && IsPunctual(life, first, step)
      && (life.live <==> life.givenUp == [] && !IsCancelled(ops, j))
      && (life.live ==>
        && i < |Run(capacity, ops)| && Run(capacity, ops)[i].Some?
        && SameExchange(Run(capacity, ops)[i].value, SlotOf(ops[j]))
        && IsUpToDate(k, now, step))
      && (now >= 62000 + 4 * step && !IsCancelled(ops, j) ==> |life.givenUp| == 1)
  {
    var i := FirstFree(Run(capacity, ops[..j]));
    var life := LifeOf(capacity, ops, j, i);
    EveryLifeIsPunctual(capacity, ops, step, j, i);
    hide IsTaken, Run, IsPunctual, IsUpToDate, IsAlive, IsCancelled, LifeOf, Since, SameExchange, FirstFree;
    GivenUpOnce(life, Transmission(ops[j].dest, Serialized(ops[j].msg)), step);
    if life.live {
      AliveIsYoung(life, Run(capacity, ops)[i].value, SlotOf(ops[j]), Since(ops, j), step);
    }
  }

  lemma GivenUpOnce(life: Life, first: Transmission, step: nat)
    requires IsPunctual(life, first, step)
    ensures life.givenUp != [] ==> |life.givenUp| == 1
  {
  }

  lemma AliveIsYoung(life: Life, slot: Slot, sent: Slot, age: nat, step: nat)
    requires IsAlive(life, slot, sent, age, step)
    ensures SameExchange(slot, sent)
    ensures IsUpToDate(|life.resent|, age, step)
    ensures age < 62000 + 4 * step
  {
    CountFollowsAge(slot.retry, age, step);
    hide Due, IsOnTime;
  }

  /** The entry in slot `i` is the one that operation `j` sent, and its timer fits the time since then. */
  predicate IsOrigin(capacity: nat, ops: seq<Op>, step: nat, i: nat, slot: Slot, j: nat) {
    && IsSendInto(capacity, ops, j, i) && LifeOf(capacity, ops, j, i).live
    && SameExchange(slot, SlotOf(ops[j])) && IsOnTime(slot.retry, Since(ops, j), step)
  }

  lemma StepLength(table: Table, op: Op)
    ensures |StepTable(table, op)| == |table|
  {
    hide Advance, IsCancelling, IsSerializable, Serialized;
    if op.TickOp? {
      TickLength(table, op.delta);
      hide TickAll;
    }
  }

  /** Only a Send fills a free slot, and only the first one. */
  lemma FreeSlot(table: Table, op: Op, i: nat)
    requires i < |table| == |StepTable(table, op)| && table[i].None? && StepTable(table, op)[i].Some?
    ensures op.SendOp? && IsTaken(table, op.msg) && FirstFree(table) == i
  {
    hide Advance, IsCancelling, IsTaken, Serialized;
    if op.TickOp? {
      TickAt(table, op.delta, i);
      hide TickAll;
    }
  }

  /** The entry was already there, or this operation is the Send that filled it. */
  lemma NewEntry(table: Table, op: Op, i: nat)
    requires i < |StepTable(table, op)| && StepTable(table, op)[i].Some?
    ensures |StepTable(table, op)| == |table|
    ensures table[i].None? ==> op.SendOp? && IsTaken(table, op.msg) && FirstFree(table) == i
    ensures table[i].Some? ==> !Ends(table[i].value, op)
  {
    hide StepTable, IsTaken, Ends, FirstFree;
    StepLength(table, op);
    if table[i].Some? {
      FateOfEntry(table, op, i);
    } else {
      FreeSlot(table, op, i);
    }
  }

  /** Every live slot holds what some accepted Send has sent. */
  lemma {:induction false} OriginsExist(capacity: nat, ops: seq<Op>, step: nat, i: nat) returns (j: nat)
    requires TicksAtMost(ops, step) && step <= MAX_STEP
    requires i < |Run(capacity, ops)| && Run(capacity, ops)[i].Some?
    ensures IsOrigin(capacity, ops, step, i, Run(capacity, ops)[i].value, j)
    decreases |ops|
  {
    hide StepTable, IsTaken, Serialized, IsOnTime, Ends;
    var n := |ops| - 1;
    var before, op := ops[..n], ops[n];
    assert ops == before + [op];
    var table := Run(capacity, before);
    NewEntry(table, op, i);
    if table[i].None? {
      j := n;
    } else {
      j := OriginsExist(capacity, before, step, i);
      assert ops[..j] == before[..j];
    }
    EveryLifeIsPunctual(capacity, ops, step, j, i);
  }
}

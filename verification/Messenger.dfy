/** `Messenger` over its fixed pool of retransmission slots. */
module Messaging {
  import opened Bytes
  import opened Pdu
  import opened Serializer
  import opened Deserializer
  import opened Retransmission
  import opened PendingTable
  import WireFormat

  class PendingSlot {
    var destination: Endpoint
    const buffer: array<byte>
    var size: nat
    var messageId: uint16
    var elapsedMs: uint32
    var timeoutMs: uint32
    var retransmitCount: uint8

    ghost predicate Valid()
      reads this
    {
      buffer.Length == MAX_MESSAGE_SIZE && size <= MAX_MESSAGE_SIZE
    }

    ghost function Value(): Slot
      reads this, buffer
      requires Valid()
    {
      Slot(destination, buffer[..size], messageId, Retry(elapsedMs, timeoutMs, retransmitCount))
    }

    constructor ()
      ensures Valid() && fresh(buffer)
    {
      destination := seq(32, _ => 0);
      buffer := new byte[MAX_MESSAGE_SIZE](_ => 0);
      size, messageId, elapsedMs, timeoutMs, retransmitCount := 0, 0, 0, 0, 0;
    }

    /** `RetransmitState::Advance`. */
    method AdvanceRetry(delta: uint32) returns (action: Action)
      requires Valid()
      modifies this`elapsedMs, this`timeoutMs, this`retransmitCount
      ensures Valid() && (Value().retry, action) == Advance(old(Value().retry), delta)
      ensures Value() == old(Value()).(retry := Value().retry)
    {
      elapsedMs := ToU32(elapsedMs + delta);
      if elapsedMs < timeoutMs {
        return Waiting;
      }
      if retransmitCount >= MAX_RETRANSMIT {
        return GiveUp;
      }
      retransmitCount := ToU8(retransmitCount + 1);
      timeoutMs := ToU32(timeoutMs * 2);
      elapsedMs := 0;
      return Retransmit;
    }

    method ResetRetry(initialTimeoutMs: uint32)
      modifies this`elapsedMs, this`timeoutMs, this`retransmitCount
      ensures elapsedMs == 0 && timeoutMs == initialTimeoutMs && retransmitCount == 0
    {
      elapsedMs, timeoutMs, retransmitCount := 0, initialTimeoutMs, 0;
    }
  }

  class Messenger {
    const slots: seq<PendingSlot>
    const occupied: array<bool>
    var count: nat
    const txScratch: array<byte>
    /** The pool as a value. */
    ghost var table: Table
    /** The calls made so far to the transport's `Send` and to the handler. */
    var sent: seq<Transmission>
    var timeouts: seq<(Endpoint, uint16)>
    var rsts: seq<(Endpoint, uint16)>
    var dispatched: seq<(Endpoint, Message)>

    ghost predicate Separated() {
      && (forall i, j :: 0 <= i < j < |slots| ==> slots[i] != slots[j] && slots[i].buffer != slots[j].buffer)
      && (forall i :: 0 <= i < |slots| ==> slots[i].buffer != txScratch)
    }

    ghost predicate Agrees(i: nat)
      reads this`table, occupied, slots, Buffers()
      requires i < |slots| == |table| == occupied.Length
    {
      slots[i].Valid() && table[i] == if occupied[i] then Some(slots[i].Value()) else None
    }

    ghost function Buffers(): set<object> {
      set s | s in slots :: s.buffer
    }

    /** The bitmap and the slots are the table, and `count` is the number of occupied bits. */
    ghost predicate Valid()
      reads this`count, this`table, occupied, slots, Buffers()
    {
      && Separated() && txScratch.Length == MAX_MESSAGE_SIZE
      && |slots| == |table| == occupied.Length
      && (forall i :: 0 <= i < |slots| ==> Agrees(i))
      && count == Live(table)
    }

    constructor (capacity: nat)
      ensures Valid() && table == seq(capacity, _ => None)
      ensures sent == [] && timeouts == [] && rsts == [] && dispatched == []
    {
      var pool: seq<PendingSlot> := [];
      for i := 0 to capacity
        invariant |pool| == i && (forall k :: 0 <= k < i ==> pool[k].Valid() && allocated(pool[k]) && allocated(pool[k].buffer))
        invariant forall k, l :: 0 <= k < l < i ==> pool[k] != pool[l] && pool[k].buffer != pool[l].buffer
      {
        var slot := new PendingSlot();
        pool := pool + [slot];
      }
      slots := pool;
      occupied := new bool[capacity](_ => false);
      txScratch := new byte[MAX_MESSAGE_SIZE](_ => 0);
      count := 0;
      table := seq(capacity, _ => None);
      sent, timeouts, rsts, dispatched := [], [], [], [];
      new;
      NoneIsLive(capacity);
    }

    /** `transport_.Send`: the attempt is recorded; what the transport answers is an input of `Send`. */
    method TransportSend(to: Endpoint, bytes: Span)
      requires Valid()
      modifies this`sent
      ensures Valid() && sent == old(sent) + [Transmission(to, bytes)]
    {
      sent := sent + [Transmission(to, bytes)];
      forall k | 0 <= k < |slots| ensures Agrees(k) {
        assert old(Agrees(k));
      }
    }

    /** `handler_->OnConTimeout`. */
    method CallOnConTimeout(to: Endpoint, messageId: uint16)
      requires Valid()
      modifies this`timeouts
      ensures Valid() && timeouts == old(timeouts) + [(to, messageId)]
    {
      timeouts := timeouts + [(to, messageId)];
      forall k | 0 <= k < |slots| ensures Agrees(k) {
        assert old(Agrees(k));
      }
    }

    /** Claims the first free slot; its contents are stale. */
    method Allocate() returns (i: nat)
      requires Valid() && count != |slots|
      modifies this`count, this`table, occupied
      ensures Valid() && i == FirstFree(old(table)) < |slots| && occupied[i]
      ensures table == old(table)[i := table[i]]
    {
      LiveAll(table);
      i := 0;
      while occupied[i]
        invariant i < |slots| && forall j :: 0 <= j < i ==> occupied[j]
        invariant exists j :: i <= j < |slots| && table[j].None?
        decreases |slots| - i
      {
        assert Agrees(i);
        i := i + 1;
      }
      assert Agrees(i);
      forall j | 0 <= j < i ensures table[j].Some? {
        assert Agrees(j);
      }
      FirstFreeIs(table, i);
      LiveUpdate(table, i, Some(slots[i].Value()));
      label Before:
      occupied[i] := true;
      count := count + 1;
      table := table[i := Some(slots[i].Value())];
      forall k | 0 <= k < |slots| ensures Agrees(k) {
        assert old@Before(Agrees(k));
      }
    }

    /** Returns an allocated slot. */
    method Release(i: nat)
      requires Valid() && i < |slots| && table[i].Some?
      modifies this`count, this`table, occupied
      ensures Valid() && table == old(table)[i := None]
    {
      assert Agrees(i);
      LiveUpdate(table, i, None);
      label Before:
      occupied[i] := false;
      count := count - 1;
      table := table[i := None];
      forall k | 0 <= k < |slots| ensures Agrees(k) {
        assert old@Before(Agrees(k));
      }
    }

    /** `retry.Advance` on an allocated slot. */
    method AdvanceSlot(i: nat, delta: uint32) returns (action: Action)
      requires Valid() && i < |slots| && occupied[i] && table[i].Some?
      modifies this`table, slots[i]
      ensures Valid() && occupied[i]
      ensures var slot := old(table[i]).value;
        && action == Advance(slot.retry, delta).1
        && table == old(table)[i := Some(slot.(retry := Advance(slot.retry, delta).0))]
    {
      hide Advance, Live;
      assert Agrees(i);
      label Before:
      action := slots[i].AdvanceRetry(delta);
      ghost var entry := Some(slots[i].Value());
      LiveUpdate(table, i, entry);
      table := table[i := entry];
      forall k | 0 <= k < |slots| ensures Agrees(k) {
        assert old@Before(Agrees(k));
      }
    }

    /** The callback of `Tick` on slot `i`, if it is allocated. */
    method TickOne(i: nat, delta: uint32)
      requires Valid() && i < |slots|
      modifies this`count, this`table, this`sent, this`timeouts, occupied, slots[i]
      ensures Valid()
      ensures var fate := TickSlot(old(table[i]), delta);
        && table == old(table)[i := fate.entry]
        && sent == old(sent) + fate.sent
        && timeouts == old(timeouts) + Timeouts(fate.givenUp)
    {
      hide Advance, Live;
      assert Agrees(i);
      assert sent + [] == sent && timeouts + [] == timeouts;
      if !occupied[i] {
        return;
      }
      ghost var before := table;
      var action := AdvanceSlot(i, delta);
      assert Agrees(i);
      ghost var slot := before[i].value;
      assert table[i] == Some(slot.(retry := Advance(slot.retry, delta).0));
      match action {
        case Waiting =>
        case Retransmit =>
          TransportSend(slots[i].destination, slots[i].buffer[..slots[i].size]);
        case GiveUp =>
          CallOnConTimeout(slots[i].destination, slots[i].messageId);
          Release(i);
          assert table == before[i := None];
      }
    }

    ghost function Repr(): set<object> {
      {this, occupied, txScratch} + (set s | s in slots) + Buffers()
    }

    method Tick(elapsedMs: uint32)
      requires Valid()
      modifies Repr()
      ensures Valid()
      ensures var ticked := TickAll(old(table), elapsedMs);
        && table == ticked.table
        && sent == old(sent) + ticked.sent
        && timeouts == old(timeouts) + Timeouts(ticked.givenUp)
      ensures rsts == old(rsts) && dispatched == old(dispatched)
    {
      hide Valid, TickSlot, TickAll, Timeouts;
      TableLength();
      ghost var before := table;
      ghost var done := TickAll(before[..0], elapsedMs);
      TickNothing(before, elapsedMs);
      for i := 0 to |slots|
        invariant Valid() && |before| == |slots| && done == TickAll(before[..i], elapsedMs)
        invariant |done.table| == i && table == done.table + before[i..]
        invariant sent == old(sent) + done.sent && timeouts == old(timeouts) + Timeouts(done.givenUp)
        invariant rsts == old(rsts) && dispatched == old(dispatched)
      {
        ghost var fate := TickSlot(before[i], elapsedMs);
        TickOneMore(before, i, elapsedMs);
        TimeoutsAppend(done.givenUp, fate.givenUp);
        assert table[i] == before[i];
        SpliceEntry(done.table, before, i, fate.entry);
        TickOne(i, elapsedMs);
        assert old(sent) + done.sent + fate.sent == old(sent) + (done.sent + fate.sent);
        assert old(timeouts) + Timeouts(done.givenUp) + Timeouts(fate.givenUp)
          == old(timeouts) + (Timeouts(done.givenUp) + Timeouts(fate.givenUp));
        done := TickAll(before[..i + 1], elapsedMs);
      }
      assert before[..|slots|] == before && done.table + before[|slots|..] == done.table;
    }

    lemma TableLength()
      requires Valid()
      ensures |table| == |slots|
    {
    }

    /** The callback of `AckPending` on slot `i`, if it is allocated. */
    method AckOne(i: nat, sender: Endpoint, messageId: uint16)
      requires Valid() && i < |slots|
      modifies this`count, this`table, occupied
      ensures Valid()
      ensures table == old(table)[i := if Matches(old(table[i]), sender, messageId) then None else old(table[i])]
    {
      assert Agrees(i);
      if !occupied[i] {
        return;
      }
      if slots[i].messageId == messageId && slots[i].destination == sender {
        Release(i);
      }
    }

    method AckPending(sender: Endpoint, messageId: uint16)
      requires Valid()
      modifies this`count, this`table, occupied
      ensures Valid() && table == AckAll(old(table), sender, messageId)
    {
      hide Live;
      ghost var before := table;
      for i := 0 to |slots|
        invariant Valid() && |before| == |slots|
        invariant forall k :: 0 <= k < i ==> table[k] == AckAll(before, sender, messageId)[k]
        invariant forall k :: i <= k < |slots| ==> table[k] == before[k]
      {
        AckOne(i, sender, messageId);
      }
    }

    /** Serializes into `buffer` of slot `i`. */
    method FillSlot(i: nat, dest: Endpoint, msg: OutgoingMessage) returns (ok: bool)
      requires Valid() && i < |slots| && occupied[i]
      modifies this`table, slots[i], slots[i].buffer
      ensures Valid() && (ok <==> IsSerializable(msg))
      ensures exists entry: Slot :: table == old(table)[i := Some(entry)]
      ensures ok ==> table == old(table)[i := Some(Slot(dest, Serialized(msg), msg.messageId, ARMED))]
    {
      hide Required, WireFormat.EncodeDatagram, Denote;
      assert Agrees(i);
      label Before:
      var slot := slots[i];
      var error, written := Serialize(msg, slot.buffer);
      if error.Ok? {
        slot.destination := dest;
        slot.size := written;
        slot.messageId := msg.messageId;
        slot.ResetRetry(ACK_TIMEOUT_MS);
      }
      LiveUpdate(table, i, Some(slot.Value()));
      table := table[i := Some(slot.Value())];
      forall k | 0 <= k < |slots| ensures Agrees(k) {
        assert old@Before(Agrees(k));
      }
      ok := error.Ok?;
    }

    /** `transportOk` is what the transport answers if it is asked. */
    method Send(dest: Endpoint, msg: OutgoingMessage, transportOk: bool) returns (error: MessengerError)
      requires Valid()
      modifies Repr()
      ensures Valid() && table == SendTable(old(table), dest, msg)
      ensures var room := msg.mtype != Con || exists i :: 0 <= i < |old(table)| && old(table)[i].None?;
        var fits := !msg.callback.Refuses? && |Serialized(msg)| + (if msg.callback == Writes([]) then 1 else 0) <= 1232;
        && sent == old(sent) + (if room && fits then [Transmission(dest, Serialized(msg))] else [])
        && error == (if !room then NoPendingSlot else if !fits then SerializeFailed else if transportOk then SendOk else TransportFailed)
      ensures msg.mtype == Con ==> (table == old(table) <==> error == NoPendingSlot || error == SerializeFailed)
      ensures timeouts == old(timeouts) && rsts == old(rsts) && dispatched == old(dispatched)
    {
      SendInTerms(table, msg, transportOk);
      if msg.mtype == Con {
        FailedSendLeavesNoTrace(table, dest, msg, transportOk);
        hide SendTable, SendResult, IsSent, Serialized, IsSerializable;
        error := SendTracked(dest, msg, transportOk);
      } else {
        hide IsSerializable, Serialized;
        error := SendOnce(dest, msg, transportOk);
      }
    }

    /** Claims a slot, serializes into it and sends from it. */
    method SendTracked(dest: Endpoint, msg: OutgoingMessage, transportOk: bool) returns (error: MessengerError)
      requires Valid() && msg.mtype == Con
      modifies Repr()
      ensures Valid() && table == SendTable(old(table), dest, msg)
      ensures sent == old(sent) + if IsSent(old(table), msg) then [Transmission(dest, Serialized(msg))] else []
      ensures error == SendResult(old(table), msg, transportOk)
      ensures timeouts == old(timeouts) && rsts == old(rsts) && dispatched == old(dispatched)
    {
      hide IsSerializable, Serialized, Live;
      assert sent + [] == sent;
      FullExactly(table);
      if count == |slots| {
        return NoPendingSlot;
      }
      ghost var before := table;
      var i := Allocate();
      var ok := FillSlot(i, dest, msg);
      if !ok {
        Release(i);
        assert table == before;
        return SerializeFailed;
      }
      assert Agrees(i);
      TransportSend(dest, slots[i].buffer[..slots[i].size]);
      return if transportOk then SendOk else TransportFailed;
    }

    /** Serializes into the scratch buffer and sends without tracking. */
    method SendOnce(dest: Endpoint, msg: OutgoingMessage, transportOk: bool) returns (error: MessengerError)
      requires Valid()
      modifies this`sent, txScratch
      ensures Valid()
      ensures sent == old(sent) + if IsSerializable(msg) then [Transmission(dest, Serialized(msg))] else []
      ensures error == if !IsSerializable(msg) then SerializeFailed else if transportOk then SendOk else TransportFailed
    {
      hide Required, WireFormat.EncodeDatagram, Denote, Live;
      assert sent + [] == sent;
      label Before:
      var e, written := Serialize(msg, txScratch);
      forall k | 0 <= k < |slots| ensures Agrees(k) {
        assert old@Before(Agrees(k));
      }
      if !e.Ok? {
        return SerializeFailed;
      }
      TransportSend(dest, txScratch[..written]);
      return if transportOk then SendOk else TransportFailed;
    }

    method SendRst(to: Endpoint, messageId: uint16)
      requires Valid()
      modifies this`sent, txScratch
      ensures Valid() && sent == old(sent) + [Transmission(to, RstBytes(messageId))]
    {
      var rst := OutgoingMessage(Rst, EMPTY_CODE, messageId, [], [], NoCallback);
      RstFits(rst);
      hide Required, WireFormat.EncodeDatagram, Denote, Live;
      var _ := SendOnce(to, rst, true);
    }

    method OnReceive(sender: Endpoint, data: Span)
      requires Valid()
      modifies Repr()
      ensures Valid() && table == ReceiveTable(old(table), sender, data)
      ensures sent == old(sent) + RstTo(sender, data)
      ensures rsts == old(rsts) + RstCalls(sender, data)
      ensures dispatched == old(dispatched) + Dispatch(sender, data)
      ensures timeouts == old(timeouts)
    {
      hide Parse, HeaderOf, MessageOf, WireFormat.EncodeDatagram, Live, RstBytes;
      var r := Deserialize(data);
      if r.Error? {
        var header := DeserializeFixedHeader(data);
        if header.Ok? && header.value.mtype == Con {
          SendRst(sender, header.value.messageId);
        }
        return;
      }
      var msg := r.value;
      MessageFields(Parse(data).value);
      if !IsValidTypeCodeCombination(msg.mtype, msg.code) {
        return;
      }
      if msg.mtype == Ack || msg.mtype == Rst {
        AckPending(sender, msg.messageId);
      }
      if msg.mtype == Rst {
        rsts := rsts + [(sender, msg.messageId)];
        return;
      }
      if msg.mtype == Con && msg.code == EMPTY_CODE {
        SendRst(sender, msg.messageId);
        return;
      }
      dispatched := dispatched + [(sender, msg)];
    }
  }

  lemma TickNothing(table: Table, delta: uint32)
    ensures TickAll(table[..0], delta) == Ticked([], [], []) && Timeouts([]) == []
  {
  }

  lemma TickOneMore(table: Table, i: nat, delta: uint32)
    requires i < |table|
    ensures var before, fate := TickAll(table[..i], delta), TickSlot(table[i], delta);
      TickAll(table[..i + 1], delta) ==
        Ticked(before.table + [fate.entry], before.sent + fate.sent, before.givenUp + fate.givenUp)
  {
    assert table[..i + 1][..i] == table[..i];
  }

  lemma SpliceEntry(done: Table, before: Table, i: nat, entry: Option<Slot>)
    requires |done| == i < |before|
    ensures (done + before[i..])[i := entry] == (done + [entry]) + before[i + 1..]
  {
  }

  lemma MessageFields(d: WireFormat.Datagram)
    ensures MessageOf(d).mtype == d.mtype && MessageOf(d).code == d.code && MessageOf(d).messageId == d.messageId
  {
  }

  lemma RstFits(rst: OutgoingMessage)
    requires rst == OutgoingMessage(Rst, EMPTY_CODE, rst.messageId, [], [], NoCallback)
    ensures IsSerializable(rst) && Serialized(rst) == RstBytes(rst.messageId)
  {
  }

  lemma FullExactly(table: Table)
    ensures Live(table) == |table| <==> FirstFree(table) == |table|
  {
    LiveAll(table);
  }

  lemma NoneIsLive(capacity: nat)
    ensures Live(seq(capacity, _ => None)) == 0
  {
    if capacity > 0 {
      NoneIsLive(capacity - 1);
      var table: Table := seq(capacity, _ => None);
      assert table[..capacity - 1] == seq(capacity - 1, _ => None);
    }
  }

  lemma FirstFreeIs(table: Table, i: nat)
    requires i < |table| && table[i].None? && forall j :: 0 <= j < i ==> table[j].Some?
    ensures FirstFree(table) == i
  {
  }
}

/** `ObservableBase`: the code that keeps the observer list of one resource (RFC 7641). */
module Observing {
  import opened Bytes
  import opened CoapOption
  import opened Pdu
  import opened Block
  import opened Server
  import opened ObserverTable
  import opened ObserverRuns

  const OBSERVE_REGISTER: uint32 := 0
  const OBSERVE_DEREGISTER: uint32 := 1

  lemma NotifyStart(table: Observers, n: Notification, mid: uint16)
    ensures |NotifyAll(table, n, mid)| == |table|
    ensures Notifications(table[..0], n, mid) == [] && UsedCount(table[..0]) == 0 && ToU16(mid + 0) == mid
  {
  }

  lemma SpliceStep(after: Observers, table: Observers, i: nat)
    requires |after| == |table| && i < |table|
    ensures (after[..i] + table[i..])[i := after[i]] == after[..i + 1] + table[i + 1..]
  {
  }

  /** What the loop of `Notify` does at entry `i`. */
  lemma NotifyStep(table: Observers, n: Notification, mid: uint16, i: nat)
    requires i < |table|
    ensures var now := ToU16(mid + UsedCount(table[..i]));
      && |NotifyAll(table, n, mid)| == |table|
      && NotifyAll(table, n, mid)[i] == (if table[i].used then Notified(table[i], n, now) else table[i])
      && Notifications(table[..i + 1], n, mid)
         == Notifications(table[..i], n, mid) + (if table[i].used then [NotificationTo(table[i], n, now)] else [])
      && ToU16(mid + UsedCount(table[..i + 1])) == if table[i].used then ToU16(now + 1) else now
  {
    hide NotifyAll, Notified, NotificationTo, Notifications, UsedCount, ToU16;
    NotifyAllAt(table, n, mid, i);
    NotifiedOneMore(table, n, mid, i);
    UsedOneMore(table, i);
    NextMidIs(mid, UsedCount(table[..i]));
  }

  lemma NotifyAllAt(table: Observers, n: Notification, mid: uint16, i: nat)
    requires i < |table|
    ensures |NotifyAll(table, n, mid)| == |table|
    ensures NotifyAll(table, n, mid)[i] ==
      if table[i].used then Notified(table[i], n, ToU16(mid + UsedCount(table[..i]))) else table[i]
  {
    hide Notified, UsedCount, ToU16;
  }

  lemma NotifiedOneMore(table: Observers, n: Notification, mid: uint16, i: nat)
    requires i < |table|
    ensures Notifications(table[..i + 1], n, mid) == Notifications(table[..i], n, mid)
      + if table[i].used then [NotificationTo(table[i], n, ToU16(mid + UsedCount(table[..i])))] else []
  {
    hide NotificationTo, UsedCount, ToU16;
    assert table[..i + 1][..i] == table[..i];
  }

  lemma UsedOneMore(table: Observers, i: nat)
    requires i < |table|
    ensures UsedCount(table[..i + 1]) == UsedCount(table[..i]) + if table[i].used then 1 else 0
  {
    assert table[..i + 1][..i] == table[..i];
  }

  lemma NextMidIs(mid: uint16, k: nat)
    ensures ToU16(mid + (k + 1)) == ToU16(ToU16(mid + k) + 1) && ToU16(mid + (k + 0)) == ToU16(mid + k)
  {
  }

  /** A notification in the terms of a run. */
  lemma NotifyIsStep(b: Board, op: Op, conEvery: uint8)
    requires op.NotifyOp?
    ensures var success := ClassBits(op.resp.code) == 2;
      var sequence := if success then ToU32(b.sequence + 1) else b.sequence;
      var n := Notification(op.resp, success, op.type_, conEvery, if success then Some(ObserveValue(sequence)) else None);
      && Step(b, op, conEvery) == Board(NotifyAll(b.table, n, op.mid), sequence)
      && SentBy(b, op, conEvery) == Notifications(b.table, n, op.mid)
  {
    hide NotifyAll, Notifications, ObserveValue, ToU32;
  }

  // ----------------------------------------------------------------- the code

  class ObservableBase {
    const observers: array<ObserverEntry>
    const server: CoapServer
    const conEvery: uint8
    var sequence: uint32
    /** The server's next message ID when the latest Notify started. */
    ghost var base: uint16

    ghost predicate Valid()
      reads this`base, observers
    {
      observers.Length <= 0x1_0000 && Inv(observers[..], base)
    }

    ghost function State(): Board
      reads this`sequence, observers
    {
      Board(observers[..], sequence)
    }

    constructor (server: CoapServer, capacity: nat, conEvery: uint8)
      requires capacity <= 0x1_0000
      ensures Valid() && sequence == INITIAL_SEQUENCE && fresh(observers)
      ensures observers.Length == capacity && forall i :: 0 <= i < capacity ==> !observers[i].used
      ensures this.server == server && this.conEvery == conEvery
    {
      this.server, this.conEvery := server, conEvery;
      observers := new ObserverEntry[capacity](_ => ObserverEntry(seq(32, _ => 0), [], None, 0, false));
      sequence, base := INITIAL_SEQUENCE, 0;
    }

    /** Reports whether the requester observes now, and the Observe value for the response. */
    method HandleObserve(options: seq<OptionView>, sender: Endpoint, token: Token)
      returns (registered: bool, observe: Option<uint32>)
      requires Valid()
      modifies observers
      ensures Valid()
      ensures match FindUint(options, 6)
        case Some(value) =>
          if value == 1 then
            !registered && State() == Step(old(State()), DeregisterOp(sender, token), conEvery)
          else if value == 0 then
            && registered == (SlotFor(old(observers[..]), sender, token) < observers.Length)
            && State() == Step(old(State()), RegisterOp(sender, token), conEvery)
          else !registered && State() == old(State())
        case None => !registered && State() == old(State())
      ensures observe == if registered then Some(ObserveValue(sequence)) else None
    {
      hide Inv;
      var value := FindUint(options, OBSERVE);
      if value.None? {
        return false, None;
      }
      if value.value == OBSERVE_DEREGISTER {
        RemoveByEndpointToken(sender, token);
        return false, None;
      }
      if value.value != OBSERVE_REGISTER {
        return false, None;
      }
      ghost var table := observers[..];
      RegisterKeepsInv(table, base, sender, token);
      var slot := FindSlot(sender, token);
      if slot == observers.Length {
        return false, None;
      }
      observers[slot] := ObserverEntry(sender, token, None, 0, true);
      assert observers[..] == Register(table, sender, token);
      return true, Some(ObserveValue(sequence));
    }

    /** The search loop of a registration; the capacity stands for the null pointer. */
    method FindSlot(sender: Endpoint, token: Token) returns (slot: nat)
      ensures slot == SlotFor(observers[..], sender, token) <= observers.Length
    {
      ghost var table := observers[..];
      FirstForIs(table, sender, token);
      FirstUnusedIs(table);
      var free := observers.Length;
      for i := 0 to observers.Length
        invariant forall j :: 0 <= j < i ==> !IsFor(table[j], sender, token)
        invariant 0 <= free <= observers.Length && (free < observers.Length ==> free < i && !table[free].used)
        invariant forall j :: 0 <= j < i && j < free ==> table[j].used
      {
        var candidate := observers[i];
        if candidate.used {
          if candidate.endpoint == sender && candidate.token == token {
            return i;
          }
        } else if free == observers.Length {
          free := i;
        }
      }
      return free;
    }

    method RemoveByEndpointToken(endpoint: Endpoint, token: Token)
      requires Valid()
      modifies observers
      ensures Valid() && observers[..] == RemovePair(old(observers[..]), endpoint, token)
      ensures State() == Step(old(State()), DeregisterOp(endpoint, token), conEvery)
    {
      ghost var table := observers[..];
      RemovalKeepsInv(table, base, RemovePair(table, endpoint, token));
      hide Inv;
      for i := 0 to observers.Length
        invariant forall k :: 0 <= k < i ==> observers[k] == RemovePair(table, endpoint, token)[k]
        invariant forall k :: i <= k < observers.Length ==> observers[k] == table[k]
      {
        if observers[i].used && observers[i].endpoint == endpoint && observers[i].token == token {
          observers[i] := observers[i].(used := false);
        }
      }
      assert observers[..] == RemovePair(table, endpoint, token);
    }

    method RemoveByMid(endpoint: Endpoint, messageId: uint16)
      requires Valid()
      modifies observers
      ensures Valid() && observers[..] == RemoveMid(old(observers[..]), endpoint, messageId)
      ensures State() == Step(old(State()), RejectOp(endpoint, messageId), conEvery)
    {
      ghost var table := observers[..];
      RemovalKeepsInv(table, base, RemoveMid(table, endpoint, messageId));
      hide Inv;
      for i := 0 to observers.Length
        invariant forall k :: 0 <= k < i ==> observers[k] == RemoveMid(table, endpoint, messageId)[k]
        invariant forall k :: i <= k < observers.Length ==> observers[k] == table[k]
      {
        var e := observers[i];
        if e.used && e.lastMid.Some? && e.lastMid.value == messageId && e.endpoint == endpoint {
          observers[i] := e.(used := false);
        }
      }
      assert observers[..] == RemoveMid(table, endpoint, messageId);
    }

    method SelectMessageType(i: nat, type_: NotifyType) returns (mtype: MessageType)
      requires i < observers.Length
      modifies observers
      ensures var e := old(observers[i]);
        var con := SelectsCon(e.nonCount, type_, conEvery);
        && mtype == (if con then Con else Non)
        && observers[..] == old(observers[..])[i := e.(nonCount := NextNonCount(e.nonCount, con))]
    {
      var con := false;
      match type_ {
        case ForceCon => con := true;
        case ForceNon => con := false;
        case Auto => con := observers[i].nonCount + 1 >= conEvery as int;
      }
      observers[i] := observers[i].(nonCount := if con then 0 else (observers[i].nonCount + 1) % 0x100);
      return if con then Con else Non;
    }

    method Notify(resp: WireResponse, type_: NotifyType)
      requires Valid() && |resp.options| <= MAX_RESPONSE_OPTIONS
      modifies this`sequence, this`base, observers, server`sent, server`nextMid
      ensures Valid() && base == old(server.nextMid)
      ensures var op := NotifyOp(resp, type_, old(server.nextMid));
        && State() == Step(old(State()), op, conEvery)
        && server.sent == old(server.sent) + SentBy(old(State()), op, conEvery)
        && server.nextMid == ToU16(old(server.nextMid) + UsedCount(old(observers[..])))
    {
      hide Inv, NotifyAll, Notifications, ObserveValue, Step, SentBy, UsedCount;
      ghost var before := State();
      NotifyIsStep(before, NotifyOp(resp, type_, server.nextMid), conEvery);
      var success := ClassBits(resp.code) == 2;
      if success {
        sequence := ToU32(sequence + 1);
      }
      var observe := if success then Some(ObserveValue(sequence)) else None;
      ghost var n := Notification(resp, success, type_, conEvery, observe);
      NotifyKeepsInv(observers[..], base, n, server.nextMid);
      base := server.nextMid;
      NotifyObservers(n, resp, type_, observe, success);
    }

    /** The notification loop. */
    method NotifyObservers(ghost n: Notification, resp: WireResponse, type_: NotifyType, observe: Option<uint32>, success: bool)
      requires |resp.options| <= MAX_RESPONSE_OPTIONS && n == Notification(resp, success, type_, conEvery, observe)
      modifies observers, server`sent, server`nextMid
      ensures observers[..] == NotifyAll(old(observers[..]), n, old(server.nextMid))
      ensures server.sent == old(server.sent) + Notifications(old(observers[..]), n, old(server.nextMid))
      ensures server.nextMid == ToU16(old(server.nextMid) + UsedCount(old(observers[..])))
    {
      hide Notified, NotificationTo, NotifyAll, Notifications, UsedCount, ToU16;
      ghost var table, mid0, sent0 := observers[..], server.nextMid, server.sent;
      ghost var after := NotifyAll(table, n, mid0);
      NotifyStart(table, n, mid0);
      for i := 0 to observers.Length
        invariant observers[..] == after[..i] + table[i..]
        invariant server.sent == sent0 + Notifications(table[..i], n, mid0)
        invariant server.nextMid == ToU16(mid0 + UsedCount(table[..i]))
      {
        NotifyStep(table, n, mid0, i);
        ghost var now := observers[..];
        assert now[i] == table[i];
        if observers[i].used {
          NotifyOne(i, n, resp, type_, observe, success);
        }
        assert observers[..] == now[i := after[i]];
        SpliceStep(after, table, i);
      }
      assert table[..observers.Length] == table && after[..observers.Length] == after;
    }

    /** The body of the notification loop for a used entry. */
    method NotifyOne(i: nat, ghost n: Notification, resp: WireResponse, type_: NotifyType, observe: Option<uint32>, success: bool)
      requires i < observers.Length && observers[i].used && |resp.options| <= MAX_RESPONSE_OPTIONS
      requires n == Notification(resp, success, type_, conEvery, observe)
      modifies observers, server`sent, server`nextMid
      ensures observers[..] == old(observers[..])[i := Notified(old(observers[i]), n, old(server.nextMid))]
      ensures server.sent == old(server.sent) + [NotificationTo(old(observers[i]), n, old(server.nextMid))]
      ensures server.nextMid == ToU16(old(server.nextMid) + 1)
    {
      hide ResponseMessage;
      var mtype := SelectMessageType(i, type_);
      var e := observers[i];
      var mid := server.SendResponse(e.endpoint, mtype, 0, e.token, false, resp, observe);
      observers[i] := e.(lastMid := Some(mid));
      if !success {
        observers[i] := observers[i].(used := false);
      }
    }
  }

  /**
   * `CoapServer::OnRst` and `CoapServer::OnConTimeout`: every mounted observable, each with its
   * own storage, drops the observer whose latest notification is rejected.
   */
  method OnRejection(observables: seq<ObservableBase>, endpoint: Endpoint, messageId: uint16)
    requires forall i :: 0 <= i < |observables| ==> observables[i].Valid()
    requires forall i, j :: 0 <= i < j < |observables| ==> observables[i].observers != observables[j].observers
    modifies set o | o in observables :: o.observers
    ensures forall i :: 0 <= i < |observables| ==>
      && observables[i].Valid()
      && observables[i].State() == Step(old(observables[i].State()), RejectOp(endpoint, messageId), observables[i].conEvery)
  {
    hide Inv, Step;
    for i := 0 to |observables|
      invariant forall k :: 0 <= k < |observables| ==> observables[k].Valid()
      invariant forall k :: 0 <= k < i ==>
        observables[k].State() == Step(old(observables[k].State()), RejectOp(endpoint, messageId), observables[k].conEvery)
      invariant forall k :: i <= k < |observables| ==> observables[k].State() == old(observables[k].State())
    {
      observables[i].RemoveByMid(endpoint, messageId);
    }
  }
}

/** The observer list of one resource as a value, and what registrations, removals and notifications do to it (RFC 7641). */
module ObserverTable {
  import opened Bytes
  import opened CoapOption
  import opened Pdu
  import opened Server

  datatype NotifyType = Auto | ForceCon | ForceNon

  datatype ObserverEntry = ObserverEntry(
    endpoint: Endpoint, token: Token, lastMid: Option<uint16>, nonCount: uint8, used: bool)

  type Observers = seq<ObserverEntry>

  // ------------------------------------------------------------ registration

  predicate IsFor(e: ObserverEntry, endpoint: Endpoint, token: Token) {
    e.used && e.endpoint == endpoint && e.token == token
  }

  function FirstFor(table: Observers, endpoint: Endpoint, token: Token): (i: nat)
    ensures i <= |table|
  {
    if table == [] || IsFor(table[0], endpoint, token) then 0 else 1 + FirstFor(table[1..], endpoint, token)
  }

  function FirstUnused(table: Observers): (i: nat)
    ensures i <= |table|
  {
    if table == [] || !table[0].used then 0 else 1 + FirstUnused(table[1..])
  }

  /** The slot a registration takes: the pair's own, else the first unused one, else none. */
  function SlotFor(table: Observers, endpoint: Endpoint, token: Token): nat {
    if FirstFor(table, endpoint, token) < |table| then FirstFor(table, endpoint, token) else FirstUnused(table)
  }

  function Register(table: Observers, endpoint: Endpoint, token: Token): Observers {
    var i := SlotFor(table, endpoint, token);
    if i < |table| then table[i := ObserverEntry(endpoint, token, None, 0, true)] else table
  }

  function Removed(e: ObserverEntry, drop: bool): ObserverEntry {
    if drop then e.(used := false) else e
  }

  function RemovePair(table: Observers, endpoint: Endpoint, token: Token): Observers {
    seq(|table|, i requires 0 <= i < |table| => Removed(table[i], IsFor(table[i], endpoint, token)))
  }

  predicate IsRejectedBy(e: ObserverEntry, endpoint: Endpoint, messageId: uint16) {
    e.used && e.lastMid == Some(messageId) && e.endpoint == endpoint
  }

  function RemoveMid(table: Observers, endpoint: Endpoint, messageId: uint16): Observers {
    seq(|table|, i requires 0 <= i < |table| => Removed(table[i], IsRejectedBy(table[i], endpoint, messageId)))
  }

  // ------------------------------------------------------------ notification

  /** Whether a notification is confirmable; the sum in the comparison is wider than 8 bits. */
  predicate SelectsCon(nonCount: uint8, type_: NotifyType, conEvery: uint8) {
    match type_ case ForceCon => true case ForceNon => false case Auto => nonCount + 1 >= conEvery as int
  }

  function NextNonCount(nonCount: uint8, con: bool): uint8 {
    if con then 0 else (nonCount + 1) % 0x100
  }

  /** How a notification is sent and to whom; `success` says that its code is 2.xx. */
  datatype Notification = Notification(
    resp: WireResponse, success: bool, type_: NotifyType, conEvery: uint8, observe: Option<uint32>)

  function Notified(e: ObserverEntry, n: Notification, mid: uint16): ObserverEntry {
    var con := SelectsCon(e.nonCount, n.type_, n.conEvery);
    ObserverEntry(e.endpoint, e.token, Some(mid), NextNonCount(e.nonCount, con), n.success)
  }

  function NotificationTo(e: ObserverEntry, n: Notification, mid: uint16): (Endpoint, OutgoingMessage) {
    var type_ := if SelectsCon(e.nonCount, n.type_, n.conEvery) then Con else Non;
    (e.endpoint, ResponseMessage(type_, mid, e.token, n.resp, n.observe))
  }

  /**
   * Which notifications are confirmable: the forced ones as forced, an automatic one when the count of NONs
   * since the last CON, itself included, has reached the period. A CON starts the count again.
   */
  lemma NotificationType(e: ObserverEntry, n: Notification, mid: uint16)
    ensures NotificationTo(e, n, mid).1.mtype == Con <==>
      n.type_ == ForceCon || (n.type_ == Auto && e.nonCount + 1 >= n.conEvery as int)
    ensures NotificationTo(e, n, mid).1.mtype != Con ==>
      NotificationTo(e, n, mid).1.mtype == Non && Notified(e, n, mid).nonCount == (e.nonCount + 1) % 256
    ensures NotificationTo(e, n, mid).1.mtype == Con ==> Notified(e, n, mid).nonCount == 0
  {
  }

  function UsedCount(table: Observers): nat {
    if table == [] then 0 else UsedCount(table[..|table| - 1]) + if table[|table| - 1].used then 1 else 0
  }

  /** Consecutive message IDs from `mid` on for the used entries. */
  function NotifyAll(table: Observers, n: Notification, mid: uint16): Observers {
    seq(|table|, i requires 0 <= i < |table| =>
      if table[i].used then Notified(table[i], n, ToU16(mid + UsedCount(table[..i]))) else table[i])
  }

  function Notifications(table: Observers, n: Notification, mid: uint16): seq<(Endpoint, OutgoingMessage)> {
    if table == [] then []
    else
      var before, last := table[..|table| - 1], table[|table| - 1];
      Notifications(before, n, mid) +
        if last.used then [NotificationTo(last, n, ToU16(mid + UsedCount(before)))] else []
  }

  // ------------------------------------------------------------- invariants

  /** Section 4.1 of RFC 7641: a pair has at most one entry. */
  predicate PairsAreDistinct(table: Observers) {
    forall i, j :: 0 <= i < j < |table| && table[i].used && table[j].used ==>
      (table[i].endpoint, table[i].token) != (table[j].endpoint, table[j].token)
  }

  predicate HasMid(e: ObserverEntry) {
    e.used && e.lastMid.Some?
  }

  predicate MidsAreDistinct(table: Observers) {
    forall i, j :: 0 <= i < j < |table| && HasMid(table[i]) && HasMid(table[j]) ==> table[i].lastMid != table[j].lastMid
  }

  /** All message IDs are among the ones handed out by the Notify that started at `base`. */
  predicate MidsAreFrom(table: Observers, base: uint16) {
    forall i :: 0 <= i < |table| && HasMid(table[i]) ==> ToU16(table[i].lastMid.value - base) < |table|
  }

  predicate Inv(table: Observers, base: uint16) {
    PairsAreDistinct(table) && MidsAreDistinct(table) && MidsAreFrom(table, base)
  }

  lemma {:induction false} FirstForIs(table: Observers, endpoint: Endpoint, token: Token)
    ensures var i := FirstFor(table, endpoint, token);
      && (i < |table| ==> IsFor(table[i], endpoint, token))
      && (forall j :: 0 <= j < i ==> !IsFor(table[j], endpoint, token))
  {
    hide IsFor;
    if table != [] && !IsFor(table[0], endpoint, token) {
      FirstForIs(table[1..], endpoint, token);
      var i := FirstFor(table, endpoint, token);
      forall j | 0 <= j < i ensures !IsFor(table[j], endpoint, token) {
        assert j > 0 ==> table[j] == table[1..][j - 1];
      }
    }
  }

  lemma {:induction false} FirstUnusedIs(table: Observers)
    ensures var i := FirstUnused(table);
      && (i < |table| ==> !table[i].used)
      && (forall j :: 0 <= j < i ==> table[j].used)
  {
    if table != [] && table[0].used {
      FirstUnusedIs(table[1..]);
      var i := FirstUnused(table);
      forall j | 0 <= j < i ensures table[j].used {
        assert j > 0 ==> table[j] == table[1..][j - 1];
      }
    }
  }

  /** A registration keeps the invariant; it succeeds unless the list is full of other pairs. */
  lemma RegisterKeepsInv(table: Observers, base: uint16, endpoint: Endpoint, token: Token)
    requires Inv(table, base)
    ensures Inv(Register(table, endpoint, token), base)
    ensures SlotFor(table, endpoint, token) == |table| <==>
      forall i :: 0 <= i < |table| ==> table[i].used && !IsFor(table[i], endpoint, token)
  {
    SlotForIs(table, endpoint, token);
    hide SlotFor;
    var i := SlotFor(table, endpoint, token);
    if i < |table| {
      FreshEntryKeepsInv(table, base, ObserverEntry(endpoint, token, None, 0, true), i);
    }
  }

  /** A slot that no other entry of the pair stands in the way of; the end of a table full of other pairs. */
  lemma SlotForIs(table: Observers, endpoint: Endpoint, token: Token)
    ensures var i := SlotFor(table, endpoint, token);
      && i <= |table|
      && (i < |table| ==> (!table[i].used || IsFor(table[i], endpoint, token)))
      && (i == |table| <==> forall j :: 0 <= j < |table| ==> table[j].used && !IsFor(table[j], endpoint, token))
      && (i < |table| && !table[i].used ==> forall j :: 0 <= j < |table| ==> !IsFor(table[j], endpoint, token))
  {
    hide FirstFor, FirstUnused;
    FirstForIs(table, endpoint, token);
    FirstUnusedIs(table);
  }

  lemma FreshEntryKeepsInv(table: Observers, base: uint16, e: ObserverEntry, i: nat)
    requires Inv(table, base) && i < |table| && e.lastMid == None
    requires IsFor(table[i], e.endpoint, e.token) ||
      forall j :: 0 <= j < |table| ==> !IsFor(table[j], e.endpoint, e.token)
    ensures Inv(table[i := e], base)
  {
    hide ToU16;
  }

  lemma RemovalKeepsInv(table: Observers, base: uint16, after: Observers)
    requires Inv(table, base) && |after| == |table|
    requires forall i :: 0 <= i < |table| ==> after[i] == table[i] || (!after[i].used && after[i] == table[i].(used := false))
    ensures Inv(after, base)
  {
  }

  lemma {:induction false} UsedCountGrows(table: Observers, i: nat, j: nat)
    requires i <= j <= |table|
    ensures UsedCount(table[..i]) <= UsedCount(table[..j]) <= j
    ensures i < j && table[i].used ==> UsedCount(table[..i]) < UsedCount(table[..j])
    decreases j
  {
    if j > 0 {
      assert table[..j][..j - 1] == table[..j - 1];
      if i < j {
        UsedCountGrows(table, i, j - 1);
      } else {
        UsedCountGrows(table, j - 1, j - 1);
      }
    }
  }

  /** At most 65536 consecutive 16-bit numbers are distinct. */
  lemma ConsecutiveMids(mid: uint16, r: nat, s: nat)
    requires r < 0x1_0000 && s < 0x1_0000
    ensures ToU16(ToU16(mid + r) - mid) == r
    ensures ToU16(mid + r) == ToU16(mid + s) <==> r == s
  {
  }

  lemma NotifiedFields(table: Observers, n: Notification, mid: uint16, i: nat)
    requires i < |table|
    ensures var e := NotifyAll(table, n, mid)[i];
      && e.endpoint == table[i].endpoint && e.token == table[i].token && e.used == (table[i].used && n.success)
      && (e.used ==> e.lastMid == Some(ToU16(mid + UsedCount(table[..i]))))
  {
    hide SelectsCon, NextNonCount, UsedCount, ToU16;
  }

  lemma NotifiedPairs(table: Observers, n: Notification, mid: uint16)
    requires PairsAreDistinct(table)
    ensures PairsAreDistinct(NotifyAll(table, n, mid))
  {
    var after := NotifyAll(table, n, mid);
    assert |after| == |table|;
    hide NotifyAll, ToU16, UsedCount;
    forall i | 0 <= i < |table|
      ensures after[i].endpoint == table[i].endpoint && after[i].token == table[i].token && (after[i].used ==> table[i].used)
    {
      NotifiedFields(table, n, mid, i);
    }
  }

  lemma NotifiedMids(table: Observers, n: Notification, mid: uint16, i: nat, j: nat)
    requires i < j < |table| <= 0x1_0000 && HasMid(NotifyAll(table, n, mid)[i]) && HasMid(NotifyAll(table, n, mid)[j])
    ensures NotifyAll(table, n, mid)[i].lastMid != NotifyAll(table, n, mid)[j].lastMid
  {
    hide NotifyAll, ToU16, UsedCount;
    NotifiedFields(table, n, mid, i);
    NotifiedFields(table, n, mid, j);
    UsedCountGrows(table, i, j);
    UsedCountGrows(table, j, j);
    ConsecutiveMids(mid, UsedCount(table[..i]), UsedCount(table[..j]));
  }

  lemma NotifiedMidIsFrom(table: Observers, n: Notification, mid: uint16, i: nat)
    requires i < |table| <= 0x1_0000 && HasMid(NotifyAll(table, n, mid)[i])
    ensures ToU16(NotifyAll(table, n, mid)[i].lastMid.value - mid) < |table|
  {
    hide NotifyAll, ToU16, UsedCount;
    NotifiedFields(table, n, mid, i);
    UsedCountGrows(table, i, i);
    ConsecutiveMids(mid, UsedCount(table[..i]), 0);
  }

  /** A notification renews every message ID, from the current one on; a non-2.xx code ends all observations. */
  lemma NotifyKeepsInv(table: Observers, base: uint16, n: Notification, mid: uint16)
    requires Inv(table, base) && |table| <= 0x1_0000
    ensures Inv(NotifyAll(table, n, mid), mid)
    ensures !n.success ==> forall i :: 0 <= i < |table| ==> !NotifyAll(table, n, mid)[i].used
  {
    var after := NotifyAll(table, n, mid);
    assert |after| == |table|;
    NotifiedPairs(table, n, mid);
    hide NotifyAll, HasMid, PairsAreDistinct, ToU16;
    forall i, j | 0 <= i < j < |after| && HasMid(after[i]) && HasMid(after[j]) ensures after[i].lastMid != after[j].lastMid {
      NotifiedMids(table, n, mid, i, j);
    }
    forall i | 0 <= i < |after| && HasMid(after[i]) ensures ToU16(after[i].lastMid.value - mid) < |after| {
      NotifiedMidIsFrom(table, n, mid, i);
    }
    forall i | 0 <= i < |table| ensures after[i].used ==> n.success {
      NotifiedFields(table, n, mid, i);
    }
  }

  /** What an entry holds after a notification, in its own terms. */
  lemma NotifiedMid(table: Observers, n: Notification, mid: uint16, i: nat)
    requires i < |table| && table[i].used
    ensures var e, to := NotifyAll(table, n, mid)[i], NotificationTo(table[i], n, ToU16(mid + UsedCount(table[..i])));
      && e.used == n.success && e.lastMid == Some(to.1.messageId)
      && to.0 == table[i].endpoint && to.1.token == table[i].token
  {
    hide SelectsCon, NextNonCount, UsedCount, ToU16;
  }

  /**
   * After a 2.xx notification, an RST or a CON timeout with the endpoint and message ID of the
   * message that went to entry `i` removes entry `i` and no other.
   */
  lemma RejectionHitsItsObserver(table: Observers, base: uint16, n: Notification, mid: uint16, i: nat)
    requires Inv(table, base) && |table| <= 0x1_0000 && i < |table| && table[i].used && n.success
    ensures var after := NotifyAll(table, n, mid);
      var (to, m) := NotificationTo(table[i], n, ToU16(mid + UsedCount(table[..i])));
      RemoveMid(after, to, m.messageId) == after[i := after[i].(used := false)]
  {
    var after := NotifyAll(table, n, mid);
    var (to, m) := NotificationTo(table[i], n, ToU16(mid + UsedCount(table[..i])));
    assert |after| == |table|;
    NotifiedMid(table, n, mid, i);
    NotifyKeepsInv(table, base, n, mid);
    NotifiedFields(table, n, mid, i);
    hide NotifyAll, NotificationTo, ToU16, UsedCount, PairsAreDistinct, MidsAreFrom;
    assert HasMid(after[i]);
    forall k | 0 <= k < |after|
      ensures RemoveMid(after, to, m.messageId)[k] == if k == i then after[k].(used := false) else after[k]
    {
      if k < i && HasMid(after[k]) {
        assert after[k].lastMid != after[i].lastMid;
      } else if k > i && HasMid(after[k]) {
        assert after[i].lastMid != after[k].lastMid;
      }
    }
    assert RemoveMid(after, to, m.messageId) == after[i := after[i].(used := false)];
  }

  /** A rejection leaves alone whoever has another endpoint or whose latest notification had another message ID. */
  lemma RejectionSparesOthers(table: Observers, endpoint: Endpoint, messageId: uint16, i: nat)
    requires i < |table|
    ensures RemoveMid(table, endpoint, messageId)[i] ==
      if table[i].used && table[i].endpoint == endpoint && table[i].lastMid == Some(messageId)
      then table[i].(used := false) else table[i]
  {
  }

  /** One RST or CON timeout removes at most one entry: the one whose latest notification it rejects. */
  lemma RejectionRemovesAtMostOne(table: Observers, base: uint16, endpoint: Endpoint, messageId: uint16, i: nat, j: nat)
    requires Inv(table, base) && i < |table| && j < |table|
    requires RemoveMid(table, endpoint, messageId)[i] != table[i] && RemoveMid(table, endpoint, messageId)[j] != table[j]
    ensures i == j
    ensures table[i].used && table[i].endpoint == endpoint && table[i].lastMid == Some(messageId)
  {
  }

  /** A successful registration gives the pair one fresh entry and touches no other; a removal leaves it none. */
  lemma RegistrationMeans(table: Observers, base: uint16, endpoint: Endpoint, token: Token)
    requires Inv(table, base)
    ensures var i := SlotFor(table, endpoint, token);
      && (i < |table| ==>
        && Register(table, endpoint, token)[i] == ObserverEntry(endpoint, token, None, 0, true)
        && forall j :: 0 <= j < |table| && j != i ==>
          Register(table, endpoint, token)[j] == table[j] && !IsFor(table[j], endpoint, token))
      && forall j :: 0 <= j < |table| ==>
        RemovePair(table, endpoint, token)[j] ==
          if table[j].used && (table[j].endpoint, table[j].token) == (endpoint, token)
          then table[j].(used := false) else table[j]
  {
    FirstForIs(table, endpoint, token);
  }
}

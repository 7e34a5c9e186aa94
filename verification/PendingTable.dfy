/** The table of unacknowledged CONs as a value: what each entry point of the Messenger does to it. */
module PendingTable {
  import opened Bytes
  import opened Pdu
  import opened WireFormat
  import opened Serializer
  import opened Deserializer
  import opened Retransmission
  import opened WireBytes
  import OptionsIteration
  import Codec

  const MAX_MESSAGE_SIZE := 1232

  datatype Slot = Slot(destination: Endpoint, bytes: Span, messageId: uint16, retry: Retry)

  /** One entry for each slot of the pool, `None` where it is free. */
  type Table = seq<Option<Slot>>

  datatype Transmission = Transmission(to: Endpoint, bytes: Span)

  function Live(table: Table): nat {
    if table == [] then 0
    else Live(table[..|table| - 1]) + if table[|table| - 1].Some? then 1 else 0
  }

  lemma {:induction false} LiveUpdate(table: Table, i: nat, entry: Option<Slot>)
    requires i < |table|
    ensures Live(table[i := entry]) ==
      Live(table) + (if entry.Some? then 1 else 0) - (if table[i].Some? then 1 else 0)
  {
    var n := |table| - 1;
    if i < n {
      LiveUpdate(table[..n], i, entry);
      assert table[i := entry][..n] == table[..n][i := entry];
    } else {
      assert table[i := entry][..n] == table[..n];
    }
  }

  lemma {:induction false} LiveAll(table: Table)
    ensures Live(table) <= |table|
    ensures Live(table) == |table| <==> forall i :: 0 <= i < |table| ==> table[i].Some?
  {
    if table != [] {
      LiveAll(table[..|table| - 1]);
    }
  }

  // -------------------------------------------------------------------- Tick

  /** What a tick makes of one entry: the new entry, a retransmission, a CON given up. */
  datatype Fate = Fate(entry: Option<Slot>, sent: seq<Transmission>, givenUp: seq<Slot>)

  function TickSlot(entry: Option<Slot>, delta: uint32): Fate {
    if entry.None? then Fate(None, [], [])
    else
      var slot := entry.value;
      var (retry, action) := Advance(slot.retry, delta);
      match action
      case Waiting => Fate(Some(slot.(retry := retry)), [], [])
      case Retransmit => Fate(Some(slot.(retry := retry)), [Transmission(slot.destination, slot.bytes)], [])
      case GiveUp => Fate(None, [], [slot])
  }

  datatype Ticked = Ticked(table: Table, sent: seq<Transmission>, givenUp: seq<Slot>)

  function TickAll(table: Table, delta: uint32): Ticked {
    if table == [] then Ticked([], [], [])
    else
      var before := TickAll(table[..|table| - 1], delta);
      var last := TickSlot(table[|table| - 1], delta);
      Ticked(before.table + [last.entry], before.sent + last.sent, before.givenUp + last.givenUp)
  }

  /** The arguments of the `OnConTimeout` calls. */
  function Timeouts(givenUp: seq<Slot>): seq<(Endpoint, uint16)> {
    seq(|givenUp|, i requires 0 <= i < |givenUp| => (givenUp[i].destination, givenUp[i].messageId))
  }

  lemma TimeoutsAppend(xs: seq<Slot>, ys: seq<Slot>)
    ensures Timeouts(xs + ys) == Timeouts(xs) + Timeouts(ys)
  {
  }

  lemma {:induction false} TickAt(table: Table, delta: uint32, i: nat)
    requires i < |table|
    ensures |TickAll(table, delta).table| == |table|
    ensures TickAll(table, delta).table[i] == TickSlot(table[i], delta).entry
  {
    hide TickSlot;
    TickLength(table, delta);
    if i < |table| - 1 {
      TickAt(table[..|table| - 1], delta, i);
    } else {
      TickLength(table[..|table| - 1], delta);
    }
  }

  lemma {:induction false} TickLength(table: Table, delta: uint32)
    ensures |TickAll(table, delta).table| == |table|
  {
    hide TickSlot;
    if table != [] {
      TickLength(table[..|table| - 1], delta);
    }
  }

  // ----------------------------------------------------------------- receive

  predicate Matches(entry: Option<Slot>, sender: Endpoint, messageId: uint16) {
    entry.Some? && entry.value.messageId == messageId && entry.value.destination == sender
  }

  function AckAll(table: Table, sender: Endpoint, messageId: uint16): Table {
    seq(|table|, i requires 0 <= i < |table| => if Matches(table[i], sender, messageId) then None else table[i])
  }

  /** A datagram that may cancel: a decodable ACK without a request code, or an empty RST. */
  predicate IsCancelling(data: Span, messageId: uint16) {
    match Parse(data)
    case Error(_) => false
    case Ok(d) =>
      d.messageId == messageId && ((d.mtype == Ack && !IsRequest(d.code)) || (d.mtype == Rst && d.code == EMPTY_CODE))
  }

  function ReceiveTable(table: Table, sender: Endpoint, data: Span): Table {
    if Parse(data).Ok? && IsCancelling(data, Parse(data).value.messageId)
    then AckAll(table, sender, Parse(data).value.messageId)
    else table
  }

  /** The empty RST that rejects message `messageId`. */
  function RstBytes(messageId: uint16): Span {
    EncodeDatagram(WireFormat.Datagram(Rst, EMPTY_CODE, messageId, [], [], []))
  }

  function RstTo(sender: Endpoint, data: Span): seq<Transmission> {
    match Parse(data)
    case Error(_) =>
      var header := HeaderOf(data);
      if header.Ok? && header.value.mtype == Con then [Transmission(sender, RstBytes(header.value.messageId))] else []
    case Ok(d) =>
      if d.mtype == Con && d.code == EMPTY_CODE then [Transmission(sender, RstBytes(d.messageId))] else []
  }

  /** The messages handed to the handler: valid, not an RST and not a ping. */
  function Dispatch(sender: Endpoint, data: Span): seq<(Endpoint, Message)> {
    match Parse(data)
    case Error(_) => []
    case Ok(d) =>
      if IsValidTypeCodeCombination(d.mtype, d.code) && d.mtype != Rst && !(d.mtype == Con && d.code == EMPTY_CODE)
      then [(sender, MessageOf(d))] else []
  }

  function RstCalls(sender: Endpoint, data: Span): seq<(Endpoint, uint16)> {
    match Parse(data)
    case Error(_) => []
    case Ok(d) => if d.mtype == Rst && d.code == EMPTY_CODE then [(sender, d.messageId)] else []
  }

  /** The header bytes of an ACK without a request code, or of an empty RST, with this message ID. */
  predicate AcksOrRejects(raw: Span, messageId: uint16) {
    && |raw| >= 4 && raw[2] as int * 256 + raw[3] == messageId
    && ((raw[0] / 16 % 4 == 2 && (raw[1] == 0 || raw[1] >= 32)) || (raw[0] / 16 % 4 == 3 && raw[1] == 0))
  }

  /** The four header bytes of an accepted datagram. */
  lemma HeaderOnTheWire(raw: Span)
    requires Parse(raw).Ok?
    ensures var d := Parse(raw).value;
      && |raw| >= 4 && raw[0] / 64 == 1 && raw[0] / 16 % 4 == TypeNumber(d.mtype) && raw[1] == d.code
      && raw[2] as int * 256 + raw[3] == d.messageId
  {
    hide Parse, EncodeDatagram;
    ParseCanonical(raw);
    var d := Parse(raw).value;
    HeadOnTheWire(d);
    FirstByte(TypeNumber(d.mtype), |d.token|);
  }

  lemma FirstByte(bits: nat, length: nat)
    requires bits < 4 && length <= 8
    ensures var b := 64 + 16 * bits + length; b / 64 == 1 && b / 16 % 4 == bits
  {
    var b := 64 + 16 * bits + length;
    assert b == 16 * (4 + bits) + length;
  }

  /** What cancels, in bytes: exactly a decodable datagram with such a header. */
  lemma CancellingBytes(data: Span, messageId: uint16)
    ensures IsCancelling(data, messageId) <==> Parse(data).Ok? && AcksOrRejects(data, messageId)
  {
    hide Parse;
    if Parse(data).Ok? {
      HeaderOnTheWire(data);
      CodesInNumbers(Parse(data).value.code);
    }
  }

  lemma RstOnTheWire(messageId: uint16)
    ensures RstBytes(messageId) == [0x70, 0x00, messageId / 256, messageId % 256]
  {
  }

  lemma SplitMessageId(hi: byte, lo: byte, messageId: uint16)
    requires hi as int * 256 + lo == messageId
    ensures messageId / 256 == hi && messageId % 256 == lo
  {
  }

  /**
   * Sections 4.2 and 4.3 of RFC 7252, in bytes. A datagram that cannot be decoded is answered
   * with an RST exactly when its first byte is that of a CON of version 1. Of the others an empty CON
   * is answered with an RST, an empty RST is reported, and everything else with an allowed code is
   * handed to the handler: a CON or a NON that is not empty, and an ACK without a request code.
   */
  lemma ReactionOnTheWire(sender: Endpoint, raw: Span)
    ensures var type_, code := if |raw| >= 4 then raw[0] / 16 % 4 else 0, if |raw| >= 4 then raw[1] else 0;
      var reset := if |raw| >= 4 then [Transmission(sender, [0x70, 0x00, raw[2], raw[3]])] else [];
      if Parse(raw).Error? then
        && RstTo(sender, raw) == (if |raw| >= 4 && raw[0] / 64 == 1 && type_ == 0 then reset else [])
        && Dispatch(sender, raw) == [] && RstCalls(sender, raw) == []
      else
        && |raw| >= 4
        && RstTo(sender, raw) == (if type_ == 0 && code == 0 then reset else [])
        && RstCalls(sender, raw) == (if type_ == 3 && code == 0 then [(sender, raw[2] as int * 256 + raw[3])] else [])
        && Dispatch(sender, raw) ==
          if (type_ <= 1 && code != 0) || (type_ == 2 && (code == 0 || code >= 32))
          then [(sender, MessageOf(Parse(raw).value))] else []
  {
    hide Parse, RstBytes, MessageOf;
    if |raw| >= 4 {
      RstOnTheWire(raw[2] as int * 256 + raw[3]);
      SplitMessageId(raw[2], raw[3], raw[2] as int * 256 + raw[3]);
    }
    if Parse(raw).Ok? {
      HeaderOnTheWire(raw);
      CodesInNumbers(raw[1]);
    }
  }

  // -------------------------------------------------------------------- Send

  /** `Serialize` succeeds in a buffer of the maximum message size. */
  predicate IsSerializable(msg: OutgoingMessage) {
    !msg.callback.Refuses? && Required(msg) <= 1232
  }

  function Serialized(msg: OutgoingMessage): Span {
    EncodeDatagram(Denote(msg))
  }

  function FirstFree(table: Table): (i: nat)
    ensures i <= |table|
    ensures i < |table| ==> table[i].None?
    ensures forall j :: 0 <= j < i ==> table[j].Some?
  {
    if table == [] || table[0].None? then 0
    else
      var rest := FirstFree(table[1..]);
      assert forall j :: 1 <= j <= rest ==> table[j] == table[1..][j - 1] || j == |table|;
      1 + rest
  }

  /** Whether a CON is taken into the table (even if the transport then fails). */
  predicate IsTaken(table: Table, msg: OutgoingMessage) {
    msg.mtype == Con && FirstFree(table) < |table| && IsSerializable(msg)
  }

  function SendTable(table: Table, dest: Endpoint, msg: OutgoingMessage): Table {
    if IsTaken(table, msg) then table[FirstFree(table) := Some(Slot(dest, Serialized(msg), msg.messageId, ARMED))]
    else table
  }

  /** A message is handed to the transport once it is serialized; a CON needs a free slot first. */
  predicate IsSent(table: Table, msg: OutgoingMessage) {
    IsSerializable(msg) && (msg.mtype == Con ==> FirstFree(table) < |table|)
  }

  datatype MessengerError = SendOk | NoPendingSlot | SerializeFailed | TransportFailed

  /** What `Send` returns; `transportOk` is the transport's own answer. */
  function SendResult(table: Table, msg: OutgoingMessage, transportOk: bool): MessengerError {
    if msg.mtype == Con && FirstFree(table) == |table| then NoPendingSlot
    else if !IsSerializable(msg) then SerializeFailed
    else if transportOk then SendOk
    else TransportFailed
  }

  /** What is sent and returned, in terms of the table and of the bytes. */
  lemma SendInTerms(table: Table, msg: OutgoingMessage, transportOk: bool)
    ensures var room := msg.mtype != Con || exists i :: 0 <= i < |table| && table[i].None?;
      var fits := !msg.callback.Refuses? && |Serialized(msg)| + (if msg.callback == Writes([]) then 1 else 0) <= 1232;
      && (IsSent(table, msg) <==> room && fits)
      && SendResult(table, msg, transportOk) ==
        if !room then NoPendingSlot else if !fits then SerializeFailed else if transportOk then SendOk else TransportFailed
  {
    Codec.RequiredIsLength(msg);
    hide Required, WireFormat.EncodeDatagram, Denote;
  }

  /**
   * A CON leaves the table as it was exactly when no slot is free or it does not serialize;
   * what the transport answers does not matter.
   */
  lemma FailedSendLeavesNoTrace(table: Table, dest: Endpoint, msg: OutgoingMessage, transportOk: bool)
    requires msg.mtype == Con
    ensures SendTable(table, dest, msg) == table <==>
      SendResult(table, msg, transportOk).NoPendingSlot? || SendResult(table, msg, transportOk).SerializeFailed?
  {
    hide IsSerializable, Serialized;
    if IsTaken(table, msg) {
      assert SendTable(table, dest, msg)[FirstFree(table)] != table[FirstFree(table)];
    }
  }

  /** A CON that the transport refuses is reported as failed, and retransmitted two seconds later. */
  lemma RefusedConIsRetransmitted(dest: Endpoint)
    ensures var ping := OutgoingMessage(Con, EMPTY_CODE, 1, [], [], NoCallback);
      var free: Table := [None];
      && SendResult(free, ping, false) == TransportFailed
      && TickAll(SendTable(free, dest, ping), 2000).sent == [Transmission(dest, Serialized(ping))]
  {
    var ping := OutgoingMessage(Con, EMPTY_CODE, 1, [], [], NoCallback);
    var free: Table := [None];
    assert Required(ping) == 4;
    hide Required, Serialized;
    var slot := Slot(dest, Serialized(ping), 1, ARMED);
    assert SendTable(free, dest, ping) == [Some(slot)] && [Some(slot)][..0] == [];
    assert TickAll([], 2000) == Ticked([], [], []);
  }
}

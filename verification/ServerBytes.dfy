/** Requests and replies of the server as they stand on the wire. */
module ServerBytes {
  import opened Bytes
  import opened CoapOption
  import opened Pdu
  import opened WireFormat
  import opened Serializer
  import opened Deserializer
  import opened OptionsIteration
  import opened Builder
  import opened Codec
  import opened WireBytes
  import opened PendingTable
  import opened PathMatch
  import opened RouteSpec
  import opened Server

  // ----------------------------------------------------------------- dispatch

  /** A path pattern, given as text, that the request's segments fit. */
  ghost predicate PathFits(text: Span, segs: seq<Span>) {
    exists pattern :: AreSegments(pattern) && PathText(pattern) == text && Fits(pattern, segs)
  }

  /** The path of base path and path fits, and the method is the route's. */
  ghost predicate ServesRequest(m: Mounted, method_: Code, segs: seq<Span>) {
    PathFits(m.basePath + m.route.path, segs) && m.route.method_ == method_
  }

  /** The captures of a route whose path is this text. */
  ghost predicate AreCaptures(text: Span, segs: seq<Span>, values: seq<Span>, tail: Option<seq<Span>>) {
    exists pattern :: AreSegments(pattern) && PathText(pattern) == text && Fits(pattern, segs)
      && values == Captures(pattern, segs) && tail == if HasTail(pattern) then Some(segs[|pattern| - 1..]) else None
  }

  lemma MatchingInText(m: Mounted, options: seq<OptionView>)
    requires IsAcceptedRoute(m.basePath, m.route.path)
    ensures var segs, matched := Texts(WithNumber(options, 11)), Matching(m, SegmentsFrom(options, 0));
      && (matched.Some? <==> PathFits(m.basePath + m.route.path, segs))
      && (matched.Some? ==> AreCaptures(m.basePath + m.route.path, segs, matched.value.params, matched.value.tail))
  {
    AcceptedExactly(m.basePath, m.route.path);
    hide IsAcceptedRoute, AreSegments, PathText, Fits, Captures, HasTail, Segments, MatchSegments, SegmentsFrom, Texts, WithNumber;
    var pattern := Segments(m.basePath) + Segments(m.route.path);
    PatternOfRoute(m.basePath, m.route.path, pattern);
    RouteMatchesExactly(m.basePath, m.route.path, options, pattern);
    if PathFits(m.basePath + m.route.path, Texts(WithNumber(options, 11))) {
      var other :| AreSegments(other) && PathText(other) == m.basePath + m.route.path && Fits(other, Texts(WithNumber(options, 11)));
      PatternOfRoute(m.basePath, m.route.path, other);
    }
  }

  /**
   * What a decision means on texts and option numbers: the first route in search order whose
   * path the request's segments fit and whose method is the request's runs with its own captures;
   * without one, 4.05 exactly when some path fits, and else the not-found handler without parameters.
   */
  lemma DecisionMeans(routes: seq<Mounted>, method_: Code, options: seq<OptionView>, d: Decision)
    requires AreAccepted(routes) && IsDecision(routes, method_, SegmentsFrom(options, 0), d)
    ensures var segs := Texts(WithNumber(options, 11));
      if exists k :: 0 <= k < |routes| && ServesRequest(routes[k], method_, segs) then
        && d.Run? && d.call.handler.RouteHandler?
        && (exists k ::
          && 0 <= k < |routes| && ServesRequest(routes[k], method_, segs)
          && (forall j :: 0 <= j < k ==> !ServesRequest(routes[j], method_, segs))
          && d.call.handler.id == routes[k].route.handler
          && AreCaptures(routes[k].basePath + routes[k].route.path, segs, d.call.values, d.call.tail))
      else if exists k :: 0 <= k < |routes| && PathFits(routes[k].basePath + routes[k].route.path, segs) then
        d == NotAllowed
      else
        d == Run(Call(NotFoundHandler, [], None))
  {
    hide IsAcceptedRoute, PathFits, AreCaptures, Matching, SegmentsFrom, Texts, WithNumber;
    var segs, path := Texts(WithNumber(options, 11)), SegmentsFrom(options, 0);
    forall k | 0 <= k < |routes|
      ensures Matching(routes[k], path).Some? <==> PathFits(routes[k].basePath + routes[k].route.path, segs)
      ensures Serves(routes[k], method_, path) <==> ServesRequest(routes[k], method_, segs)
      ensures Matching(routes[k], path).Some? ==> AreCaptures(routes[k].basePath + routes[k].route.path, segs,
        Matching(routes[k], path).value.params, Matching(routes[k], path).value.tail)
    {
      MatchingInText(routes[k], options);
    }
    if !NoneServes(routes, method_, path) {
      var k: nat :| IsFirstServing(routes, method_, path, k, d.call);
      assert forall j :: 0 <= j < k ==> routes[..k][j] == routes[j];
    }
  }

  // ------------------------------------------------------------------ replies

  /** What is sent in one piece is read as it was meant. */
  lemma SentIsParsed(msg: OutgoingMessage)
    requires IsSerializable(msg)
    ensures Parse(Serialized(msg)) == Result.Ok(Denote(msg))
  {
    hide EncodeHead, Lower, Parse;
    FittingOptionsAreLegal(0, msg.options);
    ParseEncoded(Denote(msg));
  }

  /** An ACK that carries no request ends the exchange of the CON that it names at the one who sent it. */
  lemma AckEndsExchange(table: Table, peer: Endpoint, reply: OutgoingMessage, i: nat)
    requires IsSerializable(reply) && reply.mtype == Ack && (reply.code == 0 || reply.code >= 32)
    requires i < |table| && table[i].Some?
    ensures var slot := table[i].value;
      ReceiveTable(table, peer, Serialized(reply))[i] ==
        if slot.destination == peer && slot.messageId == reply.messageId then None else table[i]
  {
    SentIsParsed(reply);
    CodesInNumbers(reply.code);
    hide IsSerializable, Serialized, Parse, Lower;
  }

  /** A message that is no ACK and no RST ends nothing. */
  lemma OthersEndNothing(table: Table, peer: Endpoint, reply: OutgoingMessage)
    requires IsSerializable(reply) && (reply.mtype == Con || reply.mtype == Non)
    ensures ReceiveTable(table, peer, Serialized(reply)) == table
  {
    SentIsParsed(reply);
    hide IsSerializable, Serialized, Parse, Lower;
  }

  lemma EmptyAckOnTheWire(messageId: uint16)
    ensures IsSerializable(EmptyAck(messageId))
    ensures Serialized(EmptyAck(messageId)) == [0x60, 0x00, messageId / 256, messageId % 256]
  {
  }

  /**
   * Sections 5.2.1 to 5.2.3 of RFC 7252: whatever the handler of a CON does at once or defers, the one
   * message that goes to the client is an ACK with the request's message ID, with the
   * response in it (and then the request's token) or empty, and it ends the client's
   * exchange; a NON is answered by a NON with the token and the server's next message ID, which ends none.
   */
  lemma RepliesAcknowledge(client: Endpoint, msg: Message, behaviour: Behaviour, mid: uint16)
    requires msg.mtype == Con || msg.mtype == Non
    ensures var replies := Replies(client, msg, behaviour, mid);
      && |replies| == (if behaviour == Sync(None) || (behaviour == Async && msg.mtype == Non) then 0 else 1)
      && (|replies| == 1 ==>
        var (to, reply) := replies[0];
        && to == client
        && reply.mtype == (if msg.mtype == Con then Ack else Non)
        && reply.messageId == (if msg.mtype == Con then msg.messageId else mid)
        && (behaviour.Sync? ==>
          && reply.token == msg.token && reply.code == behaviour.response.value.code
          && reply.callback == behaviour.response.value.callback)
        && (behaviour == Async ==> reply.code == 0 && reply.token == [] && reply.options == [] && reply.callback == NoCallback))
    ensures MidAfter(msg, behaviour, mid) == if msg.mtype == Non && |Replies(client, msg, behaviour, mid)| == 1 then (mid + 1) % 0x1_0000 else mid
  {
    hide StableSort;
  }

  /** The exchange of a CON request at the client ends with the server's reply to it, and no other does. */
  lemma RequestIsAcknowledged(
    table: Table, server: Endpoint, client: Endpoint, msg: Message, behaviour: Behaviour, mid: uint16, i: nat)
    requires msg.mtype == Con && Replies(client, msg, behaviour, mid) != [] && i < |table| && table[i].Some?
    requires var reply := Replies(client, msg, behaviour, mid)[0].1; IsSerializable(reply) && (reply.code == 0 || reply.code >= 32)
    ensures var slot := table[i].value;
      ReceiveTable(table, server, Serialized(Replies(client, msg, behaviour, mid)[0].1))[i] ==
        if slot.destination == server && slot.messageId == msg.messageId then None else table[i]
  {
    hide Replies, IsSerializable, Serialized, ReceiveTable;
    RepliesAcknowledge(client, msg, behaviour, mid);
    AckEndsExchange(table, server, Replies(client, msg, behaviour, mid)[0].1, i);
  }

  /** A request with a method that no fitting route has is answered 4.05, without options or payload. */
  lemma NotAllowedOnTheWire(client: Endpoint, msg: Message, mid: uint16)
    requires msg.mtype == Con
    ensures var reply := Replies(client, msg, Sync(Some(NOT_ALLOWED)), mid)[0].1;
      && IsSerializable(reply)
      && Serialized(reply) ==
        [0x60 + |msg.token|, 0x85, msg.messageId / 256, msg.messageId % 256] + msg.token
  {
    assert StableSort([]) == [];
    assert FrontOptions(None, None) + [] == [];
    var reply := Replies(client, msg, Sync(Some(NOT_ALLOWED)), mid)[0].1;
    assert reply == OutgoingMessage(Ack, 0x85, msg.messageId, msg.token, [], NoCallback);
    hide StableSort;
  }

  /**
   * The options of a reply: Observe (6) and Content-Format (12) of the server first among those of
   * their numbers, then the response's own in their order; all sorted by number.
   */
  lemma ReplyOptions(
    mtype: MessageType, mid: uint16, token: Token, resp: WireResponse, observe: Option<uint32>, number: uint16)
    ensures var options := ResponseMessage(mtype, mid, token, resp, observe).options;
      && IsSorted(options)
      && WithNumber(options, number) ==
        (if number == 6 && observe.Some? then [OptionView(6, Uint(observe.value))] else [])
        + (if number == 12 && resp.contentFormat.Some? then [OptionView(12, Uint(resp.contentFormat.value))] else [])
        + WithNumber(resp.options, number)
  {
    var front := FrontOptions(observe, resp.contentFormat);
    FrontWithNumber(observe, resp.contentFormat, number);
    hide FrontOptions, StableSort, WithNumber;
    StableSortAt(front + resp.options, number);
    WithNumberAppend(front, resp.options, number);
  }

  lemma FrontWithNumber(observe: Option<uint32>, contentFormat: Option<uint16>, number: uint16)
    ensures WithNumber(FrontOptions(observe, contentFormat), number) ==
      (if number == 6 && observe.Some? then [OptionView(6, Uint(observe.value))] else [])
      + (if number == 12 && contentFormat.Some? then [OptionView(12, Uint(contentFormat.value))] else [])
  {
    var first := if observe.Some? then [OptionView(OBSERVE, Uint(observe.value))] else [];
    var second := if contentFormat.Some? then [OptionView(CONTENT_FORMAT, Uint(contentFormat.value))] else [];
    WithNumberAppend(first, second, number);
    assert first != [] ==> first[1..] == [];
    assert second != [] ==> second[1..] == [];
  }

  // ----------------------------------------------------------------- example

  /** GET /hello as a CON with message ID 7. */
  const HELLO_REQUEST: Span := [0x40, 0x01, 0x00, 0x07, 0xB5, 0x68, 0x65, 0x6C, 0x6C, 0x6F]

  const HELLO: Span := [0x68, 0x65, 0x6C, 0x6C, 0x6F]

  lemma HelloIsParsed()
    ensures Parse(HELLO_REQUEST) == Result.Ok(Datagram(Con, 1, 7, [], [WireOption(11, HELLO)], []))
    ensures IsValidated(EncodeOptions([WireOption(11, HELLO)]))
    ensures View(EncodeOptions([WireOption(11, HELLO)])) == [OptionView(11, Str(HELLO))]
  {
    var w := WireOption(11, HELLO);
    var d := Datagram(Con, 1, 7, [], [w], []);
    assert EncodeOption(w) == [0xB5] + HELLO;
    assert RaiseOption(0, w) == OptionView(11, Str(HELLO));
    assert EncodeHead(Con, 1, 7, []) == [0x40, 0x01, 0x00, 0x07];
    hide EncodeOption, RaiseOption, Parse, EncodeHead;
    EncodeOne(w);
    assert EncodePayload([]) == [];
    assert EncodeDatagram(d) == HELLO_REQUEST;
    ParseEncoded(d);
    EncodedOptionsAreValidated([w]);
    assert [w][1..] == [] && Raise(0, [w]) == [RaiseOption(0, w)];
  }

  /** On a server with one route GET "/hello" in a router without base path, its handler runs. */
  lemma HelloExample(d: Decision)
    requires var routers := [Router([], [Route(1, [0x2F] + HELLO, 42)])];
      IsDecision(AllRoutes(routers), 1, SegmentsFrom([OptionView(11, Str(HELLO))], 0), d)
    ensures d == Run(Call(RouteHandler(42), [], None))
  {
    var router := Router([], [Route(1, [0x2F] + HELLO, 42)]);
    var m := Mounted([], Route(1, [0x2F] + HELLO, 42));
    var options := [OptionView(11, Str(HELLO))];
    var routes := AllRoutes([router]);
    assert routes == [m] by { assert [router][..0] == [] && AllRoutes([]) == []; }
    assert SegmentsFrom(options, 1) == [] && SegmentsFrom(options, 0) == [HELLO];
    HelloFits(m);
    hide Matching, AllRoutes, SegmentsFrom;
    assert Serves(routes[0], 1, [HELLO]);
    var k: nat :| IsFirstServing(routes, 1, [HELLO], k, d.call);
  }

  lemma HelloFits(m: Mounted)
    requires m == Mounted([], Route(1, [0x2F] + HELLO, 42))
    ensures Matching(m, [HELLO]) == Some(Consumed([], [], None))
  {
    var path := [0x2F] + HELLO;
    assert !HasSlash(HELLO);
    assert HELLO + [] == HELLO;
    FindSlashBehind(HELLO, []);
    assert path[1..] == HELLO && Segments(path) == [HELLO];
    assert Segments([]) + [HELLO] == [HELLO];
    ConsumeOne(HELLO, [HELLO]);
    assert [HELLO][1..] == [];
  }
}

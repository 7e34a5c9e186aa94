/** `CoapServer`: routing, dispatch, duplicate detection and replies. */
module Server {
  import opened Bytes
  import opened CoapOption
  import opened Pdu
  import opened OptionsIteration
  import opened Builder
  import opened PathMatch
  import opened RouteSpec
  import opened Ring

  const METHOD_NOT_ALLOWED: Code := 133
  const CONTENT_FORMAT: uint16 := 12
  const MAX_RESPONSE_OPTIONS := 4

  /** Handlers are known by number; what one does is an input of `OnMessage`. */
  type HandlerId = nat

  datatype Route = Route(method_: Code, path: Span, handler: HandlerId)
  datatype Router = Router(basePath: Span, routes: seq<Route>)

  datatype WireResponse = WireResponse(
    code: Code, callback: PayloadCallback, contentFormat: Option<uint16>, options: seq<OptionView>)

  /** What a handler does: it answers at once (or not at all), or later. */
  datatype Behaviour = Sync(response: Option<WireResponse>) | Async

  datatype Handler = RouteHandler(id: HandlerId) | NotFoundHandler

  /** A handler call: which handler, and the path parameters it sees. */
  datatype Call = Call(handler: Handler, values: seq<Span>, tail: Option<seq<Span>>)

  datatype SeenRequest = SeenRequest(sender: Endpoint, messageId: uint16)

  // ------------------------------------------------------------------ routing

  /** A route with the base path of its router. */
  datatype Mounted = Mounted(basePath: Span, route: Route)

  function MountAll(basePath: Span, routes: seq<Route>): seq<Mounted> {
    seq(|routes|, i requires 0 <= i < |routes| => Mounted(basePath, routes[i]))
  }

  /** All routes in search order. */
  function AllRoutes(routers: seq<Router>): seq<Mounted> {
    if routers == [] then []
    else AllRoutes(routers[..|routers| - 1]) + MountAll(routers[|routers| - 1].basePath, routers[|routers| - 1].routes)
  }

  function Matching(m: Mounted, segs: seq<Span>): Option<Consumed> {
    MatchSegments(Segments(m.basePath) + Segments(m.route.path), segs)
  }

  predicate Serves(m: Mounted, method_: Code, segs: seq<Span>) {
    Matching(m, segs).Some? && m.route.method_ == method_
  }

  predicate AreAccepted(routes: seq<Mounted>) {
    forall i :: 0 <= i < |routes| ==> IsAcceptedRoute(routes[i].basePath, routes[i].route.path)
  }

  predicate NoneServes(routes: seq<Mounted>, method_: Code, segs: seq<Span>) {
    forall i :: 0 <= i < |routes| ==> !Serves(routes[i], method_, segs)
  }

  predicate SomePathMatches(routes: seq<Mounted>, segs: seq<Span>) {
    exists i :: 0 <= i < |routes| && Matching(routes[i], segs).Some?
  }

  /** The call for the first of `routes` that serves the request. */
  predicate IsFirstServing(routes: seq<Mounted>, method_: Code, segs: seq<Span>, k: nat, call: Call) {
    && k < |routes| && NoneServes(routes[..k], method_, segs) && Serves(routes[k], method_, segs)
    && call == Call(RouteHandler(routes[k].route.handler),
        Matching(routes[k], segs).value.params, Matching(routes[k], segs).value.tail)
  }

  /** What a request is answered with, before duplicate detection. */
  datatype Decision = Run(call: Call) | NotAllowed

  ghost predicate IsDecision(routes: seq<Mounted>, method_: Code, segs: seq<Span>, d: Decision) {
    if NoneServes(routes, method_, segs) then
      if SomePathMatches(routes, segs) then d == NotAllowed else d == Run(Call(NotFoundHandler, [], None))
    else
      d.Run? && exists k :: IsFirstServing(routes, method_, segs, k, d.call)
  }

  lemma NotBefore(routes: seq<Mounted>, method_: Code, segs: seq<Span>, k: nat, l: nat)
    requires k <= |routes| && NoneServes(routes[..k], method_, segs) && l < |routes| && Serves(routes[l], method_, segs)
    ensures k <= l
  {
    hide Serves;
    assert forall i :: 0 <= i < k ==> routes[..k][i] == routes[i];
  }

  /** There is exactly one decision for every router list. */
  lemma {:induction false} DecisionIsUnique(routes: seq<Mounted>, method_: Code, segs: seq<Span>, d: Decision, e: Decision)
    requires IsDecision(routes, method_, segs, d) && IsDecision(routes, method_, segs, e)
    ensures d == e
  {
    hide Serves, Matching;
    if !NoneServes(routes, method_, segs) {
      var k: nat :| IsFirstServing(routes, method_, segs, k, d.call);
      var l: nat :| IsFirstServing(routes, method_, segs, l, e.call);
      NotBefore(routes, method_, segs, k, l);
      NotBefore(routes, method_, segs, l, k);
    }
  }

  /** What the shared parameters hold after a search. */
  ghost function ParamsOf(params: PathParams, options: seq<OptionView>): (seq<Span>, Option<seq<Span>>)
    reads params
    requires params.tail.Some? ==> params.tail.value <= |options|
  {
    (params.values, if params.tail.Some? then Some(SegmentsFrom(options, params.tail.value)) else None)
  }

  /** The search over one router; `done` are the routes tried before. */
  method SearchRouter(router: Router, method_: Code, options: seq<OptionView>, params: PathParams,
    pathMatched0: bool, ghost done: seq<Mounted>)
    returns (found: Option<HandlerId>, pathMatched: bool)
    requires AreAccepted(MountAll(router.basePath, router.routes))
    requires NoneServes(done, method_, SegmentsFrom(options, 0))
    requires pathMatched0 <==> SomePathMatches(done, SegmentsFrom(options, 0))
    requires params.tail.Some? ==> params.tail.value <= |options|
    requires !pathMatched0 ==> ParamsOf(params, options) == ([], None)
    modifies params
    ensures params.tail.Some? ==> params.tail.value <= |options|
    ensures var all, segs := done + MountAll(router.basePath, router.routes), SegmentsFrom(options, 0);
      match found
      case None =>
        && NoneServes(all, method_, segs) && (pathMatched <==> SomePathMatches(all, segs))
        && (!pathMatched ==> ParamsOf(params, options) == ([], None))
      case Some(handler) =>
        pathMatched && exists k :: IsFirstServing(all, method_, segs, k,
          Call(RouteHandler(handler), ParamsOf(params, options).0, ParamsOf(params, options).1))
  {
    hide IsAcceptedRoute, Matching, NoneServes, SomePathMatches, IsFirstServing, SegmentsFrom, ParamsOf;
    pathMatched := pathMatched0;
    ghost var mounted, segs := MountAll(router.basePath, router.routes), SegmentsFrom(options, 0);
    ghost var all := done + mounted;
    assert all[..|done|] == done;
    for i := 0 to |router.routes|
      invariant NoneServes(all[..|done| + i], method_, segs)
      invariant pathMatched <==> SomePathMatches(all[..|done| + i], segs)
      invariant params.tail.Some? ==> params.tail.value <= |options|
      invariant !pathMatched ==> ParamsOf(params, options) == ([], None)
    {
      ghost var k := |done| + i;
      var route := router.routes[i];
      assert all[k] == mounted[i] == Mounted(router.basePath, route);
      SearchOneMore(all, k, method_, segs);
      var matched := TryRoute(router.basePath, route, options, params);
      if matched {
        pathMatched := true;
        if route.method_ == method_ {
          FirstFound(all, k, method_, segs);
          return Some(route.handler), true;
        }
      }
    }
    assert all[..|all|] == all;
    return None, pathMatched;
  }

  /** One `Match` of the search; it overwrites the shared parameters. */
  method TryRoute(basePath: Span, route: Route, options: seq<OptionView>, params: PathParams) returns (matched: bool)
    requires IsAcceptedRoute(basePath, route.path)
    modifies params
    ensures params.tail.Some? ==> params.tail.value <= |options|
    ensures var c := Matching(Mounted(basePath, route), SegmentsFrom(options, 0));
      && (matched <==> c.Some?)
      && ParamsOf(params, options) == if matched then (c.value.params, c.value.tail) else ([], None)
  {
    AcceptedIsWithinLimit(Mounted(basePath, route));
    hide IsAcceptedRoute, MatchSegments, SegmentsFrom;
    matched := params.Match(basePath, route.path, options);
  }

  lemma FirstFound(all: seq<Mounted>, k: nat, method_: Code, segs: seq<Span>)
    requires k < |all| && NoneServes(all[..k], method_, segs)
    requires Matching(all[k], segs).Some? && all[k].route.method_ == method_
    ensures IsFirstServing(all, method_, segs, k,
      Call(RouteHandler(all[k].route.handler), Matching(all[k], segs).value.params, Matching(all[k], segs).value.tail))
  {
  }

  lemma AcceptedIsWithinLimit(m: Mounted)
    requires IsAcceptedRoute(m.basePath, m.route.path)
    ensures Occurrences(Segments(m.basePath), PLACEHOLDER) + Occurrences(Segments(m.route.path), PLACEHOLDER) <= MAX_PATH_PARAMS
  {
  }

  lemma SearchOneMore(all: seq<Mounted>, k: nat, method_: Code, segs: seq<Span>)
    requires k < |all|
    ensures NoneServes(all[..k + 1], method_, segs) <==> NoneServes(all[..k], method_, segs) && !Serves(all[k], method_, segs)
    ensures SomePathMatches(all[..k + 1], segs) <==> SomePathMatches(all[..k], segs) || Matching(all[k], segs).Some?
  {
    hide Serves, Matching;
    assert all[..k + 1] == all[..k] + [all[k]];
    if SomePathMatches(all[..k], segs) {
      var i :| 0 <= i < k && Matching(all[..k][i], segs).Some?;
      assert all[..k + 1][i] == all[..k][i];
    }
    if Matching(all[k], segs).Some? {
      assert all[..k + 1][k] == all[k];
    }
    if NoneServes(all[..k + 1], method_, segs) {
      forall i | 0 <= i < k ensures !Serves(all[..k][i], method_, segs) {
        assert all[..k + 1][i] == all[..k][i];
      }
      assert all[..k + 1][k] == all[k];
    }
  }

  lemma FirstStaysFirst(routes: seq<Mounted>, more: seq<Mounted>, method_: Code, segs: seq<Span>, k: nat, call: Call)
    requires IsFirstServing(routes, method_, segs, k, call)
    ensures IsFirstServing(routes + more, method_, segs, k, call)
    ensures !NoneServes(routes + more, method_, segs)
  {
    hide Serves, Matching;
    assert (routes + more)[..k] == routes[..k] && (routes + more)[k] == routes[k];
  }

  lemma {:induction false} AllRoutesSplit(routers: seq<Router>, i: nat)
    requires i < |routers|
    ensures AllRoutes(routers[..i + 1]) == AllRoutes(routers[..i]) + MountAll(routers[i].basePath, routers[i].routes)
    ensures AllRoutes(routers[..i + 1]) <= AllRoutes(routers)
    decreases |routers| - i
  {
    hide MountAll;
    assert routers[..i + 1][..i] == routers[..i];
    if i + 1 < |routers| {
      AllRoutesSplit(routers, i + 1);
    } else {
      assert routers[..i + 1] == routers;
    }
  }

  lemma {:induction false} AllRoutesPrepend(router: Router, routers: seq<Router>)
    ensures AllRoutes([router] + routers) == MountAll(router.basePath, router.routes) + AllRoutes(routers)
  {
    hide MountAll;
    var n := |routers|;
    if n == 0 {
      assert [router] + routers == [router] && [router][..0] == [];
    } else {
      AllRoutesPrepend(router, routers[..n - 1]);
      assert ([router] + routers)[..n] == [router] + routers[..n - 1];
    }
  }

  lemma AcceptedParts(xs: seq<Mounted>, ys: seq<Mounted>)
    ensures AreAccepted(xs + ys) <==> AreAccepted(xs) && AreAccepted(ys)
  {
    hide IsAcceptedRoute;
    if AreAccepted(xs + ys) {
      forall i | 0 <= i < |xs| ensures IsAcceptedRoute(xs[i].basePath, xs[i].route.path) {
        assert (xs + ys)[i] == xs[i];
      }
      forall i | 0 <= i < |ys| ensures IsAcceptedRoute(ys[i].basePath, ys[i].route.path) {
        assert (xs + ys)[|xs| + i] == ys[i];
      }
    }
  }

  // ------------------------------------------------------------------ replies

  /** The options the server puts before those of the response. */
  function FrontOptions(observe: Option<uint32>, contentFormat: Option<uint16>): seq<OptionView> {
    (if observe.Some? then [OptionView(OBSERVE, Uint(observe.value))] else [])
    + if contentFormat.Some? then [OptionView(CONTENT_FORMAT, Uint(contentFormat.value))] else []
  }

  /** The type of a reply: piggybacked ACK, a new CON, or NON. */
  function ReplyType(requestType: MessageType, piggybacked: bool): MessageType {
    if requestType == Con then if piggybacked then Ack else Con else Non
  }

  function ResponseMessage(
    mtype: MessageType, messageId: uint16, token: Token, resp: WireResponse, observe: Option<uint32>): OutgoingMessage
  {
    OutgoingMessage(mtype, resp.code, messageId, token,
      StableSort(FrontOptions(observe, resp.contentFormat) + resp.options),
      resp.callback)
  }

  function EmptyAck(messageId: uint16): OutgoingMessage {
    OutgoingMessage(Ack, EMPTY_CODE, messageId, [], [], NoCallback)
  }

  const NOT_ALLOWED := WireResponse(METHOD_NOT_ALLOWED, NoCallback, None, [])

  /** The replies that running a handler leads to, given the next message ID. */
  function Replies(sender: Endpoint, msg: Message, behaviour: Behaviour, mid: uint16): seq<(Endpoint, OutgoingMessage)> {
    match behaviour
    case Sync(None) => []
    case Sync(Some(resp)) =>
      [(sender, ResponseMessage(ReplyType(msg.mtype, true), if msg.mtype == Con then msg.messageId else mid, msg.token, resp, None))]
    case Async => if msg.mtype == Con then [(sender, EmptyAck(msg.messageId))] else []
  }

  /** Only a NON reply takes a message ID of the server's own. */
  function MidAfter(msg: Message, behaviour: Behaviour, mid: uint16): uint16 {
    if msg.mtype == Non && behaviour.Sync? && behaviour.response.Some? then ToU16(mid + 1) else mid
  }

  // --------------------------------------------------------------- the server

  class CoapServer {
    var routers: seq<Router>
    var nextMid: uint16
    const seen: RingBuffer<SeenRequest>
    /** The executions of matched non-idempotent requests so far. */
    ghost var executed: seq<SeenRequest>
    /** The handler calls and the messages given to the Messenger so far. */
    var calls: seq<Call>
    var sent: seq<(Endpoint, OutgoingMessage)>

    /**
     * The routes are the ones `AddRouter` accepts; the ring holds exactly the latest executions,
     * and among any N+1 consecutive executions no (sender, message ID) occurs twice.
     */
    ghost predicate Valid()
      reads this`routers, this`executed, seen, seen.items
    {
      && AreAccepted(AllRoutes(routers))
      && seen.Valid() && seen.Contents() == Last(executed, seen.items.Length)
      && IsSpread(executed, seen.items.Length)
    }

    constructor (cacheSize: nat)
      requires cacheSize > 0
      ensures Valid() && routers == [] && nextMid == 1 && seen.items.Length == cacheSize
      ensures executed == [] && calls == [] && sent == []
      ensures fresh(seen) && fresh(seen.items)
    {
      routers, nextMid, executed, calls, sent := [], 1, [], [], [];
      seen := new RingBuffer(cacheSize, SeenRequest(seq(32, _ => 0), 0));
    }

    /** `false` stands for the panic. */
    method AddRouter(router: Router) returns (ok: bool)
      requires Valid()
      modifies this`routers
      ensures Valid()
      ensures var base := router.basePath;
        ok <==>
          && (base == [] || base[0] == SLASH) && Occurrences(Segments(base), TAIL) == 0
          && AreAccepted(MountAll(base, router.routes))
      ensures routers == if ok then [router] + old(routers) else old(routers)
    {
      hide IsAcceptedRoute, AreAccepted, Occurrences, Segments, AllRoutes, MountAll, IsSpread, Last;
      var base := router.basePath;
      if base != [] && base[0] != SLASH {
        return false;
      }
      var tails := CountSegments(base, TAIL);
      if tails > 0 {
        return false;
      }
      ok := AreRoutesValid(base, router.routes);
      if ok {
        AllRoutesPrepend(router, routers);
        AcceptedParts(MountAll(base, router.routes), AllRoutes(routers));
        routers := [router] + routers;
      }
    }

    /** The checks on the routes of a router. */
    method AreRoutesValid(base: Span, routes: seq<Route>) returns (ok: bool)
      ensures ok <==> AreAccepted(MountAll(base, routes))
    {
      hide IsAcceptedRoute;
      ghost var mounted := MountAll(base, routes);
      for i := 0 to |routes|
        invariant forall k :: 0 <= k < i ==> IsAcceptedRoute(mounted[k].basePath, mounted[k].route.path)
      {
        assert mounted[i] == Mounted(base, routes[i]);
        var valid := ValidateRoute(base, routes[i].path);
        if !valid {
          return false;
        }
      }
      return true;
    }

    /** Searches the routers in order, with one set of parameters for all attempts. */
    method Decide(method_: Code, options: seq<OptionView>) returns (decision: Decision)
      requires AreAccepted(AllRoutes(routers))
      ensures IsDecision(AllRoutes(routers), method_, SegmentsFrom(options, 0), decision)
    {
      hide IsAcceptedRoute, MountAll, AllRoutes, NoneServes, SomePathMatches, IsFirstServing, Matching;
      var params := new PathParams();
      var pathMatched := false;
      ghost var all, done: seq<Mounted>, segs := AllRoutes(routers), [], SegmentsFrom(options, 0);
      SearchNothing(routers, method_, segs);
      for i := 0 to |routers|
        invariant done == AllRoutes(routers[..i]) && fresh(params)
        invariant NoneServes(done, method_, segs) && (pathMatched <==> SomePathMatches(done, segs))
        invariant params.tail.Some? ==> params.tail.value <= |options|
        invariant !pathMatched ==> ParamsOf(params, options) == ([], None)
      {
        var router := routers[i];
        AllRoutesSplit(routers, i);
        ghost var more := done + MountAll(router.basePath, router.routes);
        assert all == more + all[|more|..];
        AcceptedParts(more, all[|more|..]);
        AcceptedParts(done, MountAll(router.basePath, router.routes));
        var found;
        found, pathMatched := SearchRouter(router, method_, options, params, pathMatched, done);
        done := more;
        if found.Some? {
          var call := CallWith(RouteHandler(found.value), params, options);
          ghost var k: nat :| IsFirstServing(more, method_, segs, k, call);
          FirstStaysFirst(more, all[|more|..], method_, segs, k, call);
          return Run(call);
        }
      }
      assert routers[..|routers|] == routers;
      if pathMatched {
        return NotAllowed;
      }
      return Run(CallWith(NotFoundHandler, params, options));
    }

    /** The call of a handler, which sees the parameters as the search has left them. */
    function CallWith(handler: Handler, params: PathParams, options: seq<OptionView>): (call: Call)
      requires params.tail.Some? ==> params.tail.value <= |options|
      reads params
      ensures call == Call(handler, ParamsOf(params, options).0, ParamsOf(params, options).1)
    {
      Call(handler, params.values, if params.tail.Some? then Some(SegmentsFrom(options, params.tail.value)) else None)
    }

    method IsDuplicate(sender: Endpoint, messageId: uint16) returns (duplicate: bool)
      requires Valid()
      ensures duplicate <==> SeenRequest(sender, messageId) in Last(executed, seen.items.Length)
    {
      duplicate := seen.Contains(SeenRequest(sender, messageId));
    }

    method SendEmptyAck(to: Endpoint, messageId: uint16)
      modifies this`sent
      ensures sent == old(sent) + [(to, EmptyAck(messageId))]
    {
      var builder := new MessageBuilder(0);
      builder.mtype, builder.code, builder.messageId := Ack, EMPTY_CODE, messageId;
      var msg := builder.Build();
      sent := sent + [(to, msg)];
    }

    /** The options the server adds itself. */
    method AddFrontOptions(builder: MessageBuilder, contentFormat: Option<uint16>, observe: Option<uint32>)
      requires builder.Valid() && builder.Options() == [] && builder.storage.Length >= 2
      modifies builder`size, builder.storage
      ensures builder.Valid() && builder.Options() == FrontOptions(observe, contentFormat)
    {
      if observe.Some? {
        builder.AddOption(OptionView(OBSERVE, Uint(observe.value)));
      }
      if contentFormat.Some? {
        builder.AddOption(OptionView(CONTENT_FORMAT, Uint(contentFormat.value)));
      }
    }

    /** Adds the server's and then the response's options. */
    method AddOptions(builder: MessageBuilder, resp: WireResponse, observe: Option<uint32>)
      requires builder.Valid() && builder.Options() == []
      requires builder.storage.Length == 2 + MAX_RESPONSE_OPTIONS && |resp.options| <= MAX_RESPONSE_OPTIONS
      modifies builder`size, builder.storage
      ensures builder.Valid() && builder.Options() == FrontOptions(observe, resp.contentFormat) + resp.options
    {
      hide FrontOptions;
      ghost var front := FrontOptions(observe, resp.contentFormat);
      FrontIsShort(observe, resp.contentFormat);
      AddFrontOptions(builder, resp.contentFormat, observe);
      assert front + resp.options[..0] == front;
      for i := 0 to |resp.options|
        invariant builder.Valid() && builder.Options() == front + resp.options[..i]
      {
        builder.AddOption(resp.options[i]);
        assert front + resp.options[..i] + [resp.options[i]] == front + resp.options[..i + 1];
      }
      assert resp.options[..|resp.options|] == resp.options;
    }

    lemma FrontIsShort(observe: Option<uint32>, contentFormat: Option<uint16>)
      ensures |FrontOptions(observe, contentFormat)| <= 2
    {
    }

    method SendResponse(to: Endpoint, requestType: MessageType, requestMid: uint16, token: Token, piggybacked: bool,
      resp: WireResponse, observe: Option<uint32>) returns (mid: uint16)
      requires |resp.options| <= MAX_RESPONSE_OPTIONS
      modifies this`sent, this`nextMid
      ensures mid == (if requestType == Con && piggybacked then requestMid else old(nextMid))
      ensures nextMid == if requestType == Con && piggybacked then old(nextMid) else ToU16(old(nextMid) + 1)
      ensures var outType := if requestType == Con then if piggybacked then Ack else Con else Non;
        sent == old(sent) + [(to, ResponseMessage(outType, mid, token, resp, observe))]
    {
      hide StableSort, FrontOptions;
      var builder := new MessageBuilder(2 + MAX_RESPONSE_OPTIONS);
      var wasCon := requestType == Con;
      var outType := if wasCon then if piggybacked then Ack else Con else Non;
      if wasCon && piggybacked {
        mid := requestMid;
      } else {
        mid := nextMid;
        nextMid := ToU16(nextMid + 1);
      }
      builder.mtype, builder.code, builder.messageId, builder.token := outType, resp.code, mid, token;
      builder.callback := resp.callback;
      AddOptions(builder, resp, observe);
      var msg := builder.Build();
      sent := sent + [(to, msg)];
    }

    /** `behaviour` is what the handler that is run, if any, does. */
    method OnMessage(sender: Endpoint, msg: Message, behaviour: Behaviour)
      requires Valid() && IsValidated(msg.options)
      requires behaviour.Sync? && behaviour.response.Some? ==> |behaviour.response.value.options| <= MAX_RESPONSE_OPTIONS
      modifies this`sent, this`nextMid, this`calls, this`executed, seen, seen.items
      ensures Valid()
      ensures !(msg.mtype == Con || msg.mtype == Non) || !(1 <= msg.code <= 31) ==>
        calls == old(calls) && sent == old(sent) && executed == old(executed) && nextMid == old(nextMid)
      ensures (msg.mtype == Con || msg.mtype == Non) && 1 <= msg.code <= 31 ==>
        exists decision ::
          && IsDecision(AllRoutes(routers), msg.code, SegmentsFrom(View(msg.options), 0), decision)
          && match decision
            case NotAllowed =>
              && calls == old(calls) && executed == old(executed)
              && sent == old(sent) + Replies(sender, msg, Sync(Some(NOT_ALLOWED)), old(nextMid))
              && nextMid == MidAfter(msg, Sync(Some(NOT_ALLOWED)), old(nextMid))
            case Run(call) =>
              var request := SeenRequest(sender, msg.messageId);
              var counted := call.handler.RouteHandler? && msg.code !in {1, 3, 4};
              if counted && request in Last(old(executed), seen.items.Length) then
                && calls == old(calls) && executed == old(executed)
                && sent == old(sent) + Replies(sender, msg, Async, old(nextMid)) && nextMid == old(nextMid)
              else
                && calls == old(calls) + [call]
                && executed == old(executed) + (if counted then [request] else [])
                && sent == old(sent) + Replies(sender, msg, behaviour, old(nextMid))
                && nextMid == MidAfter(msg, behaviour, old(nextMid))
    {
      hide Valid, AllRoutes, IsDecision, Replies, MidAfter, View, IsValidated, IsIdempotent, IsRequest;
      CodesInNumbers(msg.code);
      if msg.mtype != Con && msg.mtype != Non {
        return;
      }
      if !IsRequest(msg.code) {
        return;
      }
      var options, _ := Walk(msg.options);
      RoutesAreAccepted();
      var decision := Decide(msg.code, options);
      if decision.NotAllowed? {
        Reply(sender, msg, NOT_ALLOWED);
        assert IsDecision(AllRoutes(routers), msg.code, SegmentsFrom(View(msg.options), 0), decision);
        return;
      }
      Execute(sender, msg, behaviour, decision.call);
      assert IsDecision(AllRoutes(routers), msg.code, SegmentsFrom(View(msg.options), 0), decision);
    }

    lemma RoutesAreAccepted()
      requires Valid()
      ensures AreAccepted(AllRoutes(routers))
    {
    }

    /** A reply at once. */
    method Reply(sender: Endpoint, msg: Message, resp: WireResponse)
      requires Valid() && |resp.options| <= MAX_RESPONSE_OPTIONS && (msg.mtype == Con || msg.mtype == Non)
      modifies this`sent, this`nextMid
      ensures Valid()
      ensures sent == old(sent) + Replies(sender, msg, Sync(Some(resp)), old(nextMid))
      ensures nextMid == MidAfter(msg, Sync(Some(resp)), old(nextMid))
    {
      hide AllRoutes, AreAccepted, Last, IsSpread, StableSort;
      var _ := SendResponse(sender, msg.mtype, msg.messageId, msg.token, true, resp, None);
    }

    /** Runs the handler unless the request is a duplicate. */
    method Execute(sender: Endpoint, msg: Message, behaviour: Behaviour, call: Call)
      requires Valid() && (msg.mtype == Con || msg.mtype == Non)
      requires behaviour.Sync? && behaviour.response.Some? ==> |behaviour.response.value.options| <= MAX_RESPONSE_OPTIONS
      modifies this`sent, this`nextMid, this`calls, this`executed, seen, seen.items
      ensures Valid()
      ensures var request := SeenRequest(sender, msg.messageId);
        var counted := call.handler.RouteHandler? && msg.code !in {1, 3, 4};
        if counted && request in Last(old(executed), seen.items.Length) then
          && calls == old(calls) && executed == old(executed)
          && sent == old(sent) + Replies(sender, msg, Async, old(nextMid)) && nextMid == old(nextMid)
        else
          && calls == old(calls) + [call]
          && executed == old(executed) + (if counted then [request] else [])
          && sent == old(sent) + Replies(sender, msg, behaviour, old(nextMid))
          && nextMid == MidAfter(msg, behaviour, old(nextMid))
    {
      hide AllRoutes, AreAccepted, Last, IsSpread, ResponseMessage, IsIdempotent, MidAfter;
      CodesInNumbers(msg.code);
      if !call.handler.NotFoundHandler? && !IsIdempotent(msg.code) {
        var duplicate := IsDuplicate(sender, msg.messageId);
        if duplicate {
          if msg.mtype == Con {
            SendEmptyAck(sender, msg.messageId);
          }
          return;
        }
        Remember(SeenRequest(sender, msg.messageId));
      }
      RunHandler(sender, msg, behaviour, call);
    }

    method Remember(request: SeenRequest)
      requires Valid() && request !in Last(executed, seen.items.Length)
      modifies this`executed, seen, seen.items
      ensures Valid() && executed == old(executed) + [request]
    {
      LastOfLast(executed, request, seen.items.Length);
      SkippingRecentKeepsSpread(executed, request, seen.items.Length);
      hide Last, IsSpread, AllRoutes, AreAccepted;
      seen.Push(request);
      executed := executed + [request];
    }

    method RunHandler(sender: Endpoint, msg: Message, behaviour: Behaviour, call: Call)
      requires behaviour.Sync? && behaviour.response.Some? ==> |behaviour.response.value.options| <= MAX_RESPONSE_OPTIONS
      requires msg.mtype == Con || msg.mtype == Non
      modifies this`sent, this`nextMid, this`calls
      ensures calls == old(calls) + [call]
      ensures sent == old(sent) + Replies(sender, msg, behaviour, old(nextMid))
      ensures nextMid == MidAfter(msg, behaviour, old(nextMid))
    {
      hide StableSort;
      calls := calls + [call];
      if behaviour.Sync? && behaviour.response.Some? {
        var _ := SendResponse(sender, msg.mtype, msg.messageId, msg.token, true, behaviour.response.value, None);
      }
      if behaviour.Async? && msg.mtype == Con {
        SendEmptyAck(sender, msg.messageId);
      }
    }
  }

  lemma SearchNothing(routers: seq<Router>, method_: Code, segs: seq<Span>)
    ensures AllRoutes(routers[..0]) == [] && NoneServes([], method_, segs) && !SomePathMatches([], segs)
  {
  }
}

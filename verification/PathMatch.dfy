/** Matching Uri-Path options against a route pattern, segment by segment. */
module PathMatch {
  import opened Bytes
  import opened CoapOption

  const SLASH: byte := 0x2F
  /** "{}" */
  const PLACEHOLDER: Span := [0x7B, 0x7D]
  /** "{*}" */
  const TAIL: Span := [0x7B, 0x2A, 0x7D]

  /** The route-wide limit on "{}" placeholders. */
  const MAX_PATH_PARAMS := 4

  // ------------------------------------------------------- pattern segments

  /** `find('/')`: the position of the first slash, or the length. */
  function FindSlash(s: Span): (i: nat)
    ensures i <= |s| && (i < |s| ==> s[i] == SLASH)
  {
    if s == [] || s[0] == SLASH then 0 else 1 + FindSlash(s[1..])
  }

  /** Cut at every slash, keeping empty segments. */
  function Split(s: Span): seq<Span>
    decreases |s|
  {
    var i := FindSlash(s);
    if i == |s| then [s] else [s[..i]] + Split(s[i + 1..])
  }

  /** The segments of one pattern part: none for "", otherwise those behind the leading slash. */
  function Segments(part: Span): seq<Span> {
    if part == [] then [] else Split(part[1..])
  }

  class PatternSplitter {
    var rest: Span
    var done: bool

    ghost function Left(): seq<Span>
      reads this
    {
      if done then [] else Split(rest)
    }

    constructor (part: Span)
      ensures Left() == Segments(part)
    {
      rest, done := if part == [] then part else part[1..], part == [];
    }

    method Next() returns (seg: Option<Span>)
      modifies this
      ensures old(Left()) == [] ==> seg == None && Left() == []
      ensures old(Left()) != [] ==> seg == Some(old(Left())[0]) && Left() == old(Left())[1..]
    {
      if done {
        return None;
      }
      var slash := FindSlash(rest);
      if slash == |rest| {
        done := true;
        return Some(rest);
      }
      seg := Some(rest[..slash]);
      rest := rest[slash + 1..];
    }
  }

  /** How many of `segs` are `seg`. */
  function Occurrences(segs: seq<Span>, seg: Span): nat {
    if segs == [] then 0 else (if segs[0] == seg then 1 else 0) + Occurrences(segs[1..], seg)
  }

  method CountSegments(part: Span, seg: Span) returns (count: nat)
    ensures count == Occurrences(Segments(part), seg)
  {
    count := 0;
    var splitter := new PatternSplitter(part);
    var next := splitter.Next();
    while next.Some?
      invariant fresh(splitter)
      invariant Occurrences(Segments(part), seg) == count +
        (if next.Some? then Occurrences([next.value] + splitter.Left(), seg) else 0)
      decreases next.Some?, |splitter.Left()|
    {
      assert ([next.value] + splitter.Left())[1..] == splitter.Left();
      if next.value == seg {
        count := count + 1;
      }
      ghost var left := splitter.Left();
      next := splitter.Next();
      assert left != [] ==> left == [left[0]] + splitter.Left();
    }
  }

  /** `CountPlaceholders`. */
  method CountPlaceholders(part: Span) returns (count: nat)
    ensures count == Occurrences(Segments(part), PLACEHOLDER)
  {
    count := CountSegments(part, PLACEHOLDER);
  }

  method EndsWithTailPlaceholder(part: Span) returns (lastIsTail: bool)
    ensures lastIsTail <==> Segments(part) != [] && Segments(part)[|Segments(part)| - 1] == TAIL
  {
    hide Split;
    lastIsTail := false;
    var splitter := new PatternSplitter(part);
    ghost var all, n := Segments(part), 0;
    var next := splitter.Next();
    while next.Some?
      invariant fresh(splitter) && n <= |all|
      invariant next.None? ==> n == |all|
      invariant next.Some? ==> n < |all| && next.value == all[n] && splitter.Left() == all[n + 1..]
      invariant lastIsTail <==> n > 0 && all[n - 1] == TAIL
      decreases next.Some?, |splitter.Left()|
    {
      lastIsTail := next.value == TAIL;
      n := n + 1;
      next := splitter.Next();
    }
  }

  // ------------------------------------------------------- request segments

  predicate IsSegment(opt: OptionView) {
    opt.number == URI_PATH && opt.value.Str?
  }

  /** The values of the Uri-Path options from position `it` on. */
  function SegmentsFrom(options: seq<OptionView>, it: nat): seq<Span>
    requires it <= |options|
    decreases |options| - it
  {
    if it == |options| then []
    else (if IsSegment(options[it]) then [options[it].value.text] else []) + SegmentsFrom(options, it + 1)
  }

  /** The next Uri-Path value and the position behind it. */
  method NextUriSegment(options: seq<OptionView>, it0: nat) returns (seg: Option<Span>, it: nat)
    requires it0 <= |options|
    ensures it0 <= it <= |options|
    ensures match seg
      case None => SegmentsFrom(options, it0) == [] && it == |options|
      case Some(s) => it > it0 && SegmentsFrom(options, it0) == [s] + SegmentsFrom(options, it)
  {
    it := it0;
    while it != |options|
      invariant it0 <= it <= |options|
      invariant SegmentsFrom(options, it0) == SegmentsFrom(options, it)
      decreases |options| - it
    {
      if IsSegment(options[it]) {
        return Some(options[it].value.text), it + 1;
      }
      it := it + 1;
    }
    return None, it;
  }

  // ----------------------------------------------------------------- matching

  /** What a pattern takes off the front of a path: captures, what is left, and a tail capture. */
  datatype Consumed = Consumed(params: seq<Span>, rest: seq<Span>, tail: Option<seq<Span>>)

  function Consume(pattern: seq<Span>, segs: seq<Span>): Option<Consumed>
    decreases |pattern|
  {
    if pattern == [] then Some(Consumed([], segs, None))
    else if segs == [] then None
    else if pattern[0] == TAIL then Then(Consumed([], [], Some(segs)), Consume(pattern[1..], []))
    else if pattern[0] == PLACEHOLDER then Then(Consumed([segs[0]], segs[1..], None), Consume(pattern[1..], segs[1..]))
    else if pattern[0] == segs[0] then Consume(pattern[1..], segs[1..])
    else None
  }

  /** First `c`, then what the rest of the pattern takes. */
  function Then(c: Consumed, more: Option<Consumed>): Option<Consumed> {
    match more
    case None => None
    case Some(d) => Some(Consumed(c.params + d.params, d.rest, if c.tail.Some? then c.tail else d.tail))
  }

  function MatchSegments(pattern: seq<Span>, segs: seq<Span>): Option<Consumed> {
    var c := Consume(pattern, segs);
    if c.Some? && c.value.rest == [] then c else None
  }

  lemma ThenThen(c: Consumed, d: Consumed, more: Option<Consumed>)
    ensures Then(c, Then(d, more)) ==
      Then(Consumed(c.params + d.params, d.rest, if c.tail.Some? then c.tail else d.tail), more)
  {
    if more.Some? {
      assert c.params + (d.params + more.value.params) == c.params + d.params + more.value.params;
    }
  }

  lemma {:induction false} ConsumeAppend(xs: seq<Span>, ys: seq<Span>, segs: seq<Span>)
    ensures Consume(xs + ys, segs) == match Consume(xs, segs)
      case None => None
      case Some(c) => Then(c, Consume(ys, c.rest))
    decreases |xs|
  {
    if xs == [] {
      assert xs + ys == ys;
      var c := Consume(ys, segs);
      if c.Some? {
        assert [] + c.value.params == c.value.params;
      }
    } else if segs != [] {
      assert (xs + ys)[1..] == xs[1..] + ys;
      ConsumeAppend(xs[1..], ys, if xs[0] == TAIL then [] else segs[1..]);
      if xs[0] == TAIL {
        var c := Consume(xs[1..], []);
        if c.Some? {
          ThenThen(Consumed([], [], Some(segs)), c.value, Consume(ys, c.value.rest));
        }
      } else if xs[0] == PLACEHOLDER {
        var c := Consume(xs[1..], segs[1..]);
        if c.Some? {
          ThenThen(Consumed([segs[0]], segs[1..], None), c.value, Consume(ys, c.value.rest));
        }
      }
    }
  }

  /** The parameter list and the start of a tail capture while a pattern is being matched. */
  datatype Progress = Progress(it: nat, params: seq<Span>, tailBegin: Option<nat>)

  /** A tail capture has used up the request. */
  predicate IsWithin(p: Progress, options: seq<OptionView>) {
    p.it <= |options| && (p.tailBegin.Some? ==> p.tailBegin.value <= |options| && p.it == |options|)
  }

  /** The captures so far, and the segments still to be matched. */
  function SoFar(p: Progress, options: seq<OptionView>): Consumed
    requires IsWithin(p, options)
  {
    Consumed(p.params, SegmentsFrom(options, p.it),
      if p.tailBegin.Some? then Some(SegmentsFrom(options, p.tailBegin.value)) else None)
  }

  lemma ConsumeOne(pattern: Span, segs: seq<Span>)
    ensures Consume([pattern], segs) ==
      if segs == [] then None
      else if pattern == TAIL then Some(Consumed([], [], Some(segs)))
      else if pattern == PLACEHOLDER then Some(Consumed([segs[0]], segs[1..], None))
      else if pattern == segs[0] then Some(Consumed([], segs[1..], None))
      else None
  {
    var one, none: seq<Span> := [pattern], [];
    assert one[1..] == none && none + none == none;
    assert Consume(none, none) == Some(Consumed([], [], None));
    if segs != [] {
      assert Consume(none, segs[1..]) == Some(Consumed([], segs[1..], None));
      assert [segs[0]] + none == [segs[0]];
    }
  }

  /** One pattern segment; a full parameter vector would panic. */
  method MatchSegment(pattern: Span, options: seq<OptionView>, p: Progress) returns (ok: bool, p': Progress)
    requires IsWithin(p, options)
    requires pattern == PLACEHOLDER ==> |p.params| < MAX_PATH_PARAMS
    ensures ok ==> IsWithin(p', options)
    ensures Then(SoFar(p, options), Consume([pattern], SegmentsFrom(options, p.it))) ==
      if ok then Some(SoFar(p', options)) else None
    ensures ok ==> |p'.params| == |p.params| + if pattern == PLACEHOLDER then 1 else 0
  {
    ConsumeOne(pattern, SegmentsFrom(options, p.it));
    hide Consume;
    p' := p;
    if pattern == TAIL {
      var probe, _ := NextUriSegment(options, p.it);
      if probe.None? {
        return false, p;
      }
      var seg, it := NextUriSegment(options, p.it);
      while seg.Some?
        invariant it <= |options| && (seg.None? ==> it == |options|)
        decreases seg.Some?, |options| - it
      {
        seg, it := NextUriSegment(options, it);
      }
      assert p.params + [] == p.params;
      return true, Progress(it, p.params, Some(p.it));
    }
    var seg, it := NextUriSegment(options, p.it);
    if seg.None? {
      return false, p;
    }
    if pattern == PLACEHOLDER {
      return true, Progress(it, p.params + [seg.value], p.tailBegin);
    }
    if pattern != seg.value {
      return false, p;
    }
    assert p.params + [] == p.params;
    return true, p.(it := it);
  }

  method MatchPart(part: Span, options: seq<OptionView>, p: Progress) returns (ok: bool, p': Progress)
    requires IsWithin(p, options)
    requires |p.params| + Occurrences(Segments(part), PLACEHOLDER) <= MAX_PATH_PARAMS
    ensures ok ==> IsWithin(p', options)
    ensures Then(SoFar(p, options), Consume(Segments(part), SegmentsFrom(options, p.it))) ==
      if ok then Some(SoFar(p', options)) else None
    ensures ok ==> |p'.params| == |p.params| + Occurrences(Segments(part), PLACEHOLDER)
  {
    hide Consume, SoFar, Then, Occurrences, Split;
    p' := p;
    var splitter := new PatternSplitter(part);
    ghost var all, n, segs := Segments(part), 0, SegmentsFrom(options, p.it);
    ConsumeNothing(p, options, all);
    var next := splitter.Next();
    while next.Some?
      invariant fresh(splitter) && IsWithin(p', options) && n <= |all|
      invariant next.None? ==> n == |all|
      invariant next.Some? ==> n < |all| && next.value == all[n] && splitter.Left() == all[n + 1..]
      invariant Then(SoFar(p, options), Consume(all[..n], segs)) == Some(SoFar(p', options))
      invariant |p'.params| == |p.params| + Occurrences(all[..n], PLACEHOLDER)
      decreases next.Some?, |splitter.Left()|
    {
      ConsumeMore(SoFar(p, options), all, n, segs);
      OccurrencesUpTo(all, n, PLACEHOLDER);
      RestOf(p', options);
      var q;
      ok, q := MatchSegment(next.value, options, p');
      if !ok {
        return;
      }
      p' := q;
      n := n + 1;
      next := splitter.Next();
    }
    ok := true;
    assert all[..n] == all;
  }

  lemma RestOf(p: Progress, options: seq<OptionView>)
    requires IsWithin(p, options)
    ensures SoFar(p, options).rest == SegmentsFrom(options, p.it)
  {
  }

  lemma ConsumeNothing(p: Progress, options: seq<OptionView>, all: seq<Span>)
    requires IsWithin(p, options)
    ensures Then(SoFar(p, options), Consume(all[..0], SegmentsFrom(options, p.it))) == Some(SoFar(p, options))
    ensures Occurrences(all[..0], PLACEHOLDER) == 0
  {
    assert p.params + [] == p.params;
  }

  lemma OccurrencesUpTo(all: seq<Span>, n: nat, seg: Span)
    requires n < |all|
    ensures Occurrences(all[..n + 1], seg) == Occurrences(all[..n], seg) + (if all[n] == seg then 1 else 0)
    ensures Occurrences(all[..n + 1], seg) <= Occurrences(all, seg)
  {
    assert all[..n + 1] == all[..n] + [all[n]] && all == all[..n + 1] + all[n + 1..];
    OccurrencesAppend(all[..n], [all[n]], seg);
    OccurrencesAppend(all[..n + 1], all[n + 1..], seg);
    var one: seq<Span> := [all[n]];
    assert one[1..] == [];
  }

  lemma {:induction false} OccurrencesAppend(xs: seq<Span>, ys: seq<Span>, seg: Span)
    ensures Occurrences(xs + ys, seg) == Occurrences(xs, seg) + Occurrences(ys, seg)
  {
    if xs == [] {
      assert xs + ys == ys;
    } else {
      OccurrencesAppend(xs[1..], ys, seg);
      assert (xs + ys)[1..] == xs[1..] + ys;
    }
  }

  /** One more segment; a pattern that fails at one segment fails as a whole. */
  lemma ConsumeMore(c: Consumed, all: seq<Span>, n: nat, segs: seq<Span>)
    requires n < |all| && Then(c, Consume(all[..n], segs)).Some?
    ensures var d := Then(c, Consume(all[..n], segs)).value;
      && Then(c, Consume(all[..n + 1], segs)) == Then(d, Consume([all[n]], d.rest))
      && (Then(d, Consume([all[n]], d.rest)).None? ==> Then(c, Consume(all, segs)).None?)
  {
    hide Consume;
    assert all[..n + 1] == all[..n] + [all[n]] && all == all[..n + 1] + all[n + 1..];
    ConsumeAppend(all[..n], [all[n]], segs);
    ConsumeAppend(all[..n + 1], all[n + 1..], segs);
    var e := Consume(all[..n], segs).value;
    ThenThen(c, e, Consume([all[n]], e.rest));
  }

  /** `MatchRoute` and `PathParams`: the captures of the latest `Match`. */
  class PathParams {
    var values: seq<Span>
    /** Where the tail begins in the options it was matched against. */
    var tail: Option<nat>

    constructor ()
      ensures values == [] && tail == None
    {
      values, tail := [], None;
    }

    /** For a route within the limit, whatever an earlier match left behind. */
    method Match(basePath: Span, pattern: Span, options: seq<OptionView>) returns (matched: bool)
      requires Occurrences(Segments(basePath), PLACEHOLDER) + Occurrences(Segments(pattern), PLACEHOLDER) <= MAX_PATH_PARAMS
      modifies this
      ensures tail.Some? ==> tail.value <= |options|
      ensures var captured := MatchSegments(Segments(basePath) + Segments(pattern), SegmentsFrom(options, 0));
        && (matched <==> captured.Some?)
        && values == (if captured.Some? then captured.value.params else [])
        && (if tail.Some? then Some(SegmentsFrom(options, tail.value)) else None)
           == (if captured.Some? then captured.value.tail else None)
      ensures |values| <= MAX_PATH_PARAMS
    {
      hide Consume;
      ghost var segs := SegmentsFrom(options, 0);
      var start := Progress(0, [], None);
      ConsumeAppend(Segments(basePath), Segments(pattern), segs);
      StartsEmpty(segs, Segments(basePath));
      values, tail := [], None;
      var p;
      matched, p := MatchPart(basePath, options, start);
      if matched {
        matched, p := MatchPart(pattern, options, p);
      }
      if matched {
        var extra, _ := NextUriSegment(options, p.it);
        matched := extra.None?;
      }
      if matched {
        values, tail := p.params, p.tailBegin;
      }
    }
  }

  lemma StartsEmpty(segs: seq<Span>, pattern: seq<Span>)
    ensures Then(Consumed([], segs, None), Consume(pattern, segs)) == Consume(pattern, segs)
  {
    hide Consume;
    var c := Consume(pattern, segs);
    if c.Some? {
      assert [] + c.value.params == c.value.params;
    }
  }
}

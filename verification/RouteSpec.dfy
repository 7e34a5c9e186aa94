/** What route matching means, without following the matcher. */
module RouteSpec {
  import opened Bytes
  import opened CoapOption
  import opened Builder
  import opened PathMatch

  // ------------------------------------------------------------ the segments

  /** Segments with a slash between each two. */
  function Join(segs: seq<Span>): Span {
    if segs == [] then []
    else if |segs| == 1 then segs[0]
    else segs[0] + [SLASH] + Join(segs[1..])
  }

  predicate HasSlash(s: Span) {
    exists i :: 0 <= i < |s| && s[i] == 0x2F
  }

  predicate AreSegments(segs: seq<Span>) {
    forall k :: 0 <= k < |segs| ==> !HasSlash(segs[k])
  }

  /** The path that consists of these segments, each behind a slash. */
  function PathText(segs: seq<Span>): Span {
    if segs == [] then [] else [0x2F] + segs[0] + PathText(segs[1..])
  }

  lemma FindSlashIsFirst(s: Span)
    ensures forall j :: 0 <= j < FindSlash(s) ==> s[j] != SLASH
  {
    if s != [] && s[0] != SLASH {
      FindSlashIsFirst(s[1..]);
      forall j | 0 <= j < FindSlash(s) ensures s[j] != SLASH {
        assert j > 0 ==> s[j] == s[1..][j - 1];
      }
    }
  }

  /** The segments are the pieces between the slashes: nothing is lost and none has a slash. */
  lemma {:induction false} SplitMeans(s: Span)
    ensures Split(s) != [] && Join(Split(s)) == s
    ensures forall k :: 0 <= k < |Split(s)| ==> !HasSlash(Split(s)[k])
    decreases |s|
  {
    var i := FindSlash(s);
    FindSlashIsFirst(s);
    if i < |s| {
      SplitMeans(s[i + 1..]);
      assert Split(s)[1..] == Split(s[i + 1..]);
      assert s == s[..i] + [SLASH] + s[i + 1..];
      assert !HasSlash(s[..i]);
    }
  }

  lemma {:induction false} TextOfJoin(segs: seq<Span>)
    requires segs != []
    ensures PathText(segs) == [0x2F] + Join(segs)
  {
    if |segs| == 1 {
      assert segs[1..] == [] && PathText([]) == [];
    } else {
      TextOfJoin(segs[1..]);
      assert [0x2F] + segs[0] + ([0x2F] + Join(segs[1..])) == [0x2F] + (segs[0] + [0x2F] + Join(segs[1..]));
    }
  }

  /** The segments of a pattern part have no slash, and each behind a slash they are the part. */
  lemma SegmentsMean(part: Span)
    requires part == [] || part[0] == 0x2F
    ensures AreSegments(Segments(part)) && PathText(Segments(part)) == part
  {
    hide Split, Join, HasSlash;
    if part != [] {
      SplitMeans(part[1..]);
      TextOfJoin(Split(part[1..]));
      hide PathText;
      assert part == [0x2F] + part[1..];
    } else {
      assert PathText([]) == [];
    }
  }

  lemma {:induction false} FindSlashBehind(seg: Span, rest: Span)
    requires !HasSlash(seg) && (rest == [] || rest[0] == 0x2F)
    ensures FindSlash(seg + rest) == |seg|
  {
    if seg == [] {
      assert seg + rest == rest;
    } else {
      assert seg[0] != 0x2F;
      forall i | 0 <= i < |seg[1..]| ensures seg[1..][i] != 0x2F {
        assert seg[1..][i] == seg[i + 1];
      }
      FindSlashBehind(seg[1..], rest);
      assert (seg + rest)[1..] == seg[1..] + rest;
    }
  }

  lemma SplitAtSlash(seg: Span, rest: Span)
    requires !HasSlash(seg) && (rest == [] || rest[0] == 0x2F)
    ensures Split(seg + rest) == if rest == [] then [seg] else [seg] + Split(rest[1..])
  {
    FindSlashBehind(seg, rest);
    hide HasSlash;
    var all := seg + rest;
    assert all[..|seg|] == seg;
    if rest == [] {
      assert all == seg;
    } else {
      assert all[|seg| + 1..] == rest[1..];
    }
  }

  /** A path has only one reading: cutting its text gives back the segments it was made of. */
  lemma {:induction false} TextDetermines(segs: seq<Span>)
    requires AreSegments(segs)
    ensures Segments(PathText(segs)) == segs
    decreases |segs|
  {
    hide HasSlash, PathText, Split;
    PathTextOfNone();
    if segs != [] {
      var rest := PathText(segs[1..]);
      PathTextFirst(segs);
      assert PathText(segs)[1..] == segs[0] + rest;
      if |segs| > 1 {
        PathTextFirst(segs[1..]);
      }
      SplitAtSlash(segs[0], rest);
      TextDetermines(segs[1..]);
      assert segs == [segs[0]] + segs[1..];
    }
  }

  lemma {:induction false} PathTextAppend(xs: seq<Span>, ys: seq<Span>)
    ensures PathText(xs + ys) == PathText(xs) + PathText(ys)
  {
    hide PathText;
    if xs == [] {
      PathTextOfNone();
      assert xs + ys == ys && [] + PathText(ys) == PathText(ys);
    } else {
      PathTextAppend(xs[1..], ys);
      PathTextFirst(xs);
      PathTextFirst(xs + ys);
      assert (xs + ys)[1..] == xs[1..] + ys && (xs + ys)[0] == xs[0];
      var first, a, b := [0x2F] + xs[0], PathText(xs[1..]), PathText(ys);
      assert first + (a + b) == first + a + b;
    }
  }

  lemma PathTextOfNone()
    ensures PathText([]) == []
  {
  }

  lemma PathTextFirst(segs: seq<Span>)
    requires segs != []
    ensures PathText(segs) == [0x2F] + segs[0] + PathText(segs[1..])
  {
  }

  /** The pattern of a route: the only segments whose path is base path and path put together. */
  lemma PatternOfRoute(basePath: Span, path: Span, pattern: seq<Span>)
    requires (basePath == [] || basePath[0] == 0x2F) && (path == [] || path[0] == 0x2F)
    ensures AreSegments(pattern) && PathText(pattern) == basePath + path <==>
      pattern == Segments(basePath) + Segments(path)
  {
    hide HasSlash, PathText, Segments;
    var both := Segments(basePath) + Segments(path);
    SegmentsMean(basePath);
    SegmentsMean(path);
    PathTextAppend(Segments(basePath), Segments(path));
    TextDetermines(both);
    if AreSegments(pattern) {
      TextDetermines(pattern);
    }
  }

  // ------------------------------------------------------- the request's path

  /** The texts of options, in order. */
  function Texts(options: seq<OptionView>): seq<Span> {
    if options == [] then []
    else (if options[0].value.Str? then [options[0].value.text] else []) + Texts(options[1..])
  }

  /** The request's segments are the texts of its options numbered 11, in the order they stand. */
  lemma {:induction false} RequestSegments(options: seq<OptionView>, it: nat)
    requires it <= |options|
    ensures SegmentsFrom(options, it) == Texts(WithNumber(options[it..], 11))
    decreases |options| - it
  {
    if it < |options| {
      RequestSegments(options, it + 1);
      var rest := options[it..];
      assert rest[1..] == options[it + 1..] && rest[0] == options[it];
      if rest[0].number == 11 {
        var found := [rest[0]] + WithNumber(rest[1..], 11);
        assert found[1..] == WithNumber(rest[1..], 11);
      }
    }
  }

  /** Adding other options in between and sorting does not change the path. */
  lemma PathSurvivesSorting(options: seq<OptionView>)
    ensures SegmentsFrom(StableSort(options), 0) == SegmentsFrom(options, 0)
  {
    hide SegmentsFrom, StableSort, Texts, WithNumber;
    StableSortAt(options, 11);
    RequestSegments(options, 0);
    RequestSegments(StableSort(options), 0);
    assert options[0..] == options && StableSort(options)[0..] == StableSort(options);
  }

  // ------------------------------------------------------------ the matching

  /** The pattern segment "{}". */
  predicate IsPlaceholder(pattern: Span) {
    pattern == [0x7B, 0x7D]
  }

  /** The pattern segment "{*}". */
  predicate IsTail(pattern: Span) {
    pattern == [0x7B, 0x2A, 0x7D]
  }

  /** `AddRouter` accepts: no tail in the base path, at most one in the path and then last. */
  predicate IsAcceptedPattern(pattern: seq<Span>) {
    forall i :: 0 <= i < |pattern| && IsTail(pattern[i]) ==> i == |pattern| - 1
  }

  predicate HasTail(pattern: seq<Span>) {
    pattern != [] && IsTail(pattern[|pattern| - 1])
  }

  predicate SegmentFits(pattern: Span, seg: Span) {
    IsPlaceholder(pattern) || IsTail(pattern) || pattern == seg
  }

  /** As many segments as pattern segments ("at least" with a tail), each fitting its pattern segment. */
  predicate Fits(pattern: seq<Span>, segs: seq<Span>) {
    && (if HasTail(pattern) then |segs| >= |pattern| else |segs| == |pattern|)
    && forall i :: 0 <= i < |pattern| ==> SegmentFits(pattern[i], segs[i])
  }

  /** The segments that stand at placeholders, in path order. */
  function Captures(pattern: seq<Span>, segs: seq<Span>): seq<Span>
    requires |segs| >= |pattern|
  {
    if pattern == [] then []
    else (if IsPlaceholder(pattern[0]) then [segs[0]] else []) + Captures(pattern[1..], segs[1..])
  }

  lemma {:induction false} ConsumeMeans(pattern: seq<Span>, segs: seq<Span>)
    requires IsAcceptedPattern(pattern)
    ensures MatchSegments(pattern, segs).Some? <==> Fits(pattern, segs)
    ensures Fits(pattern, segs) ==>
      MatchSegments(pattern, segs).value ==
        Consumed(Captures(pattern, segs), [], if HasTail(pattern) then Some(segs[|pattern| - 1..]) else None)
    decreases |pattern|
  {
    if pattern == [] {
    } else if segs == [] {
      assert !Fits(pattern, segs);
    } else if pattern[0] == TAIL {
      assert pattern == [TAIL] && pattern[1..] == [];
      ConsumeOne(TAIL, segs);
      assert Captures(pattern[1..], segs[1..]) == [];
    } else {
      ConsumeMeans(pattern[1..], segs[1..]);
      FitsStep(pattern, segs);
      if |segs| >= |pattern| {
        assert [] + Captures(pattern[1..], segs[1..]) == Captures(pattern[1..], segs[1..]);
      }
    }
  }

  lemma FitsStep(pattern: seq<Span>, segs: seq<Span>)
    requires pattern != [] && segs != [] && pattern[0] != TAIL
    ensures HasTail(pattern) <==> HasTail(pattern[1..])
    ensures Fits(pattern, segs) <==> SegmentFits(pattern[0], segs[0]) && Fits(pattern[1..], segs[1..])
  {
    hide SegmentFits;
    if Fits(pattern, segs) {
      forall i | 0 <= i < |pattern[1..]| ensures SegmentFits(pattern[1..][i], segs[1..][i]) {
        assert SegmentFits(pattern[i + 1], segs[i + 1]);
      }
    }
    if SegmentFits(pattern[0], segs[0]) && Fits(pattern[1..], segs[1..]) {
      forall i | 0 <= i < |pattern| ensures SegmentFits(pattern[i], segs[i]) {
        assert i > 0 ==> SegmentFits(pattern[1..][i - 1], segs[1..][i - 1]);
      }
    }
  }

  /** The route's own segments for a base path and a path that `AddRouter` accepts. */
  predicate IsAcceptedRoute(basePath: Span, path: Span) {
    && (basePath != [] ==> basePath[0] == SLASH) && (path != [] ==> path[0] == SLASH)
    && Occurrences(Segments(basePath), TAIL) == 0
    && Occurrences(Segments(path), TAIL) <= 1
    && (Occurrences(Segments(path), TAIL) == 1 ==> HasTail(Segments(path)))
    && Occurrences(Segments(basePath), PLACEHOLDER) + Occurrences(Segments(path), PLACEHOLDER) <= MAX_PATH_PARAMS
  }

  lemma {:induction false} OccurrencesAt(segs: seq<Span>, seg: Span, i: nat)
    requires i < |segs| && segs[i] == seg
    ensures Occurrences(segs, seg) >= 1
    ensures i < |segs| - 1 && segs[|segs| - 1] == seg ==> Occurrences(segs, seg) >= 2
  {
    if i > 0 {
      OccurrencesAt(segs[1..], seg, i - 1);
    } else if |segs| > 1 && segs[|segs| - 1] == seg {
      OccurrencesAt(segs[1..], seg, |segs| - 2);
    }
  }

  /** What `AddRouter` checks makes the whole pattern well formed. */
  lemma AcceptedRouteHasAcceptedPattern(basePath: Span, path: Span)
    requires IsAcceptedRoute(basePath, path)
    ensures IsAcceptedPattern(Segments(basePath) + Segments(path))
  {
    hide Occurrences, Split;
    var a, b := Segments(basePath), Segments(path);
    forall i | 0 <= i < |a + b| && (a + b)[i] == TAIL ensures i == |a + b| - 1 {
      if i < |a| {
        OccurrencesAt(a, TAIL, i);
      } else {
        OccurrencesAt(b, TAIL, i - |a|);
      }
    }
  }

  function CountPlaceholderSegments(pattern: seq<Span>): nat {
    if pattern == [] then 0
    else (if IsPlaceholder(pattern[0]) then 1 else 0) + CountPlaceholderSegments(pattern[1..])
  }

  lemma {:induction false} OccurrencesArePlaceholders(segs: seq<Span>)
    ensures Occurrences(segs, PLACEHOLDER) == CountPlaceholderSegments(segs)
  {
    if segs != [] {
      OccurrencesArePlaceholders(segs[1..]);
    }
  }

  lemma {:induction false} NoOccurrence(segs: seq<Span>, seg: Span)
    requires forall i :: 0 <= i < |segs| ==> segs[i] != seg
    ensures Occurrences(segs, seg) == 0
  {
    if segs != [] {
      NoOccurrence(segs[1..], seg);
    }
  }

  lemma {:induction false} LastOccurrence(segs: seq<Span>, seg: Span)
    requires segs != [] && forall i :: 0 <= i < |segs| - 1 ==> segs[i] != seg
    ensures Occurrences(segs, seg) == if segs[|segs| - 1] == seg then 1 else 0
  {
    if |segs| == 1 {
      assert segs[1..] == [] && Occurrences([], seg) == 0;
    } else {
      LastOccurrence(segs[1..], seg);
    }
  }

  /** Tails are where `AddRouter` allows them: nowhere in the base path, and only at the end of the path. */
  predicate TailsAreLast(base: seq<Span>, path: seq<Span>) {
    && (forall i :: 0 <= i < |base| ==> !IsTail(base[i]))
    && (forall i :: 0 <= i < |path| - 1 ==> !IsTail(path[i]))
  }

  lemma TailsExactly(base: seq<Span>, path: seq<Span>)
    ensures TailsAreLast(base, path) <==>
      && Occurrences(base, TAIL) == 0 && Occurrences(path, TAIL) <= 1
      && (Occurrences(path, TAIL) == 1 ==> HasTail(path))
  {
    hide Occurrences;
    if TailsAreLast(base, path) {
      NoOccurrence(base, TAIL);
      if path == [] {
        NoOccurrence(path, TAIL);
      } else {
        LastOccurrence(path, TAIL);
      }
    } else if exists i :: 0 <= i < |base| && IsTail(base[i]) {
      var i :| 0 <= i < |base| && IsTail(base[i]);
      OccurrencesAt(base, TAIL, i);
    } else {
      var i :| 0 <= i < |path| - 1 && IsTail(path[i]);
      OccurrencesAt(path, TAIL, i);
    }
  }

  /** Which routes are accepted: leading slashes, tails in place, at most four placeholders. */
  lemma AcceptedExactly(basePath: Span, path: Span)
    ensures IsAcceptedRoute(basePath, path) <==>
      && (basePath != [] ==> basePath[0] == 0x2F) && (path != [] ==> path[0] == 0x2F)
      && TailsAreLast(Segments(basePath), Segments(path))
      && CountPlaceholderSegments(Segments(basePath)) + CountPlaceholderSegments(Segments(path)) <= 4
  {
    hide Occurrences, TailsAreLast, Segments, HasTail;
    TailsExactly(Segments(basePath), Segments(path));
    OccurrencesArePlaceholders(Segments(basePath));
    OccurrencesArePlaceholders(Segments(path));
  }

  /**
   * For every route `AddRouter` accepts, on texts: with `pattern` the segments of base path and
   * path put together and `segs` the values of the Uri-Path options, `Match` succeeds exactly
   * when they fit, its values are the segments at the placeholders and its tail is all segments
   * from the tail placeholder on.
   */
  lemma RouteMatchesExactly(basePath: Span, path: Span, options: seq<OptionView>, pattern: seq<Span>)
    requires IsAcceptedRoute(basePath, path) && AreSegments(pattern) && PathText(pattern) == basePath + path
    ensures var segs := Texts(WithNumber(options, 11));
      var matched := MatchSegments(Segments(basePath) + Segments(path), SegmentsFrom(options, 0));
      && (matched.Some? <==> Fits(pattern, segs))
      && (Fits(pattern, segs) ==>
        && matched.value.params == Captures(pattern, segs)
        && matched.value.tail == (if HasTail(pattern) then Some(segs[|pattern| - 1..]) else None))
  {
    AcceptedExactly(basePath, path);
    hide IsAcceptedRoute, IsAcceptedPattern, MatchSegments, Fits, Captures, HasTail, Segments, SegmentsFrom;
    hide PathText, AreSegments, Texts, WithNumber;
    PatternOfRoute(basePath, path, pattern);
    AcceptedRouteHasAcceptedPattern(basePath, path);
    ConsumeMeans(pattern, SegmentsFrom(options, 0));
    RequestSegments(options, 0);
    assert options[0..] == options;
  }

  /** `CoapServer::AddRouter` on one route; `false` stands for the panic. */
  method ValidateRoute(basePath: Span, path: Span) returns (ok: bool)
    ensures ok <==> IsAcceptedRoute(basePath, path)
  {
    hide Occurrences, Split;
    if basePath != [] && basePath[0] != SLASH {
      return false;
    }
    var baseTails := CountSegments(basePath, TAIL);
    if baseTails > 0 {
      return false;
    }
    if path != [] && path[0] != SLASH {
      return false;
    }
    var inBase := CountPlaceholders(basePath);
    var inPath := CountPlaceholders(path);
    if inBase + inPath > MAX_PATH_PARAMS {
      return false;
    }
    var tails := CountSegments(path, TAIL);
    if tails > 1 {
      return false;
    }
    var ends := EndsWithTailPlaceholder(path);
    return !(tails == 1 && !ends);
  }

  // ------------------------------------------------------------ the tail

  /** What `PathTail::CopyTo` writes: no separator while nothing has been written yet. */
  function Written(segs: seq<Span>): Span {
    if segs == [] then []
    else
      var before := Written(segs[..|segs| - 1]);
      before + (if before == [] then [] else [SLASH]) + segs[|segs| - 1]
  }

  lemma {:induction false} WrittenGrows(segs: seq<Span>, k: nat)
    requires k <= |segs|
    ensures |Written(segs[..k])| <= |Written(segs)|
    decreases |segs| - k
  {
    if k < |segs| {
      assert segs[..k + 1][..k] == segs[..k];
      WrittenGrows(segs, k + 1);
    } else {
      assert segs[..k] == segs;
    }
  }

  /** Joins into `buf` with a terminating NUL. */
  method CopyTo(segs: seq<Span>, buf: array<byte>) returns (length: Option<nat>)
    modifies buf
    ensures length == if |Written(segs)| < buf.Length then Some(|Written(segs)|) else None
    ensures length.Some? ==> buf[..length.value] == Written(segs) && buf[length.value] == 0
  {
    hide Written;
    if buf.Length == 0 {
      return None;
    }
    WrittenNothing(segs);
    var len := 0;
    for k := 0 to |segs|
      invariant len == |Written(segs[..k])| < buf.Length && buf[..len] == Written(segs[..k])
    {
      WrittenNext(segs, k);
      WrittenGrows(segs, k + 1);
      ghost var before := buf[..len];
      var need := (if len == 0 then 0 else 1) + |segs[k]|;
      if need + 1 > buf.Length - len {
        return None;
      }
      if len != 0 {
        buf[len] := SLASH;
        len := len + 1;
      }
      ghost var front := buf[..len];
      assert front == before + if before == [] then [] else [SLASH];
      len := CopySegment(buf, len, segs[k]);
    }
    assert segs[..|segs|] == segs;
    buf[len] := 0;
    return Some(len);
  }

  method CopySegment(buf: array<byte>, at: nat, seg: Span) returns (len: nat)
    requires at + |seg| < buf.Length
    modifies buf
    ensures len == at + |seg| && buf[..len] == old(buf[..at]) + seg
  {
    len := at;
    for i := 0 to |seg|
      invariant len == at + i && buf[..len] == old(buf[..at]) + seg[..i]
    {
      buf[len] := seg[i];
      len := len + 1;
      assert seg[..i + 1] == seg[..i] + [seg[i]];
    }
    assert seg[..|seg|] == seg;
  }

  lemma WrittenNothing(segs: seq<Span>)
    ensures Written(segs[..0]) == []
  {
  }

  lemma WrittenNext(segs: seq<Span>, k: nat)
    requires k < |segs|
    ensures var before := Written(segs[..k]);
      Written(segs[..k + 1]) == before + (if before == [] then [] else [SLASH]) + segs[k]
  {
    assert segs[..k + 1][..k] == segs[..k];
  }

  lemma {:induction false} JoinAppend(segs: seq<Span>, last: Span)
    requires segs != []
    ensures Join(segs + [last]) == Join(segs) + [SLASH] + last
  {
    assert (segs + [last])[1..] == segs[1..] + [last];
    if |segs| > 1 {
      JoinAppend(segs[1..], last);
      assert segs[0] + [SLASH] + (Join(segs[1..]) + [SLASH] + last) == segs[0] + [SLASH] + Join(segs[1..]) + [SLASH] + last;
    }
  }

  /** `CopyTo` writes the documented join exactly when the tail does not start with an empty segment that others follow. */
  lemma {:induction false} CopyToJoinsExactly(segs: seq<Span>)
    ensures Written(segs) == Join(segs) <==> |segs| < 2 || segs[0] != []
    ensures |Written(segs)| <= |Join(segs)|
    ensures |segs| >= 2 && segs[0] == [] ==> |Written(segs)| < |Join(segs)|
    ensures segs != [] && segs[0] != [] ==> Written(segs) != []
    decreases |segs|
  {
    if |segs| == 1 {
      assert segs[..0] == [] && Written(segs) == [] + [] + segs[0];
    } else if |segs| >= 2 {
      var n := |segs| - 1;
      CopyToJoinsExactly(segs[..n]);
      JoinAppend(segs[..n], segs[n]);
      assert segs == segs[..n] + [segs[n]];
    }
  }

  /** The tail of the segments "" and "a" is written without the slash between them. */
  lemma LostSeparatorExample()
    ensures var tail: seq<Span> := [[], [0x61]];
      Written(tail) == [0x61] && Join(tail) == [SLASH, 0x61]
  {
    var tail: seq<Span> := [[], [0x61]];
    assert tail[..1] == [[]] && tail[..1][..0] == [] && tail[1..] == [[0x61]];
    assert Written(tail[..1]) == [];
  }
}

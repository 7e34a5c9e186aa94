/** SLIP framing (RFC 1055): the chunked writer and the receive automaton. */
module Slip {
  import opened Bytes

  const END: byte := 0xC0
  const ESC: byte := 0xDB
  const ESC_END: byte := 0xDC
  const ESC_ESC: byte := 0xDD

  /** The receive buffer: an IPv4 header, a UDP header and the largest message. */
  const MAX_FRAME := 20 + 8 + 1232

  function Escape(b: byte): Span {
    if b == END then [ESC, ESC_END] else if b == ESC then [ESC, ESC_ESC] else [b]
  }

  function EscapeAll(data: Span): Span {
    if data == [] then [] else Escape(data[0]) + EscapeAll(data[1..])
  }

  function Frame(data: Span): Span {
    [END] + EscapeAll(data) + [END]
  }

  function Frames(list: seq<Span>): Span {
    if list == [] then [] else Frame(list[0]) + Frames(list[1..])
  }

  lemma {:induction false} EscapeAllAppend(xs: Span, ys: Span)
    ensures EscapeAll(xs + ys) == EscapeAll(xs) + EscapeAll(ys)
  {
    hide Escape;
    if xs == [] {
      assert xs + ys == ys;
    } else {
      EscapeAllAppend(xs[1..], ys);
      assert (xs + ys)[1..] == xs[1..] + ys && (xs + ys)[0] == xs[0];
      var first, a, b := Escape(xs[0]), EscapeAll(xs[1..]), EscapeAll(ys);
      assert first + (a + b) == first + a + b;
    }
  }

  /** RFC 1055, in numbers: C0 goes out as DB DC, DB as DB DD, every other byte as itself. */
  lemma {:induction false} EscapeInNumbers(before: Span, b: byte, after: Span)
    ensures EscapeAll(before + [b] + after) ==
      EscapeAll(before) + (if b == 0xC0 then [0xDB, 0xDC] else if b == 0xDB then [0xDB, 0xDD] else [b]) + EscapeAll(after)
  {
    hide EscapeAll;
    EscapeAllAppend(before + [b], after);
    EscapeAllAppend(before, [b]);
    EscapeOne(b);
  }

  lemma EscapeOne(b: byte)
    ensures EscapeAll([b]) == if b == 0xC0 then [0xDB, 0xDC] else if b == 0xDB then [0xDB, 0xDD] else [b]
    ensures EscapeAll([]) == []
  {
    assert [b][1..] == [] && EscapeAll([b]) == Escape(b) + [];
  }

  /** A frame is the escaped data between two bytes C0, and no C0 stands in between. */
  lemma {:induction false} FrameInNumbers(data: Span)
    ensures Frame(data) == [0xC0] + EscapeAll(data) + [0xC0]
    ensures forall i :: 0 <= i < |EscapeAll(data)| ==> EscapeAll(data)[i] != 0xC0
  {
    if data != [] {
      FrameInNumbers(data[1..]);
    }
  }

  predicate IsPlain(data: Span) {
    forall i :: 0 <= i < |data| ==> data[i] != END && data[i] != ESC
  }

  lemma {:induction false} PlainIsVerbatim(data: Span)
    requires IsPlain(data)
    ensures EscapeAll(data) == data
  {
    if data != [] {
      PlainIsVerbatim(data[1..]);
    }
  }

  /** The writing side of the serial port; each call appends to the line. */
  class SerialPort {
    var line: Span

    method Write(bytes: Span)
      modifies this
      ensures line == old(line) + bytes
    {
      line := line + bytes;
    }
  }

  /** A special byte behind plain ones. */
  lemma ChunkThenSpecial(data: Span, start: nat, i: nat)
    requires start <= i < |data| && IsPlain(data[start..i])
    ensures EscapeAll(data[..i + 1]) == EscapeAll(data[..start]) + data[start..i] + Escape(data[i])
  {
    hide Escape;
    assert data[..i + 1] == data[..start] + data[start..i] + [data[i]];
    EscapeAllAppend(data[..start] + data[start..i], [data[i]]);
    EscapeAllAppend(data[..start], data[start..i]);
    PlainIsVerbatim(data[start..i]);
    assert EscapeAll([data[i]]) == Escape(data[i]) + EscapeAll([]);
  }

  lemma LineGrows(line: Span, data: Span, start: nat, i: nat)
    requires start <= i < |data| && IsPlain(data[start..i])
    ensures line + EscapeAll(data[..i + 1]) == line + EscapeAll(data[..start]) + data[start..i] + Escape(data[i])
  {
    hide Escape;
    ChunkThenSpecial(data, start, i);
    var before, chunk, last := EscapeAll(data[..start]), data[start..i], Escape(data[i]);
    assert line + (before + chunk + last) == line + before + chunk + last;
  }

  lemma LineEnds(line: Span, data: Span, start: nat)
    requires start <= |data| && IsPlain(data[start..])
    ensures line + EscapeAll(data) == line + EscapeAll(data[..start]) + data[start..]
  {
    hide Escape;
    assert data == data[..start] + data[start..];
    EscapeAllAppend(data[..start], data[start..]);
    PlainIsVerbatim(data[start..]);
    assert line + (EscapeAll(data[..start]) + data[start..]) == line + EscapeAll(data[..start]) + data[start..];
  }

  method WriteEscape(serial: SerialPort, b: byte)
    requires b == END || b == ESC
    modifies serial
    ensures serial.line == old(serial.line) + Escape(b)
  {
    if b == END {
      serial.Write([ESC, ESC_END]);
    } else {
      serial.Write([ESC, ESC_ESC]);
    }
  }

  /** Writes runs of plain bytes in one call each: the line carries the byte-wise escaping. */
  method SlipSendFrame(serial: SerialPort, data: Span)
    modifies serial
    ensures serial.line == old(serial.line) + Frame(data)
  {
    hide Escape, EscapeAll, IsPlain;
    serial.Write([END]);
    ghost var line := serial.line;
    var chunkStart := 0;
    PlainEmpty(data, 0);
    EscapeAllEmpty(data);
    for i := 0 to |data|
      invariant 0 <= chunkStart <= i && IsPlain(data[chunkStart..i])
      invariant serial.line == line + EscapeAll(data[..chunkStart])
    {
      if data[i] == END || data[i] == ESC {
        LineGrows(line, data, chunkStart, i);
        if i > chunkStart {
          serial.Write(data[chunkStart..i]);
        }
        WriteEscape(serial, data[i]);
        chunkStart := i + 1;
        PlainEmpty(data, chunkStart);
      } else {
        PlainGrows(data, chunkStart, i);
      }
    }
    assert data[chunkStart..|data|] == data[chunkStart..];
    LineEnds(line, data, chunkStart);
    if chunkStart < |data| {
      serial.Write(data[chunkStart..]);
    }
    assert serial.line == line + EscapeAll(data);
    serial.Write([END]);
    assert old(serial.line) + [END] + EscapeAll(data) + [END] == old(serial.line) + Frame(data);
  }

  lemma PlainEmpty(data: Span, start: nat)
    requires start <= |data|
    ensures IsPlain(data[start..start])
  {
  }

  lemma EscapeAllEmpty(data: Span)
    ensures EscapeAll(data[..0]) == []
  {
  }

  lemma PlainGrows(data: Span, start: nat, i: nat)
    requires start <= i < |data| && IsPlain(data[start..i]) && data[i] != END && data[i] != ESC
    ensures IsPlain(data[start..i + 1])
  {
    assert data[start..i + 1] == data[start..i] + [data[i]];
  }

  // --------------------------------------------------------------- receiving

  /** The variables of the receive loop; `frame` is the filled part of the buffer. */
  datatype Receiver = Receiver(frame: Span, inFrame: bool, escaped: bool, overflow: bool)

  const IDLE := Receiver([], false, false, false)
  const SYNCED := Receiver([], true, false, false)

  predicate IsWithinBuffer(s: Receiver) {
    |s.frame| <= MAX_FRAME
  }

  /** A data byte of the current frame. */
  function Store(s: Receiver, b: byte): Receiver {
    if !s.inFrame then s
    else if |s.frame| < MAX_FRAME then s.(frame := s.frame + [b])
    else s.(overflow := true)
  }

  /** The frame that an END byte completes. */
  function Completed(s: Receiver): seq<Span> {
    if s.inFrame && |s.frame| > 0 && !s.overflow then [s.frame] else []
  }

  function OnByte(s: Receiver, b: byte): (Receiver, seq<Span>) {
    if s.escaped then
      if b == ESC_END then (Store(s.(escaped := false), END), [])
      else if b == ESC_ESC then (Store(s.(escaped := false), ESC), [])
      else (IDLE, [])
    else if b == END then (SYNCED, Completed(s))
    else if b == ESC then (s.(escaped := true), [])
    else (Store(s, b), [])
  }

  function Feed(s: Receiver, bytes: Span): (Receiver, seq<Span>)
    decreases |bytes|
  {
    if bytes == [] then (s, [])
    else
      var (s1, out) := OnByte(s, bytes[0]);
      var (s2, more) := Feed(s1, bytes[1..]);
      (s2, out + more)
  }

  lemma {:induction false} FeedAppend(s: Receiver, xs: Span, ys: Span)
    ensures Feed(s, xs + ys) ==
      var (s1, out) := Feed(s, xs);
      var (s2, more) := Feed(s1, ys);
      (s2, out + more)
    decreases |xs|
  {
    hide OnByte;
    if xs == [] {
      assert xs + ys == ys;
      assert [] + Feed(s, ys).1 == Feed(s, ys).1;
    } else {
      FeedAppend(OnByte(s, xs[0]).0, xs[1..], ys);
      assert (xs + ys)[1..] == xs[1..] + ys;
      var out, mid := OnByte(s, xs[0]).1, Feed(OnByte(s, xs[0]).0, xs[1..]);
      assert out + (mid.1 + Feed(mid.0, ys).1) == (out + mid.1) + Feed(mid.0, ys).1;
    }
  }

  /** Storing byte after byte keeps the first `MAX_FRAME` and remembers the overflow. */
  function StoreAll(s: Receiver, data: Span): Receiver {
    if !s.inFrame then s
    else if |s.frame| + |data| <= MAX_FRAME then s.(frame := s.frame + data)
    else s.(frame := (s.frame + data)[..MAX_FRAME], overflow := true)
  }

  lemma StoreAllStep(s: Receiver, b: byte, rest: Span)
    requires IsWithinBuffer(s)
    ensures StoreAll(Store(s, b), rest) == StoreAll(s, [b] + rest)
    ensures IsWithinBuffer(Store(s, b))
  {
    if s.inFrame && |s.frame| < MAX_FRAME {
      assert s.frame + [b] + rest == s.frame + ([b] + rest);
    } else if s.inFrame {
      assert (s.frame + ([b] + rest))[..MAX_FRAME] == s.frame == (s.frame + rest)[..MAX_FRAME];
    }
  }

  lemma FeedOne(s: Receiver, b: byte)
    ensures Feed(s, [b]) == OnByte(s, b)
  {
    assert [b][1..] == [];
    var (s1, out) := OnByte(s, b);
    assert out + [] == out;
  }

  /** The one or two bytes of an escaped byte store that byte. */
  lemma FeedEscape(s: Receiver, b: byte)
    requires !s.escaped
    ensures Feed(s, Escape(b)) == (Store(s, b), [])
  {
    hide Store;
    var e := Escape(b);
    if b == END || b == ESC {
      FeedAppend(s, [ESC], e[1..]);
      FeedOne(s, ESC);
      FeedOne(s.(escaped := true), e[1]);
      assert e == [ESC] + e[1..] && e[1..] == [e[1]];
      assert s.(escaped := true).(escaped := false) == s;
    } else {
      FeedOne(s, b);
    }
  }

  /** Escaped data never ends a frame. */
  lemma {:induction false} FeedEscapeAll(s: Receiver, data: Span)
    requires !s.escaped && IsWithinBuffer(s)
    ensures Feed(s, EscapeAll(data)) == (StoreAll(s, data), [])
    decreases |data|
  {
    if data == [] {
      assert s.frame + [] == s.frame;
    } else {
      FeedEscape(s, data[0]);
      FeedAppend(s, Escape(data[0]), EscapeAll(data[1..]));
      StoreAllStep(s, data[0], data[1..]);
      assert [data[0]] + data[1..] == data;
      FeedEscapeAll(Store(s, data[0]), data[1..]);
    }
  }

  predicate IsDeliverable(data: Span) {
    1 <= |data| <= 1260
  }

  /** A frame that begins in step is delivered if it fits and dropped if not; either way the next is in step. */
  lemma FeedBody(s: Receiver, data: Span)
    requires s == SYNCED || (!s.inFrame && !s.escaped && IsWithinBuffer(s))
    ensures Feed(s, EscapeAll(data) + [END]) ==
      (SYNCED, if s.inFrame && IsDeliverable(data) then [data] else [])
  {
    FeedEscapeAll(s, data);
    FeedAppend(s, EscapeAll(data), [END]);
    FeedOne(StoreAll(s, data), END);
    assert [] + data == data;
    assert [] + Completed(StoreAll(s, data)) == Completed(StoreAll(s, data));
  }

  /** What comes before the first END is dropped, and so is the rest of a frame behind an escape byte that nothing follows properly. */
  lemma UnframedIsDropped(s: Receiver, b: byte, data: Span)
    requires s.escaped && b != 0xDC && b != 0xDD
    ensures Feed(IDLE, EscapeAll(data) + [0xC0]).1 == []
    ensures Feed(s, [b] + (EscapeAll(data) + [0xC0])).1 == []
  {
    FeedBody(IDLE, data);
    FeedAppend(s, [b], EscapeAll(data) + [0xC0]);
    FeedOne(s, b);
  }

  /** What a whole frame does in any state: only a pending escape costs it. */
  lemma FeedFrame(s: Receiver, data: Span)
    requires IsWithinBuffer(s)
    ensures Feed(s, Frame(data)) ==
      (SYNCED, if s.escaped then [] else Completed(s) + if IsDeliverable(data) then [data] else [])
  {
    var rest := EscapeAll(data) + [END];
    assert Frame(data) == [END] + rest;
    FeedAppend(s, [END], rest);
    FeedOne(s, END);
    FeedBody(OnByte(s, END).0, data);
  }

  function Deliverable(list: seq<Span>): seq<Span> {
    if list == [] then []
    else (if IsDeliverable(list[0]) then [list[0]] else []) + Deliverable(list[1..])
  }

  /** From a step boundary exactly the frames of 1 to `MAX_FRAME` bytes are delivered, in order. */
  lemma {:induction false} FeedFrames(list: seq<Span>)
    ensures Feed(SYNCED, Frames(list)) == (SYNCED, Deliverable(list))
    decreases |list|
  {
    if list != [] {
      FeedFrame(SYNCED, list[0]);
      var delivered := if IsDeliverable(list[0]) then [list[0]] else [];
      assert Completed(SYNCED) + delivered == delivered;
      FeedAppend(SYNCED, Frame(list[0]), Frames(list[1..]));
      FeedFrames(list[1..]);
    }
  }

  lemma {:induction false} FeedStaysWithinBuffer(s: Receiver, bytes: Span)
    requires IsWithinBuffer(s)
    ensures IsWithinBuffer(Feed(s, bytes).0)
    decreases |bytes|
  {
    if bytes != [] {
      FeedStaysWithinBuffer(OnByte(s, bytes[0]).0, bytes[1..]);
    }
  }

  /**
   * Self-synchronisation: behind any garbage the first frame is lost exactly when the
   * garbage ends in an unfinished escape; all later deliverable frames arrive intact and in
   * order, and an oversized frame costs only itself. The garbage may complete one frame of its own.
   */
  lemma Resynchronises(garbage: Span, first: Span, later: seq<Span>)
    ensures var (s, before) := Feed(IDLE, garbage);
      Feed(IDLE, garbage + Frames([first] + later)).1 ==
        before + (if s.escaped then [] else Completed(s) + Deliverable([first])) + Deliverable(later)
  {
    hide Feed, Frame, Frames, Deliverable, Completed, OnByte, IsDeliverable;
    var (s, before) := Feed(IDLE, garbage);
    FeedStaysWithinBuffer(IDLE, garbage);
    FramesFirst(first, later);
    FeedAppend(IDLE, garbage, Frame(first) + Frames(later));
    FeedAppend(s, Frame(first), Frames(later));
    FeedFrame(s, first);
    FeedFrames(later);
    DeliverableOne(first);
    var delivered := if s.escaped then [] else Completed(s) + Deliverable([first]);
    assert before + (delivered + Deliverable(later)) == before + delivered + Deliverable(later);
  }

  lemma FramesFirst(first: Span, later: seq<Span>)
    ensures Frames([first] + later) == Frame(first) + Frames(later)
  {
    hide Frame;
    assert ([first] + later)[1..] == later;
  }

  lemma DeliverableOne(first: Span)
    ensures Deliverable([first]) == if IsDeliverable(first) then [first] else []
  {
    hide IsDeliverable;
    assert [first][1..] == [] && Deliverable([]) == [];
  }

  /** The loop variables with the buffer they describe. */
  class SlipReceiver {
    const frameBuf: array<byte>
    var frameLen: nat
    var inFrame: bool
    var escaped: bool
    var frameOverflow: bool

    ghost predicate Valid()
      reads this
    {
      frameBuf.Length == MAX_FRAME && frameLen <= MAX_FRAME
    }

    ghost function State(): Receiver
      reads this, frameBuf
      requires Valid()
    {
      Receiver(frameBuf[..frameLen], inFrame, escaped, frameOverflow)
    }

    constructor ()
      ensures Valid() && State() == IDLE && fresh(frameBuf)
    {
      frameBuf := new byte[MAX_FRAME](_ => 0);
      frameLen, inFrame, escaped, frameOverflow := 0, false, false, false;
    }

    method StoreByte(b: byte)
      requires Valid()
      modifies this`frameLen, this`frameOverflow, frameBuf
      ensures Valid() && State() == Store(old(State()), b)
    {
      if inFrame {
        if frameLen < frameBuf.Length {
          frameBuf[frameLen] := b;
          frameLen := frameLen + 1;
        } else {
          frameOverflow := true;
        }
      }
    }

    /** One turn of the receive loop; `frame` is what it hands to `ProcessFrame`. */
    method Accept(b: byte) returns (frame: Option<Span>)
      requires Valid()
      modifies this, frameBuf
      ensures Valid()
      ensures (State(), if frame.Some? then [frame.value] else []) == OnByte(old(State()), b)
    {
      frame := None;
      if escaped {
        escaped := false;
        if b == ESC_END {
          StoreByte(END);
        } else if b == ESC_ESC {
          StoreByte(ESC);
        } else {
          frameLen, inFrame, frameOverflow := 0, false, false;
        }
        return;
      }
      if b == END {
        if inFrame && frameLen > 0 && !frameOverflow {
          frame := Some(frameBuf[..frameLen]);
        }
        frameLen, inFrame, frameOverflow := 0, true, false;
      } else if b == ESC {
        escaped := true;
      } else {
        StoreByte(b);
      }
    }
  }
}

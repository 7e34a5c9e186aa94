/** `OptionsIterator` and `OptionsView`: the unchecked decoder that trusts an earlier scan. */
module OptionsIteration {
  import opened Bytes
  import opened CoapOption
  import opened WireFormat

  function DecodeValue(format: OptionFormat, value: Span): OptionValue {
    match format
    case EmptyFormat => Empty
    case UintFormat => Uint(UintOf(value))
    case StringFormat => Str(value)
    case OpaqueFormat => Opaque(value)
  }

  /** The option seen after one numbered `prev`; numbers are kept in 16 bits. */
  function RaiseOption(prev: uint16, w: WireOption): OptionView {
    var number := ToU16(prev + ToU16(w.delta));
    OptionView(number, DecodeValue(FormatFor(number), w.value))
  }

  function Raise(prev: uint16, ws: seq<WireOption>): seq<OptionView>
    decreases ws
  {
    if ws == [] then [] else
      var opt := RaiseOption(prev, ws[0]);
      [opt] + Raise(opt.number, ws[1..])
  }

  /** An options span that a scan has accepted. */
  predicate IsValidated(span: Span) {
    |span| <= 0xFFFF && ScanAll(span).Scanned? && ScanAll(span).tail == []
  }

  /** The options that iterating over a validated span yields. */
  function View(span: Span): seq<OptionView>
    requires IsValidated(span)
  {
    Raise(0, ScanAll(span).options)
  }

  /** `DecodeOptionField`: no bounds check of its own. */
  method DecodeOptionField(nibble: byte, raw: Span, p: nat) returns (value: uint16, next: nat)
    requires nibble < 15 && p <= |raw| && TakeField(nibble, raw[p..]).Some?
    ensures next <= |raw|
    ensures var (v, rest) := TakeField(nibble, raw[p..]).value;
      value == ToU16(v) && raw[next..] == rest
  {
    if nibble == 13 {
      return raw[p] as int + 13, p + 1;
    }
    if nibble == 14 {
      return ToU16(raw[p] as int * 0x100 + raw[p + 1] + 269), p + 2;
    }
    return nibble, p;
  }

  /** The header byte and both fields of the option at `cursor`; `p` is where its value begins. */
  method DecodeHeader(raw: Span, cursor: nat) returns (delta: uint16, length: uint16, p: nat)
    requires cursor < |raw| <= 0xFFFF && TakeOption(raw[cursor..]).Some?
    ensures var (w, rest) := TakeOption(raw[cursor..]).value;
      && delta == ToU16(w.delta) && p + length <= |raw|
      && w.value == raw[p..p + length] && rest == raw[p + length..]
  {
    hide TakeField;
    var header := raw[cursor];
    p := cursor + 1;
    assert raw[cursor..][1..] == raw[p..];
    delta, p := DecodeOptionField(header / 0x10, raw, p);
    length, p := DecodeOptionField(header % 0x10, raw, p);
    assert raw[p..][..length] == raw[p..p + length] && raw[p..][length..] == raw[p + length..];
  }

  method InterpretValue(format: OptionFormat, value: Span) returns (v: OptionValue)
    ensures v == DecodeValue(format, value)
  {
    match format {
      case EmptyFormat => return Empty;
      case UintFormat =>
        var n := DecodeUint(value);
        return Uint(n);
      case StringFormat => return Str(value);
      case OpaqueFormat => return Opaque(value);
    }
  }

  class OptionsIterator {
    const raw: Span
    var cursor: nat
    var nextCursor: nat
    var accumulatedNumber: uint16
    var current: OptionView
    /** The options from `cursor` on. */
    ghost var left: seq<WireOption>

    ghost predicate AtOption()
      reads this
    {
      && |raw| <= 0xFFFF && cursor <= |raw|
      && AllLegal(left) && raw[cursor..] == EncodeOptions(left)
    }

    ghost predicate Valid()
      reads this
    {
      && AtOption()
      && (left != [] ==>
        && nextCursor == cursor + |EncodeOption(left[0])|
        && current == RaiseOption(accumulatedNumber, left[0]))
    }

    /** `OptionsView::begin`. */
    constructor (span: Span)
      requires IsValidated(span)
      ensures Valid() && raw == span && cursor == 0 && accumulatedNumber == 0
      ensures left == ScanAll(span).options
    {
      raw := span;
      cursor, nextCursor, accumulatedNumber := 0, 0, 0;
      current := OptionView(0, Empty);
      left := ScanAll(span).options;
      new;
      ScanCanonical(span);
      assert raw[0..] == raw == EncodeOptions(left) + [];
      if cursor != |raw| {
        DeserializeCurrent();
      }
    }

    predicate AtEnd()
      reads this
    {
      cursor == |raw|
    }

    lemma EndIsEnd()
      requires AtOption()
      ensures AtEnd() <==> left == []
    {
      if left != [] {
        assert raw[cursor..] == EncodeOption(left[0]) + EncodeOptions(left[1..]);
      }
    }

    lemma NextIsHead()
      requires AtOption() && left != []
      ensures cursor < |raw| && TakeOption(raw[cursor..]) == Some((left[0], EncodeOptions(left[1..])))
      ensures |raw| == cursor + |EncodeOption(left[0])| + |EncodeOptions(left[1..])|
    {
      assert raw[cursor..] == EncodeOption(left[0]) + EncodeOptions(left[1..]);
      TakeEncoded(left[0], EncodeOptions(left[1..]));
    }

    /** Reads the option at `cursor`; every access lies inside `raw`. */
    method DeserializeCurrent()
      requires AtOption() && left != []
      modifies this`nextCursor, this`current
      ensures Valid()
    {
      hide TakeOption, EncodeOption, EncodeOptions, FormatFor, DecodeValue;
      NextIsHead();
      var delta, length, p := DecodeHeader(raw, cursor);
      var number := ToU16(accumulatedNumber + delta);
      nextCursor := p + length;
      var value := raw[p..p + length];
      var v := InterpretValue(FormatFor(number), value);
      current := OptionView(number, v);
    }

    /** `operator++`. */
    method Advance()
      requires Valid() && !AtEnd()
      modifies this
      ensures Valid() && cursor > old(cursor)
      ensures left == old(left)[1..] && accumulatedNumber == old(current).number
      ensures cursor == old(cursor) + |EncodeOption(old(left)[0])|
    {
      accumulatedNumber := current.number;
      assert raw[cursor..] == EncodeOption(left[0]) + EncodeOptions(left[1..]);
      assert raw[nextCursor..] == raw[cursor..][nextCursor - cursor..];
      cursor := nextCursor;
      left := left[1..];
      if cursor != |raw| {
        DeserializeCurrent();
      }
    }
  }

  lemma RaiseFirst(views: seq<OptionView>, prev: uint16, ws: seq<WireOption>)
    requires ws != []
    ensures views + Raise(prev, ws) ==
      (views + [RaiseOption(prev, ws[0])]) + Raise(RaiseOption(prev, ws[0]).number, ws[1..])
  {
    hide RaiseOption;
  }

  lemma BoundariesFirst(starts: seq<nat>, ws: seq<WireOption>, pos: nat)
    requires ws != []
    ensures starts + Boundaries(ws, pos) == (starts + [pos]) + Boundaries(ws[1..], pos + |EncodeOption(ws[0])|)
  {
    hide EncodeOption;
  }

  lemma NothingLeft(views: seq<OptionView>, prev: uint16, starts: seq<nat>, pos: nat)
    ensures views + Raise(prev, []) == views && starts + Boundaries([], pos) == starts
  {
  }

  /** A range-for over the options: what it sees, and where each option began. */
  method Walk(span: Span) returns (views: seq<OptionView>, ghost starts: seq<nat>)
    requires IsValidated(span)
    ensures views == View(span)
    ensures starts == Boundaries(ScanAll(span).options, 0)
  {
    hide EncodeOption, EncodeOptions, RaiseOption, Raise, Boundaries, ScanAll, AllLegal;
    var it := new OptionsIterator(span);
    views, starts := [], [];
    ghost var all := ScanAll(span).options;
    assert [] + Raise(0, all) == Raise(0, all) && starts + Boundaries(all, 0) == Boundaries(all, 0);
    while !it.AtEnd()
      invariant it.Valid() && it.raw == span && fresh(it)
      invariant Raise(0, all) == views + Raise(it.accumulatedNumber, it.left)
      invariant Boundaries(all, 0) == starts + Boundaries(it.left, it.cursor)
      decreases |span| - it.cursor
    {
      it.EndIsEnd();
      RaiseFirst(views, it.accumulatedNumber, it.left);
      BoundariesFirst(starts, it.left, it.cursor);
      views, starts := views + [it.current], starts + [it.cursor];
      it.Advance();
    }
    it.EndIsEnd();
    NothingLeft(views, it.accumulatedNumber, starts, it.cursor);
  }

  /** `OptionsView::FindOption`. */
  method FindOption(span: Span, number: uint16) returns (r: Option<OptionView>)
    requires IsValidated(span)
    ensures r == FirstWith(number, View(span))
  {
    hide EncodeOption, RaiseOption, ScanAll;
    var it := new OptionsIterator(span);
    while !it.AtEnd()
      invariant it.Valid() && it.raw == span
      invariant fresh(it)
      invariant FirstWith(number, View(span)) == FirstWith(number, Raise(it.accumulatedNumber, it.left))
      decreases |span| - it.cursor
    {
      if it.current.number == number {
        return Some(it.current);
      }
      it.Advance();
    }
    it.EndIsEnd();
    return None;
  }
}

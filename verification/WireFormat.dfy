/**
 * The grammar of a datagram (sections 3 and 3.1 of RFC 7252), independent of both the
 * serializer and the parsers: a list of (delta, value) pairs and its unique encoding.
 */
module WireFormat {
  import opened Bytes
  import opened Pdu

  const PAYLOAD_MARKER: byte := 0xFF
  const FIXED_HEADER_SIZE := 4

  /** The largest field value that two extension bytes can carry. */
  const MAX_FIELD := 0xFFFF + 269

  /** One option as it stands on the wire. */
  datatype WireOption = WireOption(delta: nat, value: Span)

  predicate IsLegal(w: WireOption) {
    w.delta <= MAX_FIELD && |w.value| <= MAX_FIELD
  }

  predicate AllLegal(ws: seq<WireOption>) {
    forall i :: 0 <= i < |ws| ==> IsLegal(ws[i])
  }

  /** The nibble and the extension bytes of a delta or length. */
  function Nibble(v: nat): (n: byte)
    ensures n <= 14
  {
    if v <= 12 then v else if v <= 268 then 13 else 14
  }

  function Extension(v: nat): Span {
    if v <= 12 then [] else if v <= 268 then [v - 13] else BigEndian16(ToU16(v - 269))
  }

  function EncodeOption(w: WireOption): Span {
    [Nibble(w.delta) as int * 0x10 + Nibble(|w.value|)] + Extension(w.delta) + Extension(|w.value|) + w.value
  }

  function EncodeOptions(ws: seq<WireOption>): Span {
    if ws == [] then [] else EncodeOption(ws[0]) + EncodeOptions(ws[1..])
  }

  /** Where each option of `EncodeOptions(ws)` begins, if the first begins at `pos`. */
  function Boundaries(ws: seq<WireOption>, pos: nat): seq<nat> {
    if ws == [] then [] else [pos] + Boundaries(ws[1..], pos + |EncodeOption(ws[0])|)
  }

  lemma {:induction false} EncodeOptionsAppend(xs: seq<WireOption>, ys: seq<WireOption>)
    ensures EncodeOptions(xs + ys) == EncodeOptions(xs) + EncodeOptions(ys)
  {
    hide EncodeOption;
    if xs == [] {
      assert xs + ys == ys;
    } else {
      EncodeOptionsAppend(xs[1..], ys);
      assert (xs + ys)[1..] == xs[1..] + ys && (xs + ys)[0] == xs[0];
      assert EncodeOption(xs[0]) + (EncodeOptions(xs[1..]) + EncodeOptions(ys)) == EncodeOptions(xs) + EncodeOptions(ys);
    }
  }

  lemma {:induction false} BoundariesAppend(xs: seq<WireOption>, y: WireOption, pos: nat)
    ensures EncodeOptions(xs + [y]) == EncodeOptions(xs) + EncodeOption(y)
    ensures Boundaries(xs + [y], pos) == Boundaries(xs, pos) + [pos + |EncodeOptions(xs)|]
  {
    hide EncodeOption, EncodeOptions, Boundaries;
    EncodeOne(y);
    EncodeOptionsAppend(xs, [y]);
    if xs == [] {
      assert xs + [y] == [y];
      NoBoundaries(pos);
      NoBoundaries(pos + |EncodeOption(y)|);
      BoundariesStep([y], pos);
      assert [y][1..] == [] && [pos] + [] == [] + [pos];
    } else {
      var next := pos + |EncodeOption(xs[0])|;
      EncodeFirst(xs);
      BoundariesStep(xs, pos);
      BoundariesAppend(xs[1..], y, next);
      BoundariesStep(xs + [y], pos);
      assert (xs + [y])[1..] == xs[1..] + [y] && (xs + [y])[0] == xs[0];
      var later, last := Boundaries(xs[1..], next), [next + |EncodeOptions(xs[1..])|];
      assert [pos] + (later + last) == [pos] + later + last;
    }
  }

  lemma NoBoundaries(pos: nat)
    ensures Boundaries([], pos) == [] && EncodeOptions([]) == []
  {
  }

  lemma BoundariesStep(ws: seq<WireOption>, pos: nat)
    requires ws != []
    ensures Boundaries(ws, pos) == [pos] + Boundaries(ws[1..], pos + |EncodeOption(ws[0])|)
  {
  }

  lemma EncodeOne(w: WireOption)
    ensures EncodeOptions([w]) == EncodeOption(w)
  {
    assert [w][1..] == [] && EncodeOption(w) + [] == EncodeOption(w);
  }

  lemma EncodeFirst(ws: seq<WireOption>)
    requires ws != []
    ensures EncodeOptions(ws) == EncodeOption(ws[0]) + EncodeOptions(ws[1..])
  {
  }

  /** A whole datagram; an empty payload stands for "no payload marker". */
  datatype Datagram = Datagram(
    mtype: MessageType, code: Code, messageId: uint16, token: Token, options: seq<WireOption>, payload: Span)

  function EncodeHead(mtype: MessageType, code: Code, messageId: uint16, token: Token): Span {
    [0x40 + TypeBits(mtype) * 0x10 + |token|, code] + BigEndian16(messageId) + token
  }

  function EncodePayload(payload: Span): Span {
    if payload == [] then [] else [PAYLOAD_MARKER] + payload
  }

  function EncodeDatagram(d: Datagram): Span {
    EncodeHead(d.mtype, d.code, d.messageId, d.token) + EncodeOptions(d.options) + EncodePayload(d.payload)
  }

  // ---------------------------------------------------------------- reading

  /** A delta or length with this nibble, and what follows its extension bytes. */
  function TakeField(nibble: byte, raw: Span): (r: Option<(nat, Span)>)
    ensures r.Some? ==> |r.value.1| <= |raw|
  {
    if nibble <= 12 then Some((nibble, raw))
    else if nibble == 13 then
      if |raw| >= 1 then Some((raw[0] as int + 13, raw[1..])) else None
    else
      if |raw| >= 2 then Some((FromBigEndian16(raw[0], raw[1]) as int + 269, raw[2..])) else None
  }

  /** A value of the length read, and what follows it. */
  function TakeValue(delta: nat, length: nat, raw: Span): (r: Option<(WireOption, Span)>)
    ensures r.Some? ==> |r.value.1| <= |raw|
  {
    if |raw| < length then None else Some((WireOption(delta, raw[..length]), raw[length..]))
  }

  /** The option at the head of `raw` and what follows it. */
  function TakeOption(raw: Span): (r: Option<(WireOption, Span)>)
    requires raw != []
    ensures r.Some? ==> |r.value.1| < |raw|
  {
    var delta, length := raw[0] / 0x10, raw[0] % 0x10;
    if delta == 15 || length == 15 then None
    else match TakeField(delta, raw[1..])
      case None => None
      case Some((d, raw1)) =>
        match TakeField(length, raw1)
        case None => None
        case Some((l, raw2)) => TakeValue(d, l, raw2)
  }

  /** An option list followed by nothing or by a payload marker. */
  datatype Scan = Malformed | Scanned(options: seq<WireOption>, tail: Span)

  function ScanAll(raw: Span): Scan
    decreases |raw|
  {
    if raw == [] || raw[0] == PAYLOAD_MARKER then Scanned([], raw)
    else match TakeOption(raw)
      case None => Malformed
      case Some(r) =>
        match ScanAll(r.1)
        case Malformed => Malformed
        case Scanned(ws, tail) => Scanned([r.0] + ws, tail)
  }

  predicate EndsOptions(tail: Span) {
    tail == [] || tail[0] == PAYLOAD_MARKER
  }

  lemma FieldRoundTrip(v: nat, rest: Span)
    requires v <= MAX_FIELD
    ensures TakeField(Nibble(v), Extension(v) + rest) == Some((v, rest))
  {
    if v <= 12 {
      assert Extension(v) + rest == rest;
    } else if v <= 268 {
      assert (Extension(v) + rest)[1..] == rest;
    } else {
      assert (Extension(v) + rest)[2..] == rest;
    }
  }

  /** The reading of a field determines its encoding. */
  lemma FieldCanonical(nibble: byte, raw: Span)
    requires nibble <= 14 && TakeField(nibble, raw).Some?
    ensures var (v, rest) := TakeField(nibble, raw).value;
      v <= MAX_FIELD && Nibble(v) == nibble && raw == Extension(v) + rest
  {
    hide BigEndian16, FromBigEndian16;
    if nibble == 13 {
      assert raw == [raw[0]] + raw[1..];
    } else if nibble == 14 {
      BigEndianRoundTrip(raw[0], raw[1]);
      assert raw == [raw[0], raw[1]] + raw[2..];
    }
  }

  lemma NibblesSplit(hi: byte, lo: byte)
    requires hi <= 14 && lo <= 14
    ensures var b := hi as int * 0x10 + lo;
      b < PAYLOAD_MARKER && b / 0x10 == hi && b % 0x10 == lo
  {
  }

  lemma HeaderByteIs(b: byte)
    ensures b == b / 0x10 * 0x10 + b % 0x10
  {
  }

  /** The encoding of an option in front of `rest`, in the order it is read. */
  lemma EncodedParts(w: WireOption, rest: Span)
    ensures EncodeOption(w) + rest ==
      [Nibble(w.delta) as int * 0x10 + Nibble(|w.value|)] + (Extension(w.delta) + (Extension(|w.value|) + (w.value + rest)))
  {
    hide Nibble, Extension;
  }

  lemma ValueRoundTrip(delta: nat, value: Span, rest: Span)
    ensures TakeValue(delta, |value|, value + rest) == Some((WireOption(delta, value), rest))
  {
  }

  lemma HeaderByte(w: WireOption)
    ensures EncodeOption(w) != [] && EncodeOption(w)[0] == Nibble(w.delta) as int * 0x10 + Nibble(|w.value|)
  {
    hide Nibble, Extension;
  }

  lemma TakeSteps(high: byte, low: byte, fields: Span)
    requires high <= 14 && low <= 14 && TakeField(high, fields).Some?
    requires TakeField(low, TakeField(high, fields).value.1).Some?
    ensures var (d, raw1) := TakeField(high, fields).value;
      var (l, raw2) := TakeField(low, raw1).value;
      TakeOption([high as int * 0x10 + low] + fields) == TakeValue(d, l, raw2)
  {
    hide TakeField, TakeValue;
    NibblesSplit(high, low);
    assert ([high as int * 0x10 + low] + fields)[1..] == fields;
  }

  lemma TakeEncoded(w: WireOption, rest: Span)
    requires IsLegal(w)
    ensures EncodeOption(w) != [] && EncodeOption(w)[0] != PAYLOAD_MARKER
    ensures TakeOption(EncodeOption(w) + rest) == Some((w, rest))
  {
    hide EncodeOption, Nibble, Extension, TakeField, TakeValue, TakeOption;
    var high, low, raw2 := Nibble(w.delta), Nibble(|w.value|), w.value + rest;
    var raw1 := Extension(|w.value|) + raw2;
    NibblesSplit(high, low);
    HeaderByte(w);
    EncodedParts(w, rest);
    FieldRoundTrip(w.delta, raw1);
    FieldRoundTrip(|w.value|, raw2);
    TakeSteps(high, low, Extension(w.delta) + raw1);
    ValueRoundTrip(w.delta, w.value, rest);
  }

  lemma {:induction false} TakeCanonical(raw: Span)
    requires raw != [] && TakeOption(raw).Some?
    ensures var (w, rest) := TakeOption(raw).value;
      IsLegal(w) && raw == EncodeOption(w) + rest
  {
    hide Nibble, Extension, TakeField, EncodeOption;
    HeaderByteIs(raw[0]);
    FieldCanonical(raw[0] / 0x10, raw[1..]);
    var (d, raw1) := TakeField(raw[0] / 0x10, raw[1..]).value;
    FieldCanonical(raw[0] % 0x10, raw1);
    var (l, raw2) := TakeField(raw[0] % 0x10, raw1).value;
    var (w, rest) := TakeValue(d, l, raw2).value;
    EncodedParts(w, rest);
    assert raw2 == w.value + rest;
    assert raw == [raw[0]] + raw[1..];
  }

  /** Every legal option list, followed by nothing or a marker, is read back. */
  lemma {:induction false} ScanEncoded(ws: seq<WireOption>, tail: Span)
    requires AllLegal(ws) && EndsOptions(tail)
    ensures ScanAll(EncodeOptions(ws) + tail) == Scanned(ws, tail)
  {
    hide EncodeOption, TakeOption;
    if ws == [] {
      assert EncodeOptions(ws) + tail == tail;
    } else {
      var rest := EncodeOptions(ws[1..]) + tail;
      assert EncodeOptions(ws) + tail == EncodeOption(ws[0]) + rest;
      TakeEncoded(ws[0], rest);
      ScanEncoded(ws[1..], tail);
    }
  }

  /** Whatever is read is a legal option list in its only encoding. */
  lemma {:induction false} ScanCanonical(raw: Span)
    requires ScanAll(raw).Scanned?
    ensures var s := ScanAll(raw);
      AllLegal(s.options) && EndsOptions(s.tail) && raw == EncodeOptions(s.options) + s.tail
    decreases |raw|
  {
    hide EncodeOption, EncodeOptions, TakeOption, ScanAll;
    ScanStep(raw);
    if raw == [] || raw[0] == PAYLOAD_MARKER {
      NoBoundaries(0);
      assert [] + raw == raw;
    } else {
      TakeCanonical(raw);
      var (w, rest) := TakeOption(raw).value;
      ScanCanonical(rest);
      var ws, tail := ScanAll(rest).options, ScanAll(rest).tail;
      EncodeFirst([w] + ws);
      assert ([w] + ws)[1..] == ws;
      assert EncodeOption(w) + (EncodeOptions(ws) + tail) == EncodeOption(w) + EncodeOptions(ws) + tail;
    }
  }

  /** One turn of the scan. */
  lemma ScanStep(raw: Span)
    ensures ScanAll(raw) ==
      if raw == [] || raw[0] == PAYLOAD_MARKER then Scanned([], raw)
      else if TakeOption(raw).None? || ScanAll(TakeOption(raw).value.1).Malformed? then Malformed
      else
        var (w, rest) := TakeOption(raw).value;
        Scanned([w] + ScanAll(rest).options, ScanAll(rest).tail)
  {
    hide TakeOption;
  }

  /** The encoding of an option list is injective. */
  lemma OptionsInjective(xs: seq<WireOption>, ys: seq<WireOption>)
    requires AllLegal(xs) && AllLegal(ys) && EncodeOptions(xs) == EncodeOptions(ys)
    ensures xs == ys
  {
    ScanEncoded(xs, []);
    ScanEncoded(ys, []);
    assert EncodeOptions(xs) + [] == EncodeOptions(ys) + [];
  }
}

/** Round trip and canonicity of the codec as a whole. */
module Codec {
  import opened Bytes
  import opened CoapOption
  import opened Pdu
  import opened WireFormat
  import opened Serializer
  import opened Deserializer
  import opened OptionsIteration
  import opened Builder

  const MAX_DATAGRAM := 0xFFFF

  /** Every value is of the kind that the format table assigns to its number. */
  predicate HaveTableFormats(opts: seq<OptionView>) {
    forall i :: 0 <= i < |opts| ==> HasTableFormat(opts[i])
  }

  lemma ValueRoundTrip(opt: OptionView)
    requires HasTableFormat(opt)
    ensures DecodeValue(FormatFor(opt.number), ValueBytes(opt.value)) == opt.value
  {
    hide FormatFor, UintBytes, UintOf;
    if opt.value.Uint? {
      UintRoundTrip(opt.value.number);
    }
  }

  lemma OptionRoundTrip(prev: uint16, opt: OptionView)
    requires HasTableFormat(opt)
    ensures RaiseOption(prev, LowerOption(prev, opt)) == opt
  {
    hide HasTableFormat, FormatFor, DecodeValue, ValueBytes, ToU16;
    NumberRoundTrip(prev, opt.number);
    ValueRoundTrip(opt);
  }

  lemma NumberRoundTrip(prev: uint16, number: uint16)
    ensures ToU16(prev + ToU16(ToU16(number - prev))) == number
  {
  }

  /** A decoder only produces values of the table's formats. */
  lemma {:induction false} RaisedHaveTableFormats(prev: uint16, ws: seq<WireOption>)
    ensures HaveTableFormats(Raise(prev, ws))
    decreases ws
  {
    if ws != [] {
      var opt := RaiseOption(prev, ws[0]);
      assert HasTableFormat(opt);
      hide RaiseOption, HasTableFormat;
      RaisedHaveTableFormats(opt.number, ws[1..]);
    }
  }

  /**
   * Iterating over encoded options gives them back exactly when their values have the
   * table's formats; sorted or not does not matter, since both sides wrap alike.
   */
  lemma {:induction false} OptionsRoundTrip(prev: uint16, opts: seq<OptionView>)
    ensures Raise(prev, Lower(prev, opts)) == opts <==> HaveTableFormats(opts)
    decreases opts
  {
    RaisedHaveTableFormats(prev, Lower(prev, opts));
    if HaveTableFormats(opts) && opts != [] {
      OptionRoundTrip(prev, opts[0]);
      hide LowerOption, RaiseOption, HasTableFormat;
      OptionsRoundTrip(opts[0].number, opts[1..]);
    }
  }

  lemma ValueFits(w: WireOption)
    ensures |w.value| < |EncodeOption(w)|
  {
  }

  /** Options whose encoding fits a datagram can be told apart by the grammar. */
  lemma {:induction false} FittingOptionsAreLegal(prev: uint16, opts: seq<OptionView>)
    requires |EncodeOptions(Lower(prev, opts))| <= MAX_DATAGRAM
    ensures AllLegal(Lower(prev, opts))
    decreases opts
  {
    hide EncodeOption;
    if opts != [] {
      ValueFits(Lower(prev, opts)[0]);
      FittingOptionsAreLegal(opts[0].number, opts[1..]);
    }
  }

  /** A validated span is read back as the option list it encodes. */
  lemma {:induction false} EncodedOptionsAreValidated(ws: seq<WireOption>)
    requires AllLegal(ws) && |EncodeOptions(ws)| <= MAX_DATAGRAM
    ensures IsValidated(EncodeOptions(ws)) && View(EncodeOptions(ws)) == Raise(0, ws)
  {
    ScanEncoded(ws, []);
    assert EncodeOptions(ws) + [] == EncodeOptions(ws);
  }

  /** What `Deserialize` accepts, `OptionsIterator` may walk. */
  lemma {:induction false} AcceptedOptionsAreValidated(raw: Span)
    requires |raw| <= MAX_DATAGRAM && Parse(raw).Ok?
    ensures var d := Parse(raw).value;
      IsValidated(MessageOf(d).options) && View(MessageOf(d).options) == Raise(0, d.options)
  {
    var d := Parse(raw).value;
    ParseCanonical(raw);
    EncodedOptionsAreValidated(d.options);
  }

  /**
   * A message that fits a datagram is serialized and parsed back to itself, and iteration
   * gives its options back exactly when they carry values of their table formats.
   */
  lemma {:induction false} RoundTrip(msg: OutgoingMessage)
    requires Required(msg) <= MAX_DATAGRAM
    ensures var parsed := Parse(EncodeDatagram(Denote(msg)));
      && parsed.Ok?
      && var m := MessageOf(parsed.value);
        && m.mtype == msg.mtype && m.code == msg.code && m.messageId == msg.messageId && m.token == msg.token
        && m.payload == CallbackBytes(msg.callback)
        && IsValidated(m.options)
        && (View(m.options) == msg.options <==> HaveTableFormats(msg.options))
  {
    var d := Denote(msg);
    FittingOptionsAreLegal(0, msg.options);
    ParseEncoded(d);
    EncodedOptionsAreValidated(d.options);
    OptionsRoundTrip(0, msg.options);
  }

  /** The room `Serialize` needs is the length of the datagram, and one byte more for a callback that writes nothing. */
  lemma RequiredIsLength(msg: OutgoingMessage)
    ensures Required(msg) == |EncodeDatagram(Denote(msg))| + if msg.callback == Writes([]) then 1 else 0
  {
    hide EncodeHead, EncodeOptions, Lower;
  }

  /**
   * Options added to a builder in any order arrive stably sorted, in a buffer of at most a
   * datagram's size.
   */
  lemma {:induction false} BuiltMessageRoundTrip(msg: OutgoingMessage, added: seq<OptionView>, capacity: nat)
    requires msg.options == StableSort(added) && HaveTableFormats(added)
    requires capacity <= MAX_DATAGRAM
    ensures IsStableSortOf(msg.options, added)
    ensures Required(msg) <= capacity <==>
      |EncodeDatagram(Denote(msg))| + (if msg.callback == Writes([]) then 1 else 0) <= capacity
    ensures Required(msg) <= capacity ==>
      && Parse(EncodeDatagram(Denote(msg))).Ok?
      && var m := MessageOf(Parse(EncodeDatagram(Denote(msg))).value);
        && (m.mtype, m.code, m.messageId, m.token) == (msg.mtype, msg.code, msg.messageId, msg.token)
        && IsValidated(m.options) && View(m.options) == msg.options
        && m.payload == CallbackBytes(msg.callback)
  {
    StableSortIsStable(added);
    StableSortAt(added, 0);
    RequiredIsLength(msg);
    hide HasTableFormat;
    forall i | 0 <= i < |msg.options| ensures HasTableFormat(msg.options[i]) {
      assert msg.options[i] in added;
    }
    if Required(msg) <= capacity {
      RoundTrip(msg);
    }
  }

  // ------------------------------------------------------------- canonicity

  /** The message a receiver would send on. */
  function Reserialized(d: Datagram): OutgoingMessage {
    OutgoingMessage(d.mtype, d.code, d.messageId, d.token, Raise(0, d.options),
      if d.payload == [] then NoCallback else Writes(d.payload))
  }

  /** The option's delta is a 16-bit number and its value is the shortest of its format. */
  predicate IsCanonical(number: uint16, w: WireOption) {
    && w.delta <= 0xFFFF
    && (FormatFor(number).EmptyFormat? ==> w.value == [])
    && (FormatFor(number).UintFormat? ==> IsMinimalUint(w.value))
  }

  predicate AllCanonical(prev: uint16, ws: seq<WireOption>)
    decreases ws
  {
    ws != [] ==>
      var number := RaiseOption(prev, ws[0]).number;
      IsCanonical(number, ws[0]) && AllCanonical(number, ws[1..])
  }

  lemma OptionReencode(prev: uint16, w: WireOption)
    requires IsLegal(w)
    ensures IsLegal(LowerOption(prev, RaiseOption(prev, w)))
    ensures LowerOption(prev, RaiseOption(prev, w)) == w <==> IsCanonical(RaiseOption(prev, w).number, w)
  {
    UintReencode(w.value);
    DeltaReencode(prev, w.delta);
  }

  lemma DeltaReencode(prev: uint16, delta: nat)
    ensures ToU16(ToU16(prev + ToU16(delta)) - prev) == ToU16(delta)
  {
  }

  lemma {:induction false} OptionsReencode(prev: uint16, ws: seq<WireOption>)
    requires AllLegal(ws)
    ensures AllLegal(Lower(prev, Raise(prev, ws)))
    ensures Lower(prev, Raise(prev, ws)) == ws <==> AllCanonical(prev, ws)
    decreases ws
  {
    hide LowerOption, RaiseOption, IsLegal, IsCanonical;
    if ws != [] {
      var opt := RaiseOption(prev, ws[0]);
      OptionReencode(prev, ws[0]);
      OptionsReencode(opt.number, ws[1..]);
      assert Raise(prev, ws)[1..] == Raise(opt.number, ws[1..]);
      assert Lower(prev, Raise(prev, ws))[1..] == Lower(opt.number, Raise(opt.number, ws[1..]));
      assert Lower(prev, Raise(prev, ws))[0] == LowerOption(prev, opt);
      assert ws == [ws[0]] + ws[1..];
    }
  }

  /** Serializing a decoded datagram reproduces it byte for byte exactly when its options are canonical. */
  lemma {:induction false} ReproducesExactlyCanonical(raw: Span)
    requires Parse(raw).Ok?
    ensures EncodeDatagram(Denote(Reserialized(Parse(raw).value))) == raw
      <==> AllCanonical(0, Parse(raw).value.options)
  {
    var d := Parse(raw).value;
    var d' := Denote(Reserialized(d));
    ParseCanonical(raw);
    OptionsReencode(0, d.options);
    ParseEncoded(d');
    assert d' == d.(options := d'.options);
  }

  /** A GET with message ID 1, without token and payload. */
  function Get(options: seq<WireOption>): Datagram {
    Datagram(Con, GET, 1, [], options, [])
  }

  lemma EncodeGet(w: WireOption)
    ensures EncodeDatagram(Get([w])) == [0x40, GET, 0, 1] + EncodeOption(w)
  {
    assert EncodeHead(Con, GET, 1, []) == [0x40, GET, 0, 1];
    assert [w][1..] == [] && EncodeOptions([]) == [];
    hide EncodeHead, EncodeOption;
  }

  lemma LeadingZeroOptions()
    ensures EncodeOption(WireOption(12, [0x00])) == [0xC1, 0x00] && EncodeOption(WireOption(12, [])) == [0xC0]
    ensures Lower(0, Raise(0, [WireOption(12, [0x00])])) == [WireOption(12, [])]
  {
    var w := WireOption(12, [0x00]);
    assert w.value[..0] == [] && UintOf([]) == 0;
    assert RaiseOption(0, w) == OptionView(12, Uint(0));
    assert LowerOption(0, OptionView(12, Uint(0))) == WireOption(12, []);
    hide RaiseOption, LowerOption;
    assert [w][1..] == [] && Raise(0, [w]) == [OptionView(12, Uint(0))];
    assert [OptionView(12, Uint(0))][1..] == [];
  }

  /**
   * A GET whose Content-Format is written as one zero byte is accepted, and serializing what
   * was read gives a datagram that is one byte shorter.
   */
  lemma LeadingZeroExample()
    ensures var raw: Span := [0x40, GET, 0, 1, 0xC1, 0x00];
      var d := Get([WireOption(12, [0x00])]);
      && Parse(raw) == Result.Ok(d)
      && EncodeDatagram(Denote(Reserialized(d))) == [0x40, GET, 0, 1, 0xC0]
      && !AllCanonical(0, d.options)
  {
    hide EncodeDatagram, EncodeOption, Parse, Raise, Lower, AllCanonical, IsMinimalUint;
    var zero, none := WireOption(12, [0x00]), WireOption(12, []);
    LeadingZeroOptions();
    EncodeGet(zero);
    EncodeGet(none);
    var raw: Span := [0x40, GET, 0, 1, 0xC1, 0x00];
    assert EncodeDatagram(Get([zero])) == raw;
    ParseEncoded(Get([zero]));
    ReproducesExactlyCanonical(raw);
    assert Denote(Reserialized(Get([zero]))) == Get([none]);
  }

  // ------------------------------------------------------------ option numbers

  function SumOfDeltas(ws: seq<WireOption>): nat {
    if ws == [] then 0 else ws[0].delta + SumOfDeltas(ws[1..])
  }

  /**
   * With sorted options the subtraction never wraps: the deltas are the real differences,
   * and their unbounded sum is the option number (section 3.1 of RFC 7252).
   */
  lemma {:induction false} SortedDeltasDoNotWrap(prev: uint16, opts: seq<OptionView>, k: nat)
    requires IsSorted(opts) && k < |opts| && prev <= opts[0].number
    ensures |Lower(prev, opts)| == |opts|
    ensures prev + SumOfDeltas(Lower(prev, opts)[..k + 1]) == opts[k].number
    decreases opts
  {
    var ws := Lower(prev, opts);
    LowerLength(prev, opts);
    assert ws[..k + 1][1..] == ws[1..][..k];
    if k > 0 {
      SortedDeltasDoNotWrap(opts[0].number, opts[1..], k - 1);
    } else {
      assert SumOfDeltas(ws[..1]) == ws[0].delta + SumOfDeltas([]);
    }
  }

  lemma {:induction false} LowerLength(prev: uint16, opts: seq<OptionView>)
    ensures |Lower(prev, opts)| == |opts|
    decreases opts
  {
    if opts != [] {
      LowerLength(opts[0].number, opts[1..]);
    }
  }
}

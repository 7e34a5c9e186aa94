/**
 * What a datagram is, byte for byte and in numbers (sections 3 to 3.2 of RFC 7252), without
 * the names that encoder and decoder share.
 */
module WireBytes {
  import opened Bytes
  import opened CoapOption
  import opened Pdu
  import opened WireFormat
  import opened Serializer
  import opened Deserializer
  import opened OptionsIteration
  import opened Codec

  // ---------------------------------------------------------------- encoding

  /** The number of a message type. */
  function TypeNumber(t: MessageType): nat {
    if t == Con then 0 else if t == Non then 1 else if t == Ack then 2 else 3
  }

  lemma HeadBytes(mtype: MessageType, code: Code, messageId: uint16, token: Token)
    ensures var head := EncodeHead(mtype, code, messageId, token);
      && |head| == 4 + |token| && head[0] == 64 + 16 * TypeNumber(mtype) + |token| && head[1] == code
      && head[2] as int * 256 + head[3] == messageId && head[4..] == token
  {
  }

  /** Version 1, type and token length in the first byte, code, message ID with the high byte first, token. */
  lemma HeadOnTheWire(d: Datagram)
    ensures var raw := EncodeDatagram(d);
      && |raw| >= 4 + |d.token|
      && raw[0] == 64 + 16 * TypeNumber(d.mtype) + |d.token|
      && raw[1] == d.code && raw[2] as int * 256 + raw[3] == d.messageId
      && raw[4..4 + |d.token|] == d.token
  {
    hide EncodeHead, EncodeOptions, EncodePayload;
    HeadBytes(d.mtype, d.code, d.messageId, d.token);
    var head, rest := EncodeHead(d.mtype, d.code, d.messageId, d.token), EncodeOptions(d.options) + EncodePayload(d.payload);
    assert EncodeDatagram(d) == head + rest;
    assert (head + rest)[4..4 + |d.token|] == head[4..];
  }

  /** A payload is the end of the datagram, behind a byte 0xFF; without one the options are the end. */
  lemma PayloadOnTheWire(d: Datagram)
    ensures var raw, n := EncodeDatagram(d), |d.payload|;
      && (n > 0 ==>
        && |raw| == 4 + |d.token| + |EncodeOptions(d.options)| + 1 + n
        && raw[|raw| - n - 1] == 0xFF && raw[|raw| - n..] == d.payload)
      && (n == 0 ==> |raw| == 4 + |d.token| + |EncodeOptions(d.options)|)
  {
    hide EncodeHead, EncodeOptions;
    HeadBytes(d.mtype, d.code, d.messageId, d.token);
  }

  /** How many bytes extend a nibble. */
  function ExtensionLength(nibble: nat): nat {
    if nibble < 13 then 0 else if nibble == 13 then 1 else 2
  }

  /** The number that a nibble and the bytes at `at` stand for. */
  function NumberAt(nibble: nat, bytes: Span, at: nat): nat
    requires at + ExtensionLength(nibble) <= |bytes|
  {
    if nibble < 13 then nibble
    else if nibble == 13 then bytes[at] as int + 13
    else bytes[at] as int * 256 + bytes[at + 1] + 269
  }

  lemma FieldBytes(v: nat)
    requires v <= MAX_FIELD
    ensures Nibble(v) < 15 && |Extension(v)| == ExtensionLength(Nibble(v)) && NumberAt(Nibble(v), Extension(v), 0) == v
  {
  }

  /**
   * The delta is told by the high nibble of the first byte and what extends it, the length by
   * the low nibble and what extends that; then comes the value.
   */
  lemma OptionOnTheWire(w: WireOption)
    requires IsLegal(w)
    ensures var b := EncodeOption(w);
      && |b| > 0
      && var high, low := b[0] / 16, b[0] % 16;
        var start := 1 + ExtensionLength(high) + ExtensionLength(low);
        && high < 15 && low < 15 && |b| == start + |w.value|
        && NumberAt(high, b, 1) == w.delta && NumberAt(low, b, 1 + ExtensionLength(high)) == |w.value|
        && b[start..] == w.value
  {
    var high, low := Nibble(w.delta), Nibble(|w.value|);
    var first, second := Extension(w.delta), Extension(|w.value|);
    FieldBytes(w.delta);
    FieldBytes(|w.value|);
    NibblesSplit(high, low);
    hide Nibble, Extension;
    var header: byte := high as int * 16 + low;
    NumberInside(high, [header], first, second + w.value);
    NumberInside(low, [header] + first, second, w.value);
    assert EncodeOption(w) == [header] + first + (second + w.value) == [header] + first + second + w.value;
  }

  /** The number does not depend on where its bytes stand. */
  lemma NumberInside(nibble: nat, before: Span, extension: Span, rest: Span)
    requires |extension| == ExtensionLength(nibble)
    ensures NumberAt(nibble, before + extension + rest, |before|) == NumberAt(nibble, extension, 0)
  {
    var all := before + extension + rest;
    assert forall i :: 0 <= i < |extension| ==> all[|before| + i] == extension[i];
  }

  // ---------------------------------------------------------------- decoding

  /** The option numbers an iteration yields are the running sums of the deltas, in 16 bits. */
  lemma {:induction false} NumberIsSumOfDeltas(prev: uint16, ws: seq<WireOption>, k: nat)
    requires k < |ws|
    ensures |Raise(prev, ws)| == |ws|
    ensures Raise(prev, ws)[k].number == (prev + SumOfDeltas(ws[..k + 1])) % 0x1_0000
    decreases |ws|
  {
    hide DecodeValue, FormatFor;
    RaiseLength(prev, ws);
    var number := RaiseOption(prev, ws[0]).number;
    assert ws[..k + 1][1..] == ws[1..][..k];
    if k > 0 {
      NumberIsSumOfDeltas(number, ws[1..], k - 1);
      SumInSixteenBits(prev, ws[0].delta, SumOfDeltas(ws[1..][..k]));
    } else {
      assert SumOfDeltas(ws[..1]) == ws[0].delta + SumOfDeltas([]);
      SumInSixteenBits(prev, ws[0].delta, 0);
    }
  }

  lemma SumInSixteenBits(prev: uint16, delta: nat, rest: nat)
    ensures (ToU16(prev + ToU16(delta)) + rest) % 0x1_0000 == (prev + (delta + rest)) % 0x1_0000
  {
  }

  lemma {:induction false} RaiseLength(prev: uint16, ws: seq<WireOption>)
    ensures |Raise(prev, ws)| == |ws|
    decreases ws
  {
    hide RaiseOption;
    if ws != [] {
      RaiseLength(RaiseOption(prev, ws[0]).number, ws[1..]);
    }
  }

  function Power256(n: nat): nat {
    if n == 0 then 1 else 256 * Power256(n - 1)
  }

  /** The number whose digits to the base 256 are `bytes`, the most significant first. */
  function BigEndian(bytes: Span): nat {
    if bytes == [] then 0 else bytes[0] * Power256(|bytes| - 1) + BigEndian(bytes[1..])
  }

  lemma {:induction false} BigEndianAppend(bytes: Span, last: byte)
    ensures BigEndian(bytes + [last]) == BigEndian(bytes) * 256 + last
  {
    if bytes == [] {
      assert [last][1..] == [] && bytes + [last] == [last] && Power256(0) == 1 && BigEndian([]) == 0;
    } else {
      BigEndianAppend(bytes[1..], last);
      assert (bytes + [last])[1..] == bytes[1..] + [last];
      FirstDigit(bytes[0], Power256(|bytes| - 1), BigEndian(bytes[1..]));
    }
  }

  lemma FirstDigit(first: nat, power: nat, rest: nat)
    ensures (first * power + rest) * 256 == first * (256 * power) + rest * 256
  {
  }

  /** A uint is read as a big-endian number in 32 bits, and written as the big-endian digits of its value. */
  lemma {:induction false} UintIsBigEndian(bytes: Span)
    ensures UintOf(bytes) == BigEndian(bytes) % 0x1_0000_0000
    ensures |bytes| <= 4 ==> UintOf(bytes) == BigEndian(bytes)
  {
    hide UintOf, BigEndian, ToU32;
    if bytes == [] {
      NoDigits();
    } else {
      var init, last := bytes[..|bytes| - 1], bytes[|bytes| - 1];
      assert bytes == init + [last];
      UintIsBigEndian(init);
      BigEndianAppend(init, last);
      UintOfStep(init, last);
      ShiftInWord(BigEndian(init), last);
    }
    BigEndianBound(bytes);
    if |bytes| <= 4 {
      PowerGrows(|bytes|, 4);
      assert Power256(4) == 0x1_0000_0000 by { assert Power256(2) == 0x1_0000; }
    }
  }

  lemma NoDigits()
    ensures BigEndian([]) == 0 && UintOf([]) == 0
  {
  }

  lemma ShiftInWord(x: nat, last: byte)
    ensures ToU32(x % 0x1_0000_0000 * 256 + last) == (x * 256 + last) % 0x1_0000_0000
  {
    var q, r := x / 0x1_0000_0000, x % 0x1_0000_0000;
    assert x == 0x1_0000_0000 * q + r;
    assert x * 256 + last == 0x1_0000_0000 * (256 * q) + (r * 256 + last);
    WordRest(256 * q, r * 256 + last);
    WordIs(x * 256 + last);
    hide ToU32;
  }

  lemma WordIs(x: nat)
    ensures ToU32(x) == x % 0x1_0000_0000
  {
  }

  lemma {:induction false} BigEndianBound(bytes: Span)
    ensures BigEndian(bytes) < Power256(|bytes|)
  {
    if bytes != [] {
      BigEndianBound(bytes[1..]);
      DigitBound(bytes[0], Power256(|bytes| - 1));
    }
  }

  lemma DigitBound(digit: byte, power: nat)
    ensures digit * power + power <= 256 * power
  {
    var above: nat := 255 - digit;
    assert 256 * power == digit * power + power + above * power;
  }

  lemma {:induction false} PowerGrows(m: nat, n: nat)
    requires m <= n
    ensures 1 <= Power256(m) <= Power256(n)
    decreases n
  {
    if m < n {
      PowerGrows(m, n - 1);
    } else if n > 0 {
      PowerGrows(n - 1, n - 1);
    }
  }

  lemma UintBytesAreDigits(v: uint32)
    ensures BigEndian(UintBytes(v)) == v && |UintBytes(v)| <= 4 && (UintBytes(v) != [] ==> UintBytes(v)[0] != 0)
  {
    hide UintBytes, UintOf, BigEndian;
    UintRoundTrip(v);
    UintIsBigEndian(UintBytes(v));
  }

  // ------------------------------------------------------------------ errors

  /** The first byte has version 1 and a token length of at most eight. */
  predicate HasGoodHead(raw: Span) {
    |raw| >= 4 && raw[0] / 64 == 1 && raw[0] % 16 <= 8
  }

  /** Which error a datagram is refused with, in the order of the checks. */
  lemma ErrorsExactly(raw: Span)
    ensures Parse(raw) == Error(MessageTooShort) <==> |raw| < 4 || (HasGoodHead(raw) && |raw| < 4 + raw[0] % 16)
    ensures Parse(raw) == Error(InvalidVersion) <==> |raw| >= 4 && raw[0] / 64 != 1
    ensures Parse(raw) == Error(InvalidTokenLength) <==> |raw| >= 4 && raw[0] / 64 == 1 && raw[0] % 16 > 8
    ensures HasGoodHead(raw) && |raw| >= 4 + raw[0] % 16 ==>
      var rest := raw[4 + raw[0] % 16..];
      && (Parse(raw) == Error(InvalidPayload) <==> exists ws :: AllLegal(ws) && rest == EncodeOptions(ws) + [0xFF])
      && (Parse(raw) == Error(InvalidOption) <==> forall ws, tail :: AllLegal(ws) && EndsOptions(tail) ==> rest != EncodeOptions(ws) + tail)
  {
    hide ScanAll, EncodeOptions;
    if HasGoodHead(raw) && |raw| >= 4 + raw[0] % 16 {
      var rest := raw[4 + raw[0] % 16..];
      ScanExactly(rest);
      LoneMarker(rest);
    }
  }

  /** The scan fails exactly for what is not a legal option list in front of the end or a marker. */
  lemma ScanExactly(raw: Span)
    ensures ScanAll(raw).Malformed? <==>
      forall ws, tail :: AllLegal(ws) && EndsOptions(tail) ==> raw != EncodeOptions(ws) + tail
  {
    hide ScanAll, EncodeOptions, AllLegal, EndsOptions;
    if ScanAll(raw).Scanned? {
      ScanCanonical(raw);
    }
    forall ws, tail | AllLegal(ws) && EndsOptions(tail) && raw == EncodeOptions(ws) + tail ensures ScanAll(raw).Scanned? {
      ScanEncoded(ws, tail);
    }
  }

  lemma LoneMarker(raw: Span)
    ensures (ScanAll(raw).Scanned? && |ScanAll(raw).tail| == 1) <==>
      exists ws :: AllLegal(ws) && raw == EncodeOptions(ws) + [0xFF]
  {
    hide ScanAll, EncodeOptions, AllLegal;
    if ScanAll(raw).Scanned? && |ScanAll(raw).tail| == 1 {
      ScanCanonical(raw);
      assert ScanAll(raw).tail == [0xFF];
    }
    if exists ws :: AllLegal(ws) && raw == EncodeOptions(ws) + [0xFF] {
      var ws :| AllLegal(ws) && raw == EncodeOptions(ws) + [0xFF];
      ScanEncoded(ws, [0xFF]);
    }
  }

  // ------------------------------------------------------------ option numbers

  /** Section 12.2 of RFC 7252, RFC 7641, RFC 7959 and the registrations that followed. */
  lemma FormatsInNumbers(number: uint16)
    ensures FormatFor(number).EmptyFormat? <==> number == 5
    ensures FormatFor(number).StringFormat? <==> number in {3, 8, 11, 15, 20, 35, 39}
    ensures FormatFor(number).UintFormat? <==>
      number in {6, 7, 12, 14, 16, 17, 19} || number in {23, 27, 28, 31, 60, 239, 258}
  {
  }

  // ----------------------------------------------------------------- example

  const ETAG_OPTION := OptionView(4, Opaque([0x01]))
  const BLOCK1_OPTION := OptionView(27, Uint(0x123))

  /** A piggybacked 2.05 response: token AB, an ETag, Block1 with an extended delta, and the payload "hi". */
  const CONTENT_ACK := OutgoingMessage(Ack, 0x45, 0x1234, [0xAB], [ETAG_OPTION, BLOCK1_OPTION], Writes([0x68, 0x69]))

  const CONTENT_ACK_BYTES: Span :=
    [0x61, 0x45, 0x12, 0x34, 0xAB, 0x41, 0x01, 0xD2, 0x0A, 0x01, 0x23, 0xFF, 0x68, 0x69]

  const EXAMPLE_OPTIONS := [WireOption(4, [0x01]), WireOption(23, [0x01, 0x23])]

  lemma ExampleOptions()
    ensures Lower(0, [ETAG_OPTION, BLOCK1_OPTION]) == EXAMPLE_OPTIONS
    ensures HaveTableFormats([ETAG_OPTION, BLOCK1_OPTION])
  {
    assert UintBytes(1) == [] + [0x01];
    assert UintBytes(0x123) == UintBytes(1) + [0x23];
    assert LowerOption(0, ETAG_OPTION) == WireOption(4, [0x01]);
    assert LowerOption(4, BLOCK1_OPTION) == WireOption(23, [0x01, 0x23]);
    hide LowerOption, UintBytes;
    var both, second := [ETAG_OPTION, BLOCK1_OPTION], [BLOCK1_OPTION];
    assert both[1..] == second && second[1..] == [];
    assert Lower(4, second) == [LowerOption(4, BLOCK1_OPTION)] + Lower(27, []);
  }

  lemma ExampleOptionBytes()
    ensures AllLegal(EXAMPLE_OPTIONS) && EncodeOptions(EXAMPLE_OPTIONS) == [0x41, 0x01, 0xD2, 0x0A, 0x01, 0x23]
  {
    var first, second := WireOption(4, [0x01]), WireOption(23, [0x01, 0x23]);
    assert EncodeOption(first) == [0x41, 0x01] && EncodeOption(second) == [0xD2, 0x0A, 0x01, 0x23];
    hide EncodeOption;
    EncodeOne(second);
    EncodeFirst(EXAMPLE_OPTIONS);
    assert EXAMPLE_OPTIONS[1..] == [second];
  }

  lemma ExampleHead()
    ensures EncodeHead(Ack, 0x45, 0x1234, [0xAB]) == [0x61, 0x45, 0x12, 0x34, 0xAB]
  {
  }

  /** An ACK with a token, two options, one of them with an extension byte, and a payload: both ways. */
  lemma ContentAckExample()
    ensures EncodeDatagram(Denote(CONTENT_ACK)) == CONTENT_ACK_BYTES
    ensures Parse(CONTENT_ACK_BYTES) == Result.Ok(Denote(CONTENT_ACK))
    ensures IsValidated(MessageOf(Denote(CONTENT_ACK)).options)
    ensures View(MessageOf(Denote(CONTENT_ACK)).options) == [ETAG_OPTION, BLOCK1_OPTION]
  {
    hide EncodeHead, EncodeOptions, Lower, Parse, Raise, HaveTableFormats, AllLegal, IsValidated, View;
    ExampleHead();
    ExampleOptions();
    ExampleOptionBytes();
    assert Denote(CONTENT_ACK) == Datagram(Ack, 0x45, 0x1234, [0xAB], EXAMPLE_OPTIONS, [0x68, 0x69]);
    ParseEncoded(Denote(CONTENT_ACK));
    EncodedOptionsAreValidated(EXAMPLE_OPTIONS);
    OptionsRoundTrip(0, [ETAG_OPTION, BLOCK1_OPTION]);
  }
}

/** `DeserializeFixedHeader`, `ScanOptions` and `Deserialize`: the bounds-checked parser. */
module Deserializer {
  import opened Bytes
  import opened Pdu
  import opened WireFormat

  datatype DeserializeError = MessageTooShort | InvalidVersion | InvalidTokenLength | InvalidOption | InvalidPayload

  datatype Result<+T> = Ok(value: T) | Error(error: DeserializeError)

  datatype FixedHeader = FixedHeader(mtype: MessageType, code: Code, messageId: uint16, tokenLength: nat)

  function HeaderOf(raw: Span): Result<FixedHeader> {
    if |raw| < FIXED_HEADER_SIZE then Error(MessageTooShort)
    else if raw[0] / 0x40 != 1 then Error(InvalidVersion)
    else Ok(FixedHeader(TypeOfBits(raw[0] / 0x10 % 4), raw[1], FromBigEndian16(raw[2], raw[3]), raw[0] % 0x10))
  }

  function FromScan(header: FixedHeader, token: Token, scan: Scan): Result<Datagram> {
    match scan
    case Malformed => Error(InvalidOption)
    case Scanned(ws, tail) =>
      if |tail| == 1 then Error(InvalidPayload)
      else Ok(Datagram(header.mtype, header.code, header.messageId, token, ws, if tail == [] then [] else tail[1..]))
  }

  /** What a datagram means, in terms of the grammar's own reader. */
  function Parse(raw: Span): Result<Datagram> {
    match HeaderOf(raw)
    case Error(e) => Error(e)
    case Ok(header) =>
      if header.tokenLength > 8 then Error(InvalidTokenLength)
      else if |raw| < FIXED_HEADER_SIZE + header.tokenLength then Error(MessageTooShort)
      else
        var end := FIXED_HEADER_SIZE + header.tokenLength;
        FromScan(header, raw[FIXED_HEADER_SIZE..end], ScanAll(raw[end..]))
  }

  /** The message structure `Deserialize` fills for a datagram. */
  function MessageOf(d: Datagram): Message {
    Message(d.mtype, d.code, d.messageId, d.token, EncodeOptions(d.options), d.payload)
  }

  // ------------------------------------------------- the parser and the grammar

  lemma HeadRoundTrip(d: Datagram, rest: Span)
    ensures var raw := EncodeHead(d.mtype, d.code, d.messageId, d.token) + rest;
      && |raw| >= FIXED_HEADER_SIZE + |d.token|
      && HeaderOf(raw) == Ok(FixedHeader(d.mtype, d.code, d.messageId, |d.token|))
      && raw[FIXED_HEADER_SIZE..FIXED_HEADER_SIZE + |d.token|] == d.token
      && raw[FIXED_HEADER_SIZE + |d.token|..] == rest
  {
    var head := EncodeHead(d.mtype, d.code, d.messageId, d.token);
    HeadByte(TypeBits(d.mtype), |d.token|);
    assert |head| == FIXED_HEADER_SIZE + |d.token|;
    assert (head + rest)[FIXED_HEADER_SIZE..FIXED_HEADER_SIZE + |d.token|] == head[FIXED_HEADER_SIZE..];
  }

  lemma HeadByte(bits: nat, length: nat)
    requires bits < 4 && length <= 8
    ensures var b := 0x40 + bits * 0x10 + length;
      b < 0x100 && b / 0x40 == 1 && b / 0x10 % 4 == bits && b % 0x10 == length
  {
  }

  lemma HeadCanonical(raw: Span)
    requires HeaderOf(raw).Ok?
    requires HeaderOf(raw).value.tokenLength <= 8
    requires |raw| >= FIXED_HEADER_SIZE + HeaderOf(raw).value.tokenLength
    ensures var h := HeaderOf(raw).value;
      var end := FIXED_HEADER_SIZE + h.tokenLength;
      raw[..end] == EncodeHead(h.mtype, h.code, h.messageId, raw[FIXED_HEADER_SIZE..end])
  {
    assert raw[0] == 0x40 + raw[0] / 0x10 % 4 * 0x10 + raw[0] % 0x10;
  }

  /** Every well-formed datagram is accepted and read back in full. */
  lemma {:induction false} ParseEncoded(d: Datagram)
    requires AllLegal(d.options)
    ensures Parse(EncodeDatagram(d)) == Ok(d)
  {
    hide EncodeHead, HeaderOf, EncodeOptions, ScanAll;
    var rest := EncodeOptions(d.options) + EncodePayload(d.payload);
    var head := EncodeHead(d.mtype, d.code, d.messageId, d.token);
    var raw := EncodeDatagram(d);
    assert raw == head + rest;
    HeadRoundTrip(d, rest);
    ScanEncoded(d.options, EncodePayload(d.payload));
    assert d.payload != [] ==> EncodePayload(d.payload)[1..] == d.payload;
  }

  /** Whatever is accepted is the encoding of what is read. */
  lemma ParseCanonical(raw: Span)
    requires Parse(raw).Ok?
    ensures AllLegal(Parse(raw).value.options)
    ensures EncodeDatagram(Parse(raw).value) == raw
  {
    hide EncodeHead, HeaderOf, EncodeOptions, ScanAll;
    var h := HeaderOf(raw).value;
    var end := FIXED_HEADER_SIZE + h.tokenLength;
    HeadCanonical(raw);
    ScanCanonical(raw[end..]);
    var tail := ScanAll(raw[end..]).tail;
    assert tail != [] ==> tail == [tail[0]] + tail[1..];
    assert raw == raw[..end] + raw[end..];
  }

  /** The parser accepts exactly the datagrams of the grammar, and each has one reading. */
  lemma AcceptsExactlyTheGrammar(raw: Span, d: Datagram)
    ensures Parse(raw) == Ok(d) <==> AllLegal(d.options) && raw == EncodeDatagram(d)
  {
    if Parse(raw) == Ok(d) {
      ParseCanonical(raw);
    }
    if AllLegal(d.options) && raw == EncodeDatagram(d) {
      ParseEncoded(d);
    }
  }

  // --------------------------------------------------------------- the code

  /** Reads an extension field at `pos` and moves past it. */
  method ScanExtField(nibble: byte, raw: Span, pos: nat) returns (ok: bool, next: nat, value: uint32)
    requires nibble < 15 && pos <= |raw|
    ensures ok <==> TakeField(nibble, raw[pos..]).Some?
    ensures ok ==> pos <= next <= |raw| && TakeField(nibble, raw[pos..]) == Some((value, raw[next..]))
  {
    if nibble <= 12 {
      return true, pos, nibble;
    }
    if nibble == 13 {
      if pos >= |raw| {
        return false, pos, 0;
      }
      return true, pos + 1, raw[pos] as int + 13;
    }
    if pos + 2 > |raw| {
      return false, pos, 0;
    }
    return true, pos + 2, raw[pos] as int * 0x100 + raw[pos + 1] + 269;
  }

  /** One turn of the scan loop: the option at `pos`, which is not a marker. */
  method ScanOption(raw: Span, pos: nat) returns (ok: bool, next: nat)
    requires pos < |raw| && raw[pos] != PAYLOAD_MARKER
    ensures ok <==> TakeOption(raw[pos..]).Some?
    ensures ok ==> pos < next <= |raw| && TakeOption(raw[pos..]).value.1 == raw[next..]
  {
    hide TakeField;
    var deltaNibble, lengthNibble := raw[pos] / 0x10, raw[pos] % 0x10;
    next := pos + 1;
    if deltaNibble == 15 || lengthNibble == 15 {
      return false, next;
    }
    assert raw[pos..][1..] == raw[next..];
    var deltaVal, valueLength;
    ok, next, deltaVal := ScanExtField(deltaNibble, raw, next);
    if !ok {
      return;
    }
    ok, next, valueLength := ScanExtField(lengthNibble, raw, next);
    if !ok {
      return;
    }
    if next + valueLength > |raw| {
      return false, next;
    }
    assert raw[next..][valueLength..] == raw[next + valueLength..];
    next := next + valueLength;
  }

  /** The scan that follows the option list `before`. */
  function Prepend(before: seq<WireOption>, scan: Scan): Scan {
    match scan
    case Malformed => Malformed
    case Scanned(ws, tail) => Scanned(before + ws, tail)
  }

  /** The options span and the start of the payload, or why there is none. */
  method ScanOptions(raw: Span, pos0: nat)
    returns (error: Option<DeserializeError>, optionsEnd: nat, payloadStart: nat, ghost starts: seq<nat>)
    requires pos0 <= |raw|
    ensures match ScanAll(raw[pos0..])
      case Malformed => error == Some(InvalidOption)
      case Scanned(ws, tail) =>
        && error == (if |tail| == 1 then Some(InvalidPayload) else None)
        && (error.None? ==>
          && optionsEnd == |raw| - |tail|
          && payloadStart == if tail == [] then |raw| else optionsEnd + 1)
    ensures error.None? ==> starts == Boundaries(ScanAll(raw[pos0..]).options, pos0)
  {
    hide TakeOption, EncodeOption;
    var pos := pos0;
    ghost var before: seq<WireOption> := [];
    starts := [];
    assert Prepend([], ScanAll(raw[pos0..])) == ScanAll(raw[pos0..]) by {
      if ScanAll(raw[pos0..]).Scanned? {
        assert [] + ScanAll(raw[pos0..]).options == ScanAll(raw[pos0..]).options;
      }
    }
    while pos < |raw|
      invariant pos0 <= pos <= |raw|
      invariant ScanAll(raw[pos0..]) == Prepend(before, ScanAll(raw[pos..]))
      invariant starts == Boundaries(before, pos0) && pos == pos0 + |EncodeOptions(before)|
    {
      if raw[pos] == PAYLOAD_MARKER {
        assert before + [] == before;
        if pos + 1 >= |raw| {
          return Some(InvalidPayload), 0, 0, starts;
        }
        return None, pos, pos + 1, starts;
      }
      ghost var rest := raw[pos..];
      var ok, next := ScanOption(raw, pos);
      if !ok {
        return Some(InvalidOption), 0, 0, starts;
      }
      ghost var w := TakeOption(rest).value.0;
      TakeCanonical(rest);
      BoundariesAppend(before, w, pos0);
      assert |rest| == |EncodeOption(w)| + |raw[next..]|;
      PrependStep(before, w, ScanAll(raw[next..]));
      before, starts := before + [w], starts + [pos];
      pos := next;
    }
    assert before + [] == before;
    return None, |raw|, |raw|, starts;
  }

  lemma PrependStep(before: seq<WireOption>, w: WireOption, scan: Scan)
    ensures Prepend(before, Prepend([w], scan)) == Prepend(before + [w], scan)
  {
    if scan.Scanned? {
      assert before + ([w] + scan.options) == before + [w] + scan.options;
    }
  }

  method DeserializeFixedHeader(raw: Span) returns (r: Result<FixedHeader>)
    ensures r == HeaderOf(raw)
  {
    if |raw| < FIXED_HEADER_SIZE {
      return Error(MessageTooShort);
    }
    var first := raw[0];
    if first / 0x40 % 4 != 1 {
      return Error(InvalidVersion);
    }
    return Ok(FixedHeader(TypeOfBits(first / 0x10 % 4), raw[1], raw[2] as int * 0x100 + raw[3], first % 0x10));
  }

  method Deserialize(raw: Span) returns (r: Result<Message>)
    ensures match Parse(raw)
      case Error(e) => r == Error(e)
      case Ok(d) => r == Ok(MessageOf(d))
  {
    hide HeaderOf, EncodeOptions, ScanAll, Boundaries;
    var header := DeserializeFixedHeader(raw);
    if header.Error? {
      return Error(header.error);
    }
    var hdr := header.value;
    if hdr.tokenLength > 8 {
      return Error(InvalidTokenLength);
    }
    var headerEnd := FIXED_HEADER_SIZE + hdr.tokenLength;
    if |raw| < headerEnd {
      return Error(MessageTooShort);
    }
    var token: Token := [];
    for i := 0 to hdr.tokenLength
      invariant token == raw[FIXED_HEADER_SIZE..FIXED_HEADER_SIZE + i]
    {
      token := token + [raw[FIXED_HEADER_SIZE + i]];
    }
    var error, optionsEnd, payloadStart, _ := ScanOptions(raw, headerEnd);
    if error.Some? {
      return Error(error.value);
    }
    ScanCanonical(raw[headerEnd..]);
    ghost var scan := ScanAll(raw[headerEnd..]);
    var options := raw[headerEnd..optionsEnd];
    assert options == EncodeOptions(scan.options);
    assert raw[optionsEnd..] == raw[headerEnd..][optionsEnd - headerEnd..] == scan.tail;
    var payload := if payloadStart < |raw| then raw[payloadStart..] else [];
    return Ok(Message(hdr.mtype, hdr.code, hdr.messageId, token, options, payload));
  }
}

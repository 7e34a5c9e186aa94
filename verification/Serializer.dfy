/** `Serialize`: the bounded in-place encoder. */
module Serializer {
  import opened Bytes
  import opened CoapOption
  import opened Pdu
  import opened WireFormat

  datatype SerializeError = Ok | BufferTooSmall

  function ValueBytes(v: OptionValue): Span {
    match v
    case Empty => []
    case Uint(n) => UintBytes(n)
    case Str(text) => text
    case Opaque(bytes) => bytes
  }

  /** The wire form of `opt` after an option numbered `prev`; the subtraction wraps at 16 bits. */
  function LowerOption(prev: uint16, opt: OptionView): WireOption {
    WireOption(ToU16(opt.number - prev), ValueBytes(opt.value))
  }

  function Lower(prev: uint16, opts: seq<OptionView>): seq<WireOption>
    decreases opts
  {
    if opts == [] then [] else [LowerOption(prev, opts[0])] + Lower(opts[0].number, opts[1..])
  }

  function LastNumber(prev: uint16, opts: seq<OptionView>): uint16 {
    if opts == [] then prev else opts[|opts| - 1].number
  }

  function CallbackBytes(callback: PayloadCallback): Span {
    if callback.Writes? then callback.bytes else []
  }

  /** The datagram that an outgoing message stands for. */
  function Denote(msg: OutgoingMessage): Datagram {
    Datagram(msg.mtype, msg.code, msg.messageId, msg.token, Lower(0, msg.options), CallbackBytes(msg.callback))
  }

  function EncodeFront(msg: OutgoingMessage): Span {
    EncodeHead(msg.mtype, msg.code, msg.messageId, msg.token) + EncodeOptions(Lower(0, msg.options))
  }

  /** The room a message needs: the marker is written even before an empty payload. */
  function Required(msg: OutgoingMessage): nat {
    |EncodeFront(msg)| + if msg.callback.Writes? then 1 + |msg.callback.bytes| else 0
  }

  lemma {:induction false} LowerAppend(prev: uint16, opts: seq<OptionView>, opt: OptionView)
    ensures Lower(prev, opts + [opt]) == Lower(prev, opts) + [LowerOption(LastNumber(prev, opts), opt)]
    decreases opts
  {
    if opts == [] {
      assert opts + [opt] == [opt];
    } else {
      LowerAppend(opts[0].number, opts[1..], opt);
      assert (opts + [opt])[1..] == opts[1..] + [opt];
    }
  }

  /** A prefix of the options needs no more room than all of them. */
  lemma FrontGrows(prev: uint16, opts: seq<OptionView>, i: nat)
    requires i < |opts|
    ensures var before := Lower(prev, opts[..i]);
      var w := LowerOption(LastNumber(prev, opts[..i]), opts[i]);
      && Lower(prev, opts[..i + 1]) == before + [w]
      && EncodeOptions(Lower(prev, opts[..i + 1])) == EncodeOptions(before) + EncodeOption(w)
      && |EncodeOptions(before)| + |EncodeOption(w)| <= |EncodeOptions(Lower(prev, opts))|
    decreases |opts| - i
  {
    hide EncodeOption, LowerOption;
    var before := Lower(prev, opts[..i]);
    var w := LowerOption(LastNumber(prev, opts[..i]), opts[i]);
    assert opts[..i + 1] == opts[..i] + [opts[i]];
    LowerAppend(prev, opts[..i], opts[i]);
    EncodeOptionsAppend(before, [w]);
    assert EncodeOptions([w]) == EncodeOption(w) + EncodeOptions([]);
    if i + 1 == |opts| {
      assert opts[..i + 1] == opts;
    } else {
      FrontGrows(prev, opts, i + 1);
    }
  }

  method WriteByte(out: array<byte>, pos: nat, b: byte) returns (ok: bool, next: nat)
    requires pos <= out.Length
    modifies out
    ensures ok <==> pos < out.Length
    ensures ok ==> next == pos + 1 && out[..next] == old(out[..pos]) + [b]
  {
    if pos >= out.Length {
      return false, pos;
    }
    out[pos] := b;
    return true, pos + 1;
  }

  method EncodeExtField(value: uint32, out: array<byte>, pos: nat) returns (ok: bool, next: nat, nibble: byte)
    requires pos <= out.Length
    modifies out
    ensures ok <==> pos + |Extension(value)| <= out.Length
    ensures ok ==> next == pos + |Extension(value)| && out[..next] == old(out[..pos]) + Extension(value)
    ensures ok ==> nibble == Nibble(value)
  {
    next := pos;
    if value <= 12 {
      return true, next, value;
    }
    if value <= 268 {
      nibble := 13;
      ok, next := WriteByte(out, next, value - 13);
      return;
    }
    nibble := 14;
    var v := ToU16(value - 269);
    ok, next := WriteByte(out, next, v / 0x100);
    if ok {
      ok, next := WriteByte(out, next, v % 0x100);
    }
  }

  method WriteSpan(bytes: Span, out: array<byte>, pos: nat) returns (ok: bool, next: nat)
    requires pos <= out.Length
    modifies out
    ensures ok <==> pos + |bytes| <= out.Length
    ensures ok ==> next == pos + |bytes| && out[..next] == old(out[..pos]) + bytes
  {
    next := pos;
    for i := 0 to |bytes|
      invariant next == pos + i <= out.Length
      invariant out[..next] == old(out[..pos]) + bytes[..i]
    {
      ok, next := WriteByte(out, next, bytes[i]);
      if !ok {
        return;
      }
      assert bytes[..i + 1] == bytes[..i] + [bytes[i]];
    }
    ok := true;
    assert bytes[..|bytes|] == bytes;
  }

  /** Writes the bytes `v >> shift` for `shift` = 8(len-1), ..., 8, 0. */
  method WriteUint(v: uint32, out: array<byte>, pos: nat) returns (ok: bool, next: nat)
    requires pos <= out.Length
    modifies out
    ensures ok <==> pos + |UintBytes(v)| <= out.Length
    ensures ok ==> next == pos + |UintBytes(v)| && out[..next] == old(out[..pos]) + UintBytes(v)
  {
    next := pos;
    if v == 0 {
      return true, next;
    }
    var len := UintEncodedLength(v);
    ShiftedLength(v, len);
    var k := len as int;
    while k > 0
      invariant 0 <= k <= len
      invariant |UintBytes(ShiftBytes(v, k))| == len - k
      invariant next == pos + len - k <= out.Length
      invariant out[..next] == old(out[..pos]) + UintBytes(ShiftBytes(v, k))
    {
      ShiftedLength(v, k - 1);
      var b := ShiftBytes(v, k - 1) % 0x100;
      ok, next := WriteByte(out, next, b);
      if !ok {
        return;
      }
      k := k - 1;
    }
    ok := true;
  }

  lemma {:induction false} ShiftedLength(v: uint32, k: nat)
    requires k <= |UintBytes(v)|
    ensures |UintBytes(ShiftBytes(v, k))| == |UintBytes(v)| - k
  {
    if k > 0 {
      ShiftedLength(v, k - 1);
    }
  }

  method WriteValue(v: OptionValue, out: array<byte>, pos: nat) returns (ok: bool, next: nat)
    requires pos <= out.Length
    modifies out
    ensures ok <==> pos + |ValueBytes(v)| <= out.Length
    ensures ok ==> next == pos + |ValueBytes(v)| && out[..next] == old(out[..pos]) + ValueBytes(v)
  {
    hide UintBytes;
    match v {
      case Empty => ok, next := true, pos;
      case Uint(n) => ok, next := WriteUint(n, out, pos);
      case Str(sv) => ok, next := WriteSpan(sv, out, pos);
      case Opaque(s) => ok, next := WriteSpan(s, out, pos);
    }
  }

  function OptionHead(delta: nat, length: nat): Span {
    [Nibble(delta) as int * 0x10 + Nibble(length)] + Extension(delta) + Extension(length)
  }

  /** Reserves the header byte, writes both extension fields, then fills the header byte. */
  method WriteOptionHead(delta: uint32, length: uint32, out: array<byte>, pos: nat) returns (ok: bool, next: nat)
    requires pos <= out.Length
    modifies out
    ensures var head := OptionHead(delta, length);
      && (ok <==> pos + |head| <= out.Length)
      && (ok ==> next == pos + |head| && out[..next] == old(out[..pos]) + head)
  {
    hide Nibble, Extension;
    if pos >= out.Length {
      return false, pos;
    }
    var headerPos := pos;
    var deltaNibble, lengthNibble;
    ok, next, deltaNibble := EncodeExtField(delta, out, pos + 1);
    if !ok {
      return;
    }
    assert out[..next] == out[..pos] + [out[pos]] + Extension(delta);
    ok, next, lengthNibble := EncodeExtField(length, out, next);
    if !ok {
      return;
    }
    assert out[..next] == out[..pos] + [out[pos]] + Extension(delta) + Extension(length);
    out[headerPos] := deltaNibble as int * 0x10 + lengthNibble;
  }

  /** The body of the option loop: header byte, extension fields, value. */
  method SerializeOption(out: array<byte>, pos: nat, prev: uint16, opt: OptionView) returns (ok: bool, next: nat)
    requires pos <= out.Length < 0x1_0000_0000
    modifies out
    ensures var bytes := EncodeOption(LowerOption(prev, opt));
      && (ok <==> pos + |bytes| <= out.Length)
      && (ok ==> next == pos + |bytes| && out[..next] == old(out[..pos]) + bytes)
  {
    hide Nibble, Extension, UintBytes;
    var delta := ToU16(opt.number - prev);
    var valueLen := match opt.value
      case Empty => 0
      case Uint(v) => UintEncodedLength(v) as int
      case Str(sv) => |sv|
      case Opaque(s) => |s|;
    ghost var head := OptionHead(delta, ToU32(valueLen));
    assert valueLen < 0x1_0000_0000 ==> EncodeOption(LowerOption(prev, opt)) == head + ValueBytes(opt.value);
    ok, next := WriteOptionHead(delta, ToU32(valueLen), out, pos);
    if ok {
      ok, next := WriteValue(opt.value, out, next);
    }
  }

  /** The payload callback on the window `out[pos..]`. */
  method RunCallback(callback: PayloadCallback, out: array<byte>, pos: nat) returns (error: SerializeError, written: nat)
    requires !callback.NoCallback? && pos <= out.Length
    modifies out
    ensures error.Ok? <==> callback.Writes? && pos + |callback.bytes| <= out.Length
    ensures error.Ok? ==> written == |callback.bytes| && out[..pos + written] == old(out[..pos]) + callback.bytes
  {
    if callback.Refuses? || |callback.bytes| > out.Length - pos {
      return BufferTooSmall, 0;
    }
    var ok, next := WriteSpan(callback.bytes, out, pos);
    return Ok, |callback.bytes|;
  }

  method WriteHead(msg: OutgoingMessage, out: array<byte>) returns (ok: bool, pos: nat)
    modifies out
    ensures var head := EncodeHead(msg.mtype, msg.code, msg.messageId, msg.token);
      && (ok <==> |head| <= out.Length)
      && (ok ==> pos == |head| && out[..pos] == head)
  {
    ok, pos := WriteByte(out, 0, 0x40 + TypeBits(msg.mtype) * 0x10 + |msg.token|);
    if ok { ok, pos := WriteByte(out, pos, msg.code); }
    if ok { ok, pos := WriteByte(out, pos, msg.messageId / 0x100); }
    if ok { ok, pos := WriteByte(out, pos, msg.messageId % 0x100); }
    if ok { ok, pos := WriteSpan(msg.token, out, pos); }
  }

  method WriteOptions(options: seq<OptionView>, out: array<byte>, pos: nat) returns (ok: bool, next: nat)
    requires pos <= out.Length < 0x1_0000_0000
    modifies out
    ensures var bytes := EncodeOptions(Lower(0, options));
      && (ok <==> pos + |bytes| <= out.Length)
      && (ok ==> next == pos + |bytes| && out[..next] == old(out[..pos]) + bytes)
  {
    hide EncodeOption, LowerOption;
    var prev: uint16 := 0;
    next := pos;
    for i := 0 to |options|
      invariant prev == LastNumber(0, options[..i])
      invariant next == pos + |EncodeOptions(Lower(0, options[..i]))| <= out.Length
      invariant out[..next] == old(out[..pos]) + EncodeOptions(Lower(0, options[..i]))
    {
      FrontGrows(0, options, i);
      ok, next := SerializeOption(out, next, prev, options[i]);
      if !ok {
        return;
      }
      prev := options[i].number;
    }
    ok := true;
    assert options[..|options|] == options;
  }

  /** The marker and the payload; the marker is taken back when the payload turns out empty. */
  method WritePayload(callback: PayloadCallback, out: array<byte>, pos: nat) returns (error: SerializeError, next: nat)
    requires pos <= out.Length
    modifies out
    ensures var room := if callback.Writes? then 1 + |callback.bytes| else 0;
      error.Ok? <==> !callback.Refuses? && pos + room <= out.Length
    ensures error.Ok? ==> next <= out.Length && out[..next] == old(out[..pos]) + EncodePayload(CallbackBytes(callback))
  {
    next := pos;
    ghost var before := out[..pos];
    if callback.NoCallback? {
      assert before + EncodePayload([]) == before;
    } else {
      hide EncodePayload;
      var ok;
      ok, next := WriteByte(out, next, PAYLOAD_MARKER);
      if !ok {
        return BufferTooSmall, 0;
      }
      ghost var marked := out[..next];
      var payloadWritten;
      error, payloadWritten := RunCallback(callback, out, next);
      if !error.Ok? {
        return;
      }
      MarkerAndPayload(before, callback.bytes);
      assert out[..next + payloadWritten] == marked + callback.bytes;
      if payloadWritten == 0 {
        assert out[..next][..pos] == before;
        next := next - 1;
      } else {
        next := next + payloadWritten;
      }
    }
    error := Ok;
  }

  lemma MarkerAndPayload(before: Span, payload: Span)
    ensures before + EncodePayload(payload) == if payload == [] then before else before + [PAYLOAD_MARKER] + payload
  {
    assert payload != [] ==> before + ([PAYLOAD_MARKER] + payload) == before + [PAYLOAD_MARKER] + payload;
  }

  method Serialize(msg: OutgoingMessage, out: array<byte>) returns (error: SerializeError, written: nat)
    requires out.Length < 0x1_0000_0000
    modifies out
    ensures error.Ok? <==> !msg.callback.Refuses? && Required(msg) <= out.Length
    ensures error.Ok? ==> written <= out.Length && out[..written] == EncodeDatagram(Denote(msg))
  {
    var ok, pos := WriteHead(msg, out);
    if !ok {
      return BufferTooSmall, 0;
    }
    ok, pos := WriteOptions(msg.options, out, pos);
    if !ok {
      return BufferTooSmall, 0;
    }
    error, written := WritePayload(msg.callback, out, pos);
  }
}

/** Option numbers, formats and values (sections 3.1 and 3.2 of RFC 7252). */
module CoapOption {
  import opened Bytes

  datatype OptionFormat = EmptyFormat | UintFormat | StringFormat | OpaqueFormat

  /** The variant `OptionValue`: monostate, uint32_t, string_view or span of bytes. */
  datatype OptionValue =
    | Empty
    | Uint(number: uint32)
    | Str(text: Span)
    | Opaque(bytes: Span)

  datatype OptionView = OptionView(number: uint16, value: OptionValue)

  const OBSERVE: uint16 := 6
  const URI_PATH: uint16 := 11
  const BLOCK2: uint16 := 23
  const BLOCK1: uint16 := 27
  const SIZE2: uint16 := 28
  const SIZE1: uint16 := 60

  const OPAQUE_NUMBERS: set<uint16> := {1, 4, 9, 21, 235, 252, 292}
  const EMPTY_NUMBERS: set<uint16> := {5}
  const STRING_NUMBERS: set<uint16> := {3, 8, 11, 15, 20, 35, 39}
  const UINT_NUMBERS: set<uint16> := {6, 7, 12, 14, 16, 17, 19, 23, 27, 28, 31, 60, 239, 258}

  /** The format table; numbers missing from it are opaque. */
  function FormatFor(number: uint16): OptionFormat {
    if number in EMPTY_NUMBERS then EmptyFormat
    else if number in UINT_NUMBERS then UintFormat
    else if number in STRING_NUMBERS then StringFormat
    else OpaqueFormat
  }

  /** The value alternative a decoder produces for this number. */
  predicate HasTableFormat(opt: OptionView) {
    match FormatFor(opt.number)
    case EmptyFormat => opt.value.Empty?
    case UintFormat => opt.value.Uint?
    case StringFormat => opt.value.Str?
    case OpaqueFormat => opt.value.Opaque?
  }

  /** The first option with a number, if any. */
  function FirstWith(number: uint16, opts: seq<OptionView>): Option<OptionView> {
    if opts == [] then None
    else if opts[0].number == number then Some(opts[0])
    else FirstWith(number, opts[1..])
  }

  function FirstOf(a: Option<OptionView>, b: Option<OptionView>): Option<OptionView> {
    if a.Some? then a else b
  }

  lemma {:induction false} FirstWithAppend(number: uint16, xs: seq<OptionView>, ys: seq<OptionView>)
    ensures FirstWith(number, xs + ys) == FirstOf(FirstWith(number, xs), FirstWith(number, ys))
  {
    if xs == [] {
      assert xs + ys == ys;
    } else {
      FirstWithAppend(number, xs[1..], ys);
      assert (xs + ys)[1..] == xs[1..] + ys;
    }
  }

  lemma FirstWithOne(opt: OptionView)
    ensures forall number: uint16 :: FirstWith(number, [opt]) == if opt.number == number then Some(opt) else None
  {
    var one := [opt];
    assert one[1..] == [];
  }

  /** Minimal big-endian form of a uint; zero has no bytes. */
  function UintBytes(v: uint32): Span {
    if v == 0 then [] else UintBytes(v / 0x100) + [v % 0x100]
  }

  /** The 32-bit shift register of `DecodeUint` after reading `bytes`. */
  function UintOf(bytes: Span): uint32 {
    if bytes == [] then 0
    else ToU32(UintOf(bytes[..|bytes| - 1]) * 0x100 + bytes[|bytes| - 1])
  }

  /** `DecodeUint`, section 3.2 of RFC 7252. */
  method DecodeUint(bytes: Span) returns (result: uint32)
    ensures result == UintOf(bytes)
  {
    result := 0;
    for i := 0 to |bytes|
      invariant result == UintOf(bytes[..i])
    {
      assert bytes[..i + 1][..i] == bytes[..i];
      result := ToU32(result * 0x100 + bytes[i]);
    }
    assert bytes[..|bytes|] == bytes;
  }

  /** `UintEncodedLength`: the thresholds give the length of the minimal form. */
  function UintEncodedLength(v: uint32): (n: uint8)
    ensures n as int == |UintBytes(v)|
  {
    UintLength(v);
    if v == 0 then 0
    else if v <= 0xFF then 1
    else if v <= 0xFFFF then 2
    else if v <= 0xFF_FFFF then 3
    else 4
  }

  /** `v >> 8 * k`. */
  function ShiftBytes(v: uint32, k: nat): uint32 {
    if k == 0 then v else ShiftBytes(v, k - 1) / 0x100
  }

  lemma UintLength(v: uint32)
    ensures |UintBytes(v)| <= 4
    ensures |UintBytes(v)| <= 3 <==> v <= 0xFF_FFFF
    ensures |UintBytes(v)| <= 2 <==> v <= 0xFFFF
    ensures |UintBytes(v)| <= 1 <==> v <= 0xFF
  {
    assert v / 0x100 / 0x100 / 0x100 / 0x100 == 0;
    if v != 0 {
      UintLength(v / 0x100);
    }
  }

  /** At most four bytes and no leading zero. */
  predicate IsMinimalUint(bytes: Span) {
    |bytes| <= 4 && (bytes != [] ==> bytes[0] != 0)
  }

  lemma UintOfStep(bytes: Span, last: byte)
    ensures UintOf(bytes + [last]) == ToU32(UintOf(bytes) * 0x100 + last)
  {
    hide ToU32;
    assert (bytes + [last])[..|bytes|] == bytes;
  }

  /** Another byte behind a number of at most three bytes. */
  lemma UintBytesStep(v: uint32, last: byte)
    requires v <= 0xFF_FFFF
    ensures ToU32(v * 0x100 + last) == v * 0x100 + last
    ensures UintBytes(v * 0x100 + last) == if v == 0 && last == 0 then [] else UintBytes(v) + [last]
  {
    hide ToU32;
    SmallStays(v * 0x100 + last);
    TakeByteOff(v, last);
  }

  lemma LastByteOff(v: uint32)
    ensures v == v / 0x100 * 0x100 + v % 0x100 && v / 0x100 <= 0xFF_FFFF
    ensures v != 0 ==> UintBytes(v) == UintBytes(v / 0x100) + [v % 0x100] && v / 0x100 < v
    ensures v == 0 ==> UintBytes(v) == []
  {
  }

  lemma UintOfNothing()
    ensures UintOf([]) == 0 && UintBytes(0) == []
  {
  }

  /** A uint survives encoding and decoding, and its encoding is minimal. */
  lemma {:induction false} UintRoundTrip(v: uint32)
    ensures UintOf(UintBytes(v)) == v
    ensures IsMinimalUint(UintBytes(v))
  {
    hide UintBytes, UintOf, ToU32;
    UintLength(v);
    LastByteOff(v);
    if v == 0 {
      UintOfNothing();
    } else {
      var high, low := v / 0x100, v % 0x100;
      UintRoundTrip(high);
      LastByteOff(high);
      UintOfStep(UintBytes(high), low);
      UintBytesStep(high, low);
    }
  }

  /**
   * Re-encoding a decoded uint gives the original bytes exactly when they were
   * minimal, and is strictly shorter otherwise.
   */
  lemma {:induction false} UintReencode(bytes: Span)
    ensures IsMinimalUint(bytes) ==> UintBytes(UintOf(bytes)) == bytes
    ensures !IsMinimalUint(bytes) ==> |UintBytes(UintOf(bytes))| < |bytes|
  {
    hide UintBytes, UintOf, ToU32;
    UintLength(UintOf(bytes));
    UintOfNothing();
    if bytes != [] && |bytes| <= 4 {
      var init, last := bytes[..|bytes| - 1], bytes[|bytes| - 1];
      assert bytes == init + [last];
      UintReencode(init);
      UintLength(UintOf(init));
      UintOfStep(init, last);
      UintBytesStep(UintOf(init), last);
    }
  }
}

/** `BlockOption` and `SzxForSize` (section 2.2 of RFC 7959). */
module Block {
  import opened Bytes
  import opened CoapOption
  import opened OptionsIteration

  const SZX_MAX := 6
  const NUM_MAX := 0x000F_FFFF

  /** The three-bit size exponent SZX; 7 is reserved. */
  type Exponent = x: int | 0 <= x < 8

  datatype BlockOption = BlockOption(num: uint32, more: bool, szx: Exponent)

  /** `16 << szx`. */
  function Size(szx: nat): (size: nat)
    ensures size >= 16
  {
    if szx == 0 then 16 else 2 * Size(szx - 1)
  }

  /** Where the block with this number begins. */
  function Start(num: nat, szx: nat): nat {
    num * Size(szx)
  }

  function ByteOffset(b: BlockOption): nat {
    Start(b.num, b.szx)
  }

  predicate IsLegal(b: BlockOption) {
    b.num <= NUM_MAX && b.szx <= SZX_MAX
  }

  /** The option value; `num << 4` is a 32-bit shift. */
  function Encode(b: BlockOption): uint32
  {
    ToU32(b.num * 16) + (if b.more then 8 else 0) + b.szx
  }

  function Decode(raw: uint32): Option<BlockOption> {
    if raw > 0x00FF_FFFF then None
    else if raw % 8 == 7 then None
    else Some(BlockOption(raw / 16, raw / 8 % 2 == 1, raw % 8))
  }

  /** Encoding is inverted by `Decode` exactly for numbers of at most 20 bits; wider ones (below 2^28) are refused. */
  lemma DecodeEncode(b: BlockOption)
    requires b.szx <= SZX_MAX && b.num < 0x1000_0000
    ensures Decode(Encode(b)) == if b.num <= NUM_MAX then Some(b) else None
  {
    var more := if b.more then 1 else 0;
    WholeShift(b.num);
    EncodedBits(b.num, more, b.szx);
    assert Encode(b) == b.num * 16 + more * 8 + b.szx;
  }

  lemma WholeShift(num: nat)
    requires num < 0x1000_0000
    ensures ToU32(num * 16) == num * 16
  {
  }

  /** The fields of an option value are the digits they were put together from. */
  lemma EncodedBits(num: nat, more: nat, szx: nat)
    requires more <= 1 && szx < 8
    ensures var raw := num * 16 + more * 8 + szx;
      raw / 16 == num && raw / 8 % 2 == more && raw % 8 == szx
  {
    var raw := num * 16 + more * 8 + szx;
    assert raw == 16 * num + (more * 8 + szx);
    assert raw == 8 * (2 * num + more) + szx;
    assert raw / 8 == 2 * num + more && raw % 8 == szx;
  }

  /** `Decode` accepts no two forms of one block. */
  lemma EncodeDecode(raw: uint32)
    ensures Decode(raw).Some? ==> IsLegal(Decode(raw).value) && Encode(Decode(raw).value) == raw
    ensures Decode(raw).None? <==> raw >= 0x0100_0000 || raw % 8 == 7
  {
    DecodedBits(raw);
    if raw < 0x0100_0000 {
      WholeShift(raw / 16);
    }
  }

  lemma DecodedBits(raw: nat)
    ensures raw == raw / 16 * 16 + raw / 8 % 2 * 8 + raw % 8
    ensures raw < 0x0100_0000 ==> raw / 16 <= NUM_MAX
  {
    var high := raw / 8;
    assert raw == 8 * high + raw % 8 && high == 2 * (high / 2) + high % 2;
    assert raw == 16 * (high / 2) + (high % 2 * 8 + raw % 8);
    assert raw / 16 == high / 2;
  }

  /** A block size is a multiple of every smaller one. */
  lemma {:induction false} SizeDivides(small: nat, big: nat) returns (k: nat)
    requires small <= big
    ensures Size(big) == k * Size(small) && k > 0
  {
    if small == big {
      k := 1;
    } else {
      k := SizeDivides(small, big - 1);
      assert 2 * (k * Size(small)) == (2 * k) * Size(small);
      k := 2 * k;
    }
  }

  lemma {:induction false} SizeGrows(small: nat, big: nat)
    requires small < big
    ensures Size(small) < Size(big)
  {
    if small < big - 1 {
      SizeGrows(small, big - 1);
    }
  }

  lemma MaxSize(szx: nat)
    requires szx <= SZX_MAX
    ensures Size(szx) <= 1024
  {
    assert Size(1) == 32 && Size(2) == 64 && Size(3) == 128;
    assert Size(4) == 256 && Size(5) == 512 && Size(6) == 1024;
  }

  function Quotient(x: nat, d: nat): nat
    requires d > 0
  {
    x / d
  }

  lemma MulLe(a: nat, b: nat, d: nat)
    ensures a <= b ==> a * d <= b * d
  {
    if a <= b {
      assert b * d == a * d + (b - a) * d;
    }
  }

  lemma DivExact(k: nat, d: nat)
    requires d > 0
    ensures k * d / d == k && k * d % d == 0
  {
    var q := k * d / d;
    assert k * d == d * q + k * d % d;
    MulLe(q + 1, k, d);
    MulLe(k + 1, q, d);
    assert (q + 1) * d == d * q + d && (k + 1) * d == k * d + d;
  }

  lemma DivisorOfDivisor(position: nat, big: nat, small: nat, k: nat)
    requires big > 0 && small > 0 && big == k * small && position % big == 0
    ensures position % small == 0 && position / small * small == position
  {
    var n := position / big;
    assert position == big * n;
    assert k * small * n == n * k * small;
    DivExact(n * k, small);
  }

  /** A position that starts a block of one size starts a block of every smaller size. */
  lemma Renumber(position: nat, from: nat, to: nat)
    requires to <= from && position % Size(from) == 0
    ensures position % Size(to) == 0 && position / Size(to) * Size(to) == position
  {
    var k := SizeDivides(to, from);
    DivisorOfDivisor(position, Size(from), Size(to), k);
  }

  lemma BlockStart(num: nat, szx: nat)
    ensures Start(num, szx) % Size(szx) == 0 && Quotient(Start(num, szx), Size(szx)) == num
  {
    DivExact(num, Size(szx));
  }

  /** The largest exponent of at most `limit` whose block size fits into `maxBytes`. */
  function LargestSzx(maxBytes: nat, limit: nat): (szx: nat)
    ensures szx <= limit
  {
    if limit == 0 || Size(limit) <= maxBytes then limit else LargestSzx(maxBytes, limit - 1)
  }

  function SzxFor(maxBytes: nat): (szx: Exponent)
    ensures szx <= SZX_MAX
  {
    LargestSzx(maxBytes, SZX_MAX)
  }

  lemma {:induction false} LargestSzxIs(maxBytes: nat, limit: nat, szx: nat)
    requires szx <= limit && (szx == 0 || Size(szx) <= maxBytes) && (szx == limit || Size(szx + 1) > maxBytes)
    ensures LargestSzx(maxBytes, limit) == szx
  {
    if szx < limit {
      if szx + 1 < limit {
        SizeGrows(szx + 1, limit);
      }
      LargestSzxIs(maxBytes, limit - 1, szx);
    }
  }

  method SzxForSize(maxBytes: nat) returns (szx: Exponent)
    ensures szx == SzxFor(maxBytes)
  {
    szx := 0;
    while szx < SZX_MAX && Size(szx + 1) <= maxBytes
      invariant szx <= SZX_MAX && (szx == 0 || Size(szx) <= maxBytes)
      decreases SZX_MAX - szx
    {
      szx := szx + 1;
    }
    LargestSzxIs(maxBytes, SZX_MAX, szx);
  }

  /** The bytes of a block with this exponent. */
  function BlockBytes(szx: nat): nat {
    match szx
    case 0 => 16
    case 1 => 32
    case 2 => 64
    case 3 => 128
    case 4 => 256
    case 5 => 512
    case _ => 1024
  }

  lemma SizeInNumbers(szx: nat)
    requires szx <= 6
    ensures Size(szx) == BlockBytes(szx)
  {
    assert Size(1) == 32 && Size(2) == 64 && Size(3) == 128;
    assert Size(4) == 256 && Size(5) == 512 && Size(6) == 1024;
  }

  /** `SzxForSize` in numbers: the largest block that fits, 16 bytes if none does. */
  lemma {:induction false} SzxForMeans(maxBytes: nat)
    ensures SzxFor(maxBytes) <= 6
    ensures SzxFor(maxBytes) == 0 || BlockBytes(SzxFor(maxBytes)) <= maxBytes
    ensures SzxFor(maxBytes) == 6 || BlockBytes(SzxFor(maxBytes) + 1) > maxBytes
  {
    LargestFits(maxBytes, 6);
    SizeInNumbers(SzxFor(maxBytes));
    if SzxFor(maxBytes) < 6 {
      SizeInNumbers(SzxFor(maxBytes) + 1);
    }
  }

  lemma {:induction false} LargestFits(maxBytes: nat, limit: nat)
    ensures var szx := LargestSzx(maxBytes, limit);
      (szx == 0 || Size(szx) <= maxBytes) && (szx == limit || Size(szx + 1) > maxBytes)
  {
    if limit > 0 && Size(limit) > maxBytes {
      LargestFits(maxBytes, limit - 1);
    }
  }

  /** An option value in numbers: 16 times the block number, 8 for M, and the exponent. */
  lemma OptionValueInNumbers(b: BlockOption)
    requires b.num < 0x1000_0000
    ensures Encode(b) == 16 * b.num + (if b.more then 8 else 0) + b.szx
    ensures b.szx <= 6 ==> ByteOffset(b) == b.num * BlockBytes(b.szx)
  {
    WholeShift(b.num);
    if b.szx <= 6 {
      SizeInNumbers(b.szx);
    }
    hide Size, BlockBytes;
  }

  /** `FindUintOption`: the first option with the number, if it holds a uint. */
  function FindUint(opts: seq<OptionView>, number: uint16): Option<uint32> {
    match FirstWith(number, opts)
    case Some(OptionView(_, Uint(n))) => Some(n)
    case _ => None
  }
}

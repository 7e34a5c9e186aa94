/** `PlanBlock2` and `ServeDownload`: serving a body in windows (sections 2.2 to 2.7 of RFC 7959). */
module Download {
  import opened Bytes
  import opened CoapOption
  import opened Pdu
  import opened Block
  import opened Builder

  const CONTENT: Code := 69
  const BAD_REQUEST: Code := 128
  const ETAG: uint16 := 4

  datatype DownloadConfig = DownloadConfig(maxBlockSize: nat, etag: Span)

  datatype Block2Plan = Block2Plan(
    badRequest: bool, blockwise: bool, block: BlockOption, offset: nat, length: nat)

  const NO_BLOCK := BlockOption(0, false, 0)
  const REFUSAL := Block2Plan(true, false, NO_BLOCK, 0, 0)

  function Min(a: nat, b: nat): nat {
    if a < b then a else b
  }

  function BlockNumber(offset: nat, szx: nat): nat {
    Quotient(offset, Size(szx))
  }

  /** The window at `offset` in blocks of exponent `szx`, once the request is understood. */
  function WindowAt(offset: nat, szx: Exponent, total: nat): Block2Plan {
    if offset != 0 && offset >= total then REFUSAL
    else
      var length := Min(total - offset, Size(szx));
      Block2Plan(false, true, BlockOption(ToU32(BlockNumber(offset, szx)), offset + length < total, szx), offset, length)
  }

  function PlanBlock2(options: seq<OptionView>, total: nat, config: DownloadConfig): Block2Plan {
    var szx := SzxFor(config.maxBlockSize);
    match FindUint(options, BLOCK2)
    case Some(raw) =>
      (match Decode(raw)
       case None => REFUSAL
       case Some(requested) => WindowAt(ByteOffset(requested), Min(requested.szx, szx), total))
    case None =>
      if total <= Size(szx) then Block2Plan(false, false, NO_BLOCK, 0, total)
      else WindowAt(0, szx, total)
  }

  datatype Response = Response(code: Code, callback: PayloadCallback, options: seq<OptionView>)

  function Block2Options(plan: Block2Plan, config: DownloadConfig, total: nat): seq<OptionView>
  {
    (if config.etag == [] then [] else [OptionView(ETAG, Opaque(config.etag))])
    + (if !plan.blockwise then []
       else [OptionView(BLOCK2, Uint(Encode(plan.block)))]
            + if plan.block.num == 0 then [OptionView(SIZE2, Uint(ToU32(total)))] else [])
  }

  lemma PlanIsInside(options: seq<OptionView>, total: nat, config: DownloadConfig)
    ensures var plan := PlanBlock2(options, total, config);
      plan.offset + plan.length <= total && plan.block.szx <= SZX_MAX
  {
  }

  /** The overload for a span; an empty payload becomes no payload. */
  function ServeSpan(options: seq<OptionView>, body: Span, config: DownloadConfig): Response {
    var plan := PlanBlock2(options, |body|, config);
    PlanIsInside(options, |body|, config);
    if plan.badRequest then Response(BAD_REQUEST, NoCallback, [])
    else
      var payload := body[plan.offset..plan.offset + plan.length];
      Response(CONTENT, if payload == [] then NoCallback else Writes(payload), Block2Options(plan, config, |body|))
  }

  /** The streaming overload: `source` fills a window of the given offset and length. */
  function ServeStream(options: seq<OptionView>, total: nat, source: (nat, nat) -> Span, config: DownloadConfig): Response {
    var plan := PlanBlock2(options, total, config);
    PlanIsInside(options, total, config);
    if plan.badRequest then Response(BAD_REQUEST, NoCallback, [])
    else
      Response(CONTENT, if plan.length > 0 then Writes(source(plan.offset, plan.length)) else NoCallback,
        Block2Options(plan, config, total))
  }

  /** Both overloads answer alike when the source reads the same body. */
  lemma OverloadsAgree(options: seq<OptionView>, body: Span, source: (nat, nat) -> Span, config: DownloadConfig)
    requires forall offset: nat, length: nat ::
      offset + length <= |body| ==> source(offset, length) == body[offset..offset + length]
    ensures ServeStream(options, |body|, source, config) == ServeSpan(options, body, config)
  {
    PlanIsInside(options, |body|, config);
  }

  /** The request's first Block2 option, whatever other options it has, asks for this block. */
  predicate Asks(options: seq<OptionView>, asked: BlockOption)
  {
    FindUint(options, BLOCK2) == Some(Encode(asked))
  }

  /** The smaller of the exponent asked for and the configured one; M in a request is ignored. */
  lemma {:induction false} AskedPlan(options: seq<OptionView>, asked: BlockOption, total: nat, config: DownloadConfig)
    requires IsLegal(asked) && Asks(options, asked)
    ensures PlanBlock2(options, total, config)
      == WindowAt(ByteOffset(asked), Min(asked.szx, SzxFor(config.maxBlockSize)), total)
  {
    DecodeEncode(asked);
    hide Encode, Decode, FindUint, WindowAt, SzxFor, ByteOffset;
  }

  /**
   * A block that a client names by (NUM, SZX) is served from the byte it named, whatever
   * exponent the server settles on; it is refused exactly when it starts behind the body.
   */
  lemma {:induction false} ServedFromNamedByte(
    options: seq<OptionView>, asked: BlockOption, total: nat, config: DownloadConfig)
    requires IsLegal(asked) && Asks(options, asked)
    ensures var plan := PlanBlock2(options, total, config);
      var settled := Min(asked.szx, SzxFor(config.maxBlockSize));
      && (plan.badRequest <==> asked.num > 0 && ByteOffset(asked) >= total)
      && (!plan.badRequest ==>
        && plan.blockwise && plan.offset == ByteOffset(asked) == ByteOffset(plan.block)
        && plan.block.szx == settled
        && plan.length == Min(total - plan.offset, Size(settled))
        && (plan.block.more <==> plan.offset + plan.length < total))
  {
    hide PlanBlock2, Encode, Asks, SzxFor, Size, ByteOffset, BlockNumber;
    AskedPlan(options, asked, total, config);
    Renumbered(asked, Min(asked.szx, SzxFor(config.maxBlockSize)));
  }

  /** The byte offset of a block in blocks of a smaller size. */
  lemma Renumbered(asked: BlockOption, settled: Exponent)
    requires IsLegal(asked) && settled <= asked.szx
    ensures BlockNumber(ByteOffset(asked), settled) < 0x1000_0000
    ensures forall more :: ByteOffset(BlockOption(BlockNumber(ByteOffset(asked), settled), more, settled)) == ByteOffset(asked)
    ensures asked.num > 0 <==> ByteOffset(asked) != 0
  {
    hide Size;
    MaxSize(asked.szx);
    OffsetRange(asked.num, Size(asked.szx), Size(settled));
    BlockStart(asked.num, asked.szx);
    Renumber(ByteOffset(asked), asked.szx, settled);
  }

  lemma OffsetRange(num: nat, size: nat, settled: nat)
    requires num <= NUM_MAX && 16 <= size <= 1024 && settled >= 16
    ensures num * size / settled <= NUM_MAX * 64
    ensures num > 0 <==> num * size != 0
  {
    var q := num * size / settled;
    MulLe(num, NUM_MAX, size);
    MulLe(size, 1024, NUM_MAX);
    MulLe(16, settled, q);
    assert settled * q <= num * size;
    MulLe(1, num, size);
  }

  /**
   * The response's Block2 option can be read back exactly when the byte the client named lies
   * below the reach of 20-bit numbers at the exponent the server settles on.
   */
  lemma {:induction false} ReadableExactlyWhenNarrow(
    options: seq<OptionView>, asked: BlockOption, total: nat, config: DownloadConfig)
    requires IsLegal(asked) && Asks(options, asked)
    ensures var plan := PlanBlock2(options, total, config);
      var settled := Min(asked.szx, SzxFor(config.maxBlockSize));
      !plan.badRequest ==>
        && (Decode(Encode(plan.block)).Some? <==> ByteOffset(asked) < (NUM_MAX + 1) * Size(settled))
        && (Decode(Encode(plan.block)).Some? ==> Decode(Encode(plan.block)).value == plan.block)
  {
    hide PlanBlock2, Encode, Decode, Asks, SzxFor, Size, ByteOffset, BlockNumber;
    var settled := Min(asked.szx, SzxFor(config.maxBlockSize));
    AskedPlan(options, asked, total, config);
    Renumbered(asked, settled);
    var plan := WindowAt(ByteOffset(asked), settled, total);
    if !plan.badRequest {
      DecodeEncode(plan.block);
      OffsetIs(plan.block);
      MulLe(plan.block.num, NUM_MAX, Size(settled));
      MulLe(NUM_MAX + 1, plan.block.num, Size(settled));
      NextBlockStart(NUM_MAX, Size(settled));
    }
  }

  lemma OffsetIs(b: BlockOption)
    ensures ByteOffset(b) == b.num * Size(b.szx)
  {
  }

  lemma NextBlockStart(num: nat, size: nat)
    ensures (num + 1) * size == num * size + size
  {
  }

  /** A reduction from 1024 to 16 bytes at offset 2^24 produces a number of 21 bits. */
  lemma WideNumberExample(options: seq<OptionView>)
    requires Asks(options, BlockOption(0x4000, false, 6))
    ensures var plan := PlanBlock2(options, 0x200_0000, DownloadConfig(16, []));
      !plan.badRequest && plan.block.num == NUM_MAX + 1 && Decode(Encode(plan.block)).None?
  {
    var asked := BlockOption(0x4000, false, 6);
    AskedPlan(options, asked, 0x200_0000, DownloadConfig(16, []));
    hide PlanBlock2, Encode, Decode, Asks;
    assert Size(6) == 1024 by { assert Size(3) == 128; assert Size(5) == 512; }
    assert SzxFor(16) == 0 by { assert Size(1) == 32; LargestSzxIs(16, SZX_MAX, 0); }
    DecodeEncode(BlockOption(0x10_0000, true, 0));
  }

  /** The number of the block of exponent `szx` that begins at or before `offset`. */
  function NumberOfBlock(offset: nat, szx: nat): nat {
    offset / BlockBytes(szx)
  }

  /** A window of the body at `offset` in blocks of exponent `szx`, as a response in numbers. */
  predicate IsServedWindow(r: Response, body: Span, etag: Span, offset: nat, szx: Exponent) {
    var end := if |body| - offset < BlockBytes(szx) then |body| else offset + BlockBytes(szx);
    var number := NumberOfBlock(offset, szx) % 0x1000_0000;
    && offset <= end <= |body| && r.code == 69
    && r.callback == (if end == offset then NoCallback else Writes(body[offset..end]))
    && r.options ==
      (if etag == [] then [] else [OptionView(4, Opaque(etag))])
      + [OptionView(23, Uint(16 * number + (if end < |body| then 8 else 0) + szx))]
      + if NumberOfBlock(offset, szx) % 0x1_0000_0000 == 0 then [OptionView(28, Uint(|body| % 0x1_0000_0000))] else []
  }

  /**
   * The response to any request, by its numbers. Without a Block2 (23) of integer type a body that fits
   * one block is served whole, else its first window. A Block2 that is no block, or that starts
   * behind the body, is answered 4.00; any other gets the window that begins at its own offset,
   * in blocks of the smaller of the two exponents.
   */
  lemma ServedInNumbers(options: seq<OptionView>, body: Span, config: DownloadConfig)
    ensures var r := ServeSpan(options, body, config);
      var own := SzxFor(config.maxBlockSize);
      match FindUint(options, 23)
      case None =>
        if |body| <= BlockBytes(own) then
          r == Response(69, if body == [] then NoCallback else Writes(body),
            if config.etag == [] then [] else [OptionView(4, Opaque(config.etag))])
        else IsServedWindow(r, body, config.etag, 0, own)
      case Some(raw) =>
        if raw >= 0x100_0000 || raw % 8 == 7 then r == Response(128, NoCallback, [])
        else
          var offset := raw / 16 * BlockBytes(raw % 8);
          if offset != 0 && offset >= |body| then r == Response(128, NoCallback, [])
          else IsServedWindow(r, body, config.etag, offset, if raw % 8 < own then raw % 8 else own)
  {
    var own := SzxFor(config.maxBlockSize);
    match FindUint(options, 23)
    case None =>
      SizeInNumbers(own);
      assert body[0..|body|] == body;
      if |body| > BlockBytes(own) {
        WindowServed(options, body, config, 0, own);
      }
      hide Size, BlockBytes, SzxFor, FindUint;
    case Some(raw) =>
      if !(raw >= 0x100_0000 || raw % 8 == 7) {
        var offset := raw / 16 * BlockBytes(raw % 8);
        SizeInNumbers(raw % 8);
        var settled := if raw % 8 < own then raw % 8 else own;
        assert PlanBlock2(options, |body|, config) == WindowAt(offset, settled, |body|);
        WindowServed(options, body, config, offset, settled);
      }
      hide Size, BlockBytes, SzxFor, FindUint, IsServedWindow;
  }

  lemma WindowServed(options: seq<OptionView>, body: Span, config: DownloadConfig, offset: nat, szx: Exponent)
    requires szx <= 6 && PlanBlock2(options, |body|, config) == WindowAt(offset, szx, |body|)
    ensures if offset != 0 && offset >= |body| then ServeSpan(options, body, config) == Response(128, NoCallback, [])
      else IsServedWindow(ServeSpan(options, body, config), body, config.etag, offset, szx)
  {
    hide PlanBlock2, Block2Options, WindowAt, BlockBytes, NumberOfBlock, ToU32;
    WindowInNumbers(offset, szx, |body|);
    if offset == 0 || offset < |body| {
      WindowOptions(WindowAt(offset, szx, |body|), config, |body|, NumberOfBlock(offset, szx));
    }
  }

  lemma WindowInNumbers(offset: nat, szx: Exponent, total: nat)
    requires szx <= 6
    ensures BlockBytes(szx) > 0
    ensures WindowAt(offset, szx, total) ==
      if offset != 0 && offset >= total then REFUSAL
      else
        var length := if total - offset < BlockBytes(szx) then total - offset else BlockBytes(szx);
        Block2Plan(false, true, BlockOption(ToU32(NumberOfBlock(offset, szx)), offset + length < total, szx), offset, length)
  {
    SizeInNumbers(szx);
    hide Size;
  }

  lemma WindowOptions(plan: Block2Plan, config: DownloadConfig, total: nat, number: nat)
    requires plan.blockwise && plan.block.num == ToU32(number)
    ensures Block2Options(plan, config, total) ==
      (if config.etag == [] then [] else [OptionView(4, Opaque(config.etag))])
      + [OptionView(23, Uint(16 * (number % 0x1000_0000) + (if plan.block.more then 8 else 0) + plan.block.szx))]
      + if number % 0x1_0000_0000 == 0 then [OptionView(28, Uint(total % 0x1_0000_0000))] else []
  {
    NumberInWord(number);
    var block2 := [OptionView(23, Uint(Encode(plan.block)))];
    var size2 := if plan.block.num == 0 then [OptionView(28, Uint(ToU32(total)))] else [];
    var etag := if config.etag == [] then [] else [OptionView(4, Opaque(config.etag))];
    assert etag + (block2 + size2) == etag + block2 + size2;
  }

  lemma NumberInWord(number: nat)
    ensures ToU32(ToU32(number) * 16) == 16 * (number % 0x1000_0000)
  {
    hide ToU32;
    var q, r := number / 0x1000_0000, number % 0x1000_0000;
    var high, low := q / 16, q % 16;
    assert number == 0x1000_0000 * q + r && q == 16 * high + low;
    WordRest(high, 0x1000_0000 * low + r);
    SmallStays(0x1000_0000 * low + r);
    assert ToU32(number) == 0x1000_0000 * low + r;
    WordRest(low, 16 * r);
    SmallStays(16 * r);
    assert ToU32(number) * 16 == 0x1_0000_0000 * low + 16 * r;
  }

  // ------------------------------------------------------------- reassembly

  /** The exponent all blocks of a download have. */
  function Settled(first: Option<Exponent>, config: DownloadConfig): uint8 {
    var szx := SzxFor(config.maxBlockSize);
    if first.Some? then Min(first.value, szx) else szx
  }

  /** What a response says about the body: the block, its size on the first block, and the ETag on every block. */
  lemma ResponseOptions(plan: Block2Plan, config: DownloadConfig, total: nat)
    ensures var options := Block2Options(plan, config, total);
      && FindUint(options, BLOCK2) == (if plan.blockwise then Some(Encode(plan.block)) else None)
      && FindUint(options, SIZE2) == (if plan.blockwise && plan.block.num == 0 then Some(ToU32(total)) else None)
      && FirstWith(ETAG, options) == if config.etag == [] then None else Some(OptionView(ETAG, Opaque(config.etag)))
  {
    hide Encode;
    var etag := if config.etag == [] then [] else [OptionView(ETAG, Opaque(config.etag))];
    var size2 := if plan.block.num == 0 then [OptionView(SIZE2, Uint(ToU32(total)))] else [];
    var block2 := [OptionView(BLOCK2, Uint(Encode(plan.block)))];
    FirstWithOne(OptionView(ETAG, Opaque(config.etag)));
    FirstWithOne(OptionView(BLOCK2, Uint(Encode(plan.block))));
    FirstWithOne(OptionView(SIZE2, Uint(ToU32(total))));
    assert Block2Options(plan, config, total) == etag + if plan.blockwise then block2 + size2 else [];
    forall number: uint16 ensures FirstWith(number, etag + (block2 + size2)) ==
      FirstOf(FirstWith(number, etag), FirstOf(FirstWith(number, block2), FirstWith(number, size2)))
    {
      FirstWithAppend(number, etag, block2 + size2);
      FirstWithAppend(number, block2, size2);
    }
    assert etag + [] == etag;
  }

  /** 4.00 exactly for a Block2 value that cannot be decoded or that names a block behind the body. */
  lemma RefusedExactly(options: seq<OptionView>, body: Span, config: DownloadConfig)
    ensures ServeSpan(options, body, config).code == BAD_REQUEST <==>
      match FindUint(options, BLOCK2)
      case None => false
      case Some(raw) => Decode(raw).None? || (Decode(raw).value.num > 0 && ByteOffset(Decode(raw).value) >= |body|)
  {
    hide Encode, Decode, Block2Options, FindUint, Size, SzxFor;
    match FindUint(options, BLOCK2)
    case None =>
    case Some(raw) =>
      EncodeDecode(raw);
      if Decode(raw).Some? {
        Renumbered(Decode(raw).value, Decode(raw).value.szx);
      }
  }

  /** The end of the window at `num`. */
  function WindowEnd(num: nat, szx: nat, total: nat): nat {
    Min(total, Start(num, szx) + Size(szx))
  }

  /** A response that carries the window at `num`. */
  predicate IsWindow(response: Response, body: Span, num: nat, szx: Exponent)
    requires num <= NUM_MAX
  {
    var end := WindowEnd(num, szx, |body|);
    && Start(num, szx) <= end && response.code == CONTENT
    && CallbackPayload(response.callback) == body[Start(num, szx)..end]
    && FindUint(response.options, BLOCK2) == Some(Encode(BlockOption(num, end < |body|, szx)))
  }

  lemma WindowResponse(options: seq<OptionView>, body: Span, config: DownloadConfig, num: nat, szx: Exponent)
    requires szx <= SZX_MAX && num <= NUM_MAX
    requires num > 0 ==> Start(num, szx) < |body|
    requires PlanBlock2(options, |body|, config) == WindowAt(Start(num, szx), szx, |body|)
    ensures IsWindow(ServeSpan(options, body, config), body, num, szx)
  {
    hide PlanBlock2, FindUint, Encode, Block2Options, WindowAt, WindowEnd, Start;
    WindowIs(num, szx, |body|);
    ResponseOptions(WindowAt(Start(num, szx), szx, |body|), config, |body|);
  }

  /** The plan for the window at `num`. */
  lemma WindowIs(num: nat, szx: Exponent, total: nat)
    requires num <= NUM_MAX && (num > 0 ==> Start(num, szx) < total)
    ensures var end := WindowEnd(num, szx, total);
      && Start(num, szx) <= end <= total
      && WindowAt(Start(num, szx), szx, total)
        == Block2Plan(false, true, BlockOption(num, end < total, szx), Start(num, szx), end - Start(num, szx))
  {
    hide Size, Start, Quotient;
    StartsAtZero(szx);
    BlockStart(num, szx);
  }

  /** What a client that holds the body up to the window makes of the response. */
  lemma {:induction false} ReadWindow(response: Response, body: Span, num: nat, szx: Exponent)
    requires szx <= SZX_MAX && num <= NUM_MAX && IsWindow(response, body, num, szx)
    ensures var end := WindowEnd(num, szx, |body|);
      && Start(num, szx) <= end
      && body[..Start(num, szx)] + CallbackPayload(response.callback) == body[..end]
      && FindUint(response.options, BLOCK2).Some?
      && Decode(FindUint(response.options, BLOCK2).value) == Some(BlockOption(num, end < |body|, szx))
  {
    hide Encode, Decode, FindUint;
    DecodeEncode(BlockOption(num, WindowEnd(num, szx, |body|) < |body|, szx));
  }

  function CallbackPayload(callback: PayloadCallback): Span {
    if callback.Writes? then callback.bytes else []
  }

  /** The options of a request for one block: the client's `others` and Block2, in a builder's order. */
  function Ask(others: seq<OptionView>, block: BlockOption): seq<OptionView>
  {
    StableSort(others + [OptionView(BLOCK2, Uint(Encode(block)))])
  }

  lemma AskAsks(others: seq<OptionView>, block: BlockOption)
    requires FirstWith(BLOCK2, others).None?
    ensures Asks(Ask(others, block), block)
  {
    hide Encode, StableSort;
    var opt := OptionView(BLOCK2, Uint(Encode(block)));
    SortKeepsFirst(BLOCK2, others + [opt]);
    FirstWithAppend(BLOCK2, others, [opt]);
    FirstWithOne(opt);
    hide FirstWith;
  }

  /** The options of the client's first request, without Block2 or for block 0. */
  function FirstAsk(others: seq<OptionView>, first: Option<Exponent>): seq<OptionView>
    requires first.Some? ==> first.value <= SZX_MAX
  {
    if first.Some? then Ask(others, BlockOption(0, false, first.value)) else StableSort(others)
  }

  /**
   * The client of section 2.4 of RFC 7959, with any options besides Block2: it starts without
   * Block2, or with NUM 0 at a legal exponent, asks for NUM+1 at the response's exponent while M is set, and gives
   * up after the last 20-bit number. Every response on the way can be read, and it ends
   * with the body exactly when the body's block numbers fit 20 bits.
   */
  method Fetch(others: seq<OptionView>, body: Span, config: DownloadConfig, first: Option<Exponent>)
    returns (got: Option<Span>)
    requires FirstWith(BLOCK2, others).None? && (first.Some? ==> first.value <= SZX_MAX)
    ensures got == if |body| <= (NUM_MAX + 1) * Size(Settled(first, config)) then Some(body) else None
  {
    hide ServeSpan, PlanBlock2, WindowAt, Start, Encode, Decode, FindUint, IsWindow, WindowEnd;
    hide Size, Settled, SzxFor, Ask, Asks, FirstAsk;
    var options := FirstAsk(others, first);
    ghost var szx := Settled(first, config);
    SettledIs(first, config);
    var response := ServeSpan(options, body, config);
    if first.None? && |body| <= Size(szx) {
      PlainResponse(others, body, config);
      WithinLimit(0, Size(szx));
    } else {
      FirstWindow(others, body, config, first);
      WindowResponse(options, body, config, 0, szx);
      ReadWindow(response, body, 0, szx);
    }
    if FindUint(response.options, BLOCK2).None? {
      return Some(CallbackPayload(response.callback));
    }
    var parts := [];
    ghost var num: nat := 0;
    StartsAtZero(szx);
    while true
      invariant num <= NUM_MAX && IsWindow(response, body, num, szx)
      invariant Start(num, szx) <= |body| && parts == body[..Start(num, szx)]
      decreases NUM_MAX - num
    {
      ReadWindow(response, body, num, szx);
      WithinLimit(num, Size(szx));
      WindowEndIs(num, szx, |body|);
      parts := parts + CallbackPayload(response.callback);
      var block := Decode(FindUint(response.options, BLOCK2).value).value;
      if !block.more {
        assert parts == body[..|body|] == body;
        return Some(parts);
      }
      if block.num == NUM_MAX {
        return None;
      }
      options := Ask(others, BlockOption(block.num + 1, false, block.szx));
      response := ServeSpan(options, body, config);
      num := num + 1;
      AskAsks(others, BlockOption(num, false, szx));
      NextPlan(options, num, szx, body, config);
      WindowResponse(options, body, config, num, szx);
    }
  }

  lemma WindowEndIs(num: nat, szx: nat, total: nat)
    ensures Start(num + 1, szx) == (num + 1) * Size(szx) == Start(num, szx) + Size(szx)
    ensures WindowEnd(num, szx, total) < total <==> Start(num + 1, szx) < total
    ensures WindowEnd(num, szx, total) == if Start(num + 1, szx) < total then Start(num + 1, szx) else total
  {
    hide Size;
    NextBlockStart(num, Size(szx));
  }

  lemma StartsAtZero(szx: nat)
    ensures Start(0, szx) == 0
  {
  }

  lemma SettledIs(first: Option<Exponent>, config: DownloadConfig)
    requires first.Some? ==> first.value <= SZX_MAX
    ensures Settled(first, config) <= SzxFor(config.maxBlockSize) <= SZX_MAX
    ensures first.None? ==> Settled(first, config) == SzxFor(config.maxBlockSize)
  {
  }

  lemma WithinLimit(num: nat, size: nat)
    requires num <= NUM_MAX
    ensures (num + 1) * size <= (NUM_MAX + 1) * size
  {
    MulLe(num + 1, NUM_MAX + 1, size);
  }

  /** The window after the first one, at the exponent already settled. */
  lemma NextPlan(options: seq<OptionView>, num: nat, szx: Exponent, body: Span, config: DownloadConfig)
    requires num <= NUM_MAX && szx <= SzxFor(config.maxBlockSize) && Asks(options, BlockOption(num, false, szx))
    ensures PlanBlock2(options, |body|, config) == WindowAt(Start(num, szx), szx, |body|)
  {
    hide PlanBlock2, Asks, SzxFor, Size, WindowAt;
    AskedPlan(options, BlockOption(num, false, szx), |body|, config);
  }

  lemma PlainResponse(others: seq<OptionView>, body: Span, config: DownloadConfig)
    requires FirstWith(BLOCK2, others).None? && |body| <= Size(SzxFor(config.maxBlockSize))
    ensures var response := ServeSpan(FirstAsk(others, None), body, config);
      CallbackPayload(response.callback) == body && FindUint(response.options, BLOCK2).None?
  {
    hide Encode, Block2Options, StableSort, WindowAt, SzxFor, Size;
    assert body[0..|body|] == body;
    SortKeepsFirst(BLOCK2, others);
    var options := FirstAsk(others, None);
    assert FindUint(options, BLOCK2).None?;
    hide FindUint;
    ResponseOptions(PlanBlock2(options, |body|, config), config, |body|);
  }

  lemma FirstWindow(others: seq<OptionView>, body: Span, config: DownloadConfig, first: Option<Exponent>)
    requires FirstWith(BLOCK2, others).None? && (first.Some? ==> first.value <= SZX_MAX)
    requires first.None? ==> |body| > Size(SzxFor(config.maxBlockSize))
    ensures PlanBlock2(FirstAsk(others, first), |body|, config)
      == WindowAt(Start(0, Settled(first, config)), Settled(first, config), |body|)
  {
    hide Encode, StableSort, WindowAt, SzxFor, Size;
    var options := FirstAsk(others, first);
    if first.Some? {
      AskAsks(others, BlockOption(0, false, first.value));
      AskedPlan(options, BlockOption(0, false, first.value), |body|, config);
      hide PlanBlock2, Asks, Ask;
    } else {
      SortKeepsFirst(BLOCK2, others);
      assert FindUint(options, BLOCK2).None?;
    }
  }
}

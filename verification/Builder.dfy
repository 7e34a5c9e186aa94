/** `InsertionSort` and `MessageBuilder`: options may be added in any order. */
module Builder {
  import opened Bytes
  import opened CoapOption
  import opened Pdu

  /** `x` goes behind the last element that is not greater. */
  function Insert(sorted: seq<OptionView>, x: OptionView): seq<OptionView> {
    var n := |sorted|;
    if n == 0 || sorted[n - 1].number <= x.number then sorted + [x]
    else Insert(sorted[..n - 1], x) + [sorted[n - 1]]
  }

  function StableSort(opts: seq<OptionView>): seq<OptionView> {
    if opts == [] then [] else Insert(StableSort(opts[..|opts| - 1]), opts[|opts| - 1])
  }

  predicate IsSorted(opts: seq<OptionView>) {
    forall i, j :: 0 <= i < j < |opts| ==> opts[i].number <= opts[j].number
  }

  /** The options with one number, in the order they stand. */
  function WithNumber(opts: seq<OptionView>, number: uint16): seq<OptionView> {
    if opts == [] then []
    else if opts[0].number == number then [opts[0]] + WithNumber(opts[1..], number)
    else WithNumber(opts[1..], number)
  }

  /** Sorted, and options with equal numbers keep their order. */
  ghost predicate IsStableSortOf(result: seq<OptionView>, opts: seq<OptionView>) {
    IsSorted(result) && forall number: uint16 :: WithNumber(result, number) == WithNumber(opts, number)
  }

  lemma {:induction false} WithNumberAppend(xs: seq<OptionView>, ys: seq<OptionView>, number: uint16)
    ensures WithNumber(xs + ys, number) == WithNumber(xs, number) + WithNumber(ys, number)
  {
    if xs == [] {
      assert xs + ys == ys;
    } else {
      WithNumberAppend(xs[1..], ys, number);
      assert (xs + ys)[1..] == xs[1..] + ys;
    }
  }

  lemma {:induction false} InsertIsSorted(sorted: seq<OptionView>, x: OptionView)
    requires IsSorted(sorted)
    ensures IsSorted(Insert(sorted, x)) && |Insert(sorted, x)| == |sorted| + 1
    ensures forall y :: y in Insert(sorted, x) ==> y == x || y in sorted
  {
    var n := |sorted|;
    if n > 0 && sorted[n - 1].number > x.number {
      var init, last := sorted[..n - 1], sorted[n - 1];
      InsertIsSorted(init, x);
      forall i | 0 <= i < |Insert(init, x)| ensures Insert(init, x)[i].number <= last.number {
        assert Insert(init, x)[i] in Insert(init, x);
      }
    }
  }

  lemma {:induction false} InsertIsStable(sorted: seq<OptionView>, x: OptionView, number: uint16)
    requires IsSorted(sorted)
    ensures IsSorted(Insert(sorted, x)) && |Insert(sorted, x)| == |sorted| + 1
    ensures forall y :: y in Insert(sorted, x) ==> y == x || y in sorted
    ensures WithNumber(Insert(sorted, x), number) == WithNumber(sorted, number) + WithNumber([x], number)
  {
    InsertIsSorted(sorted, x);
    InsertKeepsOrder(sorted, x, number);
  }

  /** `x` moves only past options with a different number. */
  lemma {:induction false} InsertKeepsOrder(sorted: seq<OptionView>, x: OptionView, number: uint16)
    ensures WithNumber(Insert(sorted, x), number) == WithNumber(sorted, number) + WithNumber([x], number)
  {
    hide WithNumber;
    var n := |sorted|;
    if n == 0 || sorted[n - 1].number <= x.number {
      WithNumberAppend(sorted, [x], number);
    } else {
      var init, last := sorted[..n - 1], sorted[n - 1];
      InsertKeepsOrder(init, x, number);
      WithNumberAppend(Insert(init, x), [last], number);
      WithNumberAppend(init, [last], number);
      assert sorted == init + [last];
      OneHasNoOther(x, last, number);
      var before, a, b := WithNumber(init, number), WithNumber([x], number), WithNumber([last], number);
      assert before + a + b == before + b + a;
    }
  }

  lemma OneHasNoOther(x: OptionView, y: OptionView, number: uint16)
    requires x.number != y.number
    ensures WithNumber([x], number) == [] || WithNumber([y], number) == []
  {
    assert [x][1..] == [] && [y][1..] == [];
  }

  lemma {:induction false} StableSortAt(opts: seq<OptionView>, number: uint16)
    ensures IsSorted(StableSort(opts)) && |StableSort(opts)| == |opts|
    ensures WithNumber(StableSort(opts), number) == WithNumber(opts, number)
    ensures forall y :: y in StableSort(opts) ==> y in opts
  {
    if opts != [] {
      var init := opts[..|opts| - 1];
      StableSortAt(init, number);
      InsertIsStable(StableSort(init), opts[|opts| - 1], number);
      WithNumberAppend(init, [opts[|opts| - 1]], number);
      assert opts == init + [opts[|opts| - 1]];
    }
  }

  lemma StableSortIsStable(opts: seq<OptionView>)
    ensures IsStableSortOf(StableSort(opts), opts)
  {
    StableSortAt(opts, 0);
    forall number: uint16 ensures WithNumber(StableSort(opts), number) == WithNumber(opts, number) {
      StableSortAt(opts, number);
    }
  }

  lemma {:induction false} WithNumberMember(opts: seq<OptionView>, number: uint16)
    ensures WithNumber(opts, number) != [] <==> exists i :: 0 <= i < |opts| && opts[i].number == number
    ensures forall y :: y in WithNumber(opts, number) ==> y in opts && y.number == number
  {
    if opts != [] {
      WithNumberMember(opts[1..], number);
      if exists i :: 0 <= i < |opts| && opts[i].number == number {
        var i :| 0 <= i < |opts| && opts[i].number == number;
        assert i > 0 ==> opts[1..][i - 1].number == number;
      }
    }
  }

  /** The stable sort is determined by its specification alone. */
  lemma {:induction false} StableSortIsUnique(xs: seq<OptionView>, ys: seq<OptionView>)
    requires IsSorted(xs) && IsSorted(ys)
    requires forall number: uint16 :: WithNumber(xs, number) == WithNumber(ys, number)
    ensures xs == ys
    decreases |xs|
  {
    if ys != [] {
      assert WithNumber(ys, ys[0].number) != [];
      WithNumberMember(xs, ys[0].number);
    }
    if xs != [] {
      assert WithNumber(xs, xs[0].number) != [];
      WithNumberMember(ys, xs[0].number);
      assert xs[0].number == ys[0].number;
      assert xs[0] == WithNumber(xs, xs[0].number)[0] == ys[0];
      forall number: uint16 ensures WithNumber(xs[1..], number) == WithNumber(ys[1..], number) {
        assert WithNumber(xs, number) == WithNumber(ys, number);
        if xs[0].number == number {
          assert WithNumber(xs[1..], number) == WithNumber(xs, number)[1..];
          assert WithNumber(ys[1..], number) == WithNumber(ys, number)[1..];
        }
      }
      StableSortIsUnique(xs[1..], ys[1..]);
    }
  }

  /** The first option with a number heads the options with that number. */
  lemma {:induction false} FirstWithIsHead(number: uint16, opts: seq<OptionView>)
    ensures FirstWith(number, opts) ==
      if WithNumber(opts, number) == [] then None else Some(WithNumber(opts, number)[0])
  {
    if opts != [] {
      FirstWithIsHead(number, opts[1..]);
    }
  }

  /** Sorting does not change which option of a number comes first. */
  lemma SortKeepsFirst(number: uint16, opts: seq<OptionView>)
    ensures FirstWith(number, StableSort(opts)) == FirstWith(number, opts)
  {
    StableSortAt(opts, number);
    FirstWithIsHead(number, StableSort(opts));
    FirstWithIsHead(number, opts);
  }

  /** `input` with its element at `i` taken out and `x` put in at `j`. */
  function Moved(input: seq<OptionView>, i: nat, j: nat, x: OptionView): seq<OptionView>
    requires j <= i < |input|
  {
    input[..j] + [x] + input[j..i] + input[i + 1..]
  }

  /** The element at `i` still has to be inserted into the first `j` of the sorted `input[..i]`. */
  predicate Sinking(input: seq<OptionView>, i: nat, j: nat)
    requires j <= i < |input|
  {
    Insert(input[..i], input[i]) == Insert(input[..j], input[i]) + input[j..i]
  }

  lemma MovedStart(input: seq<OptionView>, i: nat)
    requires i < |input|
    ensures Moved(input, i, i, input[i]) == input && Sinking(input, i, i)
  {
  }

  lemma MovedStep(input: seq<OptionView>, i: nat, j: nat, x: OptionView)
    requires 0 < j <= i < |input| && Sinking(input, i, j) && input[i].number < input[j - 1].number
    ensures Moved(input, i, j, x)[j := input[j - 1]] == Moved(input, i, j - 1, input[j - 1])
    ensures Sinking(input, i, j - 1)
  {
    assert input[..j][..j - 1] == input[..j - 1];
  }

  lemma MovedIntoPlace(input: seq<OptionView>, i: nat, j: nat)
    requires j <= i < |input| && Sinking(input, i, j)
    requires j > 0 ==> input[j - 1].number <= input[i].number
    ensures Moved(input, i, j, input[i])[..i + 1] == Insert(input[..i], input[i])
    ensures Moved(input, i, j, input[i])[i + 1..] == input[i + 1..]
  {
  }

  lemma MovedAt(input: seq<OptionView>, i: nat, j: nat, x: OptionView, y: OptionView)
    requires j <= i < |input|
    ensures |Moved(input, i, j, x)| == |input| && Moved(input, i, j, x)[j := y] == Moved(input, i, j, y)
    ensures j > 0 ==> Moved(input, i, j, x)[j - 1] == input[j - 1]
  {
  }

  /** The inner loop: moves `a[i]` left past every greater element of the sorted `a[..i]`. */
  method SinkInto(a: array<OptionView>, i: nat)
    requires i < a.Length
    modifies a
    ensures a[..i + 1] == Insert(old(a[..i]), old(a[i])) && a[i + 1..] == old(a[i + 1..])
  {
    hide Insert, Moved, Sinking;
    var key := a[i];
    ghost var input := a[..];
    var j := i;
    MovedStart(input, i);
    while j > 0 && key.number < a[j - 1].number
      invariant 0 <= j <= i && Sinking(input, i, j)
      invariant a[..] == Moved(input, i, j, a[j])
    {
      ghost var before := a[..];
      MovedAt(input, i, j, a[j], key);
      MovedStep(input, i, j, a[j]);
      a[j] := a[j - 1];
      assert a[..] == before[j := input[j - 1]];
      j := j - 1;
    }
    MovedAt(input, i, j, a[j], key);
    ghost var before := a[..];
    a[j] := key;
    assert a[..] == before[j := key];
    MovedIntoPlace(input, i, j);
    assert a[..i + 1] == a[..][..i + 1] && a[i + 1..] == a[..][i + 1..];
  }

  /** In place over `a[..n]`. */
  method InsertionSort(a: array<OptionView>, n: nat)
    requires n <= a.Length
    modifies a
    ensures a[..n] == StableSort(old(a[..n])) && a[n..] == old(a[n..])
  {
    if n == 0 {
      return;
    }
    ghost var input := a[..n];
    StableSortOne(input);
    for i := 1 to n
      invariant a[..i] == StableSort(input[..i])
      invariant a[i..] == old(a[i..])
    {
      assert input[..i + 1][..i] == input[..i] && a[i] == a[i..][0] == input[i];
      assert a[i + 1..] == a[i..][1..];
      SinkInto(a, i);
    }
    assert input[..n] == input;
  }

  lemma StableSortOne(input: seq<OptionView>)
    requires input != []
    ensures StableSort(input[..1]) == input[..1]
  {
    assert input[..1][..0] == [];
    assert StableSort([]) == [];
  }

  class MessageBuilder {
    var mtype: MessageType
    var code: Code
    var messageId: uint16
    var token: Token
    const storage: array<OptionView>
    var size: nat
    var callback: PayloadCallback

    ghost predicate Valid()
      reads this
    {
      size <= storage.Length
    }

    /** The option list as it stands. */
    ghost function Options(): seq<OptionView>
      reads this, storage
      requires Valid()
    {
      storage[..size]
    }

    constructor (maxOptions: nat)
      ensures Valid() && Options() == [] && callback == NoCallback && token == []
      ensures storage.Length == maxOptions && fresh(storage)
      ensures mtype == Con && code == EMPTY_CODE && messageId == 0
    {
      mtype, code, messageId, token, callback := Con, EMPTY_CODE, 0, [], NoCallback;
      storage := new OptionView[maxOptions](_ => OptionView(0, Empty));
      size := 0;
    }

    /** A full list panics. */
    method AddOption(opt: OptionView)
      requires Valid() && size < storage.Length
      modifies this`size, storage
      ensures Valid() && Options() == old(Options()) + [opt]
    {
      storage[size] := opt;
      size := size + 1;
    }

    method Build() returns (msg: OutgoingMessage)
      requires Valid()
      modifies storage
      ensures Valid() && Options() == StableSort(old(Options()))
      ensures msg == OutgoingMessage(mtype, code, messageId, token, StableSort(old(Options())), callback)
    {
      InsertionSort(storage, size);
      msg := OutgoingMessage(mtype, code, messageId, token, storage[..size], callback);
    }
  }
}

/** `RingBuffer`: keeps the latest elements pushed into it. */
module Ring {

  /** The last `n` elements, or all if there are fewer. */
  function Last<T>(s: seq<T>, n: nat): seq<T> {
    if |s| <= n then s else s[|s| - n..]
  }

  /** Cutting early or late makes no difference. */
  lemma LastOfLast<T>(s: seq<T>, x: T, n: nat)
    ensures Last(Last(s, n) + [x], n) == Last(s + [x], n)
  {
  }

  lemma NextIndex(i: nat, n: nat)
    requires i < n
    ensures (i + 1) % n == if i + 1 == n then 0 else i + 1
  {
  }

  lemma ShortIsAll<T>(s: seq<T>, n: nat)
    requires |s| <= n
    ensures Last(s, n) == s
  {
  }

  /** Overwriting the oldest element of a full ring and moving on drops it and appends the new one. */
  lemma Rotate<T>(s: seq<T>, i: nat, x: T)
    requires i < |s|
    ensures var t, j := s[i := x], if i + 1 == |s| then 0 else i + 1;
      t[j..] + t[..j] == Last(s[i..] + s[..i] + [x], |s|)
  {
    var all := s[i..] + s[..i] + [x];
    assert Last(all, |s|) == all[1..] == s[i + 1..] + s[..i] + [x];
  }

  class RingBuffer<T(==)> {
    const items: array<T>
    var size: nat
    var oldest: nat

    ghost predicate Valid()
      reads this
    {
      items.Length > 0 && size <= items.Length && oldest < items.Length && (size < items.Length ==> oldest == 0)
    }

    /** The stored elements, oldest first. */
    ghost function Contents(): seq<T>
      reads this, items
      requires Valid()
    {
      items[oldest..size] + items[..oldest]
    }

    constructor (capacity: nat, filler: T)
      requires capacity > 0
      ensures Valid() && Contents() == [] && items.Length == capacity && fresh(items)
    {
      items := new T[capacity](_ => filler);
      size, oldest := 0, 0;
    }

    method Push(value: T)
      requires Valid()
      modifies this, items
      ensures Valid() && Contents() == Last(old(Contents()) + [value], items.Length)
    {
      hide Last;
      ghost var before := items[..];
      if size < items.Length {
        items[size] := value;
        size := size + 1;
        assert items[..size] == before[..size - 1] + [value];
        ShortIsAll(before[..size - 1] + [value], items.Length);
        assert items[0..size] + items[..0] == items[..size];
        assert old(Contents()) == before[..size - 1];
        return;
      }
      assert Contents() == before[oldest..] + before[..oldest];
      NextIndex(oldest, items.Length);
      Rotate(before, oldest, value);
      ghost var i := oldest;
      items[oldest] := value;
      oldest := (oldest + 1) % items.Length;
      ghost var after := before[i := value];
      assert items[..] == after;
      assert items[oldest..size] == after[oldest..] && items[..oldest] == after[..oldest];
    }

    /** A search in storage order. */
    method Contains(value: T) returns (found: bool)
      requires Valid()
      ensures found <==> value in Contents()
    {
      for i := 0 to size
        invariant value !in items[..i]
      {
        if items[i] == value {
          assert items[..size][i] == value;
          assert value in items[oldest..size] || value in items[..oldest] by {
            if i >= oldest {
              assert items[oldest..size][i - oldest] == value;
            } else {
              assert items[..oldest][i] == value;
            }
          }
          return true;
        }
      }
      assert oldest <= size && items[..size] == items[..oldest] + items[oldest..size];
      return false;
    }
  }

  /** Any `n + 1` consecutive elements are pairwise distinct. */
  predicate IsSpread<T(==)>(s: seq<T>, n: nat) {
    forall i, j :: 0 <= i < j < |s| && j - i <= n ==> s[i] != s[j]
  }

  /** Skipping what is among the last `n` keeps any `n + 1` consecutive elements distinct. */
  lemma SkippingRecentKeepsSpread<T>(s: seq<T>, x: T, n: nat)
    requires IsSpread(s, n) && x !in Last(s, n)
    ensures IsSpread(s + [x], n)
  {
    forall i | 0 <= i < |s| && |s| - i <= n ensures s[i] != x {
      assert Last(s, n)[if |s| <= n then i else i - (|s| - n)] == s[i];
    }
  }

  /** The requests of `arrivals` that are executed when one is skipped if it is among the last `n` executed. */
  function Executed<T(==)>(arrivals: seq<T>, n: nat): seq<T> {
    if arrivals == [] then []
    else
      var before, x := Executed(arrivals[..|arrivals| - 1], n), arrivals[|arrivals| - 1];
      if x in Last(before, n) then before else before + [x]
  }

  /**
   * Over every run of arrivals: among any `n + 1` consecutive executions no request occurs
   * twice, every execution has arrived, and every arrival has been executed.
   */
  lemma {:induction false} ExecutedAtMostOnce<T>(arrivals: seq<T>, n: nat)
    ensures IsSpread(Executed(arrivals, n), n)
    ensures forall x :: x in Executed(arrivals, n) <==> x in arrivals
    decreases |arrivals|
  {
    if arrivals != [] {
      var init, x := arrivals[..|arrivals| - 1], arrivals[|arrivals| - 1];
      ExecutedAtMostOnce(init, n);
      assert arrivals == init + [x];
      if x !in Last(Executed(init, n), n) {
        SkippingRecentKeepsSpread(Executed(init, n), x, n);
      }
    }
  }
}

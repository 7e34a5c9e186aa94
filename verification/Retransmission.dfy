/** `RetransmitState` (sections 4.2 and 4.8 of RFC 7252) and when it fires. */
module Retransmission {
  import opened Bytes

  const ACK_TIMEOUT_MS: uint32 := 2000
  const MAX_RETRANSMIT: uint8 := 4

  datatype Action = Waiting | Retransmit | GiveUp

  datatype Retry = Retry(elapsedMs: uint32, timeoutMs: uint32, count: uint8)

  const ARMED := Retry(0, ACK_TIMEOUT_MS, 0)

  /** The timer after `delta` milliseconds; all sums are 32-bit. */
  function Advance(r: Retry, delta: uint32): (Retry, Action) {
    var elapsed := ToU32(r.elapsedMs + delta);
    if elapsed < r.timeoutMs then (r.(elapsedMs := elapsed), Waiting)
    else if r.count >= MAX_RETRANSMIT then (r.(elapsedMs := elapsed), GiveUp)
    else (Retry(0, ToU32(r.timeoutMs * 2), ToU8(r.count + 1)), Retransmit)
  }

  function ToU8(x: int): uint8 {
    x % 0x100
  }

  /** The timeout of the wait that follows the `k`-th retransmission. */
  function Timeout(k: nat): nat {
    if k == 0 then 2000 else 2 * Timeout(k - 1)
  }

  /** The nominal time of the `k`-th retransmission (of giving up for k = 5): 2000 * (2^k - 1). */
  function Due(k: nat): nat {
    if k == 0 then 0 else Due(k - 1) + Timeout(k - 1)
  }

  lemma DueTimes()
    ensures Due(1) == 2000 && Due(2) == 6000 && Due(3) == 14000 && Due(4) == 30000 && Due(5) == 62000
    ensures Timeout(4) == 32000
  {
    assert Timeout(1) == 4000 && Timeout(2) == 8000 && Timeout(3) == 16000;
  }

  lemma {:induction false} DueIs(k: nat)
    ensures Due(k) == Timeout(k) - 2000
  {
    if k > 0 {
      DueIs(k - 1);
    }
  }

  lemma {:induction false} TimeoutBound(k: nat)
    requires k <= 4
    ensures 2000 <= Timeout(k) <= 32000
  {
    DueTimes();
    if k < 4 {
      assert Timeout(1) == 4000 && Timeout(2) == 8000 && Timeout(3) == 16000;
    }
  }

  /** A live timer whose CON was first sent `age` milliseconds ago, ticked in steps of at most `step`. */
  predicate IsOnTime(r: Retry, age: nat, step: nat) {
    && r.count <= MAX_RETRANSMIT
    && r.timeoutMs == Timeout(r.count)
    && r.elapsedMs < r.timeoutMs
    && Due(r.count) + r.elapsedMs <= age <= Due(r.count) + r.elapsedMs + r.count * step
  }

  /** The largest step that can never overflow the 32-bit sum. */
  const MAX_STEP := 0x1_0000_0000 - 32000

  /**
   * One tick of a timer that is on time: it stays on time, and it fires for the k-th time
   * at an age within [Due(k), Due(k) + k * step).
   */
  lemma {:induction false} AdvanceOnTime(r: Retry, age: nat, step: nat, delta: uint32)
    requires IsOnTime(r, age, step) && delta <= step <= MAX_STEP
    ensures var (r', action) := Advance(r, delta);
      var k := r.count + 1;
      && (action.Waiting? ==> IsOnTime(r', age + delta, step) && r'.count == r.count)
      && (action.Retransmit? ==> IsOnTime(r', age + delta, step) && k <= 4 && r'.count == k)
      && (action.GiveUp? ==> k == 5)
      && (!action.Waiting? ==> Due(k) <= age + delta < Due(k) + k * step)
  {
    TimeoutBound(r.count);
    NextWait(r.count);
    SlackGrows(r.count, step);
    AdvanceWithoutWrap(r, delta);
    hide Timeout, Due, Advance;
  }

  /** The timer in unbounded arithmetic, which is what the code computes as long as the sum does not wrap. */
  lemma AdvanceWithoutWrap(r: Retry, delta: uint32)
    requires r.elapsedMs + delta < 0x1_0000_0000 && r.timeoutMs <= 32000 && r.count <= MAX_RETRANSMIT
    ensures Advance(r, delta) ==
      if r.elapsedMs + delta < r.timeoutMs then (r.(elapsedMs := r.elapsedMs + delta), Waiting)
      else if r.count == MAX_RETRANSMIT then (r.(elapsedMs := r.elapsedMs + delta), GiveUp)
      else (Retry(0, r.timeoutMs * 2, r.count + 1), Retransmit)
  {
  }

  lemma NextWait(k: nat)
    ensures Timeout(k + 1) == 2 * Timeout(k) && Due(k + 1) == Due(k) + Timeout(k)
  {
  }

  lemma SlackGrows(k: nat, step: nat)
    ensures (k + 1) * step == k * step + step
  {
  }

  /** The age of a live timer tells how often it has fired; none lives longer than the last wait. */
  lemma CountFollowsAge(r: Retry, age: nat, step: nat)
    requires IsOnTime(r, age, step)
    ensures Due(r.count) <= age < Due(r.count + 1) + r.count * step
    ensures age < 62000 + 4 * step
  {
    DueTimes();
    hide Timeout, Due;
    NextWait(r.count);
    if r.count < 4 {
      DueGrows(r.count + 1, 5);
    }
  }

  lemma {:induction false} DueGrows(k: nat, n: nat)
    requires k <= n
    ensures Due(k) <= Due(n)
    decreases n
  {
    if k < n {
      DueGrows(k, n - 1);
      DueIs(n - 1);
    }
  }

  /** Without the bound on the step, a due timer keeps waiting exactly when the 32-bit sum wraps to below the timeout. */
  lemma MissesExactlyOnWrap(r: Retry, age: nat, step: nat, delta: uint32)
    requires IsOnTime(r, age, step) && r.elapsedMs + delta >= r.timeoutMs
    ensures Advance(r, delta).1.Waiting? <==>
      0x1_0000_0000 <= r.elapsedMs + delta < 0x1_0000_0000 + r.timeoutMs
  {
    TimeoutBound(r.count);
  }

  lemma WrapExample()
    ensures Advance(Retry(1999, 2000, 0), 0xFFFF_FFFF) == (Retry(1998, 2000, 0), Waiting)
  {
  }
}

/**
 The timer registers as two 32-bit halves, and the real-time clock on top of the monotonic one.
 */
module Timer {

  import opened Common
  import opened Clock

  // ----- the split read ---------------------------------------------------------------------

  /** A 64-bit counter that never goes back; `clock(i)` is its value at the i-th register read. */
  ghost predicate Counter(clock: nat -> nat) {
    && (forall i :: clock(i) < MOD64)
    && (forall i, j :: i <= j ==> clock(i) <= clock(j))
  }

  function High(v: nat): nat {
    v / MOD32
  }

  function Low(v: nat): nat {
    v % MOD32
  }

  /**
   High, low and high again until the high halves agree.  The result is a value that the counter
   had at the second but last read, and the loop ends because the high half only grows.
   */
  method ReadCounter(clock: nat -> nat) returns (v: nat, count: nat)
    requires Counter(clock)
    ensures count >= 3 && v == clock(count - 2)
  {
    count := 0;
    var before, low, after := High(clock(0)), Low(clock(1)), High(clock(2));
    count := 3;
    while before != after
      invariant count >= 3
      invariant before == High(clock(count - 3)) && low == Low(clock(count - 2)) && after == High(clock(count - 1))
      decreases MOD32 - before
    {
      Later(clock, count - 3, count - 1);
      Later(clock, count - 1, count);
      before, low, after := High(clock(count)), Low(clock(count + 1)), High(clock(count + 2));
      count := count + 3;
    }
    Later(clock, count - 3, count - 2);
    Later(clock, count - 2, count - 1);
    v := before * MOD32 + low;
  }

  lemma Later(clock: nat -> nat, i: nat, j: nat)
    requires Counter(clock) && i <= j
    ensures High(clock(i)) <= High(clock(j)) < MOD32
  {
    assert clock(i) <= clock(j) < MOD64;
  }

  // ----- the split write --------------------------------------------------------------------

  class Compare {
    var high: nat
    var low: nat

    ghost function Value(): nat
      reads this
    {
      high * MOD32 + low
    }

    /** The high half is written first; `between` is the value that is set between the writes. */
    method Set(count: nat) returns (ghost between: nat)
      requires count < MOD64 && low < MOD32
      modifies this
      ensures Value() == count && low < MOD32
      ensures between == Between(old(Value()), count)
    {
      high := count / MOD32;
      between := Value();
      low := count % MOD32;
    }
  }

  function Between(was: nat, count: nat): nat {
    High(count) * MOD32 + Low(was)
  }

  /** The timer interrupt is pending while the counter has reached the compare value. */
  predicate Pending(now: nat, compare: nat) {
    now >= compare
  }

  /**
   A write can raise an interrupt that neither the old nor the new value asks for, if and only if the
   high half goes down and the low half goes up.
   */
  lemma SpuriousIff(was: nat, count: nat)
    ensures (exists now: nat :: Pending(now, Between(was, count)) && !Pending(now, was) && !Pending(now, count))
            <==> High(count) < High(was) && Low(was) < Low(count)
  {
    if High(count) < High(was) && Low(was) < Low(count) {
      assert Pending(Between(was, count), Between(was, count));
    }
  }

  /** From 2 * 2^32 to 2^32 + 5 the register passes through 2^32, which the counter may have reached. */
  lemma SpuriousExample()
    ensures var was, count, now := 2 * MOD32, MOD32 + 5, MOD32;
            Pending(now, Between(was, count)) && !Pending(now, was) && !Pending(now, count)
  {
  }

  // ----- the real-time clock ----------------------------------------------------------------

  function TimespecAdd(a: Timespec, b: Timespec): (t: Timespec)
    ensures Nanos(t) == Nanos(a) + Nanos(b)
    ensures Normal(a) && Normal(b) ==> Normal(t)
  {
    var t := Timespec(a.sec + b.sec, a.nsec + b.nsec);
    if t.nsec >= BILLION then Timespec(t.sec + 1, t.nsec - BILLION) else t
  }

  function TimespecSub(a: Timespec, b: Timespec): (t: Timespec)
    ensures Nanos(t) == Nanos(a) - Nanos(b)
    ensures Normal(a) && Normal(b) ==> Normal(t)
  {
    var t := Timespec(a.sec - b.sec, a.nsec - b.nsec);
    if t.nsec < 0 then Timespec(t.sec - 1, t.nsec + BILLION) else t
  }

  lemma NanosDetermine(t: Timespec, u: Timespec)
    requires Normal(t) && Normal(u) && Nanos(t) == Nanos(u)
    ensures t == u
  {
  }

  /** An answer of the monotonic clock: a time, or the error it failed with. */
  datatype Monotonic = At(time: Timespec) | Failed(error: int)

  class Realtime {
    var offset: Timespec

    method Set(tsp: Option<Timespec>, mono: Monotonic) returns (r: int)
      requires mono.Failed? ==> mono.error != 0
      modifies this
      ensures r == 0 <==> tsp.Some? && mono.At?
      ensures r != 0 ==> offset == old(offset) && r == if tsp.None? then -EFAULT else mono.error
      ensures r == 0 ==> offset == TimespecSub(tsp.value, mono.time)
    {
      if tsp.None? {
        return -EFAULT;
      }
      if mono.Failed? {
        return mono.error;
      }
      offset := TimespecSub(tsp.value, mono.time);
      r := 0;
    }

    method Get(mono: Monotonic) returns (r: int, t: Timespec)
      requires mono.Failed? ==> mono.error != 0
      ensures r == if mono.Failed? then mono.error else 0
      ensures r == 0 ==> t == TimespecAdd(offset, mono.time)
    {
      if mono.Failed? {
        return mono.error, Timespec(0, 0);
      }
      return 0, TimespecAdd(offset, mono.time);
    }
  }

  /**
   What is read after the clock was set is the set time plus the monotonic time that has passed
   since, to the nanosecond; right after the call it is the set time itself.
   */
  lemma SetThenGet(set0: Timespec, mono0: Timespec, mono1: Timespec)
    ensures Nanos(TimespecAdd(TimespecSub(set0, mono0), mono1)) == Nanos(set0) + (Nanos(mono1) - Nanos(mono0))
    ensures Normal(set0) && Normal(mono0) && Normal(mono1) ==>
              && Normal(TimespecAdd(TimespecSub(set0, mono0), mono1))
              && (mono1 == mono0 ==> TimespecAdd(TimespecSub(set0, mono0), mono1) == set0)
              && (Before(mono0, mono1) ==> Before(set0, TimespecAdd(TimespecSub(set0, mono0), mono1)))
  {
    var t := TimespecAdd(TimespecSub(set0, mono0), mono1);
    if Normal(set0) && Normal(mono0) && Normal(mono1) && mono1 == mono0 {
      NanosDetermine(t, set0);
    }
  }
}

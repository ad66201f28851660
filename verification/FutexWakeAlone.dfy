/** A wake that nobody disturbs: it marks and interrupts exactly the first matching waiters, up to its limit. */
module FutexWakeAlone {

  import opened Common
  import opened Futex
  import opened FutexSafety
  import opened FutexAlone

  /** CPU `j` is another CPU whose slot a wake looks for. */
  predicate Wanted(slot: seq<Slot>, c: nat, k: WakeCall, j: nat)
    requires j < |slot|
  {
    j != c && Wants(slot[j], k)
  }

  predicate Wants(slot: Slot, k: WakeCall) {
    slot.uaddr == k.uaddr && slot.bitset & k.bitset != 0
  }

  /** The number of wanted CPUs from `lo` up to and without `hi`. */
  function Count(slot: seq<Slot>, c: nat, k: WakeCall, lo: nat, hi: nat): (n: nat)
    requires lo <= hi <= |slot|
    decreases hi - lo
  {
    if lo == hi then 0 else (if Wanted(slot, c, k, lo) then 1 else 0) + Count(slot, c, k, lo + 1, hi)
  }

  /** The wake, having counted `cnt` below `i`, marks CPU `j`: it is wanted and the limit is not reached before it. */
  predicate Picked(slot: seq<Slot>, c: nat, k: WakeCall, i: nat, cnt: nat, j: nat)
    requires i <= j < |slot|
  {
    Wanted(slot, c, k, j) && cnt + Count(slot, c, k, i, j) < k.max
  }

  // ----- one visit --------------------------------------------------------------------------

  /** CPU `c` is in its wake with the lock word and holder of CPU `i` as given. */
  function Visiting(s: State, c: nat, at: WakeAt, lock: Spinlock): State
    requires WellFormed(s) && c < |s.pc| && s.pc[c].Wake? && s.pc[c].i < |s.pc|
  {
    s.(pc := s.pc[c := s.pc[c].(wat := at)], lock := s.lock[s.pc[c].i := lock])
  }

  /** At the loop's test, with another CPU to visit whose lock is free. */
  predicate AtVisit(s: State, c: nat) {
    && InRange(s) && c < |s.pc| && s.pc[c].Wake? && s.pc[c].wat == Loop
    && s.pc[c].i < |s.pc| && s.pc[c].i != c && s.pc[c].cnt < s.pc[c].wake.max && !s.lock[s.pc[c].i].val
  }

  /** The state after the visit. */
  function Visited(s: State, c: nat): State
    requires AtVisit(s, c)
  {
    var p := s.pc[c];
    var t := s.(lock := s.lock[p.i := Spinlock(false, -1)]);
    if Wanted(s.slot, c, p.wake, p.i) then
      t.(pc := s.pc[c := p.(i := p.i + 1, cnt := p.cnt + 1)],
         slot := s.slot[p.i := s.slot[p.i].(wakeup := true)], msip := s.msip[p.i := true])
    else t.(pc := s.pc[c := p.(i := p.i + 1)])
  }

  lemma {:induction false} AloneJoined(s: State, c: nat, m: nat, n: nat)
    ensures Alone(s, c, m + n) == Alone(Alone(s, c, m), c, n)
    decreases m
  {
    hide Step;
    if m > 0 && InRange(s) && c < |s.pc| {
      AloneJoined(Step(s, Act(c, Go)), c, m - 1, n);
    } else if m > 0 {
      Stuck(s, c, m + n);
      Stuck(s, c, n);
    }
  }

  lemma Stuck(s: State, c: nat, n: nat)
    requires !InRange(s) || c >= |s.pc|
    ensures Alone(s, c, n) == s
  {
  }

  /** Three own steps are three steps. */
  lemma Three(s: State, c: nat, t: State, u: State, v: State)
    requires InRange(s) && InRange(t) && InRange(u) && c < |s.pc| == |t.pc| == |u.pc|
    requires t == Step(s, Act(c, Go)) && u == Step(t, Act(c, Go)) && v == Step(u, Act(c, Go))
    ensures Alone(s, c, 1) == t && Alone(s, c, 2) == u && Alone(s, c, 3) == v
  {
    hide Step, InRange;
    assert Alone(v, c, 0) == v && Alone(u, c, 0) == u && Alone(t, c, 0) == t;
    assert Alone(u, c, 1) == v && Alone(t, c, 1) == u;
    assert Alone(t, c, 2) == v;
  }

  lemma EnterVisit(s: State, c: nat)
    requires AtVisit(s, c)
    ensures Alone(s, c, 3) == Visiting(s, c, CheckUaddr, Spinlock(true, c))
  {
    var i := s.pc[c].i;
    var t := Visiting(s, c, Lock, s.lock[i]);
    var u := Visiting(s, c, LockId, s.lock[i].(val := true));
    var v := Visiting(s, c, CheckUaddr, Spinlock(true, c));
    assert t == Step(s, Act(c, Go));
    assert u == Step(t, Act(c, Go));
    assert v == Step(u, Act(c, Go));
    Three(s, c, t, u, v);
  }

  /** A wanted CPU: check, check, mark, release, interrupt. */
  lemma MarkVisit(s: State, c: nat)
    requires AtVisit(s, c) && Wanted(s.slot, c, s.pc[c].wake, s.pc[c].i)
    ensures Alone(s, c, 9) == Visited(s, c)
  {
    EnterVisit(s, c);
    CheckAndMark(s, c);
    ReleaseAndRaise(s, c);
    hide Step, AtVisit, Visited, Visiting, Wanted, InRange;
    AloneJoined(s, c, 3, 3);
    AloneJoined(s, c, 6, 3);
  }

  function Marked(s: State, c: nat, at: WakeAt, lock: Spinlock): State
    requires WellFormed(s) && c < |s.pc| && s.pc[c].Wake? && s.pc[c].i < |s.pc|
  {
    var i := s.pc[c].i;
    Visiting(s, c, at, lock).(slot := s.slot[i := s.slot[i].(wakeup := true)])
  }

  lemma CheckAndMark(s: State, c: nat)
    requires AtVisit(s, c) && Wanted(s.slot, c, s.pc[c].wake, s.pc[c].i)
    ensures Alone(Visiting(s, c, CheckUaddr, Spinlock(true, c)), c, 3) == Marked(s, c, UnlockId, Spinlock(true, c))
  {
    var r := Visiting(s, c, CheckUaddr, Spinlock(true, c));
    var t := Visiting(s, c, CheckBitset, Spinlock(true, c));
    var u := Visiting(s, c, Mark, Spinlock(true, c));
    var v := Marked(s, c, UnlockId, Spinlock(true, c));
    assert t == Step(r, Act(c, Go));
    assert u == Step(t, Act(c, Go));
    assert v == Step(u, Act(c, Go));
    Three(r, c, t, u, v);
  }

  lemma ReleaseAndRaise(s: State, c: nat)
    requires AtVisit(s, c) && Wanted(s.slot, c, s.pc[c].wake, s.pc[c].i)
    ensures Alone(Marked(s, c, UnlockId, Spinlock(true, c)), c, 3) == Visited(s, c)
  {
    var r := Marked(s, c, UnlockId, Spinlock(true, c));
    var t := Marked(s, c, Unlock, Spinlock(true, -1));
    var u := Marked(s, c, RaiseIpi, Spinlock(false, -1));
    assert t == Step(r, Act(c, Go));
    assert u == Step(t, Act(c, Go));
    assert Visited(s, c) == Step(u, Act(c, Go));
    Three(r, c, t, u, Visited(s, c));
  }

  lemma Release(s: State, c: nat)
    requires AtVisit(s, c) && !Wanted(s.slot, c, s.pc[c].wake, s.pc[c].i)
    ensures Alone(Visiting(s, c, SkipUnlockId, Spinlock(true, c)), c, 2) == Visited(s, c)
  {
    var t := Visiting(s, c, SkipUnlockId, Spinlock(true, c));
    var u := Visiting(s, c, SkipUnlock, Spinlock(true, -1));
    assert u == Step(t, Act(c, Go));
    assert Visited(s, c) == Step(u, Act(c, Go));
    One(u, c);
    AloneJoined(t, c, 1, 1);
    One(t, c);
  }

  lemma One(s: State, c: nat)
    requires InRange(s) && c < |s.pc|
    ensures Alone(s, c, 1) == Step(s, Act(c, Go))
  {
    hide Step;
    assert Alone(Step(s, Act(c, Go)), c, 0) == Step(s, Act(c, Go));
  }

  /** A CPU that waits for another address: one check and release. */
  lemma SkipByAddress(s: State, c: nat)
    requires AtVisit(s, c) && s.slot[s.pc[c].i].uaddr != s.pc[c].wake.uaddr
    ensures Alone(s, c, 6) == Visited(s, c)
  {
    EnterVisit(s, c);
    var r := Visiting(s, c, CheckUaddr, Spinlock(true, c));
    assert Visiting(s, c, SkipUnlockId, Spinlock(true, c)) == Step(r, Act(c, Go));
    One(r, c);
    Release(s, c);
    AloneJoined(s, c, 3, 1);
    AloneJoined(s, c, 4, 2);
  }

  /** A CPU whose bits do not match: one more check. */
  lemma SkipByBits(s: State, c: nat)
    requires AtVisit(s, c) && !Wanted(s.slot, c, s.pc[c].wake, s.pc[c].i)
    requires s.slot[s.pc[c].i].uaddr == s.pc[c].wake.uaddr
    ensures Alone(s, c, 7) == Visited(s, c)
  {
    EnterVisit(s, c);
    var r, t := Visiting(s, c, CheckUaddr, Spinlock(true, c)), Visiting(s, c, CheckBitset, Spinlock(true, c));
    assert t == Step(r, Act(c, Go));
    assert Visiting(s, c, SkipUnlockId, Spinlock(true, c)) == Step(t, Act(c, Go));
    One(r, c);
    One(t, c);
    Release(s, c);
    AloneJoined(s, c, 3, 1);
    AloneJoined(s, c, 4, 1);
    AloneJoined(s, c, 5, 2);
  }

  lemma Visit(s: State, c: nat) returns (n: nat)
    requires AtVisit(s, c)
    ensures 1 <= n <= 9 && Alone(s, c, n) == Visited(s, c)
  {
    hide Alone, Visited;
    if Wanted(s.slot, c, s.pc[c].wake, s.pc[c].i) {
      MarkVisit(s, c);
      n := 9;
    } else if s.slot[s.pc[c].i].uaddr != s.pc[c].wake.uaddr {
      SkipByAddress(s, c);
      n := 6;
    } else {
      SkipByBits(s, c);
      n := 7;
    }
  }

  // ----- the whole wake ---------------------------------------------------------------------

  lemma WantedSame(slot: seq<Slot>, slot': seq<Slot>, c: nat, k: WakeCall, j: nat)
    requires j < |slot| == |slot'| && slot[j] == slot'[j]
    ensures Wanted(slot, c, k, j) == Wanted(slot', c, k, j)
  {
    hide Wants;
  }

  lemma {:induction false} CountSame(slot: seq<Slot>, slot': seq<Slot>, c: nat, k: WakeCall, lo: nat, hi: nat)
    requires lo <= hi <= |slot| == |slot'|
    requires forall j :: lo <= j < hi ==> slot[j] == slot'[j]
    ensures Count(slot, c, k, lo, hi) == Count(slot', c, k, lo, hi)
    decreases hi - lo
  {
    hide Wanted;
    if lo < hi {
      WantedSame(slot, slot', c, k, lo);
      CountSame(slot, slot', c, k, lo + 1, hi);
    }
  }

  /** What the wake of CPU `c`, now at the loop's test in `s`, has done when it is back in user mode in `t`. */
  ghost predicate Done(s: State, t: State, c: nat)
    requires WellFormed(s) && c < |s.pc| && s.pc[c].Wake? && s.pc[c].i <= |s.pc|
  {
    var p := s.pc[c];
    && WellFormed(t) && t.pc == s.pc[c := User] && t.mem == s.mem
    && (forall j :: 0 <= j < |s.pc| ==>
          if j >= p.i && Picked(s.slot, c, p.wake, p.i, p.cnt, j)
          then t.slot[j] == s.slot[j].(wakeup := true) && t.msip[j]
          else t.slot[j] == s.slot[j] && t.msip[j] == s.msip[j])
  }

  /** The count a wake returns that has counted `cnt` below `i`. */
  function Result(slot: seq<Slot>, c: nat, k: WakeCall, i: nat, cnt: nat): int
    requires i <= |slot|
  {
    if cnt >= k.max then cnt else Min(k.max, cnt + Count(slot, c, k, i, |slot|))
  }

  /** At the loop's test, with every lock ahead free. */
  ghost predicate AtLoop(s: State, c: nat) {
    && InRange(s) && c < |s.pc| && s.pc[c].Wake? && s.pc[c].wat == Loop && s.pc[c].i <= |s.pc|
    && (forall j :: s.pc[c].i <= j < |s.pc| && j != c ==> !s.lock[j].val)
  }

  lemma VisitedLoop(s: State, c: nat)
    requires AtVisit(s, c) && AtLoop(s, c)
    ensures AtLoop(Visited(s, c), c) && Visited(s, c).pc[c].i == s.pc[c].i + 1
    ensures |Visited(s, c).pc| == |s.pc|
  {
  }

  lemma PickedAfterVisit(s: State, c: nat, j: nat)
    requires AtVisit(s, c) && s.pc[c].i < j < |s.pc|
    ensures var u := Visited(s, c);
            Picked(s.slot, c, s.pc[c].wake, s.pc[c].i, s.pc[c].cnt, j)
            == Picked(u.slot, c, u.pc[c].wake, u.pc[c].i, u.pc[c].cnt, j)
  {
    CountSame(s.slot, Visited(s, c).slot, c, s.pc[c].wake, s.pc[c].i + 1, j);
  }

  lemma ResultAfterVisit(s: State, c: nat)
    requires AtVisit(s, c)
    ensures var u := Visited(s, c);
            Result(s.slot, c, s.pc[c].wake, s.pc[c].i, s.pc[c].cnt)
            == Result(u.slot, c, u.pc[c].wake, u.pc[c].i, u.pc[c].cnt)
  {
    CountSame(s.slot, Visited(s, c).slot, c, s.pc[c].wake, s.pc[c].i + 1, |s.pc|);
  }

  lemma DoneAfterVisit(s: State, t: State, c: nat)
    requires AtVisit(s, c) && Done(Visited(s, c), t, c)
    ensures Done(s, t, c)
  {
    var i := s.pc[c].i;
    forall j | i < j < |s.pc|
      ensures var u := Visited(s, c);
              Picked(s.slot, c, s.pc[c].wake, i, s.pc[c].cnt, j)
              == Picked(u.slot, c, u.pc[c].wake, u.pc[c].i, u.pc[c].cnt, j)
    {
      PickedAfterVisit(s, c, j);
    }
  }

  /** The loop's test on the CPU's own number only moves on. */
  lemma OwnTurn(s: State, c: nat)
    requires AtLoop(s, c) && s.pc[c].i == c && s.pc[c].cnt < s.pc[c].wake.max
    ensures var u := s.(pc := s.pc[c := s.pc[c].(i := c + 1)]);
            && Step(s, Act(c, Go)) == u && AtLoop(u, c)
            && (forall t :: Done(u, t, c) ==> Done(s, t, c))
            && Result(s.slot, c, s.pc[c].wake, c, s.pc[c].cnt) == Result(u.slot, c, u.pc[c].wake, c + 1, u.pc[c].cnt)
  {
    var u := s.(pc := s.pc[c := s.pc[c].(i := c + 1)]);
    assert !Wanted(s.slot, c, s.pc[c].wake, c);
    forall j | c < j < |s.pc|
      ensures Picked(s.slot, c, s.pc[c].wake, c, s.pc[c].cnt, j)
           == Picked(u.slot, c, u.pc[c].wake, c + 1, u.pc[c].cnt, j)
    {
      hide Wanted;
    }
  }

  /** The loop's test fails: the wake returns. */
  lemma Returns(s: State, c: nat)
    requires AtLoop(s, c) && (s.pc[c].i == |s.pc| || s.pc[c].cnt >= s.pc[c].wake.max)
    ensures Step(s, Act(c, Go)) == s.(pc := s.pc[c := User]) && Done(s, Step(s, Act(c, Go)), c)
    ensures Result(s.slot, c, s.pc[c].wake, s.pc[c].i, s.pc[c].cnt) == s.pc[c].cnt
  {
  }

  /**
   From the loop's test, with the locks ahead free, the wake returns within ten own steps a CPU; it has
   marked and interrupted exactly the wanted CPUs below its limit, and its last count is their number.
   */
  lemma {:induction false} WakeRuns(s: State, c: nat) returns (n: nat)
    requires AtLoop(s, c)
    ensures n <= 9 * (|s.pc| - s.pc[c].i) && Done(s, Alone(s, c, n + 1), c)
    ensures var u := Alone(s, c, n);
            && c < |u.pc| && u.pc[c].Wake?
            && u.pc[c].cnt == Result(s.slot, c, s.pc[c].wake, s.pc[c].i, s.pc[c].cnt)
    decreases |s.pc| - s.pc[c].i
  {
    hide Step, Done, Visited, Result;
    var p := s.pc[c];
    if p.i == |s.pc| || p.cnt >= p.wake.max {
      Returns(s, c);
      One(s, c);
      n := 0;
    } else if p.i == c {
      OwnTurn(s, c);
      var u := Step(s, Act(c, Go));
      var m := WakeRuns(u, c);
      One(s, c);
      n := 1 + m;
      AloneJoined(s, c, 1, m);
      AloneJoined(s, c, 1, m + 1);
    } else {
      var k := Visit(s, c);
      VisitedLoop(s, c);
      var u := Visited(s, c);
      var m := WakeRuns(u, c);
      ResultAfterVisit(s, c);
      DoneAfterVisit(s, Alone(u, c, m + 1), c);
      n := k + m;
      AloneJoined(s, c, k, m);
      AloneJoined(s, c, k, m + 1);
    }
  }

  /**
   A wake that nobody disturbs, with the other CPUs' locks free: it returns the smaller of its limit and
   the number of other CPUs that wait for the address with a common bit, and has marked and
   interrupted exactly the first of them.
   */
  lemma WakeAlone(s: State, c: nat, k: WakeCall) returns (n: nat)
    requires InRange(s) && c < |s.pc| && s.pc[c] == User && k.bitset != 0
    requires forall j :: 0 <= j < |s.pc| && j != c ==> !s.lock[j].val
    ensures var t := Step(s, Act(c, CallWake(k)));
            var u, v := Alone(t, c, n), Alone(t, c, n + 1);
            && n <= 9 * |s.pc| && WellFormed(v) && v.pc == s.pc && v.mem == s.mem
            && c < |u.pc| && u.pc[c].Wake? && u.pc[c].cnt == Max(0, Min(k.max, Count(s.slot, c, k, 0, |s.pc|)))
            && forall j :: 0 <= j < |s.pc| ==>
                 if Wanted(s.slot, c, k, j) && Count(s.slot, c, k, 0, j) < k.max
                 then v.slot[j] == s.slot[j].(wakeup := true) && v.msip[j]
                 else v.slot[j] == s.slot[j] && v.msip[j] == s.msip[j]
  {
    CallsEnter(s, c, WaitCall(0, 0, 1), k);
    var t := Step(s, Act(c, CallWake(k)));
    n := WakeRuns(t, c);
    assert t.pc[c := User] == s.pc;
  }
}

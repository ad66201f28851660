/**
 Properties of whole runs of the futex protocol: no wake-up is lost, and the values returned by
 wait and wake are justified by steps of the run.
 */
module FutexRuns {
  import opened Futex
  import opened FutexSafety
  import FutexAlone

  datatype Run = Run(states: seq<State>, acts: seq<Act>)

  ghost predicate IsRun(r: Run) {
    && |r.states| == |r.acts| + 1
    && Init(r.states[0])
    && (forall n :: 0 <= n < |r.acts| ==> StepAt(r, n))
  }

  /** Step `n` of the run is one CPU's step. */
  ghost predicate StepAt(r: Run, n: nat)
    requires n < |r.acts| < |r.states|
  {
    var s, a := r.states[n], r.acts[n];
    InRange(s) && a.cpu < |s.pc| && r.states[n + 1] == Step(s, a)
  }

  /** Every state of a run satisfies the protocol invariant, for any number of CPUs. */
  lemma {:induction false} Reachable(r: Run, n: nat)
    requires IsRun(r) && n < |r.states|
    ensures Inv(r.states[n]) && |r.states[n].pc| == |r.states[0].pc|
  {
    if n == 0 {
      InitInv(r.states[0]);
    } else {
      Reachable(r, n - 1);
      assert StepAt(r, n - 1);
      StepInv(r.states[n - 1], r.acts[n - 1]);
    }
  }

  lemma SameCpus(r: Run, n: nat)
    requires IsRun(r) && n < |r.states|
    ensures |r.states[n].pc| == |r.states[0].pc|
  {
    Reachable(r, n);
  }

  lemma ReachableAll(r: Run)
    requires IsRun(r)
    ensures forall n :: 0 <= n < |r.states| ==> Inv(r.states[n]) && |r.states[n].pc| == |r.states[0].pc|
  {
    forall n | 0 <= n < |r.states| ensures Inv(r.states[n]) && |r.states[n].pc| == |r.states[0].pc| {
      Reachable(r, n);
    }
  }

  ghost predicate LockWordMatches(s: State, k: nat) {
    && WellFormed(s) && k < |s.pc|
    && (s.lock[k].val <==> exists c :: 0 <= c < |s.pc| && Holds(s.pc[c], c) == k)
  }

  /** In every reachable state each lock has at most one holder, and its word is 1 exactly when it has one. */
  lemma SpinlockMutualExclusion(r: Run, n: nat, k: nat)
    requires IsRun(r) && n < |r.states| && k < |r.states[n].pc|
    ensures LockWordMatches(r.states[n], k)
    ensures forall c, d :: 0 <= c < d < |r.states[n].pc| && Holds(r.states[n].pc[c], c) == k ==>
              Holds(r.states[n].pc[d], d) != k
  {
    Reachable(r, n);
  }

  /** When no wake is between marking and raising its interrupt, every marked sleeper has its bit pending. */
  lemma MarkedSleeperPending(r: Run, n: nat, i: nat)
    requires IsRun(r) && n < |r.states| && i < |r.states[n].pc|
    requires r.states[n].pc[i].Wait? && r.states[n].pc[i].at == Wfi
    requires WellFormed(r.states[n]) && r.states[n].slot[i].wakeup
    requires forall c :: 0 <= c < |r.states[n].pc| ==> !IpiOnTheWay(r.states[n].pc[c], i)
    ensures r.states[n].msip[i]
  {
    Reachable(r, n);
  }

  // ----- user words over a run --------------------------------------------------------------

  /** The value last stored at address `a` before state `n`, or the one it had at first. */
  ghost function LastStored(r: Run, a: nat, n: nat): int
    requires |r.states| == |r.acts| + 1 && n < |r.states|
  {
    if n == 0 then Word(r.states[0], a)
    else
      var s, act := r.states[n - 1], r.acts[n - 1];
      if act.cpu < |s.pc| && s.pc[act.cpu] == User && act.choice.Store? && act.choice.addr == a then act.choice.word
      else LastStored(r, a, n - 1)
  }

  lemma {:induction false} WordIsLastStored(r: Run, a: nat, n: nat)
    requires IsRun(r) && n < |r.states|
    ensures Word(r.states[n], a) == LastStored(r, a, n)
  {
    if n > 0 {
      WordIsLastStored(r, a, n - 1);
      assert StepAt(r, n - 1);
      var s, act := r.states[n - 1], r.acts[n - 1];
      hide Step, Word;
      if s.pc[act.cpu] == User && act.choice.Store? {
        FutexAlone.StoreWord(s, act.cpu, act.choice.addr, act.choice.word, a);
      } else {
        FutexAlone.WordsKept(s, act, a);
      }
    }
  }

  /**
   A wait called in any reachable state with its lock free and left alone: it is parked after ten own
   steps if and only if the value last stored at its address is the awaited one; otherwise it has
   returned -EWOULDBLOCK after eighteen.
   */
  lemma WaitParksIff(r: Run, n: nat, c: nat, w: WaitCall)
    requires IsRun(r) && n < |r.states| && c < |r.states[n].pc| && r.states[n].pc[c] == User
    requires w.bitset != 0 && WellFormed(r.states[n]) && !r.states[n].lock[c].val
    ensures InRange(r.states[n])
    ensures var s := r.states[n];
            var t := Step(s, Act(c, CallWait(w)));
            && (FutexAlone.Alone(t, c, 10) == FutexAlone.Local(s, c, FutexAlone.Registered(w, Wfi))
                <==> LastStored(r, w.uaddr, n) == w.val)
            && (LastStored(r, w.uaddr, n) != w.val ==>
                  && FutexAlone.Alone(t, c, 17).pc == s.pc[c := Wait(Unlock2, w, -EWOULDBLOCK)]
                  && FutexAlone.Alone(t, c, 18)
                     == FutexAlone.Local(s, c, FutexAlone.Here(User, Spinlock(false, -1), EMPTY)))
  {
    InRangeAt(r, n);
    hide Step, Word, FutexAlone.Alone, FutexAlone.Local, InRange, IsRun, LastStored;
    WordIsLastStored(r, w.uaddr, n);
    FutexAlone.ParksIff(r.states[n], c, w);
  }

  lemma InRangeAt(r: Run, n: nat)
    requires IsRun(r) && n < |r.states|
    ensures InRange(r.states[n])
  {
    Reachable(r, n);
  }

  // ----- no lost wake-up --------------------------------------------------------------------

  predicate Parked(p: Pc, w: WaitCall) {
    p.Wait? && p.at == Wfi && p.wait == w
  }

  /** CPU `i` is asleep in call `w` in every state from `j` to `n`. */
  ghost predicate Asleep(r: Run, j: nat, n: nat, i: nat, w: WaitCall) {
    && j <= n < |r.states|
    && (forall m :: j <= m <= n ==> AsleepAt(r.states[m], i, w, |r.states[0].pc|))
  }

  predicate AsleepAt(s: State, i: nat, w: WaitCall, cpus: nat) {
    WellFormed(s) && |s.pc| == cpus && i < cpus && Parked(s.pc[i], w)
  }

  /** One step cannot put CPU `i` to sleep on a word that already differs from the awaited value. */
  lemma NoEntry(s: State, a: Act, i: nat, w: WaitCall)
    requires Inv(s) && a.cpu < |s.pc| && i < |s.pc| && |Step(s, a).pc| == |s.pc|
    requires Parked(Step(s, a).pc[i], w) && Word(s, w.uaddr) != w.val
    ensures Parked(s.pc[i], w)
  {
    assert s.slot[i] == SlotOf(s.pc[i], s.slot[i].wakeup);
    assert Checked(s.pc[a.cpu], s.slot);
    OwnCheck(s, a);
    if i == a.cpu && s.pc[i].Wait? {
      NoEntryWait(s, a, w);
    }
  }

  lemma NoEntryWait(s: State, a: Act, w: WaitCall)
    requires WellFormed(s) && a.cpu < |s.pc| && s.pc[a.cpu].Wait?
    requires s.slot[a.cpu] == SlotOf(s.pc[a.cpu], s.slot[a.cpu].wakeup)
    requires a.cpu < |WaitStep(s, a.cpu, a.choice).pc| && Parked(WaitStep(s, a.cpu, a.choice).pc[a.cpu], w)
    requires Word(s, w.uaddr) != w.val
    ensures Parked(s.pc[a.cpu], w)
  {
    match s.pc[a.cpu].at
    case Wfi =>
    case _ =>
  }

  lemma {:induction false} ParkedThroughout(r: Run, j: nat, n: nat, i: nat, w: WaitCall)
    requires IsRun(r) && j <= n < |r.states| && i < |r.states[0].pc|
    requires |r.states[n].pc| == |r.states[0].pc| && Parked(r.states[n].pc[i], w)
    requires forall m :: j <= m <= n ==> Word(r.states[m], w.uaddr) != w.val
    ensures |r.states[j].pc| == |r.states[0].pc| && Parked(r.states[j].pc[i], w)
    decreases n - j
  {
    if j < n {
      ParkedThroughout(r, j + 1, n, i, w);
      Reachable(r, j);
      assert StepAt(r, j);
      NoEntry(r.states[j], r.acts[j], i, w);
    }
  }

  /** CPU `c` is looking at CPU `i` and has not marked it yet. */
  predicate Visiting(p: Pc, w: WakeCall, i: nat) {
    p.Wake? && p.wake == w && p.i == i && (p.wat.CheckUaddr? || p.wat.CheckBitset? || p.wat.Mark?)
  }

  predicate Signalled(s: State, c: nat, w: WakeCall, i: nat)
    requires WellFormed(s) && c < |s.pc| && i < |s.pc|
  {
    s.slot[i].wakeup && (s.msip[i] || IpiOnTheWay(s.pc[c], i))
  }

  /** A sleeper that stays asleep goes from "being looked at" to "marked" to "pending", and never back. */
  lemma VisitStep(s: State, a: Act, c: nat, i: nat, wk: WakeCall, w: WaitCall)
    requires Inv(s) && a.cpu < |s.pc| && c < |s.pc| && i < |s.pc| && |Step(s, a).pc| == |s.pc| && WellFormed(Step(s, a))
    requires Parked(s.pc[i], w) && Parked(Step(s, a).pc[i], w) && w.uaddr == wk.uaddr && w.bitset & wk.bitset != 0
    requires Visiting(s.pc[c], wk, i) || Signalled(s, c, wk, i)
    ensures Visiting(Step(s, a).pc[c], wk, i) || Signalled(Step(s, a), c, wk, i)
  {
    hide Inv, Step, WakeStep, PcInRange;
    SleeperStep(s, a, i, w);
    if a.cpu == c && s.pc[c].Wake? {
      VisitOwn(s, c, i, wk);
    }
  }

  lemma SleeperStep(s: State, a: Act, i: nat, w: WaitCall)
    requires Inv(s) && a.cpu < |s.pc| && i < |s.pc|
    requires var t := Step(s, a); WellFormed(t) && |t.pc| == |s.pc| && Parked(s.pc[i], w) && Parked(t.pc[i], w)
    ensures InRange(s) && PcInRange(s.pc[a.cpu], a.cpu, |s.pc|) && s.slot[i] == SlotOf(s.pc[i], s.slot[i].wakeup)
    ensures s.pc[a.cpu].Wake? ==> Step(s, a) == WakeStep(s, a.cpu)
    ensures Step(s, a).pc == s.pc[a.cpu := Step(s, a).pc[a.cpu]]
    ensures s.slot[i].wakeup ==> Step(s, a).slot[i].wakeup
    ensures s.msip[i] ==> Step(s, a).msip[i]
  {
    hide WakeStep;
    assert s.slot[a.cpu] == SlotOf(s.pc[a.cpu], s.slot[a.cpu].wakeup);
    assert Checked(s.pc[a.cpu], s.slot) && PcInRange(s.pc[a.cpu], a.cpu, |s.pc|);
    OwnCheck(s, a);
    SleeperKept(s, a, i, w);
  }

  lemma SleeperKept(s: State, a: Act, i: nat, w: WaitCall)
    requires InRange(s) && a.cpu < |s.pc| && i < |s.pc|
    requires s.slot[a.cpu] == SlotOf(s.pc[a.cpu], s.slot[a.cpu].wakeup) && PcInRange(s.pc[a.cpu], a.cpu, |s.pc|)
    requires var t := Step(s, a); WellFormed(t) && |t.pc| == |s.pc| && Parked(s.pc[i], w) && Parked(t.pc[i], w)
    ensures s.slot[i].wakeup ==> Step(s, a).slot[i].wakeup
    ensures s.msip[i] ==> Step(s, a).msip[i]
  {
    if s.pc[a.cpu].Wait? { SleeperKeptWait(s, a, i, w); }
  }

  lemma SleeperKeptWait(s: State, a: Act, i: nat, w: WaitCall)
    requires WellFormed(s) && a.cpu < |s.pc| && i < |s.pc| && s.pc[a.cpu].Wait?
    requires s.slot[a.cpu] == SlotOf(s.pc[a.cpu], s.slot[a.cpu].wakeup)
    requires var t := WaitStep(s, a.cpu, a.choice);
             WellFormed(t) && |t.pc| == |s.pc| && Parked(s.pc[i], w) && Parked(t.pc[i], w)
    ensures s.slot[i].wakeup ==> WaitStep(s, a.cpu, a.choice).slot[i].wakeup
    ensures s.msip[i] ==> WaitStep(s, a.cpu, a.choice).msip[i]
  {
    OwnSlotWait(s, a);
    var t := WaitStep(s, a.cpu, a.choice);
    assert t.msip == s.msip || (t.msip == s.msip[a.cpu := false] && s.pc[a.cpu].at == IntrWindow);
  }

  lemma VisitOwn(s: State, c: nat, i: nat, wk: WakeCall)
    requires InRange(s) && c < |s.pc| && i < |s.pc| && s.pc[c].Wake? && PcInRange(s.pc[c], c, |s.pc|)
    requires Matches(s.slot[i], wk) && |WakeStep(s, c).pc| == |s.pc| && WellFormed(WakeStep(s, c))
    requires Visiting(s.pc[c], wk, i) || Signalled(s, c, wk, i)
    ensures Visiting(WakeStep(s, c).pc[c], wk, i) || Signalled(WakeStep(s, c), c, wk, i)
  {}

  /** From the moment a wake looks at a matching sleeper, the sleeper is on its way to both flags. */
  lemma {:induction false} VisitSignals(r: Run, j: nat, n: nat, c: nat, i: nat, wk: WakeCall, w: WaitCall)
    requires IsRun(r) && Asleep(r, j, n, i, w) && c < |r.states[0].pc|
    requires w.uaddr == wk.uaddr && w.bitset & wk.bitset != 0
    requires AsleepAt(r.states[j], i, w, |r.states[0].pc|)
    requires Visiting(r.states[j].pc[c], wk, i) || Signalled(r.states[j], c, wk, i)
    ensures AsleepAt(r.states[n], i, w, |r.states[0].pc|)
    ensures Visiting(r.states[n].pc[c], wk, i) || Signalled(r.states[n], c, wk, i)
    ensures !Visiting(r.states[n].pc[c], wk, i) && !IpiOnTheWay(r.states[n].pc[c], i) ==>
              r.states[n].slot[i].wakeup && r.states[n].msip[i]
    decreases n - j
  {
    if j < n {
      Reachable(r, j);
      assert StepAt(r, j);
      assert AsleepAt(r.states[j + 1], i, w, |r.states[0].pc|);
      VisitStep(r.states[j], r.acts[j], c, i, wk, w);
      VisitSignals(r, j + 1, n, c, i, wk, w);
    }
  }

  /**
   No lost wake-up.  If a user word differs from the value CPU `i` waits for, from the moment a
   matching wake looks at CPU `i` and ever after, then once that wake has gone on to another CPU
   (or returned), CPU `i` is never asleep without both its wake-up flag and its pending bit set.
   */
  lemma NoLostWakeup(r: Run, j: nat, e: nat, n: nat, c: nat, i: nat, wk: WakeCall, w: WaitCall)
    requires IsRun(r) && j <= e <= n < |r.states| && c < |r.states[0].pc| && i < |r.states[0].pc|
    requires c < |r.states[j].pc| && Visiting(r.states[j].pc[c], wk, i)
    requires c < |r.states[e].pc| && !Visiting(r.states[e].pc[c], wk, i) && !IpiOnTheWay(r.states[e].pc[c], i)
    requires i < |r.states[n].pc| && Parked(r.states[n].pc[i], w)
    requires w.uaddr == wk.uaddr && w.bitset & wk.bitset != 0
    requires forall m :: j <= m <= n ==> Word(r.states[m], w.uaddr) != w.val
    ensures WellFormed(r.states[n]) && r.states[n].slot[i].wakeup && r.states[n].msip[i]
  {
    ReachableAll(r);
    forall m | j <= m <= n ensures AsleepAt(r.states[m], i, w, |r.states[0].pc|) {
      ParkedThroughout(r, m, n, i, w);
    }
    assert Asleep(r, j, e, i, w) && Asleep(r, e, n, i, w);
    VisitSignals(r, j, e, c, i, wk, w);
    BothFlagsStay(r, e, n, i, w);
  }

  lemma {:induction false} BothFlagsStay(r: Run, e: nat, n: nat, i: nat, w: WaitCall)
    requires IsRun(r) && Asleep(r, e, n, i, w) && AsleepAt(r.states[e], i, w, |r.states[0].pc|)
    requires r.states[e].slot[i].wakeup && r.states[e].msip[i]
    ensures AsleepAt(r.states[n], i, w, |r.states[0].pc|) && r.states[n].slot[i].wakeup && r.states[n].msip[i]
    decreases n - e
  {
    if e < n {
      Reachable(r, e);
      assert StepAt(r, e);
      var s, a := r.states[e], r.acts[e];
      assert s.slot[a.cpu] == SlotOf(s.pc[a.cpu], s.slot[a.cpu].wakeup) && PcInRange(s.pc[a.cpu], a.cpu, |s.pc|);
      assert AsleepAt(r.states[e + 1], i, w, |r.states[0].pc|);
      SleeperKept(s, a, i, w);
      BothFlagsStay(r, e + 1, n, i, w);
    }
  }

  // ----- what a wake returns ----------------------------------------------------------------

  /** CPU `c` entered wake call `wk` at step `a` and is still inside it in state `n`. */
  ghost predicate InWake(r: Run, c: nat, wk: WakeCall, a: nat, n: nat) {
    && a < n < |r.states| && a < |r.acts| && r.acts[a] == Act(c, CallWake(wk))
    && c < |r.states[a].pc| && r.states[a].pc[c] == User
    && (forall m :: a < m <= n ==> c < |r.states[m].pc| && InsideWake(r.states[m].pc[c], wk))
  }

  predicate InsideWake(p: Pc, wk: WakeCall) {
    p.Wake? && p.wake == wk
  }

  /** The CPUs that CPU `c` marks in the steps from `a` up to `n`, in order. */
  ghost function Marks(r: Run, c: nat, a: nat, n: nat): (ms: seq<nat>)
    requires a <= n <= |r.acts| && |r.states| == |r.acts| + 1
    decreases n - a
  {
    if a == n then []
    else
      Marks(r, c, a, n - 1) +
      (if MarkStep(r.states[n - 1], r.acts[n - 1], c) then [r.states[n - 1].pc[c].i] else [])
  }

  predicate MarkStep(s: State, a: Act, c: nat) {
    a.cpu == c && c < |s.pc| && s.pc[c].Wake? && s.pc[c].wat == Mark
  }

  lemma OwnWake(s: State, c: nat)
    requires InRange(s) && c < |s.pc| && s.pc[c].Wake? && PcInRange(s.pc[c], c, |s.pc|)
    ensures var t := WakeStep(s, c); |t.pc| == |s.pc| && WakeMoves(s.pc[c], t.pc[c], c, |s.pc|)
  {}

  /** How one step moves a program inside a wake call. */
  predicate WakeMoves(p: Pc, q: Pc, c: nat, cpus: nat)
    requires p.Wake?
  {
    match p.wat
    case Loop =>
      if p.i < cpus && p.cnt < p.wake.max
      then q == if p.i == c then p.(i := p.i + 1) else p.(wat := Lock)
      else q == User
    case Lock => q == p || q == p.(wat := LockId)
    case LockId => q == p.(wat := CheckUaddr)
    case CheckUaddr => q == p.(wat := SkipUnlockId) || q == p.(wat := CheckBitset)
    case CheckBitset => q == p.(wat := SkipUnlockId) || q == p.(wat := Mark)
    case SkipUnlockId => q == p.(wat := SkipUnlock)
    case SkipUnlock => q == p.(wat := Loop, i := p.i + 1)
    case Mark => q == p.(wat := UnlockId)
    case UnlockId => q == p.(wat := Unlock)
    case Unlock => q == p.(wat := RaiseIpi)
    case RaiseIpi => q == p.(wat := Loop, i := p.i + 1, cnt := p.cnt + 1)
  }

  /** What the step before state `n` did to a program that is inside a wake call in state `n`. */
  ghost predicate WakePrev(p: Pc, q: Pc, act: Act, c: nat, cpus: nat) {
    || (act.cpu != c && p == q && q.Wake?)
    || (act.cpu == c && p.Wake? && WakeMoves(p, q, c, cpus))
    || (p == User && q.Wake? && act == Act(c, CallWake(q.wake)) && q == Wake(Loop, q.wake, 0, 0))
  }

  lemma WakeBefore(s: State, act: Act, c: nat)
    requires Inv(s) && act.cpu < |s.pc| && c < |s.pc| && c < |Step(s, act).pc| && Step(s, act).pc[c].Wake?
    ensures WakePrev(s.pc[c], Step(s, act).pc[c], act, c, |s.pc|) && PcInRange(s.pc[c], c, |s.pc|)
  {
    assert Checked(s.pc[act.cpu], s.slot) && PcInRange(s.pc[act.cpu], act.cpu, |s.pc|);
    OwnCheck(s, act);
    assert PcInRange(s.pc[c], c, |s.pc|);
    if act.cpu == c {
      match s.pc[c]
      case Wake(_, _, _, _) => OwnWake(s, c);
      case Wait(_, _, _) => WaitNotWake(s, act);
      case _ =>
    }
  }

  lemma WaitNotWake(s: State, act: Act)
    requires WellFormed(s) && act.cpu < |s.pc| && s.pc[act.cpu].Wait?
    ensures var t := WaitStep(s, act.cpu, act.choice); |t.pc| == |s.pc| && !t.pc[act.cpu].Wake?
  {}

  lemma WakeBeforeAt(r: Run, n: nat, c: nat, cpus: nat)
    requires IsRun(r) && n < |r.states| && c < |r.states[n].pc| && r.states[n].pc[c].Wake? && cpus == |r.states[0].pc|
    ensures n > 0 && c < |r.states[n - 1].pc| && c < cpus
    ensures WakePrev(r.states[n - 1].pc[c], r.states[n].pc[c], r.acts[n - 1], c, cpus)
            && PcInRange(r.states[n - 1].pc[c], c, cpus)
  {
    assert n > 0;
    Reachable(r, n - 1);
    assert StepAt(r, n - 1);
    StepInv(r.states[n - 1], r.acts[n - 1]);
    WakeBefore(r.states[n - 1], r.acts[n - 1], c);
  }

  /** A wake call that is under way was entered at some earlier step. */
  lemma {:induction false} WakeEntered(r: Run, c: nat, n: nat) returns (a: nat)
    requires IsRun(r) && n < |r.states| && c < |r.states[n].pc| && r.states[n].pc[c].Wake?
    ensures InWake(r, c, r.states[n].pc[c].wake, a, n)
  {
    WakeBeforeAt(r, n, c, |r.states[0].pc|);
    if r.states[n - 1].pc[c].Wake? {
      a := WakeEntered(r, c, n - 1);
    } else {
      a := n - 1;
    }
  }

  /** The books of a wake call: `ms` lists, in ascending order, the CPUs it has marked. */
  ghost predicate Tally(p: Pc, ms: seq<nat>, c: nat, cpus: nat)
    requires p.Wake?
  {
    var onTheWay := (p.wat.UnlockId? || p.wat.Unlock? || p.wat.RaiseIpi?);
    && |ms| == p.cnt + (if onTheWay then 1 else 0)
    && p.cnt <= (if p.wake.max < 0 then 0 else p.wake.max)
    && (p.wat != Loop ==> p.cnt < p.wake.max)
    && (forall x, y :: 0 <= x < y < |ms| ==> ms[x] < ms[y])
    && (forall x :: 0 <= x < |ms| ==> ms[x] != c && ms[x] < (if onTheWay then p.i + 1 else p.i))
    && (if p.wat == Loop then p.i <= cpus else p.i < cpus)
  }

  lemma {:induction false} WakeTally(r: Run, c: nat, wk: WakeCall, a: nat, n: nat)
    requires IsRun(r) && InWake(r, c, wk, a, n)
    ensures InsideWake(r.states[n].pc[c], wk) && Tally(r.states[n].pc[c], Marks(r, c, a, n), c, |r.states[0].pc|)
    decreases n
  {
    assert InsideWake(r.states[n].pc[c], wk);
    WakeBeforeAt(r, n, c, |r.states[0].pc|);
    if a == n - 1 {
      assert Marks(r, c, a, a) == [];
      assert Marks(r, c, a, n) == [];
    } else {
      assert InsideWake(r.states[n - 1].pc[c], wk) && InWake(r, c, wk, a, n - 1);
      WakeTally(r, c, wk, a, n - 1);
      TallyStep(r.states[n - 1].pc[c], r.states[n].pc[c], r.acts[n - 1], Marks(r, c, a, n - 1), c, |r.states[0].pc|);
    }
  }

  lemma TallyStep(p: Pc, q: Pc, act: Act, ms: seq<nat>, c: nat, cpus: nat)
    requires p.Wake? && q.Wake? && WakePrev(p, q, act, c, cpus) && Tally(p, ms, c, cpus) && PcInRange(p, c, cpus)
    ensures Tally(q, ms + (if act.cpu == c && p.wat == Mark then [p.i] else []), c, cpus)
  {
    if act.cpu == c {
      TallyMoves(p, q, ms, c, cpus);
    } else {
      assert ms + [] == ms;
    }
  }

  lemma TallyMoves(p: Pc, q: Pc, ms: seq<nat>, c: nat, cpus: nat)
    requires p.Wake? && q.Wake? && WakeMoves(p, q, c, cpus) && Tally(p, ms, c, cpus) && PcInRange(p, c, cpus)
    ensures Tally(q, ms + (if p.wat == Mark then [p.i] else []), c, cpus)
  {}

  /** An ascending list without `c` of numbers below `n` has fewer than `n` members when `c` is below `n`. */
  lemma {:induction false} AscendingBound(ms: seq<nat>, n: nat, c: nat)
    requires forall x, y :: 0 <= x < y < |ms| ==> ms[x] < ms[y]
    requires forall x :: 0 <= x < |ms| ==> ms[x] < n && ms[x] != c
    ensures |ms| <= n && (c < n ==> |ms| < n)
  {
    if |ms| > 0 {
      var last := ms[|ms| - 1];
      AscendingBound(ms[..|ms| - 1], last, c);
    }
  }

  /**
   A wake returns exactly the number of slots it marked: distinct CPUs, never itself, at most its
   limit and at most the number of other CPUs.
   */
  lemma WakeResult(r: Run, c: nat, n: nat) returns (a: nat)
    requires IsRun(r) && n < |r.acts| && r.acts[n].cpu == c && c < |r.states[n].pc| && r.states[n].pc[c].Wake?
    requires c < |r.states[n + 1].pc| && r.states[n + 1].pc[c].User?
    ensures InWake(r, c, r.states[n].pc[c].wake, a, n)
    ensures var ms, res, max := Marks(r, c, a, n), r.states[n].pc[c].cnt, r.states[n].pc[c].wake.max;
            && res == |ms| && (forall x, y :: 0 <= x < y < |ms| ==> ms[x] < ms[y]) && c !in ms
            && res < |r.states[0].pc| && (res <= max || res == 0)
            && (res < max ==> r.states[n].pc[c].i == |r.states[0].pc|)
  {
    ReachableAll(r);
    a := WakeEntered(r, c, n);
    var p := r.states[n].pc[c];
    WakeTally(r, c, p.wake, a, n);
    assert StepAt(r, n);
    assert PcInRange(p, c, |r.states[n].pc|);
    OwnWake(r.states[n], c);
    AscendingBound(Marks(r, c, a, n), p.i, c);
  }

  // ----- a wake that is not stopped by its limit reaches every other CPU --------------------

  /** The program has looked at CPU `k` in this call, or is doing so now. */
  predicate LookedAt(p: Pc, k: nat) {
    p.Wake? && (k < p.i || (k == p.i && (!p.wat.Loop? && !p.wat.Lock? && !p.wat.LockId?)))
  }

  lemma {:induction false} WakeVisits(r: Run, c: nat, wk: WakeCall, a: nat, n: nat, k: nat) returns (m: nat)
    requires IsRun(r) && InWake(r, c, wk, a, n) && k != c && LookedAt(r.states[n].pc[c], k)
    ensures a < m <= n && c < |r.states[m].pc| && Visiting(r.states[m].pc[c], wk, k)
    decreases n
  {
    assert InsideWake(r.states[n].pc[c], wk);
    if Visiting(r.states[n].pc[c], wk, k) {
      m := n;
    } else {
      WakeBeforeAt(r, n, c, |r.states[0].pc|);
      assert a < n - 1;
      assert InsideWake(r.states[n - 1].pc[c], wk) && InWake(r, c, wk, a, n - 1);
      m := WakeVisits(r, c, wk, a, n - 1, k);
    }
  }

  /**
   The futex contract end to end: a wake that returns less than its limit leaves no matching
   waiter asleep without its wake-up flag and its interrupt, provided the word already differed
   from the awaited value when the wake began and stays different.
   */
  lemma WakeReachesAllWaiters(r: Run, c: nat, e: nat, n: nat, i: nat, w: WaitCall) returns (a: nat)
    requires IsRun(r) && e < |r.acts| && r.acts[e].cpu == c && c < |r.states[e].pc| && r.states[e].pc[c].Wake?
    requires c < |r.states[e + 1].pc| && r.states[e + 1].pc[c].User?
    requires r.states[e].pc[c].cnt < r.states[e].pc[c].wake.max
    requires e + 1 <= n < |r.states| && i < |r.states[n].pc| && i != c && Parked(r.states[n].pc[i], w)
    requires w.uaddr == r.states[e].pc[c].wake.uaddr && w.bitset & r.states[e].pc[c].wake.bitset != 0
    ensures InWake(r, c, r.states[e].pc[c].wake, a, e)
    ensures (forall m :: a <= m <= n ==> Word(r.states[m], w.uaddr) != w.val) ==>
              WellFormed(r.states[n]) && r.states[n].slot[i].wakeup && r.states[n].msip[i]
  {
    SameCpus(r, e);
    SameCpus(r, n);
    var wk := r.states[e].pc[c].wake;
    a := WakeResult(r, c, e);
    var j := WakeVisits(r, c, wk, a, e, i);
    if forall m :: a <= m <= n ==> Word(r.states[m], w.uaddr) != w.val {
      NoLostWakeup(r, j, e + 1, n, c, i, wk, w);
    }
  }

  // ----- what a wait returns ----------------------------------------------------------------

  /** The program is in wait call `w` and has filled its slot. */
  predicate Registered(p: Pc, w: WaitCall) {
    p.Wait? && p.wait == w
      && (!p.at.Lock1? && !p.at.LockId1? && !p.at.PutUaddr? && !p.at.PutVal? && !p.at.PutBitset? && !p.at.PutWakeup?)
  }

  /** CPU `i` filled its slot for call `w` at step `g` and has been in that call up to state `n`. */
  ghost predicate InWait(r: Run, i: nat, w: WaitCall, g: nat, n: nat) {
    && g < n < |r.states| && g < |r.acts| && r.acts[g].cpu == i
    && i < |r.states[g].pc| && r.states[g].pc[i] == Wait(PutWakeup, w, 0)
    && (forall m :: g < m <= n ==> i < |r.states[m].pc| && Registered(r.states[m].pc[i], w))
  }

  /** A wake on the same word, with a common bit, marks CPU `i` in this step. */
  predicate MarksFor(s: State, a: Act, i: nat, w: WaitCall) {
    && a.cpu < |s.pc| && a.cpu != i && MarkStep(s, a, a.cpu) && s.pc[a.cpu].i == i
    && s.pc[a.cpu].wake.uaddr == w.uaddr && w.bitset & s.pc[a.cpu].wake.bitset != 0
  }

  /** CPU `i` reads a user word that differs from the awaited value in this step. */
  predicate SeesChange(s: State, a: Act, i: nat, w: WaitCall) {
    a.cpu == i < |s.pc| && s.pc[i] == Wait(TestWord, w, 0) && Word(s, w.uaddr) != w.val
  }

  ghost predicate Marked(r: Run, i: nat, w: WaitCall, g: nat, n: nat)
    requires |r.states| == |r.acts| + 1
  {
    exists m :: g < m < n <= |r.acts| && MarksFor(r.states[m], r.acts[m], i, w)
  }

  ghost predicate Changed(r: Run, i: nat, w: WaitCall, g: nat, n: nat)
    requires |r.states| == |r.acts| + 1
  {
    exists m :: g < m < n <= |r.acts| && SeesChange(r.states[m], r.acts[m], i, w)
  }

  /** What one step did to a program that is registered afterwards, and to its wake-up flag. */
  ghost predicate WaitPrev(s: State, a: Act, t: State, i: nat, w: WaitCall)
    requires WellFormed(s) && WellFormed(t) && i < |s.pc| && i < |t.pc| && Registered(t.pc[i], w)
  {
    var p, q := s.pc[i], t.pc[i];
    if Registered(p, w) then
      && (t.slot[i].wakeup ==> s.slot[i].wakeup || MarksFor(s, a, i, w))
      && (Leaving(p.at) ==> Leaving(q.at) && q.res == p.res)
      && (Leaving(q.at) && !Leaving(p.at) ==>
          (q.res == 0 && s.slot[i].wakeup) || (q.res == -EWOULDBLOCK && SeesChange(s, a, i, w)))
    else
      a.cpu == i && p == Wait(PutWakeup, w, 0) && q.at == UnlockId1 && !t.slot[i].wakeup
  }

  lemma WaitBefore(s: State, a: Act, i: nat, w: WaitCall)
    requires Inv(s) && a.cpu < |s.pc| && i < |s.pc| && Inv(Step(s, a)) && i < |Step(s, a).pc|
             && Registered(Step(s, a).pc[i], w)
    ensures WaitPrev(s, a, Step(s, a), i, w)
  {
    if MarkStep(s, a, a.cpu) {
      WaitBeforeMark(s, a, i, w);
    } else if a.cpu != i {
      WaitBeforeOther(s, a, i, w);
    } else {
      assert s.slot[i] == SlotOf(s.pc[i], s.slot[i].wakeup);
      assert PcInRange(s.pc[i], i, |s.pc|);
      if s.pc[i].Wait? { WaitBeforeOwn(s, a, w); } else { OwnNotRegistered(s, a, w); }
    }
  }

  lemma WaitBeforeOther(s: State, a: Act, i: nat, w: WaitCall)
    requires Inv(s) && a.cpu < |s.pc| && i < |s.pc| && a.cpu != i && !MarkStep(s, a, a.cpu)
    requires WellFormed(Step(s, a)) && i < |Step(s, a).pc| && Registered(Step(s, a).pc[i], w)
    ensures WaitPrev(s, a, Step(s, a), i, w)
  {
    assert s.slot[a.cpu] == SlotOf(s.pc[a.cpu], s.slot[a.cpu].wakeup);
    assert PcInRange(s.pc[a.cpu], a.cpu, |s.pc|) && Checked(s.pc[a.cpu], s.slot);
    OwnCheck(s, a);
    OwnSlotKept(s, a);
  }

  lemma WaitBeforeMark(s: State, a: Act, i: nat, w: WaitCall)
    requires Inv(s) && a.cpu < |s.pc| && i < |s.pc| && MarkStep(s, a, a.cpu)
    requires WellFormed(Step(s, a)) && i < |Step(s, a).pc| && Registered(Step(s, a).pc[i], w)
    ensures WaitPrev(s, a, Step(s, a), i, w)
  {
    assert s.slot[i] == SlotOf(s.pc[i], s.slot[i].wakeup);
    assert PcInRange(s.pc[a.cpu], a.cpu, |s.pc|) && Checked(s.pc[a.cpu], s.slot);
    MarkFindsListener(s, a.cpu);
  }

  lemma OwnNotRegistered(s: State, a: Act, w: WaitCall)
    requires InRange(s) && a.cpu < |s.pc| && !s.pc[a.cpu].Wait? && a.cpu < |Step(s, a).pc|
    ensures !Registered(Step(s, a).pc[a.cpu], w)
  {
    assert PcInRange(s.pc[a.cpu], a.cpu, |s.pc|);
    if s.pc[a.cpu].Wake? { OwnWake(s, a.cpu); }
  }

  lemma WaitBeforeOwn(s: State, a: Act, w: WaitCall)
    requires WellFormed(s) && a.cpu < |s.pc| && s.pc[a.cpu].Wait? && PcInRange(s.pc[a.cpu], a.cpu, |s.pc|)
    requires s.slot[a.cpu] == SlotOf(s.pc[a.cpu], s.slot[a.cpu].wakeup)
    requires var t := WaitStep(s, a.cpu, a.choice); WellFormed(t) && a.cpu < |t.pc| && Registered(t.pc[a.cpu], w)
    ensures WaitPrev(s, a, WaitStep(s, a.cpu, a.choice), a.cpu, w)
  {
    match s.pc[a.cpu].at
    case TestWord =>
    case TestWakeup =>
    case PutWakeup =>
    case _ =>
  }

  lemma WaitBeforeAt(r: Run, i: nat, n: nat, w: WaitCall)
    requires IsRun(r) && n < |r.states| && i < |r.states[n].pc| && WellFormed(r.states[n])
             && Registered(r.states[n].pc[i], w)
    ensures n > 0 && i < |r.states[n - 1].pc| && WellFormed(r.states[n - 1])
    ensures WaitPrev(r.states[n - 1], r.acts[n - 1], r.states[n], i, w)
  {
    hide Step, Registered, WaitPrev, Init;
    if n == 0 {
      NotAtStart(r.states[0], i, w);
    }
    Reachable(r, n - 1);
    assert StepAt(r, n - 1);
    StepInv(r.states[n - 1], r.acts[n - 1]);
    WaitBefore(r.states[n - 1], r.acts[n - 1], i, w);
  }

  lemma NotAtStart(s: State, i: nat, w: WaitCall)
    requires Init(s) && i < |s.pc|
    ensures !Registered(s.pc[i], w)
  {}

  /** The history behind a registered wait. */
  lemma {:induction false} WaitHistory(r: Run, i: nat, n: nat, w: WaitCall) returns (g: nat)
    requires IsRun(r) && n < |r.states| && i < |r.states[n].pc| && WellFormed(r.states[n])
             && Registered(r.states[n].pc[i], w)
    ensures InWait(r, i, w, g, n)
    ensures r.states[n].slot[i].wakeup ==> Marked(r, i, w, g, n)
    ensures var p := r.states[n].pc[i]; Leaving(p.at) ==>
              (p.res == 0 && Marked(r, i, w, g, n)) || (p.res == -EWOULDBLOCK && Changed(r, i, w, g, n))
  {
    WaitBeforeAt(r, i, n, w);
    if Registered(r.states[n - 1].pc[i], w) {
      g := WaitHistory(r, i, n - 1, w);
    } else {
      g := n - 1;
    }
  }

  /**
   A wait that returns 0 was marked, during this very registration, by another CPU's wake on the
   same word with a common bit; one that returns -EWOULDBLOCK read a word different from the
   awaited value; there is no third outcome.
   */
  lemma WaitResult(r: Run, i: nat, n: nat) returns (g: nat)
    requires IsRun(r) && n < |r.acts| && r.acts[n].cpu == i && i < |r.states[n].pc|
    requires r.states[n].pc[i].Wait? && i < |r.states[n + 1].pc| && r.states[n + 1].pc[i].User?
    ensures var p := r.states[n].pc[i];
            && InWait(r, i, p.wait, g, n)
            && (p.res == 0 ==> Marked(r, i, p.wait, g, n))
            && (p.res != 0 ==> p.res == -EWOULDBLOCK && Changed(r, i, p.wait, g, n))
  {
    Reachable(r, n);
    assert StepAt(r, n);
    ReturnsFromUnlock(r.states[n], r.acts[n]);
    g := WaitHistory(r, i, n, r.states[n].pc[i].wait);
  }

  lemma ReturnsFromUnlock(s: State, a: Act)
    requires WellFormed(s) && a.cpu < |s.pc| && s.pc[a.cpu].Wait?
    requires var t := WaitStep(s, a.cpu, a.choice); a.cpu < |t.pc| && t.pc[a.cpu].User?
    ensures s.pc[a.cpu].at == Unlock2
  {}
}

/**
 What every step of the futex protocol keeps: who holds which lock, what a slot holds while its
 owner waits, and that a marked sleeper always has its interrupt pending or on the way.
 */
module FutexSafety {
  import opened Futex

  /** The lock a CPU holds: -1 outside every section, otherwise the index of the locked CPU. */
  function Holds(p: Pc, c: nat): int {
    match p
    case Wait(at, _, _) =>
      if (at.Lock1? || at.TestWakeup? || at.TestWord? || at.Wfi? || at.IntrWindow? || at.Lock2?) then -1 else c
    case Wake(at, _, i, _) => if (at.Loop? || at.Lock? || at.RaiseIpi?) then -1 else i
    case Guard(at, k) => if at == GLock then -1 else k
    case User => -1
  }

  /** Between writing the holder field and clearing it, the program runs the protected code. */
  predicate InBody(p: Pc) {
    match p
    case Wait(at, _, _) =>
      Holds(p, 0) == 0 && !at.LockId1? && !at.Unlock1? && !at.LockId2? && !at.Unlock2?
    case Wake(at, _, _, _) => (at.CheckUaddr? || at.CheckBitset? || at.SkipUnlockId? || at.Mark? || at.UnlockId?)
    case Guard(at, _) => (at.GBody? || at.GUnlockId?)
    case User => false
  }

  ghost predicate MutualExclusion(s: State)
    requires WellFormed(s)
  {
    && (forall c, d :: 0 <= c < |s.pc| && 0 <= d < |s.pc| && c != d && Holds(s.pc[c], c) != -1 ==>
          Holds(s.pc[c], c) != Holds(s.pc[d], d))
    && (forall c :: 0 <= c < |s.pc| && Holds(s.pc[c], c) != -1 ==>
          0 <= Holds(s.pc[c], c) < |s.pc| && s.lock[Holds(s.pc[c], c)].val)
    && (forall k :: 0 <= k < |s.pc| && s.lock[k].val ==> exists c :: 0 <= c < |s.pc| && Holds(s.pc[c], c) == k)
  }

  ghost predicate HolderNamed(s: State)
    requires WellFormed(s) && MutualExclusion(s)
  {
    forall c :: 0 <= c < |s.pc| && InBody(s.pc[c]) ==> Holds(s.pc[c], c) != -1 && s.lock[Holds(s.pc[c], c)].id == c
  }

  ghost predicate LockInv(s: State) {
    InRange(s) && MutualExclusion(s) && HolderNamed(s)
  }

  /** What a program can do to a lock, seen from outside: take it, give it back, or neither. */
  ghost predicate LockMove(s: State, t: State, c: nat, k: nat) {
    && WellFormed(s) && WellFormed(t) && |s.pc| == |t.pc| && c < |s.pc| && k < |s.pc|
    && t.pc == s.pc[c := t.pc[c]] && t.lock == s.lock[k := t.lock[k]] && PcInRange(t.pc[c], c, |t.pc|)
    && var held, holds := Holds(s.pc[c], c), Holds(t.pc[c], c);
    && (InBody(t.pc[c]) ==> holds == k && t.lock[k].id == c)
    && ((held == -1 && holds == k && !s.lock[k].val && t.lock[k].val)
        || (held == k && holds == -1 && !t.lock[k].val)
        || (held == holds && s.lock[k].val == t.lock[k].val && (held == k || s.lock[k].id == t.lock[k].id)))
  }

  predicate Named(s: State, c: nat)
    requires WellFormed(s) && c < |s.pc|
  {
    InBody(s.pc[c]) ==> 0 <= Holds(s.pc[c], c) < |s.lock| && s.lock[Holds(s.pc[c], c)].id == c
  }

  lemma MoveUser(s: State, a: Act)
    requires InRange(s) && a.cpu < |s.pc| && s.pc[a.cpu].User?
    ensures LockMove(s, Step(s, a), a.cpu, a.cpu)
  {}

  lemma MoveWait(s: State, a: Act)
    requires InRange(s) && a.cpu < |s.pc| && s.pc[a.cpu].Wait? && Named(s, a.cpu)
    ensures LockMove(s, Step(s, a), a.cpu, a.cpu)
  {
    var t := WaitStep(s, a.cpu, a.choice);
    assert t.pc[a.cpu].Wait? || t.pc[a.cpu].User?;
  }

  lemma MoveWake(s: State, a: Act)
    requires InRange(s) && a.cpu < |s.pc| && s.pc[a.cpu].Wake? && Named(s, a.cpu)
    ensures LockMove(s, Step(s, a), a.cpu, if s.pc[a.cpu].wat == Loop then a.cpu else s.pc[a.cpu].i)
  {
    assert PcInRange(s.pc[a.cpu], a.cpu, |s.pc|);
  }

  lemma MoveGuard(s: State, a: Act)
    requires InRange(s) && a.cpu < |s.pc| && s.pc[a.cpu].Guard? && Named(s, a.cpu)
    ensures LockMove(s, Step(s, a), a.cpu, s.pc[a.cpu].k)
  {}

  lemma LockStep(s: State, t: State, c: nat, k: nat)
    requires LockInv(s) && LockMove(s, t, c, k)
    ensures LockInv(t)
  {
    forall m | 0 <= m < |t.pc| && t.lock[m].val ensures exists d :: 0 <= d < |t.pc| && Holds(t.pc[d], d) == m {
      if Holds(t.pc[c], c) != m {
        var d :| 0 <= d < |s.pc| && Holds(s.pc[d], d) == m;
        assert Holds(t.pc[d], d) == m;
      }
    }
    LockExclusive(s, t, c, k);
    assert MutualExclusion(t);
  }

  lemma LockExclusive(s: State, t: State, c: nat, k: nat)
    requires LockInv(s) && LockMove(s, t, c, k)
    ensures forall d :: 0 <= d < |t.pc| && Holds(t.pc[d], d) != -1 ==>
              0 <= Holds(t.pc[d], d) < |t.pc| && t.lock[Holds(t.pc[d], d)].val
    ensures forall d, e :: 0 <= d < |t.pc| && 0 <= e < |t.pc| && d != e && Holds(t.pc[d], d) != -1 ==>
              Holds(t.pc[d], d) != Holds(t.pc[e], e)
  {
    forall d | 0 <= d < |t.pc| && d != c && Holds(s.pc[d], d) != -1
      ensures t.lock[Holds(s.pc[d], d)].val && Holds(t.pc[c], c) != Holds(s.pc[d], d)
    {
      assert s.lock[Holds(s.pc[d], d)].val;
    }
  }

  /** Every step keeps mutual exclusion, and names the holder while it is inside. */
  lemma LockPreserved(s: State, a: Act)
    requires LockInv(s) && a.cpu < |s.pc|
    ensures LockInv(Step(s, a)) && |Step(s, a).pc| == |s.pc|
  {
    match s.pc[a.cpu]
    case User => MoveUser(s, a); LockStep(s, Step(s, a), a.cpu, a.cpu);
    case Wait(_, _, _) => MoveWait(s, a); LockStep(s, Step(s, a), a.cpu, a.cpu);
    case Wake(at, _, i, _) => MoveWake(s, a); LockStep(s, Step(s, a), a.cpu, if at == Loop then a.cpu else i);
    case Guard(_, k) => MoveGuard(s, a); LockStep(s, Step(s, a), a.cpu, k);
  }

  /** A slot only ever changes under its own lock, by the one CPU that holds it and is named in it. */
  lemma SlotWrittenByHolder(s: State, a: Act, k: nat)
    requires LockInv(s) && a.cpu < |s.pc| && k < |s.pc|
    requires Step(s, a).slot[k] != s.slot[k]
    ensures Holds(s.pc[a.cpu], a.cpu) == k && s.lock[k] == Spinlock(true, a.cpu)
    ensures forall d :: 0 <= d < |s.pc| && d != a.cpu ==> Holds(s.pc[d], d) != k
  {
    var p := s.pc[a.cpu];
    assert InBody(p);
  }

  // ----- what a slot holds ------------------------------------------------------------------

  predicate Listening(p: Pc) {
    p.Wait? && (p.at.TestWakeup? || p.at.TestWord? || p.at.Wfi? || p.at.IntrWindow? || p.at.Lock2?)
  }

  /** The slot contents that a CPU at `p` must see, given the wake-up flag found there. */
  function SlotOf(p: Pc, wakeup: bool): Slot {
    match p
    case Wait(at, w, _) => (
      match at
      case Lock1 | LockId1 | PutUaddr | UnlockId2 | Unlock2 => EMPTY
      case PutVal => Slot(w.uaddr, 0, 0, false)
      case PutBitset => Slot(w.uaddr, w.val, 0, false)
      case PutWakeup | UnlockId1 | Unlock1 => Slot(w.uaddr, w.val, w.bitset, false)
      case TestWakeup | TestWord | Wfi | IntrWindow | Lock2 | LockId2 | ClrUaddr =>
        Slot(w.uaddr, w.val, w.bitset, wakeup)
      case ClrVal => Slot(0, w.val, w.bitset, wakeup)
      case ClrBitset => Slot(0, 0, w.bitset, wakeup)
      case ClrWakeup => Slot(0, 0, 0, wakeup)
    )
    case _ => EMPTY
  }

  predicate Matches(slot: Slot, w: WakeCall) {
    slot.uaddr == w.uaddr && slot.bitset & w.bitset != 0
  }

  predicate Checked(p: Pc, slots: seq<Slot>)
    requires p.Wake? && p.wat != Loop ==> p.i < |slots|
  {
    p.Wake? ==>
      && (p.wat == CheckBitset ==> slots[p.i].uaddr == p.wake.uaddr)
      && (p.wat == Mark ==> Matches(slots[p.i], p.wake))
  }

  ghost predicate SlotInv(s: State)
    requires InRange(s)
  {
    && (forall c :: 0 <= c < |s.pc| ==> s.slot[c] == SlotOf(s.pc[c], s.slot[c].wakeup))
    && (forall c :: 0 <= c < |s.pc| ==> PcInRange(s.pc[c], c, |s.pc|) && Checked(s.pc[c], s.slot))
  }

  /** A CPU about to set the wake-up flag finds its target registered and outside its own sections. */
  lemma MarkFindsListener(s: State, c: nat)
    requires LockInv(s) && SlotInv(s) && c < |s.pc| && s.pc[c].Wake? && s.pc[c].wat == Mark
    ensures var i := s.pc[c].i; Listening(s.pc[i]) && s.pc[i].wait.uaddr == s.pc[c].wake.uaddr
  {
    var i := s.pc[c].i;
    assert Holds(s.pc[c], c) == i && Holds(s.pc[i], i) != i;
    assert Matches(s.slot[i], s.pc[c].wake);
    assert s.slot[i] == SlotOf(s.pc[i], s.slot[i].wakeup);
    ZeroBitset(s.slot[i].bitset, s.pc[c].wake.bitset);
  }

  lemma ZeroBitset(x: bv32, y: bv32)
    ensures x == 0 ==> x & y == 0
  {}

  /** Except for the wake's marking step, a step writes no slot but its own CPU's, and keeps that one right. */
  lemma OwnSlotKept(s: State, a: Act)
    requires InRange(s) && a.cpu < |s.pc| && s.slot[a.cpu] == SlotOf(s.pc[a.cpu], s.slot[a.cpu].wakeup)
    requires !(s.pc[a.cpu].Wake? && s.pc[a.cpu].wat == Mark)
    requires WellFormed(Step(s, a)) && |Step(s, a).pc| == |s.pc|
    ensures var t := Step(s, a); t.slot[a.cpu] == SlotOf(t.pc[a.cpu], t.slot[a.cpu].wakeup)
    ensures var t := Step(s, a); t.slot == s.slot[a.cpu := t.slot[a.cpu]]
  {
    if s.pc[a.cpu].Wait? { OwnSlotWait(s, a); }
  }

  predicate SlotRewritten(s: State, t: State, c: nat) {
    && WellFormed(s) && WellFormed(t) && |t.pc| == |s.pc| && c < |s.pc|
    && t.slot[c] == SlotOf(t.pc[c], t.slot[c].wakeup) && t.slot == s.slot[c := t.slot[c]]
  }

  predicate Fills(at: WaitAt) {
    at.PutUaddr? || at.PutVal? || at.PutBitset? || at.PutWakeup? || at.ClrUaddr? || at.ClrVal? || at.ClrBitset?
      || at.ClrWakeup?
  }

  lemma OwnSlotWait(s: State, a: Act)
    requires WellFormed(s) && a.cpu < |s.pc| && s.slot[a.cpu] == SlotOf(s.pc[a.cpu], s.slot[a.cpu].wakeup)
    requires s.pc[a.cpu].Wait?
    ensures SlotRewritten(s, WaitStep(s, a.cpu, a.choice), a.cpu)
  {
    if Fills(s.pc[a.cpu].at) { OwnSlotFilled(s, a); } else { OwnSlotQuiet(s, a); }
  }

  lemma OwnSlotQuiet(s: State, a: Act)
    requires WellFormed(s) && a.cpu < |s.pc| && s.slot[a.cpu] == SlotOf(s.pc[a.cpu], s.slot[a.cpu].wakeup)
    requires s.pc[a.cpu].Wait? && !Fills(s.pc[a.cpu].at)
    ensures SlotRewritten(s, WaitStep(s, a.cpu, a.choice), a.cpu)
  {
    var t := WaitStep(s, a.cpu, a.choice);
    assert t.slot == s.slot;
    assert t.pc[a.cpu] == User || t.pc[a.cpu] == s.pc[a.cpu].(at := t.pc[a.cpu].at, res := t.pc[a.cpu].res);
  }

  lemma OwnSlotFilled(s: State, a: Act)
    requires WellFormed(s) && a.cpu < |s.pc| && s.slot[a.cpu] == SlotOf(s.pc[a.cpu], s.slot[a.cpu].wakeup)
    requires s.pc[a.cpu].Wait? && Fills(s.pc[a.cpu].at)
    ensures SlotRewritten(s, WaitStep(s, a.cpu, a.choice), a.cpu)
  {}

  /** A step moves no program but its own CPU's and keeps the table's shape. */
  lemma OwnCheck(s: State, a: Act)
    requires InRange(s) && a.cpu < |s.pc| && Checked(s.pc[a.cpu], s.slot)
    ensures var t := Step(s, a); WellFormed(t) && |t.pc| == |s.pc|
    ensures var t := Step(s, a); PcInRange(t.pc[a.cpu], a.cpu, |t.pc|) && Checked(t.pc[a.cpu], t.slot)
    ensures var t := Step(s, a); t.pc == s.pc[a.cpu := t.pc[a.cpu]]
  {
    if s.pc[a.cpu].Wake? { OwnCheckWake(s, a); } else { OwnCheckOther(s, a); }
  }

  lemma OwnCheckWake(s: State, a: Act)
    requires InRange(s) && a.cpu < |s.pc| && Checked(s.pc[a.cpu], s.slot) && s.pc[a.cpu].Wake?
    ensures var t := WakeStep(s, a.cpu); WellFormed(t) && |t.pc| == |s.pc|
    ensures var t := WakeStep(s, a.cpu); PcInRange(t.pc[a.cpu], a.cpu, |t.pc|) && Checked(t.pc[a.cpu], t.slot)
    ensures var t := WakeStep(s, a.cpu); t.pc == s.pc[a.cpu := t.pc[a.cpu]]
  {
    assert PcInRange(s.pc[a.cpu], a.cpu, |s.pc|);
  }

  lemma OwnCheckOther(s: State, a: Act)
    requires InRange(s) && a.cpu < |s.pc| && !s.pc[a.cpu].Wake?
    ensures var t := Step(s, a); WellFormed(t) && |t.pc| == |s.pc|
    ensures var t := Step(s, a); PcInRange(t.pc[a.cpu], a.cpu, |t.pc|) && Checked(t.pc[a.cpu], t.slot)
    ensures var t := Step(s, a); t.pc == s.pc[a.cpu := t.pc[a.cpu]]
  {
    if s.pc[a.cpu].Wait? {
      var t := WaitStep(s, a.cpu, a.choice);
      assert t.pc[a.cpu].Wait? || t.pc[a.cpu].User?;
    }
  }

  lemma OthersCheck(s: State, a: Act, d: nat)
    requires LockInv(s) && SlotInv(s) && a.cpu < |s.pc| && d < |s.pc| && d != a.cpu
    requires s.pc[d].Wake? && (s.pc[d].wat.CheckBitset? || s.pc[d].wat.Mark?)
    ensures s.pc[d].i < |Step(s, a).slot| && Step(s, a).slot[s.pc[d].i] == s.slot[s.pc[d].i]
  {
    assert PcInRange(s.pc[d], d, |s.pc|);
    OwnCheck(s, a);
    if Step(s, a).slot[s.pc[d].i] != s.slot[s.pc[d].i] {
      SlotWrittenByHolder(s, a, s.pc[d].i);
      assert false;
    }
  }

  lemma ChecksKept(s: State, a: Act)
    requires LockInv(s) && SlotInv(s) && a.cpu < |s.pc|
    ensures var t := Step(s, a);
            InRange(t) && forall d :: 0 <= d < |t.pc| ==> PcInRange(t.pc[d], d, |t.pc|) && Checked(t.pc[d], t.slot)
  {
    var t := Step(s, a);
    OwnCheck(s, a);
    forall d | 0 <= d < |t.pc| ensures PcInRange(t.pc[d], d, |t.pc|) && Checked(t.pc[d], t.slot) {
      assert PcInRange(s.pc[d], d, |s.pc|) && Checked(s.pc[d], s.slot);
      if d != a.cpu && s.pc[d].Wake? && (s.pc[d].wat.CheckBitset? || s.pc[d].wat.Mark?) {
        OthersCheck(s, a, d);
      }
    }
  }

  lemma MarkKeepsSlots(s: State, a: Act)
    requires LockInv(s) && SlotInv(s) && a.cpu < |s.pc| && s.pc[a.cpu].Wake? && s.pc[a.cpu].wat == Mark
    ensures var t := Step(s, a);
            InRange(t) && forall c :: 0 <= c < |t.pc| ==> t.slot[c] == SlotOf(t.pc[c], t.slot[c].wakeup)
  {
    MarkFindsListener(s, a.cpu);
    ChecksKept(s, a);
    var t, i := Step(s, a), s.pc[a.cpu].i;
    assert t.slot == s.slot[i := s.slot[i].(wakeup := true)];
    assert t.pc == s.pc[a.cpu := s.pc[a.cpu].(wat := UnlockId)];
    forall c | 0 <= c < |t.pc| ensures t.slot[c] == SlotOf(t.pc[c], t.slot[c].wakeup) {
      assert s.slot[c] == SlotOf(s.pc[c], s.slot[c].wakeup);
    }
  }

  lemma SlotPreserved(s: State, a: Act)
    requires LockInv(s) && SlotInv(s) && a.cpu < |s.pc|
    ensures InRange(Step(s, a)) && SlotInv(Step(s, a))
  {
    var t := Step(s, a);
    ChecksKept(s, a);
    if s.pc[a.cpu].Wake? && s.pc[a.cpu].wat == Mark {
      MarkKeepsSlots(s, a);
    } else {
      OwnSlotKept(s, a);
      OwnCheck(s, a);
      forall c | 0 <= c < |t.pc| ensures t.slot[c] == SlotOf(t.pc[c], t.slot[c].wakeup) {
        assert s.slot[c] == SlotOf(s.pc[c], s.slot[c].wakeup);
      }
    }
  }

  // ----- a marked sleeper has its interrupt -------------------------------------------------

  /** `c` has marked CPU `i` and has yet to set its pending bit. */
  predicate IpiOnTheWay(p: Pc, i: nat) {
    p.Wake? && (p.wat.UnlockId? || p.wat.Unlock? || p.wat.RaiseIpi?) && p.i == i
  }

  predicate Falling(p: Pc) {
    p.Wait? && (p.at.TestWord? || p.at.Wfi?)
  }

  ghost predicate IpiInv(s: State)
    requires WellFormed(s)
  {
    forall i :: 0 <= i < |s.pc| && Falling(s.pc[i]) && s.slot[i].wakeup ==>
      s.msip[i] || exists c :: 0 <= c < |s.pc| && IpiOnTheWay(s.pc[c], i)
  }

  lemma IpiPreserved(s: State, a: Act)
    requires LockInv(s) && SlotInv(s) && IpiInv(s) && a.cpu < |s.pc|
    ensures WellFormed(Step(s, a)) && IpiInv(Step(s, a))
  {
    var t, c := Step(s, a), a.cpu;
    OwnCheck(s, a);
    forall i | 0 <= i < |t.pc| && Falling(t.pc[i]) && t.slot[i].wakeup
      ensures t.msip[i] || exists d :: 0 <= d < |t.pc| && IpiOnTheWay(t.pc[d], i)
    {
      if !IpiOnTheWay(t.pc[c], i) {
        IpiLocal(s, a, i);
        FallingStays(s, t, i, c);
      }
    }
  }

  /** One CPU's step, as seen by a CPU on its way into or inside `wfi`. */
  lemma IpiLocal(s: State, a: Act, i: nat)
    requires InRange(s) && a.cpu < |s.pc| && i < |s.pc|
    requires s.slot[a.cpu] == SlotOf(s.pc[a.cpu], s.slot[a.cpu].wakeup)
    requires var t := Step(s, a); WellFormed(t) && |t.pc| == |s.pc| && t.pc == s.pc[a.cpu := t.pc[a.cpu]]
    requires var t := Step(s, a); Falling(t.pc[i]) && t.slot[i].wakeup && !IpiOnTheWay(t.pc[a.cpu], i)
    ensures Falling(s.pc[i]) && s.slot[i].wakeup
    ensures s.msip[i] ==> Step(s, a).msip[i]
    ensures IpiOnTheWay(s.pc[a.cpu], i) ==> Step(s, a).msip[i]
  {
    match s.pc[a.cpu]
    case Wait(_, _, _) => IpiLocalWait(s, a, i);
    case Wake(_, _, _, _) => IpiLocalWake(s, a, i);
    case _ =>
  }

  lemma IpiLocalWait(s: State, a: Act, i: nat)
    requires WellFormed(s) && a.cpu < |s.pc| && i < |s.pc| && s.pc[a.cpu].Wait?
    requires s.slot[a.cpu] == SlotOf(s.pc[a.cpu], s.slot[a.cpu].wakeup)
    requires var t := WaitStep(s, a.cpu, a.choice);
             WellFormed(t) && |t.pc| == |s.pc| && t.pc == s.pc[a.cpu := t.pc[a.cpu]]
    requires var t := WaitStep(s, a.cpu, a.choice); Falling(t.pc[i]) && t.slot[i].wakeup
    ensures Falling(s.pc[i]) && s.slot[i].wakeup
    ensures s.msip[i] ==> WaitStep(s, a.cpu, a.choice).msip[i]
  {
    OwnSlotWait(s, a);
    var t := WaitStep(s, a.cpu, a.choice);
    if i == a.cpu {
      match s.pc[i].at
      case TestWakeup | TestWord | Wfi =>
      case _ =>
    } else {
      assert t.msip == s.msip || t.msip == s.msip[a.cpu := false];
    }
  }

  lemma IpiLocalWake(s: State, a: Act, i: nat)
    requires InRange(s) && a.cpu < |s.pc| && i < |s.pc| && s.pc[a.cpu].Wake?
    requires PcInRange(s.pc[a.cpu], a.cpu, |s.pc|)
    requires var t := WakeStep(s, a.cpu); WellFormed(t) && |t.pc| == |s.pc| && t.pc == s.pc[a.cpu := t.pc[a.cpu]]
    requires var t := WakeStep(s, a.cpu); Falling(t.pc[i]) && t.slot[i].wakeup && !IpiOnTheWay(t.pc[a.cpu], i)
    ensures Falling(s.pc[i]) && s.slot[i].wakeup
    ensures s.msip[i] ==> WakeStep(s, a.cpu).msip[i]
    ensures IpiOnTheWay(s.pc[a.cpu], i) ==> WakeStep(s, a.cpu).msip[i]
  {}

  lemma FallingStays(s: State, t: State, i: nat, c: nat)
    requires WellFormed(s) && WellFormed(t) && IpiInv(s) && |s.pc| == |t.pc| && i < |s.pc| && c < |s.pc|
    requires Falling(s.pc[i]) && s.slot[i].wakeup
    requires forall d :: 0 <= d < |s.pc| && d != c ==> s.pc[d] == t.pc[d]
    requires s.msip[i] ==> t.msip[i]
    requires IpiOnTheWay(s.pc[c], i) ==> t.msip[i] || IpiOnTheWay(t.pc[c], i)
    ensures t.msip[i] || exists d :: 0 <= d < |t.pc| && IpiOnTheWay(t.pc[d], i)
  {
    if !s.msip[i] {
      var d :| 0 <= d < |s.pc| && IpiOnTheWay(s.pc[d], i);
      assert t.msip[i] || IpiOnTheWay(t.pc[d], i);
    }
  }

  // ----- every reachable state --------------------------------------------------------------

  ghost predicate Inv(s: State) {
    LockInv(s) && SlotInv(s) && IpiInv(s)
  }

  lemma InitInv(s: State)
    requires Init(s)
    ensures Inv(s)
  {}

  lemma StepInv(s: State, a: Act)
    requires Inv(s) && a.cpu < |s.pc|
    ensures Inv(Step(s, a)) && |Step(s, a).pc| == |s.pc|
  {
    LockPreserved(s, a);
    SlotPreserved(s, a);
    IpiPreserved(s, a);
  }
}

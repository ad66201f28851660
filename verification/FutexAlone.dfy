/**
 What a call does when nobody interferes: bounded statements about one CPU's own steps, from every
 state that satisfies the protocol invariant.
 */
module FutexAlone {

  import opened Futex
  import opened FutexSafety

  // ----- user words -------------------------------------------------------------------------

  /** A store changes exactly its own word. */
  lemma StoreWord(s: State, c: nat, a: nat, w: int, b: nat)
    requires InRange(s) && c < |s.pc| && s.pc[c] == User
    ensures Word(Step(s, Act(c, Store(a, w))), b) == if b == a then w else Word(s, b)
  {
  }

  /** No other step changes a word. */
  lemma WordsKept(s: State, a: Act, b: nat)
    requires InRange(s) && a.cpu < |s.pc| && !(s.pc[a.cpu] == User && a.choice.Store?)
    ensures Word(Step(s, a), b) == Word(s, b)
  {
  }

  // ----- calls begin ------------------------------------------------------------------------

  /** A call with no bits is refused at once. */
  lemma NoBits(s: State, c: nat, w: WaitCall, k: WakeCall)
    requires InRange(s) && c < |s.pc| && s.pc[c] == User && w.bitset == 0 && k.bitset == 0
    ensures Step(s, Act(c, CallWait(w))) == s && Step(s, Act(c, CallWake(k))) == s
  {
  }

  lemma CallsEnter(s: State, c: nat, w: WaitCall, k: WakeCall)
    requires InRange(s) && c < |s.pc| && s.pc[c] == User && w.bitset != 0 && k.bitset != 0
    ensures Step(s, Act(c, CallWait(w))) == s.(pc := s.pc[c := Wait(Lock1, w, 0)])
    ensures Step(s, Act(c, CallWake(k))) == s.(pc := s.pc[c := Wake(Loop, k, 0, 0)])
  {
  }

  /** Interrupts set and clear exactly the bit they are for, and any interrupt ends the sleep. */
  lemma Interrupts(s: State, c: nat, k: nat)
    requires InRange(s) && c < |s.pc| && k < |s.pc|
    ensures s.pc[c] == User ==> Step(s, Act(c, SendIpi(k))) == s.(msip := s.msip[k := true])
    ensures s.pc[c] == User || (s.pc[c].Wait? && s.pc[c].at == IntrWindow) ==>
              Step(s, Act(c, Interrupt)) == s.(msip := s.msip[c := false])
    ensures s.pc[c].Wait? && s.pc[c].at == Wfi ==>
              Step(s, Act(c, Interrupt)) == s.(pc := s.pc[c := s.pc[c].(at := IntrWindow)])
  {
  }

  // ----- one CPU on its own -----------------------------------------------------------------

  /** `n` steps of CPU `c` and of no other. */
  function Alone(s: State, c: nat, n: nat): State
    decreases n
  {
    if n == 0 || !InRange(s) || c >= |s.pc| then s else Alone(Step(s, Act(c, Go)), c, n - 1)
  }

  /** What CPU `c` alone works on in a wait: its program, its lock and its slot. */
  datatype Here = Here(pc: Pc, lock: Spinlock, slot: Slot)

  function Local(s: State, c: nat, h: Here): State
    requires WellFormed(s) && c < |s.pc|
  {
    s.(pc := s.pc[c := h.pc], lock := s.lock[c := h.lock], slot := s.slot[c := h.slot])
  }

  predicate Ready(s: State, c: nat, h: Here) {
    InRange(s) && c < |s.pc| && PcInRange(h.pc, c, |s.pc|) && (h.pc.User? || h.pc.Wait?)
  }

  /** The next own step, given the word it would read and its pending bit. */
  function Next(h: Here, c: nat, word: int, msip: bool): Here {
    if !h.pc.Wait? then h
    else
      var w := h.pc.wait;
      match h.pc.at
      case Lock1 => Taking(h, LockId1)
      case LockId1 => Naming(h, c, PutUaddr)
      case PutUaddr => h.(slot := h.slot.(uaddr := w.uaddr), pc := h.pc.(at := PutVal))
      case PutVal => h.(slot := h.slot.(val := w.val), pc := h.pc.(at := PutBitset))
      case PutBitset => h.(slot := h.slot.(bitset := w.bitset), pc := h.pc.(at := PutWakeup))
      case PutWakeup => h.(slot := h.slot.(wakeup := false), pc := h.pc.(at := UnlockId1))
      case UnlockId1 => Naming(h, -1, Unlock1)
      case Unlock1 => h.(lock := h.lock.(val := false), pc := h.pc.(at := TestWakeup))
      case TestWakeup => h.(pc := h.pc.(at := if h.slot.wakeup then Lock2 else TestWord))
      case TestWord =>
        if word != h.slot.val then h.(pc := h.pc.(at := Lock2, res := -EWOULDBLOCK)) else h.(pc := h.pc.(at := Wfi))
      case Wfi => if msip then h.(pc := h.pc.(at := IntrWindow)) else h
      case IntrWindow => h.(pc := h.pc.(at := TestWakeup))
      case Lock2 => Taking(h, LockId2)
      case LockId2 => Naming(h, c, ClrUaddr)
      case ClrUaddr => h.(slot := h.slot.(uaddr := 0), pc := h.pc.(at := ClrVal))
      case ClrVal => h.(slot := h.slot.(val := 0), pc := h.pc.(at := ClrBitset))
      case ClrBitset => h.(slot := h.slot.(bitset := 0), pc := h.pc.(at := ClrWakeup))
      case ClrWakeup => h.(slot := h.slot.(wakeup := false), pc := h.pc.(at := UnlockId2))
      case UnlockId2 => Naming(h, -1, Unlock2)
      case Unlock2 => h.(lock := h.lock.(val := false), pc := User)
  }

  function Taking(h: Here, at: WaitAt): Here
    requires h.pc.Wait?
  {
    if h.lock.val then h else h.(lock := h.lock.(val := true), pc := h.pc.(at := at))
  }

  function Naming(h: Here, id: int, at: WaitAt): Here
    requires h.pc.Wait?
  {
    h.(lock := h.lock.(id := id), pc := h.pc.(at := at))
  }

  function Nth(h: Here, c: nat, word: int, msip: bool, n: nat): Here
    decreases n, h
  {
    if n == 0 then h else Nth(Next(h, c, word, msip), c, word, msip, n - 1)
  }

  /** The program is in call `w`, or has returned from it. */
  predicate During(h: Here, w: WaitCall) {
    h.pc.User? || (h.pc.Wait? && h.pc.wait == w)
  }

  /** The steps that take, name or release the lock. */
  predicate OnLock(at: WaitAt) {
    || at.Lock1? || at.LockId1? || at.UnlockId1? || at.Unlock1?
    || at.Lock2? || at.LockId2? || at.UnlockId2? || at.Unlock2?
  }

  /** `h` is one own step before what `Next` gives. */
  ghost predicate Leads(s: State, c: nat, h: Here, w: WaitCall)
    requires Ready(s, c, h)
  {
    var next := Next(h, c, Word(s, w.uaddr), s.msip[c]);
    && InRange(Local(s, c, h)) && Ready(s, c, next) && During(next, w)
    && Step(Local(s, c, h), Act(c, Go)) == Local(s, c, next)
  }

  lemma LockLeads(s: State, c: nat, h: Here, w: WaitCall)
    requires Ready(s, c, h) && During(h, w) && h.pc.Wait? && OnLock(h.pc.at)
    ensures Leads(s, c, h, w)
  {
    LocalInRange(s, c, h);
  }

  lemma SlotLeads(s: State, c: nat, h: Here, w: WaitCall)
    requires Ready(s, c, h) && During(h, w) && h.pc.Wait? && Fills(h.pc.at)
    ensures Leads(s, c, h, w)
  {
    LocalInRange(s, c, h);
  }

  lemma LocalStep(s: State, c: nat, h: Here, w: WaitCall)
    requires Ready(s, c, h) && During(h, w)
    ensures Leads(s, c, h, w)
  {
    if h.pc.Wait? && OnLock(h.pc.at) {
      LockLeads(s, c, h, w);
    } else if h.pc.Wait? && Fills(h.pc.at) {
      SlotLeads(s, c, h, w);
    } else {
      LocalInRange(s, c, h);
    }
  }

  lemma LocalInRange(s: State, c: nat, h: Here)
    requires Ready(s, c, h)
    ensures InRange(Local(s, c, h))
  {
  }

  lemma {:induction false} AloneLocal(s: State, c: nat, h: Here, w: WaitCall, n: nat)
    requires Ready(s, c, h) && During(h, w)
    ensures Alone(Local(s, c, h), c, n) == Local(s, c, Nth(h, c, Word(s, w.uaddr), s.msip[c], n))
    decreases n
  {
    if n > 0 {
      hide Step, Next, InRange, Local;
      LocalStep(s, c, h, w);
      SameCpus(s, c, h);
      AloneLocal(s, c, Next(h, c, Word(s, w.uaddr), s.msip[c]), w, n - 1);
    }
  }

  lemma SameCpus(s: State, c: nat, h: Here)
    requires WellFormed(s) && c < |s.pc|
    ensures |Local(s, c, h).pc| == |s.pc|
  {
  }

  // ----- a wait on its own ------------------------------------------------------------------

  /** Eight steps register the call, whatever the slot held. */
  lemma Registers(c: nat, w: WaitCall, id: int, slot: Slot, word: int, msip: bool)
    ensures Nth(Here(Wait(Lock1, w, 0), Spinlock(false, id), slot), c, word, msip, 8)
         == Here(Wait(TestWakeup, w, 0), Spinlock(false, -1), Slot(w.uaddr, w.val, w.bitset, false))
  {
    var h0 := Here(Wait(Lock1, w, 0), Spinlock(false, id), slot);
    var h4 := Here(Wait(PutBitset, w, 0), Spinlock(true, c), slot.(uaddr := w.uaddr, val := w.val));
    Four(h0, c, word, msip);
    Four(h4, c, word, msip);
    Joined(h0, c, word, msip, 4, 4);
  }

  /** Eight steps clear the slot and return. */
  lemma Clears(c: nat, w: WaitCall, res: int, id: int, slot: Slot, word: int, msip: bool)
    ensures Nth(Here(Wait(Lock2, w, res), Spinlock(false, id), slot), c, word, msip, 7)
         == Here(Wait(Unlock2, w, res), Spinlock(true, -1), EMPTY)
    ensures Nth(Here(Wait(Lock2, w, res), Spinlock(false, id), slot), c, word, msip, 8)
         == Here(User, Spinlock(false, -1), EMPTY)
  {
    var h0 := Here(Wait(Lock2, w, res), Spinlock(false, id), slot);
    var h4 := Here(Wait(ClrBitset, w, res), Spinlock(true, c), slot.(uaddr := 0, val := 0));
    Four(h0, c, word, msip);
    Four(h4, c, word, msip);
    Joined(h0, c, word, msip, 4, 4);
    Joined(h0, c, word, msip, 4, 3);
  }

  lemma Four(h: Here, c: nat, word: int, msip: bool)
    ensures var h3 := Next(Next(Next(h, c, word, msip), c, word, msip), c, word, msip);
            && Nth(h, c, word, msip, 1) == Next(h, c, word, msip)
            && Nth(h, c, word, msip, 2) == Next(Next(h, c, word, msip), c, word, msip)
            && Nth(h, c, word, msip, 3) == h3 && Nth(h, c, word, msip, 4) == Next(h3, c, word, msip)
  {
    hide Next;
    var h1 := Next(h, c, word, msip);
    var h2 := Next(h1, c, word, msip);
    var h3 := Next(h2, c, word, msip);
    var h4 := Next(h3, c, word, msip);
    assert Nth(h4, c, word, msip, 0) == h4 && Nth(h3, c, word, msip, 0) == h3;
    assert Nth(h3, c, word, msip, 1) == h4 && Nth(h2, c, word, msip, 1) == h3 && Nth(h1, c, word, msip, 1) == h2;
    assert Nth(h2, c, word, msip, 2) == h4 && Nth(h1, c, word, msip, 2) == h3;
    assert Nth(h1, c, word, msip, 3) == h4;
  }

  lemma {:induction false} Joined(h: Here, c: nat, word: int, msip: bool, m: nat, n: nat)
    ensures Nth(h, c, word, msip, m + n) == Nth(Nth(h, c, word, msip, m), c, word, msip, n)
    decreases m
  {
    hide Next;
    if m > 0 {
      Joined(Next(h, c, word, msip), c, word, msip, m - 1, n);
    }
  }

  lemma {:induction false} Stays(h: Here, c: nat, word: int, msip: bool, n: nat)
    requires Next(h, c, word, msip) == h
    ensures Nth(h, c, word, msip, n) == h
    decreases n
  {
    hide Next;
    if n > 0 {
      Stays(h, c, word, msip, n - 1);
    }
  }

  /** The registered call, behind its first test. */
  function Registered(w: WaitCall, at: WaitAt): Here {
    Here(Wait(at, w, 0), Spinlock(false, -1), Slot(w.uaddr, w.val, w.bitset, false))
  }

  lemma WaitSteps(c: nat, w: WaitCall, id: int, slot: Slot, word: int, msip: bool)
    ensures var h := Here(Wait(Lock1, w, 0), Spinlock(false, id), slot);
            && (word == w.val ==> Nth(h, c, word, msip, 10) == Registered(w, Wfi))
            && (word != w.val ==>
                Nth(h, c, word, msip, 17) == Here(Wait(Unlock2, w, -EWOULDBLOCK), Spinlock(true, -1), EMPTY))
            && (word != w.val ==> Nth(h, c, word, msip, 18) == Here(User, Spinlock(false, -1), EMPTY))
  {
    var h := Here(Wait(Lock1, w, 0), Spinlock(false, id), slot);
    var r := Registered(w, TestWakeup);
    Registers(c, w, id, slot, word, msip);
    Four(r, c, word, msip);
    Joined(h, c, word, msip, 8, 2);
    if word != w.val {
      Clears(c, w, -EWOULDBLOCK, -1, r.slot, word, msip);
      Joined(h, c, word, msip, 10, 7);
      Joined(h, c, word, msip, 10, 8);
    }
  }

  /**
   A wait whose lock is free and that nobody disturbs: after ten own steps it is parked, registered and
   with its lock free, if the word is the awaited one, and stays there as long as nothing is pending;
   otherwise after eighteen it has returned -EWOULDBLOCK with an empty slot.
   */
  lemma WaitAlone(s: State, c: nat, w: WaitCall, n: nat)
    requires InRange(s) && c < |s.pc| && s.pc[c] == User && w.bitset != 0 && !s.lock[c].val
    ensures var t := Step(s, Act(c, CallWait(w)));
            if Word(s, w.uaddr) == w.val then
              && Alone(t, c, 10) == Local(s, c, Registered(w, Wfi))
              && (!s.msip[c] ==> Alone(t, c, 10 + n) == Alone(t, c, 10))
            else
              && Alone(t, c, 17) == Local(s, c, Here(Wait(Unlock2, w, -EWOULDBLOCK), Spinlock(true, -1), EMPTY))
              && Alone(t, c, 18) == Local(s, c, Here(User, Spinlock(false, -1), EMPTY))
  {
    hide Step, Next, Nth, Alone, Local, Word;
    var h := Here(Wait(Lock1, w, 0), s.lock[c], s.slot[c]);
    var word, msip := Word(s, w.uaddr), s.msip[c];
    WaitEnters(s, c, w);
    WaitSteps(c, w, s.lock[c].id, s.slot[c], word, msip);
    AloneLocal(s, c, h, w, 10);
    AloneLocal(s, c, h, w, 10 + n);
    AloneLocal(s, c, h, w, 17);
    AloneLocal(s, c, h, w, 18);
    Joined(h, c, word, msip, 10, n);
    if word == w.val && !msip {
      Parks(c, w, word);
      Stays(Registered(w, Wfi), c, word, msip, n);
    }
  }

  /** After ten own steps the call that does not park is on its way out. */
  lemma NotParked(s: State, c: nat, w: WaitCall)
    requires InRange(s) && c < |s.pc| && s.pc[c] == User && w.bitset != 0 && !s.lock[c].val
    requires Word(s, w.uaddr) != w.val
    ensures var u := Alone(Step(s, Act(c, CallWait(w))), c, 10);
            |u.pc| == |s.pc| && u.pc[c] == Wait(Lock2, w, -EWOULDBLOCK)
  {
    hide Step, Alone, Word;
    var h := Here(Wait(Lock1, w, 0), s.lock[c], s.slot[c]);
    var word, msip := Word(s, w.uaddr), s.msip[c];
    var r := Registered(w, TestWakeup);
    WaitEnters(s, c, w);
    AloneLocal(s, c, h, w, 10);
    Registers(c, w, s.lock[c].id, s.slot[c], word, msip);
    Four(r, c, word, msip);
    Joined(h, c, word, msip, 8, 2);
  }

  lemma ParksIff(s: State, c: nat, w: WaitCall)
    requires InRange(s) && c < |s.pc| && s.pc[c] == User && w.bitset != 0 && !s.lock[c].val
    ensures var t := Step(s, Act(c, CallWait(w)));
            && (Alone(t, c, 10) == Local(s, c, Registered(w, Wfi)) <==> Word(s, w.uaddr) == w.val)
            && (Word(s, w.uaddr) != w.val ==>
                  && Alone(t, c, 17).pc == s.pc[c := Wait(Unlock2, w, -EWOULDBLOCK)]
                  && Alone(t, c, 18) == Local(s, c, Here(User, Spinlock(false, -1), EMPTY)))
  {
    hide Step, Alone, Word;
    WaitAlone(s, c, w, 0);
    if Word(s, w.uaddr) != w.val {
      NotParked(s, c, w);
    }
  }

  lemma WaitEnters(s: State, c: nat, w: WaitCall)
    requires InRange(s) && c < |s.pc| && s.pc[c] == User && w.bitset != 0
    ensures Step(s, Act(c, CallWait(w))) == Local(s, c, Here(Wait(Lock1, w, 0), s.lock[c], s.slot[c]))
  {
    CallsEnter(s, c, w, WakeCall(0, 0, 1));
  }

  lemma Parks(c: nat, w: WaitCall, word: int)
    ensures Next(Registered(w, Wfi), c, word, false) == Registered(w, Wfi)
  {
  }

  lemma LeaveSteps(c: nat, w: WaitCall, id: int, slot: Slot, word: int)
    requires slot.wakeup
    ensures var h := Here(Wait(Wfi, w, 0), Spinlock(false, id), slot);
            && Nth(h, c, word, true, 10) == Here(Wait(Unlock2, w, 0), Spinlock(true, -1), EMPTY)
            && Nth(h, c, word, true, 11) == Here(User, Spinlock(false, -1), EMPTY)
  {
    var h := Here(Wait(Wfi, w, 0), Spinlock(false, id), slot);
    Four(h, c, word, true);
    Clears(c, w, 0, id, slot, word, true);
    Joined(h, c, word, true, 3, 7);
    Joined(h, c, word, true, 3, 8);
  }

  /** A parked CPU with both flags, its lock free, returns 0 with an empty slot within eleven own steps. */
  lemma WokenAlone(s: State, c: nat, w: WaitCall)
    requires InRange(s) && c < |s.pc| && s.pc[c] == Wait(Wfi, w, 0)
    requires s.slot[c].wakeup && s.msip[c] && !s.lock[c].val
    ensures Alone(s, c, 10) == Local(s, c, Here(Wait(Unlock2, w, 0), Spinlock(true, -1), EMPTY))
    ensures Alone(s, c, 11) == Local(s, c, Here(User, Spinlock(false, -1), EMPTY))
  {
    hide Step, Next, Nth, Alone, Word;
    var h := Here(s.pc[c], s.lock[c], s.slot[c]);
    assert s == Local(s, c, h);
    LeaveSteps(c, w, s.lock[c].id, s.slot[c], Word(s, w.uaddr));
    AloneLocal(s, c, h, w, 10);
    AloneLocal(s, c, h, w, 11);
  }
}

/**
 The futex, spinlock and inter-processor-interrupt protocol as a step system.

 Every CPU runs its own program.  One step performs one access to shared memory (a lock word, a
 futex slot field, a software-interrupt pending bit or a user word), and the steps of different
 CPUs interleave freely under sequentially consistent memory.
 */
module Futex {

  const EWOULDBLOCK := 11

  /** The arguments of a `futex_wait` and a `futex_wake` call; `max` is the wake's limit. */
  datatype WaitCall = WaitCall(uaddr: nat, val: int, bitset: bv32)
  datatype WakeCall = WakeCall(uaddr: nat, max: int, bitset: bv32)

  datatype WaitAt =
    | Lock1 | LockId1 | PutUaddr | PutVal | PutBitset | PutWakeup | UnlockId1 | Unlock1
    | TestWakeup | TestWord | Wfi | IntrWindow
    | Lock2 | LockId2 | ClrUaddr | ClrVal | ClrBitset | ClrWakeup | UnlockId2 | Unlock2

  datatype WakeAt =
    | Loop | Lock | LockId | CheckUaddr | CheckBitset | SkipUnlockId | SkipUnlock
    | Mark | UnlockId | Unlock | RaiseIpi

  /** Thread creation and exit take a CPU lock too; `Guard` stands for any such section. */
  datatype GuardAt = GLock | GLockId | GBody | GUnlockId | GUnlock

  datatype Pc =
    | User
    | Wait(at: WaitAt, wait: WaitCall, res: int)
    | Wake(wat: WakeAt, wake: WakeCall, i: nat, cnt: nat)
    | Guard(gat: GuardAt, k: nat)

  datatype Spinlock = Spinlock(val: bool, id: int)
  datatype Slot = Slot(uaddr: nat, val: int, bitset: bv32, wakeup: bool)

  const EMPTY := Slot(0, 0, 0, false)

  datatype State = State(pc: seq<Pc>, lock: seq<Spinlock>, slot: seq<Slot>, msip: seq<bool>, mem: map<nat, int>)

  /** What the environment chooses for a step; `Go` is the only choice inside a kernel section. */
  datatype Choice =
    | Go
    | Store(addr: nat, word: int)
    | CallWait(wait: WaitCall)
    | CallWake(wake: WakeCall)
    | CallGuard(k: nat)
    | SendIpi(k: nat)
    | Interrupt

  datatype Act = Act(cpu: nat, choice: Choice)

  predicate WellFormed(s: State) {
    |s.pc| == |s.lock| == |s.slot| == |s.msip|
  }

  function Word(s: State, a: nat): int {
    if a in s.mem then s.mem[a] else 0
  }

  predicate Init(s: State) {
    && WellFormed(s)
    && (forall c :: 0 <= c < |s.pc| ==> s.pc[c] == User && s.slot[c] == EMPTY && !s.lock[c].val)
  }

  // ----- one step ---------------------------------------------------------------------------

  predicate Lockable(s: State, c: nat, k: nat) {
    WellFormed(s) && c < |s.pc| && k < |s.pc|
  }

  /** The atomic exchange on a lock word: the caller advances only if the word was 0. */
  function TryLock(s: State, c: nat, k: nat, next: Pc): State
    requires Lockable(s, c, k)
  {
    if s.lock[k].val then s
    else s.(lock := s.lock[k := s.lock[k].(val := true)], pc := s.pc[c := next])
  }

  function PutLockId(s: State, c: nat, k: nat, id: int, next: Pc): State
    requires Lockable(s, c, k)
  {
    s.(lock := s.lock[k := s.lock[k].(id := id)], pc := s.pc[c := next])
  }

  function ReleaseLock(s: State, c: nat, k: nat, next: Pc): State
    requires Lockable(s, c, k)
  {
    s.(lock := s.lock[k := s.lock[k].(val := false)], pc := s.pc[c := next])
  }

  function PutSlot(s: State, c: nat, k: nat, slot: Slot, next: Pc): State
    requires Lockable(s, c, k)
  {
    s.(slot := s.slot[k := slot], pc := s.pc[c := next])
  }

  function PutMsip(s: State, c: nat, k: nat, pending: bool, next: Pc): State
    requires Lockable(s, c, k)
  {
    s.(msip := s.msip[k := pending], pc := s.pc[c := next])
  }

  function Jump(s: State, c: nat, next: Pc): State
    requires WellFormed(s) && c < |s.pc|
  {
    s.(pc := s.pc[c := next])
  }

  function UserStep(s: State, c: nat, l: Choice): State
    requires WellFormed(s) && c < |s.pc|
  {
    match l
    case Store(a, w) => s.(mem := s.mem[a := w])
    case CallWait(w) => if w.bitset == 0 then s else Jump(s, c, Wait(Lock1, w, 0))
    case CallWake(w) => if w.bitset == 0 then s else Jump(s, c, Wake(Loop, w, 0, 0))
    case CallGuard(k) => if k < |s.pc| then Jump(s, c, Guard(GLock, k)) else s
    case SendIpi(k) => if k < |s.pc| then PutMsip(s, c, k, true, User) else s
    case Interrupt => PutMsip(s, c, c, false, User)
    case Go => s
  }

  function WaitStep(s: State, c: nat, l: Choice): State
    requires WellFormed(s) && c < |s.pc| && s.pc[c].Wait?
  {
    var p := s.pc[c];
    var w := p.wait;
    var me := s.slot[c];
    match p.at
    case Lock1 => TryLock(s, c, c, p.(at := LockId1))
    case LockId1 => PutLockId(s, c, c, c, p.(at := PutUaddr))
    case PutUaddr => PutSlot(s, c, c, me.(uaddr := w.uaddr), p.(at := PutVal))
    case PutVal => PutSlot(s, c, c, me.(val := w.val), p.(at := PutBitset))
    case PutBitset => PutSlot(s, c, c, me.(bitset := w.bitset), p.(at := PutWakeup))
    case PutWakeup => PutSlot(s, c, c, me.(wakeup := false), p.(at := UnlockId1))
    case UnlockId1 => PutLockId(s, c, c, -1, p.(at := Unlock1))
    case Unlock1 => ReleaseLock(s, c, c, p.(at := TestWakeup))
    case TestWakeup => Jump(s, c, p.(at := if me.wakeup then Lock2 else TestWord))
    case TestWord =>
      if Word(s, w.uaddr) != me.val then Jump(s, c, p.(at := Lock2, res := -EWOULDBLOCK))
      else Jump(s, c, p.(at := Wfi))
    // resumes when a software interrupt is pending, or for any other interrupt
    case Wfi => if s.msip[c] || l == Interrupt then Jump(s, c, p.(at := IntrWindow)) else s
    // interrupts are enabled: the pending one, if taken, clears this CPU's bit
    case IntrWindow => if l == Interrupt then PutMsip(s, c, c, false, p) else Jump(s, c, p.(at := TestWakeup))
    case Lock2 => TryLock(s, c, c, p.(at := LockId2))
    case LockId2 => PutLockId(s, c, c, c, p.(at := ClrUaddr))
    case ClrUaddr => PutSlot(s, c, c, me.(uaddr := 0), p.(at := ClrVal))
    case ClrVal => PutSlot(s, c, c, me.(val := 0), p.(at := ClrBitset))
    case ClrBitset => PutSlot(s, c, c, me.(bitset := 0), p.(at := ClrWakeup))
    case ClrWakeup => PutSlot(s, c, c, me.(wakeup := false), p.(at := UnlockId2))
    case UnlockId2 => PutLockId(s, c, c, -1, p.(at := Unlock2))
    case Unlock2 => ReleaseLock(s, c, c, User)
  }

  /** The wake's loop condition holds and its body looks at CPU `i`. */
  predicate WakeMore(s: State, p: Pc)
    requires p.Wake?
  {
    p.i < |s.pc| && p.cnt < p.wake.max
  }

  function WakeStep(s: State, c: nat): State
    requires WellFormed(s) && c < |s.pc| && s.pc[c].Wake? && (s.pc[c].wat != Loop ==> s.pc[c].i < |s.pc|)
  {
    var p := s.pc[c];
    var w := p.wake;
    match p.wat
    case Loop =>
      if !WakeMore(s, p) then Jump(s, c, User)
      else if p.i == c then Jump(s, c, p.(i := p.i + 1))
      else Jump(s, c, p.(wat := Lock))
    case Lock => TryLock(s, c, p.i, p.(wat := LockId))
    case LockId => PutLockId(s, c, p.i, c, p.(wat := CheckUaddr))
    case CheckUaddr => Jump(s, c, p.(wat := if s.slot[p.i].uaddr != w.uaddr then SkipUnlockId else CheckBitset))
    case CheckBitset => Jump(s, c, p.(wat := if s.slot[p.i].bitset & w.bitset == 0 then SkipUnlockId else Mark))
    case SkipUnlockId => PutLockId(s, c, p.i, -1, p.(wat := SkipUnlock))
    case SkipUnlock => ReleaseLock(s, c, p.i, p.(wat := Loop, i := p.i + 1))
    case Mark => PutSlot(s, c, p.i, s.slot[p.i].(wakeup := true), p.(wat := UnlockId))
    case UnlockId => PutLockId(s, c, p.i, -1, p.(wat := Unlock))
    case Unlock => ReleaseLock(s, c, p.i, p.(wat := RaiseIpi))
    case RaiseIpi => PutMsip(s, c, p.i, true, p.(wat := Loop, i := p.i + 1, cnt := p.cnt + 1))
  }

  function GuardStep(s: State, c: nat): State
    requires WellFormed(s) && c < |s.pc| && s.pc[c].Guard? && s.pc[c].k < |s.pc|
  {
    var p := s.pc[c];
    match p.gat
    case GLock => TryLock(s, c, p.k, p.(gat := GLockId))
    case GLockId => PutLockId(s, c, p.k, c, p.(gat := GBody))
    case GBody => Jump(s, c, p.(gat := GUnlockId))
    case GUnlockId => PutLockId(s, c, p.k, -1, p.(gat := GUnlock))
    case GUnlock => ReleaseLock(s, c, p.k, User)
  }

  /** The wait has left its loop and only has to clear its slot. */
  predicate Leaving(at: WaitAt) {
    || at.Lock2? || at.LockId2? || at.UnlockId2? || at.Unlock2?
    || at.ClrUaddr? || at.ClrVal? || at.ClrBitset? || at.ClrWakeup?
  }

  /** Indices stay inside the CPU table, and a wait's result stays 0 until it leaves its loop. */
  predicate PcInRange(p: Pc, c: nat, n: nat) {
    match p
    case Wait(at, _, res) => !Leaving(at) ==> res == 0
    case Wake(at, _, i, _) => at != Loop ==> i < n && i != c
    case Guard(_, k) => k < n
    case _ => true
  }

  predicate InRange(s: State) {
    && WellFormed(s)
    && (forall c :: 0 <= c < |s.pc| ==> PcInRange(s.pc[c], c, |s.pc|))
  }

  function Step(s: State, a: Act): State
    requires InRange(s) && a.cpu < |s.pc|
  {
    match s.pc[a.cpu]
    case User => UserStep(s, a.cpu, a.choice)
    case Wait(_, _, _) => WaitStep(s, a.cpu, a.choice)
    case Wake(_, _, _, _) => WakeStep(s, a.cpu)
    case Guard(_, _) => GuardStep(s, a.cpu)
  }
}

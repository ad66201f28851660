/**
 What every run of boot, clone, exit and context-switch operations keeps: a consistent thread
 table, a free slot whenever a CPU is idle, fresh thread identifiers, and the idle thread's frame.
 */
module ThreadRuns {

  import opened Common
  import opened Threads

  /** A thread is in use only as some CPU's idle thread or as the task thread of the CPU it points to. */
  ghost predicate Consistent(s: Tables) {
    && WellFormed(s)
    && (forall c: nat, t: nat :: IsIdle(s, c, t) ==> t < |s.slots| && s.slots[t].avail && !s.slots[t].running)
    && (forall c: nat, d: nat, t: nat :: IsIdle(s, c, t) && IsIdle(s, d, t) ==> c == d)
    && (forall c: nat, t: nat :: IsTask(s, c, t) ==> t < |s.slots| && s.slots[t].running && s.slots[t].cpu == Some(c))
    && (forall t :: 0 <= t < |s.slots| ==> SlotConsistent(s, t))
    && (forall c :: 0 <= c < |s.cpus| ==> CpuConsistent(s.cpus[c]))
  }

  predicate IsIdle(s: Tables, c: nat, t: nat) {
    c < |s.cpus| && s.cpus[c].idle == Some(t)
  }

  predicate IsTask(s: Tables, c: nat, t: nat) {
    c < |s.cpus| && s.cpus[c].task == Some(t)
  }

  ghost predicate SlotConsistent(s: Tables, t: nat)
    requires t < |s.slots|
  {
    var ti := s.slots[t];
    && (ti.running ==> ti.avail && ti.cpu.Some? && IsTask(s, ti.cpu.value, t))
    && (ti.avail && !ti.running ==> exists c :: IsIdle(s, c, t))
  }

  predicate CpuConsistent(cpu: Cpu) {
    && (cpu.task.Some? ==> cpu.present)
    && (cpu.ti.Some? ==> cpu.ti == cpu.idle || cpu.ti == cpu.task)
    && (cpu.idle.None? ==> cpu.ti.None?)
  }

  // ----- counting ---------------------------------------------------------------------------

  ghost function Idles(cpus: seq<Cpu>): set<nat> {
    if cpus == [] then {} else (if cpus[0].idle.Some? then {cpus[0].idle.value} else {}) + Idles(cpus[1..])
  }

  ghost function Tasks(cpus: seq<Cpu>): set<nat> {
    if cpus == [] then {} else (if cpus[0].task.Some? then {cpus[0].task.value} else {}) + Tasks(cpus[1..])
  }

  lemma {:induction false} IdlesBound(cpus: seq<Cpu>)
    ensures |Idles(cpus)| <= |cpus|
    ensures forall c :: 0 <= c < |cpus| && cpus[c].idle.None? ==> |Idles(cpus)| < |cpus|
    ensures forall c :: 0 <= c < |cpus| && cpus[c].idle.Some? ==> cpus[c].idle.value in Idles(cpus)
  {
    if cpus != [] {
      IdlesBound(cpus[1..]);
      forall c | 0 <= c < |cpus| && cpus[c].idle.Some? ensures cpus[c].idle.value in Idles(cpus) {
        if c > 0 { assert cpus[1..][c - 1] == cpus[c]; }
      }
      if c :| 0 <= c < |cpus| && cpus[c].idle.None? && c > 0 { assert cpus[1..][c - 1] == cpus[c]; }
    }
  }

  lemma {:induction false} TasksBound(cpus: seq<Cpu>)
    ensures |Tasks(cpus)| <= |cpus|
    ensures forall c :: 0 <= c < |cpus| && cpus[c].task.None? ==> |Tasks(cpus)| < |cpus|
    ensures forall c :: 0 <= c < |cpus| && cpus[c].task.Some? ==> cpus[c].task.value in Tasks(cpus)
  {
    if cpus != [] {
      TasksBound(cpus[1..]);
      forall c | 0 <= c < |cpus| && cpus[c].task.Some? ensures cpus[c].task.value in Tasks(cpus) {
        if c > 0 { assert cpus[1..][c - 1] == cpus[c]; }
      }
      if c :| 0 <= c < |cpus| && cpus[c].task.None? && c > 0 { assert cpus[1..][c - 1] == cpus[c]; }
    }
  }

  /** `n` numbers cannot all lie in a set of fewer than `n`. */
  lemma {:induction false} Pigeonhole(n: nat, s: set<nat>)
    requires forall t :: 0 <= t < n ==> t in s
    ensures n <= |s|
  {
    if n > 0 {
      Pigeonhole(n - 1, s - {n - 1});
    }
  }

  /** Whenever some CPU lacks a task, or lacks an idle thread, a free slot exists. */
  lemma FreeSlotExists(s: Tables, c: nat)
    requires Consistent(s) && c < |s.cpus| && (s.cpus[c].task.None? || s.cpus[c].idle.None?)
    ensures FreeSlot(s.slots, 0).Some?
  {
    if FreeSlot(s.slots, 0).None? {
      IdlesBound(s.cpus);
      TasksBound(s.cpus);
      var used := Idles(s.cpus) + Tasks(s.cpus);
      assert |used| < 2 * |s.cpus|;
      forall t | 0 <= t < |s.slots| ensures t in used {
        assert SlotConsistent(s, t) && s.slots[t].avail;
        if s.slots[t].running {
          assert IsTask(s, s.slots[t].cpu.value, t);
        } else {
          var d :| IsIdle(s, d, t);
        }
      }
      Pigeonhole(|s.slots|, used);
      assert false;
    }
  }

  // ----- each operation keeps the tables consistent -----------------------------------------

  lemma UnusedSlot(s: Tables, t: nat)
    requires Consistent(s) && t < |s.slots| && !s.slots[t].avail
    ensures forall c: nat :: !IsIdle(s, c, t) && !IsTask(s, c, t)
  {
    assert SlotConsistent(s, t);
  }

  /** A task is started in an unused slot on a CPU without a task. */
  lemma StartTask(s: Tables, u: Tables, t: nat, c: nat)
    requires Consistent(s) && t < |s.slots| && !s.slots[t].avail && c < |s.cpus| && s.cpus[c].task.None?
             && s.cpus[c].present
    requires |u.slots| == |s.slots| && u.slots == s.slots[t := u.slots[t]]
             && u.cpus == s.cpus[c := s.cpus[c].(task := Some(t))]
    requires u.slots[t].avail && u.slots[t].running && u.slots[t].cpu == Some(c)
    ensures Consistent(u)
  {
    UnusedSlot(s, t);
    SameIdles(s, u, c);
    assert forall d: nat, k: nat :: IsTask(u, d, k) <==> IsTask(s, d, k) || (d == c && k == t);
    forall k | 0 <= k < |u.slots| ensures SlotConsistent(u, k) {
      assert SlotConsistent(s, k);
      if k != t && u.slots[k].running { assert IsTask(s, u.slots[k].cpu.value, k); }
      if k != t && u.slots[k].avail && !u.slots[k].running { var d :| IsIdle(s, d, k); assert IsIdle(u, d, k); }
      if k == t { assert IsTask(u, c, t); }
    }
    assert CpuConsistent(s.cpus[c]);
  }

  lemma SameIdles(s: Tables, u: Tables, c: nat)
    requires |u.cpus| == |s.cpus| && c < |s.cpus| && u.cpus[c].idle == s.cpus[c].idle
    requires forall d :: 0 <= d < |s.cpus| && d != c ==> u.cpus[d] == s.cpus[d]
    ensures forall d: nat, k: nat :: IsIdle(u, d, k) <==> IsIdle(s, d, k)
  {}

  /** CPU `c` gets its idle thread in an unused slot. */
  lemma StartIdle(s: Tables, u: Tables, t: nat, c: nat)
    requires Consistent(s) && t < |s.slots| && !s.slots[t].avail && c < |s.cpus| && s.cpus[c].idle.None?
    requires |u.slots| == |s.slots| && u.slots == s.slots[t := u.slots[t]]
             && u.cpus == s.cpus[c := s.cpus[c].(idle := Some(t))]
    requires u.slots[t].avail && !u.slots[t].running
    ensures Consistent(u)
  {
    UnusedSlot(s, t);
    assert forall d: nat, k: nat :: IsTask(u, d, k) <==> IsTask(s, d, k);
    assert forall d: nat, k: nat :: IsIdle(u, d, k) <==> IsIdle(s, d, k) || (d == c && k == t);
    forall k | 0 <= k < |u.slots| ensures SlotConsistent(u, k) {
      assert SlotConsistent(s, k);
      if k != t && u.slots[k].running { assert IsTask(u, u.slots[k].cpu.value, k); }
      if k != t && u.slots[k].avail && !u.slots[k].running { var d :| IsIdle(s, d, k); assert IsIdle(u, d, k); }
      if k == t { assert IsIdle(u, c, t); }
    }
    assert CpuConsistent(s.cpus[c]);
  }

  /** The task thread of CPU `c` is stopped and its slot freed. */
  lemma EndTask(s: Tables, u: Tables, t: nat, c: nat)
    requires Consistent(s) && IsTask(s, c, t)
    requires |u.slots| == |s.slots| && u.slots == s.slots[t := u.slots[t]] && |u.cpus| == |s.cpus|
    requires u.cpus == s.cpus[c := u.cpus[c]] && u.cpus[c].idle == s.cpus[c].idle && u.cpus[c].task.None?
             && CpuConsistent(u.cpus[c])
    requires !u.slots[t].avail && !u.slots[t].running
    ensures Consistent(u)
  {
    SameIdles(s, u, c);
    forall d: nat, k: nat | IsTask(u, d, k) ensures IsTask(s, d, k) && k != t {
      assert d != c && IsTask(s, d, k);
    }
    forall k | 0 <= k < |u.slots| ensures SlotConsistent(u, k) {
      assert SlotConsistent(s, k);
      if k != t && u.slots[k].running {
        assert IsTask(s, u.slots[k].cpu.value, k) && IsTask(u, u.slots[k].cpu.value, k);
      }
      if k != t && u.slots[k].avail && !u.slots[k].running { var d :| IsIdle(s, d, k); assert IsIdle(u, d, k); }
    }
  }

  /** Two tables that differ only in register frames, thread identifiers, unused slots and current threads. */
  ghost predicate SameShape(s: Tables, u: Tables) {
    && |u.slots| == |s.slots| && |u.cpus| == |s.cpus|
    && (forall t :: 0 <= t < |s.slots| ==> SameUse(s.slots[t], u.slots[t]))
    && (forall c :: 0 <= c < |s.cpus| ==> SameThreads(s.cpus[c], u.cpus[c]) && CpuConsistent(u.cpus[c]))
  }

  predicate SameUse(a: Thread, b: Thread) {
    b.avail == a.avail && b.running == a.running && (a.running ==> b.cpu == a.cpu)
  }

  predicate SameThreads(a: Cpu, b: Cpu) {
    b.idle == a.idle && b.task == a.task && b.present == a.present
  }

  lemma ShapeKept(s: Tables, u: Tables)
    requires Consistent(s) && SameShape(s, u)
    ensures Consistent(u)
  {
    assert forall d: nat, k: nat ::
             (IsTask(u, d, k) <==> IsTask(s, d, k)) && (IsIdle(u, d, k) <==> IsIdle(s, d, k)) by {
      forall d: nat, k: nat ensures (IsTask(u, d, k) <==> IsTask(s, d, k)) && (IsIdle(u, d, k) <==> IsIdle(s, d, k)) {
        if d < |s.cpus| { assert SameThreads(s.cpus[d], u.cpus[d]); }
      }
    }
    forall k | 0 <= k < |u.slots| ensures SlotConsistent(u, k) {
      assert SlotConsistent(s, k) && SameUse(s.slots[k], u.slots[k]);
      if u.slots[k].avail && !u.slots[k].running { var d :| IsIdle(s, d, k); assert IsIdle(u, d, k); }
    }
    forall c: nat, t: nat | IsTask(u, c, t) ensures t < |u.slots| && u.slots[t].running && u.slots[t].cpu == Some(c) {
      assert IsTask(s, c, t) && SameUse(s.slots[t], u.slots[t]);
    }
    forall c: nat, t: nat | IsIdle(u, c, t) ensures t < |u.slots| && u.slots[t].avail && !u.slots[t].running {
      assert IsIdle(s, c, t) && SameUse(s.slots[t], u.slots[t]);
    }
  }

  /** Clone: it fails only for bad arguments, for want of an idle CPU, or because the interrupt could not be raised. */
  lemma CloneConsistent(s: Tables, cur: nat, a: CloneArgs, ctx: Frame, stackIntr: int, ipi: int)
    requires Consistent(s) && cur < |s.cpus|
    ensures Consistent(Clone(s, cur, a, ctx, stackIntr, ipi).0)
    ensures var r := Clone(s, cur, a, ctx, stackIntr, ipi).1;
            if BadArgs(a) then r == -EFAULT
            else if IdleCpu(s.cpus, 0).None? then r == -ENOMEM
            else if ipi != 0 then r == ipi
            else r == Tid(s.nextTid)
  {
    var c := IdleCpu(s.cpus, 0);
    if !BadArgs(a) && c.Some? {
      FreeSlotExists(s, c.value);
      var t := FreeSlot(s.slots, 0).value;
      var u := Clone(s, cur, a, ctx, stackIntr, ipi).0;
      if ipi == 0 {
        StartTask(s, u, t, c.value);
      } else {
        assert SlotConsistent(s, t) && u.cpus == s.cpus;
        ShapeKept(s, u);
      }
    }
  }

  lemma SwitchConsistent(s: Tables, c: nat)
    requires Consistent(s) && c < |s.cpus| && s.cpus[c].idle.Some?
    ensures IsIdle(s, c, s.cpus[c].idle.value) && s.cpus[c].idle.value < |s.slots|
    ensures s.cpus[c].task.Some? ==> IsTask(s, c, s.cpus[c].task.value) && s.cpus[c].task.value < |s.slots|
    ensures Consistent(Switch(s, c))
  {
    assert IsIdle(s, c, s.cpus[c].idle.value);
    assert s.cpus[c].task.Some? ==> IsTask(s, c, s.cpus[c].task.value);
    assert CpuConsistent(s.cpus[c]);
    ShapeKept(s, Switch(s, c));
  }

  /** Exit is safe on every consistent table and keeps it consistent. */
  lemma ExitConsistent(s: Tables, c: nat)
    requires Consistent(s) && c < |s.cpus| && s.cpus[c].idle.Some? && s.cpus[c].ti == s.cpus[c].task
    ensures IsIdle(s, c, s.cpus[c].idle.value) && s.cpus[c].idle.value < |s.slots|
    ensures s.cpus[c].task.Some? ==> s.cpus[c].task.value < |s.slots| && s.slots[s.cpus[c].task.value].cpu == Some(c)
    ensures Consistent(Exit(s, c).0)
  {
    assert IsIdle(s, c, s.cpus[c].idle.value);
    if s.cpus[c].task.Some? {
      var t := s.cpus[c].task.value;
      assert IsTask(s, c, t);
      var u := Exit(s, c).0;
      assert t != s.cpus[c].idle.value;
      EndTask(s, u, t, c);
    }
  }

  // ----- runs -------------------------------------------------------------------------------

  /** Boot steps, system calls and traps; `Trap` stands for whatever a thread does between system calls. */
  datatype Op =
    | BootIdle(c: nat, ctx: Frame, regs: Frame)
    | BootMain(c: nat, ctx: Frame, regs: Frame)
    | CloneOp(cur: nat, args: CloneArgs, ctx: Frame, stackIntr: int, ipi: int)
    | ExitOp(c: nat)
    | SwitchOp(c: nat)
    | Trap(c: nat, regs: Frame)

  /** Exit is called by the task thread that runs; a switch is asked for at boot or by either thread of a CPU. */
  predicate Enabled(s: Tables, op: Op) {
    match op
    case BootIdle(c, _, _) => c < |s.cpus| && s.cpus[c].present && s.cpus[c].idle.None?
    case BootMain(c, _, _) => c < |s.cpus| && s.cpus[c].present && s.cpus[c].task.None?
    case CloneOp(cur, _, _, _, _) => cur < |s.cpus|
    case ExitOp(c) => c < |s.cpus| && s.cpus[c].idle.Some? && s.cpus[c].ti == s.cpus[c].task
    case SwitchOp(c) => c < |s.cpus| && s.cpus[c].idle.Some?
    case Trap(c, _) => c < |s.cpus|
  }

  ghost function Do(s: Tables, op: Op): Tables
    requires Consistent(s) && Enabled(s, op)
  {
    match op
    case BootIdle(c, ctx, regs) =>
      FreeSlotExists(s, c);
      var t := FreeSlot(s.slots, 0).value;
      var s1 := SetRegs(Fill(s, t, ctx), t, regs);
      s1.(cpus := s1.cpus[c := s1.cpus[c].(idle := Some(t))])
    case BootMain(c, ctx, regs) =>
      FreeSlotExists(s, c);
      var t := FreeSlot(s.slots, 0).value;
      Run(SetRegs(Fill(s, t, ctx), t, regs), t, c)
    case CloneOp(cur, args, ctx, stackIntr, ipi) => Clone(s, cur, args, ctx, stackIntr, ipi).0
    case ExitOp(c) => ExitConsistent(s, c); Exit(s, c).0
    case SwitchOp(c) => SwitchConsistent(s, c); Switch(s, c)
    case Trap(c, regs) => s.(cpus := s.cpus[c := s.cpus[c].(regs := regs)])
  }

  lemma DoConsistent(s: Tables, op: Op)
    requires Consistent(s) && Enabled(s, op)
    ensures Consistent(Do(s, op)) && |Do(s, op).cpus| == |s.cpus|
  {
    match op
    case BootIdle(c, _, _) => FreeSlotExists(s, c); StartIdle(s, Do(s, op), FreeSlot(s.slots, 0).value, c);
    case BootMain(c, _, _) => FreeSlotExists(s, c); StartTask(s, Do(s, op), FreeSlot(s.slots, 0).value, c);
    case CloneOp(cur, args, ctx, stackIntr, ipi) => CloneConsistent(s, cur, args, ctx, stackIntr, ipi);
    case ExitOp(c) => ExitConsistent(s, c);
    case SwitchOp(c) => SwitchConsistent(s, c);
    case Trap(c, _) => assert CpuConsistent(s.cpus[c]); ShapeKept(s, Do(s, op));
  }

  ghost predicate Boot(s: Tables) {
    && WellFormed(s)
    && s.nextTid == 1
    && (forall t :: 0 <= t < |s.slots| ==> !s.slots[t].avail && !s.slots[t].running)
    && (forall c :: 0 <= c < |s.cpus| ==> s.cpus[c].ti.None? && s.cpus[c].idle.None? && s.cpus[c].task.None?)
  }

  /** `s` is reached from `s0` by the operations `ops`. */
  ghost predicate Reaches(s0: Tables, ops: seq<Op>, s: Tables)
    decreases |ops|
  {
    if ops == [] then s == s0
    else Consistent(s0) && Enabled(s0, ops[0]) && Reaches(Do(s0, ops[0]), ops[1..], s)
  }

  /** Every run from boot keeps the tables consistent; there is a slot for a clone whenever a CPU is idle. */
  lemma {:induction false} RunConsistent(s0: Tables, ops: seq<Op>, s: Tables)
    requires Consistent(s0) && TidsDistinct(s0) && Reaches(s0, ops, s)
    ensures Consistent(s) && TidsDistinct(s) && |s.cpus| == |s0.cpus|
    ensures forall c :: 0 <= c < |s.cpus| && s.cpus[c].task.None? ==> FreeSlot(s.slots, 0).Some?
    decreases |ops|
  {
    if ops == [] {
      forall c | 0 <= c < |s.cpus| && s.cpus[c].task.None? ensures FreeSlot(s.slots, 0).Some? { FreeSlotExists(s, c); }
    } else {
      DoConsistent(s0, ops[0]);
      DoTids(s0, ops[0]);
      RunConsistent(Do(s0, ops[0]), ops[1..], s);
    }
  }

  lemma BootConsistent(s: Tables)
    requires Boot(s)
    ensures Consistent(s) && TidsDistinct(s)
  {}

  // ----- thread identifiers -----------------------------------------------------------------

  /**
   The `m`-th and `n`-th thread ever created share an identifier exactly when a multiple of 2^32 lies between
   them.
   */
  lemma TidRepeats(m: nat, n: nat)
    ensures Tid(m) == Tid(n) <==> (m - n) % 0x1_0000_0000 == 0
  {
    var x, y := m + 0x8000_0000, n + 0x8000_0000;
    assert x == 0x1_0000_0000 * (x / 0x1_0000_0000) + x % 0x1_0000_0000;
    assert y == 0x1_0000_0000 * (y / 0x1_0000_0000) + y % 0x1_0000_0000;
  }

  /** From boot on, in every run: consistent tables, distinct identifiers, and a slot for every idle CPU. */
  lemma BootedRun(s0: Tables, ops: seq<Op>, s: Tables)
    requires Boot(s0) && Reaches(s0, ops, s)
    ensures Consistent(s) && TidsDistinct(s)
    ensures forall c :: 0 <= c < |s.cpus| && s.cpus[c].task.None? ==> FreeSlot(s.slots, 0).Some?
  {
    hide Consistent, TidsDistinct, Boot;
    BootConsistent(s0);
    RunConsistent(s0, ops, s);
  }

  ghost predicate Issued(tid: int, n: nat) {
    exists k: nat :: k < n && tid == Tid(k)
  }

  /** Threads in use were issued their identifiers, and until the counter wraps no two share one. */
  ghost predicate TidsDistinct(s: Tables) {
    && (forall t :: 0 <= t < |s.slots| && s.slots[t].avail ==> Issued(s.slots[t].tid, s.nextTid))
    && (s.nextTid <= 0x1_0000_0000 ==>
          forall t, u :: 0 <= t < u < |s.slots| && s.slots[t].avail && s.slots[u].avail ==>
            s.slots[t].tid != s.slots[u].tid)
  }

  lemma FreshTid(n: nat, tid: int)
    requires n < 0x1_0000_0000 && Issued(tid, n)
    ensures tid != Tid(n)
  {
    var k: nat :| k < n && tid == Tid(k);
    TidRepeats(k, n);
  }

  lemma IssuedMore(tid: int, m: nat, n: nat)
    requires Issued(tid, m) && m <= n
    ensures Issued(tid, n)
  {}

  /** At most slot `t` is new in `u`, with the next identifier; the others keep theirs. */
  lemma TidsKept(s: Tables, u: Tables, t: nat)
    requires TidsDistinct(s) && |u.slots| == |s.slots|
    requires forall k :: 0 <= k < |s.slots| && k != t ==>
             u.slots[k].tid == s.slots[k].tid && (u.slots[k].avail ==> s.slots[k].avail)
    requires t < |s.slots| && u.slots[t].avail ==> u.slots[t].tid == Tid(s.nextTid) && u.nextTid == s.nextTid + 1
    requires u.nextTid == s.nextTid || u.nextTid == s.nextTid + 1
    ensures TidsDistinct(u)
  {
    forall k | 0 <= k < |u.slots| && u.slots[k].avail ensures Issued(u.slots[k].tid, u.nextTid) {
      if k != t { IssuedMore(s.slots[k].tid, s.nextTid, u.nextTid); }
    }
    if u.nextTid <= 0x1_0000_0000 && t < |s.slots| && u.slots[t].avail {
      forall k | 0 <= k < |u.slots| && k != t && u.slots[k].avail ensures u.slots[k].tid != u.slots[t].tid {
        FreshTid(s.nextTid, s.slots[k].tid);
      }
    }
  }

  lemma DoTids(s: Tables, op: Op)
    requires Consistent(s) && Enabled(s, op) && TidsDistinct(s)
    ensures TidsDistinct(Do(s, op))
  {
    var u := Do(s, op);
    match op
    case BootIdle(c, _, _) => FreeSlotExists(s, c); TidsKept(s, u, FreeSlot(s.slots, 0).value);
    case BootMain(c, _, _) => FreeSlotExists(s, c); TidsKept(s, u, FreeSlot(s.slots, 0).value);
    case CloneOp(cur, args, ctx, stackIntr, ipi) => CloneTids(s, cur, args, ctx, stackIntr, ipi);
    case ExitOp(c) => ExitConsistent(s, c); TidsKept(s, u, |s.slots|);
    case SwitchOp(c) => SwitchConsistent(s, c); TidsKept(s, u, |s.slots|);
    case Trap(c, _) =>
  }

  lemma CloneTids(s: Tables, cur: nat, a: CloneArgs, ctx: Frame, stackIntr: int, ipi: int)
    requires Consistent(s) && cur < |s.cpus| && TidsDistinct(s)
    ensures TidsDistinct(Clone(s, cur, a, ctx, stackIntr, ipi).0)
  {
    var u := Clone(s, cur, a, ctx, stackIntr, ipi).0;
    if !BadArgs(a) && IdleCpu(s.cpus, 0).Some? {
      FreeSlotExists(s, IdleCpu(s.cpus, 0).value);
      TidsKept(s, u, FreeSlot(s.slots, 0).value);
    }
  }

  // ----- the idle thread's frame ------------------------------------------------------------

  predicate InTask(s: Tables, c: nat) {
    c < |s.cpus| && s.cpus[c].task.Some? && s.cpus[c].ti == s.cpus[c].task && s.cpus[c].idle.Some?
  }

  /** The frame saved for the idle thread of CPU `c`. */
  function SavedIdle(s: Tables, c: nat): Frame
    requires c < |s.cpus| && s.cpus[c].idle.Some? && s.cpus[c].idle.value < |s.slots|
  {
    s.slots[s.cpus[c].idle.value].regs
  }

  /** CPU `c` still runs its task in `u`, and the frame of its idle thread is as it was in `s`. */
  ghost predicate StillInTask(s: Tables, u: Tables, c: nat)
    requires InTask(s, c)
  {
    && InTask(u, c) && u.cpus[c].idle == s.cpus[c].idle && u.cpus[c].task == s.cpus[c].task
    && var i := s.cpus[c].idle.value;
       i < |s.slots| == |u.slots| && u.slots[i].regs == s.slots[i].regs
  }

  lemma IdleKeptByExit(s: Tables, d: nat, c: nat)
    requires Consistent(s) && Enabled(s, ExitOp(d)) && InTask(s, c) && d != c
    ensures StillInTask(s, Do(s, ExitOp(d)), c)
  {
    assert IsIdle(s, c, s.cpus[c].idle.value);
    ExitConsistent(s, d);
    assert s.cpus[d].task.Some? ==> IsTask(s, d, s.cpus[d].task.value);
  }

  lemma IdleKeptBySwitch(s: Tables, d: nat, c: nat)
    requires Consistent(s) && Enabled(s, SwitchOp(d)) && InTask(s, c)
    ensures StillInTask(s, Do(s, SwitchOp(d)), c)
  {
    SwitchConsistent(s, d);
    assert IsIdle(s, c, s.cpus[c].idle.value) && IsIdle(s, d, s.cpus[d].idle.value);
    assert IsTask(s, c, s.cpus[c].task.value);
  }

  /** While CPU `c` runs its task, no operation but its own exit touches its idle thread. */
  lemma IdleUntouched(s: Tables, op: Op, c: nat)
    requires Consistent(s) && Enabled(s, op) && InTask(s, c) && op != ExitOp(c)
    ensures StillInTask(s, Do(s, op), c)
  {
    assert IsIdle(s, c, s.cpus[c].idle.value);
    match op
    case BootIdle(d, _, _) => FreeSlotExists(s, d);
    case BootMain(d, _, _) => FreeSlotExists(s, d);
    case CloneOp(cur, args, ctx, stackIntr, ipi) =>
      if !BadArgs(args) && IdleCpu(s.cpus, 0).Some? { FreeSlotExists(s, IdleCpu(s.cpus, 0).value); }
    case ExitOp(d) => IdleKeptByExit(s, d, c);
    case SwitchOp(d) => IdleKeptBySwitch(s, d, c);
    case Trap(_, _) =>
  }

  lemma {:induction false} IdleUntouchedRun(s: Tables, ops: seq<Op>, u: Tables, c: nat)
    requires Consistent(s) && InTask(s, c) && Reaches(s, ops, u) && ExitOp(c) !in ops
    ensures Consistent(u) && InTask(u, c) && |u.slots| == |s.slots| && u.cpus[c].idle == s.cpus[c].idle
    ensures var i := s.cpus[c].idle.value; i < |s.slots| && u.slots[i].regs == s.slots[i].regs
    decreases |ops|
  {
    assert IsIdle(s, c, s.cpus[c].idle.value);
    if ops != [] {
      IdleUntouched(s, ops[0], c);
      DoConsistent(s, ops[0]);
      IdleUntouchedRun(Do(s, ops[0]), ops[1..], u, c);
    }
  }

  /** An exit on CPU `c` brings back the frame and thread of `was`; storing its result in the frame changes nothing. */
  ghost predicate ReturnsTo(u: Tables, c: nat, was: Cpu) {
    Consistent(u) && Enabled(u, ExitOp(c)) &&
    (ExitConsistent(u, c);
     var (v, r) := Exit(u, c);
     c < |v.cpus| && v.cpus[c].ti == was.idle && v.cpus[c].regs == was.regs && v.cpus[c].regs.(a0 := r) == was.regs)
  }

  /**
   The idle context survives every cycle: when CPU `c` leaves its idle thread for a task and that
   task later exits, whatever all CPUs did in between, the frame the CPU returns to is the one it
   left, and the system call's result is that frame's own first argument register.
   */
  lemma IdleRoundTrip(s: Tables, ops: seq<Op>, u: Tables, c: nat)
    requires Consistent(s) && c < |s.cpus| && s.cpus[c].idle.Some? && s.cpus[c].ti == s.cpus[c].idle
             && s.cpus[c].task.Some?
    requires Reaches(Do(s, SwitchOp(c)), ops, u) && ExitOp(c) !in ops
    ensures ReturnsTo(u, c, s.cpus[c])
  {
    SwitchConsistent(s, c);
    var v := Switch(s, c);
    assert InTask(v, c) && SavedIdle(v, c) == s.cpus[c].regs;
    IdleUntouchedRun(v, ops, u, c);
    ExitConsistent(u, c);
    assert IsTask(u, c, u.cpus[c].task.value) && IsIdle(u, c, u.cpus[c].idle.value);
  }

  /** A task thread that asks for a switch stays, but starts again from the frame saved in its slot. */
  lemma SwitchInTask(s: Tables, c: nat)
    requires Consistent(s) && InTask(s, c)
    ensures s.cpus[c].idle.value < |s.slots| && s.cpus[c].task.value < |s.slots|
    ensures var t := s.cpus[c].task.value;
            Switch(s, c) == s.(cpus := s.cpus[c := s.cpus[c].(regs := s.slots[t].regs)])
  {
    SwitchConsistent(s, c);
    assert IsTask(s, c, s.cpus[c].task.value) && IsIdle(s, c, s.cpus[c].idle.value);
  }

  /**
   A switch asked for by the idle thread with no task changes nothing the CPU returns to, and storing its result
   neither.
   */
  lemma SwitchWithoutTask(s: Tables, c: nat)
    requires Consistent(s) && c < |s.cpus| && s.cpus[c].idle.Some? && s.cpus[c].ti == s.cpus[c].idle
             && s.cpus[c].task.None?
    ensures s.cpus[c].idle.value < |s.slots| && Switch(s, c).cpus == s.cpus
    ensures var regs := Switch(s, c).cpus[c].regs; regs.(a0 := regs.a0) == s.cpus[c].regs
  {
    SwitchConsistent(s, c);
  }
}

/**
 From clone to the child's first instruction: the CPU that was given the child loads, whatever the
 others do meanwhile, the frame that clone built from the caller's.
 */
module ThreadStart {

  import opened Common
  import opened Threads
  import opened ThreadRuns

  /** The caller's frame with the child's result, stacks and thread area. */
  function ChildFrame(parent: Frame, a: CloneArgs, stackIntr: int): Frame {
    Frame(0, a.childStack, stackIntr, if a.flags.settls then a.tls else 0, parent.mepc, parent.others)
  }

  /** A clone that succeeds gives the first idle CPU a task and touches no other CPU, the caller's frame included. */
  lemma CloneStarts(s: Tables, cur: nat, a: CloneArgs, ctx: Frame, stackIntr: int) returns (t: nat)
    requires Consistent(s) && cur < |s.cpus| && !BadArgs(a) && IdleCpu(s.cpus, 0).Some?
    ensures var (u, r) := Clone(s, cur, a, ctx, stackIntr, 0);
            var d := IdleCpu(s.cpus, 0).value;
            && t < |s.slots| == |u.slots| && !s.slots[t].avail
            && u.cpus == s.cpus[d := s.cpus[d].(task := Some(t))]
            && u.slots == s.slots[t := u.slots[t]]
            && u.slots[t].avail && u.slots[t].tid == r == Tid(s.nextTid)
            && u.slots[t].regs == ChildFrame(s.cpus[cur].regs, a, stackIntr)
  {
    FreeSlotExists(s, IdleCpu(s.cpus, 0).value);
    t := FreeSlot(s.slots, 0).value;
  }

  /**
   Clone refuses a request with -EFAULT, and changes nothing, as soon as one flag lacks its own address,
   whatever the rest.  With every address given, or none asked for, it fails only for want of an
   idle CPU or with the interrupt's error.
   */
  lemma CloneAnswers(s: Tables, cur: nat, a: CloneArgs, ctx: Frame, stackIntr: int, ipi: int)
    requires Consistent(s) && cur < |s.cpus|
    ensures var (u, r) := Clone(s, cur, a, ctx, stackIntr, ipi);
            && (a.flags.childCleartid && a.ctid == 0 ==> r == -14 && u == s)
            && (a.flags.childSettid && a.ctid == 0 ==> r == -14 && u == s)
            && (a.flags.parentSettid && a.ptid == 0 ==> r == -14 && u == s)
            && (a.flags.settls && a.tls == 0 ==> r == -14 && u == s)
            && ((a.ctid != 0 && a.ptid != 0 && a.tls != 0) || a.flags == CloneFlags(false, false, false, false) ==>
                  r == if IdleCpu(s.cpus, 0).None? then -12 else if ipi != 0 then ipi else Tid(s.nextTid))
  {
    hide Consistent;
    CloneConsistent(s, cur, a, ctx, stackIntr, ipi);
  }

  /** The new slot records the request: the flags, and each address exactly if a flag asks for it. */
  lemma CloneRecords(s: Tables, cur: nat, a: CloneArgs, ctx: Frame, stackIntr: int)
    requires Consistent(s) && cur < |s.cpus| && IdleCpu(s.cpus, 0).Some? && FreeSlot(s.slots, 0).Some?
    requires Clone(s, cur, a, ctx, stackIntr, 0).0 != s
    ensures var t := FreeSlot(s.slots, 0).value;
            var u := Clone(s, cur, a, ctx, stackIntr, 0).0;
            && |u.slots| == |s.slots| && u.slots[t].flags == a.flags
            && u.slots[t].ctid == (if a.flags.childCleartid || a.flags.childSettid then a.ctid else 0)
            && u.slots[t].ptid == (if a.flags.parentSettid then a.ptid else 0)
            && u.slots[t].tls == (if a.flags.settls then a.tls else 0)
            && u.slots[t].regs.tp == u.slots[t].tls
            && u.slots[t].running && u.slots[t].cpu == IdleCpu(s.cpus, 0)
  {
  }

  /** A clone whose interrupt cannot be raised leaves no thread behind. */
  lemma CloneUndone(s: Tables, cur: nat, a: CloneArgs, ctx: Frame, stackIntr: int, ipi: int)
    requires Consistent(s) && cur < |s.cpus| && ipi != 0
    ensures var u := Clone(s, cur, a, ctx, stackIntr, ipi).0;
            && u.cpus == s.cpus && |u.slots| == |s.slots|
            && (forall t :: 0 <= t < |s.slots| ==> u.slots[t].avail == s.slots[t].avail)
            && (forall t :: 0 <= t < |s.slots| && s.slots[t].avail ==> u.slots[t] == s.slots[t])
  {
    if IdleCpu(s.cpus, 0).Some? {
      FreeSlotExists(s, IdleCpu(s.cpus, 0).value);
    }
  }

  /** Running a thread and stopping it again changes nothing. */
  lemma StopUndoesRun(s: Tables, t: nat, c: nat)
    requires t < |s.slots| && c < |s.cpus|
    requires !s.slots[t].running && s.slots[t].cpu.None? && s.cpus[c].task.None?
    ensures var u := Run(s, t, c);
            && u.slots[t].running && u.slots[t].cpu == Some(c) && u.cpus[c].task == Some(t) && Stop(u, t) == s
  {
    var u := Stop(Run(s, t, c), t);
    assert u.slots == s.slots && u.cpus == s.cpus;
  }

  /** A running thread is not destroyed; any other gives up its slot and nothing else changes. */
  lemma DestroyAnswers(s: Tables, t: nat)
    requires t < |s.slots|
    ensures s.slots[t].running ==> Destroy(s, t) == (s, -16)
    ensures !s.slots[t].running ==>
              Destroy(s, t) == (s.(slots := s.slots[t := s.slots[t].(avail := false)]), 0)
  {
  }

  /** Exit frees the slot of its thread, takes it off the CPU and goes back to the idle thread; nothing else changes. */
  lemma ExitEnds(s: Tables, c: nat)
    requires Consistent(s) && InTask(s, c)
    ensures s.cpus[c].idle.value < |s.slots| && s.cpus[c].task.value < |s.slots|
    ensures s.slots[s.cpus[c].task.value].cpu == Some(c)
    ensures var t := s.cpus[c].task.value;
            var (u, r) := Exit(s, c);
            var idle := s.slots[s.cpus[c].idle.value].regs;
            && u.slots == s.slots[t := s.slots[t].(avail := false, running := false, cpu := None)]
            && u.cpus == s.cpus[c := s.cpus[c].(task := None, ti := s.cpus[c].idle, regs := idle)]
            && u.nextTid == s.nextTid && r == idle.a0
  {
    ExitConsistent(s, c);
    assert IsTask(s, c, s.cpus[c].task.value) && IsIdle(s, c, s.cpus[c].idle.value);
  }

  /** Exit without a task is refused. */
  lemma ExitRefused(s: Tables, c: nat)
    requires c < |s.cpus| && s.cpus[c].idle.Some? && s.cpus[c].idle.value < |s.slots| && s.cpus[c].task.None?
    ensures Exit(s, c) == (s, -22)
  {
  }

  /** CPU `c` is in its idle thread and has been given a task. */
  predicate Waiting(s: Tables, c: nat) {
    c < |s.cpus| && s.cpus[c].task.Some? && s.cpus[c].idle.Some? && s.cpus[c].ti == s.cpus[c].idle
  }

  /** CPU `c` still waits for its switch in `u`, and the frame of its task is as it was in `s`. */
  ghost predicate StillWaiting(s: Tables, u: Tables, c: nat)
    requires Waiting(s, c)
  {
    && Waiting(u, c) && u.cpus[c].task == s.cpus[c].task && u.cpus[c].idle == s.cpus[c].idle
    && var t := s.cpus[c].task.value;
       t < |s.slots| == |u.slots| && u.slots[t].regs == s.slots[t].regs
  }

  /** Until CPU `c` switches, no operation takes its task away or touches the task's frame. */
  lemma TaskUntouched(s: Tables, op: Op, c: nat)
    requires Consistent(s) && Enabled(s, op) && Waiting(s, c) && op != SwitchOp(c)
    ensures StillWaiting(s, Do(s, op), c)
  {
    assert IsTask(s, c, s.cpus[c].task.value) && IsIdle(s, c, s.cpus[c].idle.value);
    assert SlotConsistent(s, s.cpus[c].task.value);
    match op
    case BootIdle(d, _, _) => FreeSlotExists(s, d);
    case BootMain(d, _, _) => FreeSlotExists(s, d);
    case CloneOp(cur, args, ctx, stackIntr, ipi) =>
      if !BadArgs(args) && IdleCpu(s.cpus, 0).Some? { FreeSlotExists(s, IdleCpu(s.cpus, 0).value); }
    case ExitOp(d) => UntouchedByExit(s, d, c);
    case SwitchOp(d) => UntouchedBySwitch(s, d, c);
    case Trap(_, _) =>
  }

  lemma UntouchedByExit(s: Tables, d: nat, c: nat)
    requires Consistent(s) && Enabled(s, ExitOp(d)) && Waiting(s, c)
    ensures StillWaiting(s, Do(s, ExitOp(d)), c)
  {
    assert IsTask(s, c, s.cpus[c].task.value) && IsIdle(s, c, s.cpus[c].idle.value);
    ExitConsistent(s, d);
    assert s.cpus[d].task.Some? ==> IsTask(s, d, s.cpus[d].task.value);
  }

  lemma UntouchedBySwitch(s: Tables, d: nat, c: nat)
    requires Consistent(s) && Enabled(s, SwitchOp(d)) && Waiting(s, c) && d != c
    ensures StillWaiting(s, Do(s, SwitchOp(d)), c)
  {
    assert IsTask(s, c, s.cpus[c].task.value) && IsIdle(s, c, s.cpus[c].idle.value);
    SwitchConsistent(s, d);
  }

  lemma {:induction false} TaskUntouchedRun(s: Tables, ops: seq<Op>, u: Tables, c: nat)
    requires Consistent(s) && Waiting(s, c) && Reaches(s, ops, u) && SwitchOp(c) !in ops
    ensures Consistent(u) && Waiting(u, c) && u.cpus[c].task == s.cpus[c].task
    ensures var t := s.cpus[c].task.value; t < |s.slots| == |u.slots| && u.slots[t].regs == s.slots[t].regs
    decreases |ops|
  {
    assert IsTask(s, c, s.cpus[c].task.value);
    if ops != [] {
      TaskUntouched(s, ops[0], c);
      DoConsistent(s, ops[0]);
      TaskUntouchedRun(Do(s, ops[0]), ops[1..], u, c);
    }
  }

  /** The switch of CPU `d` in `u` puts it into thread `t` with frame `regs`. */
  ghost predicate SwitchesTo(u: Tables, d: nat, t: nat, regs: Frame) {
    Consistent(u) && Enabled(u, SwitchOp(d)) &&
    (SwitchConsistent(u, d);
     var v := Switch(u, d);
     d < |v.cpus| && v.cpus[d].ti == Some(t) && v.cpus[d].regs == regs)
  }

  /**
   A cloned thread starts where its parent was: when the CPU that got it next switches, whatever all
   CPUs did since, it continues with the caller's frame as of the clone, returning 0 on the
   child's stack.
   */
  lemma ChildRuns(s: Tables, cur: nat, a: CloneArgs, ctx: Frame, stackIntr: int, ops: seq<Op>, u: Tables)
    returns (t: nat)
    requires Consistent(s) && cur < |s.cpus| && !BadArgs(a) && IdleCpu(s.cpus, 0).Some?
    requires var d := IdleCpu(s.cpus, 0).value;
             s.cpus[d].idle.Some? && s.cpus[d].ti == s.cpus[d].idle && SwitchOp(d) !in ops
    requires Reaches(Clone(s, cur, a, ctx, stackIntr, 0).0, ops, u)
    ensures SwitchesTo(u, IdleCpu(s.cpus, 0).value, t, ChildFrame(s.cpus[cur].regs, a, stackIntr))
  {
    hide Clone, Consistent;
    var d := IdleCpu(s.cpus, 0).value;
    t := CloneStarts(s, cur, a, ctx, stackIntr);
    CloneConsistent(s, cur, a, ctx, stackIntr, 0);
    TaskUntouchedRun(Clone(s, cur, a, ctx, stackIntr, 0).0, ops, u, d);
    SwitchConsistent(u, d);
  }
}

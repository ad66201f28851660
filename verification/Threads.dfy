/**
 The thread table, the CPU table and the switch between a CPU's idle and task thread.
 */
module Threads {

  import opened Common

  /** A saved register frame: the registers the kernel sets by name, and all the others. */
  datatype Frame = Frame(a0: int, sp: int, mscratch: int, tp: int, mepc: int, others: seq<int>)

  datatype CloneFlags = CloneFlags(childCleartid: bool, childSettid: bool, parentSettid: bool, settls: bool)
  datatype CloneArgs = CloneArgs(flags: CloneFlags, ctid: nat, ptid: nat, childStack: int, tls: int)

  datatype Thread = Thread(
    tid: int, avail: bool, running: bool, flags: CloneFlags, ctid: nat, ptid: nat, tls: int, regs: Frame,
    cpu: Option<nat>)

  /** `regs` is the frame the CPU returns to; `ti` the current thread, `idle` and `task` its two threads. */
  datatype Cpu = Cpu(present: bool, regs: Frame, ti: Option<nat>, idle: Option<nat>, task: Option<nat>)

  datatype Tables = Tables(slots: seq<Thread>, cpus: seq<Cpu>, nextTid: nat)

  /** The counter is a 32-bit signed integer that wraps around. */
  function Tid(n: nat): int {
    (n + 0x8000_0000) % 0x1_0000_0000 - 0x8000_0000
  }

  predicate WellFormed(s: Tables) {
    |s.slots| == 2 * |s.cpus|
  }

  // ----- the operations as functions of the tables ------------------------------------------

  /** The first slot from `i` on that is not in use. */
  function FreeSlot(slots: seq<Thread>, i: nat): (r: Option<nat>)
    requires i <= |slots|
    ensures r.Some? ==> i <= r.value < |slots| && !slots[r.value].avail
    ensures r.Some? ==> forall k :: i <= k < r.value ==> slots[k].avail
    ensures r.None? ==> forall k :: i <= k < |slots| ==> slots[k].avail
    decreases |slots| - i
  {
    if i == |slots| then None else if !slots[i].avail then Some(i) else FreeSlot(slots, i + 1)
  }

  /** The first CPU from `i` on that exists and has no task. */
  function IdleCpu(cpus: seq<Cpu>, i: nat): (r: Option<nat>)
    requires i <= |cpus|
    ensures r.Some? ==> i <= r.value < |cpus| && cpus[r.value].present && cpus[r.value].task.None?
    ensures r.Some? ==> forall k :: i <= k < r.value ==> !(cpus[k].present && cpus[k].task.None?)
    ensures r.None? ==> forall k :: i <= k < |cpus| ==> !(cpus[k].present && cpus[k].task.None?)
    decreases |cpus| - i
  {
    if i == |cpus| then None else if cpus[i].present && cpus[i].task.None? then Some(i) else IdleCpu(cpus, i + 1)
  }

  /** Fill slot `t`; `ctx` is the context the architecture code copies into the new frame. */
  function Fill(s: Tables, t: nat, ctx: Frame): Tables
    requires t < |s.slots|
  {
    var ti := s.slots[t].(tid := Tid(s.nextTid), avail := true, running := false, ctid := 0, ptid := 0, regs := ctx);
    s.(slots := s.slots[t := ti], nextTid := s.nextTid + 1)
  }

  function SetRegs(s: Tables, t: nat, regs: Frame): Tables
    requires t < |s.slots|
  {
    s.(slots := s.slots[t := s.slots[t].(regs := regs)])
  }

  function Run(s: Tables, t: nat, c: nat): Tables
    requires t < |s.slots| && c < |s.cpus|
  {
    s.(slots := s.slots[t := s.slots[t].(running := true, cpu := Some(c))],
      cpus := s.cpus[c := s.cpus[c].(task := Some(t))])
  }

  function Stop(s: Tables, t: nat): Tables
    requires t < |s.slots| && s.slots[t].cpu.Some? && s.slots[t].cpu.value < |s.cpus|
  {
    var c := s.slots[t].cpu.value;
    s.(slots := s.slots[t := s.slots[t].(running := false, cpu := None)], cpus := s.cpus[c := s.cpus[c].(task := None)])
  }

  function Destroy(s: Tables, t: nat): (r: (Tables, int))
    requires t < |s.slots|
  {
    if s.slots[t].running then (s, -EBUSY) else (s.(slots := s.slots[t := s.slots[t].(avail := false)]), 0)
  }

  /** The arguments lack an address that the flags ask for. */
  predicate BadArgs(a: CloneArgs) {
    || ((a.flags.childCleartid || a.flags.childSettid) && a.ctid == 0)
    || (a.flags.parentSettid && a.ptid == 0)
    || (a.flags.settls && a.tls == 0)
  }

  /** The thread that clone leaves in the slot it took, before it runs. */
  function Child(ti: Thread, a: CloneArgs, parent: Frame, stackIntr: int): Thread {
    var tls := if a.flags.settls then a.tls else 0;
    ti.(flags := a.flags,
        ctid := if a.flags.childCleartid || a.flags.childSettid then a.ctid else 0,
        ptid := if a.flags.parentSettid then a.ptid else 0,
        tls := tls,
        regs := parent.(a0 := 0, sp := a.childStack, mscratch := stackIntr, tp := tls))
  }

  /** Clone on CPU `cur`; `ipi` is the result of raising the interrupt. */
  function Clone(s: Tables, cur: nat, a: CloneArgs, ctx: Frame, stackIntr: int, ipi: int): (r: (Tables, int))
    requires cur < |s.cpus|
  {
    if BadArgs(a) then (s, -EFAULT)
    else
      var c := IdleCpu(s.cpus, 0);
      if c.None? then (s, -ENOMEM)
      else
        var t := FreeSlot(s.slots, 0);
        if t.None? then (s, -ENOMEM)
        else
          var s1 := Fill(s, t.value, ctx);
          var s2 := s1.(slots := s1.slots[t.value := Child(s1.slots[t.value], a, s.cpus[cur].regs, stackIntr)]);
          var s3 := Run(s2, t.value, c.value);
          if ipi != 0 then (Destroy(Stop(s3, t.value), t.value).0, ipi)
          else (s3, s3.slots[t.value].tid)
  }

  /** Save the idle thread's frame if it is current, then load the frame of the task thread or of the idle thread. */
  function Switch(s: Tables, c: nat): Tables
    requires c < |s.cpus| && s.cpus[c].idle.Some? && s.cpus[c].idle.value < |s.slots|
    requires s.cpus[c].task.Some? ==> s.cpus[c].task.value < |s.slots|
  {
    var cpu := s.cpus[c];
    var s1 := if cpu.ti == cpu.idle then SetRegs(s, cpu.idle.value, cpu.regs) else s;
    if cpu.ti.Some? && cpu.task.Some?
    then s1.(cpus := s1.cpus[c := cpu.(regs := s1.slots[cpu.task.value].regs, ti := cpu.task)])
    else s1.(cpus := s1.cpus[c := cpu.(regs := s1.slots[cpu.idle.value].regs, ti := cpu.idle)])
  }

  /** Exit of the task thread of CPU `c`, and the value its system call returns. */
  function Exit(s: Tables, c: nat): (r: (Tables, int))
    requires c < |s.cpus| && s.cpus[c].idle.Some? && s.cpus[c].idle.value < |s.slots|
    requires s.cpus[c].task.Some? ==> s.cpus[c].task.value < |s.slots| && s.slots[s.cpus[c].task.value].cpu == Some(c)
  {
    if s.cpus[c].task.None? then (s, -EINVAL)
    else
      var t := s.cpus[c].task.value;
      var s1 := Destroy(Stop(s, t), t).0;
      var s2 := Switch(s1, c);
      (s2, s2.cpus[c].regs.a0)
  }

  // ----- the code ---------------------------------------------------------------------------

  class Kernel {
    var slots: seq<Thread>
    var cpus: seq<Cpu>
    var nextTid: nat

    ghost function View(): Tables
      reads this
    {
      Tables(slots, cpus, nextTid)
    }

    constructor (cpus: seq<Cpu>, blank: Thread)
      ensures View() == Tables(seq(2 * |cpus|, _ => blank), cpus, 1)
    {
      this.cpus := cpus;
      this.slots := seq(2 * |cpus|, _ => blank);
      this.nextTid := 1;
    }

    method Create(ctx: Frame) returns (t: Option<nat>)
      modifies this
      ensures t == FreeSlot(old(slots), 0)
      ensures View() == if t.Some? then Fill(old(View()), t.value, ctx) else old(View())
    {
      var found, i := false, 0;
      while i < |slots|
        invariant 0 <= i <= |slots| && !found
        invariant FreeSlot(slots, 0) == FreeSlot(slots, i)
      {
        if !slots[i].avail {
          found := true;
          break;
        }
        i := i + 1;
      }
      if !found {
        return None;
      }
      var tid := Tid(nextTid);
      nextTid := nextTid + 1;
      slots := slots[i := slots[i].(tid := tid, avail := true, running := false)];
      slots := slots[i := slots[i].(ctid := 0, ptid := 0)];
      slots := slots[i := slots[i].(regs := ctx)];
      t := Some(i);
    }

    method DestroyThread(t: nat) returns (r: int)
      requires t < |slots|
      modifies this
      ensures (View(), r) == Destroy(old(View()), t)
    {
      if slots[t].running {
        return -EBUSY;
      }
      slots := slots[t := slots[t].(avail := false)];
      r := 0;
    }

    method RunThread(t: nat, c: nat)
      requires t < |slots| && c < |cpus|
      modifies this
      ensures View() == Run(old(View()), t, c)
    {
      slots := slots[t := slots[t].(running := true)];
      slots := slots[t := slots[t].(cpu := Some(c))];
      cpus := cpus[c := cpus[c].(task := Some(t))];
    }

    method StopThread(t: nat)
      requires t < |slots| && slots[t].cpu.Some? && slots[t].cpu.value < |cpus|
      modifies this
      ensures View() == Stop(old(View()), t)
    {
      var c := slots[t].cpu.value;
      cpus := cpus[c := cpus[c].(task := None)];
      slots := slots[t := slots[t].(cpu := None)];
      slots := slots[t := slots[t].(running := false)];
    }

    method FindIdleCpu() returns (c: Option<nat>)
      ensures c == IdleCpu(cpus, 0)
    {
      var id := 0;
      while id < |cpus|
        invariant 0 <= id <= |cpus|
        invariant IdleCpu(cpus, 0) == IdleCpu(cpus, id)
      {
        if cpus[id].present && cpus[id].task.None? {
          return Some(id);
        }
        id := id + 1;
      }
      c := None;
    }

    method CloneThread(cur: nat, a: CloneArgs, ctx: Frame, stackIntr: int, ipi: int) returns (r: int)
      requires cur < |cpus|
      modifies this
      ensures (View(), r) == Clone(old(View()), cur, a, ctx, stackIntr, ipi)
    {
      var needCtid, needPtid, needTls := false, false, false;
      if a.flags.childCleartid || a.flags.childSettid {
        if a.ctid == 0 { return -EFAULT; }
        needCtid := true;
      }
      if a.flags.parentSettid {
        if a.ptid == 0 { return -EFAULT; }
        needPtid := true;
      }
      if a.flags.settls {
        if a.tls == 0 { return -EFAULT; }
        needTls := true;
      }
      var c := FindIdleCpu();
      if c.None? {
        return -ENOMEM;
      }
      var slot := Create(ctx);
      if slot.None? {
        return -ENOMEM;
      }
      var t := slot.value;
      var ti := slots[t].(flags := a.flags, ctid := 0, ptid := 0, tls := 0);
      if needCtid { ti := ti.(ctid := a.ctid); }
      if needPtid { ti := ti.(ptid := a.ptid); }
      if needTls { ti := ti.(tls := a.tls); }
      ti := ti.(regs := cpus[cur].regs);
      ti := ti.(regs := ti.regs.(a0 := 0, sp := a.childStack, mscratch := stackIntr, tp := ti.tls));
      slots := slots[t := ti];
      RunThread(t, c.value);
      if ipi != 0 {
        StopThread(t);
        var d := DestroyThread(t);
        return ipi;
      }
      r := slots[t].tid;
    }

    method ContextSwitch(c: nat)
      requires c < |cpus| && cpus[c].idle.Some? && cpus[c].idle.value < |slots|
      requires cpus[c].task.Some? ==> cpus[c].task.value < |slots|
      modifies this
      ensures View() == Switch(old(View()), c)
    {
      var cpu := cpus[c];
      if cpu.ti == cpu.idle {
        slots := slots[cpu.idle.value := slots[cpu.idle.value].(regs := cpu.regs)];
      }
      if cpu.ti.Some? && cpu.task.Some? {
        cpus := cpus[c := cpus[c].(regs := slots[cpu.task.value].regs, ti := cpu.task)];
      } else {
        cpus := cpus[c := cpus[c].(regs := slots[cpu.idle.value].regs, ti := cpu.idle)];
      }
    }

    method ExitThread(c: nat) returns (r: int)
      requires c < |cpus| && cpus[c].idle.Some? && cpus[c].idle.value < |slots|
      requires cpus[c].task.Some? ==> cpus[c].task.value < |slots| && slots[cpus[c].task.value].cpu == Some(c)
      modifies this
      ensures (View(), r) == Exit(old(View()), c)
    {
      var task := cpus[c].task;
      if task.None? {
        return -EINVAL;
      }
      StopThread(task.value);
      var d := DestroyThread(task.value);
      if d != 0 {
        return d;
      }
      ContextSwitch(c);
      r := cpus[c].regs.a0;
    }
  }
}

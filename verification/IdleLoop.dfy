/**
 The idle loop of one CPU against the clone that gives it a task.  The loop reads its task with
 interrupts enabled, so an interrupt that is taken between the read and the wait instruction uses
 up the wake-up; the model says exactly when a cloned thread is left behind that way.
 */
module IdleLoop {

  /** Before each statement of the loop; `InTask` is the time its task thread runs. */
  datatype Pc = Top | Read | Test | BeforeWfi | Asleep | Reread | Switch | InTask | Done

  /**
   `seen` is the loop's own copy of "there is a task"; `due` says that a clone has assigned one
   and has yet to raise its interrupt.
   */
  datatype State = State(pc: Pc, seen: bool, task: bool, due: bool, msip: bool, running: bool)

  /**
   The CPU goes on, takes the pending software interrupt or another one; a clone assigns a thread and
   raises its interrupt; some CPU sends an interrupt for another reason; the CPU is told to stop.
   */
  datatype Act = Go | TakeIpi | TakeOther | Assign | Raise | SendIpi | Stop

  function GoStep(s: State): State {
    match s.pc
    case Top => s.(pc := if s.running then Read else Done)
    case Read => s.(seen := s.task, pc := Test)
    case Test => s.(pc := if s.running && !s.seen then BeforeWfi else Switch)
    case BeforeWfi => s.(pc := if s.msip then Reread else Asleep)
    case Asleep => if s.msip then s.(pc := Reread) else s
    case Reread => s.(seen := s.task, pc := Test)
    case Switch => s.(pc := if s.task then InTask else Top)
    // exit takes the lock that clone holds until its interrupt is raised
    case InTask => if s.due then s else s.(task := false, pc := Top)
    case Done => s
  }

  /** An interrupt that finds the CPU asleep returns behind the wait instruction. */
  function Awake(s: State): State {
    if s.pc == Asleep then s.(pc := Reread) else s
  }

  function Step(s: State, a: Act): State {
    match a
    case Go => GoStep(s)
    case TakeIpi => if s.msip then Awake(s.(msip := false)) else s
    case TakeOther => Awake(s)
    case Assign => if s.task || s.due then s else s.(task := true, due := true)
    case Raise => if s.due then s.(msip := true, due := false) else s
    case SendIpi => s.(msip := true)
    case Stop => s.(running := false)
  }

  datatype Run = Run(states: seq<State>, acts: seq<Act>)

  ghost predicate IsRun(r: Run) {
    && |r.states| == |r.acts| + 1
    && r.states[0].pc == Top
    && (forall n :: 0 <= n < |r.acts| ==> StepAt(r, n))
  }

  ghost predicate StepAt(r: Run, n: nat)
    requires n < |r.acts| < |r.states|
  {
    r.states[n + 1] == Step(r.states[n], r.acts[n])
  }

  // ----- the loop on its own ----------------------------------------------------------------

  function Goes(s: State, n: nat): State
    decreases n
  {
    if n == 0 then s else Goes(GoStep(s), n - 1)
  }

  lemma FourSteps(s: State)
    ensures Goes(s, 4) == GoStep(GoStep(GoStep(GoStep(s)))) && Goes(s, 5) == GoStep(Goes(s, 4))
  {
    hide GoStep;
    assert Goes(s, 2) == GoStep(GoStep(s));
    assert Goes(s, 4) == Goes(GoStep(GoStep(s)), 2) && Goes(s, 5) == Goes(GoStep(GoStep(GoStep(s))), 2);
  }

  /** Undisturbed, a running CPU with a task is in it after four steps, whatever it had seen before. */
  lemma TaskRuns(s: State)
    requires s.pc == Top && s.running && s.task
    ensures Goes(s, 4) == s.(pc := InTask, seen := true)
  {
    FourSteps(s);
  }

  /** Without a task it is at the wait instruction instead, and sleeps there unless an interrupt is pending. */
  lemma NoTaskWaits(s: State)
    requires s.pc == Top && s.running && !s.task
    ensures Goes(s, 4) == s.(pc := if s.msip then Reread else Asleep, seen := false)
  {
    FourSteps(s);
  }

  /** Asleep it stays until an interrupt is pending, and then looks for a task again. */
  lemma SleepsUntilPending(s: State, n: nat)
    requires s.pc == Asleep && n > 0
    ensures !s.msip ==> Goes(s, n) == s
    ensures s.msip && s.running && s.task ==> Goes(s, 4) == s.(pc := InTask, seen := true)
  {
    FourSteps(s);
    if n > 1 {
      SleepsUntilPending(s, n - 1);
    }
  }

  /** A thread that ends leaves its CPU without a task, once its clone is done with it. */
  lemma TaskEnds(s: State)
    requires s.pc == InTask
    ensures !s.due ==> Goes(s, 1) == s.(pc := Top, task := false)
    ensures s.due ==> Goes(s, 1) == s
  {
  }

  /** A CPU that is told to stop outside a task is done within five steps, unless it is asleep. */
  lemma StopsSoon(s: State)
    requires !s.running && !s.task && s.pc != InTask && (s.pc == Asleep || s.pc == BeforeWfi ==> s.msip)
    ensures Goes(s, 5).pc == Done
  {
    FourSteps(s);
  }

  // ----- the lost wake-up -------------------------------------------------------------------

  /** The CPU has found no task and is about to wait. */
  predicate Window(s: State) {
    (s.pc == Test && !s.seen) || s.pc == BeforeWfi
  }

  predicate Parking(s: State) {
    Window(s) || s.pc == Asleep
  }

  /** A thread was cloned to this CPU, its interrupt is gone, and the CPU sleeps. */
  predicate LeftBehind(s: State) {
    s.pc == Asleep && s.task && !s.msip && !s.due
  }

  /**
   Step `m` took the software interrupt after the clone had raised it and before the CPU slept; up to
   state `n` no other interrupt was sent and the CPU has not read its task again.
   */
  ghost predicate LostAt(r: Run, m: nat, n: nat)
    requires |r.states| == |r.acts| + 1
  {
    && m < n <= |r.acts|
    && r.acts[m] == TakeIpi && r.states[m].msip && Window(r.states[m]) && r.states[m].task && !r.states[m].due
    && (forall k :: m < k <= n ==> Parking(r.states[k]))
    && (forall k :: m < k < n ==> r.acts[k] != SendIpi)
  }

  lemma {:induction false} LostStaysLost(r: Run, m: nat, n: nat)
    requires IsRun(r) && LostAt(r, m, n)
    ensures r.states[n].task && !r.states[n].due && !r.states[n].msip
    decreases n
  {
    assert StepAt(r, n - 1);
    if m < n - 1 {
      LostStaysLost(r, m, n - 1);
    }
  }

  /** A CPU on its way to sleep with a task has an interrupt due or pending, or has lost it. */
  lemma {:induction false} WakeOrLost(r: Run, n: nat)
    requires IsRun(r) && n < |r.states| && Parking(r.states[n]) && r.states[n].task
    ensures r.states[n].due || r.states[n].msip || exists m: nat :: LostAt(r, m, n)
  {
    if n > 0 {
      var s, a := r.states[n - 1], r.acts[n - 1];
      assert StepAt(r, n - 1);
      ParkingBefore(s, a);
      if s.task {
        WakeOrLost(r, n - 1);
        if a == TakeIpi && s.msip && !s.due {
          assert LostAt(r, n - 1, n);
        } else if !s.due && !s.msip {
          var m: nat :| LostAt(r, m, n - 1);
          assert a != SendIpi ==> LostAt(r, m, n);
        }
      }
    }
  }

  /** The CPU reads its task on the way to sleep, so a task it has then was assigned afterwards. */
  lemma ParkingBefore(s: State, a: Act)
    requires Parking(Step(s, a)) && Step(s, a).task
    ensures Parking(s) && (s.task || a == Assign) && (a == TakeIpi && s.msip ==> Window(s))
  {
  }

  /**
   A cloned thread is left behind on a sleeping CPU if and only if its interrupt was taken between the
   CPU's last look at its task and its falling asleep, and none was sent since.
   */
  lemma LeftBehindIff(r: Run, n: nat)
    requires IsRun(r) && n < |r.states|
    ensures LeftBehind(r.states[n]) <==> r.states[n].pc == Asleep && exists m: nat :: LostAt(r, m, n)
  {
    hide LostAt;
    if LeftBehind(r.states[n]) {
      WakeOrLost(r, n);
    }
    if m: nat :| LostAt(r, m, n) {
      LostStaysLost(r, m, n);
    }
  }

  /** With interrupts disabled from the look to the wait, no cloned thread is ever left behind. */
  lemma NoneLeftBehind(r: Run, n: nat)
    requires IsRun(r) && n < |r.states|
    requires forall m :: 0 <= m < |r.acts| && r.acts[m] == TakeIpi ==> !Window(r.states[m])
    ensures !LeftBehind(r.states[n])
  {
    LeftBehindIff(r, n);
  }

  /** Any further interrupt gets the thread going. */
  lemma NextInterruptRuns(s: State, a: Act)
    requires LeftBehind(s) && s.running && (a == TakeOther || a == SendIpi)
    ensures var u := if a == SendIpi then Step(Step(s, a), Go) else Step(s, a);
            GoStep(GoStep(GoStep(u))).pc == InTask
  {
  }

  /** The run that leaves a thread behind: look, assign, raise, take, wait. */
  lemma LeftBehindExample() returns (r: Run)
    ensures IsRun(r) && |r.acts| == 7 && LeftBehind(r.states[7])
  {
    var s0 := State(Top, false, false, false, false, true);
    var s2 := s0.(pc := Test);
    var s3 := s2.(task := true, due := true);
    var s4 := s3.(due := false, msip := true);
    var s5 := s4.(msip := false);
    r := Run([s0, s0.(pc := Read), s2, s3, s4, s5, s5.(pc := BeforeWfi), s5.(pc := Asleep)],
             [Go, Go, Assign, Raise, TakeIpi, Go, Go]);
    forall n | 0 <= n < 7
      ensures StepAt(r, n)
    {
      if n == 0 {} else if n == 1 {} else if n == 2 {} else if n == 3 {} else if n == 4 {} else if n == 5 {} else {}
    }
  }
}

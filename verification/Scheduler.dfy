/** The round-robin scheduler: a fixed table of 64 task slots, a high-water mark and the index of
    the running task.

    `Sched` is the table as a value; the functions on it say what each operation does, the lemmas
    say what that means over whole runs, and the class `Scheduler` below updates the table in
    place. */
module Scheduling {
  import opened Machine

  const MAX_TASKS: int := 64
  const STACK_SIZE: int := 4096
  const FRAME_SIZE: int := 176

  datatype State = Ready | Running | Blocked | Terminated
  datatype Task = Task(rsp: Word, stackTop: Word, stackSize: Word, state: State)
  datatype Sched = Sched(tasks: seq<Task>, count: int, current: int)

  predicate Schedulable(s: Sched, idx: int) {
    0 <= idx < s.count && idx < |s.tasks| && s.tasks[idx].state == Ready
  }

  /** At every tick boundary: slots below the mark hold live tasks, the current one running and
      the others ready; slots from the mark on are free. */
  ghost predicate Invariant(s: Sched) {
    && |s.tasks| == MAX_TASKS
    && 0 <= s.current < s.count <= MAX_TASKS
    && (forall i :: 0 <= i < MAX_TASKS ==>
          s.tasks[i].state == if i == s.current then Running else if i < s.count then Ready else Terminated)
  }

  // ---------------------------------------------------------------------------------------------
  // What each operation does
  // ---------------------------------------------------------------------------------------------

  /** The first schedulable slot among `from + i`, `from + i + 1`, ... up to `from + 63`, taken
      around the table; -1 if there is none. */
  function NextReady(s: Sched, from: nat, i: nat): (r: int)
    requires i <= MAX_TASKS
    ensures -1 <= r < MAX_TASKS
    ensures r >= 0 ==> Schedulable(s, r)
    decreases MAX_TASKS - i
  {
    if i == MAX_TASKS then -1
    else if Schedulable(s, (from + i) % MAX_TASKS) then (from + i) % MAX_TASKS
    else NextReady(s, from, i + 1)
  }

  /** The new table and the stack pointer to continue on, 0 meaning no switch. */
  function Ticked(s: Sched, rsp: Word): (Sched, Word)
    requires |s.tasks| == MAX_TASKS && s.current < MAX_TASKS
  {
    if s.current < 0 then (s, 0)
    else
      var saved := s.(tasks := s.tasks[s.current := s.tasks[s.current].(rsp := rsp)]);
      var next := NextReady(saved, s.current + 1, 0);
      if next < 0 || next == s.current then (WithState(saved, s.current, Running), 0)
      else
        var put := WithState(WithState(saved, s.current, Ready), next, Running);
        (put.(current := next), put.tasks[next].rsp)
  }

  function WithState(s: Sched, i: int, state: State): (r: Sched)
    requires 0 <= i < |s.tasks|
    ensures |r.tasks| == |s.tasks|
  {
    s.(tasks := s.tasks[i := s.tasks[i].(state := state)])
  }

  function Exited(s: Sched): Sched
    requires 0 <= s.current < |s.tasks|
  {
    WithState(s, s.current, Terminated)
  }

  /** The first terminated slot, or 64. */
  function FirstFree(tasks: seq<Task>): (r: nat)
    ensures r <= |tasks|
    ensures r < |tasks| ==> tasks[r].state == Terminated
    ensures forall j :: 0 <= j < r ==> tasks[j].state != Terminated
  {
    if tasks == [] then 0
    else if tasks[0].state == Terminated then 0
    else
      var r := FirstFree(tasks[1..]);
      assert forall j :: 1 <= j < r + 1 ==> tasks[j] == tasks[1..][j - 1];
      r + 1
  }

  predicate CanCreate(s: Sched, stackTop: Word) {
    FirstFree(s.tasks) < |s.tasks| && stackTop >= STACK_SIZE
  }

  /** A task created on a stack that ends at `stackTop`; 0 says no frame was left for a stack. */
  function Created(s: Sched, stackTop: Word): Sched {
    if !CanCreate(s, stackTop) then s
    else
      var idx := FirstFree(s.tasks);
      Sched(s.tasks[idx := Task(stackTop - FRAME_SIZE, stackTop, STACK_SIZE, Ready)],
            if idx >= s.count then idx + 1 else s.count, s.current)
  }

  // ---------------------------------------------------------------------------------------------
  // Runs
  // ---------------------------------------------------------------------------------------------

  datatype Step = Create(stackTop: Word) | Tick(rsp: Word) | ExitTick(exitRsp: Word)

  function After(s: Sched, step: Step): Sched
    requires |s.tasks| == MAX_TASKS && 0 <= s.current < MAX_TASKS
  {
    match step
    case Create(top) => Created(s, top)
    case Tick(rsp) => Ticked(s, rsp).0
    case ExitTick(rsp) => Ticked(Exited(s), rsp).0
  }

  function Run(s: Sched, steps: seq<Step>): Sched
    requires Invariant(s)
    decreases |steps|
  {
    if steps == [] then s
    else
      StepKeepsInvariant(s, steps[0]);
      Run(After(s, steps[0]), steps[1..])
  }

  function Ticks(steps: seq<Step>): nat {
    if steps == [] then 0 else (if steps[0].Create? then 0 else 1) + Ticks(steps[1..])
  }

  /** The state after boot: the boot thread in slot 0, everything else free. */
  ghost predicate Initial(s: Sched) {
    Invariant(s) && s.count == 1
  }

  /** How far `t` lies ahead of `from` around the table: their difference modulo 64. */
  function Distance(from: int, t: int): int {
    if t >= from then t - from else t - from + MAX_TASKS
  }

  lemma ScanIndex(from: nat, i: nat)
    requires from <= MAX_TASKS && i < MAX_TASKS
    ensures (from + i) % MAX_TASKS == if from + i < MAX_TASKS then from + i else from + i - MAX_TASKS
    ensures Distance(from, (from + i) % MAX_TASKS) == i
  {
  }

  /** The scan stops no later than at a ready task `t`. */
  lemma {:induction false} NextReadyReaches(s: Sched, from: nat, i: nat, t: int)
    requires |s.tasks| == MAX_TASKS && Schedulable(s, t)
    requires from <= MAX_TASKS && i <= Distance(from, t)
    ensures var r := NextReady(s, from, i);
            r >= 0 && i <= Distance(from, r) <= Distance(from, t)
    decreases MAX_TASKS - i
  {
    ScanIndex(from, i);
    if !Schedulable(s, (from + i) % MAX_TASKS) {
      NextReadyReaches(s, from, i + 1, t);
    }
  }

  lemma {:induction false} NextReadyNone(s: Sched, from: nat, i: nat)
    requires i <= MAX_TASKS
    requires forall t :: !Schedulable(s, t)
    ensures NextReady(s, from, i) == -1
    decreases MAX_TASKS - i
  {
    if i < MAX_TASKS {
      NextReadyNone(s, from, i + 1);
    }
  }

  /** All live tasks except the current one are ready, and nothing else is schedulable. */
  ghost predicate OthersReady(s: Sched) {
    && |s.tasks| == MAX_TASKS
    && 0 <= s.current < s.count <= MAX_TASKS
    && (forall i :: Schedulable(s, i) <==> 0 <= i < s.count && i != s.current)
  }

  /** The scan that starts behind the current task finds the cyclically next live one. */
  lemma NextIsNearest(s: Sched)
    requires OthersReady(s)
    ensures var next := NextReady(s, s.current + 1, 0);
            if s.count == 1 then next == -1
            else
              && 0 <= next < s.count && next != s.current
              && (forall t :: 0 <= t < s.count && t != s.current ==> Distance(s.current, next) <= Distance(s.current, t))
  {
    if s.count == 1 {
      NextReadyNone(s, s.current + 1, 0);
    } else {
      var next, other := NextReady(s, s.current + 1, 0), if s.current == 0 then 1 else 0;
      assert Schedulable(s, other);
      NextReadyReaches(s, s.current + 1, 0, other);
      assert Schedulable(s, next);
      DistanceStep(s.current, next);
      forall t | 0 <= t < s.count && t != s.current
        ensures Distance(s.current, next) <= Distance(s.current, t)
      {
        assert Schedulable(s, t);
        NextReadyReaches(s, s.current + 1, 0, t);
        DistanceStep(s.current, t);
      }
    }
  }

  /** The scan a tick makes: the outgoing pointer is already saved, the outgoing state is still
      running or terminated. */
  function Saved(s: Sched, rsp: Word): Sched
    requires 0 <= s.current < |s.tasks|
  {
    s.(tasks := s.tasks[s.current := s.tasks[s.current].(rsp := rsp)])
  }

  /** The tables a tick can meet: at a tick boundary `s`, or where the current task has just
      marked itself terminated. */
  ghost predicate MayTick(s: Sched, s1: Sched) {
    && 0 <= s.current < |s.tasks|
    && (s1 == s || s1 == Exited(s))
  }

  lemma SavedOthersReady(s: Sched, s1: Sched, rsp: Word)
    requires Invariant(s) && MayTick(s, s1)
    ensures OthersReady(Saved(s1, rsp))
  {
    var saved := Saved(s1, rsp);
    forall i
      ensures Schedulable(saved, i) <==> 0 <= i < s.count && i != s.current
    {
      if 0 <= i < MAX_TASKS {
        assert i != s.current ==> saved.tasks[i] == s.tasks[i];
      }
    }
  }

  /** No task changed more than its state, and the outgoing one its saved pointer. */
  ghost predicate OnlySaved(s: Sched, r: Sched, rsp: Word) {
    && |r.tasks| == |s.tasks| && r.count == s.count
    && (forall i :: 0 <= i < |s.tasks| ==>
          r.tasks[i] == s.tasks[i].(rsp := if i == s.current then rsp else s.tasks[i].rsp,
                                    state := r.tasks[i].state))
  }

  lemma TickStays(s: Sched, s1: Sched, rsp: Word)
    requires Invariant(s) && MayTick(s, s1)
    requires NextReady(Saved(s1, rsp), s.current + 1, 0) == -1 && s.count == 1
    ensures var r := Ticked(s1, rsp);
            Invariant(r.0) && OnlySaved(s, r.0, rsp) && r.0.current == s.current && r.1 == 0
  {
    assert Ticked(s1, rsp).0.tasks == s.tasks[s.current := s.tasks[s.current].(rsp := rsp)];
  }

  lemma TickSwitches(s: Sched, s1: Sched, rsp: Word, next: int)
    requires Invariant(s) && MayTick(s, s1)
    requires 0 <= next < s.count && next != s.current
    requires NextReady(Saved(s1, rsp), s.current + 1, 0) == next
    ensures var r := Ticked(s1, rsp);
            Invariant(r.0) && OnlySaved(s, r.0, rsp) && r.0.current == next && r.1 == s.tasks[next].rsp
  {
    assert Ticked(s1, rsp).0.tasks ==
           s.tasks[s.current := s.tasks[s.current].(rsp := rsp, state := Ready)]
                  [next := s.tasks[next].(state := Running)];
  }

  /** What a tick does to a table that satisfies the invariant, whether or not the running task
      has just marked itself terminated: the saved pointer goes to the outgoing slot, and the
      current task is the cyclically next live one. */
  lemma TickShape(s: Sched, s1: Sched, rsp: Word)
    requires Invariant(s) && MayTick(s, s1)
    ensures var r := Ticked(s1, rsp);
            && Invariant(r.0)
            && OnlySaved(s, r.0, rsp)
            && (s.count == 1 ==> r.0.current == s.current && r.1 == 0)
            && (s.count > 1 ==> r.0.current != s.current && r.1 == s.tasks[r.0.current].rsp)
            && (forall t :: 0 <= t < s.count && t != s.current ==>
                  Distance(s.current, r.0.current) <= Distance(s.current, t))
  {
    SavedOthersReady(s, s1, rsp);
    NextIsNearest(Saved(s1, rsp));
    var next := NextReady(Saved(s1, rsp), s.current + 1, 0);
    if s.count == 1 {
      TickStays(s, s1, rsp);
    } else {
      TickSwitches(s, s1, rsp, next);
    }
  }

  /** The task in the slot after `current`, around `count` of them. */
  function NextTask(current: int, count: int): int { if current + 1 < count then current + 1 else 0 }

  /** A tick goes to the task in the next slot. */
  lemma TickIsRoundRobin(s: Sched, s1: Sched, rsp: Word)
    requires Invariant(s) && MayTick(s, s1)
    ensures Ticked(s1, rsp).0.current == NextTask(s.current, s.count) == (s.current + 1) % s.count
    ensures Ticked(s1, rsp).0.count == s.count
  {
    TickShape(s, s1, rsp);
    Around(s.current, s.count);
    var now, next := Ticked(s1, rsp).0.current, NextTask(s.current, s.count);
    if s.count > 1 {
      assert Distance(s.current, now) <= Distance(s.current, next);
    }
  }

  /** A tick, field by field: the next of the `count` tasks runs, the others wait, the outgoing one's pointer is
      saved, and the answer is the incoming one's pointer, or 0 if there is only one task. */
  lemma TickSpelled(s: Sched, s1: Sched, rsp: Word)
    requires Invariant(s) && MayTick(s, s1)
    ensures var (r, out), next := Ticked(s1, rsp), (s.current + 1) % s.count;
            && r.current == next && r.count == s.count && |r.tasks| == 64
            && out == (if s.count == 1 then 0 else s.tasks[next].rsp)
            && (forall i :: 0 <= i < 64 ==>
                  r.tasks[i] == Task(if i == s.current then rsp else s.tasks[i].rsp, s.tasks[i].stackTop, s.tasks[i].stackSize,
                                     if i == next then Running else if i < s.count then Ready else Terminated))
  {
    TickShape(s, s1, rsp);
    TickIsRoundRobin(s, s1, rsp);
  }

  lemma Around(current: int, count: int)
    requires 0 <= current < count
    ensures (current + 1) % count == NextTask(current, count)
  {
  }

  /** A create, field by field: the slot at the mark gets a task whose frame ends at the top of its 4 KiB stack. */
  lemma CreateSpelled(s: Sched, top: Word)
    requires Invariant(s) && (top == 0 || top >= 4096)
    ensures var r := Created(s, top);
            if top == 0 || s.count == 64 then r == s
            else
              && r.count == s.count + 1 && r.current == s.current && |r.tasks| == 64
              && (forall i :: 0 <= i < 64 ==>
                    r.tasks[i] == if i == s.count then Task(top - 176, top, 4096, Ready) else s.tasks[i])
  {
    CreateFillsNextSlot(s, top);
  }

  lemma DistanceStep(current: int, t: int)
    requires 0 <= current < MAX_TASKS && 0 <= t < MAX_TASKS && t != current
    ensures Distance(current, t) == Distance(current + 1, t) + 1
  {
  }

  lemma StepKeepsInvariant(s: Sched, step: Step)
    requires Invariant(s)
    ensures Invariant(After(s, step))
  {
    match step {
      case Create(top) => CreateFillsNextSlot(s, top);
      case Tick(rsp) => TickShape(s, s, rsp);
      case ExitTick(rsp) => TickShape(s, Exited(s), rsp);
    }
  }

  /** A new task always takes the slot at the mark: no slot below it is ever free again. */
  lemma CreateFillsNextSlot(s: Sched, top: Word)
    requires Invariant(s)
    ensures FirstFree(s.tasks) == s.count
    ensures CanCreate(s, top) <==> s.count < MAX_TASKS && top >= STACK_SIZE
    ensures Invariant(Created(s, top))
    ensures Created(s, top).count == s.count + if CanCreate(s, top) then 1 else 0
    ensures Created(s, top).current == s.current
  {
    var r := FirstFree(s.tasks);
    assert forall i :: 0 <= i < s.count ==> s.tasks[i].state != Terminated;
    assert s.count < MAX_TASKS ==> s.tasks[s.count].state == Terminated;
  }

  /** A task that is ready moves strictly closer with every tick until it runs, and nothing but
      running takes its readiness away. */
  lemma TickApproaches(s: Sched, step: Step, t: int)
    requires Invariant(s)
    requires 0 <= t < s.count && t != s.current
    ensures var s' := After(s, step);
            && t < s'.count
            && (step.Create? ==> s'.current == s.current)
            && (!step.Create? && s'.current != t ==> Distance(s'.current, t) < Distance(s.current, t))
  {
    match step {
      case Create(top) => CreateFillsNextSlot(s, top);
      case Tick(rsp) =>
        TickShape(s, s, rsp);
        DistanceSplit(s.current, After(s, step).current, t);
      case ExitTick(rsp) =>
        TickShape(s, Exited(s), rsp);
        DistanceSplit(s.current, After(s, step).current, t);
    }
  }

  lemma DistanceSplit(a: int, b: int, t: int)
    requires 0 <= a < MAX_TASKS && 0 <= b < MAX_TASKS && 0 <= t < MAX_TASKS
    requires a != b && Distance(a, b) <= Distance(a, t)
    ensures Distance(b, t) == Distance(a, t) - Distance(a, b) < Distance(a, t)
  {
  }

  /** Bounded waiting: whatever creates and exits interleave, a ready task is running after at
      most `Distance(current, t)` ticks, and so after at most 63. */
  lemma {:induction false} ReadyTaskRuns(s: Sched, steps: seq<Step>, t: int)
    requires Invariant(s)
    requires 0 <= t < s.count && t != s.current
    requires Ticks(steps) >= Distance(s.current, t)
    ensures 1 <= Distance(s.current, t) <= MAX_TASKS - 1
    ensures exists n :: 0 <= n <= |steps| && Ticks(steps[..n]) <= Distance(s.current, t)
                     && Run(s, steps[..n]).current == t
    decreases |steps|
  {
    DistanceStep(s.current, t);
    var step := steps[0];
    StepKeepsInvariant(s, step);
    TickApproaches(s, step, t);
    var s' := After(s, step);
    assert steps[..1][1..] == [];
    if s'.current == t {
      assert Run(s', []) == s' && Run(s, steps[..1]) == s';
      assert Ticks(steps[..1]) <= 1;
    } else {
      ReadyTaskRuns(s', steps[1..], t);
      var n :| 0 <= n <= |steps[1..]| && Ticks(steps[1..][..n]) <= Distance(s'.current, t)
            && Run(s', steps[1..][..n]).current == t;
      assert steps[..n + 1][1..] == steps[1..][..n];
      assert Run(s, steps[..n + 1]) == Run(s', steps[1..][..n]);
      assert Ticks(steps[..n + 1]) == (if step.Create? then 0 else 1) + Ticks(steps[1..][..n]);
    }
  }

  /** How many creates of the run are given a slot. */
  function Successes(s: Sched, steps: seq<Step>): nat
    requires Invariant(s)
    decreases |steps|
  {
    if steps == [] then 0
    else
      StepKeepsInvariant(s, steps[0]);
      (if steps[0].Create? && CanCreate(s, steps[0].stackTop) then 1 else 0)
      + Successes(After(s, steps[0]), steps[1..])
  }

  /** Over every run the invariant holds and slots are only ever used up. */
  lemma {:induction false} RunInvariant(s: Sched, steps: seq<Step>)
    requires Invariant(s)
    ensures Invariant(Run(s, steps))
    ensures Run(s, steps).count == s.count + Successes(s, steps)
    decreases |steps|
  {
    if steps != [] {
      StepKeepsInvariant(s, steps[0]);
      match steps[0] {
        case Create(top) => CreateFillsNextSlot(s, top);
        case Tick(rsp) => TickShape(s, s, rsp);
        case ExitTick(rsp) => TickShape(s, Exited(s), rsp);
      }
      RunInvariant(After(s, steps[0]), steps[1..]);
    }
  }

  /** Since exits give nothing back, no run ever creates more than 63 tasks. */
  lemma AtMost63Creates(s: Sched, steps: seq<Step>)
    requires Initial(s)
    ensures Successes(s, steps) <= MAX_TASKS - 1
  {
    RunInvariant(s, steps);
  }

  /** A task that exits is scheduled again: the tick that follows overwrites its terminated mark,
      with ready if another task exists and with running if not. */
  lemma ExitDoesNotRelease(s: Sched, rsp: Word)
    requires Invariant(s)
    ensures Exited(s).tasks[s.current].state == Terminated
    ensures After(s, ExitTick(rsp)).tasks[s.current].state == if s.count == 1 then Running else Ready
    ensures After(s, ExitTick(rsp)) == After(s, Tick(rsp))
  {
    TickShape(s, Exited(s), rsp);
    TickShape(s, s, rsp);
    var a, b := After(s, ExitTick(rsp)), After(s, Tick(rsp));
    SameDistance(s.current, a.current, b.current);
    assert a.tasks == b.tasks by {
      forall i | 0 <= i < MAX_TASKS
        ensures a.tasks[i] == b.tasks[i]
      {
        assert a.tasks[i].state == b.tasks[i].state;
      }
    }
  }

  lemma SameDistance(from: int, a: int, b: int)
    requires 0 <= from < MAX_TASKS && 0 <= a < MAX_TASKS && 0 <= b < MAX_TASKS
    requires Distance(from, a) == Distance(from, b)
    ensures a == b
  {
  }

  // ---------------------------------------------------------------------------------------------
  // The scheduler itself
  // ---------------------------------------------------------------------------------------------

  class Scheduler {
    const tasks: array<Task>
    var taskCount: int
    var currentTask: int

    function View(): Sched
      reads this, tasks
    {
      Sched(tasks[..], taskCount, currentTask)
    }

    ghost predicate Valid()
      reads this, tasks
    {
      tasks.Length == MAX_TASKS && -1 <= currentTask < MAX_TASKS
    }

    constructor ()
      ensures Valid() && fresh(tasks)
      ensures Initial(View())
      ensures forall i :: 0 <= i < MAX_TASKS ==> tasks[i].rsp == 0
    {
      tasks := new Task[MAX_TASKS](_ => Task(0, 0, 0, Ready));
      new;
      var i := 0;
      while i < MAX_TASKS
        invariant 0 <= i <= MAX_TASKS
        invariant forall j :: 0 <= j < i ==> tasks[j].state == Terminated && tasks[j].rsp == 0
      {
        tasks[i] := tasks[i].(state := Terminated, rsp := 0);
        i := i + 1;
      }
      tasks[0] := Task(0, 0, 0, Running);
      taskCount := 1;
      currentTask := 0;
    }

    method FindFree() returns (idx: int)
      requires Valid()
      ensures idx == if FirstFree(tasks[..]) < MAX_TASKS then FirstFree(tasks[..]) else -1
    {
      var i := 0;
      while i < MAX_TASKS
        invariant 0 <= i <= MAX_TASKS
        invariant forall j :: 0 <= j < i ==> tasks[j].state != Terminated
      {
        if tasks[i].state == Terminated {
          assert tasks[..][i].state == Terminated;
          return i;
        }
        i := i + 1;
      }
      return -1;
    }

    method FindNextReady(from: nat) returns (idx: int)
      requires Valid()
      ensures idx == NextReady(View(), from, 0)
    {
      var i := 0;
      while i < MAX_TASKS
        invariant 0 <= i <= MAX_TASKS
        invariant NextReady(View(), from, 0) == NextReady(View(), from, i)
      {
        idx := (from + i) % MAX_TASKS;
        if idx < taskCount && tasks[idx].state == Ready {
          return;
        }
        i := i + 1;
      }
      return -1;
    }

    /** `stackTop` is the end of the frame the allocator returned for the stack, or 0. */
    method Create(stackTop: Word) returns (idx: int)
      requires Valid() && (stackTop == 0 || stackTop >= STACK_SIZE)
      modifies this, tasks
      ensures Valid()
      ensures View() == Created(old(View()), stackTop)
      ensures idx == if old(CanCreate(View(), stackTop)) then old(FirstFree(tasks[..])) else -1
    {
      idx := FindFree();
      if idx < 0 {
        return -1;
      }
      if stackTop == 0 {
        return -1;
      }
      tasks[idx] := Task(stackTop - FRAME_SIZE, stackTop, STACK_SIZE, Ready);
      if idx >= taskCount {
        taskCount := idx + 1;
      }
    }

    /** The state change of `task_exit`, before it yields. */
    method Exit()
      requires Valid() && currentTask >= 0
      modifies tasks
      ensures View() == Exited(old(View()))
    {
      tasks[currentTask] := tasks[currentTask].(state := Terminated);
    }

    method Tick(currentRsp: Word) returns (rsp: Word)
      requires Valid()
      modifies this, tasks
      ensures Valid()
      ensures (View(), rsp) == Ticked(old(View()), currentRsp)
    {
      if currentTask < 0 {
        return 0;
      }
      SavePointer(currentRsp);
      var next := FindNextReady(currentTask + 1);
      if next < 0 || next == currentTask {
        SetState(currentTask, Running);
        return 0;
      }
      SetState(currentTask, Ready);
      currentTask := next;
      SetState(currentTask, Running);
      return tasks[currentTask].rsp;
    }

    method SavePointer(rsp: Word)
      requires Valid() && currentTask >= 0
      modifies tasks
      ensures View() == Saved(old(View()), rsp)
    {
      tasks[currentTask] := tasks[currentTask].(rsp := rsp);
    }

    method SetState(i: nat, state: State)
      requires Valid() && i < MAX_TASKS
      modifies tasks
      ensures View() == WithState(old(View()), i, state)
    {
      tasks[i] := tasks[i].(state := state);
    }
  }
}

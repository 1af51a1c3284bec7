/** Tasks as programs see them: each has registers of its own.  Whole runs of the processor, which has
    one set of registers and saves the others in memory, come to the same. */
module Tasks {
  import opened Machine
  import opened Scheduling
  import opened Interrupts
  import opened KernelMemory

  /** A machine on which every task owns a register file and a stack, and nothing is ever saved. */
  datatype Ideal = Ideal(files: seq<Context>, stacks: seq<Stack>, current: nat)

  /** What can happen next: the running task computes, is interrupted, exits, or creates a task. */
  datatype Event =
    | Computing(registers: Context, writes: Store)
    | Interrupted(intNo: Word, scratch: Store, clobbered: Context)
    | Exiting(scratch: Store, clobbered: Context)
    | Creating(entry: Word, stackTop: Word)

  ghost predicate WellFormed(m: Ideal) { |m.files| == |m.stacks| <= MAX_TASKS && m.current < |m.files| }

  /** There is room on the stack of the running task for a frame, and what the handler writes of its own
      is below that frame. */
  ghost predicate RoomForFrame(m: Ideal, scratch: Store)
    requires WellFormed(m)
  {
    var rsp := m.files[m.current].rsp;
    && Within(m.stacks[m.current], FrameBelow(rsp), rsp)
    && Below(scratch, m.stacks[m.current].lo, FrameBelow(rsp))
  }

  /** What each event needs: a task stays off the stacks of the others, an interrupt finds room, and a
      new stack is no part of an old one. */
  ghost predicate Allowed(m: Ideal, e: Event)
    requires WellFormed(m)
  {
    match e
    case Computing(_, writes) =>
      forall t :: 0 <= t < |m.stacks| && t != m.current ==> OffStack(writes, m.stacks[t])
    case Interrupted(_, scratch, _) => RoomForFrame(m, scratch)
    case Exiting(scratch, _) => RoomForFrame(m, scratch)
    case Creating(_, top) => top != 0 ==> top > STACK_SIZE && Apart(m.stacks, top - STACK_SIZE, top)
  }

  function Next(m: Ideal, e: Event): Ideal
    requires m.current < |m.files|
  {
    match e
    case Computing(registers, _) => m.(files := m.files[m.current := registers])
    case Interrupted(intNo, _, _) => if intNo == 32 then m.(current := (m.current + 1) % |m.files|) else m
    case Exiting(_, _) => m.(current := (m.current + 1) % |m.files|)
    case Creating(entry, top) =>
      if top == 0 || |m.files| == MAX_TASKS then m
      else m.(files := m.files + [FreshContext(entry, top)], stacks := m.stacks + [Stack(top - STACK_SIZE, top)])
  }

  ghost predicate AllowedRun(m: Ideal, events: seq<Event>)
    requires WellFormed(m)
    decreases |events|
  {
    events == [] || (Allowed(m, events[0]) && AllowedRun(Next(m, events[0]), events[1..]))
  }

  ghost function Run(m: Ideal, events: seq<Event>): Ideal
    requires WellFormed(m)
    decreases |events|
  {
    if events == [] then m else Run(Next(m, events[0]), events[1..])
  }

  /** The processor stands for the machine: the registers of the running task are in it, those of each
      other task are what it will restore. */
  ghost predicate Matches(cpu: Cpu, m: Ideal)
    reads cpu, cpu.sched, cpu.sched.tasks
  {
    && cpu.Valid() && WellFormed(m) && cpu.stacks == m.stacks && |cpu.saved| == |m.files|
    && cpu.sched.View().current == m.current
    && (forall t :: 0 <= t < |m.files| ==> m.files[t] == if t == m.current then cpu.regs else cpu.saved[t])
  }

  method Step(cpu: Cpu, e: Event, ghost m: Ideal)
    requires Matches(cpu, m) && Allowed(m, e)
    modifies cpu, cpu.sched, cpu.sched.tasks
    ensures Matches(cpu, Next(m, e))
  {
    match e {
      case Computing(registers, writes) => cpu.Compute(registers, writes);
      case Interrupted(intNo, scratch, clobbered) => cpu.Interrupt(intNo, scratch, clobbered);
      case Exiting(scratch, clobbered) => cpu.ExitTask(scratch, clobbered);
      case Creating(entry, top) => var idx := Create(cpu, entry, top, m);
    }
  }

  method Create(cpu: Cpu, entry: Word, top: Word, ghost m: Ideal) returns (idx: int)
    requires Matches(cpu, m) && Allowed(m, Creating(entry, top))
    modifies cpu, cpu.sched, cpu.sched.tasks
    ensures Matches(cpu, Next(m, Creating(entry, top)))
    ensures idx == -1 <==> top == 0 || |m.files| == MAX_TASKS
  {
    CreateFillsNextSlot(cpu.sched.View(), top);
    idx := cpu.CreateTask(entry, top);
  }

  /** No lost context, over every run: whatever computes, interrupts, exits and creates interleave, the
      registers are those of a machine where each task has its own and only the task itself changes them. */
  method Execute(cpu: Cpu, events: seq<Event>, ghost m: Ideal)
    requires Matches(cpu, m) && AllowedRun(m, events)
    modifies cpu, cpu.sched, cpu.sched.tasks
    ensures Matches(cpu, Run(m, events))
  {
    var i := 0;
    ghost var now := m;
    assert events[0..] == events;
    while i < |events|
      invariant 0 <= i <= |events|
      invariant Matches(cpu, now) && AllowedRun(now, events[i..]) && Run(now, events[i..]) == Run(m, events)
    {
      assert events[i..][0] == events[i] && events[i..][1..] == events[i + 1..];
      Step(cpu, events[i], now);
      now := Next(now, events[i]);
      i := i + 1;
    }
  }

  /** From the start of the run on, up to its end, task `t` has not run. */
  ghost predicate NotYet(m: Ideal, events: seq<Event>, t: nat)
    requires WellFormed(m)
    decreases |events|
  {
    events == [] || (m.current != t && NotYet(Next(m, events[0]), events[1..], t))
  }

  /** As long as a task does not run its registers stay what they are. */
  lemma {:induction false} WaitingKeepsRegisters(m: Ideal, events: seq<Event>, t: nat)
    requires WellFormed(m) && t < |m.files| && NotYet(m, events, t)
    ensures t < |Run(m, events).files| && Run(m, events).files[t] == m.files[t]
    decreases |events|
  {
    if events != [] {
      WaitingKeepsRegisters(Next(m, events[0]), events[1..], t);
    }
  }

  /** The first switch to a new task: whatever happens between its creation and that switch, it enters `entry` in the
      kernel's code segment, with interrupts on, at the top of its stack and with all other registers 0. */
  method FirstSwitch(cpu: Cpu, entry: Word, top: Word, events: seq<Event>, ghost m: Ideal)
    requires Matches(cpu, m) && |m.files| < 64 && top != 0 && Allowed(m, Creating(entry, top))
    requires AllowedRun(Next(m, Creating(entry, top)), events) && NotYet(Next(m, Creating(entry, top)), events, |m.files|)
    modifies cpu, cpu.sched, cpu.sched.tasks
    ensures cpu.Valid()
    ensures cpu.sched.View().current == |m.files| ==> Starts(cpu.regs, entry, top)
  {
    ghost var created := Next(m, Creating(entry, top));
    var idx := Create(cpu, entry, top, m);
    Execute(cpu, events, created);
    WaitingKeepsRegisters(created, events, |m.files|);
  }

  /** The stack the frame allocator's side of a create prepares is, where it is mapped, the fresh frame of
      the scheduler's side. */
  lemma StackIsFreshFrame(mem: Memory, f: nat, store: Store, bottom: int, entry: Word)
    requires 0 <= bottom && bottom + STACK_SIZE < TWO64
    requires forall j :: 0 <= j < 512 ==> At(store, Cell(bottom, j), Entry(mem, f, j))
    requires StackWords(mem, f, entry, bottom + STACK_SIZE)
    ensures FrameAt(store, bottom + STACK_SIZE - FRAME_SIZE, FreshContext(entry, bottom + STACK_SIZE))
  {
    forall k | 0 <= k < 507
      ensures At(store, Cell(bottom, k), 0)
    {
      assert At(store, Cell(bottom, k), Entry(mem, f, k));
    }
    GeneralClear(store, bottom, FreshContext(entry, bottom + STACK_SIZE));
    assert At(store, Cell(bottom, 507), entry) && At(store, Cell(bottom, 508), 0x08);
    assert At(store, Cell(bottom, 509), 0x202) && At(store, Cell(bottom, 511), 0x10);
    assert At(store, Cell(bottom, 510), bottom + STACK_SIZE);
  }
}

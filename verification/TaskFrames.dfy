/** Tasks on stacks from the frame allocator: a frame it has handed out is no part of a stack in use, so every create
    is one that the run of the processor allows. */
module TaskFrames {
  import opened Machine
  import opened Frames
  import opened Scheduling
  import opened Interrupts
  import opened KernelMemory
  import opened Tasks

  /** Where the stack in frame `f` ends, seen where physical memory is mapped. */
  function StackTop(hhdm: int, f: nat): int { hhdm + f * PAGE_SIZE + PAGE_SIZE }

  /** What can happen: anything but a create on a given address, or a create on a frame from the allocator. */
  datatype Action = Doing(e: Event) | Spawning(entry: Word)

  /** The frames can be addressed, and none of them has a byte of a stack. */
  ghost predicate Housed(stacks: seq<Stack>, free: seq<nat>, hhdm: Word) {
    && Distinct(free)
    && (forall f :: f in free ==> 0 < f && StackTop(hhdm, f) < TWO64)
    && (forall f :: f in free ==> Apart(stacks, StackTop(hhdm, f) - STACK_SIZE, StackTop(hhdm, f)))
  }

  /** There is a slot and a frame for one more task. */
  predicate CanSpawn(m: Ideal, free: seq<nat>) { free != [] && |m.files| < MAX_TASKS }

  ghost function EventOf(m: Ideal, free: seq<nat>, hhdm: Word, x: Action): Event
    requires Housed(m.stacks, free, hhdm)
  {
    match x
    case Doing(e) => e
    case Spawning(entry) => Creating(entry, if CanSpawn(m, free) then StackTop(hhdm, free[0]) else 0)
  }

  function FreeAfter(m: Ideal, free: seq<nat>, x: Action): seq<nat> {
    if x.Spawning? && CanSpawn(m, free) then free[1..] else free
  }

  /** A create on a frame from the allocator is always allowed. */
  lemma SpawnAllowed(m: Ideal, free: seq<nat>, hhdm: Word, entry: Word)
    requires WellFormed(m) && Housed(m.stacks, free, hhdm)
    ensures Allowed(m, EventOf(m, free, hhdm, Spawning(entry)))
  {
  }

  /** And the other frames are still none of a stack. */
  lemma StillHoused(m: Ideal, free: seq<nat>, hhdm: Word, x: Action)
    requires WellFormed(m) && Housed(m.stacks, free, hhdm) && (x.Doing? ==> !x.e.Creating?)
    ensures Housed(Next(m, EventOf(m, free, hhdm, x)).stacks, FreeAfter(m, free, x), hhdm)
  {
    if x.Spawning? && CanSpawn(m, free) {
      HeadIsFresh(free);
    }
  }

  /** What the actions need: nothing at all is asked of a create. */
  ghost predicate AllowedActions(m: Ideal, free: seq<nat>, hhdm: Word, xs: seq<Action>)
    requires WellFormed(m) && Housed(m.stacks, free, hhdm)
    decreases |xs|
  {
    xs == [] ||
    (&& (xs[0].Doing? ==> !xs[0].e.Creating? && Allowed(m, xs[0].e))
     && (StillHoused(m, free, hhdm, xs[0]);
         AllowedActions(Next(m, EventOf(m, free, hhdm, xs[0])), FreeAfter(m, free, xs[0]), hhdm, xs[1..])))
  }

  ghost function RunActions(m: Ideal, free: seq<nat>, hhdm: Word, xs: seq<Action>): Ideal
    requires WellFormed(m) && Housed(m.stacks, free, hhdm) && AllowedActions(m, free, hhdm, xs)
    decreases |xs|
  {
    if xs == [] then m
    else
      StillHoused(m, free, hhdm, xs[0]);
      RunActions(Next(m, EventOf(m, free, hhdm, xs[0])), FreeAfter(m, free, xs[0]), hhdm, xs[1..])
  }

  method FreeSlot(cpu: Cpu, ghost m: Ideal) returns (idx: int)
    requires Matches(cpu, m)
    ensures idx < 0 <==> |m.files| == MAX_TASKS
  {
    CreateFillsNextSlot(cpu.sched.View(), 0);
    idx := cpu.sched.FindFree();
  }

  /** The frame for the stack, prepared; the processor goes on as before. */
  method StackFrame(cpu: Cpu, mgr: Manager, hhdm: Word, entry: Word, ghost m: Ideal) returns (page: Word)
    requires Matches(cpu, m) && mgr.Valid() && hhdm + |mgr.mem| * PAGE_SIZE < TWO64
    modifies mgr
    ensures Matches(cpu, m) && mgr.Valid() && |mgr.mem| == |old(mgr.mem)|
    ensures page == 0 <==> old(mgr.free) == []
    ensures page == 0 ==> mgr.free == []
    ensures page != 0 ==>
              var f := old(mgr.free)[0];
              && page == f * PAGE_SIZE && mgr.free == old(mgr.free)[1..]
              && f in mgr.held && StackWords(mgr.mem, f, entry, StackTop(hhdm, f))
  {
    page := mgr.TaskStack(hhdm, entry);
  }

  /** `task_create` with the frame it allocates for the stack. */
  method Spawn(cpu: Cpu, mgr: Manager, hhdm: Word, entry: Word, ghost m: Ideal) returns (idx: int)
    requires Matches(cpu, m) && mgr.Valid() && Housed(m.stacks, mgr.free, hhdm)
    requires hhdm + |mgr.mem| * PAGE_SIZE < TWO64
    modifies cpu, cpu.sched, cpu.sched.tasks, mgr
    ensures Matches(cpu, Next(m, EventOf(m, old(mgr.free), hhdm, Spawning(entry))))
    ensures mgr.Valid() && |mgr.mem| == |old(mgr.mem)|
    ensures mgr.free == FreeAfter(m, old(mgr.free), Spawning(entry))
    ensures idx != -1 <==> CanSpawn(m, old(mgr.free))
    ensures idx != -1 ==>
              var f := old(mgr.free)[0];
              f in mgr.held && StackWords(mgr.mem, f, entry, StackTop(hhdm, f))
  {
    var slot := FreeSlot(cpu, m);
    if slot < 0 {
      return -1;
    }
    var page := StackFrame(cpu, mgr, hhdm, entry, m);
    if page == 0 {
      return -1;
    }
    SpawnAllowed(m, old(mgr.free), hhdm, entry);
    idx := Tasks.Create(cpu, entry, hhdm + page + STACK_SIZE, m);
  }

  method Act(cpu: Cpu, mgr: Manager, hhdm: Word, x: Action, ghost m: Ideal)
    requires Matches(cpu, m) && mgr.Valid() && Housed(m.stacks, mgr.free, hhdm)
    requires hhdm + |mgr.mem| * PAGE_SIZE < TWO64
    requires x.Doing? ==> !x.e.Creating? && Allowed(m, x.e)
    modifies cpu, cpu.sched, cpu.sched.tasks, mgr
    ensures Matches(cpu, Next(m, EventOf(m, old(mgr.free), hhdm, x)))
    ensures mgr.Valid() && |mgr.mem| == |old(mgr.mem)| && mgr.free == FreeAfter(m, old(mgr.free), x)
  {
    match x {
      case Doing(e) => Tasks.Step(cpu, e, m);
      case Spawning(entry) => var idx := Spawn(cpu, mgr, hhdm, entry, m);
    }
  }

  /** No lost context, over every run in which the stacks come from the frame allocator. */
  method ExecuteAll(cpu: Cpu, mgr: Manager, hhdm: Word, xs: seq<Action>, ghost m: Ideal)
    requires Matches(cpu, m) && mgr.Valid() && Housed(m.stacks, mgr.free, hhdm)
    requires hhdm + |mgr.mem| * PAGE_SIZE < TWO64 && AllowedActions(m, mgr.free, hhdm, xs)
    modifies cpu, cpu.sched, cpu.sched.tasks, mgr
    ensures Matches(cpu, RunActions(m, old(mgr.free), hhdm, xs)) && mgr.Valid()
  {
    var i := 0;
    ghost var now, free0 := m, mgr.free;
    assert xs[0..] == xs;
    while i < |xs|
      invariant 0 <= i <= |xs|
      invariant Along(cpu, mgr, hhdm, xs[i..], now) && |mgr.mem| == |old(mgr.mem)|
      invariant RunActions(now, mgr.free, hhdm, xs[i..]) == RunActions(m, free0, hhdm, xs)
    {
      assert xs[i..][0] == xs[i] && xs[i..][1..] == xs[i + 1..];
      StillHoused(now, mgr.free, hhdm, xs[i]);
      ghost var free := mgr.free;
      Act(cpu, mgr, hhdm, xs[i], now);
      now := Next(now, EventOf(now, free, hhdm, xs[i]));
      i := i + 1;
    }
  }

  ghost predicate Along(cpu: Cpu, mgr: Manager, hhdm: Word, xs: seq<Action>, m: Ideal)
    reads cpu, cpu.sched, cpu.sched.tasks, mgr
  {
    Matches(cpu, m) && mgr.Valid() && Housed(m.stacks, mgr.free, hhdm) && AllowedActions(m, mgr.free, hhdm, xs)
  }
}

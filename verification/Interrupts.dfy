/** The interrupt entry and exit path and the stack switch, step by step over memory.

    A register file is a `Context`; an interrupt pushes one onto the stack of the running task as a
    22-word frame and the return path pops one, possibly from the stack of another task.  The ghost
    field `saved` remembers, per task, the registers at its last interruption (or those a fresh
    task starts with); `Holds` says that memory still contains them. */
module Interrupts {
  import opened Machine
  import opened Scheduling

  /** Kernel memory, word by word, as far as stacks live in it. */
  type Store = map<int, Word>

  datatype Context = Context(
    r15: Word, r14: Word, r13: Word, r12: Word, r11: Word, r10: Word, r9: Word, r8: Word,
    rbp: Word, rdi: Word, rsi: Word, rdx: Word, rcx: Word, rbx: Word, rax: Word,
    rip: Word, cs: Word, rflags: Word, rsp: Word, ss: Word)

  /** The byte range of a task's stack. */
  datatype Stack = Stack(lo: int, hi: int)

  const TIMER_IRQ: int := 32

  predicate At(mem: Store, a: int, v: Word) { a in mem && mem[a] == v }

  /** The fifteen pushed registers, lowest address first, in three groups of five. */
  predicate LowAt(mem: Store, f: int, c: Context) {
    && At(mem, f, c.r15) && At(mem, f + 8, c.r14) && At(mem, f + 16, c.r13) && At(mem, f + 24, c.r12)
    && At(mem, f + 32, c.r11)
  }

  predicate MidAt(mem: Store, f: int, c: Context) {
    && At(mem, f, c.r10) && At(mem, f + 8, c.r9) && At(mem, f + 16, c.r8) && At(mem, f + 24, c.rbp)
    && At(mem, f + 32, c.rdi)
  }

  predicate HighAt(mem: Store, f: int, c: Context) {
    && At(mem, f, c.rsi) && At(mem, f + 8, c.rdx) && At(mem, f + 16, c.rcx) && At(mem, f + 24, c.rbx)
    && At(mem, f + 32, c.rax)
  }

  predicate GeneralAt(mem: Store, f: int, c: Context) {
    LowAt(mem, f, c) && MidAt(mem, f + 40, c) && HighAt(mem, f + 80, c)
  }

  /** The five words the processor pushes. */
  predicate HardwareAt(mem: Store, f: int, c: Context) {
    && At(mem, f, c.rip) && At(mem, f + 8, c.cs) && At(mem, f + 16, c.rflags)
    && At(mem, f + 24, c.rsp) && At(mem, f + 32, c.ss)
  }

  /** A whole frame at `f`; the two words between hold the vector and an error code. */
  predicate FrameAt(mem: Store, f: int, c: Context) {
    GeneralAt(mem, f, c) && HardwareAt(mem, f + 136, c)
  }

  /** The layout of a frame, word by word from its lowest address. */
  lemma FrameLayout(mem: Store, f: int, c: Context)
    ensures FrameAt(mem, f, c) <==>
            && At(mem, f, c.r15) && At(mem, f + 8, c.r14) && At(mem, f + 16, c.r13) && At(mem, f + 24, c.r12)
            && At(mem, f + 32, c.r11) && At(mem, f + 40, c.r10) && At(mem, f + 48, c.r9) && At(mem, f + 56, c.r8)
            && At(mem, f + 64, c.rbp) && At(mem, f + 72, c.rdi) && At(mem, f + 80, c.rsi) && At(mem, f + 88, c.rdx)
            && At(mem, f + 96, c.rcx) && At(mem, f + 104, c.rbx) && At(mem, f + 112, c.rax)
            && At(mem, f + 136, c.rip) && At(mem, f + 144, c.cs) && At(mem, f + 152, c.rflags)
            && At(mem, f + 160, c.rsp) && At(mem, f + 168, c.ss)
  {
  }

  /** Two memories agree on [lo, hi). */
  ghost predicate SameOn(m: Store, m': Store, lo: int, hi: int) {
    forall a :: lo <= a < hi && a in m ==> At(m', a, m[a])
  }

  /** Two memories agree outside the `n` bytes at `a`. */
  ghost predicate KeptOutside(m: Store, m': Store, a: int, n: int) {
    forall b :: b in m && !(a <= b < a + n) ==> At(m', b, m[b])
  }

  lemma KeptOutsideBoth(m0: Store, m1: Store, m2: Store, a1: int, n1: int, a2: int, n2: int, a: int, n: int)
    requires KeptOutside(m0, m1, a1, n1) && KeptOutside(m1, m2, a2, n2)
    requires a <= a1 && a1 + n1 <= a + n && a <= a2 && a2 + n2 <= a + n
    ensures KeptOutside(m0, m2, a, n)
  {
  }

  lemma FrameKept(m: Store, m': Store, f: int, c: Context, lo: int, hi: int)
    requires FrameAt(m, f, c) && lo <= f && f + FRAME_SIZE <= hi
    requires SameOn(m, m', lo, hi)
    ensures FrameAt(m', f, c)
  {
  }

  /** Where an interrupt taken at `rsp` puts its frame: the processor aligns to 16 first. */
  function FrameBelow(rsp: Word): int { rsp - rsp % 16 - FRAME_SIZE }

  ghost predicate Disjoint(stacks: seq<Stack>) {
    forall i, j :: 0 <= i < |stacks| && 0 <= j < |stacks| && i != j ==>
      stacks[i].hi <= stacks[j].lo || stacks[j].hi <= stacks[i].lo
  }

  ghost predicate Apart(stacks: seq<Stack>, lo: int, hi: int) {
    forall t :: 0 <= t < |stacks| ==> hi <= stacks[t].lo || stacks[t].hi <= lo
  }

  ghost predicate Within(k: Stack, lo: int, hi: int) { k.lo <= lo && hi <= k.hi }

  /** No written word has a byte on the stack. */
  ghost predicate OffStack(writes: Store, k: Stack) {
    forall a :: a in writes ==> a + 8 <= k.lo || k.hi <= a
  }

  /** All bytes of all written words lie in [lo, hi). */
  ghost predicate Below(writes: Store, lo: int, hi: int) {
    forall a :: a in writes ==> lo <= a && a + 8 <= hi
  }

  /** Every task that is not running has its saved registers in a frame on its own stack. */
  ghost predicate FramesKept(s: Sched, mem: Store, stacks: seq<Stack>, saved: seq<Context>)
    requires |s.tasks| == MAX_TASKS && 0 <= s.count <= MAX_TASKS
    requires |stacks| == |saved| == s.count
  {
    forall t :: 0 <= t < s.count && t != s.current ==>
      && 0 < s.tasks[t].rsp
      && Within(stacks[t], s.tasks[t].rsp, s.tasks[t].rsp + FRAME_SIZE)
      && FrameAt(mem, s.tasks[t].rsp, saved[t])
  }

  ghost predicate Holds(s: Sched, mem: Store, stacks: seq<Stack>, saved: seq<Context>) {
    && Invariant(s)
    && |stacks| == |saved| == s.count
    && Disjoint(stacks)
    && (forall i :: 0 <= i < |stacks| ==> 0 < stacks[i].lo <= stacks[i].hi < TWO64)
    && FramesKept(s, mem, stacks, saved)
  }

  /** Writes that stay off the other tasks' stacks lose no saved context. */
  lemma HoldsAfterWrites(s: Sched, mem: Store, mem': Store, stacks: seq<Stack>, saved: seq<Context>)
    requires Holds(s, mem, stacks, saved)
    requires forall t :: 0 <= t < s.count && t != s.current ==> SameOn(mem, mem', stacks[t].lo, stacks[t].hi)
    ensures Holds(s, mem', stacks, saved)
  {
    forall t | 0 <= t < s.count && t != s.current
      ensures FrameAt(mem', s.tasks[t].rsp, saved[t])
    {
      FrameKept(mem, mem', s.tasks[t].rsp, saved[t], stacks[t].lo, stacks[t].hi);
    }
  }

  /** The registers a task starts with. */
  function FreshContext(entry: Word, stackTop: Word): Context {
    Context(0, 0, 0, 0, 0, 0, 0, 0, 0, 0, 0, 0, 0, 0, 0, entry, 0x08, 0x202, stackTop, 0x10)
  }

  /** The registers of a task that is about to start: it enters `entry` in the kernel's code segment, with
      interrupts on and the stack pointer at the top of its stack, and everything else is 0. */
  predicate Starts(c: Context, entry: Word, top: Word) {
    && c.rip == entry && c.rsp == top
    && c.cs == 8 && c.ss == 16 && c.rflags == 0x202
    && c.rax == 0 && c.rbx == 0 && c.rcx == 0 && c.rdx == 0 && c.rsi == 0 && c.rdi == 0 && c.rbp == 0
    && c.r8 == 0 && c.r9 == 0 && c.r10 == 0 && c.r11 == 0 && c.r12 == 0 && c.r13 == 0 && c.r14 == 0 && c.r15 == 0
  }

  /** After a tick from `s`, with the frame of the outgoing task in memory, every context is
      still held, and the tick returned the pointer saved for the incoming task. */
  lemma TickHolds(s: Sched, s1: Sched, f: Word, c: Context, mem: Store, stacks: seq<Stack>, saved: seq<Context>)
    requires Holds(s, mem, stacks, saved) && MayTick(s, s1)
    requires Within(stacks[s.current], f, f + FRAME_SIZE) && FrameAt(mem, f, c)
    ensures var r := Ticked(s1, f);
            && Invariant(r.0) && r.0.count == s.count
            && Holds(r.0, mem, stacks, saved[s.current := c])
            && (r.1 == 0 <==> r.0.current == s.current)
            && (r.1 != 0 ==>
                  FrameAt(mem, r.1, saved[r.0.current]) && Within(stacks[r.0.current], r.1, r.1 + FRAME_SIZE))
  {
    TickShape(s, s1, f);
    var r := Ticked(s1, f);
    forall t | 0 <= t < s.count && t != r.0.current
      ensures 0 < r.0.tasks[t].rsp
      ensures Within(stacks[t], r.0.tasks[t].rsp, r.0.tasks[t].rsp + FRAME_SIZE)
      ensures FrameAt(mem, r.0.tasks[t].rsp, saved[s.current := c][t])
    {
      assert r.0.tasks[t].rsp == if t == s.current then f else s.tasks[t].rsp;
    }
  }

  class Cpu {
    var mem: Store
    var regs: Context
    const sched: Scheduler
    ghost var stacks: seq<Stack>
    ghost var saved: seq<Context>

    constructor (memory: Store, registers: Context, scheduler: Scheduler, ghost bootStack: Stack)
      requires scheduler.Valid() && Initial(scheduler.View())
      requires 0 < bootStack.lo <= bootStack.hi < TWO64
      ensures sched == scheduler && Valid() && stacks == [bootStack]
      ensures mem == memory && regs == registers
    {
      mem, regs, sched := memory, registers, scheduler;
      stacks, saved := [bootStack], [registers];
    }

    ghost predicate Valid()
      reads this, sched, sched.tasks
    {
      sched.Valid() && Holds(sched.View(), mem, stacks, saved)
    }

    method Push(v: Word)
      requires regs.rsp >= 8
      modifies this`mem, this`regs
      ensures regs == old(regs).(rsp := old(regs.rsp) - 8)
      ensures mem == old(mem)[regs.rsp := v]
    {
      regs := regs.(rsp := regs.rsp - 8);
      mem := mem[regs.rsp := v];
    }

    method Pop() returns (v: Word)
      requires regs.rsp in mem && regs.rsp + 8 < TWO64
      modifies this`regs
      ensures v == mem[old(regs.rsp)]
      ensures regs == old(regs).(rsp := old(regs.rsp) + 8)
    {
      v := mem[regs.rsp];
      regs := regs.(rsp := regs.rsp + 8);
    }

    /** What the processor does on an interrupt: align, then push the interrupted state. */
    method HardwareEntry()
      requires regs.rsp >= 64
      modifies this`mem, this`regs
      ensures regs == old(regs).(rsp := regs.rsp)
      ensures regs.rsp == old(regs.rsp) - old(regs.rsp) % 16 - 40
      ensures HardwareAt(mem, regs.rsp, old(regs))
      ensures KeptOutside(old(mem), mem, regs.rsp, 40)
    {
      var was := regs;
      regs := regs.(rsp := regs.rsp - regs.rsp % 16);
      Push(was.ss);
      Push(was.rsp);
      Push(was.rflags);
      Push(was.cs);
      Push(was.rip);
    }

    /** The fifteen pushes of `irq_common`, five at a time. */
    method PushGeneral()
      requires regs.rsp >= 120
      modifies this`mem, this`regs
      ensures regs == old(regs).(rsp := old(regs.rsp) - 120)
      ensures GeneralAt(mem, regs.rsp, old(regs))
      ensures KeptOutside(old(mem), mem, regs.rsp, 120)
    {
      PushHigh();
      PushMid();
      PushLow();
    }

    method PushHigh()
      requires regs.rsp >= 40
      modifies this`mem, this`regs
      ensures regs == old(regs).(rsp := old(regs.rsp) - 40)
      ensures HighAt(mem, regs.rsp, old(regs))
      ensures KeptOutside(old(mem), mem, regs.rsp, 40)
    {
      Push(regs.rax);
      Push(regs.rbx);
      Push(regs.rcx);
      Push(regs.rdx);
      Push(regs.rsi);
    }

    method PushMid()
      requires regs.rsp >= 40
      modifies this`mem, this`regs
      ensures regs == old(regs).(rsp := old(regs.rsp) - 40)
      ensures MidAt(mem, regs.rsp, old(regs))
      ensures KeptOutside(old(mem), mem, regs.rsp, 40)
    {
      Push(regs.rdi);
      Push(regs.rbp);
      Push(regs.r8);
      Push(regs.r9);
      Push(regs.r10);
    }

    method PushLow()
      requires regs.rsp >= 40
      modifies this`mem, this`regs
      ensures regs == old(regs).(rsp := old(regs.rsp) - 40)
      ensures LowAt(mem, regs.rsp, old(regs))
      ensures KeptOutside(old(mem), mem, regs.rsp, 40)
    {
      Push(regs.r11);
      Push(regs.r12);
      Push(regs.r13);
      Push(regs.r14);
      Push(regs.r15);
    }

    /** The fifteen pops of `isr_return`, five at a time. */
    method PopGeneral(ghost c: Context)
      requires GeneralAt(mem, regs.rsp, c) && regs.rsp + 120 < TWO64
      modifies this`regs
      ensures regs == c.(rip := old(regs.rip), cs := old(regs.cs), rflags := old(regs.rflags),
                         rsp := old(regs.rsp) + 120, ss := old(regs.ss))
    {
      PopLow(c);
      PopMid(c);
      PopHigh(c);
    }

    method PopLow(ghost c: Context)
      requires LowAt(mem, regs.rsp, c) && regs.rsp + 40 < TWO64
      modifies this`regs
      ensures regs == old(regs).(r15 := c.r15, r14 := c.r14, r13 := c.r13, r12 := c.r12, r11 := c.r11,
                                 rsp := old(regs.rsp) + 40)
    {
      var v := Pop();
      regs := regs.(r15 := v);
      v := Pop();
      regs := regs.(r14 := v);
      v := Pop();
      regs := regs.(r13 := v);
      v := Pop();
      regs := regs.(r12 := v);
      v := Pop();
      regs := regs.(r11 := v);
    }

    method PopMid(ghost c: Context)
      requires MidAt(mem, regs.rsp, c) && regs.rsp + 40 < TWO64
      modifies this`regs
      ensures regs == old(regs).(r10 := c.r10, r9 := c.r9, r8 := c.r8, rbp := c.rbp, rdi := c.rdi,
                                 rsp := old(regs.rsp) + 40)
    {
      var v := Pop();
      regs := regs.(r10 := v);
      v := Pop();
      regs := regs.(r9 := v);
      v := Pop();
      regs := regs.(r8 := v);
      v := Pop();
      regs := regs.(rbp := v);
      v := Pop();
      regs := regs.(rdi := v);
    }

    method PopHigh(ghost c: Context)
      requires HighAt(mem, regs.rsp, c) && regs.rsp + 40 < TWO64
      modifies this`regs
      ensures regs == old(regs).(rsi := c.rsi, rdx := c.rdx, rcx := c.rcx, rbx := c.rbx, rax := c.rax,
                                 rsp := old(regs.rsp) + 40)
    {
      var v := Pop();
      regs := regs.(rsi := v);
      v := Pop();
      regs := regs.(rdx := v);
      v := Pop();
      regs := regs.(rcx := v);
      v := Pop();
      regs := regs.(rbx := v);
      v := Pop();
      regs := regs.(rax := v);
    }

    /** The interrupt return instruction: five pops into the processor state. */
    method Iretq(ghost c: Context)
      requires HardwareAt(mem, regs.rsp, c) && regs.rsp + 40 < TWO64
      modifies this`regs
      ensures regs == old(regs).(rip := c.rip, cs := c.cs, rflags := c.rflags, rsp := c.rsp, ss := c.ss)
    {
      var rip := Pop();
      var cs := Pop();
      var rflags := Pop();
      var rsp := Pop();
      var ss := Pop();
      regs := regs.(rip := rip, cs := cs, rflags := rflags, rsp := rsp, ss := ss);
    }

    /** The common return path from a frame at the stack pointer. */
    method Return(ghost c: Context)
      requires FrameAt(mem, regs.rsp, c) && regs.rsp + FRAME_SIZE < TWO64
      modifies this`regs
      ensures regs == c
    {
      PopGeneral(c);
      regs := regs.(rsp := regs.rsp + 16);
      Iretq(c);
    }

    /** The way in, up to the call of the handler. */
    method EnterIrq(intNo: Word)
      requires regs.rsp >= FRAME_SIZE + 16
      modifies this`mem, this`regs
      ensures regs.rsp == FrameBelow(old(regs.rsp)) == old(regs.rsp) - old(regs.rsp) % 16 - 176
      ensures FrameAt(mem, regs.rsp, old(regs)) && At(mem, regs.rsp + 120, intNo) && At(mem, regs.rsp + 128, 0)
      ensures KeptOutside(old(mem), mem, regs.rsp, old(regs.rsp) - regs.rsp)
    {
      ghost var c, m0 := regs, mem;
      HardwareEntry();
      ghost var top, m1 := regs.rsp, mem;
      Push(0);
      Push(intNo);
      ghost var m2 := mem;
      assert HardwareAt(m2, top, c) && At(m2, top - 16, intNo) && At(m2, top - 8, 0);
      PushGeneral();
      assert HardwareAt(mem, top, c) && At(mem, top - 16, intNo) && At(mem, top - 8, 0);
      KeptOutsideBoth(m0, m1, m2, top, 40, top - 16, 16, regs.rsp, c.rsp - regs.rsp);
      KeptOutsideBoth(m0, m2, mem, regs.rsp, c.rsp - regs.rsp, regs.rsp, 120, regs.rsp, c.rsp - regs.rsp);
    }

    /** `irq_handler` on the frame it is given: only the timer vector reaches the scheduler. */
    method IrqHandler(frame: Word) returns (rsp: Word)
      requires sched.Valid() && frame + 120 in mem
      modifies sched, sched.tasks
      ensures sched.Valid()
      ensures mem[frame + 120] == 32 ==> (sched.View(), rsp) == Ticked(old(sched.View()), frame)
      ensures mem[frame + 120] != 32 ==> sched.View() == old(sched.View()) && rsp == 0
    {
      var intNo := mem[frame + 120];
      if intNo == TIMER_IRQ {
        rsp := sched.Tick(frame);
      } else {
        rsp := 0;
      }
    }

    /** One interrupt, from the instruction it interrupts to the instruction it returns to.
        `scratch` are the writes of the handler's own C code, which stay below the frame;
        `clobbered` is whatever it leaves in the registers.  `s` is the table at the tick boundary;
        the running task may have marked itself terminated since. */
    method Irq(intNo: Word, scratch: Store, clobbered: Context, ghost s: Sched)
      requires sched.Valid() && Holds(s, mem, stacks, saved) && MayTick(s, sched.View())
      requires intNo != TIMER_IRQ ==> sched.View() == s
      requires Within(stacks[s.current], FrameBelow(regs.rsp), regs.rsp)
      requires Below(scratch, stacks[s.current].lo, FrameBelow(regs.rsp))
      modifies this, sched, sched.tasks
      ensures Valid() && stacks == old(stacks)
      ensures intNo == TIMER_IRQ ==> sched.View() == Ticked(old(sched.View()), FrameBelow(old(regs.rsp))).0
      ensures intNo != TIMER_IRQ ==> sched.View() == s
      ensures regs == if sched.View().current == s.current then old(regs) else old(saved)[sched.View().current]
      ensures saved == old(saved)[s.current := old(regs)]
    {
      ghost var c := regs;
      TakeIrq(intNo, scratch, s);
      LeaveIrq(intNo, clobbered, s, c);
    }

    /** The first half: the frame is pushed and the handler's writes have happened. */
    method TakeIrq(intNo: Word, scratch: Store, ghost s: Sched)
      requires Holds(s, mem, stacks, saved)
      requires Within(stacks[s.current], FrameBelow(regs.rsp), regs.rsp)
      requires Below(scratch, stacks[s.current].lo, FrameBelow(regs.rsp))
      modifies this`mem, this`regs
      ensures Holds(s, mem, stacks, saved)
      ensures regs.rsp == FrameBelow(old(regs.rsp)) && FrameAt(mem, regs.rsp, old(regs)) && At(mem, regs.rsp + 120, intNo)
    {
      ghost var c := regs;
      EnterIrq(intNo);
      ghost var pushed := mem;
      mem := mem + scratch;
      EntryHolds(s, old(mem), pushed, mem, stacks, saved, regs.rsp, c, intNo);
    }

    /** The second half: the scheduler decides, and the frame it chose is popped. */
    method LeaveIrq(ghost intNo: Word, clobbered: Context, ghost s: Sched, ghost c: Context)
      requires sched.Valid() && Holds(s, mem, stacks, saved) && MayTick(s, sched.View())
      requires intNo != TIMER_IRQ ==> sched.View() == s
      requires Within(stacks[s.current], regs.rsp, regs.rsp + FRAME_SIZE) && FrameAt(mem, regs.rsp, c)
      requires At(mem, regs.rsp + 120, intNo)
      modifies this, sched, sched.tasks
      ensures Valid() && stacks == old(stacks)
      ensures intNo == TIMER_IRQ ==> sched.View() == Ticked(old(sched.View()), old(regs.rsp)).0
      ensures intNo != TIMER_IRQ ==> sched.View() == s
      ensures regs == if sched.View().current == s.current then c else old(saved)[sched.View().current]
      ensures saved == old(saved)[s.current := c]
    {
      var frame := regs.rsp;
      var rax := Decide(intNo, frame, s, c);
      regs := clobbered.(rsp := if rax != 0 then rax else frame);
      Return(if sched.View().current == s.current then c else saved[sched.View().current]);
    }

    /** The call of the handler, which says where to go on: at the frame `frame` of the running task, if
        it says 0, and otherwise at that of another one. */
    method Decide(ghost intNo: Word, frame: Word, ghost s: Sched, ghost c: Context) returns (rax: Word)
      requires sched.Valid() && Holds(s, mem, stacks, saved) && MayTick(s, sched.View())
      requires intNo != TIMER_IRQ ==> sched.View() == s
      requires Within(stacks[s.current], frame, frame + FRAME_SIZE) && FrameAt(mem, frame, c) && At(mem, frame + 120, intNo)
      modifies this`saved, sched, sched.tasks
      ensures Valid() && |saved| == |stacks| && saved == old(saved)[s.current := c]
      ensures intNo == TIMER_IRQ ==> sched.View() == Ticked(old(sched.View()), frame).0
      ensures intNo != TIMER_IRQ ==> sched.View() == s
      ensures rax == 0 <==> sched.View().current == s.current
      ensures rax != 0 ==>
                && FrameAt(mem, rax, saved[sched.View().current])
                && Within(stacks[sched.View().current], rax, rax + FRAME_SIZE)
    {
      ghost var before := sched.View();
      rax := IrqHandler(frame);
      if intNo == TIMER_IRQ {
        TickHolds(s, before, frame, c, mem, stacks, saved);
      } else {
        SavedOfCurrentIsFree(s, mem, stacks, saved, c);
      }
      saved := saved[s.current := c];
    }

    /** The running task computes: any registers, any writes off the other tasks' stacks. */
    method Compute(registers: Context, writes: Store)
      requires Valid()
      requires forall t :: 0 <= t < |stacks| && t != sched.View().current ==> OffStack(writes, stacks[t])
      modifies this`mem, this`regs
      ensures Valid() && regs == registers
    {
      ghost var was := mem;
      mem := mem + writes;
      regs := registers;
      HoldsAfterWrites(sched.View(), was, mem, stacks, saved);
    }

    /** A timer or other interrupt of the running task. */
    method Interrupt(intNo: Word, scratch: Store, clobbered: Context)
      requires Valid()
      requires Within(stacks[sched.View().current], FrameBelow(regs.rsp), regs.rsp)
      requires Below(scratch, stacks[sched.View().current].lo, FrameBelow(regs.rsp))
      modifies this, sched, sched.tasks
      ensures Valid() && stacks == old(stacks)
      ensures var was, now := old(sched.View()).current, sched.View().current;
              && now == (if intNo == 32 then (was + 1) % |stacks| else was)
              && regs == (if now == was then old(regs) else old(saved)[now])
              && saved == old(saved)[was := old(regs)]
    {
      ghost var s := sched.View();
      TickIsRoundRobin(s, s, FrameBelow(regs.rsp));
      Irq(intNo, scratch, clobbered, s);
    }

    /** `task_exit`: mark, then yield through the timer vector. */
    method ExitTask(scratch: Store, clobbered: Context)
      requires Valid()
      requires Within(stacks[sched.View().current], FrameBelow(regs.rsp), regs.rsp)
      requires Below(scratch, stacks[sched.View().current].lo, FrameBelow(regs.rsp))
      modifies this, sched, sched.tasks
      ensures Valid() && stacks == old(stacks)
      ensures var was, now := old(sched.View()).current, sched.View().current;
              && now == (was + 1) % |stacks|
              && regs == (if now == was then old(regs) else old(saved)[now])
              && saved == old(saved)[was := old(regs)]
    {
      ghost var s := sched.View();
      TickIsRoundRobin(s, Exited(s), FrameBelow(regs.rsp));
      sched.Exit();
      Irq(TIMER_IRQ, scratch, clobbered, s);
    }

    /** The cleared stack of a new task, with the five words an interrupt return needs. */
    method WriteFreshFrame(entry: Word, stackTop: Word)
      requires stackTop > STACK_SIZE
      modifies this`mem
      ensures FrameAt(mem, stackTop - FRAME_SIZE, FreshContext(entry, stackTop))
      ensures At(mem, stackTop - 40, entry) && At(mem, stackTop - 32, 8) && At(mem, stackTop - 24, 0x202)
      ensures At(mem, stackTop - 16, stackTop) && At(mem, stackTop - 8, 16)
      ensures KeptOutside(old(mem), mem, stackTop - STACK_SIZE, STACK_SIZE)
    {
      var frame := stackTop - FRAME_SIZE;
      ghost var c, m0 := FreshContext(entry, stackTop), mem;
      Clear(stackTop - STACK_SIZE, 512);
      ghost var m1 := mem;
      GeneralClear(mem, stackTop - STACK_SIZE, c);
      WriteEntryWords(frame, entry, stackTop);
      assert GeneralAt(mem, frame, c);
      KeptOutsideBoth(m0, m1, mem, stackTop - STACK_SIZE, STACK_SIZE, frame + 136, 40,
                      stackTop - STACK_SIZE, STACK_SIZE);
    }

    method WriteEntryWords(frame: int, entry: Word, stackTop: Word)
      modifies this`mem
      ensures HardwareAt(mem, frame + 136, FreshContext(entry, stackTop))
      ensures KeptOutside(old(mem), mem, frame + 136, 40)
    {
      mem := mem[frame + 168 := 0x10];
      mem := mem[frame + 160 := stackTop];
      mem := mem[frame + 152 := 0x202];
      mem := mem[frame + 144 := 0x08];
      mem := mem[frame + 136 := entry];
    }

    method Clear(lo: int, words: nat)
      modifies this`mem
      ensures forall k :: 0 <= k < words ==> At(mem, Cell(lo, k), 0)
      ensures KeptOutside(old(mem), mem, lo, 8 * words)
    {
      var i := 0;
      while i < words
        invariant 0 <= i <= words
        invariant forall k :: 0 <= k < i ==> At(mem, Cell(lo, k), 0)
        invariant KeptOutside(old(mem), mem, lo, 8 * words)
      {
        mem := mem[Cell(lo, i) := 0];
        i := i + 1;
      }
    }

    /** `task_create` on the frame that ends at `stackTop`, or on none if that is 0. */
    method CreateTask(entry: Word, stackTop: Word) returns (idx: int)
      requires Valid()
      requires stackTop != 0 ==>
                 stackTop > STACK_SIZE && Apart(stacks, stackTop - STACK_SIZE, stackTop)
      modifies this, sched, sched.tasks
      ensures Valid() && regs == old(regs)
      ensures sched.View() == Created(old(sched.View()), stackTop)
      ensures idx == -1 <==> stackTop == 0 || |old(stacks)| == MAX_TASKS
      ensures idx == -1 ==> mem == old(mem) && stacks == old(stacks) && saved == old(saved)
      ensures idx != -1 ==>
                && idx == |old(stacks)|
                && stacks == old(stacks) + [Stack(stackTop - STACK_SIZE, stackTop)]
                && saved == old(saved) + [FreshContext(entry, stackTop)]
                && Starts(saved[idx], entry, stackTop)
                && sched.View().tasks[idx] == Task(stackTop - 176, stackTop, 4096, Ready)
                && FrameAt(mem, stackTop - 176, saved[idx])
    {
      ghost var s, was := sched.View(), mem;
      CreateFillsNextSlot(s, stackTop);
      CreateSpelled(s, stackTop);
      idx := sched.Create(stackTop);
      if idx < 0 {
        return -1;
      }
      WriteFreshFrame(entry, stackTop);
      HoldsAfterWrites(s, was, mem, stacks, saved);
      CreatedHolds(s, mem, stacks, saved, entry, stackTop);
      stacks := stacks + [Stack(stackTop - STACK_SIZE, stackTop)];
      saved := saved + [FreshContext(entry, stackTop)];
    }
  }

  /** The address of word `k` of the range at `lo`. */
  function Cell(lo: int, k: int): int { lo + 8 * k }

  lemma GeneralClear(mem: Store, lo: int, c: Context)
    requires c == FreshContext(c.rip, c.rsp)
    requires forall k :: 0 <= k < 507 ==> At(mem, Cell(lo, k), 0)
    ensures GeneralAt(mem, lo + STACK_SIZE - FRAME_SIZE, c)
  {
    assert Cell(lo, 490) == lo + 3920 && Cell(lo, 491) == lo + 3928 && Cell(lo, 492) == lo + 3936;
    assert Cell(lo, 493) == lo + 3944 && Cell(lo, 494) == lo + 3952 && Cell(lo, 495) == lo + 3960;
    assert Cell(lo, 496) == lo + 3968 && Cell(lo, 497) == lo + 3976 && Cell(lo, 498) == lo + 3984;
    assert Cell(lo, 499) == lo + 3992 && Cell(lo, 500) == lo + 4000 && Cell(lo, 501) == lo + 4008;
    assert Cell(lo, 502) == lo + 4016 && Cell(lo, 503) == lo + 4024 && Cell(lo, 504) == lo + 4032;
  }

  /** The pushes of an interrupt and the handler's writes below them lose no saved context. */
  lemma EntryHolds(s: Sched, was: Store, pushed: Store, mem: Store, stacks: seq<Stack>, saved: seq<Context>,
                   frame: int, c: Context, intNo: Word)
    requires Holds(s, was, stacks, saved)
    requires Within(stacks[s.current], frame, c.rsp) && frame + FRAME_SIZE <= c.rsp
    requires FrameAt(pushed, frame, c) && At(pushed, frame + 120, intNo)
    requires KeptOutside(was, pushed, frame, c.rsp - frame)
    requires KeptOutside(pushed, mem, stacks[s.current].lo, frame - stacks[s.current].lo)
    ensures Holds(s, mem, stacks, saved)
    ensures FrameAt(mem, frame, c)
    ensures At(mem, frame + 120, intNo)
  {
    OthersUntouched(s, was, pushed, stacks, frame, c.rsp);
    HoldsAfterWrites(s, was, pushed, stacks, saved);
    OthersUntouched(s, pushed, mem, stacks, stacks[s.current].lo, frame);
    HoldsAfterWrites(s, pushed, mem, stacks, saved);
    FrameKept(pushed, mem, frame, c, frame, frame + FRAME_SIZE);
  }

  /** Writes inside the current task's stack stay off the others. */
  lemma OthersUntouched(s: Sched, m: Store, m': Store, stacks: seq<Stack>, lo: int, hi: int)
    requires 0 <= s.current < |stacks| && Disjoint(stacks)
    requires Within(stacks[s.current], lo, hi)
    requires KeptOutside(m, m', lo, hi - lo)
    ensures forall t :: 0 <= t < |stacks| && t != s.current ==> SameOn(m, m', stacks[t].lo, stacks[t].hi)
  {
  }

  /** Nothing depends on what is saved for the task that runs. */
  lemma SavedOfCurrentIsFree(s: Sched, mem: Store, stacks: seq<Stack>, saved: seq<Context>, c: Context)
    requires Holds(s, mem, stacks, saved)
    ensures Holds(s, mem, stacks, saved[s.current := c])
  {
  }

  lemma CreatedHolds(s: Sched, mem: Store, stacks: seq<Stack>, saved: seq<Context>, entry: Word, stackTop: Word)
    requires Holds(s, mem, stacks, saved) && CanCreate(s, stackTop) && stackTop > STACK_SIZE
    requires Apart(stacks, stackTop - STACK_SIZE, stackTop)
    requires FrameAt(mem, stackTop - FRAME_SIZE, FreshContext(entry, stackTop))
    ensures Holds(Created(s, stackTop), mem, stacks + [Stack(stackTop - STACK_SIZE, stackTop)],
                  saved + [FreshContext(entry, stackTop)])
  {
    CreateFillsNextSlot(s, stackTop);
  }
}

/** The pre-emptive round-robin scheduler of kernel/hal/i386/multitasking.c. */
module Scheduler {
  import opened Common

  const MAX_TASKS: nat := 10
  const DEFAULT_ESP_STACK_SIZE: nat := 16384

  datatype Register = Register(
    gs: word32, fs: word32, es: word32, ds: word32,
    edi: word32, esi: word32, ebp: word32, esp: word32, ebx: word32, edx: word32, ecx: word32, eax: word32,
    eip: word32, cs: word32, eflags: word32, useresp: word32, ss: word32)

  datatype Process = Process(registers: Register, active: bool, timer: int, ticks: int)

  const ZERO_REGISTER := Register(0, 0, 0, 0, 0, 0, 0, 0, 0, 0, 0, 0, 0, 0, 0, 0, 0)
  const BLANK := Process(ZERO_REGISTER, false, 0, 0)

  /**
    The scheduler's globals together with the register set of the processor (`cpu`, which is what the
    interrupt frame holds), whether interrupts are enabled, and the tasks inside createTask that have filled
    a slot and enabled interrupts, but not yet counted the slot.
   */
  datatype Sched = Sched(registers: seq<Process>, regnow: nat, regcount: nat, cpu: Register, interrupts: bool, pending: set<nat>)

  /** The increment of a 32-bit `int`, wrapping at its largest value. */
  function Inc32(x: int): int
  {
    if x == 0x7fff_ffff then -0x8000_0000 else x + 1
  }

  /** irq_timer: the running task is charged one interrupt. */
  function Charged(p: Process): Process
  {
    var timer := Inc32(p.timer);
    p.(timer := timer, ticks := if timer % 18 == 0 then Inc32(p.ticks) else p.ticks)
  }

  /** The registers a new task starts with. */
  function EntryRegisters(entrypoint: word32, stack: nat): Register
  {
    ZERO_REGISTER.(cs := 0x08, ds := 0x10, ss := 0x10, esp := (stack + DEFAULT_ESP_STACK_SIZE) % TWO32, eip := entrypoint, eflags := 0x202)
  }

  /** An active task that has never run: at its entry point, with a stack of its own and interrupts enabled, in the kernel's segments. */
  predicate StartsAt(p: Process, entrypoint: word32, stack: nat)
  {
    && p.active && p.timer == 0 && p.ticks == 0
    && p.registers.eip == entrypoint && p.registers.esp == (stack + 16384) % 0x1_0000_0000
    && p.registers.cs == 0x08 && p.registers.ds == 0x10 && p.registers.ss == 0x10 && p.registers.eflags == 0x202
    && p.registers.gs == 0 && p.registers.fs == 0 && p.registers.es == 0
    && p.registers.edi == 0 && p.registers.esi == 0 && p.registers.ebp == 0 && p.registers.useresp == 0
    && p.registers.eax == 0 && p.registers.ebx == 0 && p.registers.ecx == 0 && p.registers.edx == 0
  }

  /** Steps from slot `from` forward to slot `to`, going round after `count` slots; a full round for `from` itself. */
  function Distance(from: nat, to: nat, count: nat): int
  {
    if to > from then to - from else to - from + count
  }

  /** `j` is the first active slot after `now` in cyclic order. */
  ghost predicate IsNext(ps: seq<Process>, now: nat, count: nat, j: nat)
    requires count <= |ps|
  {
    && j < count && ps[j].active
    && forall k :: 0 <= k < count && ps[k].active ==> Distance(now, j, count) <= Distance(now, k, count)
  }

  /** The next slot, said slot by slot: it is active, and none is from the one after `now`, going round, up to it. */
  lemma IsNextIff(ps: seq<Process>, now: nat, count: nat, j: nat)
    requires now < count <= |ps|
    ensures IsNext(ps, now, count, j) <==>
            && j < count && ps[j].active
            && if j > now then forall k :: now < k < j ==> !ps[k].active
               else (forall k :: now < k < count ==> !ps[k].active) && forall k :: 0 <= k < j ==> !ps[k].active
  {
    if j < count && ps[j].active && !IsNext(ps, now, count, j) {
      var k :| 0 <= k < count && ps[k].active && Distance(now, j, count) > Distance(now, k, count);
    }
  }

  ghost predicate SomeActive(ps: seq<Process>, count: nat)
    requires count <= |ps|
  {
    exists k :: 0 <= k < count && ps[k].active
  }

  /** The slots that count: before the first createTask, the one for what runs already. */
  function Taken(s: Sched): nat
  {
    if s.regcount == 0 then 1 else s.regcount
  }

  /** Every register that createTask does not set is zero. */
  predicate Unused(p: Process)
  {
    p.registers.(cs := 0, ds := 0, ss := 0, esp := 0, eip := 0, eflags := 0) == ZERO_REGISTER
  }

  ghost predicate Inv(s: Sched)
  {
    && |s.registers| == MAX_TASKS
    && s.regnow < MAX_TASKS && s.regnow < Taken(s)
    && forall i :: Taken(s) <= i < MAX_TASKS ==> Unused(s.registers[i])
  }

  // ----- the steps of the machine -----

  /**
    createTask is two steps: with interrupts off it fills a slot (`Fill`; slot -1 when the table is full), and after
    it has enabled them it counts the slot (`Publish`). `Sleep` is the start of sleep, which resets the timer.
   */
  datatype Event =
    | User(cpu: Register, interrupts: bool)
    | Tick
    | Fill(entrypoint: word32, stack: nat, slot: int)
    | Publish(pid: int)
    | Kill(victim: nat)
    | Sleep
    | ResetTicks

  ghost predicate TickStep(s: Sched, s': Sched)
    requires Inv(s)
  {
    var charged := s.registers[s.regnow := Charged(s.registers[s.regnow])];
    if s.regcount == 0 then s' == s.(registers := charged)
    else
      && s.regcount <= MAX_TASKS
      && s'.registers == charged[s.regnow := charged[s.regnow].(registers := s.cpu)]
      && IsNext(s.registers, s.regnow, s.regcount, s'.regnow)
      && s'.cpu == s'.registers[s'.regnow].registers
      && s'.regcount == s.regcount && s'.interrupts == s.interrupts && s'.pending == s.pending
  }

  /** The running task has filled a slot and is still to count it. */
  function WithFilled(s: Sched, entrypoint: word32, stack: nat): Sched
    requires Taken(s) < |s.registers|
  {
    s.(registers := s.registers[Taken(s) := Process(EntryRegisters(entrypoint, stack), true, 0, 0)],
       regcount := Taken(s), interrupts := true, pending := s.pending + {s.regnow})
  }

  /** The task must not be inside createTask already. */
  ghost predicate FillStep(s: Sched, entrypoint: word32, stack: nat, slot: int, s': Sched)
    requires Inv(s)
  {
    && s.regnow !in s.pending
    && if s.regcount > 9 then slot == -1 && s' == s.(interrupts := false)
       else
         slot == Taken(s) && s' == WithFilled(s, entrypoint, stack)
  }

  function Killed(s: Sched, pid: nat): Sched
    requires pid < |s.registers|
  {
    s.(registers := s.registers[pid := s.registers[pid].(active := false)])
  }

  /** The running task's record with another timer and other ticks. */
  function Clocked(s: Sched, timer: int, ticks: int): Sched
    requires s.regnow < |s.registers|
  {
    s.(registers := s.registers[s.regnow := s.registers[s.regnow].(timer := timer, ticks := ticks)])
  }

  /** One step of the machine. A timer interrupt arrives only while interrupts are enabled. */
  ghost predicate Step(s: Sched, e: Event, s': Sched)
    requires Inv(s)
  {
    match e
    case User(cpu, interrupts) => s' == s.(cpu := cpu, interrupts := interrupts)
    case Tick => s.interrupts && TickStep(s, s')
    case Fill(entrypoint, stack, slot) => FillStep(s, entrypoint, stack, slot, s')
    case Publish(pid) =>
      s.regnow in s.pending && pid == s.regcount && s' == s.(regcount := s.regcount + 1, pending := s.pending - {s.regnow})
    case Kill(pid) => pid < MAX_TASKS && s' == Killed(s, pid)
    case Sleep => s' == Clocked(s, 0, s.registers[s.regnow].ticks)
    case ResetTicks => s' == Clocked(s, s.registers[s.regnow].timer, 0)
  }

  /** The kernel's globals, changed in place. */
  class Multitasking {
    const registers: array<Process>
    var regnow: nat
    var regcount: nat
    var cpu: Register
    var interrupts: bool
    ghost var pending: set<nat>

    ghost function State(): Sched
      reads this, registers
    {
      Sched(registers[..], regnow, regcount, cpu, interrupts, pending)
    }

    ghost predicate Valid()
      reads this, registers
    {
      registers.Length == MAX_TASKS && Inv(State())
    }

    /** init_multitasking: slot 0 stands for whatever runs already. */
    constructor (cpu: Register)
      ensures Valid() && fresh(registers)
      ensures regnow == 0 && regcount == 0 && this.cpu == cpu && interrupts && pending == {}
      ensures registers[0] == BLANK.(active := true)
    {
      registers := new Process[MAX_TASKS](i => if i == 0 then BLANK.(active := true) else BLANK);
      regnow, regcount := 0, 0;
      this.cpu, interrupts, pending := cpu, true, {};
    }

    method IrqTimer()
      requires regnow < registers.Length
      modifies registers
      ensures registers[..] == old(registers[..])[regnow := Charged(old(registers[regnow]))]
      ensures registers[regnow].timer == if old(registers[regnow].timer) == 0x7fff_ffff then -0x8000_0000 else old(registers[regnow].timer) + 1
      ensures registers[regnow].timer % 18 != 0 ==> registers[regnow].ticks == old(registers[regnow].ticks)
      ensures registers[regnow].timer % 18 == 0 && old(registers[regnow].ticks) < 0x7fff_ffff ==> registers[regnow].ticks == old(registers[regnow].ticks) + 1
    {
      var timer := Inc32(registers[regnow].timer);
      registers[regnow] := registers[regnow].(timer := timer);
      if timer % 18 == 0 {
        registers[regnow] := registers[regnow].(ticks := Inc32(registers[regnow].ticks));
      }
      assert registers[..] == old(registers[..])[regnow := registers[regnow]];
    }

    /** Advances `regnow` to the next active slot; ends because some slot is active. */
    method SelectNext()
      requires registers.Length == MAX_TASKS && regnow < regcount <= MAX_TASKS
      requires SomeActive(registers[..], regcount)
      modifies this`regnow
      ensures IsNext(registers[..], old(regnow), regcount, regnow)
    {
      ghost var start := regnow;
      ghost var target :| 0 <= target < regcount && registers[..][target].active;
      ghost var passed := 0;
      while true
        invariant regnow < regcount && 0 <= passed < Distance(start, target, regcount)
        invariant passed == (if regnow >= start then regnow - start else regnow - start + regcount)
        invariant forall k :: 0 <= k < regcount && registers[..][k].active ==> passed < Distance(start, k, regcount)
        decreases Distance(start, target, regcount) - passed
      {
        regnow := regnow + 1;
        passed := passed + 1;
        if !(regnow < regcount) {
          regnow := 0;
        }
        assert passed == Distance(start, regnow, regcount);
        if registers[regnow].active {
          break;
        }
      }
    }

    method SaveRegisters(r: Register)
      requires Valid()
      modifies registers
      ensures registers[..] == old(registers[..])[regnow := old(registers[regnow]).(registers := r)]
    {
      var saved := registers[regnow].registers;
      saved := saved.(gs := r.gs, fs := r.fs, es := r.es, ds := r.ds);
      saved := saved.(edi := r.edi, esi := r.esi, ebp := r.ebp, esp := r.esp);
      saved := saved.(ebx := r.ebx, edx := r.edx, ecx := r.ecx, eax := r.eax);
      saved := saved.(eip := r.eip, cs := r.cs, eflags := r.eflags, useresp := r.useresp, ss := r.ss);
      registers[regnow] := registers[regnow].(registers := saved);
    }

    method LoadRegisters(r: Register)
      modifies this`cpu
      ensures cpu == r
    {
      cpu := cpu.(gs := r.gs, fs := r.fs, es := r.es, ds := r.ds);
      cpu := cpu.(edi := r.edi, esi := r.esi, ebp := r.ebp, esp := r.esp);
      cpu := cpu.(ebx := r.ebx, edx := r.edx, ecx := r.ecx, eax := r.eax);
      cpu := cpu.(eip := r.eip, cs := r.cs, eflags := r.eflags, useresp := r.useresp, ss := r.ss);
    }

    /** The timer interrupt: charge, save, select, restore. */
    method IrqMultitasking()
      requires Valid() && interrupts && regcount <= MAX_TASKS
      requires regcount > 0 ==> SomeActive(registers[..], regcount)
      modifies this`regnow, this`cpu, registers
      ensures Valid() && Step(old(State()), Tick, State())
      ensures old(regcount) > 0 ==>
                && registers[old(regnow)].registers == old(cpu) && registers[regnow].active && cpu == registers[regnow].registers
                && (forall i :: 0 <= i < MAX_TASKS && i != old(regnow) ==> registers[i] == old(registers[i]))
      ensures old(regcount) == 0 ==> cpu == old(cpu) && regnow == old(regnow)
    {
      hide IsNext, SomeActive, Charged;
      ghost var before := registers[..];
      IrqTimer();
      ChargedKeeps(before[regnow]);
      if regcount > 0 {
        SaveRegisters(cpu);
        SameActivity(before, registers[..], regnow, regcount);
        SelectNext();
        NextIsActive(registers[..], old(regnow), regcount, regnow);
        LoadRegisters(registers[regnow].registers);
      }
    }

    method KillTask(pid: nat)
      requires Valid() && pid < MAX_TASKS
      modifies registers
      ensures Valid() && Step(old(State()), Kill(pid), State())
      ensures !registers[pid].active && registers[pid].registers == old(registers[pid].registers)
      ensures forall i :: 0 <= i < MAX_TASKS && i != pid ==> registers[i] == old(registers[i])
    {
      registers[pid] := registers[pid].(active := false);
    }

    /** createTask up to `sti`; `stack` is the address that malloc returned for the new stack. */
    method FillSlot(entrypoint: word32, stack: nat) returns (slot: int)
      requires Valid() && regnow !in pending
      modifies this`regcount, this`interrupts, this`pending, registers
      ensures Valid() && Step(old(State()), Fill(entrypoint, stack, slot), State())
      ensures slot == -1 <==> old(regcount) > 9
      ensures slot != -1 ==> 0 < slot < MAX_TASKS && StartsAt(registers[slot], entrypoint, stack) && interrupts
      ensures slot == -1 ==> !interrupts
      ensures forall i :: 0 <= i < MAX_TASKS && i != slot ==> registers[i] == old(registers[i])
    {
      interrupts := false;
      if regcount == 0 {
        regcount := 1;
      } else if regcount > 9 {
        return -1;
      }
      var to := (stack + DEFAULT_ESP_STACK_SIZE) % TWO32;
      var r := registers[regcount].registers;
      r := r.(cs := 0x08, ds := 0x10, ss := 0x10, esp := to, eip := entrypoint, eflags := 0x202);
      registers[regcount] := registers[regcount].(registers := r, active := true, timer := 0, ticks := 0);
      interrupts := true;
      slot := regcount;
      pending := pending + {regnow};
    }

    /** createTask after `sti`: other tasks may have run meanwhile. */
    method PublishSlot() returns (cup: int)
      requires Valid() && regnow in pending
      modifies this`regcount, this`pending
      ensures Valid() && Step(old(State()), Publish(cup), State())
    {
      cup := regcount;
      regcount := regcount + 1;
      pending := pending - {regnow};
    }

    /** createTask when nothing comes between its two parts. */
    method CreateTask(entrypoint: word32, stack: nat) returns (pid: int)
      requires Valid() && regnow !in pending
      modifies this`regcount, this`interrupts, this`pending, registers
      ensures Valid()
      ensures pid == -1 <==> old(regcount) > 9
      ensures pid == -1 ==> State() == old(State()).(interrupts := false)
      ensures pid != -1 ==> 0 < pid < MAX_TASKS && StartsAt(registers[pid], entrypoint, stack)
      ensures pid != -1 ==>
                var slot := Taken(old(State()));
                && pid == slot && slot < MAX_TASKS
                && State() == old(State()).(registers := old(registers[..])[slot := Process(EntryRegisters(entrypoint, stack), true, 0, 0)],
                                            regcount := slot + 1, interrupts := true)
    {
      pid := FillSlot(entrypoint, stack);
      if pid != -1 {
        pid := PublishSlot();
      }
    }

    /** The start of sleep; what follows waits for the timer to reach the wanted number. */
    method StartSleep()
      requires Valid()
      modifies registers
      ensures Valid() && Step(old(State()), Sleep, State())
      ensures registers[..] == old(registers[..])[regnow := old(registers[regnow]).(timer := 0)]
    {
      registers[regnow] := registers[regnow].(timer := 0);
    }

    method ResetTicks()
      requires Valid()
      modifies registers
      ensures Valid() && Step(old(State()), Event.ResetTicks, State())
      ensures registers[..] == old(registers[..])[regnow := old(registers[regnow]).(ticks := 0)]
    {
      registers[regnow] := registers[regnow].(ticks := 0);
    }
  }

  lemma NextIsActive(ps: seq<Process>, now: nat, count: nat, j: nat)
    requires count <= |ps| && IsNext(ps, now, count, j)
    ensures j < count && ps[j].active
  {
  }

  lemma ChargedKeeps(p: Process)
    ensures Charged(p).registers == p.registers && Charged(p).active == p.active
  {
  }

  lemma SameActivity(before: seq<Process>, after: seq<Process>, now: nat, count: nat)
    requires now < count <= |before| == |after|
    requires forall k :: 0 <= k < |before| ==> after[k].active == before[k].active
    requires SomeActive(before, count)
    ensures SomeActive(after, count)
    ensures forall j: nat :: IsNext(after, now, count, j) ==> IsNext(before, now, count, j)
  {
  }
}

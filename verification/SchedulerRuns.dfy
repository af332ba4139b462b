/** What the scheduler promises over every interleaving of user steps, interrupts, createTask and killTask. */
module SchedulerRuns {
  import opened Common
  import opened Scheduler

  // ----- refinement: every task owns its registers -----

  /** The ideal machine: one private register set per slot; only the running task's set can change under a user step. */
  datatype Tasks = Tasks(owned: seq<Register>, active: seq<bool>, current: nat, count: nat)

  /** The register set that belongs to slot `i`: the processor's for the running task, the saved one otherwise. */
  function Owned(s: Sched, i: nat): Register
    requires i < |s.registers|
  {
    if i == s.regnow then s.cpu else s.registers[i].registers
  }

  ghost function Abstract(s: Sched): Tasks
  {
    Tasks(seq(|s.registers|, i requires 0 <= i < |s.registers| => Owned(s, i)),
          seq(|s.registers|, i requires 0 <= i < |s.registers| => s.registers[i].active),
          s.regnow, s.regcount)
  }

  ghost predicate IsNextTask(active: seq<bool>, now: nat, count: nat, j: nat)
  {
    && j < count <= |active| && active[j]
    && forall k :: 0 <= k < count && active[k] ==> Distance(now, j, count) <= Distance(now, k, count)
  }

  /** One step of the ideal machine. An interrupt only changes which task runs. */
  ghost predicate IdealStep(t: Tasks, e: Event, t': Tasks)
    requires |t.owned| == |t.active| == MAX_TASKS && t.current < MAX_TASKS
  {
    match e
    case User(cpu, _) => t' == t.(owned := t.owned[t.current := cpu])
    case Tick => t' == t.(current := t'.current) && if t.count == 0 then t'.current == t.current else IsNextTask(t.active, t.current, t.count, t'.current)
    case Fill(entrypoint, stack, slot) =>
      if t.count >= MAX_TASKS then slot == -1 && t' == t
      else
        && slot == (if t.count == 0 then 1 else t.count)
        && t' == t.(owned := t.owned[slot := EntryRegisters(entrypoint, stack)], active := t.active[slot := true], count := slot)
    case Publish(pid) => pid == t.count && t' == t.(count := t.count + 1)
    case Kill(victim) => victim < MAX_TASKS && t' == t.(active := t.active[victim := false])
    case Sleep => t' == t
    case ResetTicks => t' == t
  }

  lemma StepKeepsInv(s: Sched, e: Event, s': Sched)
    requires Inv(s) && Step(s, e, s')
    ensures Inv(s')
    ensures s.regcount <= s'.regcount
    ensures e.Fill? && e.slot != -1 ==> e.slot == Taken(s) == Taken(s') && e.slot < MAX_TASKS
  {
  }

  /** Saving and restoring through one shared processor behaves like private register sets. */
  lemma SchedulerRefinesPrivateRegisters(s: Sched, e: Event, s': Sched)
    requires Inv(s) && Step(s, e, s')
    ensures Inv(s') && IdealStep(Abstract(s), e, Abstract(s'))
  {
    StepKeepsInv(s, e, s');
    var t, t' := Abstract(s), Abstract(s');
    match e {
      case User(cpu, _) =>
        assert t'.owned == t.owned[t.current := cpu];
        assert t'.active == t.active;
      case Tick =>
        assert t'.owned == t.owned;
        assert t'.active == t.active;
      case Fill(entrypoint, stack, slot) =>
        if slot == -1 {
          assert t'.owned == t.owned && t'.active == t.active;
        } else {
          assert t'.owned == t.owned[slot := EntryRegisters(entrypoint, stack)];
          assert t'.active == t.active[slot := true];
        }
      case Kill(victim) =>
        assert t'.owned == t.owned;
        assert t'.active == t.active[victim := false];
      case _ =>
        assert t'.owned == t.owned && t'.active == t.active;
    }
  }

  // ----- runs -----

  ghost predicate Run(ss: seq<Sched>, es: seq<Event>)
  {
    && |ss| == |es| + 1 && Inv(ss[0])
    && (forall i :: 0 <= i < |ss| ==> Inv(ss[i]))
    && forall i :: 0 <= i < |es| ==> Step(ss[i], es[i], ss[i + 1])
  }

  /** The register values before and after each user step of task `i`, in order. */
  ghost function Projection(ss: seq<Sched>, es: seq<Event>, i: nat): seq<(Register, Register)>
    requires |ss| == |es| + 1
  {
    if es == [] then []
    else
      var n := |es| - 1;
      Projection(ss[..n + 1], es[..n], i) + if es[n].User? && ss[n].regnow == i then [(ss[n].cpu, ss[n + 1].cpu)] else []
  }

  /** The steps begin at `start`, each begins where the one before ended, and the last ends at `end`. */
  ghost predicate Uninterrupted(start: Register, steps: seq<(Register, Register)>, end: Register)
  {
    && (steps == [] ==> start == end)
    && (steps != [] ==> steps[0].0 == start && steps[|steps| - 1].1 == end)
    && forall k :: 0 < k < |steps| ==> steps[k].0 == steps[k - 1].1
  }

  /** No event of the run fills slot `i`. */
  ghost predicate NotFilled(es: seq<Event>, i: nat)
  {
    forall k :: 0 <= k < |es| && es[k].Fill? ==> es[k].slot != i
  }

  /** Seen alone, a task runs without interruption, whatever the other tasks and the timer do. */
  lemma {:induction false} TaskRunsUninterrupted(ss: seq<Sched>, es: seq<Event>, i: nat)
    requires Run(ss, es) && i < MAX_TASKS && NotFilled(es, i)
    ensures Uninterrupted(Owned(ss[0], i), Projection(ss, es, i), Owned(ss[|es|], i))
    decreases |es|
  {
    if es != [] {
      var n := |es| - 1;
      TaskRunsUninterrupted(ss[..n + 1], es[..n], i);
      assert Step(ss[n], es[n], ss[n + 1]);
      OwnedChange(ss[n], es[n], ss[n + 1], i);
    }
  }

  /** A step changes the registers a task owns only if it is that task's own user step or its creation. */
  lemma OwnedChange(s: Sched, e: Event, s': Sched, i: nat)
    requires Inv(s) && Inv(s') && Step(s, e, s') && i < MAX_TASKS
    requires e.Fill? ==> e.slot != i
    ensures Owned(s', i) == if e.User? && s.regnow == i then s'.cpu else Owned(s, i)
  {
  }

  /** A slot that counts is never filled again, and the count never falls. */
  lemma {:induction false} CountedSlotsStay(ss: seq<Sched>, es: seq<Event>, i: nat, j: nat)
    requires Run(ss, es) && j <= |es| && i < Taken(ss[0])
    ensures ss[0].regcount <= ss[j].regcount
    ensures NotFilled(es[..j], i)
  {
    if j > 0 {
      CountedSlotsStay(ss, es, i, j - 1);
      assert Step(ss[j - 1], es[j - 1], ss[j]);
      StepKeepsInv(ss[j - 1], es[j - 1], ss[j]);
      assert es[..j] == es[..j - 1] + [es[j - 1]];
    }
  }

  // ----- which slot createTask fills -----

  /** The event is a createTask that found a slot. */
  predicate Fills(e: Event)
  {
    e.Fill? && e.slot != -1
  }

  ghost predicate PublishedBetween(es: seq<Event>, a: nat, b: nat)
  {
    exists m :: a < m < b && m < |es| && es[m].Publish?
  }

  /** Without a publication the count stays, from the filling of a slot on; with one it grows. */
  lemma {:induction false} CountBetween(ss: seq<Sched>, es: seq<Event>, a: nat, b: nat)
    requires Run(ss, es) && a < b <= |es| && Fills(es[a])
    ensures es[a].slot > 0
    ensures if PublishedBetween(es, a, b) then ss[b].regcount > es[a].slot else ss[b].regcount == es[a].slot
    decreases b
  {
    var m := b - 1;
    assert Step(ss[m], es[m], ss[m + 1]) && Inv(ss[m]);
    StepKeepsInv(ss[m], es[m], ss[b]);
    if m > a {
      CountBetween(ss, es, a, m);
      assert PublishedBetween(es, a, b) <==> PublishedBetween(es, a, m) || es[m].Publish?;
    }
  }

  /** Two calls of createTask get the same slot exactly if none was completed between them. */
  lemma SameSlotIff(ss: seq<Sched>, es: seq<Event>, a: nat, b: nat)
    requires Run(ss, es) && a < b < |es| && Fills(es[a]) && Fills(es[b])
    ensures es[a].slot == es[b].slot <==> !PublishedBetween(es, a, b)
    ensures es[a].slot <= es[b].slot
  {
    CountBetween(ss, es, a, b);
    assert Step(ss[b], es[b], ss[b + 1]) && Inv(ss[b]);
    StepKeepsInv(ss[b], es[b], ss[b + 1]);
  }

  /** A task that is resumed sees exactly the registers it had when it was last pre-empted. */
  lemma ResumesWhereItStopped(ss: seq<Sched>, es: seq<Event>, t: nat)
    requires Run(ss, es) && |es| >= 1 && es[0] == Tick && ss[0].regnow == t && ss[0].regcount > 0
    requires forall k :: 0 < k < |es| ==> ss[k].regnow != t
    requires ss[|es|].regnow == t
    ensures ss[|es|].cpu == ss[0].cpu
  {
    CountedSlotsStay(ss, es, t, |es|);
    assert es[..|es|] == es;
    TaskRunsUninterrupted(ss, es, t);
    OnlyStepsWhenRunning(ss, es, t);
  }

  lemma {:induction false} OnlyStepsWhenRunning(ss: seq<Sched>, es: seq<Event>, t: nat)
    requires |ss| == |es| + 1
    requires forall k :: 0 <= k < |es| && es[k].User? ==> ss[k].regnow != t
    ensures Projection(ss, es, t) == []
    decreases |es|
  {
    if es != [] {
      OnlyStepsWhenRunning(ss[..|es|], es[..|es| - 1], t);
    }
  }

  /** A created task's own run starts at the registers createTask gave it, unless its slot is filled once more. */
  lemma CreatedTaskRun(ss: seq<Sched>, es: seq<Event>)
    requires Run(ss, es) && |es| >= 1 && Fills(es[0])
    requires forall b :: 0 < b < |es| && Fills(es[b]) ==> PublishedBetween(es, 0, b)
    ensures 0 < es[0].slot < MAX_TASKS
    ensures Uninterrupted(EntryRegisters(es[0].entrypoint, es[0].stack), Projection(ss[1..], es[1..], es[0].slot), Owned(ss[|es|], es[0].slot))
  {
    assert Step(ss[0], es[0], ss[1]);
    var i := es[0].slot;
    TailIsRun(ss, es);
    forall k | 0 <= k < |es[1..]| && es[1..][k].Fill?
      ensures es[1..][k].slot != i
    {
      assert es[1..][k] == es[k + 1];
      if Fills(es[k + 1]) {
        SameSlotIff(ss, es, 0, k + 1);
      }
    }
    TaskRunsUninterrupted(ss[1..], es[1..], i);
  }

  /** The first user step of a created task finds its entry point in eip and the end of its stack in esp. */
  lemma CreatedTaskStartsAtEntry(ss: seq<Sched>, es: seq<Event>)
    requires Run(ss, es) && |es| >= 1 && Fills(es[0])
    requires forall b :: 0 < b < |es| && Fills(es[b]) ==> PublishedBetween(es, 0, b)
    requires 0 < es[0].slot && Projection(ss[1..], es[1..], es[0].slot) != []
    ensures var cpu := Projection(ss[1..], es[1..], es[0].slot)[0].0;
            && cpu.eip == es[0].entrypoint && cpu.esp == (es[0].stack + 16384) % 0x1_0000_0000
            && cpu.cs == 0x08 && cpu.ds == 0x10 && cpu.ss == 0x10 && cpu.eflags == 0x202
  {
    CreatedTaskRun(ss, es);
  }

  /** A task that is killed is not dispatched again, unless it is one that was not counted yet. */
  lemma {:induction false} KilledTaskIsNotDispatched(ss: seq<Sched>, es: seq<Event>, i: nat, j: nat)
    requires Run(ss, es) && |es| >= 1 && es[0] == Kill(i) && i < ss[0].regcount && 0 < j <= |es|
    ensures i < MAX_TASKS && |ss[j].registers| == MAX_TASKS && !ss[j].registers[i].active && i < ss[j].regcount
    ensures es[j - 1] == Tick ==> ss[j].regnow != i
  {
    assert Step(ss[j - 1], es[j - 1], ss[j]) && Inv(ss[j - 1]) && Inv(ss[j]);
    if j > 1 {
      KilledTaskIsNotDispatched(ss, es, i, j - 1);
    }
  }

  // ----- fairness -----

  /** Distance over all ten slots; it does not depend on how many tasks there are. */
  function Wait(now: nat, i: nat): int
  {
    Distance(now, i, MAX_TASKS)
  }

  ghost predicate NotKilled(es: seq<Event>, i: nat)
  {
    forall k :: 0 <= k < |es| ==> es[k] != Kill(i)
  }

  function Ticks(es: seq<Event>): nat
  {
    if es == [] then 0 else (if es[0] == Tick then 1 else 0) + Ticks(es[1..])
  }

  /** Task `i` is dispatched by one of the interrupts of the run. */
  ghost predicate Dispatched(ss: seq<Sched>, es: seq<Event>, i: nat)
    requires |ss| == |es| + 1
  {
    exists k :: 0 <= k < |es| && es[k] == Tick && ss[k + 1].regnow == i
  }

  lemma StaysActive(s: Sched, e: Event, s': Sched, i: nat)
    requires Inv(s) && Inv(s') && Step(s, e, s') && i < s.regcount && i < MAX_TASKS && s.registers[i].active && e != Kill(i)
    ensures i < s'.regcount && s'.registers[i].active
  {
  }

  /** An interrupt that does not dispatch a waiting task brings it nearer; nothing else moves it away. */
  lemma WaitShrinks(s: Sched, e: Event, s': Sched, i: nat)
    requires Inv(s) && Inv(s') && Step(s, e, s') && i < s.regcount && i < MAX_TASKS && s.registers[i].active
    requires e == Tick ==> s'.regnow != i
    ensures if e == Tick then Wait(s'.regnow, i) < Wait(s.regnow, i) else s'.regnow == s.regnow
  {
  }

  lemma TailIsRun(ss: seq<Sched>, es: seq<Event>)
    requires Run(ss, es) && es != []
    ensures Run(ss[1..], es[1..])
    ensures Step(ss[0], es[0], ss[1]) && Inv(ss[1])
    ensures forall i :: Dispatched(ss[1..], es[1..], i) ==> Dispatched(ss, es, i)
  {
  }

  /** A task that stays active is dispatched within ten interrupts, whatever is created or killed meanwhile. */
  lemma {:induction false} DispatchedWithinTen(ss: seq<Sched>, es: seq<Event>, i: nat)
    requires Run(ss, es) && i < ss[0].regcount && i < MAX_TASKS && ss[0].registers[i].active && NotKilled(es, i)
    requires Ticks(es) >= Wait(ss[0].regnow, i)
    ensures 1 <= Wait(ss[0].regnow, i) <= 10
    ensures Dispatched(ss, es, i)
    decreases |es|
  {
    TailIsRun(ss, es);
    if es[0] == Tick && ss[1].regnow == i {
      assert es[0] == Tick && ss[0 + 1].regnow == i;
    } else {
      StaysActive(ss[0], es[0], ss[1], i);
      WaitShrinks(ss[0], es[0], ss[1], i);
      assert forall k :: 0 <= k < |es[1..]| ==> es[1..][k] == es[k + 1];
      DispatchedWithinTen(ss[1..], es[1..], i);
    }
  }

  /** While `k` waits, an interrupt stays on the cyclic way from `i` to `k`, and does not come back to `i`. */
  lemma StaysBetween(s: Sched, s': Sched, i: nat, k: nat)
    requires Inv(s) && Inv(s') && Step(s, Tick, s') && i < s.regcount && k < s.regcount && i != k
    requires s.registers[k].active && s'.regnow != k
    requires s.regnow == i || Wait(i, s.regnow) < Wait(i, k)
    ensures s'.regnow != i && Wait(i, s'.regnow) < Wait(i, k)
  {
  }

  /** Round robin: between two dispatches of one task, every task that stays active gets its turn. */
  lemma {:induction false} EveryoneElseGetsATurn(ss: seq<Sched>, es: seq<Event>, i: nat, k: nat)
    requires Run(ss, es) && i < ss[0].regcount && k < ss[0].regcount && i != k
    requires k < MAX_TASKS && ss[0].registers[k].active && NotKilled(es, k)
    requires ss[0].regnow == i || Wait(i, ss[0].regnow) < Wait(i, k)
    requires Dispatched(ss, es, i)
    ensures Dispatched(ss, es, k)
    decreases |es|
  {
    hide Step, Inv;
    TailIsRun(ss, es);
    StepKeepsInv(ss[0], es[0], ss[1]);
    if es[0] == Tick && ss[1].regnow == k {
      assert es[0] == Tick && ss[0 + 1].regnow == k;
    } else {
      StaysActive(ss[0], es[0], ss[1], k);
      if es[0] == Tick {
        StaysBetween(ss[0], ss[1], i, k);
      } else {
        WaitShrinks(ss[0], es[0], ss[1], k);
      }
      var d :| 0 <= d < |es| && es[d] == Tick && ss[d + 1].regnow == i;
      assert d > 0 && es[1..][d - 1] == Tick && ss[1..][d - 1 + 1].regnow == i;
      assert forall m :: 0 <= m < |es[1..]| ==> es[1..][m] == es[m + 1];
      EveryoneElseGetsATurn(ss[1..], es[1..], i, k);
    }
  }

  // ----- accounting -----

  /** Interrupts that arrived while `i` was running. */
  ghost function InterruptsOf(ss: seq<Sched>, es: seq<Event>, i: nat): nat
    requires |ss| == |es| + 1
  {
    if es == [] then 0
    else
      var n := |es| - 1;
      InterruptsOf(ss[..n + 1], es[..n], i) + if es[n] == Tick && ss[n].regnow == i then 1 else 0
  }

  /** No event of the run is the start of sleep in task `i`. */
  ghost predicate NotSlept(ss: seq<Sched>, es: seq<Event>, i: nat)
    requires |ss| == |es| + 1
  {
    forall k :: 0 <= k < |es| && es[k] == Sleep ==> ss[k].regnow != i
  }

  /** Until it sleeps, a task's timer counts exactly the interrupts taken while that task ran, modulo 2^32. */
  lemma {:induction false} TimerCountsOwnInterrupts(ss: seq<Sched>, es: seq<Event>, i: nat)
    requires Run(ss, es) && i < MAX_TASKS && NotFilled(es, i) && NotSlept(ss, es, i)
    ensures |ss[|es|].registers| == |ss[0].registers| == MAX_TASKS
    ensures (ss[|es|].registers[i].timer - ss[0].registers[i].timer - InterruptsOf(ss, es, i)) % TWO32 == 0
    decreases |es|
  {
    hide Step, Inv;
    RunShape(ss, es);
    if es != [] {
      var n := |es| - 1;
      RunShape(ss[..n + 1], es[..n]);
      TimerCountsOwnInterrupts(ss[..n + 1], es[..n], i);
      assert Step(ss[n], es[n], ss[n + 1]);
      TimerStep(ss[n], es[n], ss[n + 1], i);
    }
  }

  /** No event of the run resets the ticks of task `i`. */
  ghost predicate TicksKept(ss: seq<Sched>, es: seq<Event>, i: nat)
    requires |ss| == |es| + 1
  {
    forall k :: 0 <= k < |es| && es[k] == ResetTicks ==> ss[k].regnow != i
  }

  /** `p'` is `p` after `n` more interrupts: the timer is up by `n`, and ticks by one for each multiple of 18 it came to. */
  ghost predicate TickedBy(p: Process, p': Process, n: nat)
  {
    p'.timer == p.timer + n && p'.ticks == p.ticks + p'.timer / 18 - p.timer / 18
  }

  lemma ChargedIsTickedByOne(p: Process)
    requires 0 <= p.timer < 0x7fff_ffff && 0 <= p.ticks < 0x7fff_ffff
    ensures TickedBy(p, Charged(p), 1)
  {
  }

  lemma TickedByAdds(p: Process, q: Process, r: Process, m: nat, n: nat)
    requires TickedBy(p, q, m) && TickedBy(q, r, n)
    ensures TickedBy(p, r, m + n)
  {
  }

  lemma TickedByBound(p: Process, q: Process, n: nat)
    requires TickedBy(p, q, n) && 0 <= p.timer && 0 <= p.ticks
    ensures 0 <= q.timer == p.timer + n && 0 <= q.ticks <= p.ticks + n
  {
  }

  /**
    Every eighteenth of its own interrupts adds a tick to a task, so `n` interrupts from a fresh timer on add n / 18,
    as long as nothing overflows.
   */
  lemma {:induction false} TicksCountEighteenths(ss: seq<Sched>, es: seq<Event>, i: nat)
    requires Run(ss, es) && i < MAX_TASKS && NotFilled(es, i) && NotSlept(ss, es, i) && TicksKept(ss, es, i)
    requires |ss[0].registers| == MAX_TASKS && ss[0].registers[i].timer >= 0 && ss[0].registers[i].ticks >= 0
    requires ss[0].registers[i].timer + ss[0].registers[i].ticks + InterruptsOf(ss, es, i) <= 0x7fff_ffff
    ensures |ss[|es|].registers| == MAX_TASKS
    ensures TickedBy(ss[0].registers[i], ss[|es|].registers[i], InterruptsOf(ss, es, i))
    decreases |es|
  {
    hide Step, Inv, TickedBy;
    RunShape(ss, es);
    if es == [] {
      NotTicked(ss[0].registers[i]);
    } else {
      var n := |es| - 1;
      RunShape(ss[..n + 1], es[..n]);
      TicksCountEighteenths(ss[..n + 1], es[..n], i);
      assert Step(ss[n], es[n], ss[n + 1]);
      var m := InterruptsOf(ss[..n + 1], es[..n], i);
      TickedByBound(ss[0].registers[i], ss[n].registers[i], m);
      TickingStep(ss[n], es[n], ss[n + 1], i);
      TickedByAdds(ss[0].registers[i], ss[n].registers[i], ss[n + 1].registers[i], m, InterruptsOf(ss, es, i) - m);
    }
  }

  lemma NotTicked(p: Process)
    ensures TickedBy(p, p, 0)
  {
  }

  lemma TickingStep(s: Sched, e: Event, s': Sched, i: nat)
    requires Inv(s) && Step(s, e, s') && i < MAX_TASKS && (e.Fill? ==> e.slot != i) && (e == Sleep || e == ResetTicks ==> s.regnow != i)
    requires |s.registers| == MAX_TASKS && 0 <= s.registers[i].timer && 0 <= s.registers[i].ticks
    requires e == Tick && s.regnow == i ==> s.registers[i].timer < 0x7fff_ffff && s.registers[i].ticks < 0x7fff_ffff
    ensures |s'.registers| == MAX_TASKS
    ensures TickedBy(s.registers[i], s'.registers[i], if e == Tick && s.regnow == i then 1 else 0)
  {
    hide TickedBy, Charged;
    var p, p' := s.registers[i], s'.registers[i];
    if e == Tick && s.regnow == i {
      ChargedIsTickedByOne(p);
      SameClock(p, Charged(p), p', 1);
    } else {
      NotTicked(p);
      SameClock(p, p, p', 0);
    }
  }

  lemma SameClock(p: Process, q: Process, q': Process, n: nat)
    requires TickedBy(p, q, n) && q'.timer == q.timer && q'.ticks == q.ticks
    ensures TickedBy(p, q', n)
  {
  }

  /** sleep(ms) ends when the timer has reached `ms`: not before `ms` interrupts were taken while the task itself ran. */
  lemma SleepTakesOwnInterrupts(ss: seq<Sched>, es: seq<Event>, ms: nat)
    requires Run(ss, es) && |es| >= 1 && es[0] == Sleep
    requires NotSlept(ss[1..], es[1..], ss[0].regnow)
    ensures ss[0].regnow < MAX_TASKS == |ss[|es|].registers|
    ensures 0 <= ms <= ss[|es|].registers[ss[0].regnow].timer < TWO32 ==> InterruptsOf(ss[1..], es[1..], ss[0].regnow) >= ms
  {
    var i := ss[0].regnow;
    RunShape(ss, es);
    TailIsRun(ss, es);
    CountedSlotsStay(ss, es, i, |es|);
    assert es[..|es|] == es;
    forall k | 0 <= k < |es[1..]| && es[1..][k].Fill?
      ensures es[1..][k].slot != i
    {
      assert es[1..][k] == es[k + 1];
    }
    TimerCountsOwnInterrupts(ss[1..], es[1..], i);
    assert Step(ss[0], Sleep, ss[1]) && ss[1].registers[i].timer == 0;
    if ms <= ss[|es|].registers[i].timer < TWO32 {
      AtLeast(ss[|es|].registers[i].timer, InterruptsOf(ss[1..], es[1..], i));
    }
  }

  lemma AtLeast(timer: int, n: nat)
    requires 0 <= timer < TWO32 && (timer - n) % TWO32 == 0
    ensures n >= timer
  {
  }

  lemma RunShape(ss: seq<Sched>, es: seq<Event>)
    requires Run(ss, es)
    ensures forall k :: 0 <= k < |ss| ==> |ss[k].registers| == MAX_TASKS
  {
  }

  lemma TimerStep(s: Sched, e: Event, s': Sched, i: nat)
    requires Inv(s) && Step(s, e, s') && i < MAX_TASKS && (e.Fill? ==> e.slot != i) && (e == Sleep ==> s.regnow != i)
    ensures |s'.registers| == MAX_TASKS
    ensures var d := s'.registers[i].timer - s.registers[i].timer - (if e == Tick && s.regnow == i then 1 else 0);
            d == 0 || d == -TWO32
  {
  }

  // ----- a full table -----

  function Calls(es: seq<Event>): nat
  {
    if es == [] then 0 else Calls(es[..|es| - 1]) + if es[|es| - 1].Fill? then 1 else 0
  }

  function Filled(es: seq<Event>): nat
  {
    if es == [] then 0 else Filled(es[..|es| - 1]) + if Fills(es[|es| - 1]) then 1 else 0
  }

  function Published(es: seq<Event>): nat
  {
    if es == [] then 0 else Published(es[..|es| - 1]) + if es[|es| - 1].Publish? then 1 else 0
  }

  ghost predicate FromStart(ss: seq<Sched>, es: seq<Event>)
  {
    Run(ss, es) && ss[0].regcount == 0 && ss[0].pending == {}
  }

  lemma PrefixIsRun(ss: seq<Sched>, es: seq<Event>, i: nat)
    requires Run(ss, es) && i <= |es|
    ensures Run(ss[..i + 1], es[..i])
  {
  }

  /** The count is one, for what ran already, and one for each completed call; a slot that is filled but not counted belongs to a call in progress. */
  lemma {:induction false} CountIsPublished(ss: seq<Sched>, es: seq<Event>)
    requires FromStart(ss, es)
    ensures ss[|es|].regcount == if Filled(es) == 0 then 0 else 1 + Published(es)
    ensures Filled(es) == Published(es) + |ss[|es|].pending|
    ensures Filled(es) <= Calls(es) && (Filled(es) < Calls(es) ==> Published(es) >= 9)
    decreases |es|
  {
    if es != [] {
      var n := |es| - 1;
      CountIsPublished(ss[..n + 1], es[..n]);
      assert Step(ss[n], es[n], ss[n + 1]);
    }
  }

  /** From start-up on, createTask fails exactly when nine calls have been completed before, whatever was killed meanwhile. */
  lemma FailsAfterNineIff(ss: seq<Sched>, es: seq<Event>, i: nat)
    requires FromStart(ss, es) && i < |es| && es[i].Fill?
    ensures es[i].slot == -1 <==> Published(es[..i]) >= 9
  {
    assert Step(ss[i], es[i], ss[i + 1]);
    PrefixIsRun(ss, es, i);
    CountIsPublished(ss[..i + 1], es[..i]);
  }

  /** No call of createTask fills a slot while another is between its two parts. */
  ghost predicate Serial(ss: seq<Sched>, es: seq<Event>)
    requires |ss| == |es| + 1
  {
    forall k :: 0 <= k < |es| && Fills(es[k]) ==> ss[k].pending == {}
  }

  /** No slot is filled twice. */
  ghost predicate SlotsDistinct(es: seq<Event>)
  {
    forall a, b :: 0 <= a < b < |es| && Fills(es[a]) && Fills(es[b]) ==> es[a].slot != es[b].slot
  }

  /** While no call is completed, one that is in progress stays so. */
  lemma {:induction false} PendingStays(ss: seq<Sched>, es: seq<Event>, a: nat, b: nat)
    requires Run(ss, es) && a < b <= |es| && Fills(es[a]) && !PublishedBetween(es, a, b)
    ensures ss[b].pending != {}
    decreases b
  {
    assert Step(ss[b - 1], es[b - 1], ss[b]);
    if b > a + 1 {
      PendingStays(ss, es, a, b - 1);
    } else {
      assert ss[a].regnow in ss[b].pending;
    }
  }

  /** While slots are distinct, each call fills a slot above all before, so slot numbers are ahead of the calls. */
  lemma {:induction false} SlotsAhead(ss: seq<Sched>, es: seq<Event>, b: nat)
    requires FromStart(ss, es) && SlotsDistinct(es) && b < |es| && Fills(es[b])
    ensures es[b].slot > Filled(es[..b])
    decreases b
  {
    assert Step(ss[b], es[b], ss[b + 1]);
    NextSlotAhead(ss, es, b, b);
  }

  lemma {:induction false} NextSlotAhead(ss: seq<Sched>, es: seq<Event>, b: nat, j: nat)
    requires FromStart(ss, es) && SlotsDistinct(es) && j <= b < |es| && Fills(es[b])
    requires forall k :: j <= k < b ==> !Fills(es[k])
    ensures es[b].slot > Filled(es[..j]) == Filled(es[..b])
    decreases b, j
  {
    SameFilled(es, j, b);
    if j == 0 {
      assert Step(ss[b], es[b], ss[b + 1]);
    } else {
      assert es[..j][..j - 1] == es[..j - 1];
      if Fills(es[j - 1]) {
        SlotsAhead(ss, es, j - 1);
        SameSlotIff(ss, es, j - 1, b);
      } else {
        NextSlotAhead(ss, es, b, j - 1);
      }
    }
  }

  lemma {:induction false} SameFilled(es: seq<Event>, j: nat, b: nat)
    requires j <= b <= |es| && forall k :: j <= k < b ==> !Fills(es[k])
    ensures Filled(es[..j]) == Filled(es[..b])
    decreases b
  {
    if j < b {
      SameFilled(es, j, b - 1);
      assert es[..b][..b - 1] == es[..b - 1];
    }
  }

  /** From start-up on no slot is given to two tasks, if and only if calls of createTask never overlap. */
  lemma SlotsDistinctIff(ss: seq<Sched>, es: seq<Event>)
    requires FromStart(ss, es)
    ensures SlotsDistinct(es) <==> Serial(ss, es)
  {
    if Serial(ss, es) {
      forall a, b | 0 <= a < b < |es| && Fills(es[a]) && Fills(es[b])
        ensures es[a].slot != es[b].slot
      {
        if !PublishedBetween(es, a, b) {
          PendingStays(ss, es, a, b);
        }
        SameSlotIff(ss, es, a, b);
      }
    }
    if SlotsDistinct(es) {
      forall k | 0 <= k < |es| && Fills(es[k])
        ensures ss[k].pending == {}
      {
        SlotsAhead(ss, es, k);
        PrefixIsRun(ss, es, k);
        CountIsPublished(ss[..k + 1], es[..k]);
        assert Step(ss[k], es[k], ss[k + 1]);
      }
    }
  }

  /** Without overlapping calls at most one is in progress, and the count follows from the number of calls: full from nine on, and never past ten. */
  lemma {:induction false} NineCallsFillTheTable(ss: seq<Sched>, es: seq<Event>)
    requires FromStart(ss, es) && Serial(ss, es)
    ensures |ss[|es|].pending| <= 1
    ensures ss[|es|].regcount + |ss[|es|].pending| == if Calls(es) == 0 then 0 else if Calls(es) < 9 then Calls(es) + 1 else MAX_TASKS
    decreases |es|
  {
    if es != [] {
      var n := |es| - 1;
      assert Serial(ss[..n + 1], es[..n]);
      NineCallsFillTheTable(ss[..n + 1], es[..n]);
      CountIsPublished(ss[..n + 1], es[..n]);
      assert Step(ss[n], es[n], ss[n + 1]);
    }
  }

  /** Without overlapping calls createTask fails exactly from its tenth call on. */
  lemma TenthCallFails(ss: seq<Sched>, es: seq<Event>, i: nat)
    requires FromStart(ss, es) && Serial(ss, es) && i < |es| && es[i].Fill?
    ensures es[i].slot == -1 <==> Calls(es[..i]) >= 9
  {
    assert Step(ss[i], es[i], ss[i + 1]);
    PrefixIsRun(ss, es, i);
    NineCallsFillTheTable(ss[..i + 1], es[..i]);
  }

  /** User code enables interrupts somewhere in [i, j). */
  ghost predicate Enabled(es: seq<Event>, i: nat, j: nat)
  {
    exists k :: i <= k < j && k < |es| && es[k].User? && es[k].interrupts
  }

  /** A failed createTask leaves interrupts off: no timer interrupt, and so no change of task, until user code enables them. */
  lemma {:induction false} FailedCreateStopsScheduling(ss: seq<Sched>, es: seq<Event>, i: nat, j: nat)
    requires Run(ss, es) && i < j <= |es| && es[i].Fill? && es[i].slot == -1
    requires !Enabled(es, i + 1, j)
    ensures !ss[j].interrupts && ss[j].regcount >= MAX_TASKS && ss[j].regnow == ss[i].regnow
    ensures j < |es| ==> es[j] != Tick
    decreases j
  {
    assert Step(ss[j - 1], es[j - 1], ss[j]) && Inv(ss[j - 1]);
    if j > i + 1 {
      FailedCreateStopsScheduling(ss, es, i, j - 1);
      assert !(es[j - 1].User? && es[j - 1].interrupts);
    }
    if j < |es| {
      assert Step(ss[j], es[j], ss[j + 1]);
    }
  }

  // ----- what overlapping calls lead to -----

  lemma Extended(ss: seq<Sched>, es: seq<Event>, e: Event, s': Sched)
    requires Run(ss, es) && Step(ss[|es|], e, s')
    ensures Run(ss + [s'], es + [e]) && (ss + [s'])[|es| + 1] == s' && (ss + [s'])[0] == ss[0]
  {
    StepKeepsInv(ss[|es|], e, s');
    var tt, fs := ss + [s'], es + [e];
    forall i | 0 <= i < |fs|
      ensures Step(tt[i], fs[i], tt[i + 1])
    {
      if i < |es| {
        assert Step(ss[i], es[i], ss[i + 1]);
      }
    }
  }

  /** The machine after init_multitasking. */
  function Start(cpu: Register): Sched
  {
    Sched(seq(MAX_TASKS, i => if i == 0 then BLANK.(active := true) else BLANK), 0, 0, cpu, true, {})
  }

  /** A call of createTask by the running task with nothing between its two parts. */
  lemma CallInOneGo(ss: seq<Sched>, es: seq<Event>, entrypoint: word32, stack: nat) returns (tt: seq<Sched>, fs: seq<Event>)
    requires Run(ss, es) && ss[|es|].pending == {} && ss[|es|].regcount <= 9
    ensures Run(tt, fs) && tt[0] == ss[0] && |fs| == |es| + 2
    ensures var s, slot := ss[|es|], Taken(ss[|es|]);
            tt[|fs|] == s.(registers := s.registers[slot := Process(EntryRegisters(entrypoint, stack), true, 0, 0)], regcount := slot + 1, interrupts := true)
  {
    var s, slot := ss[|es|], Taken(ss[|es|]);
    var filled := WithFilled(s, entrypoint, stack);
    Extended(ss, es, Fill(entrypoint, stack, slot), filled);
    tt, fs := ss + [filled], es + [Fill(entrypoint, stack, slot)];
    var done := filled.(regcount := slot + 1, pending := filled.pending - {filled.regnow});
    Extended(tt, fs, Publish(slot), done);
    tt, fs := tt + [done], fs + [Publish(slot)];
    assert filled.pending - {filled.regnow} == {};
  }

  /** The machine after an interrupt that dispatches slot `j`. */
  function Ticked(s: Sched, j: nat): Sched
    requires s.regnow < |s.registers| && j < |s.registers|
  {
    var registers := s.registers[s.regnow := Charged(s.registers[s.regnow]).(registers := s.cpu)];
    s.(registers := registers, regnow := j, cpu := registers[j].registers)
  }

  lemma TickTo(ss: seq<Sched>, es: seq<Event>, j: nat) returns (tt: seq<Sched>, fs: seq<Event>)
    requires Run(ss, es) && ss[|es|].interrupts && 0 < ss[|es|].regcount <= MAX_TASKS
    requires IsNext(ss[|es|].registers, ss[|es|].regnow, ss[|es|].regcount, j)
    ensures tt == ss + [Ticked(ss[|es|], j)] && fs == es + [Tick] && Run(tt, fs)
  {
    tt, fs := ss + [Ticked(ss[|es|], j)], es + [Tick];
    Extended(ss, es, Tick, Ticked(ss[|es|], j));
  }

  /**
    Calls that overlap: the running task, 0, fills the next slot and is pre-empted, and task 1 fills the same slot
    for another entry point. What the first call created is gone.
   */
  lemma OverlapFillsSlotTwice(ss: seq<Sched>, es: seq<Event>, entrypoint: word32, other: word32, stack: nat)
    returns (tt: seq<Sched>, fs: seq<Event>)
    requires Run(ss, es) && ss[|es|].regnow == 0 && ss[|es|].pending == {} && 2 <= ss[|es|].regcount <= 9
    requires ss[|es|].registers[1].active
    ensures Run(tt, fs) && tt[0] == ss[0] && fs == es + [Fill(entrypoint, stack, ss[|es|].regcount), Tick, Fill(other, stack, ss[|es|].regcount)]
    ensures tt[|fs|] == WithFilled(Ticked(WithFilled(ss[|es|], entrypoint, stack), 1), other, stack)
    ensures !SlotsDistinct(fs)
  {
    var s := ss[|es|];
    var s1 := WithFilled(s, entrypoint, stack);
    Extended(ss, es, Fill(entrypoint, stack, s.regcount), s1);
    tt, fs := ss + [s1], es + [Fill(entrypoint, stack, s.regcount)];
    assert s1.registers[1].active;
    tt, fs := TickTo(tt, fs, 1);
    var s2 := Ticked(s1, 1);
    var s3 := WithFilled(s2, other, stack);
    assert Run(tt, fs) && tt[|fs|] == s2;
    Extended(tt, fs, Fill(other, stack, s.regcount), s3);
    tt, fs := tt + [s3], fs + [Fill(other, stack, s.regcount)];
    assert Fills(fs[|es|]) && Fills(fs[|es| + 2]);
  }

  /** Eight calls by the task that runs already, none of them interrupted. */
  lemma EightCalls(cpu: Register, entrypoint: word32, stack: nat) returns (ss: seq<Sched>, es: seq<Event>)
    ensures FromStart(ss, es) && ss[0] == Start(cpu)
    ensures var s := ss[|es|]; s.regcount == 9 && s.regnow == 0 && s.pending == {} && s.interrupts && forall i :: 0 <= i < 9 ==> s.registers[i].active
  {
    hide Inv, Step;
    ss, es := [Start(cpu)], [];
    StartIsRun(cpu);
    ss, es := CallInOneGo(ss, es, entrypoint, stack);
    RunShape(ss, es);
    while ss[|es|].regcount < 9
      invariant Run(ss, es) && ss[0] == Start(cpu) && |ss[|es|].registers| == MAX_TASKS
      invariant var s := ss[|es|];
                2 <= s.regcount <= 9 && s.regnow == 0 && s.pending == {} && s.interrupts && forall i :: 0 <= i < s.regcount ==> s.registers[i].active
      decreases 9 - ss[|es|].regcount
    {
      ss, es := CallInOneGo(ss, es, entrypoint, stack);
    }
  }

  lemma StartIsRun(cpu: Register)
    ensures Run([Start(cpu)], [])
  {
  }

  /** All tasks but 0 and 1 are killed. */
  lemma KillFrom(ss: seq<Sched>, es: seq<Event>, v: nat) returns (tt: seq<Sched>, fs: seq<Event>)
    requires Run(ss, es) && 2 <= v <= 9
    requires ss[|es|].regcount == 9 && ss[|es|].regnow == 0 && forall i :: 2 <= i < v ==> i < |ss[|es|].registers| && !ss[|es|].registers[i].active
    ensures Run(tt, fs) && tt[0] == ss[0]
    ensures var s, t := ss[|es|], tt[|fs|];
            && t.regcount == 9 && t.regnow == 0 && t.pending == s.pending && t.interrupts == s.interrupts
            && |t.registers| == |s.registers| == MAX_TASKS
            && t.registers[0] == s.registers[0] && t.registers[1] == s.registers[1]
            && forall i :: 2 <= i < 9 ==> !t.registers[i].active
    decreases 9 - v
  {
    RunShape(ss, es);
    if v == 9 {
      tt, fs := ss, es;
    } else {
      var s' := Killed(ss[|es|], v);
      Extended(ss, es, Kill(v), s');
      tt, fs := KillFrom(ss + [s'], es + [Kill(v)], v + 1);
    }
  }

  /** A run from start-up with one overlap at the last slot: both calls succeed, and eleven slots count although there are ten. */
  lemma OverlapPassesTen(cpu: Register, entrypoint: word32, stack: nat) returns (ss: seq<Sched>, es: seq<Event>)
    ensures FromStart(ss, es) && ss[0] == Start(cpu) && ss[|es|].regcount == 11
  {
    hide Step, Inv;
    ss, es := EightCalls(cpu, entrypoint, stack);
    ss, es := KillFrom(ss, es, 2);
    var s := ss[|es|];
    ss, es := OverlapFillsSlotTwice(ss, es, entrypoint, entrypoint, stack);
    ss, es := BothPublish(ss, es, s, entrypoint, stack);
  }

  /** Task 1 counts its slot, the new task and then task 0 are dispatched, and task 0 counts one more. */
  lemma BothPublish(ss: seq<Sched>, es: seq<Event>, s: Sched, entrypoint: word32, stack: nat)
    returns (tt: seq<Sched>, fs: seq<Event>)
    requires Run(ss, es) && |s.registers| == MAX_TASKS && s.regcount == 9 && s.regnow == 0 && s.pending == {}
    requires s.registers[0].active && s.registers[1].active && forall i :: 2 <= i < 9 ==> !s.registers[i].active
    requires ss[|es|] == WithFilled(Ticked(WithFilled(s, entrypoint, stack), 1), entrypoint, stack)
    ensures Run(tt, fs) && tt[0] == ss[0] && tt[|fs|].regcount == 11
  {
    var t := ss[|es|];
    assert t.regnow == 1 && t.pending == {0, 1} && t.interrupts;
    var t1 := t.(regcount := 10, pending := t.pending - {1});
    Extended(ss, es, Publish(9), t1);
    tt, fs := ss + [t1], es + [Publish(9)];
    assert IsNext(t1.registers, 1, 10, 9);
    tt, fs := TickTo(tt, fs, 9);
    var t2 := Ticked(t1, 9);
    assert IsNext(t2.registers, 9, 10, 0);
    tt, fs := TickTo(tt, fs, 0);
    var t3 := Ticked(t2, 0);
    var t4 := t3.(regcount := 11, pending := t3.pending - {0});
    Extended(tt, fs, Publish(10), t4);
    tt, fs := tt + [t4], fs + [Publish(10)];
  }
}

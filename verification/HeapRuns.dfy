/** What every run of allocations, releases and stores by block owners keeps. */
module HeapRuns {
  import opened Common
  import opened HeapModel

  /** `ss` are the states of a run and `es` the events between them. */
  ghost predicate Run(base: nat, ss: seq<State>, es: seq<Event>)
  {
    && |ss| == |es| + 1
    && forall i :: 0 <= i < |es| ==> Next(base, ss[i], es[i], ss[i + 1])
  }

  /** Distinct blocks of a safe heap: the bytes of one are outside the other. */
  lemma OtherBlocksSame(h: Blocks, base: nat, before: seq<byte>, after: seq<byte>, b: nat)
    requires Safe(h, base, |before|) && SameOutside(before, after, b, EndOf(h, b))
    ensures forall a :: a in h && a != b ==> a <= h[a].to <= |before| && after[a..h[a].to] == before[a..h[a].to]
  {
  }

  lemma AllocateKeeps(base: nat, s: State, e: Event, s': State)
    requires Next(base, s, e, s') && Safe(s.heap, base, |s.ram|) && e.Allocate?
    ensures Safe(s'.heap, base, |s'.ram|) && |s'.ram| == |s.ram|
    ensures forall a :: a in s.heap ==> a in s'.heap && s'.heap[a].to == s.heap[a].to
    ensures forall a :: a in s.heap && s.heap[a].used ==> s'.heap[a].used && s'.ram[a..s.heap[a].to] == s.ram[a..s.heap[a].to]
    ensures e.result.Some? ==> e.result.value in s'.heap && s'.heap[e.result.value] == Extent(e.result.value + e.size, true)
  {
    hide AllocStep;
    AllocKeepsSafe(s.heap, base, |s.ram|, e.size, e.tag, e.result, s'.heap);
    if e.result.Some? {
      OtherBlocksSame(s'.heap, base, s.ram, s'.ram, e.result.value);
    } else {
      AllocFailureKeeps(s.heap, base, e.size, e.tag, e.result, s'.heap);
    }
  }

  /** One event keeps the heap safe and every extent in place, and touches no other owner's bytes or flag. */
  lemma StepKeeps(base: nat, s: State, e: Event, s': State)
    requires Next(base, s, e, s') && Safe(s.heap, base, |s.ram|)
    ensures Safe(s'.heap, base, |s'.ram|) && |s'.ram| == |s.ram|
    ensures forall a :: a in s.heap ==> a in s'.heap && s'.heap[a].to == s.heap[a].to
    ensures forall a :: a in s.heap && s.heap[a].used && e != Release(a) ==> s'.heap[a].used
    ensures forall a :: a in s.heap && s.heap[a].used && e != Release(a) && e != Write(a) ==>
                          s'.ram[a..s.heap[a].to] == s.ram[a..s.heap[a].to]
  {
    hide AllocStep;
    match e {
      case Allocate(size, tag, r) =>
        AllocateKeeps(base, s, e, s');
      case Release(loc) =>
        FreeKeepsSafe(s.heap, base, |s.ram|, loc);
        OtherBlocksSame(s.heap, base, s.ram, s'.ram, loc);
      case Write(b) =>
        OtherBlocksSame(s.heap, base, s.ram, s'.ram, b);
    }
  }

  /** Safety, fixed memory size and permanent extents over a whole run. */
  lemma {:induction false} RunKeeps(base: nat, ss: seq<State>, es: seq<Event>, i: nat, j: nat)
    requires Run(base, ss, es) && Safe(ss[0].heap, base, |ss[0].ram|) && i <= j < |ss|
    ensures Safe(ss[j].heap, base, |ss[j].ram|) && |ss[j].ram| == |ss[0].ram|
    ensures forall a :: a in ss[i].heap ==> a in ss[j].heap && ss[j].heap[a].to == ss[i].heap[a].to
    decreases j
  {
    hide Next, Safe;
    if j > 0 {
      RunKeeps(base, ss, es, if i < j then i else j - 1, j - 1);
      assert Next(base, ss[j - 1], es[j - 1], ss[j - 1 + 1]);
      StepKeeps(base, ss[j - 1], es[j - 1], ss[j]);
    }
  }

  /** A block in use keeps its flag, extent and bytes until it is released or its owner stores into it. */
  lemma {:induction false} PrivateUntilReleased(base: nat, ss: seq<State>, es: seq<Event>, i: nat, j: nat, a: nat)
    requires Run(base, ss, es) && Safe(ss[0].heap, base, |ss[0].ram|) && i <= j < |ss|
    requires a in ss[i].heap && ss[i].heap[a].used
    requires forall k :: i <= k < j ==> es[k] != Release(a)
    ensures a in ss[j].heap && ss[j].heap[a] == ss[i].heap[a]
    ensures a <= ss[i].heap[a].to <= |ss[i].ram| == |ss[j].ram|
    ensures (forall k :: i <= k < j ==> es[k] != Write(a)) ==> ss[j].ram[a..ss[i].heap[a].to] == ss[i].ram[a..ss[i].heap[a].to]
    decreases j
  {
    hide Next, Safe;
    RunKeeps(base, ss, es, i, i);
    RunKeeps(base, ss, es, j, j);
    BlockInside(ss[i].heap, base, |ss[i].ram|, a);
    if i < j {
      PrivateUntilReleased(base, ss, es, i, j - 1, a);
      RunKeeps(base, ss, es, i, j - 1);
      StepKeeps(base, ss[j - 1], es[j - 1], ss[j]);
    }
  }

  /** Two allocations never overlap while the first has not been released. */
  lemma LiveAllocationsAreDisjoint(base: nat, ss: seq<State>, es: seq<Event>, i: nat, j: nat)
    requires Run(base, ss, es) && Safe(ss[0].heap, base, |ss[0].ram|) && i < j < |es|
    requires es[i].Allocate? && es[i].result.Some? && es[j].Allocate? && es[j].result.Some?
    requires forall k :: i < k < j ==> es[k] != Release(es[i].result.value)
    ensures var a, b := es[i].result.value, es[j].result.value;
            a + es[i].size <= b || b + es[j].size <= a
  {
    var a, b := es[i].result.value, es[j].result.value;
    hide Safe, Next;
    RunKeeps(base, ss, es, i, i);
    RunKeeps(base, ss, es, j, j);
    assert Next(base, ss[i], es[i], ss[i + 1]) && Next(base, ss[j], es[j], ss[j + 1]);
    AllocateKeeps(base, ss[i], es[i], ss[i + 1]);
    PrivateUntilReleased(base, ss, es, i + 1, j, a);
    AllocateKeeps(base, ss[j], es[j], ss[j + 1]);
    NewIsApart(base, ss[j], es[j], ss[j + 1], a);
  }

  /** An allocation lies apart from every block that is in use when it is made. */
  lemma NewIsApart(base: nat, s: State, e: Event, s': State, a: nat)
    requires Next(base, s, e, s') && Safe(s.heap, base, |s.ram|) && e.Allocate? && e.result.Some?
    requires a in s.heap && s.heap[a].used
    ensures s.heap[a].to <= e.result.value || e.result.value + e.size <= a
  {
  }

  /** What an allocation leaves: a block in use of `size` zero bytes, one more or reused, and every other block and byte as before. */
  lemma AllocateEffect(base: nat, s: State, size: nat, tag: nat, r: Option<nat>, s': State)
    requires Safe(s.heap, base, |s.ram|) && Next(base, s, Allocate(size, tag, r), s')
    ensures r.None? ==> |s.heap| >= 0x2000 && s' == s
    ensures r.Some? ==>
              && r.value in s'.heap && s'.heap[r.value] == Extent(r.value + size, true) && BitAnd(r.value, tag) == 0
              && (r.value in s.heap ==> !s.heap[r.value].used)
              && s'.heap.Keys == s.heap.Keys + {r.value}
              && (forall a :: a in s.heap && a != r.value ==> s'.heap[a] == s.heap[a])
              && |s'.ram| == |s.ram|
              && forall i :: 0 <= i < |s.ram| ==> s'.ram[i] == if r.value <= i < r.value + size then 0 else s.ram[i]
  {
    AllocKeepsSafe(s.heap, base, |s.ram|, size, tag, r, s'.heap);
    AllocKeys(s.heap, base, size, tag, r, s'.heap);
    hide AllocStep, Safe;
    if r.None? {
      AllocFailureKeeps(s.heap, base, size, tag, r, s'.heap);
    }
  }

  lemma AllocKeys(h: Blocks, base: nat, size: nat, tag: nat, r: Option<nat>, h': Blocks)
    requires AllocStep(h, base, size, tag, r, h')
    ensures if r.Some? then h'.Keys == h.Keys + {r.value} else h' == h && |h| >= 0x2000
  {
  }

  /** Over a release and the next request of the same size nothing is added to the heap: a released block is used again. */
  lemma ReleaseThenAllocate(base: nat, s: State, loc: nat, s': State, size: nat, r: Option<nat>, s'': State)
    requires Safe(s.heap, base, |s.ram|) && loc in s.heap && size == s.heap[loc].to - loc
    requires Next(base, s, Release(loc), s') && Next(base, s', Allocate(size, 0, r), s'')
    ensures !s'.heap[loc].used
    ensures r.Some? && r.value in s.heap && s.heap[r.value].to == r.value + size
    ensures s''.heap.Keys == s.heap.Keys && |s''.heap| == |s.heap|
  {
    hide AllocStep;
    FreeKeepsSafe(s.heap, base, |s.ram|, loc);
    assert s'.heap == s.heap[loc := Extent(s.heap[loc].to, false)];
    ReleasedIsReused(s.heap, base, |s.ram|, loc, r, s''.heap);
    assert |s''.heap.Keys| == |s.heap.Keys|;
  }

  // ----- the table never holds more blocks of a size than were once needed together -----

  function BlocksOf(h: Blocks, size: nat): set<nat>
  {
    set a | a in h && h[a].to - a == size
  }

  function UsedOf(h: Blocks, size: nat): set<nat>
  {
    set a | a in h && h[a].used && h[a].to - a == size
  }

  /** The largest number of blocks of `size` bytes that were in use in one of the states. */
  ghost function Peak(ss: seq<State>, size: nat): nat
  {
    if ss == [] then 0
    else
      var rest, last := Peak(ss[..|ss| - 1], size), |UsedOf(ss[|ss| - 1].heap, size)|;
      if last > rest then last else rest
  }

  ghost predicate Untagged(es: seq<Event>)
  {
    forall i :: 0 <= i < |es| && es[i].Allocate? ==> es[i].tag == 0
  }

  lemma {:induction false} SubsetCount(a: set<nat>, b: set<nat>)
    requires a <= b
    ensures |a| <= |b|
  {
    assert b == a + (b - a);
    assert |b| == |a| + |b - a|;
  }

  /** With tag 0 a block is created only when every block of its size is in use. */
  lemma GrowCounts(h: Blocks, base: nat, n: nat, a: nat, h': Blocks, limit: nat, size: nat)
    requires Safe(h, base, limit) && GrowStep(h, base, n, 0, a, h')
    ensures if n == size then BlocksOf(h', size) == BlocksOf(h, size) + {a} && a !in BlocksOf(h, size) && UsedOf(h', size) == BlocksOf(h', size)
            else BlocksOf(h', size) == BlocksOf(h, size)
  {
    GrowIsAbove(h, base, 0, a);
    assert a !in h;
    hide IsNextFree;
    if n == size {
      forall b | b in BlocksOf(h, size)
        ensures h[b].used
      {
        assert !Fits(h, b, n, 0);
      }
    }
  }

  lemma StepCounts(base: nat, s: State, e: Event, s': State, size: nat)
    requires Next(base, s, e, s') && Safe(s.heap, base, |s.ram|)
    requires e.Allocate? ==> e.tag == 0
    ensures BlocksOf(s'.heap, size) == BlocksOf(s.heap, size) ||
            (|BlocksOf(s'.heap, size)| > |BlocksOf(s.heap, size)| && UsedOf(s'.heap, size) == BlocksOf(s'.heap, size))
  {
    hide Safe, GrowStep, NoFit;
    if e.Allocate? && e.result.Some? && !ReuseStep(s.heap, e.size, e.tag, e.result.value, s'.heap) {
      GrowCounts(s.heap, base, e.size, e.result.value, s'.heap, |s.ram|, size);
    } else {
      assert BlocksOf(s'.heap, size) == BlocksOf(s.heap, size);
    }
  }

  lemma EmptyIsSafe(base: nat, limit: nat)
    requires base > 0
    ensures Safe(map[], base, limit)
  {
  }

  /** From start-up and without alignment requests, the blocks of a size are exactly as many as were ever in use at once. */
  lemma {:induction false} BlocksEqualPeak(base: nat, ss: seq<State>, es: seq<Event>, size: nat)
    requires Run(base, ss, es) && Untagged(es) && ss[0].heap == map[] && base > 0
    ensures |BlocksOf(ss[|ss| - 1].heap, size)| == Peak(ss, size)
    decreases |es|
  {
    hide Next, Safe;
    var n := |es|;
    if n == 0 {
      assert ss == [ss[0]] && ss[..0] == [];
      assert BlocksOf(ss[0].heap, size) == {} && UsedOf(ss[0].heap, size) == {};
    } else {
      assert ss[..n][n - 1] == ss[n - 1];
      BlocksEqualPeak(base, ss[..n], es[..n - 1], size);
      EmptyIsSafe(base, |ss[0].ram|);
      RunKeeps(base, ss, es, n - 1, n - 1);
      assert Next(base, ss[n - 1], es[n - 1], ss[n - 1 + 1]);
      StepCounts(base, ss[n - 1], es[n - 1], ss[n], size);
      SubsetCount(UsedOf(ss[n].heap, size), BlocksOf(ss[n].heap, size));
    }
  }
}

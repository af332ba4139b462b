/**
  The record table of kernel/dev/memory.c: a fixed array of (from, to, used) records that is
  bubble-sorted in place. A table represents a heap when its non-empty records are its blocks.
 */
module HeapTable {
  import opened HeapModel

  datatype Block = Block(from: nat, to: nat, used: bool)

  const EMPTY := Block(0, 0, false)

  /** Empty records come last. */
  ghost predicate EmptyLast(t: seq<Block>)
  {
    forall i, j :: 0 <= i < j < |t| && t[i].from == 0 ==> t[j].from == 0
  }

  /** Records descend by address. */
  ghost predicate Descending(t: seq<Block>)
  {
    forall i, j :: 0 <= i < j < |t| ==> t[i].from >= t[j].from
  }

  /** No neighbours among the first `n` records are out of order. */
  ghost predicate NeighboursDescend(t: seq<Block>, n: nat)
  {
    forall i :: 1 <= i < n && i < |t| ==> t[i - 1].from >= t[i].from
  }

  lemma {:induction false} NeighboursSuffice(t: seq<Block>)
    requires NeighboursDescend(t, |t|)
    ensures Descending(t)
  {
    forall i, j | 0 <= i < j < |t|
      ensures t[i].from >= t[j].from
    {
      var k := i;
      while k < j
        invariant i <= k <= j && t[i].from >= t[k].from
      {
        k := k + 1;
      }
    }
  }

  ghost predicate Listed(t: seq<Block>, a: nat)
  {
    exists i :: 0 <= i < |t| && t[i].from == a
  }

  /** `t` holds exactly the blocks of `h`, each once, and otherwise empty records. */
  ghost predicate Represents(t: seq<Block>, h: Blocks)
  {
    && 0 !in h
    && (forall i :: 0 <= i < |t| && t[i].from == 0 ==> t[i] == EMPTY)
    && (forall i :: 0 <= i < |t| && t[i].from != 0 ==> t[i].from in h && h[t[i].from] == Extent(t[i].to, t[i].used))
    && (forall i, j :: 0 <= i < j < |t| && t[i].from != 0 ==> t[i].from != t[j].from)
    && (forall a :: a in h ==> Listed(t, a))
  }

  // ----- the table and the heap it represents -----

  lemma {:induction false} TwiceMeansTwoIndices(t: seq<Block>, b: Block) returns (i: nat, j: nat)
    requires multiset(t)[b] >= 2
    ensures i < j < |t| && t[i] == t[j] == b
  {
    var n := |t| - 1;
    assert t == t[..n] + [t[n]];
    if t[n] != b {
      i, j := TwiceMeansTwoIndices(t[..n], b);
    } else {
      assert multiset(t[..n])[b] >= 1;
      assert b in t[..n];
      i :| 0 <= i < n && t[i] == b;
      j := n;
    }
  }

  lemma TwoIndicesMeansTwice(t: seq<Block>, i: nat, j: nat)
    requires i < j < |t| && t[i] == t[j]
    ensures multiset(t)[t[i]] >= 2
  {
    assert t == t[..j] + [t[j]] + t[j + 1..];
    assert t[i] in t[..j];
    assert multiset(t)[t[i]] == multiset(t[..j])[t[i]] + 1 + multiset(t[j + 1..])[t[i]];
  }

  /** Which slot a record occupies does not matter for the heap the table represents. */
  lemma PermutedRepresents(t: seq<Block>, t': seq<Block>, h: Blocks)
    requires Represents(t, h) && multiset(t) == multiset(t')
    ensures Represents(t', h)
  {
    forall i | 0 <= i < |t'|
      ensures t'[i] in t
    {
      assert t'[i] in multiset(t');
    }
    forall a | a in h
      ensures Listed(t', a)
    {
      var i :| 0 <= i < |t| && t[i].from == a;
      assert t[i] in multiset(t);
      assert t[i] in t';
    }
    forall i, j | 0 <= i < j < |t'| && t'[i].from != 0
      ensures t'[i].from != t'[j].from
    {
      if t'[i].from == t'[j].from {
        assert t'[i] == t'[j];
        TwoIndicesMeansTwice(t', i, j);
        var k, l := TwiceMeansTwoIndices(t, t'[i]);
      }
    }
  }

  ghost function Elements(s: seq<nat>): set<nat>
  {
    set x | x in s
  }

  lemma {:induction false} DistinctCount(s: seq<nat>)
    requires forall i, j :: 0 <= i < j < |s| ==> s[i] != s[j]
    ensures |Elements(s)| == |s|
  {
    if s == [] {
      assert Elements(s) == {};
    } else {
      var n := |s| - 1;
      var init := s[..n];
      DistinctCount(init);
      assert s == init + [s[n]];
      assert Elements(s) == Elements(init) + {s[n]};
    }
  }

  /** With `n` leading non-empty records the heap has exactly `n` blocks. */
  lemma LiveCount(t: seq<Block>, h: Blocks, n: nat)
    requires Represents(t, h) && n <= |t|
    requires forall i :: 0 <= i < n ==> t[i].from != 0
    requires forall i :: n <= i < |t| ==> t[i].from == 0
    ensures |h| == n
  {
    var s := seq(n, i requires 0 <= i < n => t[i].from);
    DistinctCount(s);
    forall a | a in h
      ensures a in s
    {
      var i :| 0 <= i < |t| && t[i].from == a;
      assert s[i] == a;
    }
    assert h.Keys == Elements(s);
  }

  /** The last record is in use exactly when the heap is full. */
  lemma LastRecordTellsFull(t: seq<Block>, h: Blocks)
    requires Represents(t, h) && EmptyLast(t) && |t| > 0
    ensures |h| <= |t|
    ensures t[|t| - 1] == EMPTY <==> |h| < |t|
  {
    var n := 0;
    while n < |t| && t[n].from != 0
      invariant n <= |t|
      invariant forall i :: 0 <= i < n ==> t[i].from != 0
    {
      n := n + 1;
    }
    LiveCount(t, h, n);
  }

  // ----- sorting -----

  /** Sum of slot number times address. */
  ghost function Weight(t: seq<Block>): nat
  {
    if t == [] then 0 else Weight(t[..|t| - 1]) + (|t| - 1) * t[|t| - 1].from
  }

  function Swapped(t: seq<Block>, i: nat): (r: seq<Block>)
    requires i + 1 < |t|
  {
    t[i := t[i + 1]][i + 1 := t[i]]
  }

  lemma {:induction false} WeightOfSwap(t: seq<Block>, i: nat)
    requires i + 1 < |t|
    ensures Weight(Swapped(t, i)) == Weight(t) + t[i].from - t[i + 1].from
  {
    var n := |t| - 1;
    var s := Swapped(t, i);
    if i + 1 < n {
      WeightOfSwap(t[..n], i);
      assert s[..n] == Swapped(t[..n], i);
    } else {
      assert s[..i] == t[..i];
      assert s[..n][..i] == s[..i] && t[..n][..i] == t[..i];
      assert Weight(s) == Weight(s[..i]) + i * t[n].from + n * t[i].from;
      assert Weight(t) == Weight(t[..i]) + i * t[i].from + n * t[n].from;
      NextMultiple(i, t[i].from);
      NextMultiple(i, t[n].from);
    }
  }

  lemma NextMultiple(i: nat, a: nat)
    ensures (i + 1) * a == i * a + a
  {
  }

  lemma SwapIsPermutation(t: seq<Block>, i: nat)
    requires i + 1 < |t|
    ensures multiset(Swapped(t, i)) == multiset(t)
  {
  }

  method MemSwapEntries(memreg: array<Block>, pointA: nat, pointB: nat)
    requires pointA < memreg.Length && pointB < memreg.Length
    modifies memreg
    ensures memreg[..] == old(memreg[..])[pointA := old(memreg[pointB])][pointB := old(memreg[pointA])]
  {
    var buffrom := memreg[pointA].from;
    var bufto := memreg[pointA].to;
    var bufuse := memreg[pointA].used;
    memreg[pointA] := Block(memreg[pointB].from, memreg[pointB].to, memreg[pointB].used);
    memreg[pointB] := Block(buffrom, bufto, bufuse);
  }

  /** One swap of two neighbours that are out of order: what it keeps and that it makes progress. */
  lemma SwapStep(t: seq<Block>, i: nat)
    requires i + 1 < |t| && t[i].from < t[i + 1].from
    ensures EmptyLast(t) ==> EmptyLast(Swapped(t, i))
    ensures multiset(Swapped(t, i)) == multiset(t)
    ensures Weight(Swapped(t, i)) < Weight(t)
  {
    WeightOfSwap(t, i);
    SwapIsPermutation(t, i);
    if EmptyLast(t) {
      SwapKeepsEmptyLast(t, i);
    }
    hide Swapped, EmptyLast, Weight;
  }

  lemma SwapKeepsEmptyLast(t: seq<Block>, i: nat)
    requires i + 1 < |t| && EmptyLast(t) && t[i].from < t[i + 1].from
    ensures EmptyLast(Swapped(t, i))
  {
  }

  /** One pass of the bubble sort, from the pair that ends at slot `i` on. It stops early at the first pair of empty records. */
  function Pass(t: seq<Block>, i: nat): seq<Block>
    requires i > 0
    decreases |t| - i
  {
    if i >= |t| then t
    else if t[i - 1].from < t[i].from then Pass(Swapped(t, i - 1), i + 1)
    else if t[i - 1].from == 0 && t[i].from == 0 then t
    else Pass(t, i + 1)
  }

  /** A pass permutes the table and keeps empty records last; if it changes the table at all it lowers the weight. */
  lemma {:induction false} PassKeeps(t: seq<Block>, i: nat)
    requires i > 0
    ensures multiset(Pass(t, i)) == multiset(t)
    ensures EmptyLast(t) ==> EmptyLast(Pass(t, i))
    ensures Pass(t, i) == t || Weight(Pass(t, i)) < Weight(t)
    decreases |t| - i
  {
    hide Weight, EmptyLast, Swapped;
    if i < |t| {
      if t[i - 1].from < t[i].from {
        SwapStep(t, i - 1);
        PassKeeps(Swapped(t, i - 1), i + 1);
      } else {
        PassKeeps(t, i + 1);
      }
    }
  }

  /** A pass that leaves the table as it is has looked at every pair before its stop and found it in order. */
  lemma {:induction false} SettledPrefix(t: seq<Block>, i: nat) returns (stop: nat)
    requires i > 0 && Pass(t, i) == t && NeighboursDescend(t, i)
    ensures NeighboursDescend(t, stop)
    ensures stop >= |t| || (stop > 0 && t[stop - 1].from == 0 && t[stop].from == 0)
    decreases |t| - i
  {
    hide Weight, EmptyLast;
    if i >= |t| {
      stop := i;
    } else if t[i - 1].from < t[i].from {
      SwapStep(t, i - 1);
      PassKeeps(Swapped(t, i - 1), i + 1);
      assert false;
    } else if t[i - 1].from == 0 && t[i].from == 0 {
      stop := i;
    } else {
      stop := SettledPrefix(t, i + 1);
    }
  }

  /** Some block stands behind two empty records. */
  ghost predicate Stranded(t: seq<Block>)
  {
    exists i, j, k :: 0 <= i < j < k < |t| && t[i].from == 0 && t[j].from == 0 && t[k].from != 0
  }

  /** Which slots are empty after a swap: an empty record in slot `i` moves on by one. */
  lemma SwappedEmpties(t: seq<Block>, i: nat)
    requires i + 1 < |t| && t[i].from < t[i + 1].from
    ensures |Swapped(t, i)| == |t| && Swapped(t, i)[i].from != 0
    ensures Swapped(t, i)[i + 1].from == 0 <==> t[i].from == 0
    ensures forall j :: 0 <= j < |t| && j != i && j != i + 1 ==> Swapped(t, i)[j] == t[j]
  {
  }

  /** A swap moves at most the first empty record, by one slot, and over a block. */
  lemma SwapKeepsStranded(t: seq<Block>, i: nat)
    requires i + 1 < |t| && t[i].from < t[i + 1].from && forall j :: 0 <= j < i ==> t[j].from != 0
    ensures Stranded(Swapped(t, i)) <==> Stranded(t)
  {
    hide Swapped, Stranded;
    SwappedEmpties(t, i);
    var u := Swapped(t, i);
    if Stranded(t) {
      var a, b, k := StrandedWitness(t);
      StrandedByWitness(u, if a == i then i + 1 else a, b, k);
    }
    if Stranded(u) {
      var a, b, k := StrandedWitness(u);
      StrandedByWitness(t, if a == i + 1 then i else a, b, k);
    }
  }

  lemma StrandedWitness(t: seq<Block>) returns (i: nat, j: nat, k: nat)
    requires Stranded(t)
    ensures i < j < k < |t| && t[i].from == 0 && t[j].from == 0 && t[k].from != 0
  {
    i, j, k :| 0 <= i < j < k < |t| && t[i].from == 0 && t[j].from == 0 && t[k].from != 0;
  }

  lemma StrandedByWitness(t: seq<Block>, i: nat, j: nat, k: nat)
    requires i < j < k < |t| && t[i].from == 0 && t[j].from == 0 && t[k].from != 0
    ensures Stranded(t)
  {
  }

  /** When a pass looks at the pair that ends at slot `i`, no record before that pair is empty; so it strands no block and frees none. */
  lemma {:induction false} PassKeepsStranded(t: seq<Block>, i: nat)
    requires i > 0 && forall j :: 0 <= j < i - 1 && j < |t| ==> t[j].from != 0
    ensures Stranded(Pass(t, i)) <==> Stranded(t)
    decreases |t| - i
  {
    hide Stranded;
    if i < |t| {
      if t[i - 1].from < t[i].from {
        SwapKeepsStranded(t, i - 1);
        PassKeepsStranded(Swapped(t, i - 1), i + 1);
      } else if !(t[i - 1].from == 0 && t[i].from == 0) {
        PassKeepsStranded(t, i + 1);
      }
    }
  }

  /** A table that a pass leaves as it is, so that the sort ends, is in order exactly if no block stands behind two empty records. */
  lemma SettledIsSortedIff(t: seq<Block>)
    requires Pass(t, 1) == t
    ensures Descending(t) <==> !Stranded(t)
  {
    var stop := SettledPrefix(t, 1);
    if !Stranded(t) {
      assert NeighboursDescend(t, |t|);
      NeighboursSuffice(t);
    }
  }

  /** Records that end with the empty ones strand no block, and a table in order ends with them. */
  lemma EmptyLastIsNotStranded(t: seq<Block>)
    ensures EmptyLast(t) ==> !Stranded(t)
    ensures Descending(t) ==> EmptyLast(t)
  {
  }

  /** The empty records have to come last: this table is out of order, yet a pass stops at its first pair. */
  lemma EarlyStopLeavesDisorder(a: nat)
    requires a > 0
    ensures var t := [EMPTY, EMPTY, Block(a, a + 1, true)]; Pass(t, 1) == t && !Descending(t)
  {
    var t := [EMPTY, EMPTY, Block(a, a + 1, true)];
    assert t[1].from < t[2].from;
  }

  /** One pass over the table in place. It reports whether it changed anything. */
  method CleanupPass(memreg: array<Block>) returns (foundsomething: bool)
    modifies memreg
    ensures memreg[..] == Pass(old(memreg[..]), 1)
    ensures foundsomething <==> memreg[..] != old(memreg[..])
  {
    hide Weight, EmptyLast, Swapped;
    foundsomething := false;
    ghost var t := memreg[..];
    var i1 := 1;
    while i1 < memreg.Length
      invariant 1 <= i1 && t == memreg[..]
      invariant Pass(old(memreg[..]), 1) == Pass(t, i1)
      invariant if foundsomething then Weight(t) < Weight(old(memreg[..])) else t == old(memreg[..])
    {
      var i0 := i1 - 1;
      var blockA, blockB := memreg[i0], memreg[i1];
      if blockA.from < blockB.from {
        SwapStep(t, i0);
        MemSwapEntries(memreg, i0, i1);
        assert memreg[..] == Swapped(t, i0) by { SwappedIs(t, i0); }
        t := Swapped(t, i0);
        foundsomething := true;
      }
      if blockA.from == 0 && blockB.from == 0 {
        break;
      }
      i1 := i1 + 1;
    }
  }

  lemma SwappedIs(t: seq<Block>, i: nat)
    requires i + 1 < |t|
    ensures Swapped(t, i) == t[i := t[i + 1]][i + 1 := t[i]]
  {
  }

  /**
    The sort. Its passes end for every table, because each one that changes it lowers its weight. The result is in
    order if and only if, before the sort, no block stood behind two empty records.
   */
  method MemCleanup(memreg: array<Block>)
    modifies memreg
    ensures multiset(memreg[..]) == multiset(old(memreg[..]))
    ensures Descending(memreg[..]) <==> !Stranded(old(memreg[..]))
    ensures EmptyLast(old(memreg[..])) ==> Descending(memreg[..]) && EmptyLast(memreg[..])
  {
    hide Weight, EmptyLast, Descending, Pass, Stranded;
    EmptyLastIsNotStranded(memreg[..]);
    var foundsomething := true;
    while foundsomething
      invariant Stranded(memreg[..]) <==> Stranded(old(memreg[..]))
      invariant multiset(memreg[..]) == multiset(old(memreg[..]))
      invariant !foundsomething ==> Pass(memreg[..], 1) == memreg[..]
      decreases foundsomething, Weight(memreg[..])
    {
      PassKeeps(memreg[..], 1);
      PassKeepsStranded(memreg[..], 1);
      foundsomething := CleanupPass(memreg);
    }
    SettledIsSortedIff(memreg[..]);
    EmptyLastIsNotStranded(memreg[..]);
  }

  // ----- where a sorted table holds a block -----

  /** The blocks that start above `a`. */
  function Above(h: Blocks, a: nat): set<nat>
  {
    set b | b in h && b > a
  }

  lemma StrictlyDescending(t: seq<Block>, h: Blocks)
    requires Represents(t, h) && Descending(t)
    ensures forall i, j :: 0 <= i < j < |t| && t[j].from != 0 ==> t[i].from > t[j].from
    ensures forall i :: 0 <= i < |t| && t[i].from != 0 ==> t[i].from in h
    ensures forall a :: a in h ==> Listed(t, a) && a != 0
  {
  }

  /** In a sorted table a block stands in the slot whose number is the number of blocks above it. */
  lemma SlotIsBlocksAbove(t: seq<Block>, h: Blocks, k: nat)
    requires Represents(t, h) && Descending(t) && k < |t| && t[k].from != 0
    ensures |Above(h, t[k].from)| == k
  {
    StrictlyDescending(t, h);
    hide Represents, Descending;
    var s := seq(k, i requires 0 <= i < k => t[i].from);
    DistinctCount(s);
    forall b | b in Above(h, t[k].from)
      ensures b in s
    {
      var i :| 0 <= i < |t| && t[i].from == b;
      assert s[i] == b;
    }
    assert Above(h, t[k].from) == Elements(s);
  }

  /** Some slot whose number is a multiple of `stride` holds a record that starts at `a`. */
  ghost predicate Reached(t: seq<Block>, a: nat, stride: nat)
    requires stride > 0
  {
    exists k :: 0 <= k < |t| && k % stride == 0 && t[k].from == a
  }

  /** In a sorted table a walk in steps of `stride` finds a block exactly if the number of blocks above it is a multiple of `stride`. */
  lemma ReachedIff(t: seq<Block>, h: Blocks, a: nat, stride: nat)
    requires Represents(t, h) && Descending(t) && a in h && stride > 0
    ensures Reached(t, a, stride) <==> |Above(h, a)| % stride == 0
  {
    var k :| 0 <= k < |t| && t[k].from == a;
    SlotIsBlocksAbove(t, h, k);
  }

  /** The second block from the top is never found by a walk in larger steps. */
  lemma SecondBlockIsMissed(t: seq<Block>, a: nat, b: nat, c: nat, stride: nat)
    requires 0 < a < b < c && stride > 1
    requires Represents(t, map[a := Extent(b, true), b := Extent(c, true)]) && Descending(t)
    ensures Listed(t, a) && !Reached(t, a, stride)
  {
    var h := map[a := Extent(b, true), b := Extent(c, true)];
    assert Above(h, a) == {b};
    ReachedIff(t, h, a, stride);
  }
}

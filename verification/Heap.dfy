/**
  The kernel heap of kernel/dev/memory.c: a record table and physical memory, both changed in place,
  proved against the map-based heap of HeapModel.
 */
module Heap {
  import opened Common
  import opened HeapModel
  import opened HeapTable

  /** A record that `malloc_align` may reuse. */
  predicate RecordFits(b: Block, size: nat, tag: nat)
  {
    !b.used && b.from != 0 && b.to != 0 && b.to - b.from == size && Aligned(b.from, tag)
  }

  // ----- what the table says about the heap -----

  lemma LastFitIsLowest(t: seq<Block>, h: Blocks, size: nat, tag: nat, k: nat)
    requires Represents(t, h) && Descending(t) && k < |t|
    requires RecordFits(t[k], size, tag)
    requires forall i :: k < i < |t| ==> !RecordFits(t[i], size, tag)
    ensures Fits(h, t[k].from, size, tag)
    ensures forall b: nat :: Fits(h, b, size, tag) ==> t[k].from <= b
  {
  }

  lemma NoRecordFits(t: seq<Block>, h: Blocks, base: nat, limit: nat, size: nat, tag: nat)
    requires Represents(t, h) && Safe(h, base, limit)
    requires forall i :: 0 <= i < |t| ==> !RecordFits(t[i], size, tag)
    ensures NoFit(h, size, tag)
  {
  }

  /** After sorting, the end of slot 0 is the top of the heap. */
  lemma SlotZeroIsTop(t: seq<Block>, h: Blocks, base: nat, limit: nat)
    requires Represents(t, h) && Descending(t) && Safe(h, base, limit) && |t| > 0
    ensures IsTop(h, base, if t[0].to == 0 then base else t[0].to)
  {
  }

  lemma MarkedRepresents(t: seq<Block>, h: Blocks, k: nat, used: bool)
    requires Represents(t, h) && k < |t| && t[k].from != 0
    ensures Represents(t[k := t[k].(used := used)], h[t[k].from := Extent(t[k].to, used)])
  {
    var t', h' := t[k := t[k].(used := used)], h[t[k].from := Extent(t[k].to, used)];
    forall a | a in h'
      ensures Listed(t', a)
    {
      var i :| 0 <= i < |t| && t[i].from == a;
      assert t'[i].from == a;
    }
  }

  lemma EmptyOrListed(t: seq<Block>, h: Blocks, k: nat)
    requires Represents(t, h) && k < |t|
    ensures if t[k].from == 0 then t[k] == EMPTY else t[k].from in h && h[t[k].from] == Extent(t[k].to, t[k].used)
  {
  }

  lemma FlagKeepsOrder(t: seq<Block>, k: nat, used: bool)
    requires EmptyLast(t) && k < |t|
    ensures EmptyLast(t[k := t[k].(used := used)])
  {
  }

  lemma FlagKeepsSafe(h: Blocks, base: nat, limit: nat, a: nat, used: bool)
    requires Safe(h, base, limit) && a in h
    ensures Safe(h[a := Extent(h[a].to, used)], base, limit)
  {
  }

  lemma AddedRepresents(t: seq<Block>, h: Blocks, k: nat, a: nat, to: nat)
    requires Represents(t, h) && k < |t| && t[k].from == 0 && a !in h && a > 0
    requires EmptyLast(t) && forall i :: 0 <= i < k ==> t[i].from != 0
    ensures EmptyLast(t[k := Block(a, to, false)])
    ensures Represents(t[k := Block(a, to, false)], h[a := Extent(to, false)])
  {
    var t', h' := t[k := Block(a, to, false)], h[a := Extent(to, false)];
    forall b | b in h'
      ensures Listed(t', b)
    {
      if b == a {
        assert t'[k].from == b;
      } else {
        var i :| 0 <= i < |t| && t[i].from == b;
        assert t'[i].from == b;
      }
    }
  }

  lemma NewBlockIsSafe(h: Blocks, base: nat, limit: nat, tag: nat, a: nat, size: nat)
    requires Safe(h, base, limit) && IsNextFree(h, base, tag, a) && size > 0 && a + size <= limit
    ensures a !in h && a > 0
    ensures Safe(h[a := Extent(a + size, false)], base, limit)
  {
  }

  // ----- realloc -----

  /**
    Memory after a `realloc` of the block [ptr, end) to `size` bytes at `st`: the new block is cleared, `n` bytes are
    copied into it whatever its size, and the old block is cleared if it is released.
   */
  function MovedRam(before: seq<byte>, ptr: nat, end: nat, st: nat, size: nat, n: nat, released: bool): (after: seq<byte>)
    requires ptr + n <= |before|
    ensures |after| == |before|
  {
    seq(|before|, i requires 0 <= i < |before| =>
      if released && ptr <= i < end then 0
      else if st <= i < st + n then before[ptr + (i - st)]
      else if st <= i < st + size then 0
      else before[i])
  }

  /** Wherever the new block is placed, `n` bytes copied to it stay inside memory. */
  ghost predicate CopyFits(h: Blocks, base: nat, limit: nat, size: nat, n: nat)
  {
    forall st: nat, h': Blocks :: AllocStep(h, base, size, 0, Some(st), h') ==> st + n <= limit
  }

  lemma NewBlockIsDisjoint(h: Blocks, base: nat, limit: nat, size: nat, st: nat, h': Blocks, ptr: nat)
    requires Safe(h, base, limit) && Safe(h', base, limit) && size > 0
    requires AllocStep(h, base, size, 0, Some(st), h') && ptr in h && h[ptr].used
    ensures st != ptr && (st + size <= ptr || h[ptr].to <= st)
    ensures h' == h[st := Extent(st + size, true)] && (st in h ==> !h[st].used)
    ensures st + size <= limit && h[ptr].to <= limit
  {
  }

  /** The bytes of `realloc`, step by step: allocate, copy, release. */
  lemma MovedBytes(before: seq<byte>, cleared: seq<byte>, copied: seq<byte>, after: seq<byte>,
                   h: Blocks, ptr: nat, end: nat, st: nat, size: nat, n: nat, released: bool)
    requires ptr + n <= end <= |before| && st + size <= |before| && st + n <= |before|
    requires st + size <= ptr || end <= st
    requires SameOutside(before, cleared, st, st + size) && Zeroed(cleared, st, st + size)
    requires if n == 0 then copied == cleared else SameOutside(cleared, copied, st, st + n) && copied[st..st + n] == cleared[ptr..ptr + n]
    requires 0 !in h && EndOf(h, ptr) == end
    requires var loc := if released then ptr else 0; SameOutside(copied, after, loc, EndOf(h, loc)) && Zeroed(after, loc, EndOf(h, loc))
    ensures after == MovedRam(before, ptr, end, st, size, n, released)
  {
    forall i | st <= i < st + n
      ensures copied[i] == before[ptr + (i - st)]
    {
      assert copied[i] == copied[st..st + n][i - st] == cleared[ptr..ptr + n][i - st] == cleared[ptr + (i - st)];
    }
  }

  /**
    What `realloc` of the block in use at `ptr` makes of heap and memory. `sized` tells whether getallocsize found the
    block; the walk of free comes after the sort in malloc, when the slot of a block is the number of blocks above it.
   */
  ghost predicate Reallocated(base: nat, stride: nat, s: State, sized: bool, ptr: nat, size: nat, st: Option<nat>, s': State)
    requires stride > 0
  {
    && ptr in s.heap && ptr <= s.heap[ptr].to <= |s.ram|
    && (st.None? ==> AllocStep(s.heap, base, size, 0, st, s'.heap) && s'.ram == s.ram)
    && (st.Some? ==>
          var end, released := s.heap[ptr].to, |Above(s.heap, ptr)| % stride == 0;
          var h' := s.heap[st.value := Extent(st.value + size, true)];
          && AllocStep(s.heap, base, size, 0, st, h')
          && s'.heap == (if released then h'[ptr := Extent(end, false)] else h')
          && s'.ram == MovedRam(s.ram, ptr, end, st.value, size, if sized then end - ptr else 0, released))
  }

  lemma AboveBase(h: Blocks, base: nat, limit: nat)
    requires Safe(h, base, limit)
    ensures 0 !in h
  {
  }

  lemma ReallocComposes(base: nat, stride: nat, s: State, malloced: State, copied: seq<byte>, s': State,
                        sized: bool, ptr: nat, size: nat, st: nat)
    requires stride > 0 && Safe(s.heap, base, |s.ram|) && Safe(malloced.heap, base, |s.ram|)
    requires ptr in s.heap && s.heap[ptr].used
    requires Next(base, s, Allocate(size, 0, Some(st)), malloced)
    requires |malloced.ram| == |copied| == |s.ram| && ptr <= s.heap[ptr].to <= |s.ram| && st + (s.heap[ptr].to - ptr) <= |s.ram|
    requires var end, n := s.heap[ptr].to, s.heap[ptr].to - ptr;
             if sized then SameOutside(malloced.ram, copied, st, st + n) && copied[st..st + n] == malloced.ram[ptr..end]
             else copied == malloced.ram
    requires Next(base, State(malloced.heap, copied), Release(if |Above(s.heap, ptr)| % stride == 0 then ptr else 0), s')
    ensures Reallocated(base, stride, s, sized, ptr, size, Some(st), s')
  {
    hide AllocStep, Safe, SameOutside, Zeroed, MovedRam, Above;
    AboveBase(malloced.heap, base, |s.ram|);
    BlockInside(s.heap, base, |s.ram|, ptr);
    NewBlockIsDisjoint(s.heap, base, |s.ram|, size, st, malloced.heap, ptr);
    var end := s.heap[ptr].to;
    MovedBytes(s.ram, malloced.ram, copied, s'.ram, malloced.heap, ptr, end, st, size, if sized then end - ptr else 0,
               |Above(s.heap, ptr)| % stride == 0);
  }

  lemma FailedRealloc(base: nat, stride: nat, s: State, sized: bool, ptr: nat, size: nat, s': State)
    requires stride > 0 && ptr in s.heap && ptr <= s.heap[ptr].to <= |s.ram|
    requires Next(base, s, Allocate(size, 0, None), s')
    ensures Reallocated(base, stride, s, sized, ptr, size, None, s')
  {
  }

  /** Shrinking or growing, the result holds the old contents as far as it reaches, provided the block was found; the rest is zero. */
  lemma ReallocKeepsContents(h: Blocks, base: nat, size: nat, st: nat, h': Blocks, before: seq<byte>, ptr: nat, sized: bool, released: bool)
    requires Safe(h, base, |before|) && Safe(h', base, |before|) && size > 0
    requires AllocStep(h, base, size, 0, Some(st), h') && ptr in h && h[ptr].used
    ensures ptr <= h[ptr].to <= |before| && st + size <= |before|
    ensures var n := if sized then h[ptr].to - ptr else 0;
            var after := MovedRam(before, ptr, h[ptr].to, st, size, n, released);
            forall j :: st <= j < st + size ==> after[j] == if j - st < n then before[ptr + (j - st)] else 0
  {
    hide AllocStep, Safe;
    NewBlockIsDisjoint(h, base, |before|, size, st, h', ptr);
    BlockInside(h, base, |before|, ptr);
  }

  /** Every block in use but the one at `ptr` has the same bytes before and after. */
  ghost predicate SparesOthers(h: Blocks, ptr: nat, before: seq<byte>, after: seq<byte>)
  {
    forall a, i :: a in h && h[a].used && a != ptr && a <= i < h[a].to && i < |before| && i < |after| ==> after[i] == before[i]
  }

  /** Some other block in use starts behind the new block, but before the end of what is copied. */
  ghost predicate Overrun(h: Blocks, ptr: nat, st: nat, size: nat, n: nat)
  {
    exists a :: a in h && h[a].used && a != ptr && st + size <= a < st + n
  }

  /**
    Is `realloc` safe for the other owners? Whatever memory holds, it leaves the other blocks in use alone, if and
    only if none of them starts between the end of the new block and the end of the copy; growing is always safe.
   */
  lemma ReallocSparesOthersIff(h: Blocks, base: nat, limit: nat, size: nat, st: nat, h': Blocks, ptr: nat, released: bool)
    requires Safe(h, base, limit) && Safe(h', base, limit) && size > 0
    requires AllocStep(h, base, size, 0, Some(st), h') && ptr in h && h[ptr].used
    ensures ptr <= h[ptr].to <= limit
    ensures (forall before: seq<byte> :: |before| == limit ==>
                                           SparesOthers(h, ptr, before, MovedRam(before, ptr, h[ptr].to, st, size, h[ptr].to - ptr, released)))
            <==> !Overrun(h, ptr, st, size, h[ptr].to - ptr)
    ensures h[ptr].to - ptr <= size ==> !Overrun(h, ptr, st, size, h[ptr].to - ptr)
  {
    hide AllocStep, MovedRam, SparesOthers;
    NewBlockIsDisjoint(h, base, limit, size, st, h', ptr);
    BlockInside(h, base, limit, ptr);
    var n := h[ptr].to - ptr;
    if Overrun(h, ptr, st, size, n) {
      var a :| a in h && h[a].used && a != ptr && st + size <= a < st + n;
      var before := Marked(limit, ptr, h[ptr].to);
      OverwritesMark(h, limit, base, ptr, st, size, a, released);
      assert !SparesOthers(h, ptr, before, MovedRam(before, ptr, h[ptr].to, st, size, n, released));
    } else {
      forall before: seq<byte> | |before| == limit
        ensures SparesOthers(h, ptr, before, MovedRam(before, ptr, h[ptr].to, st, size, n, released))
      {
        SparedWithoutOverrun(h, base, size, st, h', before, ptr, released);
      }
    }
  }

  /** Memory in which exactly the bytes of one block are 1. */
  function Marked(limit: nat, from: nat, end: nat): (before: seq<byte>)
  {
    seq(limit, i => if from <= i < end then 1 else 0)
  }

  lemma OverwritesMark(h: Blocks, limit: nat, base: nat, ptr: nat, st: nat, size: nat, a: nat, released: bool)
    requires Safe(h, base, limit) && ptr in h && a in h && h[a].used && a != ptr && st + size <= a < st + (h[ptr].to - ptr)
    ensures var before := Marked(limit, ptr, h[ptr].to);
            !SparesOthers(h, ptr, before, MovedRam(before, ptr, h[ptr].to, st, size, h[ptr].to - ptr, released))
  {
    var before := Marked(limit, ptr, h[ptr].to);
    var after := MovedRam(before, ptr, h[ptr].to, st, size, h[ptr].to - ptr, released);
    assert before[a] == 0 && after[a] == before[ptr + (a - st)] == 1;
  }

  lemma SparedWithoutOverrun(h: Blocks, base: nat, size: nat, st: nat, h': Blocks, before: seq<byte>, ptr: nat, released: bool)
    requires Safe(h, base, |before|) && Safe(h', base, |before|) && size > 0
    requires ptr in h && h[ptr].used && (st in h ==> !h[st].used) && h' == h[st := Extent(st + size, true)]
    requires !Overrun(h, ptr, st, size, h[ptr].to - ptr)
    ensures SparesOthers(h, ptr, before, MovedRam(before, ptr, h[ptr].to, st, size, h[ptr].to - ptr, released))
  {
    hide Safe, Overrun;
    var n := h[ptr].to - ptr;
    BlockInside(h, base, |before|, ptr);
    forall a, i | a in h && h[a].used && a != ptr && a <= i < h[a].to && i < |before|
      ensures MovedRam(before, ptr, h[ptr].to, st, size, n, released)[i] == before[i]
    {
      OtherBlockOutside(h, base, |before|, size, st, h', ptr, a);
    }
  }

  /** Without an overrun another block in use meets neither the old block nor the bytes that are cleared or copied to. */
  lemma OtherBlockOutside(h: Blocks, base: nat, limit: nat, size: nat, st: nat, h': Blocks, ptr: nat, a: nat)
    requires Safe(h, base, limit) && Safe(h', base, limit) && size > 0 && ptr in h && a in h && h[a].used && a != ptr
    requires (st in h ==> !h[st].used) && h' == h[st := Extent(st + size, true)]
    requires !Overrun(h, ptr, st, size, h[ptr].to - ptr)
    ensures h[a].to <= ptr || h[ptr].to <= a
    ensures h[a].to <= st || (st + size <= a && st + (h[ptr].to - ptr) <= a)
  {
    assert a in h' && st in h' && a != st && h'[a] == h[a];
    assert !(st + size <= a < st + (h[ptr].to - ptr));
  }

  /**
    A heap in which shrinking destroys data: three blocks lie side by side, the middle one is free and is chosen for
    two bytes, and six of the eight bytes copied land in the third block, which is in use.
   */
  lemma ShrinkingDestroysThirdBlock(base: nat, before: seq<byte>)
    requires base > 0 && |before| == base + 18
    ensures var h := map[base := Extent(base + 8, true), base + 8 := Extent(base + 10, false), base + 10 := Extent(base + 18, true)];
            var after := MovedRam(before, base, base + 8, base + 8, 2, 8, true);
            && Safe(h, base, base + 18)
            && AllocStep(h, base, 2, 0, Some(base + 8), h[base + 8 := Extent(base + 10, true)])
            && forall j :: base + 10 <= j < base + 16 ==> after[j] == before[j - 8]
  {
  }

  // ----- the walk of free and getallocsize -----

  // sizeof(MemoryBlock): the walk adds it, times the counter, to a pointer to records
  const RECORD_SIZE: nat := 12

  /** In a sorted table the walk as written finds exactly the blocks with a multiple of 12 blocks above them; a walk over every record finds all. */
  lemma WalkFindsIff(t: seq<Block>, h: Blocks, a: nat)
    requires Represents(t, h) && Descending(t) && a != 0
    ensures Reached(t, a, RECORD_SIZE) <==> a in h && |Above(h, a)| % 12 == 0
    ensures Reached(t, a, 1) <==> a in h
  {
    if a in h {
      ReachedIff(t, h, a, RECORD_SIZE);
      ReachedIff(t, h, a, 1);
    }
  }

  /** The next slot of a walk is the next multiple of `stride`. */
  lemma NextSlot(k: nat, stride: nat)
    requires stride > 0 && k % stride == 0
    ensures (k + stride) % stride == 0
    ensures forall j :: k < j < k + stride ==> j % stride != 0
  {
    forall j | k < j < k + stride
      ensures j % stride != 0
    {
      RemainderUnique(j, stride, k / stride, j - k);
    }
    RemainderUnique(k + stride, stride, k / stride + 1, 0);
  }

  /** Every block of `h` in the table stands in the slot that the sort gave it. */
  ghost predicate InSortedSlots(t: seq<Block>, h: Blocks)
  {
    forall k :: 0 <= k < |t| && t[k].from in h ==> |Above(h, t[k].from)| == k
  }

  lemma SortedSlots(t: seq<Block>, h: Blocks)
    requires Represents(t, h) && Descending(t)
    ensures InSortedSlots(t, h)
  {
    forall k | 0 <= k < |t| && t[k].from in h
      ensures |Above(h, t[k].from)| == k
    {
      SlotIsBlocksAbove(t, h, k);
    }
  }

  /** A block that malloc has just added stands behind all others, where no sort has moved it yet. */
  ghost predicate GrownLast(t: seq<Block>, h: Blocks, r: Option<nat>)
  {
    r.Some? && r.value !in h ==> |h| < |t| && t[|h|].from == r.value
  }

  /** The first empty record of a table whose empty records come last has as many records before it as there are blocks. */
  lemma FirstEmptySlot(t: seq<Block>, h: Blocks, k: nat)
    requires Represents(t, h) && EmptyLast(t) && k < |t| && t[k].from == 0 && forall i :: 0 <= i < k ==> t[i].from != 0
    ensures k == |h|
  {
    LiveCount(t, h, k);
  }

  /**
    After a malloc the walks find a block by the slot it had in the sort, but the block that malloc has just added by
    the number of blocks there were before, although none is above it.
   */
  lemma FoundAfterMallocIff(t: seq<Block>, h: Blocks, h': Blocks, r: nat, a: nat, stride: nat)
    requires InSortedSlots(t, h) && GrownLast(t, h, Some(r)) && Represents(t, h') && stride > 0
    requires a in h' && (a in h || a == r)
    ensures Reached(t, a, stride) <==> (if a in h then |Above(h, a)| else |h|) % stride == 0
  {
    if a in h {
      ReachedInSortedSlots(t, h, a, stride);
    }
  }

  lemma ReachedInSortedSlots(t: seq<Block>, h: Blocks, a: nat, stride: nat)
    requires InSortedSlots(t, h) && Listed(t, a) && a in h && stride > 0
    ensures Reached(t, a, stride) <==> |Above(h, a)| % stride == 0
  {
  }

  class Allocator {
    const memreg: array<Block>
    const ram: array<byte>
    const endKernelMemory: nat
    // how many records a walk of free or getallocsize advances: RECORD_SIZE in the code as it stands, 1 as intended
    const stride: nat
    ghost var heap: Blocks

    ghost predicate Valid()
      reads this, memreg, ram
    {
      && memreg.Length == BLOCK_LIMIT && stride > 0
      && ram.Length <= 0x8000_0000
      && Safe(heap, endKernelMemory, ram.Length)
      && Represents(memreg[..], heap)
      && EmptyLast(memreg[..])
    }

    ghost function Snapshot(): State
      reads this, ram
    {
      State(heap, ram[..])
    }

    /** A kernel start-up: an empty table. */
    constructor (ramSize: nat, endKernelMemory: nat, stride: nat)
      requires 0 < endKernelMemory <= ramSize <= 0x8000_0000 && stride > 0
      ensures Valid() && fresh(memreg) && fresh(ram)
      ensures heap == map[] && ram.Length == ramSize && this.endKernelMemory == endKernelMemory && this.stride == stride
    {
      memreg := new Block[BLOCK_LIMIT](_ => EMPTY);
      ram := new byte[ramSize];
      this.endKernelMemory, this.stride := endKernelMemory, stride;
      heap := map[];
    }

    /** Sorts the table; the heap it represents stays the same. */
    method Cleanup()
      requires Valid()
      modifies memreg
      ensures Valid() && Descending(memreg[..])
      ensures multiset(memreg[..]) == multiset(old(memreg[..]))
    {
      MemCleanup(memreg);
      PermutedRepresents(old(memreg[..]), memreg[..], heap);
    }

    method MemSet(str: nat, c: byte, n: nat)
      requires str + n <= ram.Length
      modifies ram
      ensures forall i :: str <= i < str + n ==> ram[i] == c
      ensures SameOutside(old(ram[..]), ram[..], str, str + n)
    {
      var t := 0;
      while t < n
        invariant 0 <= t <= n
        invariant forall i :: str <= i < str + t ==> ram[i] == c
        invariant SameOutside(old(ram[..]), ram[..], str, str + n)
      {
        ram[str + t] := c;
        t := t + 1;
      }
    }

    /** Copies forwards, byte by byte; an overlap is harmless when the target lies below the source. A negative count copies nothing. */
    method MemCpy(from: nat, to: nat, n: int)
      requires n > 0 ==> from + n <= ram.Length && to + n <= ram.Length
      modifies ram
      ensures n <= 0 ==> ram[..] == old(ram[..])
      ensures n > 0 ==> SameOutside(old(ram[..]), ram[..], to, to + n)
      ensures n > 0 && (to <= from || from + n <= to) ==> ram[to..to + n] == old(ram[from..from + n])
    {
      var i := 0;
      while i < n
        invariant 0 <= i && (i <= n || i == 0)
        invariant i == 0 ==> ram[..] == old(ram[..])
        invariant SameOutside(old(ram[..]), ram[..], to, to + i)
        invariant to <= from || from + n <= to ==> forall k :: to <= k < to + i ==> ram[k] == old(ram[k - to + from])
      {
        ram[to + i] := ram[from + i];
        i := i + 1;
      }
    }

    /** The last record in table order that can be reused, if any. */
    method FindFit(size: nat, tag: nat) returns (found: int)
      requires Valid() && Descending(memreg[..])
      ensures -1 <= found < BLOCK_LIMIT
      ensures found == -1 ==> NoFit(heap, size, tag)
      ensures found >= 0 ==>
                var b := memreg[found];
                b.from != 0 && RecordFits(b, size, tag) && Fits(heap, b.from, size, tag) && forall a: nat :: Fits(heap, a, size, tag) ==> b.from <= a
    {
      hide Represents, Safe, EmptyLast, Descending, Aligned;
      found := -1;
      var i1 := 0;
      while i1 < BLOCK_LIMIT
        invariant 0 <= i1 <= BLOCK_LIMIT && -1 <= found < i1
        invariant found >= 0 ==> RecordFits(memreg[found], size, tag)
        invariant forall i :: found < i < i1 ==> !RecordFits(memreg[i], size, tag)
      {
        if !memreg[i1].used && memreg[i1].from != 0 && memreg[i1].to != 0 {
          var sizeofblock := memreg[i1].to - memreg[i1].from;
          if sizeofblock == size && Aligned(memreg[i1].from, tag) {
            found := i1;
          }
        }
        i1 := i1 + 1;
      }
      if found == -1 {
        NoRecordFits(memreg[..], heap, endKernelMemory, ram.Length, size, tag);
      } else {
        LastFitIsLowest(memreg[..], heap, size, tag, found);
      }
    }

    /** The first aligned address at or after the end of slot 0. */
    method NextFree(ghost size: nat, tag: nat) returns (highestlocation: nat)
      requires Valid() && Descending(memreg[..])
      requires RoomAbove(heap, endKernelMemory, ram.Length, size, tag)
      ensures IsNextFree(heap, endKernelMemory, tag, highestlocation)
      ensures highestlocation + size <= ram.Length
    {
      highestlocation := memreg[0].to;
      if highestlocation == 0 {
        highestlocation := endKernelMemory;
      }
      SlotZeroIsTop(memreg[..], heap, endKernelMemory, ram.Length);
      ghost var start := highestlocation;
      ghost var top: nat, room: nat :| IsTop(heap, endKernelMemory, top) && top <= room && Aligned(room, tag) && room + size <= ram.Length;
      assert top == start;
      while !Aligned(highestlocation, tag)
        invariant start <= highestlocation <= room
        invariant forall b: nat :: start <= b < highestlocation ==> !Aligned(b, tag)
        decreases room - highestlocation
      {
        highestlocation := highestlocation + 1;
      }
    }

    method FirstEmpty() returns (k: int)
      requires Valid() && exists i :: 0 <= i < BLOCK_LIMIT && memreg[i].from == 0
      ensures 0 <= k < BLOCK_LIMIT && memreg[k] == EMPTY
      ensures forall i :: 0 <= i < k ==> memreg[i].from != 0
    {
      k := 0;
      while memreg[k].used || memreg[k].from != 0 || memreg[k].to != 0
        invariant 0 <= k < BLOCK_LIMIT
        invariant forall i :: 0 <= i < k ==> memreg[i].from != 0
        invariant exists i :: k <= i < BLOCK_LIMIT && memreg[i].from == 0
        decreases BLOCK_LIMIT - k
      {
        assert memreg[..][k].from != 0;
        k := k + 1;
      }
    }

    /** Appends a record for a new block on top of the heap, if the table has room. */
    method Grow(size: nat, tag: nat) returns (found: int)
      requires Valid() && Descending(memreg[..]) && size > 0
      requires |heap| < BLOCK_LIMIT ==> RoomAbove(heap, endKernelMemory, ram.Length, size, tag)
      modifies this`heap, memreg
      ensures -1 <= found < BLOCK_LIMIT
      ensures found == -1 ==> Valid() && old(|heap|) >= BLOCK_LIMIT && heap == old(heap)
      ensures found != -1 ==>
                && Valid() && old(|heap|) < BLOCK_LIMIT
                && IsNextFree(old(heap), endKernelMemory, tag, memreg[found].from)
                && memreg[found].from !in old(heap)
                && memreg[found].from != 0 && found == old(|heap|)
                && heap == old(heap)[memreg[found].from := Extent(memreg[found].from + size, false)]
      ensures forall i :: 0 <= i < BLOCK_LIMIT && i != found ==> memreg[i] == old(memreg[i])
    {
      hide Represents, Safe, Descending, IsTop, RoomAbove, IsNextFree;
      found := -1;
      LastRecordTellsFull(memreg[..], heap);
      var last := memreg[BLOCK_LIMIT - 1];
      if !last.used && last.from == 0 && last.to == 0 {
        var highestlocation := NextFree(size, tag);
        NewBlockIsSafe(heap, endKernelMemory, ram.Length, tag, highestlocation, size);
        found := FirstEmpty();
        ghost var t := memreg[..];
        FirstEmptySlot(t, heap, found);
        AddedRepresents(t, heap, found, highestlocation, highestlocation + size);
        memreg[found] := memreg[found].(from := highestlocation, to := highestlocation + size);
        assert memreg[..] == t[found := Block(highestlocation, highestlocation + size, false)];
        heap := heap[highestlocation := Extent(highestlocation + size, false)];
      }
    }

    /** Sets the flag of the record in slot `k`; clearing the flag of an empty record changes nothing. */
    method SetUsed(k: nat, used: bool)
      requires Valid() && k < BLOCK_LIMIT && (used ==> memreg[k].from != 0)
      modifies this`heap, memreg
      ensures Valid() && memreg[k] == old(memreg[k]).(used := used)
      ensures forall i :: 0 <= i < BLOCK_LIMIT && i != k ==> memreg[i] == old(memreg[i])
      ensures if memreg[k].from == 0 then heap == old(heap)
              else memreg[k].from in old(heap) && old(heap)[memreg[k].from].to == memreg[k].to &&
                   heap == old(heap)[memreg[k].from := Extent(memreg[k].to, used)]
    {
      hide Represents, Safe, EmptyLast;
      ghost var t := memreg[..];
      EmptyOrListed(t, heap, k);
      FlagKeepsOrder(t, k, used);
      memreg[k] := memreg[k].(used := used);
      assert memreg[..] == t[k := t[k].(used := used)];
      if memreg[k].from != 0 {
        MarkedRepresents(t, heap, k, used);
        FlagKeepsSafe(heap, endKernelMemory, ram.Length, t[k].from, used);
        heap := heap[memreg[k].from := Extent(memreg[k].to, used)];
      } else {
        assert memreg[..] == t;
      }
    }

    /** Allocates `size` bytes at an address that has no bit in common with `tag`. */
    method MallocAlign(size: nat, tag: nat) returns (r: Option<nat>)
      requires Valid() && size > 0
      requires NoFit(heap, size, tag) && |heap| < BLOCK_LIMIT ==> RoomAbove(heap, endKernelMemory, ram.Length, size, tag)
      modifies this`heap, memreg, ram
      ensures Valid()
      ensures Next(endKernelMemory, old(Snapshot()), Allocate(size, tag, r), Snapshot())
      ensures InSortedSlots(memreg[..], old(heap)) && GrownLast(memreg[..], old(heap), r)
    {
      hide Represents, Safe, Descending, IsTop, RoomAbove, IsNextFree, EmptyLast, Aligned, RecordFits, NoFit, Above;
      Cleanup();
      SortedSlots(memreg[..], heap);
      var found := FindFit(size, tag);
      if found == -1 {
        found := Grow(size, tag);
      }
      if found == -1 {
        return None;
      }
      SetUsed(found, true);
      r := Some(memreg[found].from);
      BlockInside(heap, endKernelMemory, ram.Length, r.value);
      MemSet(r.value, 0, size);
    }

    /** malloc: no alignment wanted. */
    method Malloc(size: nat) returns (r: Option<nat>)
      requires Valid() && size > 0
      requires NoFit(heap, size, 0) && |heap| < BLOCK_LIMIT ==> RoomAbove(heap, endKernelMemory, ram.Length, size, 0)
      modifies this`heap, memreg, ram
      ensures Valid()
      ensures Next(endKernelMemory, old(Snapshot()), Allocate(size, 0, r), Snapshot())
      ensures InSortedSlots(memreg[..], old(heap)) && GrownLast(memreg[..], old(heap), r)
    {
      r := MallocAlign(size, 0);
    }

    /**
      Walks over the table in steps of `stride`; releases the block that starts at `loc` and zeroes its bytes if the
      walk comes by its record, and otherwise changes nothing.
     */
    method Free(loc: nat)
      requires Valid()
      modifies this`heap, memreg, ram
      ensures Valid() && Descending(memreg[..])
      ensures Next(endKernelMemory, old(Snapshot()), Release(if Reached(old(memreg[..]), loc, stride) then loc else 0), Snapshot())
      ensures loc in old(heap) && Reached(old(memreg[..]), loc, stride) ==>
                var end := old(heap)[loc].to;
                && heap == old(heap)[loc := Extent(end, false)]
                && forall i :: 0 <= i < ram.Length ==> ram[i] == if loc <= i < end then 0 else old(ram[i])
      ensures loc !in old(heap) || !Reached(old(memreg[..]), loc, stride) ==> heap == old(heap) && ram[..] == old(ram[..])
    {
      hide Represents, Safe, EmptyLast, Descending;
      ghost var t := memreg[..];
      ghost var released := false;
      var i := 0;
      while i < BLOCK_LIMIT
        invariant 0 <= i && i % stride == 0
        invariant Valid() && forall k :: 0 <= k < BLOCK_LIMIT ==> memreg[k].from == t[k].from
        invariant heap == if released then Freed(old(heap), loc) else old(heap)
        invariant if released then Zeroed(ram[..], loc, EndOf(old(heap), loc)) else ram[..] == old(ram[..])
        invariant SameOutside(old(ram[..]), ram[..], loc, EndOf(old(heap), loc))
        invariant released <==> loc != 0 && exists k :: 0 <= k < i && k < BLOCK_LIMIT && k % stride == 0 && t[k].from == loc
        decreases BLOCK_LIMIT - i
      {
        if memreg[i].from == loc {
          SetUsed(i, false);
          RecordInside(i);
          MemSet(memreg[i].from, 0, memreg[i].to - memreg[i].from);
          released := loc != 0;
        }
        NextSlot(i, stride);
        i := i + stride;
      }
      assert released <==> loc != 0 && Reached(t, loc, stride);
      ZeroIsNoBlock();
      ReachedIsListed(t, loc, stride);
      ListedWhenPresent(loc);
      Cleanup();
    }

    lemma ReachedIsListed(t: seq<Block>, loc: nat, step: nat)
      requires step > 0 && memreg.Length == |t| && forall k :: 0 <= k < |t| ==> memreg[k].from == t[k].from
      ensures Reached(t, loc, step) ==> Listed(memreg[..], loc)
    {
    }

    lemma ZeroIsNoBlock()
      requires Valid()
      ensures 0 !in heap
    {
    }

    lemma RecordInside(k: nat)
      requires Valid() && k < BLOCK_LIMIT
      ensures memreg[k].from <= memreg[k].to <= ram.Length
      ensures memreg[k].from == 0 ==> memreg[k].to == 0 && 0 !in heap
      ensures memreg[k].from != 0 ==> memreg[k].from in heap && heap[memreg[k].from].to == memreg[k].to
    {
    }

    lemma ListedWhenPresent(loc: nat)
      requires Valid()
      ensures loc in heap <==> loc != 0 && Listed(memreg[..], loc)
    {
    }

    /** The size of the block at `ptr` if the walk comes by its record, otherwise -1. */
    method GetAllocSize(ptr: nat) returns (size: int)
      requires Valid()
      ensures size == if Reached(memreg[..], ptr, stride) then (if ptr in heap then heap[ptr].to - ptr else 0) else -1
    {
      hide Represents, Safe, EmptyLast, Descending;
      var i := 0;
      while i < BLOCK_LIMIT
        invariant 0 <= i && i % stride == 0
        invariant forall k :: 0 <= k < i && k < BLOCK_LIMIT && k % stride == 0 ==> memreg[k].from != ptr
        decreases BLOCK_LIMIT - i
      {
        if memreg[i].from == ptr {
          RecordInside(i);
          assert memreg[..][i].from == ptr;
          return memreg[i].to - memreg[i].from;
        }
        NextSlot(i, stride);
        i := i + stride;
      }
      size := -1;
    }

    /**
      Moves a block in use to a new one of any size: the bytes of the old block are copied, all of them, before it is
      released. The null pointer asks for a plain allocation. What is copied and whether the old block is released
      depends on the walks that look for it.
     */
    method Realloc(ptr: nat, size: nat) returns (st: Option<nat>)
      requires Valid() && size > 0
      requires NoFit(heap, size, 0) && |heap| < BLOCK_LIMIT ==> RoomAbove(heap, endKernelMemory, ram.Length, size, 0)
      requires ptr == 0 || (ptr in heap && heap[ptr].used)
      requires ptr in heap ==> ptr <= heap[ptr].to && CopyFits(heap, endKernelMemory, ram.Length, size, heap[ptr].to - ptr)
      modifies this`heap, memreg, ram
      ensures Valid()
      ensures ptr == 0 ==> Next(endKernelMemory, old(Snapshot()), Allocate(size, 0, st), Snapshot())
      ensures ptr != 0 ==> Reallocated(endKernelMemory, stride, old(Snapshot()), old(Reached(memreg[..], ptr, stride)), ptr, size, st, Snapshot())
    {
      hide Represents, Safe, EmptyLast, Descending, RoomAbove, NoFit, AllocStep, CopyFits, Reallocated, Reached;
      if ptr == 0 {
        st := Malloc(size);
      } else {
        st := MoveBlock(ptr, size);
      }
    }

    /** The part of `realloc` for a block in use: size, allocate, copy, release. */
    method MoveBlock(ptr: nat, size: nat) returns (st: Option<nat>)
      requires Valid() && size > 0
      requires NoFit(heap, size, 0) && |heap| < BLOCK_LIMIT ==> RoomAbove(heap, endKernelMemory, ram.Length, size, 0)
      requires ptr != 0 && ptr in heap && heap[ptr].used && ptr <= heap[ptr].to
      requires CopyFits(heap, endKernelMemory, ram.Length, size, heap[ptr].to - ptr)
      modifies this`heap, memreg, ram
      ensures Valid()
      ensures Reallocated(endKernelMemory, stride, old(Snapshot()), old(Reached(memreg[..], ptr, stride)), ptr, size, st, Snapshot())
    {
      hide Represents, Safe, EmptyLast, Descending, RoomAbove, NoFit, AllocStep, SameOutside, Zeroed, Above, Reached, InSortedSlots, Reallocated;
      ghost var before := Snapshot();
      BlockInside(heap, endKernelMemory, ram.Length, ptr);
      var cursize := GetAllocSize(ptr);
      st := Malloc(size);
      if st.None? {
        FailedRealloc(endKernelMemory, stride, before, cursize >= 0, ptr, size, Snapshot());
        return;
      }
      ghost var malloced := Snapshot();
      NewBlockIsDisjoint(before.heap, endKernelMemory, ram.Length, size, st.value, heap, ptr);
      MemCpy(ptr, st.value, cursize);
      ListedWhenPresent(ptr);
      ReachedInSortedSlots(memreg[..], before.heap, ptr, stride);
      ghost var copied := ram[..];
      Free(ptr);
      ReallocComposes(endKernelMemory, stride, before, malloced, copied, Snapshot(), cursize >= 0, ptr, size, st.value);
    }
  }

  /**
    The commonest use fails: of two blocks allocated one after the other from start-up, the second is in use, but
    getallocsize does not find it and free does not release it.
   */
  method SecondMallocIsNotFreed(ramSize: nat, endKernelMemory: nat, size: nat) returns (memory: Allocator, first: nat, second: nat, sizeofsecond: int)
    requires 0 < endKernelMemory && 0 < size && endKernelMemory + 2 * size <= ramSize <= 0x8000_0000
    ensures fresh(memory) && memory.Valid() && memory.stride == RECORD_SIZE
    ensures second in memory.heap && memory.heap[second] == Extent(second + size, true) && second != first
    ensures sizeofsecond == -1
  {
    hide Represents, Safe, EmptyLast, Descending, RoomAbove, NoFit, AllocStep, InSortedSlots, GrownLast, Reached, Above, SameOutside, Zeroed;
    memory := new Allocator(ramSize, endKernelMemory, RECORD_SIZE);
    RoomInEmptyHeap(endKernelMemory, ramSize, size);
    var r1 := memory.Malloc(size);
    FirstMalloc(endKernelMemory, size, r1, memory.heap);
    first := r1.value;
    ghost var h := memory.heap;
    RoomAboveOne(endKernelMemory, ramSize, size);
    var r2 := memory.Malloc(size);
    SecondMalloc(endKernelMemory, size, r2, memory.heap);
    second := r2.value;
    assert second !in h && |h| == 1;
    FoundAfterMallocIff(memory.memreg[..], h, memory.heap, second, second, RECORD_SIZE);
    sizeofsecond := memory.GetAllocSize(second);
    memory.Free(second);
  }

  /** What is released is handed out again: from start-up, malloc, free and malloc of the same size give one address. */
  method FreedIsMallocedAgain(ramSize: nat, endKernelMemory: nat, size: nat) returns (memory: Allocator, first: nat, second: nat)
    requires 0 < endKernelMemory && 0 < size && endKernelMemory + size <= ramSize <= 0x8000_0000
    ensures fresh(memory) && memory.Valid() && memory.stride == RECORD_SIZE
    ensures first == second == endKernelMemory && memory.heap == map[second := Extent(second + size, true)]
  {
    hide Represents, Safe, EmptyLast, Descending, RoomAbove, NoFit, AllocStep, InSortedSlots, GrownLast, Reached, Above, SameOutside, Zeroed;
    memory := new Allocator(ramSize, endKernelMemory, RECORD_SIZE);
    RoomInEmptyHeap(endKernelMemory, ramSize, size);
    var r1 := memory.Malloc(size);
    FirstMalloc(endKernelMemory, size, r1, memory.heap);
    first := r1.value;
    ghost var h := memory.heap;
    ghost var none: Blocks := map[];
    assert first !in none && |none| == 0;
    FoundAfterMallocIff(memory.memreg[..], none, h, first, first, RECORD_SIZE);
    memory.Free(first);
    ghost var freed := memory.heap;
    assert freed == h[first := Extent(first + size, false)];
    FreeBlockFits(h, first, size);
    var r2 := memory.Malloc(size);
    ReleasedIsReused(h, endKernelMemory, ramSize, first, r2, memory.heap);
    second := r2.value;
  }

  lemma FreeBlockFits(h: Blocks, a: nat, size: nat)
    requires a in h && h[a].to == a + size
    ensures !NoFit(h[a := Extent(a + size, false)], size, 0)
  {
    assert Aligned(a, 0);
    assert Fits(h[a := Extent(a + size, false)], a, size, 0);
  }

  lemma RoomInEmptyHeap(base: nat, limit: nat, size: nat)
    requires base + size <= limit
    ensures RoomAbove(map[], base, limit, size, 0)
  {
    assert IsTop(map[], base, base) && Aligned(base, 0);
  }

  lemma RoomAboveOne(base: nat, limit: nat, size: nat)
    requires base + 2 * size <= limit
    ensures RoomAbove(map[base := Extent(base + size, true)], base, limit, size, 0)
  {
    var h := map[base := Extent(base + size, true)];
    assert h[base].to == base + size;
    assert IsTop(h, base, base + size) && Aligned(base + size, 0);
  }

  lemma FirstMalloc(base: nat, size: nat, r: Option<nat>, h: Blocks)
    requires AllocStep(map[], base, size, 0, r, h)
    ensures r == Some(base) && h == map[base := Extent(base + size, true)]
  {
    assert Aligned(base, 0);
  }

  lemma SecondMalloc(base: nat, size: nat, r: Option<nat>, h: Blocks)
    requires size > 0 && AllocStep(map[base := Extent(base + size, true)], base, size, 0, r, h)
    ensures r == Some(base + size) && h == map[base := Extent(base + size, true), base + size := Extent(base + 2 * size, true)]
  {
    var g := map[base := Extent(base + size, true)];
    assert g[base].to == base + size && g != map[];
    assert Aligned(base + size, 0);
    assert |g| == 1;
  }
}

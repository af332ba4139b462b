/**
  The heap of kernel/dev/memory.c seen from outside: a finite map from block addresses to extents.
  Nothing here knows about the table of records, its order or its sorting.
 */
module HeapModel {
  import opened Common

  // MEMORY_BLOCK_LIMIT
  const BLOCK_LIMIT: nat := 0x2000

  datatype Extent = Extent(to: nat, used: bool)

  type Blocks = map<nat, Extent>

  /** Bitwise conjunction of two non-negative integers. */
  function BitAnd(a: nat, b: nat): nat
  {
    if a == 0 || b == 0 then 0
    else (a % 2) * (b % 2) + 2 * BitAnd(a / 2, b / 2)
  }

  /** The alignment test `(address & tag) == 0`. */
  predicate Aligned(a: nat, tag: nat)
  {
    BitAnd(a, tag) == 0
  }

  /** Every block is non-empty, inside [base, limit), and disjoint from every other block. */
  ghost predicate Safe(h: Blocks, base: nat, limit: nat)
  {
    && 0 < base
    && (forall a :: a in h ==> base <= a < h[a].to <= limit)
    && (forall a, b :: a in h && b in h && a < b ==> h[a].to <= b)
  }

  /** A free block of exactly the requested size at an acceptable address. */
  ghost predicate Fits(h: Blocks, a: nat, size: nat, tag: nat)
  {
    a in h && !h[a].used && h[a].to - a == size && Aligned(a, tag)
  }

  /** `top` is the end of the highest block, or `base` when there is no block. */
  ghost predicate IsTop(h: Blocks, base: nat, top: nat)
  {
    if h == map[] then top == base
    else (forall a :: a in h ==> h[a].to <= top) && exists a :: a in h && h[a].to == top
  }

  /** `a` is the first aligned address at or after the top of the heap. */
  ghost predicate IsNextFree(h: Blocks, base: nat, tag: nat, a: nat)
  {
    exists top: nat ::
      IsTop(h, base, top) && top <= a && Aligned(a, tag) && forall b: nat :: top <= b < a ==> !Aligned(b, tag)
  }

  /** No free block can be reused. */
  ghost predicate NoFit(h: Blocks, size: nat, tag: nat)
  {
    forall a: nat :: !Fits(h, a, size, tag)
  }

  /** An aligned address at or after the top leaves `size` bytes below `limit`. */
  ghost predicate RoomAbove(h: Blocks, base: nat, limit: nat, size: nat, tag: nat)
  {
    exists top: nat, a: nat :: IsTop(h, base, top) && top <= a && Aligned(a, tag) && a + size <= limit
  }

  /** The lowest fitting free block is reused. */
  ghost predicate ReuseStep(h: Blocks, size: nat, tag: nat, a: nat, h': Blocks)
  {
    && Fits(h, a, size, tag)
    && (forall b: nat :: Fits(h, b, size, tag) ==> a <= b)
    && h' == h[a := Extent(h[a].to, true)]
  }

  /** A new block is created on top of the heap. */
  ghost predicate GrowStep(h: Blocks, base: nat, size: nat, tag: nat, a: nat, h': Blocks)
  {
    && NoFit(h, size, tag)
    && |h| < BLOCK_LIMIT
    && IsNextFree(h, base, tag, a)
    && h' == h[a := Extent(a + size, true)]
  }

  /** What an allocation does: reuse, otherwise grow, otherwise fail and leave the heap alone. */
  ghost predicate AllocStep(h: Blocks, base: nat, size: nat, tag: nat, r: Option<nat>, h': Blocks)
  {
    match r
    case Some(a) => ReuseStep(h, size, tag, a, h') || GrowStep(h, base, size, tag, a, h')
    case None => NoFit(h, size, tag) && |h| >= BLOCK_LIMIT && h' == h
  }

  /** What a release does: clear the flag of the block that starts at `loc`, if there is one. */
  function Freed(h: Blocks, loc: nat): Blocks
  {
    if loc in h then h[loc := Extent(h[loc].to, false)] else h
  }

  /** The end of the block at `loc`; `loc` itself when there is no such block. */
  function EndOf(h: Blocks, loc: nat): nat
  {
    if loc in h then h[loc].to else loc
  }

  // ----- heap and memory together -----

  datatype State = State(heap: Blocks, ram: seq<byte>)

  /** `Write` is a store by the owner of a block in use, anywhere inside that block. */
  datatype Event = Allocate(size: nat, tag: nat, result: Option<nat>) | Release(loc: nat) | Write(block: nat)

  ghost predicate Next(base: nat, s: State, e: Event, s': State)
  {
    match e
    case Allocate(size, tag, r) =>
      && size > 0
      && AllocStep(s.heap, base, size, tag, r, s'.heap)
      && (r.None? ==> s'.ram == s.ram)
      && (r.Some? ==>
            && r.value + size <= |s.ram|
            && Zeroed(s'.ram, r.value, r.value + size)
            && SameOutside(s.ram, s'.ram, r.value, r.value + size))
    case Release(loc) =>
      && s'.heap == Freed(s.heap, loc)
      && Zeroed(s'.ram, loc, EndOf(s.heap, loc))
      && SameOutside(s.ram, s'.ram, loc, EndOf(s.heap, loc))
    case Write(b) =>
      && b in s.heap && s.heap[b].used && s'.heap == s.heap
      && SameOutside(s.ram, s'.ram, b, s.heap[b].to)
  }

  // ----- properties of single steps -----

  lemma GrowIsAbove(h: Blocks, base: nat, tag: nat, a: nat)
    requires IsNextFree(h, base, tag, a)
    ensures a >= base || h != map[]
    ensures forall b :: b in h ==> h[b].to <= a
    ensures Aligned(a, tag)
  {
  }

  /** The outcome of an allocation is determined: two runs of the same request agree. */
  lemma AllocDetermined(h: Blocks, base: nat, size: nat, tag: nat, r: Option<nat>, h': Blocks, q: Option<nat>, g: Blocks)
    requires AllocStep(h, base, size, tag, r, h')
    requires AllocStep(h, base, size, tag, q, g)
    ensures r == q && h' == g
  {
  }

  /** Allocation keeps every block disjoint and non-empty, and hands out a used block of exactly `size` bytes. */
  lemma AllocKeepsSafe(h: Blocks, base: nat, limit: nat, size: nat, tag: nat, r: Option<nat>, h': Blocks)
    requires Safe(h, base, limit) && size > 0
    requires AllocStep(h, base, size, tag, r, h')
    requires r.Some? ==> r.value + size <= limit
    ensures Safe(h', base, limit)
    ensures r.Some? ==>
              r.value in h' && h'[r.value] == Extent(r.value + size, true) && Aligned(r.value, tag) && (r.value in h ==> !h[r.value].used)
    ensures forall a :: a in h ==> a in h' && h'[a].to == h[a].to && (r != Some(a) ==> h'[a] == h[a])
  {
    hide Safe, IsNextFree, NoFit, Aligned;
    if r.Some? {
      if ReuseStep(h, size, tag, r.value, h') {
        ReuseKeepsSafe(h, base, limit, size, tag, r.value, h');
      } else {
        GrowKeepsSafe(h, base, limit, size, tag, r.value, h');
      }
    }
  }

  lemma ReuseKeepsSafe(h: Blocks, base: nat, limit: nat, size: nat, tag: nat, a: nat, h': Blocks)
    requires Safe(h, base, limit) && ReuseStep(h, size, tag, a, h')
    ensures Safe(h', base, limit) && h'[a] == Extent(a + size, true) && Aligned(a, tag) && h'.Keys == h.Keys
  {
  }

  lemma GrowKeepsSafe(h: Blocks, base: nat, limit: nat, size: nat, tag: nat, a: nat, h': Blocks)
    requires Safe(h, base, limit) && GrowStep(h, base, size, tag, a, h') && size > 0 && a + size <= limit
    ensures Safe(h', base, limit) && Aligned(a, tag) && a !in h
  {
  }

  lemma FreeKeepsSafe(h: Blocks, base: nat, limit: nat, loc: nat)
    requires Safe(h, base, limit)
    ensures Safe(Freed(h, loc), base, limit)
    ensures Freed(h, loc).Keys == h.Keys
    ensures forall a :: a in h ==> Freed(h, loc)[a] == if a == loc then Extent(h[a].to, false) else h[a]
  {
  }

  /** A released block can be had again: the next request of its size makes no new block, and gets this one or a lower one. */
  lemma ReleasedIsReused(h: Blocks, base: nat, limit: nat, loc: nat, r: Option<nat>, h': Blocks)
    requires Safe(h, base, limit) && loc in h
    requires AllocStep(h[loc := Extent(h[loc].to, false)], base, h[loc].to - loc, 0, r, h')
    ensures r.Some? && r.value in h && r.value <= loc && h[r.value].to - r.value == h[loc].to - loc
    ensures h'.Keys == h.Keys && h'[r.value].used
    ensures (forall b :: b in h && b < loc && h[b].to - b == h[loc].to - loc ==> h[b].used) ==> r == Some(loc) && h' == h[loc := Extent(h[loc].to, true)]
  {
    hide Safe, IsNextFree, Aligned;
    var free := h[loc := Extent(h[loc].to, false)];
    BlockInside(h, base, limit, loc);
    NoAlignment(loc);
    assert Fits(free, loc, h[loc].to - loc, 0);
    assert ReuseStep(free, h[loc].to - loc, 0, r.value, h');
    assert h'.Keys == h.Keys;
  }

  lemma NoAlignment(a: nat)
    ensures Aligned(a, 0)
  {
  }

  lemma AllocFailureKeeps(h: Blocks, base: nat, size: nat, tag: nat, r: Option<nat>, h': Blocks)
    requires AllocStep(h, base, size, tag, r, h')
    ensures r.None? ==> h' == h
    ensures r.Some? ==> AllocStep(h, base, size, tag, Some(r.value), h')
  {
  }

  lemma BlockInside(h: Blocks, base: nat, limit: nat, a: nat)
    requires Safe(h, base, limit) && a in h
    ensures 0 < base <= a < h[a].to <= limit
  {
  }

  /** Why a request must be positive: a new block of no bytes does not move the top, so the next new block gets its address too. */
  lemma EmptyBlockIsHandedOutTwice(h: Blocks, base: nat, limit: nat, tag: nat, a: nat, h': Blocks)
    requires Safe(h, base, limit) && GrowStep(h, base, 0, tag, a, h')
    ensures a in h' && h'[a].used && IsNextFree(h', base, tag, a)
  {
    GrowIsAbove(h, base, tag, a);
    assert IsTop(h', base, a) by {
      assert h'[a].to == a;
    }
  }

  // ----- alignment masks -----

  function Pow2(k: nat): (p: nat)
    ensures p > 0
  {
    if k == 0 then 1 else 2 * Pow2(k - 1)
  }

  /** Masking with 2^k - 1 is taking the remainder, so such a tag asks for a multiple of 2^k. */
  lemma {:induction false} MaskIsRemainder(a: nat, k: nat)
    ensures BitAnd(a, Pow2(k) - 1) == a % Pow2(k)
    ensures Aligned(a, Pow2(k) - 1) <==> a % Pow2(k) == 0
  {
    if k > 0 && a > 0 {
      var p := Pow2(k - 1);
      MaskIsRemainder(a / 2, k - 1);
      assert (Pow2(k) - 1) % 2 == 1 && (Pow2(k) - 1) / 2 == p - 1;
      HalfRemainder(a, p);
    }
  }

  lemma HalfRemainder(a: nat, p: nat)
    requires p > 0
    ensures a % (2 * p) == a % 2 + 2 * ((a / 2) % p)
  {
    var q, r := (a / 2) / p, (a / 2) % p;
    assert a == (2 * p) * q + (a % 2 + 2 * r) by {
      assert a / 2 == p * q + r;
      assert a == 2 * (a / 2) + a % 2;
    }
    RemainderUnique(a, 2 * p, q, a % 2 + 2 * r);
  }

  lemma RemainderUnique(a: nat, m: nat, q: nat, r: nat)
    requires m > 0 && a == m * q + r && r < m
    ensures a % m == r && a / m == q
  {
    var e := a / m - q;
    assert m * e == r - a % m;
    SmallMultiple(m, e);
  }

  lemma SmallMultiple(m: int, e: int)
    requires -m < m * e < m
    ensures e == 0
  {
  }

  /** A multiple of 2^k lies among any 2^k addresses in a row. */
  lemma MultipleNear(top: nat, p: nat) returns (a: nat)
    requires p > 0
    ensures top <= a < top + p && a % p == 0
  {
    var r := top % p;
    if r == 0 {
      a := top;
    } else {
      a := top - r + p;
      RemainderUnique(a, p, top / p + 1, 0) by {
        assert top == p * (top / p) + r;
        assert p * (top / p + 1) == p * (top / p) + p;
      }
    }
  }

  /** For tags 2^k - 1 the alignment loop ends within 2^k addresses, so that much room above the top is enough for every request. */
  lemma AlignmentIsNear(h: Blocks, base: nat, k: nat, top: nat, a: nat)
    requires IsTop(h, base, top) && IsNextFree(h, base, Pow2(k) - 1, a)
    ensures top <= a < top + Pow2(k)
  {
    var m := MultipleNear(top, Pow2(k));
    MaskIsRemainder(m, k);
    TopUnique(h, base, top, a, Pow2(k) - 1);
  }

  lemma TopUnique(h: Blocks, base: nat, top: nat, a: nat, tag: nat)
    requires IsTop(h, base, top) && IsNextFree(h, base, tag, a)
    ensures top <= a && forall b: nat :: top <= b < a ==> !Aligned(b, tag)
  {
  }

  lemma RoomForAligned(h: Blocks, base: nat, limit: nat, size: nat, k: nat, top: nat)
    requires IsTop(h, base, top) && top + Pow2(k) - 1 + size <= limit
    ensures RoomAbove(h, base, limit, size, Pow2(k) - 1)
  {
    var m := MultipleNear(top, Pow2(k));
    MaskIsRemainder(m, k);
  }
}

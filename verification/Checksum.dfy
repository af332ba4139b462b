/**
  The Internet checksum. `OcSum` is the ones' complement sum of RFC 1071 section 1, one end-around carry
  per word; the kernel instead adds everything up in 32 bits and folds twice, sometimes in the other byte order.
 */
module Checksum {
  import opened Common

  /** switch_endian16 */
  function Swap16(nb: word16): (r: word16)
    ensures r % 256 == nb / 256 && r / 256 == nb % 256
  {
    nb / 256 + (nb % 256) * 256
  }

  /** switch_endian32 */
  function Swap32(num: word32): word32
  {
    num / 0x100_0000 + (num / 0x1_0000) % 256 * 0x100 + (num / 0x100) % 256 * 0x1_0000 + num % 256 * 0x100_0000
  }

  /** Number of 16-bit words in `b`, counting a last single byte as one. */
  function WordCount(b: seq<byte>): nat
  {
    (|b| + 1) / 2
  }

  /** Word `i` in network order; a last single byte is padded with zero. */
  function WordBE(b: seq<byte>, i: nat): word16
    requires 2 * i < |b|
  {
    b[2 * i] as int * 256 + if 2 * i + 1 < |b| then b[2 * i + 1] as int else 0
  }

  /** Word `i` as the processor loads it. */
  function WordLE(b: seq<byte>, i: nat): word16
    requires 2 * i < |b|
  {
    b[2 * i] as int + if 2 * i + 1 < |b| then b[2 * i + 1] as int * 256 else 0
  }

  function SumBE(b: seq<byte>, n: nat): nat
    requires n <= WordCount(b)
  {
    if n == 0 then 0 else SumBE(b, n - 1) + WordBE(b, n - 1)
  }

  function SumLE(b: seq<byte>, n: nat): nat
    requires n <= WordCount(b)
  {
    if n == 0 then 0 else SumLE(b, n - 1) + WordLE(b, n - 1)
  }

  function OcAdd(a: word16, b: word16): word16
  {
    if a + b > 0xffff then a + b - 0xffff else a + b
  }

  /** RFC 1071: the ones' complement sum of the first `n` words. */
  function OcSum(b: seq<byte>, n: nat): word16
    requires n <= WordCount(b)
  {
    if n == 0 then 0 else OcAdd(OcSum(b, n - 1), WordBE(b, n - 1))
  }

  /** The checksum of data whose checksum field is zero. */
  function InternetChecksum(b: seq<byte>): word16
  {
    0xffff - OcSum(b, WordCount(b))
  }

  /** A last single byte counts as the upper half of a word. */
  lemma SmallChecksums(x: byte, y: byte, z: byte)
    ensures InternetChecksum([]) == 0xffff
    ensures InternetChecksum([x]) == 0xffff - x as int * 256
    ensures InternetChecksum([x, y]) == 0xffff - (x as int * 256 + y as int)
    ensures InternetChecksum([x, y, z]) == 0xffff - OcAdd(x as int * 256 + y as int, z as int * 256)
  {
    assert OcSum([x], 0) == 0 && OcSum([x, y], 0) == 0 && OcSum([x, y, z], 0) == 0;
    assert OcSum([x, y, z], 1) == x as int * 256 + y as int;
  }

  /** The receiver's test. */
  predicate Verifies(b: seq<byte>)
  {
    OcSum(b, WordCount(b)) == 0xffff
  }

  // ----- residues modulo 65535, with 65535 rather than 0 for positive sums -----

  function Norm(x: nat): (r: word16)
    ensures r == 0 <==> x == 0
  {
    if x == 0 then 0 else (x - 1) % 0xffff + 1
  }

  lemma NormOf(x: nat, r: word16, k: int)
    requires x == r + 0xffff * k && (r == 0 <==> x == 0)
    ensures Norm(x) == r
  {
  }

  lemma NormQuotient(x: nat) returns (k: nat)
    ensures x == Norm(x) + 0xffff * k
  {
    k := if x == 0 then 0 else (x - 1) / 0xffff;
  }

  lemma NormCongruent(x: nat, y: nat, k: int)
    requires x == y + 0xffff * k && (x == 0 <==> y == 0)
    ensures Norm(x) == Norm(y)
  {
  }

  lemma NormAdd(x: nat, y: nat)
    ensures Norm(Norm(x) + y) == Norm(x + y)
  {
    var k := NormQuotient(x);
    NormCongruent(x + y, Norm(x) + y, k);
  }

  /** The end-around carry computes the residue of the plain sum. */
  lemma {:induction false} OcSumIsNorm(b: seq<byte>, n: nat)
    requires n <= WordCount(b)
    ensures OcSum(b, n) == Norm(SumBE(b, n))
  {
    if n > 0 {
      OcSumIsNorm(b, n - 1);
      var s, w := SumBE(b, n - 1), WordBE(b, n - 1);
      var k := NormQuotient(s);
      NormOf(s + w, OcAdd(Norm(s), w), if Norm(s) + w > 0xffff then k + 1 else k);
    }
  }

  /** Two folds of a 32-bit sum, then truncation to 16 bits. */
  function FoldTwice(x: word32): word16
  {
    var once := x % 0x1_0000 + x / 0x1_0000;
    (once + once / 0x1_0000) % 0x1_0000
  }

  /** Two folds suffice for every 32-bit sum. */
  lemma TwoFoldsSuffice(x: word32)
    ensures FoldTwice(x) == Norm(x)
  {
    var hi, lo := x / 0x1_0000, x % 0x1_0000;
    var once := lo + hi;
    hide Norm;
    if once < 0x1_0000 {
      NormOf(x, once, hi);
    } else {
      assert once / 0x1_0000 == 1;
      NormOf(x, once - 0xffff, hi + 1);
    }
  }

  lemma {:induction false} SumBounds(b: seq<byte>, n: nat)
    requires n <= WordCount(b)
    ensures SumBE(b, n) <= 0xffff * n && SumLE(b, n) <= 0xffff * n
  {
    if n > 0 {
      SumBounds(b, n - 1);
    }
  }

  /** Adding in the wrong byte order multiplies the sum by 256, modulo 65535. */
  lemma {:induction false} ByteOrderShift(b: seq<byte>, n: nat) returns (k: nat)
    requires n <= WordCount(b)
    ensures 256 * SumLE(b, n) == SumBE(b, n) + 0xffff * k
    ensures SumLE(b, n) == 0 <==> SumBE(b, n) == 0
  {
    if n == 0 {
      k := 0;
    } else {
      k := ByteOrderShift(b, n - 1);
      var i := n - 1;
      k := k + if 2 * i + 1 < |b| then b[2 * i + 1] as int else 0;
    }
  }

  lemma SwapIsShift(r: word16)
    ensures 256 * r == Swap16(r) + 0xffff * (r / 256)
    ensures Swap16(r) == 0 <==> r == 0
  {
  }

  /** RFC 1071 section 2 (B): the sum taken in the other byte order is the swapped sum. */
  lemma ByteOrderIndependent(b: seq<byte>, n: nat)
    requires n <= WordCount(b)
    ensures Swap16(Norm(SumLE(b, n))) == Norm(SumBE(b, n))
  {
    hide Norm, Swap16;
    var le, be := SumLE(b, n), SumBE(b, n);
    var k := ByteOrderShift(b, n);
    var j := NormQuotient(le);
    var r: int := Norm(le);
    SwapIsShift(r);
    assert 256 * le == 256 * r + 0xffff * (256 * j);
    NormOf(be, Swap16(r), r / 256 + 256 * j - k);
  }

  lemma {:induction false} SumConcat(a: seq<byte>, b: seq<byte>, n: nat)
    requires |a| % 2 == 0 && n <= WordCount(b)
    ensures WordCount(a + b) == WordCount(a) + WordCount(b)
    ensures SumBE(a + b, |a| / 2 + n) == SumBE(a, |a| / 2) + SumBE(b, n)
  {
    if n == 0 {
      SumOfPrefix(a, b, |a| / 2);
    } else {
      SumConcat(a, b, n - 1);
      assert WordBE(a + b, |a| / 2 + n - 1) == WordBE(b, n - 1);
    }
  }

  lemma {:induction false} SumOfPrefix(a: seq<byte>, b: seq<byte>, n: nat)
    requires |a| % 2 == 0 && n <= |a| / 2
    ensures SumBE(a + b, n) == SumBE(a, n)
  {
    if n > 0 {
      SumOfPrefix(a, b, n - 1);
    }
  }

  /** Changing one whole word changes the sum by the difference. */
  lemma {:induction false} SumWithWord(b: seq<byte>, b': seq<byte>, i: nat, n: nat)
    requires |b| == |b'| && 2 * i + 1 < |b| && n <= WordCount(b)
    requires forall j :: 0 <= j < |b| && j != 2 * i && j != 2 * i + 1 ==> b'[j] == b[j]
    ensures SumBE(b', n) == SumBE(b, n) + if i < n then WordBE(b', i) - WordBE(b, i) else 0
  {
    if n > 0 {
      SumWithWord(b, b', i, n - 1);
    }
  }

  /** Data verifies once its zeroed checksum field is replaced by the checksum (RFC 1071 section 1). */
  lemma FilledChecksumVerifies(b: seq<byte>, b': seq<byte>, i: nat)
    requires |b| == |b'| && 2 * i + 1 < |b|
    requires forall j :: 0 <= j < |b| && j != 2 * i && j != 2 * i + 1 ==> b'[j] == b[j]
    requires WordBE(b, i) == 0 && WordBE(b', i) == InternetChecksum(b)
    ensures Verifies(b')
  {
    var n := WordCount(b);
    SumWithWord(b, b', i, n);
    OcSumIsNorm(b, n);
    OcSumIsNorm(b', n);
    var k := NormQuotient(SumBE(b, n));
    NormOf(SumBE(b', n), 0xffff, k);
  }

  /** The accumulation loop of net_checksum: words in memory order, nothing overflows 32 bits. */
  method AddWords(data: seq<byte>) returns (checksum: word32)
    requires |data| <= 0x2_0000
    ensures checksum == SumLE(data, WordCount(data))
  {
    checksum := 0;
    var len := |data|;
    var p := 0;
    while len > 1
      invariant 0 <= len && len + 2 * p == |data|
      invariant checksum == SumLE(data, p)
    {
      SumBounds(data, p + 1);
      checksum := checksum + WordLE(data, p);
      p := p + 1;
      len := len - 2;
    }
    if len != 0 {
      SumBounds(data, p + 1);
      checksum := checksum + data[2 * p] as int;
    }
  }

  /** net_checksum: adds words in memory order, folds twice, complements, swaps. */
  method NetChecksum(data: seq<byte>) returns (r: word16)
    requires |data| <= 0x2_0000
    ensures r == InternetChecksum(data)
  {
    hide Norm, Swap16, SumBE, OcSum, SumLE;
    var checksum := AddWords(data);
    ghost var total := checksum;
    FoldedBound(total);
    checksum := checksum % 0x1_0000 + checksum / 0x1_0000;
    checksum := checksum + checksum / 0x1_0000;
    var final: word16 := 0xffff - checksum % 0x1_0000;
    r := Swap16(final);
    assert checksum % 0x1_0000 == FoldTwice(total);
    FoldedChecksum(data, FoldTwice(total));
  }

  lemma FoldedBound(x: word32)
    ensures var once := x % 0x1_0000 + x / 0x1_0000; once + once / 0x1_0000 <= 0x1_ffff
  {
  }

  lemma FoldedChecksum(data: seq<byte>, folded: word16)
    requires |data| <= 0x2_0000 && SumLE(data, WordCount(data)) < TWO32
    requires folded == FoldTwice(SumLE(data, WordCount(data)))
    ensures Swap16(0xffff - folded) == InternetChecksum(data)
  {
    hide Norm, Swap16, SumBE, OcSum, SumLE, FoldTwice;
    TwoFoldsSuffice(SumLE(data, WordCount(data)));
    ByteOrderIndependent(data, WordCount(data));
    OcSumIsNorm(data, WordCount(data));
    SwapOfComplement(folded);
  }

  lemma SwapOfComplement(x: word16)
    ensures Swap16(0xffff - x) == 0xffff - Swap16(x)
  {
    var high, low := x / 256, x % 256;
    assert x == high * 256 + low;
    TwoDigits(0xffff - x, 255 - high, 255 - low);
  }

  lemma TwoDigits(x: word16, high: nat, low: nat)
    requires x == high * 256 + low && low < 256
    ensures x / 256 == high && x % 256 == low
  {
  }
}

/** Machine types and small helpers shared by the kernel models. */
module Common {

  const TWO16: int := 0x1_0000
  const TWO32: int := 0x1_0000_0000

  newtype byte = x: int | 0 <= x < 256

  type word16 = x: int | 0 <= x < 0x1_0000

  type word32 = x: int | 0 <= x < 0x1_0000_0000

  datatype Option<+T> = None | Some(value: T)

  /** A range of `ram` holds only zero bytes. */
  ghost predicate Zeroed(ram: seq<byte>, from: nat, to: nat)
  {
    forall i :: from <= i < to && i < |ram| ==> ram[i] == 0
  }

  /** `after` differs from `before` at most inside [from, to). */
  ghost predicate SameOutside(before: seq<byte>, after: seq<byte>, from: nat, to: nat)
  {
    && |before| == |after|
    && forall i :: 0 <= i < |before| && !(from <= i < to) ==> after[i] == before[i]
  }

  /** The 16-bit value the processor loads from `off`. */
  function Load16(b: seq<byte>, off: nat): word16
    requires off + 2 <= |b|
  {
    b[off] as int + b[off + 1] as int * 0x100
  }

  /** The 32-bit value the processor loads from `off`. */
  function Load32(b: seq<byte>, off: nat): word32
    requires off + 4 <= |b|
  {
    b[off] as int + b[off + 1] as int * 0x100 + b[off + 2] as int * 0x1_0000 + b[off + 3] as int * 0x100_0000
  }

  /** A 32-bit value is the sum of its shifted bytes. */
  lemma Bytes32(x: word32)
    ensures x == x % 256 + x / 0x100 % 256 * 0x100 + x / 0x1_0000 % 256 * 0x1_0000 + x / 0x100_0000 * 0x100_0000
  {
    var a := x / 0x100;
    var c := a / 0x100;
    var d := c / 0x100;
    assert c == x / 0x1_0000 && d == x / 0x100_0000;
  }
}

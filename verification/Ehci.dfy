/** The transfer-descriptor chain that ehci_recieve_bulk of kernel/dev/ehci.c builds for one bulk request. */
module Ehci {
  import opened Common

  const CHUNK: nat := 512 // bytesperkeer

  /** A link field: zero, the terminator bit, or the address of a descriptor. */
  datatype Link = Zero | Terminate | To(td: EhciTD)

  class EhciTD {
    var nextlink: Link
    var altlink: Link
    var token: nat
    var buffer: nat

    /** A descriptor as malloc_align returns it: all zero. */
    constructor ()
      ensures nextlink == Zero && altlink == Zero && token == 0 && buffer == 0
    {
      nextlink, altlink, token, buffer := Zero, Zero, 0, 0;
    }

    method Fill(n: nat, address: nat)
      requires token == 0
      modifies this
      ensures nextlink == old(nextlink) && altlink == Terminate && token == Token(n) && buffer == address % TWO32
    {
      altlink := Terminate;
      token := token + n * 0x1_0000;
      token := token + 0x8000_0000;
      token := token + 0x80;
      token := token + 0x100;
      token := token + 0xc00;
      buffer := address % TWO32;
    }
  }

  /** The token of a descriptor for `n` bytes: toggle (bit 31), length (bits 16 to 30), error count 3 (bits 10, 11), IN (bit 8), active (bit 7). The fields do not overlap, so setting them one by one adds them up. */
  function Token(n: nat): nat
  {
    n * 0x1_0000 + 0x8000_0000 + 0x80 + 0x100 + 0xc00
  }

  /** The length field of a token. */
  function TokenLength(token: nat): nat
  {
    token / 0x1_0000 % 0x8000
  }

  lemma TokenHoldsLength(n: nat)
    requires n < 0x8000
    ensures TokenLength(Token(n)) == n && Token(n) < TWO32
  {
  }

  /** The other fields: toggle set, three errors allowed, an IN token, active, and nothing else. */
  lemma TokenBits(n: nat)
    requires n < 0x8000
    ensures var t := Token(n);
            && t / 0x1_0000 == 0x8000 + n // bit 31 above the length
            && t % 0x1_0000 == 0x0d80     // bits 7, 8, 10 and 11
  {
  }

  /** Number of descriptors for a request of `n` bytes. */
  function ChainLength(n: nat): nat
  {
    if n == 0 then 1 else (n + CHUNK - 1) / CHUNK
  }

  /** Bytes that descriptor `i` receives. */
  function PieceLength(n: nat, i: nat): nat
  {
    if (i + 1) * CHUNK <= n then CHUNK else if i * CHUNK <= n then n - i * CHUNK else 0
  }

  /** The address descriptor `i` receives into; the position is counted in eight bits. */
  function PieceAddress(buffer: nat, i: nat): nat
  {
    (buffer + i % 256 * CHUNK) % TWO32
  }

  /** `chain` is linked up to its last descriptor, and all but the last are complete. */
  ghost predicate Linked(chain: seq<EhciTD>, n: nat, buffer: nat)
    reads chain
  {
    && (forall i, j :: 0 <= i < j < |chain| ==> chain[i] != chain[j])
    && (forall i :: 0 <= i < |chain| - 1 ==> Piece(chain[i], n, buffer, i) && chain[i].nextlink == To(chain[i + 1]))
  }

  /** `chain` is the linked list of all pieces of a request. */
  ghost predicate IsChain(chain: seq<EhciTD>, n: nat, buffer: nat)
    reads chain
  {
    && |chain| == ChainLength(n) && Linked(chain, n, buffer)
    && Piece(chain[|chain| - 1], n, buffer, |chain| - 1)
    && chain[|chain| - 1].nextlink == Terminate
  }

  ghost predicate Piece(td: EhciTD, n: nat, buffer: nat, i: nat)
    reads td`altlink, td`token, td`buffer
  {
    td.altlink == Terminate && td.token == Token(PieceLength(n, i)) && td.buffer == PieceAddress(buffer, i)
  }

  lemma PieceOf(n: nat, i: nat)
    requires i > 0 ==> i * CHUNK < n
    ensures PieceLength(n, i) == if CHUNK > n then n else if i * CHUNK + CHUNK > n then n - i * CHUNK else CHUNK
    ensures i + 1 == ChainLength(n) <==> i * CHUNK + CHUNK >= n
  {
  }

  /** Fills in descriptor `i` of the request; `wachtend` bytes are already covered. */
  method FillPiece(trans: EhciTD, expectedIN: nat, wachtend: nat, tx: nat, buffer: nat, ghost i: nat, ghost chain: seq<EhciTD>)
    returns (reject: bool, forcestop: bool)
    requires trans.token == 0 && wachtend == i * CHUNK && tx == i % 256 && (i > 0 ==> wachtend < expectedIN)
    requires i + 1 == |chain| && chain[i] == trans && Linked(chain, expectedIN, buffer)
    modifies trans
    ensures Piece(trans, expectedIN, buffer, i) && Linked(chain, expectedIN, buffer)
    ensures forcestop == (CHUNK > expectedIN) && reject == (!forcestop && wachtend + CHUNK > expectedIN)
  {
    PieceOf(expectedIN, i);
    hide PieceLength, Token;
    reject, forcestop := false, false;
    var twt := CHUNK;
    if CHUNK > expectedIN {
      twt := expectedIN;
      forcestop := true;
    } else if wachtend + CHUNK > expectedIN {
      reject := true;
      twt := expectedIN - wachtend;
    }
    trans.Fill(twt, buffer + tx * CHUNK);
  }

  /** Allocates the next descriptor and links it behind the last one. */
  method Append(trans: EhciTD, ghost chain: seq<EhciTD>, ghost n: nat, ghost buffer: nat) returns (yo: EhciTD)
    requires |chain| >= 1 && chain[|chain| - 1] == trans && Linked(chain, n, buffer) && Piece(trans, n, buffer, |chain| - 1)
    modifies trans`nextlink
    ensures fresh(yo) && yo.token == 0 && Linked(chain + [yo], n, buffer)
  {
    hide Piece;
    yo := new EhciTD();
    trans.nextlink := To(yo);
  }

  lemma OneIsLinked(trans: EhciTD, n: nat, buffer: nat)
    ensures Linked([trans], n, buffer)
  {
  }

  /** Ends the chain behind its last descriptor. */
  method Close(trans: EhciTD, ghost chain: seq<EhciTD>, ghost n: nat, ghost buffer: nat)
    requires |chain| >= 1 && chain[|chain| - 1] == trans && Linked(chain, n, buffer) && Piece(trans, n, buffer, |chain| - 1)
    modifies trans`nextlink
    ensures Linked(chain, n, buffer) && Piece(trans, n, buffer, |chain| - 1) && trans.nextlink == Terminate
  {
    hide Piece;
    trans.nextlink := Terminate;
  }

  /** The loop ends for every request whose byte counter does not overflow, with exactly the chain for it. */
  method BuildReceiveChain(expectedIN: nat, buffer: nat) returns (trans1: EhciTD, trans: EhciTD, ghost chain: seq<EhciTD>)
    requires expectedIN <= 0xffff_fe00 && buffer < TWO32
    ensures IsChain(chain, expectedIN, buffer)
    ensures forall td :: td in chain ==> fresh(td)
    ensures trans1 == chain[0] && trans == chain[|chain| - 1]
  {
    hide Piece, PieceLength, ChainLength, Linked;
    var wachtend, tx := 0, 0;
    trans := new EhciTD();
    trans1 := trans;
    chain := [trans];
    OneIsLinked(trans, expectedIN, buffer);
    while true
      invariant |chain| >= 1 && trans1 == chain[0] && trans == chain[|chain| - 1]
      invariant wachtend == (|chain| - 1) * CHUNK && tx == (|chain| - 1) % 256
      invariant |chain| > 1 ==> wachtend < expectedIN
      invariant fresh(trans) && forall td :: td in chain ==> fresh(td)
      invariant Linked(chain, expectedIN, buffer)
      invariant trans.token == 0
      decreases expectedIN + CHUNK - wachtend
    {
      PieceOf(expectedIN, |chain| - 1);
      var reject, forcestop := FillPiece(trans, expectedIN, wachtend, tx, buffer, |chain| - 1, chain);
      wachtend := wachtend + CHUNK;
      tx := (tx + 1) % 256;
      if wachtend > expectedIN && reject {
        break;
      } else if wachtend == expectedIN {
        break;
      } else if forcestop {
        break;
      }
      var yo := Append(trans, chain, expectedIN, buffer);
      trans := yo;
      chain := chain + [yo];
    }
    Close(trans, chain, expectedIN, buffer);
  }

  // ----- what a chain means for the request -----

  function Received(n: nat, k: nat): nat
  {
    if k == 0 then 0 else Received(n, k - 1) + PieceLength(n, k - 1)
  }

  lemma {:induction false} ReceivedSoFar(n: nat, k: nat)
    requires k <= ChainLength(n)
    ensures Received(n, k) == if k * CHUNK <= n then k * CHUNK else n
  {
    if k > 0 {
      ReceivedSoFar(n, k - 1);
    }
  }

  /** The lengths of all pieces add up to the request, and only the last may be shorter than 512 bytes. */
  lemma PiecesCoverRequest(n: nat)
    ensures Received(n, ChainLength(n)) == n
    ensures forall i :: 0 <= i < ChainLength(n) - 1 ==> PieceLength(n, i) == CHUNK
    ensures n > 0 ==> PieceLength(n, ChainLength(n) - 1) > 0
  {
    ReceivedSoFar(n, ChainLength(n));
  }

  /** Piece `i` starts where the pieces before it end, as an address. */
  ghost predicate Tiles(n: nat, buffer: nat)
  {
    forall i :: 0 <= i < ChainLength(n) ==> PieceAddress(buffer, i) == (buffer + Received(n, i)) % TWO32
  }

  /** The eight-bit position makes the buffers tile the target without gap or overlap exactly up to 131072 bytes. */
  lemma TilesIff(n: nat, buffer: nat)
    requires n <= 0xffff_fe00
    ensures Tiles(n, buffer) <==> n <= 131072
  {
    if n <= 131072 {
      forall i | 0 <= i < ChainLength(n)
        ensures PieceAddress(buffer, i) == (buffer + Received(n, i)) % TWO32
      {
        ReceivedSoFar(n, i);
      }
    } else {
      ReceivedSoFar(n, 256);
      assert PieceAddress(buffer, 256) == buffer % TWO32;
      assert (buffer + 131072) % TWO32 != buffer % TWO32;
      assert !Tiles(n, buffer);
    }
  }
}

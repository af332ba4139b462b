/** How sequence and acknowledgment numbers develop over a run of TCP segments. */
module NetworkRuns {
  import opened Common
  import opened Packets
  import opened Network

  // ----- the stream over runs -----

  /**
    What happens on a connection: the application sends `size` bytes, a connection is opened, or a segment arrives
    with the given header fields and `behind` bytes after the first TCP_END bytes of its frame.
   */
  datatype Event =
    | Sent(size: nat)
    | Opened
    | Received(seqField: word32, ackField: word32, flags: word16, behind: nat)

  /** The acknowledge value that answers a received segment. */
  function AckOf(e: Event): word32
    requires e.Received?
  {
    AckFor(e.seqField, e.flags, TCP_END + e.behind)
  }

  function After(s: Stream, e: Event): Stream
  {
    match e
    case Sent(size) => Numbers(s, size, 0x1010, 0x1010, TCP_PUS + TCP_ACK).0
    case Opened => Numbers(s, 0, 1, 0, TCP_SYN).0
    case Received(_, ackField, flags, _) =>
      if IsHandled(flags) then Numbers(s, 0, ackField, AckOf(e), TCP_ACK).0 else s
  }

  function Play(s: Stream, es: seq<Event>): Stream
  {
    if es == [] then s else After(Play(s, es[..|es| - 1]), es[|es| - 1])
  }

  /** Sequence and acknowledgment number of a send of `size` bytes. */
  function NumbersOfSend(s: Stream, size: nat): (word32, word32)
  {
    var (_, seqno, ackno) := Numbers(s, size, 0x1010, 0x1010, TCP_PUS + TCP_ACK);
    (seqno, ackno)
  }

  function SentBytes(es: seq<Event>): nat
  {
    if es == [] then 0
    else SentBytes(es[..|es| - 1]) + if es[|es| - 1].Sent? then es[|es| - 1].size else 0
  }

  predicate Handled(e: Event)
  {
    e.Received? && IsHandled(e.flags)
  }

  /** A handled segment whose numbers are not both the value that stands for the stored ones. */
  predicate Recorded(e: Event)
  {
    Handled(e) && !(e.ackField == 0x1010 && AckOf(e) == 0x1010)
  }

  predicate Quiet(es: seq<Event>)
  {
    forall i :: 0 <= i < |es| ==> !Recorded(es[i])
  }

  lemma ModAdd(a: nat, b: nat)
    ensures (a % TWO32 + b) % TWO32 == (a + b) % TWO32
  {
  }

  /** Sends advance the stream by what they send; openings and segments that are not recorded leave it alone. */
  lemma {:induction false} QuietRunsOnlySend(s: Stream, es: seq<Event>)
    requires Quiet(es)
    ensures Play(s, es) == Stream((s.x + SentBytes(es)) % TWO32, s.y)
  {
    if es != [] {
      var n := |es| - 1;
      QuietRunsOnlySend(s, es[..n]);
      ModAdd(s.x + SentBytes(es[..n]), if es[n].Sent? then es[n].size else 0);
    }
  }

  lemma {:induction false} PlayOn(s: Stream, e: Event, es: seq<Event>)
    ensures Play(s, [e] + es) == Play(After(s, e), es)
  {
    hide After;
    var all := [e] + es;
    if es == [] {
      assert all[..0] == [] && all[0] == e;
      assert Play(s, []) == s;
    } else {
      PlayOn(s, e, es[..|es| - 1]);
      assert all[..|all| - 1] == [e] + es[..|es| - 1];
    }
  }

  /**
    After a recorded segment, and until the next, sends are back to back whatever else happens: the first starts at
    the segment's acknowledgment number, each next one where the one before ended, modulo 2^32, and all carry the
    acknowledge value computed for the segment (RFC 9293 section 3.4).
   */
  lemma SendsAreBackToBack(s: Stream, e: Event, es: seq<Event>, size: nat)
    requires Recorded(e) && Quiet(es)
    ensures var now := Play(s, [e] + es);
            && NumbersOfSend(now, size) == ((e.ackField + SentBytes(es)) % TWO32, AckOf(e))
            && forall next: nat :: NumbersOfSend(After(now, Sent(size)), next) == ((NumbersOfSend(now, size).0 + size) % TWO32, AckOf(e))
  {
    PlayOn(s, e, es);
    QuietRunsOnlySend(After(s, e), es);
    assert HasFlag(TCP_ACK, TCP_ACK);
  }

  /**
    A handled segment that bears the value standing for the stored numbers is lost: the sends after it carry its
    numbers exactly if it was recorded, or the stream held these numbers already.
   */
  lemma SendsFollowSegmentIff(s: Stream, e: Event, es: seq<Event>, size: nat)
    requires Handled(e) && Quiet(es)
    ensures NumbersOfSend(Play(s, [e] + es), size) == ((e.ackField + SentBytes(es)) % TWO32, AckOf(e)) <==>
            Recorded(e) || s == Stream(0x1010, 0x1010)
  {
    if Recorded(e) {
      SendsAreBackToBack(s, e, es, size);
    } else {
      PlayOn(s, e, es);
      QuietRunsOnlySend(After(s, e), es);
      assert After(s, e) == s;
      SameShift(s.x, e.ackField, SentBytes(es));
    }
  }

  lemma SameShift(a: word32, b: word32, n: nat)
    ensures (a + n) % TWO32 == (b + n) % TWO32 <==> a == b
  {
  }

  // ----- how much of a segment the reply acknowledges -----

  /** A TCP segment under an IPv4 header without options, in a frame that may be padded. */
  predicate WellFormedSegment(p: seq<byte>)
  {
    && TCP_END <= |p| <= ETHERNET_HEADER + 0xffff
    && p[14] == 0x45 && p[46] as int / 16 >= 5
    && 20 + 4 * (p[46] as int / 16) <= Net16(p, 16) <= |p| - ETHERNET_HEADER
  }

  /** Data bytes of a segment: IP total length without the two headers (RFC 9293 section 3.1). */
  function DataLength(p: seq<byte>): nat
    requires WellFormedSegment(p)
  {
    Net16(p, 16) - 20 - 4 * (p[46] as int / 16)
  }

  /** How many of SYN and FIN are set; each takes one sequence number. */
  function ControlLength(flags: word16): nat
  {
    (if HasFlag(flags, TCP_SYN) then 1 else 0) + (if HasFlag(flags, TCP_FIN) then 1 else 0)
  }

  /** Sequence numbers a segment takes: its data, SYN and FIN (RFC 9293 section 3.4). */
  function SegmentLength(p: seq<byte>): nat
    requires WellFormedSegment(p)
  {
    DataLength(p) + ControlLength(Net16(p, 46))
  }

  /**
    The reply acknowledges exactly the segment if and only if: for a push, there are no TCP options, and as many
    padding bytes as SYN and FIN flags (so none without these flags); otherwise, there is no data and one such flag.
   */
  lemma ReplyAcknowledgesSegmentIff(p: seq<byte>)
    requires WellFormedSegment(p) && IsHandled(Net16(p, 46))
    ensures AckFor(Net32(p, 38), Net16(p, 46), |p|) == (Net32(p, 38) + SegmentLength(p)) % TWO32 <==>
            if HasFlag(Net16(p, 46), TCP_PUS)
            then p[46] as int / 16 == 5 && |p| - ETHERNET_HEADER - Net16(p, 16) == ControlLength(Net16(p, 46))
            else DataLength(p) == 0 && ControlLength(Net16(p, 46)) == 1
  {
    hide Net32;
    var flags := Net16(p, 46);
    var acknowledged := if HasFlag(flags, TCP_PUS) then |p| - TCP_END else 1;
    DistinctShifts(Net32(p, 38), acknowledged, SegmentLength(p));
  }

  lemma DistinctShifts(a: word32, m: nat, n: nat)
    requires m < TWO32 && n < TWO32
    ensures (a + m) % TWO32 == (a + n) % TWO32 <==> m == n
  {
  }

  /** A push of 100 bytes with twelve bytes of TCP options: the reply acknowledges 112. */
  lemma OptionsAreAcknowledgedAsData() returns (p: seq<byte>)
    ensures WellFormedSegment(p) && IsHandled(Net16(p, 46)) && HasFlag(Net16(p, 46), TCP_PUS)
    ensures SegmentLength(p) == 100 && AckFor(Net32(p, 38), Net16(p, 46), |p|) == (Net32(p, 38) + 112) % TWO32
  {
    p := seq(166, i => if i == 14 then 0x45 else if i == 17 then 152 else if i == 46 then 0x80 else if i == 47 then 0x18 else 0);
    assert Net16(p, 16) == 152 && Net16(p, 46) == 0x8018;
  }

  /** A push of one byte in a frame padded to the Ethernet minimum of 60 bytes: the reply acknowledges six. */
  lemma PaddingIsAcknowledgedAsData() returns (p: seq<byte>)
    ensures |p| == 60 && WellFormedSegment(p) && IsHandled(Net16(p, 46)) && HasFlag(Net16(p, 46), TCP_PUS)
    ensures SegmentLength(p) == 1 && AckFor(Net32(p, 38), Net16(p, 46), |p|) == (Net32(p, 38) + 6) % TWO32
  {
    p := seq(60, i => if i == 14 then 0x45 else if i == 17 then 41 else if i == 46 then 0x50 else if i == 47 then 0x18 else 0);
    assert Net16(p, 16) == 41 && Net16(p, 46) == 0x5018;
  }
}

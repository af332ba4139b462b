/** Byte layout of the packets of kernel/dev/ethernet.c, and the values a correct header must hold. */
module Packets {
  import opened Common
  import opened Checksum

  const ETHERNET_HEADER: nat := 14
  const IPV4_END: nat := 34       // sizeof(struct IPv4Header)
  const TCP_END: nat := 54        // sizeof(struct TCPHeader)
  const IPV4_TYPE_TCP: byte := 0x06
  const IPV4_TYPE_ICMP: byte := 0x01

  /** Big-endian 16-bit value at `off`. */
  function Net16(b: seq<byte>, off: nat): word16
    requires off + 2 <= |b|
  {
    b[off] as int * 256 + b[off + 1] as int
  }

  /** Big-endian 32-bit value at `off`. */
  function Net32(b: seq<byte>, off: nat): word32
    requires off + 4 <= |b|
  {
    b[off] as int * 0x100_0000 + b[off + 1] as int * 0x1_0000 + b[off + 2] as int * 0x100 + b[off + 3] as int
  }

  /** The four bytes of a 32-bit value as the processor stores it. */
  function Native32(x: word32): (b: seq<byte>)
    ensures |b| == 4
  {
    [(x % 256) as byte, (x / 0x100 % 256) as byte, (x / 0x1_0000 % 256) as byte, (x / 0x100_0000) as byte]
  }

  function Native16(x: word16): (b: seq<byte>)
    ensures |b| == 2
  {
    [(x % 256) as byte, (x / 256) as byte]
  }

  lemma NativeOfSwapped16(x: word16)
    ensures Net16(Native16(Swap16(x)), 0) == x
    ensures Native16(x)[0] as int * 256 + Native16(x)[1] as int == Swap16(x)
  {
  }

  /** Storing and loading: the bytes of a stored value give it back. */
  lemma NativeOfSwapped32(x: word32)
    ensures Net32(Native32(Swap32(x)), 0) == x
    ensures Load32(Native32(x), 0) == x
  {
    Bytes32(x);
    var b0, b1, b2, b3 := x % 256, x / 0x100 % 256, x / 0x1_0000 % 256, x / 0x100_0000;
    ComposedBytes(b3, b2, b1, b0);
    assert Swap32(x) == b3 + b2 * 0x100 + b1 * 0x1_0000 + b0 * 0x100_0000;
  }

  lemma ComposedBytes(b0: nat, b1: nat, b2: nat, b3: nat)
    requires b0 < 256 && b1 < 256 && b2 < 256 && b3 < 256
    ensures var y := b0 + b1 * 0x100 + b2 * 0x1_0000 + b3 * 0x100_0000;
            y % 256 == b0 && y / 0x100 % 256 == b1 && y / 0x1_0000 % 256 == b2 && y / 0x100_0000 == b3
  {
    var y := b0 + b1 * 0x100 + b2 * 0x1_0000 + b3 * 0x100_0000;
    assert y / 0x100 == b1 + b2 * 0x100 + b3 * 0x1_0000;
    assert y / 0x1_0000 == b2 + b3 * 0x100;
    assert y / 0x100_0000 == b3;
  }

  /** An IPv4 header without options that verifies (RFC 791 section 3.1). */
  ghost predicate Ipv4Header(h: seq<byte>, length: word16, id: word16, protocol: byte, from: word32, to: word32)
  {
    && |h| == 20
    && h[0] == 0x45 && h[1] == 0                 // version 4, five words; type of service 0
    && Net16(h, 2) == length && Net16(h, 4) == id
    && Net16(h, 6) == 0x4000                     // don't fragment, offset 0
    && h[8] == 64 && h[9] == protocol
    && h[12..16] == Native32(from) && h[16..20] == Native32(to)
    && Verifies(h)
  }

  /** The TCP pseudo-header (RFC 9293 section 3.1): addresses, zero, protocol, segment length. */
  function PseudoHeader(from: word32, to: word32, length: word16): (b: seq<byte>)
    ensures |b| == 12
  {
    Native32(from) + Native32(to) + [0, IPV4_TYPE_TCP] + Native16(Swap16(length))
  }

  /** A segment verifies together with its pseudo-header. */
  predicate TcpVerifies(from: word32, to: word32, segment: seq<byte>)
    requires |segment| < TWO16
  {
    Verifies(PseudoHeader(from, to, |segment|) + segment)
  }

  /** The pseudo-header byte by byte; addresses stay in the order they have in memory. */
  lemma PseudoHeaderBytes(from: word32, to: word32, length: word16)
    ensures var b := PseudoHeader(from, to, length);
            && b[..4] == Native32(from) && b[4..8] == Native32(to)
            && b[8] == 0 && b[9] == 6 && b[10] as int == length / 256 && b[11] as int == length % 256
  {
    hide Native32;
    var b, s := PseudoHeader(from, to, length), Native16(Swap16(length));
    assert b[10] == s[0] && b[11] == s[1];
  }

  /**
    A receiver's check of a TCP packet, on its bytes alone: the pseudo-header is made of the two addresses in the IP
    header, the protocol and the length of the segment (RFC 9293 section 3.1).
   */
  predicate PacketVerifies(packet: seq<byte>)
    requires TCP_END <= |packet| < IPV4_END + 0x1_0000
  {
    var n := |packet| - 34;
    Verifies(packet[26..34] + [0, 6, (n / 256) as byte, (n % 256) as byte] + packet[34..])
  }

  lemma ReceiverAgrees(packet: seq<byte>, from: word32, to: word32)
    requires TCP_END <= |packet| < IPV4_END + 0x1_0000
    requires packet[26..30] == Native32(from) && packet[30..34] == Native32(to)
    requires TcpVerifies(from, to, packet[34..])
    ensures PacketVerifies(packet)
  {
    hide Native32, Verifies, PseudoHeader;
    var n := |packet| - 34;
    PseudoHeaderBytes(from, to, n);
    var b := PseudoHeader(from, to, n);
    assert packet[26..34] == packet[26..30] + packet[30..34] == b[..8];
    assert packet[26..34] + [0, 6, (n / 256) as byte, (n % 256) as byte] == b;
  }

  datatype TcpFields = TcpFields(fromPort: word16, toPort: word16, seqno: word32, ackno: word32, offsetFlags: word16, window: word16)

  /** A TCP header with its checksum field zero. */
  function TcpHeaderBytes(t: TcpFields): (b: seq<byte>)
    ensures |b| == 20
  {
    Native16(Swap16(t.fromPort)) + Native16(Swap16(t.toPort)) + Native32(Swap32(t.seqno)) + Native32(Swap32(t.ackno)) +
    Native16(Swap16(t.offsetFlags)) + Native16(Swap16(t.window)) + [0, 0, 0, 0]
  }

  /** The same with checksum `c` in place. */
  function WithChecksum(h: seq<byte>, c: word16): (b: seq<byte>)
    requires |h| >= 20
    ensures |b| == |h|
  {
    h[..16] + Native16(Swap16(c)) + h[18..]
  }
}

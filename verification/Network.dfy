/**
  The sending side of kernel/dev/ethernet.c and the TCP send call of kernel/hal/i386/interrupts.c:
  headers are written into packet buffers in place, and a few globals carry over from packet to packet.
 */
module Network {
  import opened Common
  import opened Checksum
  import opened Packets

  const TCP_FIN: nat := 0x01
  const TCP_SYN: nat := 0x02
  const TCP_PUS: nat := 0x08
  const TCP_ACK: nat := 0x10

  /** `flags & bit` for a single-bit mask. */
  predicate HasFlag(flags: nat, bit: nat)
    requires bit > 0
  {
    flags / bit % 2 == 1
  }

  /** One more word of a prefix sum. */
  lemma NextWord(h: seq<byte>, n: nat)
    requires 2 * n + 2 <= |h|
    ensures SumBE(h, n + 1) == SumBE(h, n) + Net16(h, 2 * n)
  {
  }

  lemma TenWords(h: seq<byte>)
    requires |h| == 20
    ensures SumBE(h, 10) == Net16(h, 0) + Net16(h, 2) + Net16(h, 4) + Net16(h, 6) + Net16(h, 8) +
                            Net16(h, 10) + Net16(h, 12) + Net16(h, 14) + Net16(h, 16) + Net16(h, 18)
  {
    assert SumBE(h, 0) == 0;
    hide SumBE, Net16;
    NextWord(h, 0); NextWord(h, 1); NextWord(h, 2); NextWord(h, 3); NextWord(h, 4);
    NextWord(h, 5); NextWord(h, 6); NextWord(h, 7); NextWord(h, 8); NextWord(h, 9);
  }

  /** The two network-order words of an address are its swapped halves. */
  lemma AddressWords(b: seq<byte>, off: nat, x: word32)
    requires off + 4 <= |b| && b[off..off + 4] == Native32(x)
    ensures Net16(b, off) == Swap16(x % 0x1_0000) && Net16(b, off + 2) == Swap16(x / 0x1_0000)
  {
    var s := b[off..off + 4];
    assert b[off] == s[0] && b[off + 1] == s[1] && b[off + 2] == s[2] && b[off + 3] == s[3];
    Halves(x);
  }

  lemma Halves(x: word32)
    ensures x % 0x1_0000 % 256 == x % 256 && x % 0x1_0000 / 256 == x / 0x100 % 256
    ensures x / 0x1_0000 / 256 == x / 0x100_0000
  {
  }

  method PutNative16(p: array<byte>, off: nat, v: word16)
    requires off + 2 <= p.Length
    modifies p
    ensures p[off] as int == v % 256 && p[off + 1] as int == v / 256
    ensures forall i :: 0 <= i < p.Length && i != off && i != off + 1 ==> p[i] == old(p[i])
  {
    p[off], p[off + 1] := (v % 256) as byte, (v / 256) as byte;
  }

  method PutNative32(p: array<byte>, off: nat, v: word32)
    requires off + 4 <= p.Length
    modifies p
    ensures p[off] == Native32(v)[0] && p[off + 1] == Native32(v)[1] && p[off + 2] == Native32(v)[2] && p[off + 3] == Native32(v)[3]
    ensures forall i :: 0 <= i < p.Length && !(off <= i < off + 4) ==> p[i] == old(p[i])
  {
    p[off], p[off + 1] := (v % 256) as byte, (v / 0x100 % 256) as byte;
    p[off + 2], p[off + 3] := (v / 0x1_0000 % 256) as byte, (v / 0x100_0000) as byte;
  }

  /** The nine terms that fillIpv4Header adds: every header word but the checksum. */
  function Ipv4Terms(length: word16, id: word16, protocol: byte, from: word32, to: word32): nat
  {
    0x4500 + length + id + 0x4000 + (0x4000 + protocol as int) +
    Swap16(from / 0x1_0000) + Swap16(from % 0x1_0000) + Swap16(to / 0x1_0000) + Swap16(to % 0x1_0000)
  }

  /** The numbers that carry over between segments: next sequence number and last acknowledge value. */
  datatype Stream = Stream(x: word32, y: word32)

  /** fillTcpHeader's choice of numbers for a segment with `payload` bytes, and the stream afterwards. */
  function Numbers(s: Stream, payload: nat, sequenceNumber: word32, acknowledgeNumber: word32, flags: word16): (Stream, word32, word32)
  {
    if sequenceNumber == 0x1010 && acknowledgeNumber == 0x1010 then (Stream((s.x + payload) % TWO32, s.y), s.x, s.y)
    else if HasFlag(flags, TCP_ACK) then (Stream(sequenceNumber, acknowledgeNumber), sequenceNumber, acknowledgeNumber)
    else (s, sequenceNumber, acknowledgeNumber)
  }

  /** Segments that are answered: push, open or close, with the acknowledgment flag. */
  predicate IsHandled(flags: word16)
  {
    (HasFlag(flags, TCP_PUS) || HasFlag(flags, TCP_SYN) || HasFlag(flags, TCP_FIN)) && HasFlag(flags, TCP_ACK)
  }

  /** The acknowledge value computed for a segment in a frame of `n` bytes. */
  function AckFor(seqno: word32, flags: word16, n: nat): word32
    requires n >= TCP_END
  {
    if HasFlag(flags, TCP_PUS) then (seqno + (n - TCP_END)) % TWO32
    else if HasFlag(flags, TCP_SYN) || HasFlag(flags, TCP_FIN) then (seqno + 1) % TWO32
    else seqno
  }

  /** The same on the frame: a push is acknowledged by what follows the first 54 bytes, any other handled segment by one. */
  function Acknowledged(p: seq<byte>): word32
    requires |p| >= 54
  {
    if p[47] as int / 8 % 2 == 1 then (Net32(p, 38) + |p| - 54) % 0x1_0000_0000 else (Net32(p, 38) + 1) % 0x1_0000_0000
  }

  /** Folds twice and complements; 32 bits hold every intermediate value. */
  method FoldComplement(sum: word32) returns (r: word16)
    ensures r == 0xffff - FoldTwice(sum)
  {
    var checksum := sum;
    FoldedBound(sum);
    checksum := checksum / 0x1_0000 + checksum % 0x1_0000;
    checksum := checksum + checksum / 0x1_0000;
    r := 0xffff - checksum % 0x1_0000;
  }

  /** A header whose checksum field is the folded complement of the nine terms verifies. */
  lemma NineTermsVerify(h: seq<byte>, length: word16, id: word16, protocol: byte, from: word32, to: word32)
    requires |h| == 20 && h[0] == 0x45 && h[1] == 0 && Net16(h, 2) == length && Net16(h, 4) == id
    requires Net16(h, 6) == 0x4000 && h[8] == 64 && h[9] == protocol
    requires h[12..16] == Native32(from) && h[16..20] == Native32(to)
    requires Ipv4Terms(length, id, protocol, from, to) < TWO32
    requires Net16(h, 10) == 0xffff - FoldTwice(Ipv4Terms(length, id, protocol, from, to))
    ensures Verifies(h)
  {
    hide Norm, FoldTwice, OcSum, SumBE, Swap16, Native32;
    var terms := Ipv4Terms(length, id, protocol, from, to);
    AddressWords(h, 12, from);
    AddressWords(h, 16, to);
    TenWords(h);
    assert SumBE(h, 10) == terms + Net16(h, 10);
    TwoFoldsSuffice(terms);
    OcSumIsNorm(h, 10);
    var k := NormQuotient(terms);
    NormOf(SumBE(h, 10), 0xffff, k);
  }

  lemma TermsFit(length: word16, id: word16, protocol: byte, from: word32, to: word32)
    ensures Ipv4Terms(length, id, protocol, from, to) <= 9 * 0xffff
  {
  }

  class NetStack {
    const mac: seq<byte>
    var ipv4count: word16
    var taaaX: word32
    var taaaY: word32

    constructor (mac: seq<byte>)
      requires |mac| == 6
      ensures this.mac == mac && ipv4count == 1 && taaaX == 0 && taaaY == 0
    {
      this.mac := mac;
      ipv4count, taaaX, taaaY := 1, 0, 0;
    }

    method FillEthernetHeader(p: array<byte>, destmac: seq<byte>, ethertype: word16)
      requires |destmac| == |mac| == 6 && p.Length >= ETHERNET_HEADER
      modifies p
      ensures forall i :: 0 <= i < 6 ==> p[i] == destmac[i]
      ensures forall i :: 6 <= i < 12 ==> p[i] == mac[i - 6]
      ensures p[12] as int == ethertype % 256 && p[13] as int == ethertype / 256
      ensures forall i :: ETHERNET_HEADER <= i < p.Length ==> p[i] == old(p[i])
    {
      for i := 0 to 6
        invariant forall k :: 0 <= k < i ==> p[k] == destmac[k]
        invariant forall k :: ETHERNET_HEADER <= k < p.Length ==> p[k] == old(p[k])
      {
        p[i] := destmac[i];
      }
      for i := 0 to 6
        invariant forall k :: 0 <= k < 6 ==> p[k] == destmac[k]
        invariant forall k :: 6 <= k < 6 + i ==> p[k] == mac[k - 6]
        invariant forall k :: ETHERNET_HEADER <= k < p.Length ==> p[k] == old(p[k])
      {
        p[6 + i] := mac[i];
      }
      PutNative16(p, 12, ethertype);
    }

    /** Everything of the IPv4 header except the checksum, which is zeroed. */
    method FillIpv4Fields(p: array<byte>, length: word16, protocol: byte, from: word32, to: word32)
      requires p.Length >= IPV4_END
      modifies p
      ensures p[14] == 0x45 && p[15] == 0
      ensures p[16] as int == length / 256 && p[17] as int == length % 256
      ensures p[18] as int == ipv4count / 256 && p[19] as int == ipv4count % 256
      ensures p[20] == 0x40 && p[21] == 0 && p[22] == 64 && p[23] == protocol
      ensures forall i :: 0 <= i < 4 ==> p[26 + i] == Native32(from)[i]
      ensures forall i :: 0 <= i < 4 ==> p[30 + i] == Native32(to)[i]
      ensures forall i :: 0 <= i < p.Length && !(ETHERNET_HEADER <= i < IPV4_END) ==> p[i] == old(p[i])
    {
      hide Native32, Swap16;
      p[14], p[15] := 0x45, 0;
      PutNative16(p, 16, Swap16(length));
      PutNative16(p, 18, Swap16(ipv4count));
      p[20], p[21], p[22], p[23] := 0x40, 0, 64, protocol;
      PutNative16(p, 24, 0);
      PutNative32(p, 26, from);
      PutNative32(p, 30, to);
    }

    method FillIpv4Header(p: array<byte>, destmac: seq<byte>, length: word16, protocol: byte, from: word32, to: word32)
      requires |destmac| == |mac| == 6 && p.Length >= IPV4_END
      modifies p, this`ipv4count
      ensures p[..6] == destmac && p[6..12] == mac && p[12..14] == [8, 0]
      ensures Ipv4Header(p[ETHERNET_HEADER..IPV4_END], length, old(ipv4count), protocol, from, to)
      ensures ipv4count == (old(ipv4count) + 1) % TWO16
      ensures forall i :: IPV4_END <= i < p.Length ==> p[i] == old(p[i])
    {
      hide Native32, Swap16, FoldTwice, Verifies, Ipv4Terms;
      FillEthernetHeader(p, destmac, 0x0008);
      FillIpv4Fields(p, length, protocol, from, to);
      var checksum := Ipv4Checksum(length, ipv4count, protocol, from, to);
      PutNative16(p, 24, Swap16(checksum));
      ghost var h := p[ETHERNET_HEADER..IPV4_END];
      assert h[12..16] == Native32(from) && h[16..20] == Native32(to);
      TermsFit(length, ipv4count, protocol, from, to);
      NineTermsVerify(h, length, ipv4count, protocol, from, to);
      ipv4count := (ipv4count + 1) % 0x1_0000;
    }

    /** The accumulation and the two folds of fillIpv4Header, before the final swap. */
    method Ipv4Checksum(length: word16, id: word16, protocol: byte, from: word32, to: word32) returns (r: word16)
      ensures Ipv4Terms(length, id, protocol, from, to) < TWO32
      ensures r == 0xffff - FoldTwice(Ipv4Terms(length, id, protocol, from, to))
    {
      hide Swap16;
      TermsFit(length, id, protocol, from, to);
      var checksum: word32 := 0x4500;
      checksum := checksum + length;
      checksum := checksum + id;
      checksum := checksum + 0x4000;
      checksum := checksum + (0x4000 + protocol as int);
      checksum := checksum + Swap16(from / 0x1_0000);
      checksum := checksum + Swap16(from % 0x1_0000);
      checksum := checksum + Swap16(to / 0x1_0000);
      checksum := checksum + Swap16(to % 0x1_0000);
      r := FoldComplement(checksum);
    }

    /** The sequence and acknowledgment numbers of a segment; 0x1010 twice asks for the stored ones. */
    method NextNumbers(size: word16, sequenceNumber: word32, acknowledgeNumber: word32, flags: word16) returns (seqno: word32, ackno: word32)
      requires size >= TCP_END - ETHERNET_HEADER
      modifies this`taaaX, this`taaaY
      ensures (Stream(taaaX, taaaY), seqno, ackno) ==
              Numbers(Stream(old(taaaX), old(taaaY)), size - (TCP_END - ETHERNET_HEADER), sequenceNumber, acknowledgeNumber, flags)
    {
      seqno, ackno := sequenceNumber, acknowledgeNumber;
      if seqno == 0x1010 && ackno == 0x1010 {
        seqno := taaaX;
        ackno := taaaY;
        taaaX := (taaaX + (size + ETHERNET_HEADER) - TCP_END) % TWO32;
      } else if HasFlag(flags, TCP_ACK) {
        taaaX := seqno;
        taaaY := ackno;
      }
    }

    method FillTcpNumbers(p: array<byte>, t: TcpFields)
      requires p.Length >= TCP_END
      modifies p
      ensures p[34..46] == Native16(Swap16(t.fromPort)) + Native16(Swap16(t.toPort)) + Native32(Swap32(t.seqno)) + Native32(Swap32(t.ackno))
      ensures forall i :: 0 <= i < p.Length && !(34 <= i < 46) ==> p[i] == old(p[i])
    {
      hide Swap16, Swap32, Native32;
      PutNative16(p, 34, Swap16(t.fromPort));
      PutNative16(p, 36, Swap16(t.toPort));
      PutNative32(p, 38, Swap32(t.seqno));
      PutNative32(p, 42, Swap32(t.ackno));
      assert p[34..36] == Native16(Swap16(t.fromPort)) && p[36..38] == Native16(Swap16(t.toPort));
      assert p[38..42] == Native32(Swap32(t.seqno)) && p[42..46] == Native32(Swap32(t.ackno));
      assert p[34..46] == p[34..36] + p[36..38] + p[38..42] + p[42..46];
    }

    method FillTcpControl(p: array<byte>, t: TcpFields)
      requires p.Length >= TCP_END
      modifies p
      ensures p[46..54] == Native16(Swap16(t.offsetFlags)) + Native16(Swap16(t.window)) + [0, 0, 0, 0]
      ensures forall i :: 0 <= i < p.Length && !(46 <= i < 54) ==> p[i] == old(p[i])
    {
      hide Swap16;
      PutNative16(p, 46, Swap16(t.offsetFlags));
      PutNative16(p, 48, Swap16(t.window));
      PutNative16(p, 50, 0);
      PutNative16(p, 52, 0);
    }

    /** The TCP header with a zero checksum, in place. */
    method FillTcpFields(p: array<byte>, t: TcpFields)
      requires p.Length >= TCP_END
      modifies p
      ensures p[IPV4_END..TCP_END] == TcpHeaderBytes(t)
      ensures forall i :: 0 <= i < p.Length && !(IPV4_END <= i < TCP_END) ==> p[i] == old(p[i])
    {
      hide Swap16, Swap32, Native32, Native16;
      FillTcpNumbers(p, t);
      ghost var numbers := p[34..46];
      FillTcpControl(p, t);
      assert p[34..46] == numbers;
      assert p[34..54] == p[34..46] + p[46..54];
    }

    /** The flags word: header length in the upper bits. */
    function OffsetFlags(headerLength: byte, flags: word16): word16
    {
      Swap16((Swap16(flags) + headerLength as int * 16) % TWO16)
    }

    /** With fewer than 16 words and flags below 0x1000, a receiver finds the header length in the upper four bits and the flags below. */
    lemma OffsetFlagsValue(headerLength: byte, flags: word16)
      requires headerLength < 16 && flags < 0x1000
      ensures OffsetFlags(headerLength, flags) == headerLength as int * 0x1000 + flags
    {
      var low, high := flags / 256, flags % 256;
      var stored := (Swap16(flags) + headerLength as int * 16) % TWO16;
      assert stored == (low + headerLength as int * 16) + high * 256;
      assert stored % 256 == low + headerLength as int * 16 && stored / 256 == high;
    }

    lemma HeaderWord(packet: seq<byte>, headerLength: byte, flags: word16)
      requires |packet| >= TCP_END && Net16(packet, 46) == OffsetFlags(headerLength, flags)
      ensures headerLength < 16 && flags < 0x1000 ==> packet[46] as int / 16 == headerLength as int && Net16(packet, 46) % 0x1000 == flags
    {
      hide OffsetFlags;
      if headerLength < 16 && flags < 0x1000 {
        OffsetFlagsValue(headerLength, flags);
      }
    }

    method FillTcpHeader(p: array<byte>, destmac: seq<byte>, size: word16, from: word32, to: word32, fromPort: word16, toPort: word16,
                         sequenceNumber: word32, acknowledgeNumber: word32, headerLength: byte, flags: word16, window: word16)
      returns (ghost t: TcpFields)
      requires |destmac| == |mac| == 6 && p.Length >= TCP_END && size >= TCP_END - ETHERNET_HEADER
      modifies p, this`ipv4count, this`taaaX, this`taaaY
      ensures Ipv4Header(p[ETHERNET_HEADER..IPV4_END], size, old(ipv4count), IPV4_TYPE_TCP, from, to)
      ensures p[..6] == destmac && p[6..12] == mac && p[12..14] == [8, 0]
      ensures ipv4count == (old(ipv4count) + 1) % TWO16
      ensures (Stream(taaaX, taaaY), t.seqno, t.ackno) ==
              Numbers(Stream(old(taaaX), old(taaaY)), size - (TCP_END - ETHERNET_HEADER), sequenceNumber, acknowledgeNumber, flags)
      ensures t == TcpFields(fromPort, toPort, t.seqno, t.ackno, OffsetFlags(headerLength, flags), window)
      ensures p[IPV4_END..TCP_END] ==
              WithChecksum(TcpHeaderBytes(t), InternetChecksum(PseudoHeader(from, to, size - 20) + TcpHeaderBytes(t)))
      ensures forall i :: TCP_END <= i < p.Length ==> p[i] == old(p[i])
      ensures headerLength < 16 && flags < 0x1000 ==> p[46] as int / 16 == headerLength as int && Net16(p[..], 46) % 0x1000 == flags
      ensures Net16(p[..], 34) == fromPort && Net16(p[..], 36) == toPort && Net32(p[..], 38) == t.seqno && Net32(p[..], 42) == t.ackno
      ensures Net16(p[..], 48) == window && p[52] == 0 && p[53] == 0
    {
      hide Ipv4Header, InternetChecksum, Swap16, Native32, Swap32, TcpHeaderBytes, Numbers, OffsetFlags, PseudoHeader, Net16, Net32, WithChecksum;
      FillIpv4Header(p, destmac, size, IPV4_TYPE_TCP, from, to);
      var seqno, ackno := NextNumbers(size, sequenceNumber, acknowledgeNumber, flags);
      var fields := TcpFields(fromPort, toPort, seqno, ackno, OffsetFlags(headerLength, flags), window);
      t := fields;
      ghost var ip := p[ETHERNET_HEADER..IPV4_END];
      FillTcpFields(p, fields);
      var payload := size - (TCP_END - ETHERNET_HEADER);
      var trx := PseudoHeader(from, to, 20 + payload) + p[IPV4_END..TCP_END];
      var checksum := NetChecksum(trx);
      ghost var h := p[IPV4_END..TCP_END];
      PutNative16(p, 50, Swap16(checksum));
      assert p[50..52] == Native16(Swap16(checksum));
      assert p[34..50] == h[..16] && p[52..54] == h[18..];
      assert p[IPV4_END..TCP_END] == p[34..50] + p[50..52] + p[52..54];
      assert p[ETHERNET_HEADER..IPV4_END] == ip;
      ChecksumPlaced(h, checksum, p[34..50], p[50..52], p[52..54]);
      assert p[..][IPV4_END..TCP_END] == p[IPV4_END..TCP_END];
      SegmentFields(p[..], t, checksum);
      SegmentControl(p[..], t, checksum);
      HeaderWord(p[..], headerLength, flags);
    }

    /**
      The TCP send call: copies the payload behind the headers, pads the user's buffer with a zero byte, and
      adds the payload's words to the header checksum.
     */
    method SendTcp(loca: array<byte>, size: nat, destmac: seq<byte>, from: word32, to: word32, port: word16)
      returns (packet: array<byte>, ghost t: TcpFields)
      requires |destmac| == |mac| == 6 && size < loca.Length
      requires TCP_END - ETHERNET_HEADER + size <= 0xffff
      modifies loca, this`ipv4count, this`taaaX, this`taaaY
      ensures fresh(packet) && packet.Length == TCP_END + size
      ensures loca[..] == old(loca[..])[size := 0]
      ensures packet[TCP_END..] == old(loca[..size])
      ensures Ipv4Header(packet[ETHERNET_HEADER..IPV4_END], 40 + size, old(ipv4count), IPV4_TYPE_TCP, from, to)
      ensures TcpVerifies(from, to, packet[IPV4_END..])
      ensures t == TcpFields(port, port, old(taaaX), old(taaaY), OffsetFlags(5, TCP_PUS + TCP_ACK), 64240)
      ensures taaaX == (old(taaaX) + size) % TWO32 && taaaY == old(taaaY)
      // as a receiver reads it
      ensures Net16(packet[..], 34) == port && Net16(packet[..], 36) == port
      ensures Net32(packet[..], 38) == old(taaaX) && Net32(packet[..], 42) == old(taaaY)
      ensures packet[46] == 0x50 && packet[47] == 0x18 && Net16(packet[..], 48) == 64240 && packet[52] == 0 && packet[53] == 0
      ensures PacketVerifies(packet[..])
      ensures packet[IPV4_END..] ==
              WithChecksum(TcpHeaderBytes(t) + old(loca[..size]),
                           InternetChecksum(PseudoHeader(from, to, 20 + size) + TcpHeaderBytes(t) + old(loca[..size])))
    {
      hide Ipv4Header, TcpVerifies, InternetChecksum, TcpHeaderBytes, PseudoHeader, OffsetFlags, WithChecksum, Net16, Net32, PacketVerifies;
      packet := new byte[TCP_END + size](_ => 0);
      CopyBehindHeaders(packet, loca, size);
      ghost var payload := loca[..size];
      loca[size] := 0;
      t := FillTcpHeader(packet, destmac, size + TCP_END - ETHERNET_HEADER, from, to, port, port, 0x1010, 0x1010, 5, TCP_PUS + TCP_ACK, 64240);
      ghost var ip := packet[ETHERNET_HEADER..IPV4_END];
      assert packet[TCP_END..] == payload && loca[..size] == payload;
      AddPayloadToChecksum(packet, loca, size, PseudoHeader(from, to, 20 + size), TcpHeaderBytes(t));
      assert packet[ETHERNET_HEADER..IPV4_END] == ip;
      SegmentVerifies(from, to, t, payload, packet[IPV4_END..]);
      ReceiverReads(packet[..], from, to, 40 + size, t, payload, InternetChecksum(PseudoHeader(from, to, 20 + size) + TcpHeaderBytes(t) + payload), old(ipv4count));
      OffsetFlagsValue(5, TCP_PUS + TCP_ACK);
      WordBytes(packet[..], 46, 0x5018);
    }

    /** Turns the checksum of pseudo-header and header into the checksum of the whole segment. */
    method AddPayloadToChecksum(packet: array<byte>, loca: array<byte>, size: nat, ghost pseudo: seq<byte>, ghost bytes: seq<byte>)
      requires packet != loca && packet.Length == TCP_END + size && size < loca.Length && size <= 0xffff && loca[size] == 0
      requires |pseudo| == 12 && |bytes| == 20
      requires packet[IPV4_END..TCP_END] == WithChecksum(bytes, InternetChecksum(pseudo + bytes))
      requires packet[TCP_END..] == loca[..size]
      modifies packet
      ensures packet[IPV4_END..] == WithChecksum(bytes + loca[..size], InternetChecksum(pseudo + bytes + loca[..size]))
      ensures packet[TCP_END..] == loca[..size]
      ensures forall i :: 0 <= i < packet.Length && i != 50 && i != 51 ==> packet[i] == old(packet[i])
    {
      hide InternetChecksum, WithChecksum, FoldTwice, Swap16;
      ghost var header, payload := packet[IPV4_END..TCP_END], loca[..size];
      ghost var c := InternetChecksum(pseudo + bytes);
      var z := AddPayload(loca, size);
      var checksumOld := 0xffff - (packet[50] as int * 256 + packet[51] as int);
      StoredChecksum(bytes, c, header);
      PayloadFits(payload);
      var final := FoldComplement(checksumOld + z);
      AddedPayloadChecksum(pseudo + bytes, payload, checksumOld, z, final);
      PutNative16(packet, 50, Swap16(final));
      ChecksumReplaced(bytes, c, header, final, packet[IPV4_END..TCP_END]);
      assert packet[TCP_END..] == payload;
      assert packet[IPV4_END..] == packet[IPV4_END..TCP_END] + packet[TCP_END..];
      WithChecksumConcat(bytes, payload, final);
    }

    /**
      An incoming TCP segment: pushes, opening and closing segments that carry an acknowledgment are answered
      with a bare acknowledgment whose numbers become the stream's.
     */
    method HandleTcp(p: seq<byte>) returns (reply: array?<byte>, ghost t: TcpFields)
      requires |mac| == 6 && TCP_END <= |p| < TWO32
      modifies this`ipv4count, this`taaaX, this`taaaY
      ensures reply != null <==> IsHandled(Net16(p, 46))
      ensures reply != null <==> p[47] as int / 16 % 2 == 1 && (p[47] as int / 8 % 2 == 1 || p[47] as int / 2 % 2 == 1 || p[47] as int % 2 == 1)
      ensures reply == null ==> taaaX == old(taaaX) && taaaY == old(taaaY)
      ensures reply != null ==>
                if Net32(p, 42) == 0x1010 && Acknowledged(p) == 0x1010 then t.seqno == taaaX == old(taaaX) && t.ackno == taaaY == old(taaaY)
                else t.seqno == taaaX == Net32(p, 42) && t.ackno == taaaY == Acknowledged(p)
      ensures reply != null ==>
                && fresh(reply) && reply.Length == TCP_END
                && reply[..6] == p[6..12]
                && Ipv4Header(reply[ETHERNET_HEADER..IPV4_END], 40, old(ipv4count), IPV4_TYPE_TCP, Load32(p, 30), Load32(p, 26))
                && TcpVerifies(Load32(p, 30), Load32(p, 26), reply[IPV4_END..])
                && reply[IPV4_END..] == WithChecksum(TcpHeaderBytes(t), InternetChecksum(PseudoHeader(Load32(p, 30), Load32(p, 26), 20) + TcpHeaderBytes(t)))
                && t == TcpFields(Net16(p, 36), Net16(p, 34), t.seqno, t.ackno, OffsetFlags(5, TCP_ACK), 512)
                && (Stream(taaaX, taaaY), t.seqno, t.ackno) ==
                   Numbers(Stream(old(taaaX), old(taaaY)), 0, Net32(p, 42), AckFor(Net32(p, 38), Net16(p, 46), |p|), TCP_ACK)
                // as a receiver reads it
                && Net16(reply[..], 34) == Net16(p, 36) && Net16(reply[..], 36) == Net16(p, 34)
                && Net32(reply[..], 38) == t.seqno && Net32(reply[..], 42) == t.ackno
                && reply[46] == 0x50 && reply[47] == 0x10 && Net16(reply[..], 48) == 512 && reply[52] == 0 && reply[53] == 0
                && PacketVerifies(reply[..])
    {
      hide Ipv4Header, TcpVerifies, InternetChecksum, TcpHeaderBytes, PseudoHeader, OffsetFlags, WithChecksum, Numbers, Net16, Net32, Load32, PacketVerifies, HasFlag, Acknowledged;
      FlagBits(p);
      HandledBits(p);
      var flags := Net16(p, 46);
      if (HasFlag(flags, TCP_PUS) || HasFlag(flags, TCP_SYN) || HasFlag(flags, TCP_FIN)) && HasFlag(flags, TCP_ACK) {
        var from, to := Load32(p, 30), Load32(p, 26);
        var tcp1 := new byte[TCP_END](_ => 0);
        var sid := Net32(p, 38);
        if HasFlag(flags, TCP_PUS) {
          var tr := |p| - TCP_END;
          sid := (sid + tr) % TWO32;
        } else if HasFlag(flags, TCP_SYN) {
          sid := (sid + 1) % TWO32;
        } else if HasFlag(flags, TCP_FIN) {
          sid := (sid + 1) % TWO32;
        }
        t := FillTcpHeader(tcp1, p[6..12], TCP_END - ETHERNET_HEADER, from, to, Net16(p, 36), Net16(p, 34), Net32(p, 42), sid, 5, TCP_ACK, 512);
        ghost var pseudo, bytes := PseudoHeader(from, to, 20), TcpHeaderBytes(t);
        assert bytes + [] == bytes && pseudo + bytes + [] == pseudo + bytes;
        assert tcp1[IPV4_END..] == tcp1[IPV4_END..TCP_END];
        SegmentVerifies(from, to, t, [], tcp1[IPV4_END..]);
        ReceiverReads(tcp1[..], from, to, 40, t, [], InternetChecksum(pseudo + bytes), old(ipv4count));
        OffsetFlagsValue(5, TCP_ACK);
        WordBytes(tcp1[..], 46, 0x5010);
        ReplyNumbers(Stream(old(taaaX), old(taaaY)), p, Stream(taaaX, taaaY), t.seqno, t.ackno);
        return tcp1, t;
      }
      t := TcpFields(0, 0, 0, 0, 0, 0);
      reply := null;
    }

    /**
      An incoming ICMP message: an echo request is copied into a reply, and its checksum is adjusted for the
      changed type instead of being computed again.
     */
    method HandleIcmp(p: seq<byte>) returns (reply: array?<byte>)
      requires |mac| == 6 && IPV4_END + 4 <= |p| <= ETHERNET_HEADER + 0xffff
      modifies this`ipv4count
      ensures reply != null <==> p[34] == 8
      ensures reply != null ==>
                && fresh(reply) && reply.Length == |p|
                && reply[..6] == p[6..12]
                && Ipv4Header(reply[ETHERNET_HEADER..IPV4_END], |p| - ETHERNET_HEADER, old(ipv4count), IPV4_TYPE_ICMP, Load32(p, 30), Load32(p, 26))
                && reply[23] == 1 && reply[26..30] == p[30..34] && reply[30..34] == p[26..30]
                && reply[34] == 0 && reply[35] == p[35] && reply[38..] == p[38..]
                && (Verifies(p[IPV4_END..]) ==>
                      (Verifies(reply[IPV4_END..]) <==> 0xffff - Net16(p, 36) >= 0x800))
    {
      hide Ipv4Header, Verifies, Swap16, Load32, Native32;
      if p[34] != 8 {
        return null;
      }
      StoredAsLoaded(p, 30);
      StoredAsLoaded(p, 26);
      var size := |p| - ETHERNET_HEADER;
      var newicmp := new byte[|p|](_ => 0);
      FillIpv4Header(newicmp, p[6..12], size, IPV4_TYPE_ICMP, Load32(p, 30), Load32(p, 26));
      ghost var ip := newicmp[ETHERNET_HEADER..IPV4_END];
      CopyIcmp(newicmp, p);
      newicmp[34] := 0;
      var tu := 0xffff - (p[36] as int * 256 + p[37] as int);
      tu := (tu - 0x800) % TWO16;
      PutNative16(newicmp, 36, Swap16(0xffff - tu));
      assert newicmp[ETHERNET_HEADER..IPV4_END] == ip;
      HeaderAddresses(newicmp[..], ip, size, old(ipv4count), IPV4_TYPE_ICMP, Load32(p, 30), Load32(p, 26));
      assert newicmp[38..] == p[38..];
      if Verifies(p[IPV4_END..]) {
        EchoReplyVerifies(p[IPV4_END..], newicmp[IPV4_END..], tu);
      }
      return newicmp;
    }

    method CopyIcmp(newicmp: array<byte>, p: seq<byte>)
      requires newicmp.Length == |p| >= IPV4_END
      modifies newicmp
      ensures forall k :: 0 <= k < IPV4_END ==> newicmp[k] == old(newicmp[k])
      ensures forall k :: IPV4_END <= k < |p| ==> newicmp[k] == p[k]
    {
      for i := 0 to |p| - IPV4_END
        invariant forall k :: 0 <= k < IPV4_END ==> newicmp[k] == old(newicmp[k])
        invariant forall k :: IPV4_END <= k < IPV4_END + i ==> newicmp[k] == p[k]
      {
        newicmp[IPV4_END + i] := p[IPV4_END + i];
      }
    }

    method CopyBehindHeaders(packet: array<byte>, loca: array<byte>, size: nat)
      requires packet != loca && packet.Length == TCP_END + size && size < loca.Length
      modifies packet
      ensures packet[TCP_END..] == loca[..size]
    {
      for i := 0 to size
        invariant forall k :: TCP_END <= k < TCP_END + i ==> packet[k] == loca[k - TCP_END]
      {
        packet[TCP_END + i] := loca[i];
      }
    }

    /** The words of the payload in network order, the last byte padded by the zero that follows it. */
    method AddPayload(loca: array<byte>, size: nat) returns (z: word32)
      requires size < loca.Length && size <= 0xffff && loca[size] == 0
      ensures z == SumBE(loca[..size], WordCount(loca[..size]))
    {
      hide Swap16, WordBE;
      z := 0;
      var ct := size / 2;
      if size % 2 == 1 {
        ct := ct + 1;
      }
      ghost var payload := loca[..size];
      SumBounds(payload, WordCount(payload));
      for i := 0 to ct
        invariant z == SumBE(payload, i)
      {
        SumBounds(payload, i + 1);
        var tw := loca[2 * i] as int + loca[2 * i + 1] as int * 256;
        var qw := Swap16(tw);
        SwapOfLoad(loca[2 * i], loca[2 * i + 1]);
        PaddedWord(payload, i, loca[2 * i], loca[2 * i + 1]);
        z := z + qw;
      }
    }
  }

  lemma SwapOfLoad(b0: byte, b1: byte)
    ensures Swap16(b0 as int + b1 as int * 256) == b0 as int * 256 + b1 as int
  {
  }

  lemma PaddedWord(b: seq<byte>, i: nat, b0: byte, b1: byte)
    requires 2 * i < |b| && b[2 * i] == b0 && b1 == if 2 * i + 1 < |b| then b[2 * i + 1] else 0
    ensures WordBE(b, i) == b0 as int * 256 + b1 as int
  {
  }

  /** The incremental update is right exactly when subtracting the old type from the complemented checksum does not borrow. */
  lemma EchoReplyVerifies(request: seq<byte>, reply: seq<byte>, tu: word16)
    requires |request| == |reply| >= 4 && request[0] == 8 && reply[0] == 0 && reply[1] == request[1]
    requires tu == (0xffff - Net16(request, 2) - 0x800) % TWO16 && Net16(reply, 2) == 0xffff - tu
    requires forall i :: 4 <= i < |request| ==> reply[i] == request[i]
    requires Verifies(request)
    ensures Verifies(reply) <==> 0xffff - Net16(request, 2) >= 0x800
  {
    hide Norm, OcSum, SumBE;
    var n := WordCount(request);
    var middle := request[0 := 0];
    SumWithWord(request, middle, 0, n);
    SumWithWord(middle, reply, 1, n);
    OcSumIsNorm(request, n);
    OcSumIsNorm(reply, n);
    var k := NormQuotient(SumBE(request, n));
    if 0xffff - Net16(request, 2) >= 0x800 {
      assert SumBE(reply, n) == SumBE(request, n);
    } else {
      assert SumBE(reply, n) == 0xfffe + 0xffff * (k - 1);
      NormOf(SumBE(reply, n), 0xfffe, k - 1);
    }
  }

  /** A request that verifies and yet borrows: its reply does not verify. The rest of the frame does not matter. */
  lemma BorrowingRequestExists() returns (p: seq<byte>)
    ensures IPV4_END + 4 <= |p| <= ETHERNET_HEADER + 0xffff && p[34] == 8
    ensures Verifies(p[IPV4_END..]) && 0xffff - Net16(p, 36) < 0x800
  {
    var request: seq<byte> := [8, 0, 0xFE, 0xFE, 0xF9, 0];
    p := seq(IPV4_END, _ => 0) + request;
    assert p[IPV4_END..] == request;
    assert WordCount(request) == 3;
    assert OcSum(request, 0) == 0;
    assert WordBE(request, 0) == 0x800 && WordBE(request, 1) == 0xFEFE && WordBE(request, 2) == 0xF900;
  }

  lemma ChecksumPlaced(h: seq<byte>, c: word16, a: seq<byte>, b: seq<byte>, d: seq<byte>)
    requires |h| == 20 && a == h[..16] && b == Native16(Swap16(c)) && d == h[18..]
    ensures a + b + d == WithChecksum(h, c)
  {
  }

  lemma PayloadFits(payload: seq<byte>)
    requires |payload| <= 0xffff
    ensures SumBE(payload, WordCount(payload)) + 0xffff < TWO32
  {
    SumBounds(payload, WordCount(payload));
  }

  lemma StoredChecksum(bytes: seq<byte>, c: word16, header: seq<byte>)
    requires |bytes| == 20 && header == WithChecksum(bytes, c)
    ensures header[16] as int * 256 + header[17] as int == c
  {
  }

  lemma ChecksumReplaced(bytes: seq<byte>, c: word16, header: seq<byte>, final: word16, header': seq<byte>)
    requires |bytes| == 20 && header == WithChecksum(bytes, c) && |header'| == 20
    requires forall i :: 0 <= i < 20 && i != 16 && i != 17 ==> header'[i] == header[i]
    requires header'[16] as int == Swap16(final) % 256 && header'[17] as int == Swap16(final) / 256
    ensures header' == WithChecksum(bytes, final)
  {
  }

  lemma WithChecksumConcat(bytes: seq<byte>, payload: seq<byte>, c: word16)
    requires |bytes| == 20
    ensures WithChecksum(bytes, c) + payload == WithChecksum(bytes + payload, c)
  {
  }

  /** A receiver reads ports and numbers of a segment in network order. */
  lemma SegmentFields(packet: seq<byte>, t: TcpFields, c: word16)
    requires |packet| >= TCP_END && packet[IPV4_END..TCP_END] == WithChecksum(TcpHeaderBytes(t), c)
    ensures Net16(packet, 34) == t.fromPort && Net16(packet, 36) == t.toPort
    ensures Net32(packet, 38) == t.seqno && Net32(packet, 42) == t.ackno
  {
    hide Swap16, Swap32, Native16, Native32;
    NativeOfSwapped16(t.fromPort);
    NativeOfSwapped16(t.toPort);
    NativeOfSwapped32(t.seqno);
    NativeOfSwapped32(t.ackno);
    var h := packet[IPV4_END..TCP_END];
    assert packet[IPV4_END..IPV4_END + 12] == h[..12];
    assert h[..12] == Native16(Swap16(t.fromPort)) + Native16(Swap16(t.toPort)) + Native32(Swap32(t.seqno)) + Native32(Swap32(t.ackno));
    SliceFields(packet, h[..12], Native16(Swap16(t.fromPort)), Native16(Swap16(t.toPort)), Native32(Swap32(t.seqno)), Native32(Swap32(t.ackno)));
  }

  /** And the rest of the header: data offset and flags, window, and no urgent pointer. */
  lemma SegmentControl(packet: seq<byte>, t: TcpFields, c: word16)
    requires |packet| >= TCP_END && packet[IPV4_END..TCP_END] == WithChecksum(TcpHeaderBytes(t), c)
    ensures Net16(packet, 46) == t.offsetFlags && Net16(packet, 48) == t.window && packet[52] == 0 && packet[53] == 0
  {
    hide Swap16, Swap32, Native16, Native32;
    NativeOfSwapped16(t.offsetFlags);
    NativeOfSwapped16(t.window);
    var h, x, w := packet[IPV4_END..TCP_END], Native16(Swap16(t.offsetFlags)), Native16(Swap16(t.window));
    assert h[12..16] == x + w && h[18..] == [0, 0];
    assert packet[46] == h[12] == h[12..16][0] == x[0] && packet[47] == h[13] == h[12..16][1] == x[1];
    assert packet[48] == h[14] == h[12..16][2] == w[0] && packet[49] == h[15] == h[12..16][3] == w[1];
    assert packet[52] == h[18] == h[18..][0] && packet[53] == h[19] == h[18..][1];
  }

  /** What a receiver finds in a packet whose segment has its one-pass checksum in place. */
  lemma ReceiverReads(packet: seq<byte>, from: word32, to: word32, length: word16, t: TcpFields, payload: seq<byte>, c: word16, id: word16)
    requires TCP_END <= |packet| < IPV4_END + 0x1_0000
    requires Ipv4Header(packet[ETHERNET_HEADER..IPV4_END], length, id, IPV4_TYPE_TCP, from, to)
    requires packet[IPV4_END..] == WithChecksum(TcpHeaderBytes(t) + payload, c) && TcpVerifies(from, to, packet[IPV4_END..])
    ensures Net16(packet, 34) == t.fromPort && Net16(packet, 36) == t.toPort
    ensures Net32(packet, 38) == t.seqno && Net32(packet, 42) == t.ackno
    ensures Net16(packet, 46) == t.offsetFlags && Net16(packet, 48) == t.window && packet[52] == 0 && packet[53] == 0
    ensures PacketVerifies(packet)
  {
    hide Net16, Net32, TcpVerifies, TcpHeaderBytes, Verifies, Native32, PacketVerifies, WithChecksum;
    WithChecksumConcat(TcpHeaderBytes(t), payload, c);
    assert packet[IPV4_END..TCP_END] == packet[IPV4_END..][..20] == WithChecksum(TcpHeaderBytes(t), c);
    SegmentFields(packet, t, c);
    SegmentControl(packet, t, c);
    var h := packet[ETHERNET_HEADER..IPV4_END];
    assert packet[26..30] == h[12..16] && packet[30..34] == h[16..20];
    ReceiverAgrees(packet, from, to);
  }

  lemma WordBytes(b: seq<byte>, off: nat, v: word16)
    requires off + 2 <= |b| && Net16(b, off) == v
    ensures b[off] as int == v / 256 && b[off + 1] as int == v % 256
  {
  }

  /** The flags are the low bits of byte 47: FIN, SYN, PSH and ACK. */
  lemma FlagBits(p: seq<byte>)
    requires |p| >= TCP_END
    ensures HasFlag(Net16(p, 46), TCP_FIN) <==> p[47] as int % 2 == 1
    ensures HasFlag(Net16(p, 46), TCP_SYN) <==> p[47] as int / 2 % 2 == 1
    ensures HasFlag(Net16(p, 46), TCP_PUS) <==> p[47] as int / 8 % 2 == 1
    ensures HasFlag(Net16(p, 46), TCP_ACK) <==> p[47] as int / 16 % 2 == 1
  {
    var high, low := p[46] as int, p[47] as int;
    Shifted(high, 256, low, 1);
    Shifted(high, 128, low, 2);
    Shifted(high, 32, low, 8);
    Shifted(high, 16, low, 16);
    EvenPart(high * 128, low / 1);
    EvenPart(high * 64, low / 2);
    EvenPart(high * 16, low / 8);
    EvenPart(high * 8, low / 16);
  }

  lemma Shifted(high: nat, rest: nat, low: nat, bit: nat)
    requires bit > 0 && rest * bit == 256
    ensures (high * 256 + low) / bit == high * rest + low / bit
  {
    var q, r := low / bit, low % bit;
    assert high * 256 + low == bit * (high * rest + q) + r by {
      assert bit * (high * rest) == high * (rest * bit);
      assert low == bit * q + r;
    }
    QuotientUnique(high * 256 + low, bit, high * rest + q, r);
  }

  lemma QuotientUnique(a: nat, m: nat, q: nat, r: nat)
    requires m > 0 && a == m * q + r && r < m
    ensures a / m == q
  {
    var e := a / m - q;
    assert m * e == r - a % m;
    NoMultiple(m, e);
  }

  lemma NoMultiple(m: int, e: int)
    requires -m < m * e < m
    ensures e == 0
  {
  }

  lemma EvenPart(half: nat, low: nat)
    ensures (2 * half + low) % 2 == low % 2
  {
  }

  lemma HandledBits(p: seq<byte>)
    requires |p| >= TCP_END
    ensures IsHandled(Net16(p, 46)) <==>
            p[47] as int / 16 % 2 == 1 && (p[47] as int / 8 % 2 == 1 || p[47] as int / 2 % 2 == 1 || p[47] as int % 2 == 1)
  {
    hide HasFlag, Net16;
    FlagBits(p);
  }

  lemma ReplyNumbers(s: Stream, p: seq<byte>, s': Stream, seqno: word32, ackno: word32)
    requires TCP_END <= |p| && IsHandled(Net16(p, 46))
    requires (s', seqno, ackno) == Numbers(s, 0, Net32(p, 42), AckFor(Net32(p, 38), Net16(p, 46), |p|), TCP_ACK)
    ensures if Net32(p, 42) == 0x1010 && Acknowledged(p) == 0x1010 then seqno == s'.x == s.x && ackno == s'.y == s.y
            else seqno == s'.x == Net32(p, 42) && ackno == s'.y == Acknowledged(p)
  {
    hide Net32;
    FlagBits(p);
    hide Net16;
    assert HasFlag(TCP_ACK, TCP_ACK);
  }

  lemma StoredAsLoaded(b: seq<byte>, off: nat)
    requires off + 4 <= |b|
    ensures Native32(Load32(b, off)) == b[off..off + 4]
  {
    ComposedBytes(b[off] as int, b[off + 1] as int, b[off + 2] as int, b[off + 3] as int);
  }

  lemma HeaderAddresses(packet: seq<byte>, h: seq<byte>, length: word16, id: word16, protocol: byte, from: word32, to: word32)
    requires |packet| >= IPV4_END && h == packet[ETHERNET_HEADER..IPV4_END] && Ipv4Header(h, length, id, protocol, from, to)
    ensures packet[23] == protocol && packet[26..30] == Native32(from) && packet[30..34] == Native32(to)
  {
    hide Verifies, Native32;
    assert packet[23] == h[9] && packet[26..30] == h[12..16] && packet[30..34] == h[16..20];
  }

  lemma SliceFields(packet: seq<byte>, h: seq<byte>, a: seq<byte>, b: seq<byte>, c: seq<byte>, d: seq<byte>)
    requires |packet| >= TCP_END && h == packet[IPV4_END..IPV4_END + 12]
    requires |a| == 2 && |b| == 2 && |c| == 4 && |d| == 4 && h == a + b + c + d
    ensures Net16(packet, 34) == Net16(a, 0) && Net16(packet, 36) == Net16(b, 0)
    ensures Net32(packet, 38) == Net32(c, 0) && Net32(packet, 42) == Net32(d, 0)
  {
    assert forall i :: 0 <= i < 12 ==> packet[34 + i] == h[i];
    assert h[0] == a[0] && h[1] == a[1] && h[2] == b[0] && h[3] == b[1];
    assert h[4] == c[0] && h[5] == c[1] && h[6] == c[2] && h[7] == c[3];
    assert h[8] == d[0] && h[9] == d[1] && h[10] == d[2] && h[11] == d[3];
    assert packet[34] == h[0] && packet[35] == h[1] && packet[36] == h[2] && packet[37] == h[3];
    assert packet[38] == h[4] && packet[39] == h[5] && packet[40] == h[6] && packet[41] == h[7];
    assert packet[42] == h[8] && packet[43] == h[9] && packet[44] == h[10] && packet[45] == h[11];
  }

  /** Header checksum first, payload words added later: the same as one pass over everything. */
  lemma AddedPayloadChecksum(head: seq<byte>, payload: seq<byte>, checksumOld: word16, z: word32, final: word16)
    requires |head| % 2 == 0
    requires checksumOld == 0xffff - InternetChecksum(head) && z == SumBE(payload, WordCount(payload))
    requires checksumOld + z < TWO32 && final == 0xffff - FoldTwice(checksumOld + z)
    ensures final == InternetChecksum(head + payload)
  {
    hide Norm, FoldTwice, SumBE, OcSum;
    OcSumIsNorm(head, WordCount(head));
    TwoFoldsSuffice(checksumOld + z);
    NormAdd(SumBE(head, WordCount(head)), z);
    SumConcat(head, payload, WordCount(payload));
    OcSumIsNorm(head + payload, WordCount(head + payload));
  }

  /** A segment with the one-pass checksum in place verifies. */
  lemma SegmentVerifies(from: word32, to: word32, t: TcpFields, payload: seq<byte>, segment: seq<byte>)
    requires |payload| <= 0xffff - 20
    requires segment == WithChecksum(TcpHeaderBytes(t) + payload, InternetChecksum(PseudoHeader(from, to, 20 + |payload|) + TcpHeaderBytes(t) + payload))
    ensures TcpVerifies(from, to, segment)
  {
    hide Swap32, Native32, Verifies, InternetChecksum, Swap16;
    var pseudo, bytes := PseudoHeader(from, to, 20 + |payload|), TcpHeaderBytes(t);
    var zeroed, filled := pseudo + bytes + payload, pseudo + segment;
    var c := InternetChecksum(zeroed);
    NativeOfSwapped16(c);
    assert bytes[16] == 0 && bytes[17] == 0;
    assert filled[28] == segment[16] && filled[29] == segment[17];
    assert segment[16..18] == Native16(Swap16(c));
    assert segment[16] == Native16(Swap16(c))[0] && segment[17] == Native16(Swap16(c))[1];
    assert WordBE(zeroed, 14) == 0 && WordBE(filled, 14) == c;
    forall j | 0 <= j < |zeroed| && j != 28 && j != 29
      ensures filled[j] == zeroed[j]
    {
      if j >= 12 {
        assert zeroed[j] == (bytes + payload)[j - 12] && filled[j] == segment[j - 12];
      }
    }
    FilledChecksumVerifies(zeroed, filled, 14);
  }
}

/** The packet builders, filling a zeroed buffer in place. */
module PacketBuilders {
  import opened Common
  import opened Bytes
  import opened Checksum
  import opened IpPackets

  /** A 16-bit conversion that does not fit ends the process. */
  datatype Outcome = Built(packet: seq<Byte>) | Nil | Trap

  method PutBytes(pkt: array<Byte>, at: nat, bytes: seq<Byte>)
    requires at + |bytes| <= pkt.Length
    modifies pkt
    ensures pkt[..at] == old(pkt[..at]) && pkt[at..at + |bytes|] == bytes
            && pkt[at + |bytes|..] == old(pkt[at + |bytes|..])
    ensures forall i | 0 <= i < pkt.Length && !(at <= i < at + |bytes|) :: pkt[i] == old(pkt[i])
  {
    for i := 0 to |bytes|
      invariant pkt[..at] == old(pkt[..at]) && pkt[at..at + i] == bytes[..i]
      invariant pkt[at + |bytes|..] == old(pkt[at + |bytes|..])
      invariant forall i | 0 <= i < pkt.Length && !(at <= i < at + |bytes|) :: pkt[i] == old(pkt[i])
    {
      pkt[at + i] := bytes[i];
    }
  }

  method Put16(pkt: array<Byte>, at: nat, v: UInt16)
    requires at + 2 <= pkt.Length
    modifies pkt
    ensures pkt[at] == Hi(v) && pkt[at + 1] == Lo(v)
    ensures forall i | 0 <= i < pkt.Length && i != at && i != at + 1 :: pkt[i] == old(pkt[i])
  {
    pkt[at], pkt[at + 1] := Hi(v), Lo(v);
  }

  method Put32(pkt: array<Byte>, at: nat, v: UInt32)
    requires at + 4 <= pkt.Length
    modifies pkt
    ensures [pkt[at], pkt[at + 1], pkt[at + 2], pkt[at + 3]] == Be32(v)
    ensures forall i | 0 <= i < pkt.Length && !(at <= i < at + 4) :: pkt[i] == old(pkt[i])
  {
    pkt[at], pkt[at + 1] := v / 0x100_0000, v / 0x1_0000 % 256;
    pkt[at + 2], pkt[at + 3] := v / 256 % 256, v % 256;
  }

  /** Sums a front and a back with a zeroed word between them, and fills the word. */
  method SealAt(pkt: array<Byte>, t: nat, end: nat, at: nat, pseudo: seq<Byte>)
    requires t <= at && at + 2 <= end <= pkt.Length && pkt[at] == 0 && pkt[at + 1] == 0
    requires |pseudo| + (end - t) <= 131072
    modifies pkt
    ensures pkt[t..end] == Seal(pseudo, old(pkt[t..at]), old(pkt[at + 2..end]))
    ensures pkt[..t] == old(pkt[..t]) && pkt[end..] == old(pkt[end..])
  {
    ghost var front, back := pkt[t..at], pkt[at + 2..end];
    assert pkt[t..end] == front + [0, 0] + back;
    var all := pseudo + pkt[t..end];
    var ck := OnesComplementChecksum(all, 0, |all|);
    assert all[0..0 + |all|] == all;
    hide Sum, Hi, Lo;
    Put16(pkt, at, ck);
    assert pkt[t..at] == front && pkt[at + 2..end] == back;
    assert pkt[at..at + 2] == Be16(ck);
    Slices(pkt[..], t, at, end);
    assert pkt[t..end] == pkt[..][t..end];
    assert pkt[t..end] == front + Be16(ck) + back;
  }

  lemma Slices(s: seq<Byte>, t: nat, at: nat, end: nat)
    requires t <= at && at + 2 <= end <= |s|
    ensures s[t..end] == s[t..at] + s[at..at + 2] + s[at + 2..end]
  {
  }

  predicate Zero(s: seq<Byte>) {
    forall i | 0 <= i < |s| :: s[i] == 0
  }

  method PutIpv4Front(pkt: array<Byte>, total: UInt16, proto: Byte)
    requires pkt.Length >= 20 && Zero(pkt[..20])
    modifies pkt
    ensures pkt[..10] == Ipv4Front(total, proto)
    ensures forall i | 10 <= i < pkt.Length :: pkt[i] == old(pkt[i])
  {
    ghost var z := pkt[..20];
    assert forall i | 0 <= i < 20 :: pkt[i] == z[i];
    hide Hi, Lo;
    pkt[0] := 0x45;
    pkt[2], pkt[3] := Hi(total), Lo(total);
    pkt[6] := 0x40;
    pkt[8] := 64;
    pkt[9] := proto;
  }

  method PutAddresses(pkt: array<Byte>, src: seq<Byte>, dst: seq<Byte>)
    requires pkt.Length >= 20 && |src| == 4 && |dst| == 4
    modifies pkt
    ensures pkt[12..20] == src + dst
    ensures forall i | 0 <= i < pkt.Length && !(12 <= i < 20) :: pkt[i] == old(pkt[i])
  {
    pkt[12], pkt[13], pkt[14], pkt[15] := src[0], src[1], src[2], src[3];
    pkt[16], pkt[17], pkt[18], pkt[19] := dst[0], dst[1], dst[2], dst[3];
  }

  method PutIpv4Fields(pkt: array<Byte>, total: UInt16, proto: Byte, src: seq<Byte>, dst: seq<Byte>)
    requires pkt.Length >= 20 && |src| == 4 && |dst| == 4 && Zero(pkt[..20])
    modifies pkt
    ensures pkt[..10] == Ipv4Front(total, proto) && pkt[10] == pkt[11] == 0 && pkt[12..20] == src + dst
    ensures pkt[20..] == old(pkt[20..])
  {
    hide Ipv4Front;
    assert pkt[..20][10] == 0 && pkt[..20][11] == 0;
    PutIpv4Front(pkt, total, proto);
    ghost var front := pkt[..10];
    PutAddresses(pkt, src, dst);
    assert pkt[..10] == front;
  }

  method PutIpv4Header(pkt: array<Byte>, total: UInt16, proto: Byte, src: seq<Byte>, dst: seq<Byte>)
    requires pkt.Length >= 20 && |src| == 4 && |dst| == 4 && Zero(pkt[..20])
    modifies pkt
    ensures pkt[..20] == Ipv4Header(total, proto, src, dst) && pkt[20..] == old(pkt[20..])
  {
    hide Seal, Ipv4Front, Zero;
    PutIpv4Fields(pkt, total, proto, src, dst);
    assert pkt[0..10] == pkt[..10];
    SealAt(pkt, 0, 20, 10, []);
    assert pkt[..20] == pkt[0..20];
  }

  method PutIpv6Header(pkt: array<Byte>, size: UInt16, proto: Byte, src: seq<Byte>, dst: seq<Byte>)
    requires pkt.Length >= 40 && |src| == 16 && |dst| == 16 && Zero(pkt[..40])
    modifies pkt
    ensures pkt[..40] == Ipv6Header(size, proto, src, dst) && pkt[40..] == old(pkt[40..])
  {
    forall i | 0 <= i < 40 ensures pkt[i] == 0 {
      assert pkt[..40][i] == 0;
    }
    pkt[0] := 0x60;
    pkt[4], pkt[5] := Hi(size), Lo(size);
    pkt[6] := proto;
    pkt[7] := 64;
    hide Hi, Lo, Zero;
    ghost var front := [0x60, 0, 0, 0, Hi(size), Lo(size), proto, 64];
    assert pkt[..8] == front;
    PutBytes(pkt, 8, src);
    PutBytes(pkt, 24, dst);
    assert pkt[..24][..8] == pkt[..8] && pkt[..24][8..] == pkt[8..24];
    assert pkt[..40] == pkt[..8] + pkt[8..24] + pkt[24..40];
    assert pkt[..40] == front + (src + dst);
  }

  method PutTcpFields(pkt: array<Byte>, t: nat, s: Segment)
    requires pkt.Length >= t + 16
    modifies pkt
    ensures forall i | 0 <= i < pkt.Length && !(t <= i < t + 16) :: pkt[i] == old(pkt[i])
    ensures pkt[t..t + 16] == TcpFront(s)
  {
    hide Hi, Lo;
    Put16(pkt, t, s.srcPort);
    Put16(pkt, t + 2, s.dstPort);
    Put32(pkt, t + 4, s.seqNo);
    Put32(pkt, t + 8, s.ack);
    pkt[t + 12] := 0x50;
    pkt[t + 13] := s.flags;
    Put16(pkt, t + 14, s.window);
  }

  /** The TCP header without its checksum, and the payload, from offset t on. */
  method PutTcp(pkt: array<Byte>, t: nat, s: Segment)
    requires pkt.Length == t + 20 + |s.payload| && Zero(pkt[t..t + 20])
    modifies pkt
    ensures pkt[..t] == old(pkt[..t]) && pkt[t..t + 16] == TcpFront(s)
    ensures pkt[t + 16] == pkt[t + 17] == 0 && pkt[t + 18..] == TcpBack(s)
  {
    hide TcpFront;
    ghost var z := pkt[t..t + 20];
    assert pkt[t + 16] == z[16] && pkt[t + 17] == z[17] && pkt[t + 18] == z[18] && pkt[t + 19] == z[19];
    PutTcpFields(pkt, t, s);
    ghost var front := pkt[t..t + 16];
    PutBytes(pkt, t + 20, s.payload);
    assert pkt[t..t + 16] == front;
    assert pkt[t + 20..t + 20 + |s.payload|] == pkt[t + 20..];
    assert pkt[t + 18..] == [pkt[t + 18], pkt[t + 19]] + pkt[t + 20..];
  }

  method PutUdpFields(pkt: array<Byte>, t: nat, d: Datagram)
    requires |d.payload| <= 65527 && pkt.Length >= t + 6
    modifies pkt
    ensures forall i | 0 <= i < pkt.Length && !(t <= i < t + 6) :: pkt[i] == old(pkt[i])
    ensures pkt[t..t + 6] == UdpFront(d)
  {
    hide Hi, Lo;
    Put16(pkt, t, d.srcPort);
    Put16(pkt, t + 2, d.dstPort);
    Put16(pkt, t + 4, 8 + |d.payload|);
  }

  method PutUdp(pkt: array<Byte>, t: nat, d: Datagram)
    requires |d.payload| <= 65527 && pkt.Length == t + 8 + |d.payload| && Zero(pkt[t..t + 8])
    modifies pkt
    ensures pkt[..t] == old(pkt[..t]) && pkt[t..t + 6] == UdpFront(d)
    ensures pkt[t + 6] == pkt[t + 7] == 0 && pkt[t + 8..] == d.payload
  {
    hide UdpFront;
    ghost var z := pkt[t..t + 8];
    assert pkt[t + 6] == z[6] && pkt[t + 7] == z[7];
    PutUdpFields(pkt, t, d);
    ghost var front := pkt[t..t + 6];
    PutBytes(pkt, t + 8, d.payload);
    assert pkt[t..t + 6] == front;
    assert pkt[t + 8..t + 8 + |d.payload|] == pkt[t + 8..];
  }

  /** Fills in a TCP segment from offset t to the end, checksum and all. */
  method FillTcp(pkt: array<Byte>, t: nat, s: Segment, pseudo: seq<Byte>)
    requires pkt.Length == t + 20 + |s.payload| && Zero(pkt[t..]) && |pseudo| + pkt.Length <= 131072
    modifies pkt
    ensures pkt[..] == old(pkt[..t]) + Seal(pseudo, TcpFront(s), TcpBack(s))
  {
    hide Seal, TcpFront, TcpBack;
    StartZero(pkt, t, 20);
    hide Zero;
    PutTcp(pkt, t, s);
    ToTheEnd(pkt, t + 18);
    SealAt(pkt, t, pkt.Length, t + 16, pseudo);
    InTwo(pkt, t);
  }

  /** The same for a UDP datagram. */
  method FillUdp(pkt: array<Byte>, t: nat, d: Datagram, pseudo: seq<Byte>)
    requires |d.payload| <= 65527 && pkt.Length == t + 8 + |d.payload| && Zero(pkt[t..])
    requires |pseudo| + pkt.Length <= 131072
    modifies pkt
    ensures pkt[..] == old(pkt[..t]) + Seal(pseudo, UdpFront(d), d.payload)
  {
    hide Seal, UdpFront;
    StartZero(pkt, t, 8);
    hide Zero;
    PutUdp(pkt, t, d);
    ToTheEnd(pkt, t + 8);
    SealAt(pkt, t, pkt.Length, t + 6, pseudo);
    InTwo(pkt, t);
  }

  lemma StartZero(pkt: array<Byte>, t: nat, n: nat)
    requires t + n <= pkt.Length && Zero(pkt[t..])
    ensures Zero(pkt[t..t + n])
  {
    assert pkt[t..t + n] == pkt[t..][..n];
  }

  lemma NewIsZero(pkt: array<Byte>, t: nat)
    requires t <= pkt.Length && forall i | 0 <= i < pkt.Length :: pkt[i] == 0
    ensures Zero(pkt[..t]) && Zero(pkt[t..])
  {
  }

  lemma ToTheEnd(pkt: array<Byte>, k: nat)
    requires k <= pkt.Length
    ensures pkt[k..] == pkt[k..pkt.Length]
  {
  }

  lemma InTwo(pkt: array<Byte>, k: nat)
    requires k <= pkt.Length
    ensures pkt[..] == pkt[..k] + pkt[k..pkt.Length]
  {
  }

  method BuildTCPv4Packet(src: seq<Byte>, dst: seq<Byte>, s: Segment) returns (r: Outcome)
    ensures r == if |src| == 4 && |dst| == 4 && |s.payload| <= 65495 then Built(TcpV4(src, dst, s)) else Nil
  {
    if |src| != 4 || |dst| != 4 {
      return Nil;
    }
    if |s.payload| > 65495 {
      return Nil;
    }
    var tcpLen: UInt16 := 20 + |s.payload|;
    var totalLen: UInt16 := 20 + tcpLen;
    var pkt := new Byte[totalLen](_ => 0);
    NewIsZero(pkt, 20);
    hide Ipv4Header, Seal, TcpFront, Zero, Hi, Lo;
    PutIpv4Header(pkt, totalLen, TCP, src, dst);
    FillTcp(pkt, 20, s, PseudoV4(src, dst, TCP, tcpLen));
    r := Built(pkt[..]);
  }

  method BuildTCPv6Packet(src: seq<Byte>, dst: seq<Byte>, s: Segment) returns (r: Outcome)
    ensures r == if |src| == 16 && |dst| == 16 && |s.payload| <= 65495 then Built(TcpV6(src, dst, s)) else Nil
  {
    if |src| != 16 || |dst| != 16 {
      return Nil;
    }
    if |s.payload| > 65495 {
      return Nil;
    }
    var tcpLen: UInt16 := 20 + |s.payload|;
    var totalLen := 40 + tcpLen as int;
    var pkt := new Byte[totalLen](_ => 0);
    NewIsZero(pkt, 40);
    hide Ipv6Header, Seal, TcpFront, Zero, Hi, Lo;
    PutIpv6Header(pkt, tcpLen, TCP, src, dst);
    FillTcp(pkt, 40, s, PseudoV6(src, dst, TCP, tcpLen));
    r := Built(pkt[..]);
  }

  function ReplyV4(src: seq<Byte>, dst: seq<Byte>, d: Datagram): Outcome {
    if |src| != 4 || |dst| != 4 || |d.payload| > 65527 then Nil
    else if |d.payload| > 65507 then Trap
    else Built(UdpV4(src, dst, d))
  }

  /** o is a packet whose checksums verify and that is read as the datagram. */
  predicate Delivers(o: Outcome, src: seq<Byte>, dst: seq<Byte>, d: Datagram) {
    && o.Built? && |o.packet| >= 20 && |o.packet| - 20 < 0x1_0000
    && Verifies(o.packet[..20]) && Verifies(src + dst + [0, 17] + Be16(|o.packet| - 20) + o.packet[20..])
    && ReadsUdp(ParseIPv4(o.packet), o.packet, src, dst, d)
  }

  /** Of the payloads the builder's guard admits, it delivers those of at most 65507
      bytes; on the others it ends the process, as it does on 65508 zeros. */
  lemma ReplyV4DeliversExactlyWhen(src: seq<Byte>, dst: seq<Byte>, d: Datagram)
    requires |src| == 4 && |dst| == 4 && |d.payload| <= 65527
    ensures Delivers(ReplyV4(src, dst, d), src, dst, d) <==> |d.payload| <= 65507
    ensures ReplyV4(src, dst, d).Trap? <==> |d.payload| > 65507
    ensures ReplyV4(src, dst, Datagram(d.srcPort, d.dstPort, seq(65508, _ => 0))) == Trap
  {
    if |d.payload| <= 65507 {
      hide UdpV4, ParseIPv4, Verifies, Be16, ReadsUdp;
      UdpV4Verifies(src, dst, d);
      UdpV4Parses(src, dst, d, []);
      assert UdpV4(src, dst, d) + [] == UdpV4(src, dst, d);
    }
  }

  /** The guard admits 20 payload sizes whose total length does not fit 16 bits. */
  method BuildIPv4UDPReply(src: seq<Byte>, dst: seq<Byte>, d: Datagram) returns (r: Outcome)
    ensures r == ReplyV4(src, dst, d)
  {
    if |src| != 4 || |dst| != 4 {
      return Nil;
    }
    if |d.payload| > 65527 {
      return Nil;
    }
    var udpLen: UInt16 := 8 + |d.payload|;
    if 20 + udpLen as int >= 0x1_0000 {
      return Trap;
    }
    var totalLen: UInt16 := 20 + udpLen;
    var pkt := new Byte[totalLen](_ => 0);
    NewIsZero(pkt, 20);
    hide Ipv4Header, Seal, UdpFront, Zero, Hi, Lo;
    PutIpv4Header(pkt, totalLen, UDP, src, dst);
    FillUdp(pkt, 20, d, PseudoV4(src, dst, UDP, udpLen));
    r := Built(pkt[..]);
  }

  method BuildIPv6UDPReply(src: seq<Byte>, dst: seq<Byte>, d: Datagram) returns (r: Outcome)
    ensures r == if |src| == 16 && |dst| == 16 && |d.payload| <= 65527 then Built(UdpV6(src, dst, d)) else Nil
  {
    if |src| != 16 || |dst| != 16 {
      return Nil;
    }
    if |d.payload| > 65527 {
      return Nil;
    }
    var udpLen: UInt16 := 8 + |d.payload|;
    var totalLen := 40 + udpLen as int;
    var pkt := new Byte[totalLen](_ => 0);
    NewIsZero(pkt, 40);
    hide Ipv6Header, Seal, UdpFront, Zero, Hi, Lo;
    PutIpv6Header(pkt, udpLen, UDP, src, dst);
    FillUdp(pkt, 40, d, PseudoV6(src, dst, UDP, udpLen));
    r := Built(pkt[..]);
  }

  lemma ZeroFieldExactlyWhen(pseudo: seq<Byte>, front: seq<Byte>, back: seq<Byte>)
    ensures Seal(pseudo, front, back)[|front|..|front| + 2] == [0, 0]
       <==> var sum := WordSum(pseudo + (front + [0, 0] + back)); sum > 0 && sum % 65535 == 0
  {
    var z := pseudo + (front + [0, 0] + back);
    FieldIsZero(z);
    hide Sum, Hi, Lo, WordSum;
    var f := Be16(Sum(z));
    assert Seal(pseudo, front, back)[|front|..|front| + 2] == f;
    assert f == [0, 0] <==> f[0] == 0 && f[1] == 0;
  }

  lemma FieldIsZero(z: seq<Byte>)
    ensures Hi(Sum(z)) == 0 && Lo(Sum(z)) == 0 <==> WordSum(z) > 0 && WordSum(z) % 65535 == 0
  {
    FoldKeeps(WordSum(z));
    hide WordSum, Fold;
    Halves(Sum(z));
  }

  lemma TwoWords(a: Byte, b: Byte, rest: seq<Byte>)
    ensures WordSum([a, b] + rest) == Word(a, b) + WordSum(rest)
  {
    assert ([a, b] + rest)[2..] == rest;
  }

  /** The words a UDP checksum is taken over. */
  function Summed(src: seq<Byte>, dst: seq<Byte>, d: Datagram): seq<Byte>
    requires |d.payload| <= 65507
  {
    PseudoV4(src, dst, UDP, 8 + |d.payload|) + (UdpFront(d) + [0, 0] + d.payload)
  }

  /** RFC 768 reserves a zero checksum field for "no checksum" and has a computed zero
      sent as all ones; the builder sends it as zero, exactly when the sum is a
      multiple of 65535. */
  lemma UdpZeroFieldExactlyWhen(src: seq<Byte>, dst: seq<Byte>, d: Datagram)
    requires |src| == 4 && |dst| == 4 && |d.payload| <= 65507
    ensures UdpV4(src, dst, d)[26..28] == [0, 0]
       <==> WordSum(Summed(src, dst, d)) > 0 && WordSum(Summed(src, dst, d)) % 65535 == 0
  {
    hide WordSum, Ipv4Header, PseudoV4, Verifies, Sum;
    var p, size := UdpV4(src, dst, d), |d.payload|;
    var pseudo, front := PseudoV4(src, dst, UDP, 8 + size), UdpFront(d);
    ZeroFieldExactlyWhen(pseudo, front, d.payload);
    HeaderSize(28 + size, UDP, src, dst);
    Cut(Ipv4Header(28 + size, UDP, src, dst), Seal(pseudo, front, d.payload));
    assert p[26..28] == p[20..][6..8];
  }

  /** The words a UDP checksum over IPv6 is taken over. */
  function SummedV6(src: seq<Byte>, dst: seq<Byte>, d: Datagram): seq<Byte>
    requires |d.payload| <= 65527
  {
    PseudoV6(src, dst, UDP, 8 + |d.payload|) + (UdpFront(d) + [0, 0] + d.payload)
  }

  /** Over IPv6 there is no datagram without a checksum: a zero field makes the receiver
      discard it (RFC 8200 section 8.1).  The builder sends one in the same cases. */
  lemma UdpV6ZeroFieldExactlyWhen(src: seq<Byte>, dst: seq<Byte>, d: Datagram)
    requires |src| == 16 && |dst| == 16 && |d.payload| <= 65527
    ensures UdpV6(src, dst, d)[46..48] == [0, 0]
       <==> WordSum(SummedV6(src, dst, d)) > 0 && WordSum(SummedV6(src, dst, d)) % 65535 == 0
  {
    hide WordSum, Ipv6Header, PseudoV6, Verifies, Sum;
    var p, size := UdpV6(src, dst, d), |d.payload|;
    var pseudo, front := PseudoV6(src, dst, UDP, 8 + size), UdpFront(d);
    ZeroFieldExactlyWhen(pseudo, front, d.payload);
    V6HeaderSize(8 + size, UDP, src, dst);
    Cut(Ipv6Header(8 + size, UDP, src, dst), Seal(pseudo, front, d.payload));
    assert p[46..48] == p[40..][6..8];
  }

  lemma V6HeaderSize(size: UInt16, proto: Byte, src: seq<Byte>, dst: seq<Byte>)
    requires |src| == 16 && |dst| == 16
    ensures |Ipv6Header(size, proto, src, dst)| == 40
  {
  }

  const NOWHERE: seq<Byte> := [0, 0, 0, 0]
  const NOTHING: Datagram := Datagram(65502, 0, [])

  lemma ExamplePacket()
    ensures Summed(NOWHERE, NOWHERE, NOTHING) == EXAMPLE
  {
    assert PseudoV4(NOWHERE, NOWHERE, UDP, 8) == [0, 0, 0, 0, 0, 0, 0, 0, 0, 17, 0, 8];
    assert UdpFront(NOTHING) == [255, 222, 0, 0, 0, 8];
  }

  /** For instance from 0.0.0.0 port 65502 to 0.0.0.0 port 0 without payload. */
  lemma ZeroFieldSent()
    ensures UdpV4(NOWHERE, NOWHERE, NOTHING)[26..28] == [0, 0]
  {
    hide UdpV4, Summed, WordSum;
    ExampleSum();
    ExamplePacket();
    UdpZeroFieldExactlyWhen(NOWHERE, NOWHERE, NOTHING);
  }

  const EXAMPLE: seq<Byte> := [0, 0, 0, 0, 0, 0, 0, 0, 0, 17, 0, 8, 255, 222, 0, 0, 0, 8, 0, 0]

  lemma ExampleSum()
    ensures WordSum(EXAMPLE) == 65535
  {
    hide WordSum;
    var tail: seq<Byte> := [255, 222, 0, 0, 0, 8, 0, 0];
    assert EXAMPLE == [0, 0] + ([0, 0] + ([0, 0] + ([0, 0] + ([0, 17] + ([0, 8] + tail)))));
    assert tail == [255, 222] + ([0, 0] + ([0, 8] + ([0, 0] + [])));
    TwoWords(0, 0, []);
    TwoWords(0, 8, [0, 0] + []);
    TwoWords(0, 0, [0, 8] + ([0, 0] + []));
    TwoWords(255, 222, [0, 0] + ([0, 8] + ([0, 0] + [])));
    TwoWords(0, 8, tail);
    TwoWords(0, 17, [0, 8] + tail);
    TwoWords(0, 0, [0, 17] + ([0, 8] + tail));
    TwoWords(0, 0, [0, 0] + ([0, 17] + ([0, 8] + tail)));
    TwoWords(0, 0, [0, 0] + ([0, 0] + ([0, 17] + ([0, 8] + tail))));
    TwoWords(0, 0, [0, 0] + ([0, 0] + ([0, 0] + ([0, 17] + ([0, 8] + tail)))));
    NothingSums();
  }

  lemma {:induction false} ZerosSum(k: nat)
    requires k % 2 == 0
    ensures WordSum(seq(k, _ => 0)) == 0
  {
    if k == 0 {
      NothingSums();
    } else {
      var rest: seq<Byte> := seq(k - 2, _ => 0);
      assert seq(k, _ => 0) == [0, 0] + rest;
      TwoWords(0, 0, rest);
      ZerosSum(k - 2);
    }
  }

  const NOWHERE_V6: seq<Byte> := seq(16, _ => 0)

  const EXAMPLE_V6: seq<Byte> := [0, 0, 0, 8, 0, 0, 0, 17, 255, 222, 0, 0, 0, 8, 0, 0]

  lemma ExampleSumV6()
    ensures WordSum(EXAMPLE_V6) == 65535
  {
    hide WordSum;
    var tail: seq<Byte> := [255, 222, 0, 0, 0, 8, 0, 0];
    assert EXAMPLE_V6 == [0, 0] + ([0, 8] + ([0, 0] + ([0, 17] + tail)));
    assert tail == [255, 222] + ([0, 0] + ([0, 8] + ([0, 0] + [])));
    TwoWords(0, 0, []);
    TwoWords(0, 8, [0, 0] + []);
    TwoWords(0, 0, [0, 8] + ([0, 0] + []));
    TwoWords(255, 222, [0, 0] + ([0, 8] + ([0, 0] + [])));
    TwoWords(0, 17, tail);
    TwoWords(0, 0, [0, 17] + tail);
    TwoWords(0, 8, [0, 0] + ([0, 17] + tail));
    TwoWords(0, 0, [0, 8] + ([0, 0] + ([0, 17] + tail)));
    NothingSums();
  }

  /** For instance from :: port 65502 to :: port 0 without payload. */
  lemma ZeroFieldSentV6()
    ensures UdpV6(NOWHERE_V6, NOWHERE_V6, NOTHING)[46..48] == [0, 0]
  {
    hide UdpV6, WordSum;
    var zeros: seq<Byte> := seq(32, _ => 0);
    assert SummedV6(NOWHERE_V6, NOWHERE_V6, NOTHING) == zeros + EXAMPLE_V6;
    WordSumAppend(zeros, EXAMPLE_V6);
    ZerosSum(32);
    ExampleSumV6();
    UdpV6ZeroFieldExactlyWhen(NOWHERE_V6, NOWHERE_V6, NOTHING);
  }
}

/** Raw IPv4 and IPv6 packets: reading them, and building TCP and UDP ones. */
module IpPackets {
  import opened Common
  import opened Bytes
  import opened Checksum

  // ----- reading ---------------------------------------------------------------------------

  datatype Packet = Packet(version: nat, proto: Byte, src: seq<Byte>, dst: seq<Byte>, totalBytes: nat, ihlBytes: nat,
                           transportOffset: nat, udp: UdpFields)

  /** Ports, and where the payload lies; all zero for what is not UDP. */
  datatype UdpFields = UdpFields(srcPort: UInt16, dstPort: UInt16, from: nat, to: nat)

  datatype TcpHeader = TcpHeader(srcPort: UInt16, dstPort: UInt16, seqNo: UInt32, ack: UInt32, headerBytes: nat,
                                 flags: Byte, window: UInt16, from: nat, to: nat)

  const TCP: Byte := 6
  const UDP: Byte := 17

  function Word32(a: Byte, b: Byte, c: Byte, d: Byte): UInt32 {
    ((a * 256 + b) * 256 + c) * 256 + d
  }

  function Max(a: int, b: int): int { if a <= b then b else a }

  function ReadUdp(b: seq<Byte>, proto: Byte, t: nat): (r: UdpFields)
    ensures r.from <= r.to <= |b|
  {
    if proto == UDP && |b| >= t + 8 then
      var end := Min(t + 8 + Max(0, Word(b[t + 4], b[t + 5]) - 8), |b|);
      UdpFields(Word(b[t], b[t + 1]), Word(b[t + 2], b[t + 3]),
                if t + 8 < end then t + 8 else 0, if t + 8 < end then end else 0)
    else UdpFields(0, 0, 0, 0)
  }

  function ParseIPv4(b: seq<Byte>): Option<Packet> {
    if |b| < 20 || b[0] / 16 != 4 then None else
      var ihl := b[0] % 16 * 4;
      if ihl < 20 || |b| < ihl then None
      else Some(Packet(4, b[9], b[12..16], b[16..20], Word(b[2], b[3]), ihl, ihl, ReadUdp(b, b[9], ihl)))
  }

  function ParseIPv6(b: seq<Byte>): Option<Packet> {
    if |b| < 40 || b[0] / 16 != 6 then None else
      var (transport, off) := Walk(b, b[6], 40);
      Some(Packet(6, transport, b[8..24], b[24..40], 40 + Word(b[4], b[5]), 0, off, ReadUdp(b, transport, off)))
  }

  function ParseTcp(p: Packet, b: seq<Byte>): (r: Option<TcpHeader>)
    ensures r.Some? ==> p.transportOffset + 20 <= r.value.from <= r.value.to <= |b|
  {
    var t := p.transportOffset;
    if p.proto != TCP || |b| < t + 20 then None else
      var dataOff := b[t + 12] / 16 * 4;
      if dataOff < 20 || |b| < t + dataOff then None
      else Some(TcpHeader(Word(b[t], b[t + 1]), Word(b[t + 2], b[t + 3]),
                          Word32(b[t + 4], b[t + 5], b[t + 6], b[t + 7]),
                          Word32(b[t + 8], b[t + 9], b[t + 10], b[t + 11]),
                          dataOff, b[t + 13], Word(b[t + 14], b[t + 15]),
                          t + dataOff, Min(|b|, Max(t + dataOff, p.totalBytes))))
  }

  // ----- the IPv6 extension headers -----------------------------------------------------------

  /** Hop-by-hop, routing and destination options carry their own length. */
  predicate Sized(nh: Byte) {
    nh == 0 || nh == 43 || nh == 60
  }

  const FRAGMENT: Byte := 44

  function Walk(b: seq<Byte>, nh: Byte, off: nat): (Byte, nat)
    decreases if off <= |b| then |b| - off else 0
  {
    if Sized(nh) then
      if |b| > off + 1 then Walk(b, b[off], off + (b[off + 1] as int + 1) * 8) else (nh, off)
    else if nh == FRAGMENT then
      if |b| > off then Walk(b, b[off], off + 8) else (nh, off)
    else (nh, off)
  }

  method WalkIPv6ExtHeaders(b: seq<Byte>, nextHeader: Byte, offset: nat) returns (transport: Byte, at: nat)
    ensures (transport, at) == Walk(b, nextHeader, offset)
  {
    var nh, off := nextHeader, offset;
    while true
      invariant Walk(b, nh, off) == Walk(b, nextHeader, offset)
      decreases if off <= |b| then |b| - off else 0
    {
      if Sized(nh) {
        if |b| <= off + 1 {
          return nh, off;
        }
        nh, off := b[off], off + (b[off + 1] as int + 1) * 8;
      } else if nh == FRAGMENT {
        if |b| <= off {
          return nh, off;
        }
        nh, off := b[off], off + 8;
      } else {
        return nh, off;
      }
    }
  }

  /** An extension header without its next-header byte (RFC 8200 section 4). */
  datatype Ext = Options(kind: Byte, size: Byte, body: seq<Byte>) | Fragment(body: seq<Byte>)

  predicate WellFormed(x: Ext) {
    if x.Options? then (x.kind == 0 || x.kind == 43 || x.kind == 60) && |x.body| == 6 + 8 * (x.size as int)
    else |x.body| == 7
  }

  function Kind(x: Ext): Byte {
    if x.Options? then x.kind else 44
  }

  function First(xs: seq<Ext>, transport: Byte): Byte {
    if xs == [] then transport else Kind(xs[0])
  }

  function ChainBytes(xs: seq<Ext>, transport: Byte): seq<Byte> {
    if xs == [] then []
    else HeadBytes(xs[0], First(xs[1..], transport)) + ChainBytes(xs[1..], transport)
  }

  function HeadBytes(x: Ext, next: Byte): seq<Byte> {
    [next] + (if x.Options? then [x.size] else []) + x.body
  }

  lemma WalkOne(before: seq<Byte>, x: Ext, next: Byte, rest: seq<Byte>)
    requires WellFormed(x)
    ensures var b := before + HeadBytes(x, next) + rest;
            Walk(b, Kind(x), |before|) == Walk(b, next, |before + HeadBytes(x, next)|)
  {
    var h := HeadBytes(x, next);
    var b := before + h + rest;
    assert b[|before|] == h[0] && b[|before| + 1] == h[1];
  }

  lemma Regroup4(a: seq<Byte>, b: seq<Byte>, c: seq<Byte>, d: seq<Byte>)
    ensures a + (b + c) + d == a + b + (c + d) == (a + b) + c + d
  {
  }

  /** The walk reaches the transport header behind any chain of extension headers. */
  lemma {:induction false} WalkChain(before: seq<Byte>, xs: seq<Ext>, transport: Byte, after: seq<Byte>)
    requires forall i | 0 <= i < |xs| :: WellFormed(xs[i])
    requires transport != 0 && transport != 43 && transport != 44 && transport != 60
    ensures Walk(before + ChainBytes(xs, transport) + after, First(xs, transport), |before|)
         == (transport, |before| + |ChainBytes(xs, transport)|)
    decreases |xs|
  {
    if xs != [] {
      hide Walk, WellFormed, HeadBytes;
      var h := HeadBytes(xs[0], First(xs[1..], transport));
      var more := ChainBytes(xs[1..], transport);
      assert ChainBytes(xs, transport) == h + more;
      Regroup4(before, h, more, after);
      assert forall i | 0 <= i < |xs[1..]| :: xs[1..][i] == xs[i + 1];
      WalkOne(before, xs[0], First(xs[1..], transport), more + after);
      WalkChain(before + h, xs[1..], transport, after);
    } else {
      assert before + ChainBytes(xs, transport) + after == before + after;
    }
  }

  // ----- the packets that are built -------------------------------------------------------------

  datatype Segment = Segment(srcPort: UInt16, dstPort: UInt16, seqNo: UInt32, ack: UInt32, flags: Byte, window: UInt16,
                             payload: seq<Byte>)

  datatype Datagram = Datagram(srcPort: UInt16, dstPort: UInt16, payload: seq<Byte>)

  function Be16(v: UInt16): (r: seq<Byte>)
    ensures |r| == 2
  {
    [Hi(v), Lo(v)]
  }

  function Be32(v: UInt32): (r: seq<Byte>)
    ensures |r| == 4
  {
    [v / 0x100_0000, v / 0x1_0000 % 256, v / 256 % 256, v % 256]
  }

  /** front and back with the checksum over them and a pseudo-header between them. */
  function Seal(pseudo: seq<Byte>, front: seq<Byte>, back: seq<Byte>): seq<Byte> {
    front + Be16(Sum(pseudo + (front + [0, 0] + back))) + back
  }

  lemma SealVerifies(pseudo: seq<Byte>, front: seq<Byte>, back: seq<Byte>)
    requires |pseudo| % 2 == 0 && |front| % 2 == 0
    ensures Verifies(pseudo + Seal(pseudo, front, back))
  {
    hide Verifies, Sum, Hi, Lo;
    var ck := Sum(pseudo + (front + [0, 0] + back));
    assert pseudo + (front + [0, 0] + back) == (pseudo + front) + [0, 0] + back;
    FilledVerifies(pseudo + front, back);
    assert pseudo + Seal(pseudo, front, back) == (pseudo + front) + [Hi(ck), Lo(ck)] + back;
  }

  function Ipv4Front(total: UInt16, proto: Byte): seq<Byte> {
    [0x45, 0, Hi(total), Lo(total), 0, 0, 0x40, 0, 64, proto]
  }

  function Ipv4Header(total: UInt16, proto: Byte, src: seq<Byte>, dst: seq<Byte>): seq<Byte> {
    Seal([], Ipv4Front(total, proto), src + dst)
  }

  function Ipv6Header(size: UInt16, proto: Byte, src: seq<Byte>, dst: seq<Byte>): seq<Byte> {
    [0x60, 0, 0, 0, Hi(size), Lo(size), proto, 64] + (src + dst)
  }

  function PseudoV4(src: seq<Byte>, dst: seq<Byte>, proto: Byte, size: UInt16): seq<Byte> {
    src + dst + [0, proto, Hi(size), Lo(size)]
  }

  function PseudoV6(src: seq<Byte>, dst: seq<Byte>, proto: Byte, size: UInt16): seq<Byte> {
    src + dst + [0, 0, Hi(size), Lo(size), 0, 0, 0, proto]
  }

  function TcpFront(s: Segment): seq<Byte> {
    Be16(s.srcPort) + Be16(s.dstPort) + Be32(s.seqNo) + Be32(s.ack) + [0x50, s.flags] + Be16(s.window)
  }

  function TcpBack(s: Segment): seq<Byte> {
    [0, 0] + s.payload
  }

  function UdpFront(d: Datagram): seq<Byte>
    requires |d.payload| <= 65527
  {
    Be16(d.srcPort) + Be16(d.dstPort) + Be16(8 + |d.payload|)
  }

  function TcpV4(src: seq<Byte>, dst: seq<Byte>, s: Segment): seq<Byte>
    requires |s.payload| <= 65495
  {
    Ipv4Header(40 + |s.payload|, TCP, src, dst)
    + Seal(PseudoV4(src, dst, TCP, 20 + |s.payload|), TcpFront(s), TcpBack(s))
  }

  function UdpV4(src: seq<Byte>, dst: seq<Byte>, d: Datagram): seq<Byte>
    requires |d.payload| <= 65507
  {
    Ipv4Header(28 + |d.payload|, UDP, src, dst)
    + Seal(PseudoV4(src, dst, UDP, 8 + |d.payload|), UdpFront(d), d.payload)
  }

  function TcpV6(src: seq<Byte>, dst: seq<Byte>, s: Segment): seq<Byte>
    requires |s.payload| <= 65495
  {
    Ipv6Header(20 + |s.payload|, TCP, src, dst)
    + Seal(PseudoV6(src, dst, TCP, 20 + |s.payload|), TcpFront(s), TcpBack(s))
  }

  function UdpV6(src: seq<Byte>, dst: seq<Byte>, d: Datagram): seq<Byte>
    requires |d.payload| <= 65527
  {
    Ipv6Header(8 + |d.payload|, UDP, src, dst)
    + Seal(PseudoV6(src, dst, UDP, 8 + |d.payload|), UdpFront(d), d.payload)
  }

  // ----- checksums verify -----------------------------------------------------------------------

  lemma HeaderSize(total: UInt16, proto: Byte, src: seq<Byte>, dst: seq<Byte>)
    requires |src| == 4 && |dst| == 4
    ensures |Ipv4Header(total, proto, src, dst)| == 20 && Verifies(Ipv4Header(total, proto, src, dst))
  {
    hide Verifies, Sum;
    SealVerifies([], Ipv4Front(total, proto), src + dst);
    assert [] + Ipv4Header(total, proto, src, dst) == Ipv4Header(total, proto, src, dst);
  }

  lemma Cut(a: seq<Byte>, b: seq<Byte>)
    ensures (a + b)[..|a|] == a && (a + b)[|a|..] == b
  {
  }

  /** Header and pseudo-header sums of every built packet verify by RFC 1071. */
  lemma TcpV4Verifies(src: seq<Byte>, dst: seq<Byte>, s: Segment)
    requires |src| == 4 && |dst| == 4 && |s.payload| <= 65495
    ensures var p := TcpV4(src, dst, s);
            |p| == 40 + |s.payload| && Verifies(p[..20]) && Verifies(src + dst + [0, 6] + Be16(|p| - 20) + p[20..])
  {
    hide Verifies, Sum, Hi, Lo, Ipv4Header;
    HeaderSize(40 + |s.payload|, TCP, src, dst);
    Cut(Ipv4Header(40 + |s.payload|, TCP, src, dst),
        Seal(PseudoV4(src, dst, TCP, 20 + |s.payload|), TcpFront(s), TcpBack(s)));
    SealVerifies(PseudoV4(src, dst, TCP, 20 + |s.payload|), TcpFront(s), TcpBack(s));
    assert PseudoV4(src, dst, TCP, 20 + |s.payload|) == src + dst + [0, 6] + Be16(20 + |s.payload|);
  }

  lemma UdpV4Verifies(src: seq<Byte>, dst: seq<Byte>, d: Datagram)
    requires |src| == 4 && |dst| == 4 && |d.payload| <= 65507
    ensures var p := UdpV4(src, dst, d);
            |p| == 28 + |d.payload| && Verifies(p[..20]) && Verifies(src + dst + [0, 17] + Be16(|p| - 20) + p[20..])
  {
    hide Verifies, Sum, Hi, Lo, Ipv4Header;
    HeaderSize(28 + |d.payload|, UDP, src, dst);
    Cut(Ipv4Header(28 + |d.payload|, UDP, src, dst),
        Seal(PseudoV4(src, dst, UDP, 8 + |d.payload|), UdpFront(d), d.payload));
    SealVerifies(PseudoV4(src, dst, UDP, 8 + |d.payload|), UdpFront(d), d.payload);
    assert PseudoV4(src, dst, UDP, 8 + |d.payload|) == src + dst + [0, 17] + Be16(8 + |d.payload|);
  }

  lemma TcpV6Verifies(src: seq<Byte>, dst: seq<Byte>, s: Segment)
    requires |src| == 16 && |dst| == 16 && |s.payload| <= 65495
    ensures var p := TcpV6(src, dst, s);
            |p| == 60 + |s.payload| && Verifies(src + dst + [0, 0] + Be16(|p| - 40) + [0, 0, 0, 6] + p[40..])
  {
    hide Verifies, Sum, Hi, Lo;
    Cut(Ipv6Header(20 + |s.payload|, TCP, src, dst),
        Seal(PseudoV6(src, dst, TCP, 20 + |s.payload|), TcpFront(s), TcpBack(s)));
    SealVerifies(PseudoV6(src, dst, TCP, 20 + |s.payload|), TcpFront(s), TcpBack(s));
    assert PseudoV6(src, dst, TCP, 20 + |s.payload|) == src + dst + [0, 0] + Be16(20 + |s.payload|) + [0, 0, 0, 6];
  }

  lemma UdpV6Verifies(src: seq<Byte>, dst: seq<Byte>, d: Datagram)
    requires |src| == 16 && |dst| == 16 && |d.payload| <= 65527
    ensures var p := UdpV6(src, dst, d);
            |p| == 48 + |d.payload| && Verifies(src + dst + [0, 0] + Be16(|p| - 40) + [0, 0, 0, 17] + p[40..])
  {
    hide Verifies, Sum, Hi, Lo;
    Cut(Ipv6Header(8 + |d.payload|, UDP, src, dst),
        Seal(PseudoV6(src, dst, UDP, 8 + |d.payload|), UdpFront(d), d.payload));
    SealVerifies(PseudoV6(src, dst, UDP, 8 + |d.payload|), UdpFront(d), d.payload);
    assert PseudoV6(src, dst, UDP, 8 + |d.payload|) == src + dst + [0, 0] + Be16(8 + |d.payload|) + [0, 0, 0, 17];
  }

  // ----- where the fields are ----------------------------------------------------------------

  /** The two bytes at i, most significant first. */
  function At16(b: seq<Byte>, i: nat): nat
    requires i + 2 <= |b|
  {
    0x100 * (b[i] as int) + b[i + 1]
  }

  function At32(b: seq<Byte>, i: nat): nat
    requires i + 4 <= |b|
  {
    At16(b, i) * 0x1_0000 + At16(b, i + 2)
  }

  /** RFC 791 section 3.1: version 4 and five words, no fragments, time to live 64. */
  predicate Ipv4Bytes(b: seq<Byte>, proto: Byte, src: seq<Byte>, dst: seq<Byte>)
    requires |b| >= 20
  {
    && b[0] == 0x45 && b[1] == 0 && At16(b, 2) == |b| && At16(b, 4) == 0 && At16(b, 6) == 0x4000 && b[8] == 64
    && b[9] == proto && b[12..16] == src && b[16..20] == dst
  }

  /** RFC 8200 section 3: version 6, the payload's length, hop limit 64. */
  predicate Ipv6Bytes(b: seq<Byte>, proto: Byte, src: seq<Byte>, dst: seq<Byte>)
    requires |b| >= 40
  {
    && b[0] == 0x60 && b[1] == 0 && At16(b, 2) == 0 && At16(b, 4) == |b| - 40 && b[6] == proto && b[7] == 64
    && b[8..24] == src && b[24..40] == dst
  }

  /** RFC 9293 section 3.1: a header of five words from t on, nothing urgent, and the payload. */
  predicate TcpBytes(b: seq<Byte>, t: nat, s: Segment)
    requires |b| >= t + 20
  {
    && At16(b, t) == s.srcPort && At16(b, t + 2) == s.dstPort && At32(b, t + 4) == s.seqNo && At32(b, t + 8) == s.ack
    && b[t + 12] == 0x50 && b[t + 13] == s.flags && At16(b, t + 14) == s.window && At16(b, t + 18) == 0
    && b[t + 20..] == s.payload
  }

  /** RFC 768: ports, length, and the payload. */
  predicate UdpBytes(b: seq<Byte>, t: nat, d: Datagram)
    requires |b| >= t + 8
  {
    && At16(b, t) == d.srcPort && At16(b, t + 2) == d.dstPort && At16(b, t + 4) == |b| - t
    && b[t + 8..] == d.payload
  }

  lemma Be16At(v: UInt16)
    ensures At16(Be16(v), 0) == v
  {
    Halves(v);
  }

  lemma Be32At(v: UInt32)
    ensures At32(Be32(v), 0) == v
  {
    var (a, b) := (v / 0x1_0000, v % 0x1_0000);
    assert Be32(v)[0] == a / 256 && Be32(v)[1] == a % 256;
    LowHalf(v);
    assert Be32(v)[2] == b / 256 && Be32(v)[3] == b % 256;
    hide Be32;
    assert At16(Be32(v), 0) == a && At16(Be32(v), 2) == b;
  }

  lemma LowHalf(v: UInt32)
    ensures v / 256 % 256 == v % 0x1_0000 / 256 && v % 256 == v % 0x1_0000 % 256
  {
    var (q, b) := (v / 0x1_0000, v % 0x1_0000);
    assert v == 256 * (256 * q) + b;
    assert v / 256 == 256 * q + b / 256;
  }

  lemma TcpFrontBytes(s: Segment)
    ensures var f := TcpFront(s);
            && |f| == 16 && At16(f, 0) == s.srcPort && At16(f, 2) == s.dstPort && At32(f, 4) == s.seqNo
            && At32(f, 8) == s.ack && f[12] == 0x50 && f[13] == s.flags && At16(f, 14) == s.window
  {
    Be16At(s.srcPort);
    Be16At(s.dstPort);
    Be32At(s.seqNo);
    Be32At(s.ack);
    Be16At(s.window);
    hide Be16, Be32;
  }

  lemma TcpSealed(head: seq<Byte>, pseudo: seq<Byte>, s: Segment)
    ensures var b := head + Seal(pseudo, TcpFront(s), TcpBack(s));
            |b| == |head| + 20 + |s.payload| && TcpBytes(b, |head|, s)
  {
    hide Sum, TcpFront, Be16;
    var f := TcpFront(s);
    var b := head + Seal(pseudo, f, TcpBack(s));
    TcpFrontBytes(s);
    assert forall i | 0 <= i < 16 :: b[|head| + i] == f[i];
    assert b[|head| + 20..] == s.payload;
  }

  lemma UdpSealed(head: seq<Byte>, pseudo: seq<Byte>, d: Datagram)
    requires |d.payload| <= 65527
    ensures var b := head + Seal(pseudo, UdpFront(d), d.payload);
            |b| == |head| + 8 + |d.payload| && UdpBytes(b, |head|, d)
  {
    Be16At(d.srcPort);
    Be16At(d.dstPort);
    Be16At(8 + |d.payload|);
    hide Sum, Be16;
    var f := UdpFront(d);
    var b := head + Seal(pseudo, f, d.payload);
    assert forall i | 0 <= i < 6 :: b[|head| + i] == f[i];
    assert b[|head| + 8..] == d.payload;
  }

  lemma Ipv4HeaderBytes(total: UInt16, proto: Byte, src: seq<Byte>, dst: seq<Byte>, rest: seq<Byte>)
    requires |src| == 4 && |dst| == 4 && total == 20 + |rest|
    ensures var b := Ipv4Header(total, proto, src, dst) + rest; |b| == total && Ipv4Bytes(b, proto, src, dst)
  {
    Halves(total);
    hide Sum, Hi, Lo;
    var h := Ipv4Header(total, proto, src, dst);
    assert |h| == 20 && h[..10] == Ipv4Front(total, proto) && h[12..16] == src && h[16..20] == dst;
  }

  lemma Ipv6HeaderBytes(size: UInt16, proto: Byte, src: seq<Byte>, dst: seq<Byte>, rest: seq<Byte>)
    requires |src| == 16 && |dst| == 16 && size == |rest|
    ensures var b := Ipv6Header(size, proto, src, dst) + rest; |b| == 40 + size && Ipv6Bytes(b, proto, src, dst)
  {
    Halves(size);
    hide Hi, Lo;
    var h := Ipv6Header(size, proto, src, dst);
    assert |h| == 40 && h[8..24] == src && h[24..40] == dst;
  }

  /** Every built packet has its fields where the standards put them. */
  lemma TcpV4Fields(src: seq<Byte>, dst: seq<Byte>, s: Segment)
    requires |src| == 4 && |dst| == 4 && |s.payload| <= 65495
    ensures var b := TcpV4(src, dst, s);
            |b| == 40 + |s.payload| && Ipv4Bytes(b, 6, src, dst) && TcpBytes(b, 20, s)
  {
    hide Seal, PseudoV4, TcpFront, TcpBack, TcpBytes, Ipv4Bytes;
    var t := Seal(PseudoV4(src, dst, TCP, 20 + |s.payload|), TcpFront(s), TcpBack(s));
    HeaderSize(40 + |s.payload|, TCP, src, dst);
    TcpSealed(Ipv4Header(40 + |s.payload|, TCP, src, dst), PseudoV4(src, dst, TCP, 20 + |s.payload|), s);
    Ipv4HeaderBytes(40 + |s.payload|, TCP, src, dst, t);
  }

  lemma UdpV4Fields(src: seq<Byte>, dst: seq<Byte>, d: Datagram)
    requires |src| == 4 && |dst| == 4 && |d.payload| <= 65507
    ensures var b := UdpV4(src, dst, d);
            |b| == 28 + |d.payload| && Ipv4Bytes(b, 17, src, dst) && UdpBytes(b, 20, d)
  {
    hide Seal, PseudoV4, UdpFront, UdpBytes, Ipv4Bytes;
    var t := Seal(PseudoV4(src, dst, UDP, 8 + |d.payload|), UdpFront(d), d.payload);
    HeaderSize(28 + |d.payload|, UDP, src, dst);
    UdpSealed(Ipv4Header(28 + |d.payload|, UDP, src, dst), PseudoV4(src, dst, UDP, 8 + |d.payload|), d);
    Ipv4HeaderBytes(28 + |d.payload|, UDP, src, dst, t);
  }

  lemma TcpV6Fields(src: seq<Byte>, dst: seq<Byte>, s: Segment)
    requires |src| == 16 && |dst| == 16 && |s.payload| <= 65495
    ensures var b := TcpV6(src, dst, s);
            |b| == 60 + |s.payload| && Ipv6Bytes(b, 6, src, dst) && TcpBytes(b, 40, s)
  {
    assert |Ipv6Header(20 + |s.payload|, TCP, src, dst)| == 40;
    hide Seal, PseudoV6, TcpFront, TcpBack, TcpBytes, Ipv6Bytes, Ipv6Header;
    var t := Seal(PseudoV6(src, dst, TCP, 20 + |s.payload|), TcpFront(s), TcpBack(s));
    TcpSealed(Ipv6Header(20 + |s.payload|, TCP, src, dst), PseudoV6(src, dst, TCP, 20 + |s.payload|), s);
    Ipv6HeaderBytes(20 + |s.payload|, TCP, src, dst, t);
  }

  lemma UdpV6Fields(src: seq<Byte>, dst: seq<Byte>, d: Datagram)
    requires |src| == 16 && |dst| == 16 && |d.payload| <= 65527
    ensures var b := UdpV6(src, dst, d);
            |b| == 48 + |d.payload| && Ipv6Bytes(b, 17, src, dst) && UdpBytes(b, 40, d)
  {
    assert |Ipv6Header(8 + |d.payload|, UDP, src, dst)| == 40;
    hide Seal, PseudoV6, UdpFront, UdpBytes, Ipv6Bytes, Ipv6Header;
    var t := Seal(PseudoV6(src, dst, UDP, 8 + |d.payload|), UdpFront(d), d.payload);
    UdpSealed(Ipv6Header(8 + |d.payload|, UDP, src, dst), PseudoV6(src, dst, UDP, 8 + |d.payload|), d);
    Ipv6HeaderBytes(8 + |d.payload|, UDP, src, dst, t);
  }

  /** Which packets are read, and from where; with options too. */
  lemma Ipv4Accepted(b: seq<Byte>)
    ensures ParseIPv4(b).Some? <==> |b| >= 20 && 0x45 <= b[0] <= 0x4F && |b| >= 4 * (b[0] - 0x40)
    ensures ParseIPv4(b).Some? ==>
              var p := ParseIPv4(b).value;
              && p.version == 4 && p.proto == b[9] && p.src == b[12..16] && p.dst == b[16..20]
              && p.totalBytes == At16(b, 2) && p.ihlBytes == p.transportOffset == 4 * (b[0] - 0x40)
  {
    hide ReadUdp;
  }

  lemma Word32At(b: seq<Byte>, i: nat)
    requires i + 4 <= |b|
    ensures Word32(b[i], b[i + 1], b[i + 2], b[i + 3]) == At32(b, i)
  {
  }

  lemma Ipv6Accepted(b: seq<Byte>)
    ensures ParseIPv6(b).Some? <==> |b| >= 40 && 0x60 <= b[0] <= 0x6F
    ensures ParseIPv6(b).Some? ==>
              var p := ParseIPv6(b).value;
              && p.version == 6 && p.src == b[8..24] && p.dst == b[24..40] && p.totalBytes == 40 + At16(b, 4)
              && (p.proto, p.transportOffset) == Walk(b, b[6], 40)
  {
    hide ReadUdp, Walk;
  }

  /** Which TCP headers are read, options or not; the payload ends with the packet, padding is cut off. */
  lemma TcpRead(p: Packet, b: seq<Byte>)
    ensures var t := p.transportOffset;
            ParseTcp(p, b).Some? <==>
              p.proto == 6 && |b| >= t + 20 && b[t + 12] >= 0x50 && |b| >= t + 4 * (b[t + 12] / 0x10)
    ensures ParseTcp(p, b).Some? ==>
              var (t, h) := (p.transportOffset, ParseTcp(p, b).value);
              && h.srcPort == At16(b, t) && h.dstPort == At16(b, t + 2) && h.seqNo == At32(b, t + 4)
              && h.ack == At32(b, t + 8) && h.flags == b[t + 13] && h.window == At16(b, t + 14)
              && h.headerBytes == 4 * (b[t + 12] / 0x10) && h.from == t + h.headerBytes
              && h.to == Min(|b|, Max(h.from, p.totalBytes))
  {
    if ParseTcp(p, b).Some? {
      var t := p.transportOffset;
      Word32At(b, t + 4);
      Word32At(b, t + 8);
      hide Word32, At32;
    }
  }

  /** UDP's payload ends where its length says, or with the packet; what is not UDP has no fields. */
  lemma UdpRead(b: seq<Byte>, proto: Byte, t: nat)
    ensures var r := ReadUdp(b, proto, t);
            if proto != 17 || |b| < t + 8 then r == UdpFields(0, 0, 0, 0)
            else && r.srcPort == At16(b, t) && r.dstPort == At16(b, t + 2)
                 && b[r.from..r.to] == b[t + 8..Min(|b|, Max(t + 8, t + At16(b, t + 4)))]
  {
  }

  // ----- what is built parses back -----------------------------------------------------------------

  lemma Word32RoundTrip(v: UInt32)
    ensures var b := Be32(v); Word32(b[0], b[1], b[2], b[3]) == v
  {
  }

  /** A transport header after `before`, and whatever follows the packet. */
  lemma TcpReads(before: seq<Byte>, s: Segment, sum: seq<Byte>, pad: seq<Byte>, p: Packet)
    requires |sum| == 2 && p.proto == TCP && p.transportOffset == |before|
            && p.totalBytes == |before| + 20 + |s.payload|
    ensures var b := before + (TcpFront(s) + sum + TcpBack(s)) + pad;
            var from := |before| + 20;
            var to := from + |s.payload|;
            && ParseTcp(p, b) == Some(TcpHeader(s.srcPort, s.dstPort, s.seqNo, s.ack, 20, s.flags, s.window, from, to))
            && to <= |b| && b[from..to] == s.payload
  {
    hide Word, Hi, Lo, Word32, Be32;
    var f := TcpFront(s);
    var b := before + (f + sum + TcpBack(s)) + pad;
    var t := |before|;
    assert |f| == 16 && f[12] == 0x50 && f[13] == s.flags;
    assert forall i | 0 <= i < 16 :: b[t + i] == f[i];
    assert b[t] == f[0] && b[t + 1] == f[1] && b[t + 2] == f[2] && b[t + 3] == f[3] && b[t + 12] == 0x50
            && b[t + 13] == s.flags;
    assert b[t + 4] == f[4] && b[t + 5] == f[5] && b[t + 6] == f[6] && b[t + 7] == f[7];
    assert b[t + 8] == f[8] && b[t + 9] == f[9] && b[t + 10] == f[10] && b[t + 11] == f[11];
    assert b[t + 14] == f[14] && b[t + 15] == f[15];
    Halves(s.srcPort);
    Halves(s.dstPort);
    Halves(s.window);
    Word32RoundTrip(s.seqNo);
    Word32RoundTrip(s.ack);
    assert b[t + 20..t + 20 + |s.payload|] == s.payload;
  }

  lemma UdpReads(before: seq<Byte>, d: Datagram, sum: seq<Byte>, pad: seq<Byte>)
    requires |sum| == 2 && |d.payload| <= 65527
    ensures var b := before + (UdpFront(d) + sum + d.payload) + pad;
            var from := if d.payload == [] then 0 else |before| + 8;
            var r := ReadUdp(b, UDP, |before|);
            && r == UdpFields(d.srcPort, d.dstPort, from, from + |d.payload|) && b[r.from..r.to] == d.payload
  {
    hide Word, Hi, Lo;
    var f := UdpFront(d);
    var b := before + (f + sum + d.payload) + pad;
    var t := |before|;
    assert b[t] == f[0] && b[t + 1] == f[1] && b[t + 2] == f[2] && b[t + 3] == f[3] && b[t + 4] == f[4]
            && b[t + 5] == f[5];
    Halves(d.srcPort);
    Halves(d.dstPort);
    Halves(8 + |d.payload|);
    assert b[t + 8..t + 8 + |d.payload|] == d.payload;
  }

  lemma Ipv4Reads(total: UInt16, proto: Byte, src: seq<Byte>, dst: seq<Byte>, rest: seq<Byte>)
    requires |src| == 4 && |dst| == 4
    ensures var b := Ipv4Header(total, proto, src, dst) + rest;
            ParseIPv4(b) == Some(Packet(4, proto, src, dst, total, 20, 20, ReadUdp(b, proto, 20)))
  {
    hide Word, Hi, Lo, Sum, ReadUdp;
    var h := Ipv4Header(total, proto, src, dst);
    var b := h + rest;
    Halves(total);
    assert h[0] == 0x45 && h[2] == Hi(total) && h[3] == Lo(total) && h[9] == proto;
    assert h[12..16] == src && h[16..20] == dst;
    assert b[0] == h[0] && b[2] == h[2] && b[3] == h[3] && b[9] == h[9] && b[12..16] == src && b[16..20] == dst;
  }

  lemma Ipv6Reads(size: UInt16, proto: Byte, src: seq<Byte>, dst: seq<Byte>, rest: seq<Byte>)
    requires |src| == 16 && |dst| == 16 && !Sized(proto) && proto != FRAGMENT
    ensures var b := Ipv6Header(size, proto, src, dst) + rest;
            ParseIPv6(b) == Some(Packet(6, proto, src, dst, 40 + size, 0, 40, ReadUdp(b, proto, 40)))
  {
    hide Word, Hi, Lo, ReadUdp;
    var h := Ipv6Header(size, proto, src, dst);
    var b := h + rest;
    Halves(size);
    assert h[0] == 0x60 && h[4] == Hi(size) && h[5] == Lo(size) && h[6] == proto;
    assert h[8..24] == src && h[24..40] == dst;
    assert b[0] == h[0] && b[4] == h[4] && b[5] == h[5] && b[6] == h[6] && b[8..24] == src && b[24..40] == dst;
  }

  /** b is read as this TCP segment between src and dst. */
  predicate ReadsTcp(p: Option<Packet>, b: seq<Byte>, src: seq<Byte>, dst: seq<Byte>, s: Segment) {
    && p.Some? && p.value.src == src && p.value.dst == dst && ParseTcp(p.value, b).Some?
    && var h := ParseTcp(p.value, b).value;
       Segment(h.srcPort, h.dstPort, h.seqNo, h.ack, h.flags, h.window, b[h.from..h.to]) == s
  }

  predicate ReadsUdp(p: Option<Packet>, b: seq<Byte>, src: seq<Byte>, dst: seq<Byte>, d: Datagram) {
    && p.Some? && p.value.src == src && p.value.dst == dst && p.value.proto == UDP && p.value.udp.to <= |b|
    && p.value.udp.from <= p.value.udp.to
    && Datagram(p.value.udp.srcPort, p.value.udp.dstPort, b[p.value.udp.from..p.value.udp.to]) == d
  }

  /** Parsing what was built gives back every field and the payload, also with
      padding behind the packet. */
  lemma TcpV4Parses(src: seq<Byte>, dst: seq<Byte>, s: Segment, pad: seq<Byte>)
    requires |src| == 4 && |dst| == 4 && |s.payload| <= 65495
    ensures ReadsTcp(ParseIPv4(TcpV4(src, dst, s) + pad), TcpV4(src, dst, s) + pad, src, dst, s)
  {
    var h, t := Ipv4Header(40 + |s.payload|, TCP, src, dst),
        Seal(PseudoV4(src, dst, TCP, 20 + |s.payload|), TcpFront(s), TcpBack(s));
    HeaderSize(40 + |s.payload|, TCP, src, dst);
    Regroup(h, t, pad);
    Ipv4Reads(40 + |s.payload|, TCP, src, dst, t + pad);
    TcpFrontSize(s);
    SealMiddle(PseudoV4(src, dst, TCP, 20 + |s.payload|), TcpFront(s), TcpBack(s));
    hide ParseIPv4, ParseTcp, ReadUdp, Ipv4Header, PseudoV4, TcpFront, TcpBack, Verifies, Sum, Be16, Seal;
    TcpReads(h, s, t[16..18], pad, ParseIPv4(h + t + pad).value);
  }

  lemma SealMiddle(pseudo: seq<Byte>, front: seq<Byte>, back: seq<Byte>)
    ensures var t := Seal(pseudo, front, back);
            |t| == |front| + 2 + |back| && t == front + t[|front|..|front| + 2] + back
  {
    hide Sum, Be16;
  }

  lemma TcpFrontSize(s: Segment)
    ensures |TcpFront(s)| == 16
  {
  }

  lemma UdpV4Parses(src: seq<Byte>, dst: seq<Byte>, d: Datagram, pad: seq<Byte>)
    requires |src| == 4 && |dst| == 4 && |d.payload| <= 65507
    ensures ReadsUdp(ParseIPv4(UdpV4(src, dst, d) + pad), UdpV4(src, dst, d) + pad, src, dst, d)
  {
    var size := |d.payload|;
    var h, t := Ipv4Header(28 + size, UDP, src, dst), Seal(PseudoV4(src, dst, UDP, 8 + size), UdpFront(d), d.payload);
    HeaderSize(28 + size, UDP, src, dst);
    Regroup(h, t, pad);
    Ipv4Reads(28 + size, UDP, src, dst, t + pad);
    assert |UdpFront(d)| == 6;
    SealMiddle(PseudoV4(src, dst, UDP, 8 + size), UdpFront(d), d.payload);
    hide ParseIPv4, ReadUdp, Ipv4Header, PseudoV4, Verifies, Sum, Be16, Seal, UdpFront;
    UdpReads(h, d, t[6..8], pad);
  }

  lemma TcpV6Parses(src: seq<Byte>, dst: seq<Byte>, s: Segment, pad: seq<Byte>)
    requires |src| == 16 && |dst| == 16 && |s.payload| <= 65495
    ensures ReadsTcp(ParseIPv6(TcpV6(src, dst, s) + pad), TcpV6(src, dst, s) + pad, src, dst, s)
  {
    var size := |s.payload|;
    var h, t := Ipv6Header(20 + size, TCP, src, dst), Seal(PseudoV6(src, dst, TCP, 20 + size), TcpFront(s), TcpBack(s));
    assert |h| == 40;
    Regroup(h, t, pad);
    Ipv6Reads(20 + size, TCP, src, dst, t + pad);
    TcpFrontSize(s);
    SealMiddle(PseudoV6(src, dst, TCP, 20 + size), TcpFront(s), TcpBack(s));
    hide ParseIPv6, ParseTcp, ReadUdp, Ipv6Header, PseudoV6, TcpFront, TcpBack, Sum, Be16, Seal;
    TcpReads(h, s, t[16..18], pad, ParseIPv6(h + t + pad).value);
  }

  lemma UdpV6Parses(src: seq<Byte>, dst: seq<Byte>, d: Datagram, pad: seq<Byte>)
    requires |src| == 16 && |dst| == 16 && |d.payload| <= 65527
    ensures ReadsUdp(ParseIPv6(UdpV6(src, dst, d) + pad), UdpV6(src, dst, d) + pad, src, dst, d)
  {
    var size := |d.payload|;
    var h, t := Ipv6Header(8 + size, UDP, src, dst), Seal(PseudoV6(src, dst, UDP, 8 + size), UdpFront(d), d.payload);
    assert |h| == 40;
    Regroup(h, t, pad);
    Ipv6Reads(8 + size, UDP, src, dst, t + pad);
    assert |UdpFront(d)| == 6;
    SealMiddle(PseudoV6(src, dst, UDP, 8 + size), UdpFront(d), d.payload);
    hide ParseIPv6, ReadUdp, Ipv6Header, PseudoV6, Sum, Be16, Seal, UdpFront;
    UdpReads(h, d, t[6..8], pad);
  }
}

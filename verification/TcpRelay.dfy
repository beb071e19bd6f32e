/** The TCP relay's server-to-client direction: what the packets it writes give a plain
    in-order TCP receiver, and when that is exactly what the client's server sent. */
module TcpRelay {
  import opened Common
  import opened Bytes
  import opened Checksum
  import opened IpPackets
  import opened PacketBuilders

  /** The client's view of a connection; addresses as four bytes. */
  datatype FlowKey = FlowKey(src: seq<Byte>, srcPort: UInt16, dst: seq<Byte>, dstPort: UInt16)

  predicate V4Key(k: FlowKey) {
    |k.src| == 4 && |k.dst| == 4
  }

  predicate IsFin(flags: Byte) { flags % 2 == 1 }

  predicate IsSyn(flags: Byte) { flags / 2 % 2 == 1 }

  predicate IsRst(flags: Byte) { flags / 4 % 2 == 1 }

  predicate IsAck(flags: Byte) { flags / 16 % 2 == 1 }

  /** The control bits of RFC 9293 section 3.1, from the lowest: FIN, SYN, RST, PSH, ACK. */
  lemma ControlBits(flags: Byte, fin: nat, syn: nat, rst: nat, psh: nat, ack: nat, more: nat)
    requires fin < 2 && syn < 2 && rst < 2 && psh < 2 && ack < 2
    requires flags == fin + 2 * syn + 4 * rst + 8 * psh + 16 * ack + 32 * more
    ensures IsFin(flags) <==> fin == 1
    ensures IsSyn(flags) <==> syn == 1
    ensures IsRst(flags) <==> rst == 1
    ensures IsAck(flags) <==> ack == 1
  {
    assert flags / 2 == syn + 2 * rst + 4 * psh + 8 * ack + 16 * more;
    assert flags / 4 == rst + 2 * psh + 4 * ack + 8 * more;
    assert flags / 16 == ack + 2 * more;
  }

  /** Addition that wraps around at 32 bits. */
  function Wrap(a: UInt32, n: nat): UInt32 {
    (a + n) % U32
  }

  lemma WrapTwice(a: UInt32, m: nat, n: nat)
    ensures Wrap(Wrap(a, m), n) == Wrap(a, m + n)
  {
    var q := (a + m) / U32;
    assert (a + m) % U32 == a + m - U32 * q;
    SameMod((a + m) % U32 + n, a + (m + n), q);
  }

  lemma SameMod(x: nat, y: nat, q: nat)
    requires x + U32 * q == y
    ensures x % U32 == y % U32
  {
    var r, p := x % U32, x / U32;
    assert y == U32 * (p + q) + r;
  }

  // ----- an in-order receiver ------------------------------------------------------------------

  datatype Rx = Closed | Stream(next: UInt32, data: seq<Byte>, fin: bool)

  /** The receiver of a client whose SYN had number isn: it opens on a SYN that acknowledges that
      number, and takes any other segment only if it acknowledges and is at the number expected
      next.  A reset adds nothing to what has been received. */
  function Accept(rx: Rx, s: Segment, isn: UInt32): Rx {
    if IsRst(s.flags) || !IsAck(s.flags) then rx
    else if IsSyn(s.flags) then
      if s.ack == Wrap(isn, 1) then Stream(Wrap(s.seqNo, 1), [], false) else rx
    else if rx.Stream? && !rx.fin && s.seqNo == rx.next then
      Stream(Wrap(rx.next, |s.payload| + if IsFin(s.flags) then 1 else 0), rx.data + s.payload, IsFin(s.flags))
    else rx
  }

  /** The client a packet is for, and its segment. */
  function Read(b: seq<Byte>): Option<(FlowKey, Segment)> {
    var p := ParseIPv4(b);
    if p.None? || ParseTcp(p.value, b).None? then None else
      var h := ParseTcp(p.value, b).value;
      Some((FlowKey(p.value.dst, h.dstPort, p.value.src, h.srcPort),
            Segment(h.srcPort, h.dstPort, h.seqNo, h.ack, h.flags, h.window, b[h.from..h.to])))
  }

  function ReceivePacket(rx: Rx, b: seq<Byte>, k: FlowKey, isn: UInt32): Rx {
    if Read(b).None? || Read(b).value.0 != k then rx else Accept(rx, Read(b).value.1, isn)
  }

  /** What client k, whose SYN had number isn, has after these packets. */
  function Received(packets: seq<seq<Byte>>, k: FlowKey, isn: UInt32): Rx
    decreases |packets|
  {
    if packets == [] then Closed
    else ReceivePacket(Received(packets[..|packets| - 1], k, isn), packets[|packets| - 1], k, isn)
  }

  function ToClient(k: FlowKey, seqNo: UInt32, ack: UInt32, flags: Byte, payload: seq<Byte>): Segment {
    Segment(k.dstPort, k.srcPort, seqNo, ack, flags, 65535, payload)
  }

  /** Packets with these segments for client k, in order, have been written. */
  ghost predicate Wrote(before: seq<seq<Byte>>, after: seq<seq<Byte>>, k: FlowKey, segments: seq<Segment>) {
    && |after| == |before| + |segments| && after[..|before|] == before
    && forall i | 0 <= i < |segments| :: Read(after[|before| + i]) == Some((k, segments[i]))
  }

  lemma WroteNothing(packets: seq<seq<Byte>>, k: FlowKey)
    ensures Wrote(packets, packets, k, [])
  {
  }

  lemma WroteMore(before: seq<seq<Byte>>, mid: seq<seq<Byte>>, after: seq<seq<Byte>>, k: FlowKey,
                  ss: seq<Segment>, ts: seq<Segment>)
    requires Wrote(before, mid, k, ss) && Wrote(mid, after, k, ts)
    ensures Wrote(before, after, k, ss + ts)
  {
    hide Read;
    forall i | 0 <= i < |ss + ts| ensures Read(after[|before| + i]) == Some((k, (ss + ts)[i])) {
      if i < |ss| {
        assert after[|before| + i] == mid[|before| + i];
      } else {
        assert after[|before| + i] == after[|mid| + (i - |ss|)];
      }
    }
  }

  /** A packet the relay builds is read as the segment it was built from. */
  lemma ReadsBack(k: FlowKey, seqNo: UInt32, ack: UInt32, flags: Byte, payload: seq<Byte>)
    requires V4Key(k) && |payload| <= 65495
    ensures var s := ToClient(k, seqNo, ack, flags, payload); Read(TcpV4(k.dst, k.src, s)) == Some((k, s))
  {
    var s := ToClient(k, seqNo, ack, flags, payload);
    var b := TcpV4(k.dst, k.src, s);
    TcpV4Parses(k.dst, k.src, s, []);
    assert b + [] == b;
    hide TcpV4, ParseIPv4, ParseTcp;
  }

  lemma Delivered(packets: seq<seq<Byte>>, k: FlowKey, seqNo: UInt32, ack: UInt32, flags: Byte, payload: seq<Byte>)
    requires V4Key(k) && |payload| <= 65495
    ensures var s := ToClient(k, seqNo, ack, flags, payload);
            Wrote(packets, packets + [TcpV4(k.dst, k.src, s)], k, [s])
  {
    hide TcpV4, Read, ToClient;
    ReadsBack(k, seqNo, ack, flags, payload);
  }

  /** It reaches the client it is for, and no other. */
  lemma WroteOne(before: seq<seq<Byte>>, after: seq<seq<Byte>>, k: FlowKey, s: Segment, other: FlowKey, isn: UInt32)
    requires Wrote(before, after, k, [s])
    ensures Received(after, other, isn)
         == if other == k then Accept(Received(before, k, isn), s, isn) else Received(before, other, isn)
  {
    hide Read, Accept;
    assert Read(after[|before| + 0]) == Some((k, [s][0]));
    assert after[|before| + 0] == after[|after| - 1] && after[..|after| - 1] == before;
  }

  // ----- what connections hand over --------------------------------------------------------------

  /** A connection to a server: the key it was opened for, and the bytes that its receives
      have returned so far. */
  datatype Connection = Connection(key: FlowKey, handed: seq<Byte>)

  /** Bytes that a receive returned while its key was open, and the connection they came from. */
  datatype Chunk = Chunk(conn: nat, data: seq<Byte>)

  /** A key since its last SYN: the SYN's number, the connection then made, and what has come back
      since. */
  datatype Opening = Opening(isn: UInt32, conn: nat, chunks: seq<Chunk>)

  function Joined(cs: seq<Chunk>): seq<Byte> {
    if cs == [] then [] else Joined(cs[..|cs| - 1]) + cs[|cs| - 1].data
  }

  /** The bytes of one connection. */
  function Own(cs: seq<Chunk>, conn: nat): seq<Byte> {
    if cs == [] then [] else
      Own(cs[..|cs| - 1], conn) + if cs[|cs| - 1].conn == conn then cs[|cs| - 1].data else []
  }

  /** No other connection has brought any bytes. */
  predicate OnlyFrom(cs: seq<Chunk>, conn: nat) {
    forall i | 0 <= i < |cs| :: cs[i].conn == conn || cs[i].data == []
  }

  lemma {:induction false} JoinedIsOwnExactlyWhen(cs: seq<Chunk>, conn: nat)
    ensures |Own(cs, conn)| <= |Joined(cs)|
    ensures |Own(cs, conn)| == |Joined(cs)| <==> OnlyFrom(cs, conn)
    ensures Own(cs, conn) == Joined(cs) <==> OnlyFrom(cs, conn)
  {
    if cs == [] {
    } else {
      var n := |cs| - 1;
      JoinedIsOwnExactlyWhen(cs[..n], conn);
      assert OnlyFrom(cs, conn) <==> OnlyFrom(cs[..n], conn) && (cs[n].conn == conn || cs[n].data == []);
    }
  }

  lemma ChunkAdded(cs: seq<Chunk>, c: Chunk, conn: nat)
    ensures Joined(cs + [c]) == Joined(cs) + c.data
    ensures Own(cs + [c], conn) == Own(cs, conn) + if c.conn == conn then c.data else []
  {
    assert (cs + [c])[..|cs|] == cs;
  }

  // ----- the relay ---------------------------------------------------------------------------

  datatype FlowState = FlowState(conn: nat, clientSeqNext: UInt32, serverSeqNext: UInt32,
                                 clientFinSeen: bool, lastActivity: int)

  /** A SYN that is not an answer to one; a reset is looked at first. */
  predicate Opens(tcp: TcpHeader) {
    !IsRst(tcp.flags) && IsSyn(tcp.flags) && !IsAck(tcp.flags)
  }

  /** What a client's segment may change: what is expected from it, and that it has finished. */
  predicate Progress(was: FlowState, now: FlowState, tcp: TcpHeader)
    requires tcp.from <= tcp.to
  {
    && now.conn == was.conn && now.serverSeqNext == was.serverSeqNext
    && (now.clientFinSeen <==> was.clientFinSeen || IsFin(tcp.flags))
    && now.clientSeqNext == if tcp.to > tcp.from then Wrap(tcp.seqNo, tcp.to - tcp.from)
                            else if IsFin(tcp.flags) && !was.clientFinSeen then Wrap(was.clientSeqNext, 1)
                            else was.clientSeqNext
  }

  const RECEIVE_LIMIT: nat := 65495

  const ACK: Byte := 0x10
  const PSH_ACK: Byte := 0x18
  const FIN_ACK: Byte := 0x11
  const SYN_ACK: Byte := 0x12
  const RST_ACK: Byte := 0x14

  /** The client has what came back for its key; of that, what its own connection brought
      is the beginning of what this connection has handed over. */
  ghost predicate Kept(k: FlowKey, o: Opening, conns: seq<Connection>, rx: Rx) {
    && o.conn < |conns| && conns[o.conn].key == k
    && (forall i | 0 <= i < |o.chunks| :: o.chunks[i].conn < |conns| && conns[o.chunks[i].conn].key == k)
    && Own(o.chunks, o.conn) <= conns[o.conn].handed
    && rx.Stream? && rx.data == Joined(o.chunks)
  }

  /** An open flow is being received for, and its client lacks nothing of what its
      connection handed over. */
  ghost predicate InStep(k: FlowKey, f: FlowState, o: Opening, conns: seq<Connection>, receiving: set<nat>, rx: Rx) {
    && V4Key(k) && f.conn == o.conn < |conns| && f.conn in receiving
    && rx == Stream(f.serverSeqNext, Joined(o.chunks), false)
    && Own(o.chunks, o.conn) == conns[o.conn].handed
  }

  /** conns after one of them handed over data. */
  function HandedOver(conns: seq<Connection>, conn: nat, data: seq<Byte>): (r: seq<Connection>)
    requires conn < |conns|
    ensures |r| == |conns| && r[conn].handed == conns[conn].handed + data
    ensures forall c | 0 <= c < |conns| :: r[c].key == conns[c].key && (c != conn ==> r[c] == conns[c])
  {
    conns[conn := Connection(conns[conn].key, conns[conn].handed + data)]
  }

  lemma OtherHanded(k: FlowKey, f: FlowState, o: Opening, conns: seq<Connection>, receiving: set<nat>, rx: Rx,
                    conn: nat, data: seq<Byte>)
    requires conn < |conns|
    ensures Kept(k, o, conns, rx) ==> Kept(k, o, HandedOver(conns, conn, data), rx)
    ensures f.conn != conn && InStep(k, f, o, conns, receiving, rx) ==>
              InStep(k, f, o, HandedOver(conns, conn, data), receiving, rx)
              && InStep(k, f, o, HandedOver(conns, conn, data), receiving - {conn}, rx)
  {
    hide Joined, Own, V4Key;
  }

  lemma ConnectionAdded(k: FlowKey, f: FlowState, o: Opening, conns: seq<Connection>, receiving: set<nat>, rx: Rx,
                        c: Connection)
    ensures Kept(k, o, conns, rx) ==> Kept(k, o, conns + [c], rx)
    ensures InStep(k, f, o, conns, receiving, rx) ==> InStep(k, f, o, conns + [c], receiving + {|conns|}, rx)
  {
    hide Joined, Own, V4Key;
  }

  /** A chunk is handed over, written and noted: its flow stays in step. */
  lemma ChunkInStep(k: FlowKey, f: FlowState, o: Opening, conns: seq<Connection>, receiving: set<nat>, rx: Rx,
                    conn: nat, data: seq<Byte>, seqNext: UInt32, now: int)
    requires InStep(k, f, o, conns, receiving, rx) && Kept(k, o, conns, rx)
    requires conn < |conns| && conns[conn].key == k
    ensures var (o', f') := (o.(chunks := o.chunks + [Chunk(conn, data)]),
                             f.(serverSeqNext := seqNext, lastActivity := now));
            && rx.Stream?
            && var rx' := Stream(seqNext, rx.data + data, false);
            && InStep(k, f', o', HandedOver(conns, conn, data), receiving, rx')
            && Kept(k, o', HandedOver(conns, conn, data), rx')
            && rx'.data == Joined(o'.chunks)
  {
    ChunkAdded(o.chunks, Chunk(conn, data), o.conn);
    assert conns[o.conn].handed + [] == conns[o.conn].handed;
    hide Joined, Own, V4Key;
  }

  lemma StartInStep(k: FlowKey, isn: UInt32, f: FlowState, conns: seq<Connection>, receiving: set<nat>)
    requires V4Key(k) && f.conn == |conns|
    ensures var (cs, o) := (conns + [Connection(k, [])], Opening(isn, f.conn, []));
            var rx := Stream(f.serverSeqNext, [], false);
            InStep(k, f, o, cs, receiving + {f.conn}, rx) && Kept(k, o, cs, rx)
  {
  }

  lemma DataAccepted(rx: Rx, k: FlowKey, seqNo: UInt32, ack: UInt32, data: seq<Byte>, isn: UInt32)
    requires rx.Stream? && !rx.fin && rx.next == seqNo
    ensures Accept(rx, ToClient(k, seqNo, ack, PSH_ACK, data), isn)
         == Stream(Wrap(seqNo, |data|), rx.data + data, false)
  {
  }

  lemma SynAnswered(rx: Rx, k: FlowKey, isn: UInt32, serverISN: UInt32)
    ensures Accept(rx, ToClient(k, serverISN, Wrap(isn, 1), SYN_ACK, []), isn) == Stream(Wrap(serverISN, 1), [], false)
  {
  }

  /** An acknowledgement without data changes nothing the client has. */
  lemma NothingTaken(rx: Rx, k: FlowKey, seqNo: UInt32, ack: UInt32, isn: UInt32)
    ensures Accept(rx, ToClient(k, seqNo, ack, ACK, []), isn) == rx
  {
    if rx.Stream? {
      NothingNew(rx.data, rx.next);
    }
  }

  lemma ResetTakesNothing(rx: Rx, k: FlowKey, seqNo: UInt32, ack: UInt32, isn: UInt32)
    ensures Accept(rx, ToClient(k, seqNo, ack, RST_ACK, []), isn) == rx
  {
  }

  lemma FinTaken(rx: Rx, k: FlowKey, seqNo: UInt32, ack: UInt32, isn: UInt32)
    requires rx.Stream? && !rx.fin && rx.next == seqNo
    ensures Accept(rx, ToClient(k, seqNo, ack, FIN_ACK, []), isn) == Stream(Wrap(seqNo, 1), rx.data, true)
  {
    NothingNew(rx.data, rx.next);
  }

  class Relay {
    var flows: map<FlowKey, FlowState>
    /** Packets handed to the tunnel, in order. */
    var written: seq<seq<Byte>>
    /** Connections made so far; each is known by its number. */
    var made: nat
    ghost var conns: seq<Connection>
    /** Connections with a receive outstanding. */
    ghost var receiving: set<nat>
    /** Every key ever opened. */
    ghost var openings: map<FlowKey, Opening>

    /** What client k has since it last opened its key. */
    ghost function Has(k: FlowKey): Rx
      requires k in openings
      reads this
    {
      Received(written, k, openings[k].isn)
    }

    /** Clients with an open flow expect what the relay sends next, and every client has
        what has come back for its key since it was last opened. */
    ghost predicate Valid()
      reads this
    {
      Numbered() && AllInStep(flows.Keys) && AllKept()
    }

    ghost predicate Numbered()
      reads this
    {
      made == |conns| && forall c | c in receiving :: c < |conns|
    }

    ghost predicate AllInStep(keys: set<FlowKey>)
      reads this
    {
      forall k | k in flows && k in keys ::
        k in openings && InStep(k, flows[k], openings[k], conns, receiving, Has(k))
    }

    ghost predicate AllKept()
      reads this
    {
      forall k | k in openings :: Kept(k, openings[k], conns, Has(k))
    }

    /** Valid once flow k is closed. */
    ghost predicate Closing(k: FlowKey)
      reads this
    {
      Numbered() && AllInStep(flows.Keys - {k}) && AllKept()
    }

    constructor ()
      ensures Valid() && conns == [] && receiving == {} && openings == map[] && flows == map[] && written == []
    {
      flows, written, made, conns, receiving, openings := map[], [], 0, [], {}, map[];
    }

    /** The client of an open flow has exactly what its own server sent if and only if no
        other connection has brought bytes since the flow was opened. */
    lemma StreamIsOwnExactlyWhen(k: FlowKey)
      requires Valid() && k in flows
      ensures k in openings && flows[k].conn < |conns| && conns[flows[k].conn].key == k
      ensures Has(k).Stream?
      ensures Has(k).data == conns[flows[k].conn].handed
         <==> OnlyFrom(openings[k].chunks, flows[k].conn)
    {
      hide Received;
      JoinedIsOwnExactlyWhen(openings[k].chunks, flows[k].conn);
    }

    /** That is so on every run that opens the key once. */
    lemma OpenedOnceIsOwn(k: FlowKey)
      requires Valid() && k in flows && forall c | 0 <= c < |conns| && conns[c].key == k :: c == flows[k].conn
      ensures flows[k].conn < |conns|
      ensures Has(k) == Stream(flows[k].serverSeqNext, conns[flows[k].conn].handed, false)
    {
      hide Received;
      JoinedIsOwnExactlyWhen(openings[k].chunks, flows[k].conn);
    }

    /** The builder refuses more than RECEIVE_LIMIT bytes; the packet is then dropped. */
    method SendToClient(k: FlowKey, seqNo: UInt32, ack: UInt32, flags: Byte, payload: seq<Byte>)
      requires V4Key(k)
      modifies this`written
      ensures |payload| > RECEIVE_LIMIT ==> written == old(written)
      ensures |payload| <= RECEIVE_LIMIT ==>
                Wrote(old(written), written, k, [ToClient(k, seqNo, ack, flags, payload)])
      ensures |payload| <= RECEIVE_LIMIT ==>
                forall j, n: UInt32 :: Received(written, j, n)
                  == if j == k then Accept(Received(old(written), k, n), ToClient(k, seqNo, ack, flags, payload), n)
                     else Received(old(written), j, n)
    {
      hide Received, Accept, TcpV4, Read;
      var s := ToClient(k, seqNo, ack, flags, payload);
      var r := BuildTCPv4Packet(k.dst, k.src, s);
      if |payload| <= RECEIVE_LIMIT {
        Delivered(written, k, seqNo, ack, flags, payload);
        forall j, n: UInt32
          ensures Received(written + [r.packet], j, n)
               == if j == k then Accept(Received(written, k, n), s, n) else Received(written, j, n)
        {
          WroteOne(written, written + [r.packet], k, s, j, n);
        }
      }
      if r.Built? {
        written := written + [r.packet];
      }
    }

    /** A packet from the client.  What it carries goes to the server, which is not modelled. */
    method HandlePacket(k: FlowKey, tcp: TcpHeader, isn: UInt32, now: int)
      requires Valid() && V4Key(k) && tcp.from <= tcp.to
      modifies this
      ensures Valid()
      ensures openings == if Opens(tcp) then old(openings)[k := Opening(tcp.seqNo, |old(conns)|, [])] else old(openings)
      ensures conns == if Opens(tcp) then old(conns) + [Connection(k, [])] else old(conns)
      ensures receiving == if Opens(tcp) then old(receiving) + {|old(conns)|} else old(receiving)
      ensures IsRst(tcp.flags) ==> flows == old(flows) - {k} && written == old(written)
      ensures Opens(tcp) ==> k in flows && flows[k].conn == |old(conns)|
      ensures Opens(tcp) ==> Has(k) == Stream(Wrap(isn, 1), [], false)
      // A SYN is answered by one SYN-ACK, data and FIN by one ACK of all that has come, anything else by nothing.
      ensures Opens(tcp) ==>
                Wrote(old(written), written, k,
                      [Segment(k.dstPort, k.srcPort, isn, (tcp.seqNo + 1) % U32, 0x12, 65535, [])])
      ensures !Opens(tcp) && !IsRst(tcp.flags) && k in flows && (tcp.to > tcp.from || IsFin(tcp.flags)) ==>
                Wrote(old(written), written, k,
                      [Segment(k.dstPort, k.srcPort, flows[k].serverSeqNext, flows[k].clientSeqNext, 0x10, 65535, [])])
      ensures !Opens(tcp) && !(k in flows && (tcp.to > tcp.from || IsFin(tcp.flags))) ==> written == old(written)
      ensures !Opens(tcp) && !IsRst(tcp.flags) ==> flows.Keys == old(flows).Keys
      ensures forall j | j in flows && j != k :: j in old(flows) && flows[j] == old(flows)[j]
      ensures !Opens(tcp) && k in flows ==>
                k in old(flows) && Progress(old(flows)[k], flows[k], tcp) && flows[k].lastActivity == now
    {
      hide Received, Valid, Closing, Wrap, IsFin, IsSyn, IsRst, IsAck;
      if IsRst(tcp.flags) {
        MayClose(k);
        CloseFlow(k);
        return;
      }
      if Opens(tcp) {
        OpenFlow(k, tcp.seqNo, isn, now);
        return;
      }
      if k !in flows {
        return;
      }
      var state := flows[k];
      if IsFin(tcp.flags) && !state.clientFinSeen {
        state := state.(clientFinSeen := true, clientSeqNext := Wrap(state.clientSeqNext, 1));
      }
      if tcp.to > tcp.from {
        state := state.(clientSeqNext := Wrap(tcp.seqNo, tcp.to - tcp.from));
      }
      state := state.(lastActivity := now);
      Noted(k, state);
      if tcp.to > tcp.from || IsFin(tcp.flags) {
        Acknowledge(k);
      }
    }

    /** Stores what is new about an open flow's client. */
    method Noted(k: FlowKey, state: FlowState)
      requires Valid() && k in flows
      requires state.conn == flows[k].conn && state.serverSeqNext == flows[k].serverSeqNext
      modifies this`flows
      ensures Valid() && flows == old(flows)[k := state]
    {
      hide Received, Joined, Own, Kept;
      flows := flows[k := state];
    }

    /** An empty segment tells the client what has arrived, and changes nothing it has. */
    method Acknowledge(k: FlowKey)
      requires Valid() && k in flows
      modifies this`written
      ensures Valid() && forall j, n: UInt32 :: Received(written, j, n) == Received(old(written), j, n)
      ensures Wrote(old(written), written, k,
                    [Segment(k.dstPort, k.srcPort, flows[k].serverSeqNext, flows[k].clientSeqNext, 0x10, 65535, [])])
    {
      hide Received, Joined, Own, InStep, Kept, Wrap, Wrote, Accept;
      FlowFacts(k);
      forall n: UInt32 {
        NothingTaken(Received(written, k, n), k, flows[k].serverSeqNext, flows[k].clientSeqNext, n);
      }
      SendToClient(k, flows[k].serverSeqNext, flows[k].clientSeqNext, ACK, []);
    }

    /** Valid as soon as client k has this. */
    ghost predicate Awaiting(k: FlowKey, rx: Rx)
      reads this
    {
      && Numbered()
      && (forall j | j in flows && j != k ::
            j in openings && InStep(j, flows[j], openings[j], conns, receiving, Has(j)))
      && (forall j | j in openings && j != k :: Kept(j, openings[j], conns, Has(j)))
      && k in flows && k in openings && InStep(k, flows[k], openings[k], conns, receiving, rx)
      && Kept(k, openings[k], conns, rx)
    }

    lemma NothingAwaited(k: FlowKey)
      requires k in openings && Awaiting(k, Has(k))
      ensures Valid()
    {
      hide InStep, Kept, Has;
    }

    /** Enters a new flow on a new connection. */
    method EnterFlow(k: FlowKey, clientISN: UInt32, serverISN: UInt32, now: int)
      requires Valid() && V4Key(k)
      modifies this`flows, this`made, this`conns, this`openings, this`receiving
      ensures conns == old(conns) + [Connection(k, [])] && receiving == old(receiving) + {|old(conns)|}
      ensures openings == old(openings)[k := Opening(clientISN, |old(conns)|, [])]
      ensures flows
           == old(flows)[k := FlowState(|old(conns)|, Wrap(clientISN, 1), Wrap(serverISN, 1), false, now)]
      ensures Awaiting(k, Stream(Wrap(serverISN, 1), [], false))
    {
      hide Received, Wrap, InStep, Kept;
      var f := FlowState(made, Wrap(clientISN, 1), Wrap(serverISN, 1), false, now);
      AllWithOneMore(k);
      StartInStep(k, clientISN, f, conns, receiving);
      conns := conns + [Connection(k, [])];
      receiving := receiving + {made};
      openings := openings[k := Opening(clientISN, made, [])];
      flows := flows[k := f];
      made := made + 1;
    }

    /** The client's SYN is answered with a random sequence number. */
    method AnswerSyn(k: FlowKey, serverISN: UInt32)
      requires V4Key(k) && k in flows && k in openings && flows[k].clientSeqNext == Wrap(openings[k].isn, 1)
      requires Awaiting(k, Stream(Wrap(serverISN, 1), [], false))
      modifies this`written
      ensures Valid() && Has(k) == Stream(Wrap(serverISN, 1), [], false)
      ensures Wrote(old(written), written, k,
                    [Segment(k.dstPort, k.srcPort, serverISN, flows[k].clientSeqNext, 0x12, 65535, [])])
    {
      hide Received, Wrap, InStep, Kept, Wrote, Accept;
      SynAnswered(Has(k), k, openings[k].isn, serverISN);
      SendToClient(k, serverISN, flows[k].clientSeqNext, SYN_ACK, []);
      forall j | j in openings && j != k ensures Has(j) == old(Has(j)) {
      }
      NothingAwaited(k);
    }

    /** Starts a client's stream anew at a random sequence number, on a new connection.  The
        connection that the key had before is cancelled, which need not end its receive. */
    method OpenFlow(k: FlowKey, clientISN: UInt32, serverISN: UInt32, now: int)
      requires Valid() && V4Key(k)
      modifies this
      ensures Valid() && conns == old(conns) + [Connection(k, [])] && receiving == old(receiving) + {|old(conns)|}
      ensures openings == old(openings)[k := Opening(clientISN, |old(conns)|, [])]
      ensures Has(k) == Stream(Wrap(serverISN, 1), [], false)
      ensures Wrote(old(written), written, k,
                    [Segment(k.dstPort, k.srcPort, serverISN, (clientISN + 1) % U32, 0x12, 65535, [])])
      ensures flows
           == old(flows)[k := FlowState(|old(conns)|, Wrap(clientISN, 1), Wrap(serverISN, 1), false, now)]
    {
      assert Wrap(clientISN, 1) == (clientISN + 1) % U32;
      hide Received, Wrap, InStep, Kept, Wrote, Accept, Awaiting;
      EnterFlow(k, clientISN, serverISN, now);
      AnswerSyn(k, serverISN);
    }

    lemma AllWithOneMore(k: FlowKey)
      requires Valid()
      ensures var (cs, rs) := (conns + [Connection(k, [])], receiving + {|conns|});
              && (forall j | j in openings :: Kept(j, openings[j], cs, Has(j)))
              && (forall j | j in flows ::
                    j in openings && InStep(j, flows[j], openings[j], cs, rs, Has(j)))
    {
      hide Received, InStep, Kept;
      var f := FlowState(0, 0, 0, false, 0);
      forall j | j in openings ensures Kept(j, openings[j], conns + [Connection(k, [])], Has(j)) {
        ConnectionAdded(j, f, openings[j], conns, receiving, Has(j), Connection(k, []));
      }
      forall j | j in flows
        ensures InStep(j, flows[j], openings[j], conns + [Connection(k, [])], receiving + {|conns|},
                       Has(j))
      {
        ConnectionAdded(j, flows[j], openings[j], conns, receiving, Has(j), Connection(k, []));
      }
    }

    /** Passes on what a receive returned, possibly nothing, from whichever connection. */
    method RelayData(k: FlowKey, data: seq<Byte>, now: int, ghost conn: nat)
      requires Valid() && |data| <= RECEIVE_LIMIT && k in flows
      requires conn < |conns| && conns[conn].key == k
      modifies this`flows, this`written, this`conns, this`openings
      ensures Valid() && k in flows && k in old(openings)
      ensures openings == old(openings)[k := old(openings)[k].(chunks := old(openings)[k].chunks + [Chunk(conn, data)])]
      ensures conns == HandedOver(old(conns), conn, data)
      ensures flows == old(flows)[k := flows[k]] && flows[k].conn == old(flows)[k].conn
      ensures flows[k].serverSeqNext == Wrap(old(flows)[k].serverSeqNext, |data|)
      ensures data == [] ==> flows == old(flows) && written == old(written)
      ensures data != [] ==>
                var f := old(flows)[k];
                Wrote(old(written), written, k,
                      [Segment(k.dstPort, k.srcPort, f.serverSeqNext, f.clientSeqNext, 0x18, 65535, data)])
      ensures flows[k].clientSeqNext == old(flows)[k].clientSeqNext
      ensures Has(k).Stream? && old(Has(k)).Stream?
      ensures Has(k).data == old(Has(k)).data + data == Joined(openings[k].chunks)
      ensures forall j, n: UInt32 | j != k :: Received(written, j, n) == Received(old(written), j, n)
    {
      hide Received, Joined, Own, InStep, Kept, Wrap, Accept, Wrote;
      var state := flows[k];
      ghost var o := openings[k];
      FlowFacts(k);
      ChunkInStep(k, state, o, conns, receiving, Has(k), conn, data, Wrap(state.serverSeqNext, |data|),
                  if data == [] then state.lastActivity else now);
      OthersInStep(k, conn, data);
      NothingNew(Has(k).data, state.serverSeqNext);
      if data != [] {
        DataAccepted(Has(k), k, state.serverSeqNext, state.clientSeqNext, data, o.isn);
        SendToClient(k, state.serverSeqNext, state.clientSeqNext, PSH_ACK, data);
        flows := flows[k := state.(serverSeqNext := Wrap(state.serverSeqNext, |data|), lastActivity := now)];
      }
      conns := HandedOver(conns, conn, data);
      openings := openings[k := o.(chunks := o.chunks + [Chunk(conn, data)])];
      assert AllKept();
    }

    /** What an open flow's invariant says. */
    lemma FlowFacts(k: FlowKey)
      requires Valid() && k in flows
      ensures k in openings && V4Key(k) && flows[k].conn == openings[k].conn < |conns|
      ensures Has(k) == Stream(flows[k].serverSeqNext, Joined(openings[k].chunks), false)
      ensures InStep(k, flows[k], openings[k], conns, receiving, Has(k))
      ensures Kept(k, openings[k], conns, Has(k))
    {
      hide Received, Joined, Own;
    }

    /** Data of a connection made for k leaves the flows of other keys in step. */
    lemma OthersInStep(k: FlowKey, conn: nat, data: seq<Byte>)
      requires Valid() && conn < |conns| && conns[conn].key == k
      ensures forall j | j in openings :: Kept(j, openings[j], HandedOver(conns, conn, data), Has(j))
      ensures forall j | j in flows && j != k ::
                j in openings && flows[j].conn != conn
                && InStep(j, flows[j], openings[j], HandedOver(conns, conn, data), receiving, Has(j))
                && InStep(j, flows[j], openings[j], HandedOver(conns, conn, data), receiving - {conn},
                          Has(j))
    {
      hide Received, Joined, Own;
      var f := FlowState(0, 0, 0, false, 0);
      forall j | j in openings ensures Kept(j, openings[j], HandedOver(conns, conn, data), Has(j)) {
        OtherHanded(j, f, openings[j], conns, receiving, Has(j), conn, data);
      }
      forall j | j in flows && j != k
        ensures flows[j].conn != conn
        ensures InStep(j, flows[j], openings[j], HandedOver(conns, conn, data), receiving, Has(j))
        ensures InStep(j, flows[j], openings[j], HandedOver(conns, conn, data), receiving - {conn},
                       Has(j))
      {
        OtherHanded(j, flows[j], openings[j], conns, receiving, Has(j), conn, data);
      }
    }

    /** Ends the client's stream after what it has received. */
    method FinishFlow(k: FlowKey)
      requires Valid() && k in flows
      modifies this`flows, this`written
      ensures Valid() && flows == old(flows) - {k} && k in openings
      ensures Has(k) == Stream(Wrap(old(flows)[k].serverSeqNext, 1), Joined(openings[k].chunks), true)
      ensures var f := old(flows)[k];
              Wrote(old(written), written, k,
                    [Segment(k.dstPort, k.srcPort, f.serverSeqNext, f.clientSeqNext, 0x11, 65535, [])])
      ensures forall j, n: UInt32 | j != k :: Received(written, j, n) == Received(old(written), j, n)
    {
      hide Received, Joined, Own, InStep, Wrap, Wrote, Accept;
      var state := flows[k];
      FlowFacts(k);
      FinTaken(Has(k), k, state.serverSeqNext, state.clientSeqNext, openings[k].isn);
      SendToClient(k, state.serverSeqNext, state.clientSeqNext, FIN_ACK, []);
      CloseFlow(k);
    }

    /** A receive of connection conn came back: with data, at the end of its stream, or
        failed.  The relay looks only at the key conn was made for, so the bytes go to
        whatever flow is open under that key by now. */
    method OnServerData(k: FlowKey, data: seq<Byte>, isComplete: bool, error: bool, conn: nat, now: int)
      requires Valid() && |data| <= RECEIVE_LIMIT
      requires conn in receiving && conn < |conns| && conns[conn].key == k
      modifies this
      ensures Valid()
      ensures conns == HandedOver(old(conns), conn, data)
      ensures k !in old(flows) ==> openings == old(openings) && written == old(written) && flows == old(flows)
      ensures k in old(flows) ==> k in old(openings)
      ensures k in old(flows) ==>
                var o := old(openings)[k];
                openings == old(openings)[k := o.(chunks := o.chunks + [Chunk(conn, data)])]
      ensures k in old(flows) ==> (k in flows <==> !error && !isComplete)
      ensures receiving == if k in flows then old(receiving) else old(receiving) - {conn}
      ensures k in old(flows) && isComplete && !error ==>
                k in openings
                && Has(k)
                   == Stream(Wrap(old(flows)[k].serverSeqNext, |data| + 1), Joined(openings[k].chunks), true)
      ensures k in flows ==> flows[k].conn == old(flows)[k].conn
      // What is written: the data, then a reset if the receive failed, or else a FIN if the stream has ended.
      ensures k in old(flows) ==>
                var (seqNo, ack) := (old(flows)[k].serverSeqNext, old(flows)[k].clientSeqNext);
                Wrote(old(written), written, k,
                      (if data == [] then [] else [Segment(k.dstPort, k.srcPort, seqNo, ack, 0x18, 65535, data)])
                      + if error then [Segment(k.dstPort, k.srcPort, (seqNo + |data|) % U32, ack, 0x14, 65535, [])]
                        else if isComplete then
                          [Segment(k.dstPort, k.srcPort, (seqNo + |data|) % U32, ack, 0x11, 65535, [])]
                        else [])
      // The key's client has got exactly these bytes more.
      ensures k in old(flows) ==>
                && Has(k).Stream? && old(Has(k)).Stream?
                && Has(k).data == old(Has(k)).data + data
      // From its own connection alone, that is all its server has sent.
      ensures k in old(flows) && old(flows)[k].conn == conn && OnlyFrom(old(openings)[k].chunks, conn) ==>
                Has(k).Stream? && Has(k).data == conns[conn].handed
      // Flows of other connections are left alone exactly when none of them has the key.
      ensures (forall j | j in old(flows) && old(flows)[j].conn != conn ::
                 && j in flows && flows[j] == old(flows)[j]
                 && j in openings && j in old(openings) && Has(j) == old(Has(j)))
         <==> !(k in old(flows) && old(flows)[k].conn != conn && (data != [] || error || isComplete))
    {
      hide Received, Valid, Closing, Joined, Own, OnlyFrom, Wrote;
      AllOpened();
      if k !in flows {
        Late(k, data, conn);
        return;
      }
      OwnFlow(k, conn);
      ghost var (before, state) := (written, flows[k]);
      ghost var first := if data == [] then [] else
          [Segment(k.dstPort, k.srcPort, state.serverSeqNext, state.clientSeqNext, 0x18, 65535, data)];
      WroteNothing(written, k);
      RelayData(k, data, now, conn);
      assert Wrote(before, written, k, first);
      assert first + [] == first;
      ghost var mid := written;
      if error {
        SendRST(k);
        WroteMore(before, mid, written, k, first,
                  [ToClient(k, flows[k].serverSeqNext, flows[k].clientSeqNext, 0x14, [])]);
        MayClose(k);
        CloseFlow(k);
        StopReceiving(k, conn);
        return;
      }
      if isComplete {
        WrapTwice(old(flows[k].serverSeqNext), |data|, 1);
        ghost var last := flows[k];
        FinishFlow(k);
        WroteMore(before, mid, written, k, first, [ToClient(k, last.serverSeqNext, last.clientSeqNext, 0x11, [])]);
        StopReceiving(k, conn);
        return;
      }
    }

    lemma AllOpened()
      requires Valid()
      ensures forall j | j in flows :: j in openings
    {
      hide Received, InStep, Kept;
    }

    lemma OwnFlow(k: FlowKey, conn: nat)
      requires Valid() && k in flows
      ensures k in openings && flows[k].conn == openings[k].conn < |conns|
      ensures flows[k].conn == conn && OnlyFrom(openings[k].chunks, conn) ==>
                Has(k).Stream? && Has(k).data == conns[conn].handed
    {
      hide Received;
      JoinedIsOwnExactlyWhen(openings[k].chunks, flows[k].conn);
    }

    /** Nobody is told what comes back for a closed flow. */
    ghost method Late(k: FlowKey, data: seq<Byte>, conn: nat)
      requires Valid() && k !in flows && conn < |conns| && conns[conn].key == k
      modifies this`conns, this`receiving
      ensures Valid() && conns == HandedOver(old(conns), conn, data)
      ensures receiving == old(receiving) - {conn}
    {
      hide Received, Joined, Own, InStep, Kept;
      OthersInStep(k, conn, data);
      conns := HandedOver(conns, conn, data);
      receiving := receiving - {conn};
    }

    ghost method StopReceiving(k: FlowKey, conn: nat)
      requires Valid() && k !in flows && conn < |conns| && conns[conn].key == k
      modifies this`receiving
      ensures Valid() && receiving == old(receiving) - {conn}
    {
      hide Received, Joined, Own;
      receiving := receiving - {conn};
    }

    lemma MayClose(k: FlowKey)
      requires Valid()
      ensures Closing(k)
    {
      hide Received, InStep, Kept;
    }

    /** With CloseFlow, the first of the two tasks that a failed connection starts; each acts
        on whatever flow is open under its key by then. */
    method SendRST(k: FlowKey)
      requires Valid()
      modifies this`written
      ensures Valid() && forall j, n: UInt32 :: Received(written, j, n) == Received(old(written), j, n)
      ensures if k in flows then
                Wrote(old(written), written, k,
                      [Segment(k.dstPort, k.srcPort, flows[k].serverSeqNext, flows[k].clientSeqNext, 0x14, 65535, [])])
              else written == old(written)
    {
      hide Received, Joined, Own, InStep, Kept, Wrap, Wrote, Accept;
      if k !in flows {
        return;
      }
      FlowFacts(k);
      forall n: UInt32 {
        ResetTakesNothing(Received(written, k, n), k, flows[k].serverSeqNext, flows[k].clientSeqNext, n);
      }
      SendToClient(k, flows[k].serverSeqNext, flows[k].clientSeqNext, RST_ACK, []);
    }

    method CloseFlow(k: FlowKey)
      requires Closing(k)
      modifies this`flows
      ensures Valid() && flows == old(flows) - {k}
    {
      hide Received, InStep, Kept;
      flows := flows - {k};
    }

    /** Drops flows idle for too long. */
    method Sweep(now: int, idleSecs: int)
      requires Valid()
      modifies this`flows
      ensures Valid()
      ensures flows == map k | k in old(flows) && old(flows)[k].lastActivity >= now - idleSecs :: old(flows)[k]
    {
      hide Received, InStep, Kept;
      var cutoff := now - idleSecs;
      var todo := flows.Keys;
      while todo != {}
        invariant todo <= flows.Keys <= old(flows).Keys && Valid()
        invariant forall k | k in flows :: flows[k] == old(flows)[k]
        invariant forall k | k in old(flows) && k !in flows :: old(flows)[k].lastActivity < cutoff
        invariant forall k | k in flows && k !in todo :: flows[k].lastActivity >= cutoff
        decreases |todo|
      {
        var k :| k in todo;
        if flows[k].lastActivity < cutoff {
          flows := flows - {k};
        }
        todo := todo - {k};
      }
    }
  }

  /** The run that breaks the stream: a client opens a key twice, and a receive of the first
      connection returns after the second was made.  Its bytes reach the second flow's client,
      whose own server has sent nothing, or, where the receive failed, the second flow ends. */
  method ReopenedKey(k: FlowKey, syn: TcpHeader, isn: UInt32, late: seq<Byte>, error: bool, now: int)
    returns (relay: Relay)
    requires V4Key(k) && syn.from <= syn.to && Opens(syn) && late != [] && |late| <= RECEIVE_LIMIT
    ensures relay.Valid() && |relay.conns| == 2 && relay.conns[1] == Connection(k, [])
    ensures k in relay.openings && relay.Has(k).Stream? && relay.Has(k).data == late
    ensures k in relay.flows <==> !error
    ensures k in relay.flows ==> relay.flows[k].conn == 1
  {
    hide Received, Relay.Valid, Joined, Own;
    relay := new Relay();
    relay.HandlePacket(k, syn, isn, now);
    relay.HandlePacket(k, syn, isn, now);
    relay.OnServerData(k, late, false, error, 0, now);
  }

  /** A segment without data or FIN at the expected number changes nothing. */
  lemma NothingNew(data: seq<Byte>, next: UInt32)
    ensures data + [] == data && Wrap(next, 0) == next
  {
  }
}

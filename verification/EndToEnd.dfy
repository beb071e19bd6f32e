/** The whole path: flow table, D-lines, frames, chunks, lines, store. */
module EndToEnd {
  import opened Common
  import opened DataLine
  import opened Bytes
  import opened FlowTableClient
  import opened FlushSize
  import opened Ingest
  import opened RecvBuffer
  import opened WsServerStream
  import WsFraming

  predicate EightBit(s: string) {
    forall i | 0 <= i < |s| :: (s[i] as int) < 256
  }

  function ToBytes(s: string): (b: seq<Byte>)
    requires EightBit(s)
    ensures |b| == |s|
  {
    seq(|s|, i requires 0 <= i < |s| => s[i] as int)
  }

  function FromBytes(b: seq<Byte>): (s: string)
    ensures |s| == |b|
  {
    seq(|b|, i requires 0 <= i < |b| => (b[i] as int) as char)
  }

  lemma FromToBytes(s: string)
    requires EightBit(s)
    ensures FromBytes(ToBytes(s)) == s
  {
  }

  // ----- moving chunks into the data loop -----------------------------------------------------

  /** The most bytes that the data loop receives at once. */
  const CHUNK: nat := 4096

  datatype Outcome = Ended | Running | Dropped

  /** Moves received payload into the data loop, up to 4096 bytes at a time; ends when the
      stream does, when time is up, or when the buffer's limit is passed.  Nothing is lost or
      repeated, and every read that does not time out makes progress. */
  method Pump(stream: Stream, loop: DataLoop, time: nat) returns (outcome: Outcome, ghost lates: nat)
    requires stream.bufPos <= |stream.buf| && loop.Valid()
    modifies stream, loop
    ensures loop.Handled() && loop.received <= old(loop.received + FromBytes(stream.Ahead()))
    ensures outcome.Ended? ==> loop.Valid() && loop.received == old(loop.received + FromBytes(stream.Ahead()))
    ensures outcome.Running? ==> time <= lates + |old(stream.Ahead())|
    ensures outcome.Running? ==>
              && loop.Valid() && stream.bufPos <= |stream.buf|
              && loop.received + FromBytes(stream.Ahead()) == old(loop.received + FromBytes(stream.Ahead()))
    ensures outcome.Dropped? ==> !Undropped(old(loop.received + FromBytes(stream.Ahead())), loop.maxBuffer)
  {
    hide SplitLines, PayloadStream, GateAfter, Passed, Metas, Undropped, FromBytes, Stream.Ahead;
    ghost var all, start := stream.Ahead(), loop.received;
    ghost var text := start + FromBytes(all);
    var left := time;
    lates := 0;
    ghost var done := 0;
    Uncut(start, all);
    while left > 0
      invariant loop.Valid() && stream.bufPos <= |stream.buf|
      invariant 0 <= done <= |all| && stream.Ahead() == all[done..] && loop.received == text[..|start| + done]
      invariant 0 <= left && time - left <= lates + done
    {
      left := left - 1;
      var r, chunk := stream.Recv(CHUNK);
      if r < 0 {
        CutMore(start, all, done, 0);
        assert text[..|text|] == text;
        return Outcome.Ended, lates;
      }
      if r > 0 {
        CutMore(start, all, done, r);
        var ok := loop.OnChunk(FromBytes(chunk));
        if !ok {
          LimitPassed(text, |start| + done, r, loop.maxBuffer);
          return Outcome.Dropped, lates;
        }
        done := done + r;
      }
      if r == 0 && stream.timedOut {
        lates := lates + 1;
      }
    }
    CutMore(start, all, done, |all| - done);
    assert all[done..][..|all| - done] == all[done..];
    assert text[..|text|] == text;
    outcome := Outcome.Running;
  }

  lemma Uncut(start: string, all: seq<Byte>)
    ensures all[0..] == all && (start + FromBytes(all))[..|start|] == start
  {
  }

  lemma CutMore(start: string, all: seq<Byte>, done: nat, r: nat)
    requires done + r <= |all|
    ensures all[done..][..r] == all[done..done + r] && all[done..][r..] == all[done + r..]
    ensures var text := start + FromBytes(all);
            text[..|start| + done] + FromBytes(all[done..][..r]) == text[..|start| + done + r]
  {
  }

  // ----- meaning -----------------------------------------------------------------------

  /** Lines cut into any client frames with pings and pongs between them, unframed, cut into any
      chunks, split and parsed, are the same flows in the same order, whatever other lines are
      among them. */
  lemma MeaningPreserved(ms: seq<Message>, fs: seq<Sent>, maxIface: nat, maxIp: nat)
    requires AllSound(ms, maxIface, maxIp) && EightBit(TextOf(ms))
    requires AllSendable(fs) && Payloads(fs) == ToBytes(TextOf(ms))
    ensures var split := SplitLines(FromBytes(PayloadStream(Framed(fs))));
            Metas(split.lines, maxIface, maxIp) == FlowsOf(ms) && split.rest == ""
  {
    hide SplitLines, PayloadStream, Framed, Payloads, TextOf, Metas, Sound;
    FramesCarry(fs);
    FromToBytes(TextOf(ms));
    TextParses(ms, "", maxIface, maxIp);
    assert TextOf(ms) + "" == TextOf(ms);
    NothingLeft(maxIface, maxIp);
    assert FlowsOf(ms) + [] == FlowsOf(ms);
  }

  lemma FramesCarry(fs: seq<Sent>)
    requires AllSendable(fs)
    ensures PayloadStream(Framed(fs)) == Payloads(fs)
  {
    StreamOfFrames(fs, []);
    assert Framed(fs) + [] == Framed(fs);
    assert PayloadStream([]) == [];
  }

  lemma NothingLeft(maxIface: nat, maxIp: nat)
    ensures SplitLines("") == Split([], "") && Metas([], maxIface, maxIp) == []
  {
  }

  lemma {:induction false} PrintedIsFlush(flows: seq<PacketMeta>)
    ensures Printed(flows) == FlushText(flows)
  {
    hide PrintLine, TextOf;
    if flows == [] {
      assert TextOf([]) == "" by { NoText(); }
    } else {
      var init, f := flows[..|flows| - 1], flows[|flows| - 1];
      PrintedIsFlush(init);
      FlushAppend(init, [f]);
      FlushOne(f);
      assert flows == init + [f];
    }
  }

  lemma NoText()
    ensures TextOf([]) == ""
  {
  }

  predicate EightBitFlow(f: PacketMeta) {
    EightBit(f.iface) && EightBit(f.srcIp) && EightBit(f.dstIp)
  }

  lemma {:induction false} FlushEightBit(flows: seq<PacketMeta>)
    requires forall i | 0 <= i < |flows| :: EightBitFlow(flows[i])
    ensures EightBit(FlushText(flows))
  {
    if flows == [] {
    } else {
      LineEightBit(flows[0]);
      assert Flush(flows)[1..] == Flush(flows[1..]);
      hide Body, EightBitFlow;
      FlushEightBit(flows[1..]);
    }
  }

  lemma LineEightBit(f: PacketMeta)
    requires EightBitFlow(f)
    ensures EightBit(PrintLine(f))
  {
    CStrWhole(f.iface);
    CStrWhole(f.srcIp);
    CStrWhole(f.dstIp);
    hide CStr;
  }

  function FlowOf(k: AggFlowKey, bytes: nat): PacketMeta {
    PacketMeta(k.iface, k.srcIp, k.dstIp, bytes)
  }

  ghost predicate DeliverableTable(table: map<AggFlowKey, nat>, maxIface: nat, maxIp: nat) {
    forall k | k in table :: Deliverable(FlowOf(k, table[k]), maxIface, maxIp) && EightBitFlow(FlowOf(k, table[k]))
  }

  lemma ListedDeliverable(flows: seq<PacketMeta>, table: map<AggFlowKey, nat>, maxIface: nat, maxIp: nat)
    requires Lists(flows, table) && DeliverableTable(table, maxIface, maxIp)
    ensures AllDeliverable(flows, maxIface, maxIp)
    ensures forall i | 0 <= i < |flows| :: EightBitFlow(flows[i])
  {
    forall i | 0 <= i < |flows| ensures Deliverable(flows[i], maxIface, maxIp) && EightBitFlow(flows[i]) {
      assert flows[i] == FlowOf(KeyOf(flows[i]), table[KeyOf(flows[i])]);
    }
  }

  // ----- writing ---------------------------------------------------------------------------------

  lemma OneFrame(payload: seq<Byte>, key: WsFraming.Key)
    requires 0 < |payload| <= MAX_PAYLOAD
    ensures var fs := [Sent(WsFraming.BINARY, payload, key)];
            && AllSendable(fs) && Payloads(fs) == payload
            && Framed(fs) == WsFraming.ClientFrame(WsFraming.BINARY, payload, key)
  {
    var fs := [Sent(WsFraming.BINARY, payload, key)];
    assert fs[1..] == [];
  }

  /** The frames fs carry the text. */
  ghost predicate CarriesText(wire: seq<Byte>, fs: seq<Sent>, text: string) {
    EightBit(text) && AllSendable(fs) && wire == Framed(fs) && Payloads(fs) == ToBytes(text)
  }

  /** The frames fs carry these lines. */
  ghost predicate Carried(wire: seq<Byte>, fs: seq<Sent>, ms: seq<Message>, maxIface: nat, maxIp: nat) {
    AllSound(ms, maxIface, maxIp) && CarriesText(wire, fs, TextOf(ms))
  }

  /** Text goes out in one frame, if there is any.  A frame of more than MAX_IO bytes is not
      written, and the connection is closed. */
  method Write(text: string, key: WsFraming.Key) returns (sent: bool, frame: seq<Byte>, ghost fs: seq<Sent>)
    requires EightBit(text)
    ensures sent <==> Writable(text)
    ensures if sent then CarriesText(frame, fs, text) else frame == []
  {
    hide Framed, Payloads;
    if text == "" {
      sent, frame, fs := true, [], [];
      assert Framed([]) == [] && Payloads([]) == [] by { NoFrames(); }
    } else if |text| > MAX_IO {
      sent, frame, fs := false, [], [];
    } else {
      frame := WsFraming.BuildClientFrame(ToBytes(text), key);
      FrameLength(ToBytes(text), key);
      sent := |frame| <= MAX_IO;
      fs := [Sent(WsFraming.BINARY, ToBytes(text), key)];
      OneFrame(ToBytes(text), key);
      if !sent {
        frame := [];
      }
    }
  }

  /** One flush: the table is drained and its lines go out together.  If they cannot be written,
      what was drained is lost. */
  method SendFlush(client: ClientConnection, key: WsFraming.Key, ghost maxIface: nat, ghost maxIp: nat)
    returns (sent: bool, frame: seq<Byte>, ghost flows: seq<PacketMeta>, ghost fs: seq<Sent>)
    requires client.Valid() && DeliverableTable(client.flowTable, maxIface, maxIp)
    modifies client
    ensures client.Valid() && client.observed == [] && Lists(flows, old(client.flowTable))
    ensures AllDeliverable(flows, maxIface, maxIp)
    ensures sent <==> FitsTable(old(client.flowTable))
    ensures if sent then Carried(frame, fs, Flush(flows), maxIface, maxIp) else frame == []
  {
    hide Lists, Deliverable, Framed, Payloads, TextOf, FitsTable, Writable;
    ghost var table := client.flowTable;
    var text;
    text, flows := client.Drain();
    ListedDeliverable(flows, table, maxIface, maxIp);
    SoundFlush(flows, maxIface, maxIp);
    PrintedIsFlush(flows);
    FlushEightBit(flows);
    FitsInAnyOrder(flows, table);
    sent, frame, fs := Write(text, key);
  }

  /** A line of another kind that can be written. */
  predicate SendableLine(line: string) {
    PlainLine(line) && EightBit(line) && Writable(line + "\n")
  }

  function Others(lines: seq<string>): (ms: seq<Message>)
    ensures |ms| == |lines|
  {
    seq(|lines|, i requires 0 <= i < |lines| => Other(lines[i]))
  }

  lemma {:induction false} NoFlowsInOthers(lines: seq<string>)
    ensures FlowsOf(Others(lines)) == []
  {
    if lines == [] {
    } else {
      assert Others(lines)[1..] == Others(lines[1..]);
      NoFlowsInOthers(lines[1..]);
    }
  }

  /** Lines of other kinds go out one by one. */
  method SendLines(lines: seq<string>, ghost maxIface: nat, ghost maxIp: nat)
    returns (wire: seq<Byte>, ghost fs: seq<Sent>)
    requires forall i | 0 <= i < |lines| :: SendableLine(lines[i])
    ensures Carried(wire, fs, Others(lines), maxIface, maxIp)
    ensures EightBit(TextOf(Others(lines))) && PayloadStream(wire) == ToBytes(TextOf(Others(lines)))
  {
    hide CarriesText, Carried;
    wire, fs := [], [];
    CarriedNothing(maxIface, maxIp);
    assert Others(lines[..0]) == [];
    for i := 0 to |lines|
      invariant Carried(wire, fs, Others(lines[..i]), maxIface, maxIp)
    {
      assert SendableLine(lines[i]);
      var key: WsFraming.Key := *;
      var sent, frame;
      ghost var gs;
      sent, frame, gs := Write(lines[i] + "\n", key);
      CarriedLine(frame, gs, lines[i], maxIface, maxIp);
      CarriedMore(wire, fs, Others(lines[..i]), frame, gs, [Other(lines[i])], maxIface, maxIp);
      assert Others(lines[..i + 1]) == Others(lines[..i]) + [Other(lines[i])];
      wire, fs := wire + frame, fs + gs;
    }
    assert lines[..|lines|] == lines;
    CarriedReads(wire, fs, Others(lines), maxIface, maxIp);
  }

  lemma CarriedReads(wire: seq<Byte>, fs: seq<Sent>, ms: seq<Message>, maxIface: nat, maxIp: nat)
    requires Carried(wire, fs, ms, maxIface, maxIp)
    ensures EightBit(TextOf(ms)) && PayloadStream(wire) == ToBytes(TextOf(ms))
  {
    hide PayloadStream, Framed, Payloads;
    FramesCarry(fs);
  }

  lemma CarriedLine(frame: seq<Byte>, fs: seq<Sent>, line: string, maxIface: nat, maxIp: nat)
    requires CarriesText(frame, fs, line + "\n") && PlainLine(line)
    ensures Carried(frame, fs, [Other(line)], maxIface, maxIp)
  {
    hide CarriesText;
    assert [Other(line)][1..] == [];
    assert TextOf([Other(line)]) == line + "\n" + "";
    assert line + "\n" + "" == line + "\n";
  }

  lemma NoFrames()
    ensures Framed([]) == [] && Payloads([]) == []
  {
  }

  // ----- a whole connection ---------------------------------------------------------------

  function Flat(parts: seq<seq<PacketMeta>>): seq<PacketMeta> {
    if parts == [] then [] else Flat(parts[..|parts| - 1]) + parts[|parts| - 1]
  }

  /** part lists every flow of the batch of packets once, with all its bytes. */
  ghost predicate Carries(part: seq<PacketMeta>, batch: seq<PacketMeta>) {
    && (forall i | 0 <= i < |part| ::
          Observed(batch, KeyOf(part[i])) && part[i].bytes == BytesOf(batch, KeyOf(part[i])))
    && (forall i, j | 0 <= i < j < |part| :: KeyOf(part[i]) != KeyOf(part[j]))
    && (forall k | Observed(batch, k) :: Observed(part, k))
  }

  /** Every flow of the batch survives the trip, and the flush can be written. */
  ghost predicate DeliverableBatch(batch: seq<PacketMeta>, maxIface: nat, maxIp: nat) {
    && (exists part :: Carries(part, batch) && FitsFrame(part))
    && forall k | Observed(batch, k) ::
         Deliverable(FlowOf(k, BytesOf(batch, k)), maxIface, maxIp) && EightBitFlow(FlowOf(k, BytesOf(batch, k)))
  }

  lemma TableOfBatch(table: map<AggFlowKey, nat>, batch: seq<PacketMeta>, maxIface: nat, maxIp: nat)
    requires TableOf(table, batch) && DeliverableBatch(batch, maxIface, maxIp)
    ensures DeliverableTable(table, maxIface, maxIp) && FitsTable(table)
    ensures forall part :: Lists(part, table) ==> Carries(part, batch)
  {
    hide Observed, FitsFrame;
    forall k | k in table ensures table[k] == BytesOf(batch, k) {
      assert Deliverable(FlowOf(k, BytesOf(batch, k)), maxIface, maxIp);
    }
    var part :| Carries(part, batch) && FitsFrame(part);
    assert Lists(part, table);
  }

  lemma {:induction false} VolumeAppend(a: seq<PacketMeta>, b: seq<PacketMeta>, want: AggFlowKey -> bool)
    ensures Volume(a + b, want) == Volume(a, want) + Volume(b, want)
  {
    if b == [] {
      assert a + b == a;
    } else {
      assert (a + b)[..|a + b| - 1] == a + b[..|b| - 1];
      VolumeAppend(a, b[..|b| - 1], want);
    }
  }

  lemma CarriedBytes(part: seq<PacketMeta>, batch: seq<PacketMeta>, want: AggFlowKey -> bool)
    requires Carries(part, batch)
    ensures Volume(part, want) == Volume(batch, want)
  {
    ListedIsAll(part, batch, want);
    ListedIsPrinted(part, batch, want);
  }

  /** Flush by flush, no byte of any flows is lost or counted twice. */
  lemma {:induction false} AllBytesCarried(parts: seq<seq<PacketMeta>>, batches: seq<seq<PacketMeta>>,
                                          want: AggFlowKey -> bool)
    requires |parts| == |batches| && forall i | 0 <= i < |parts| :: Carries(parts[i], batches[i])
    ensures Volume(Flat(parts), want) == Volume(Flat(batches), want)
    decreases |parts|
  {
    hide Carries, Volume;
    if parts == [] {
    } else {
      var n := |parts| - 1;
      AllBytesCarried(parts[..n], batches[..n], want);
      CarriedBytes(parts[n], batches[n], want);
      VolumeAppend(Flat(parts[..n]), parts[n], want);
      VolumeAppend(Flat(batches[..n]), batches[n], want);
    }
  }

  lemma {:induction false} FramedAppend(a: seq<Sent>, b: seq<Sent>)
    requires AllSendable(a) && AllSendable(b)
    ensures Framed(a + b) == Framed(a) + Framed(b) && Payloads(a + b) == Payloads(a) + Payloads(b)
  {
    hide WsFraming.ClientFrame;
    if a == [] {
      assert a + b == b;
    } else {
      assert (a + b)[1..] == a[1..] + b;
      FramedAppend(a[1..], b);
    }
  }

  lemma CarriedMore(wire: seq<Byte>, fs: seq<Sent>, ms: seq<Message>,
                    frame: seq<Byte>, gs: seq<Sent>, more: seq<Message>, maxIface: nat, maxIp: nat)
    requires Carried(wire, fs, ms, maxIface, maxIp) && Carried(frame, gs, more, maxIface, maxIp)
    ensures Carried(wire + frame, fs + gs, ms + more, maxIface, maxIp)
  {
    hide Sound, Framed, Payloads, TextOf;
    FramedAppend(fs, gs);
    TextAppend(ms, more);
    assert ToBytes(TextOf(ms) + TextOf(more)) == ToBytes(TextOf(ms)) + ToBytes(TextOf(more));
  }

  lemma CarriedNothing(maxIface: nat, maxIp: nat)
    ensures Carried([], [], [], maxIface, maxIp)
  {
  }

  /** Whether the buffer has room for a chunk behind any line that the client may send. */
  ghost predicate RoomFor(others: seq<seq<string>>, maxBuffer: nat, maxIface: nat, maxIp: nat) {
    && 4096 + LongestLine(maxIface, maxIp) <= maxBuffer
    && forall i, j | 0 <= i < |others| && 0 <= j < |others[i]| :: 4096 + |others[i][j]| <= maxBuffer
  }

  lemma OthersWithin(others: seq<seq<string>>, i: nat, maxBuffer: nat, maxIface: nat, maxIp: nat)
    requires RoomFor(others, maxBuffer, maxIface, maxIp) && i < |others|
    ensures maxBuffer >= 4096 && AllWithin(Others(others[i]), maxBuffer - 4096)
  {
    hide LongestLine;
    forall j | 0 <= j < |others[i]| ensures |LineOf(Others(others[i])[j])| <= maxBuffer - 4096 {
      assert 4096 + |others[i][j]| <= maxBuffer;
    }
  }

  lemma FlushFits(flows: seq<PacketMeta>, maxBuffer: nat, others: seq<seq<string>>, maxIface: nat, maxIp: nat)
    requires RoomFor(others, maxBuffer, maxIface, maxIp) && AllDeliverable(flows, maxIface, maxIp)
    ensures AllWithin(Flush(flows), maxBuffer - 4096)
  {
    hide LongestLine, AllDeliverable, LineOf;
    FlushWithin(flows, maxIface, maxIp);
  }

  /** One round of the sender: lines of other kinds, then the flush of a batch. */
  method SendRound(client: ClientConnection, batch: seq<PacketMeta>, lines: seq<string>, ghost maxIface: nat,
                   ghost maxIp: nat)
    returns (wire: seq<Byte>, ghost flows: seq<PacketMeta>, ghost fs: seq<Sent>)
    requires client.Valid() && client.observed == [] && DeliverableBatch(batch, maxIface, maxIp)
    requires forall i | 0 <= i < |lines| :: SendableLine(lines[i])
    modifies client
    ensures client.Valid() && client.observed == [] && Carries(flows, batch) && AllDeliverable(flows, maxIface, maxIp)
    ensures Carried(wire, fs, Others(lines) + Flush(flows), maxIface, maxIp)
  {
    hide Lists, Carries, Carried, DeliverableBatch, DeliverableTable, FitsTable, TableOf, AllDeliverable;
    for j := 0 to |batch|
      invariant client.Valid() && client.observed == batch[..j]
    {
      client.AccumulateFlow(batch[j]);
      assert batch[..j + 1] == batch[..j] + [batch[j]];
    }
    assert batch[..|batch|] == batch;
    TableOfBatch(client.flowTable, batch, maxIface, maxIp);
    wire, fs := SendLines(lines, maxIface, maxIp);
    var key: WsFraming.Key := *;
    var sent, frame;
    ghost var gs;
    sent, frame, flows, gs := SendFlush(client, key, maxIface, maxIp);
    CarriedMore(wire, fs, Others(lines), frame, gs, Flush(flows), maxIface, maxIp);
    wire, fs := wire + frame, fs + gs;
  }

  /** All that is sent, round by round. */
  function SentLines(parts: seq<seq<PacketMeta>>, others: seq<seq<string>>): seq<Message>
    requires |parts| <= |others|
  {
    if parts == [] then [] else
      var n := |parts| - 1;
      SentLines(parts[..n], others) + (Others(others[n]) + Flush(parts[n]))
  }

  /** The rounds' lines are carried, hold these flows, and leave room. */
  ghost predicate Rounds(wire: seq<Byte>, fs: seq<Sent>, parts: seq<seq<PacketMeta>>, others: seq<seq<string>>,
                         maxBuffer: nat, maxIface: nat, maxIp: nat) {
    && |parts| <= |others|
    && var ms := SentLines(parts, others);
       && Carried(wire, fs, ms, maxIface, maxIp) && FlowsOf(ms) == Flat(parts)
       && (RoomFor(others, maxBuffer, maxIface, maxIp) ==> AllWithin(ms, maxBuffer - 4096))
  }

  lemma WithinMore(a: seq<Message>, b: seq<Message>, width: nat)
    requires AllWithin(a, width) && AllWithin(b, width)
    ensures AllWithin(a + b, width)
  {
    hide LineOf;
  }

  lemma RoundFlows(ms: seq<Message>, lines: seq<string>, flows: seq<PacketMeta>, parts: seq<seq<PacketMeta>>)
    requires FlowsOf(ms) == Flat(parts)
    ensures FlowsOf(ms + (Others(lines) + Flush(flows))) == Flat(parts + [flows])
  {
    hide FlowsOf, TextOf, Others, Flush;
    TextAppend(ms, Others(lines) + Flush(flows));
    TextAppend(Others(lines), Flush(flows));
    NoFlowsInOthers(lines);
    FlowsOfFlush(flows);
    assert [] + flows == flows;
    assert (parts + [flows])[..|parts|] == parts;
  }

  lemma OneMoreRound(wire: seq<Byte>, fs: seq<Sent>, parts: seq<seq<PacketMeta>>, others: seq<seq<string>>,
                     frames: seq<Byte>, gs: seq<Sent>, flows: seq<PacketMeta>, maxBuffer: nat, maxIface: nat,
                     maxIp: nat)
    requires Rounds(wire, fs, parts, others, maxBuffer, maxIface, maxIp) && |parts| < |others|
    requires AllDeliverable(flows, maxIface, maxIp)
    requires Carried(frames, gs, Others(others[|parts|]) + Flush(flows), maxIface, maxIp)
    ensures Rounds(wire + frames, fs + gs, parts + [flows], others, maxBuffer, maxIface, maxIp)
  {
    var (ms, lines) := (SentLines(parts, others), others[|parts|]);
    assert (parts + [flows])[..|parts|] == parts;
    assert SentLines(parts + [flows], others) == ms + (Others(lines) + Flush(flows));
    hide Carried, LineOf, LongestLine, AllDeliverable, FlowsOf, Flat, Flush, Others, AllWithin, RoomFor, SentLines;
    CarriedMore(wire, fs, ms, frames, gs, Others(lines) + Flush(flows), maxIface, maxIp);
    RoundFlows(ms, lines, flows, parts);
    if RoomFor(others, maxBuffer, maxIface, maxIp) {
      OthersWithin(others, |parts|, maxBuffer, maxIface, maxIp);
      FlushFits(flows, maxBuffer, others, maxIface, maxIp);
      WithinMore(Others(lines), Flush(flows), maxBuffer - 4096);
      WithinMore(ms, Others(lines) + Flush(flows), maxBuffer - 4096);
    }
  }

  lemma NoRounds(others: seq<seq<string>>, maxBuffer: nat, maxIface: nat, maxIp: nat)
    ensures Rounds([], [], [], others, maxBuffer, maxIface, maxIp)
  {
    CarriedNothing(maxIface, maxIp);
  }

  /** A connection's whole life: packets are observed in batches; each batch is flushed in a frame
      of its own, behind any lines of other kinds; the stream of frames is received in chunks of
      any size, split, parsed and handed to the store.  Whatever happens, what is parsed are the
      first of all flows in order; if the stream is read to its end, they are every flow of every
      batch once, with all its bytes.  Only time-outs, each of which takes one of the reads that
      there is time for, or the buffer's limit can keep it from its end. */
  method Session(client: ClientConnection, batches: seq<seq<PacketMeta>>, others: seq<seq<string>>, loop: DataLoop,
                 time: nat)
    returns (outcome: Outcome, ghost parts: seq<seq<PacketMeta>>, ghost lates: nat)
    requires client.Valid() && client.observed == [] && loop.Valid() && loop.received == ""
    requires |others| == |batches|
    requires forall i | 0 <= i < |batches| :: DeliverableBatch(batches[i], loop.maxIface, loop.maxIp)
    requires forall i, j | 0 <= i < |others| && 0 <= j < |others[i]| :: SendableLine(others[i][j])
    modifies client, loop
    ensures client.Valid() && loop.Handled()
    ensures |parts| == |batches| && forall i | 0 <= i < |parts| :: Carries(parts[i], batches[i])
    ensures MetasOf(loop.seen) <= Flat(parts) && (outcome.Ended? ==> MetasOf(loop.seen) == Flat(parts))
    ensures forall want: AggFlowKey -> bool :: Volume(loop.added, want) <= Volume(Flat(batches), want)
    ensures outcome.Ended? && WithinRate(loop.seen, loop.maxPerSecond) ==>
              && loop.added == Flat(parts)
              && forall want: AggFlowKey -> bool :: Volume(loop.added, want) == Volume(Flat(batches), want)
    ensures RoomFor(others, loop.maxBuffer, loop.maxIface, loop.maxIp) ==> !outcome.Dropped?
    ensures outcome.Running? ==> time <= lates + |TextOf(SentLines(parts, others))|
  {
    hide Carries, DeliverableBatch, GateAfter, Passed, Metas, SplitLines, Volume, Rounds, AllDeliverable, RoomFor,
         SendableLine;
    var wire: seq<Byte> := [];
    ghost var fs: seq<Sent> := [];
    parts := [];
    NoRounds(others, loop.maxBuffer, loop.maxIface, loop.maxIp);
    for i := 0 to |batches|
      invariant client.Valid() && client.observed == [] && loop.Valid() && loop.received == ""
      invariant |parts| == i && forall j | 0 <= j < i :: Carries(parts[j], batches[j])
      invariant Rounds(wire, fs, parts, others, loop.maxBuffer, loop.maxIface, loop.maxIp)
    {
      var frames;
      ghost var flows, gs;
      frames, flows, gs := SendRound(client, batches[i], others[i], loop.maxIface, loop.maxIp);
      OneMoreRound(wire, fs, parts, others, frames, gs, flows, loop.maxBuffer, loop.maxIface, loop.maxIp);
      wire, fs, parts := wire + frames, fs + gs, parts + [flows];
    }
    outcome, lates := Receive(wire, loop, time, fs, parts, others);
    forall want: AggFlowKey -> bool ensures Volume(Flat(parts), want) == Volume(Flat(batches), want) {
      AllBytesCarried(parts, batches, want);
    }
    forall want: AggFlowKey -> bool ensures Volume(loop.added, want) <= Volume(Flat(parts), want) {
      NeverMore(loop.seen, loop.maxPerSecond, Flat(parts), want);
    }
    if outcome.Ended? && WithinRate(loop.seen, loop.maxPerSecond) {
      AllPass(loop.seen, loop.maxPerSecond);
    }
  }

  /** The server's side of a connection. */
  method Receive(wire: seq<Byte>, loop: DataLoop, time: nat, ghost fs: seq<Sent>,
                 ghost parts: seq<seq<PacketMeta>>, ghost others: seq<seq<string>>)
    returns (outcome: Outcome, ghost lates: nat)
    requires loop.Valid() && loop.received == ""
    requires Rounds(wire, fs, parts, others, loop.maxBuffer, loop.maxIface, loop.maxIp)
    modifies loop
    ensures loop.Handled() && MetasOf(loop.seen) <= Flat(parts)
    ensures outcome.Ended? ==> MetasOf(loop.seen) == Flat(parts)
    ensures RoomFor(others, loop.maxBuffer, loop.maxIface, loop.maxIp) ==> !outcome.Dropped?
    ensures outcome.Running? ==> time <= lates + |TextOf(SentLines(parts, others))|
  {
    hide Sound, SentLines, GateAfter, Passed, Metas, SplitLines, PayloadStream, Framed, Payloads, TextOf, Undropped;
    hide LineOf, LongestLine;
    ghost var ms := SentLines(parts, others);
    var stream := new Stream(wire);
    ghost var text := FromBytes(stream.Ahead());
    MeaningPreserved(ms, fs, loop.maxIface, loop.maxIp);
    assert text == FromBytes(PayloadStream(Framed(fs)));
    assert text == TextOf(ms) by { FramesCarry(fs); FromToBytes(TextOf(ms)); }
    outcome, lates := Pump(stream, loop, time);
    assert "" + text == text;
    assert loop.received == text[..|loop.received|];
    PrefixParses(text, |loop.received|, loop.maxIface, loop.maxIp);
    if RoomFor(others, loop.maxBuffer, loop.maxIface, loop.maxIp) {
      NoneDropped(ms, loop.maxBuffer, loop.maxIface, loop.maxIp);
    }
  }

  lemma {:induction false} PassedBytes(seen: seq<Arrival>, max: nat, want: AggFlowKey -> bool)
    ensures Volume(Passed(seen, max), want) <= Volume(MetasOf(seen), want)
  {
    hide GateAfter, Volume;
    if seen == [] {
    } else {
      var init, a := seen[..|seen| - 1], seen[|seen| - 1];
      PassedBytes(init, max, want);
      assert MetasOf(seen) == MetasOf(init) + [a.meta];
      VolumeAppend(MetasOf(init), [a.meta], want);
      VolumeAppend(Passed(init, max), [a.meta], want);
      assert Passed(init, max) + [] == Passed(init, max);
    }
  }

  /** What passes of the first flows has no more bytes than all of them. */
  lemma NeverMore(seen: seq<Arrival>, max: nat, flows: seq<PacketMeta>, want: AggFlowKey -> bool)
    requires MetasOf(seen) <= flows
    ensures Volume(Passed(seen, max), want) <= Volume(flows, want)
  {
    hide Volume, Passed;
    PassedBytes(seen, max, want);
    var n := |seen|;
    assert flows == MetasOf(seen) + flows[n..];
    VolumeAppend(MetasOf(seen), flows[n..], want);
  }

  /** As a multiset, the drained flows are the table's entries. */
  lemma ListsAsMultiset(flows: seq<PacketMeta>, table: map<AggFlowKey, nat>)
    requires Lists(flows, table)
    ensures multiset(flows) == multiset(set k | k in table :: FlowOf(k, table[k]))
  {
    var all := set k | k in table :: FlowOf(k, table[k]);
    DistinctOnce(flows);
    forall f ensures multiset(flows)[f] == if f in all then 1 else 0 {
      if f in all {
        var i :| 0 <= i < |flows| && KeyOf(flows[i]) == KeyOf(f);
        assert flows[i] == f;
      }
      if f in flows {
        ListedEntry(flows, table, f);
      }
    }
  }

  lemma ListedEntry(flows: seq<PacketMeta>, table: map<AggFlowKey, nat>, f: PacketMeta)
    requires Lists(flows, table) && f in flows
    ensures KeyOf(f) in table && f == FlowOf(KeyOf(f), table[KeyOf(f)])
  {
    var i :| 0 <= i < |flows| && flows[i] == f;
  }

  lemma {:induction false} DistinctOnce(flows: seq<PacketMeta>)
    requires forall i, j | 0 <= i < j < |flows| :: KeyOf(flows[i]) != KeyOf(flows[j])
    ensures forall f :: multiset(flows)[f] == if f in flows then 1 else 0
  {
    if flows == [] {
    } else {
      assert flows == [flows[0]] + flows[1..];
      DistinctOnce(flows[1..]);
    }
  }
}

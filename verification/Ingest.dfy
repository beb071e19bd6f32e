/** From the client's flow table to the packets the server counts. */
module Ingest {
  import opened Common
  import opened Decimals
  import opened DataLine

  // ----- splitting a stream into lines ------------------------------------------------

  function FindNewline(s: string, p: nat): (nl: nat)
    requires p <= |s|
    ensures p <= nl <= |s| && (nl < |s| ==> s[nl] == '\n') && '\n' !in s[p..nl]
    decreases |s| - p
  {
    if p < |s| && s[p] != '\n' then
      var nl := FindNewline(s, p + 1);
      assert s[p..nl] == [s[p]] + s[p + 1..nl];
      nl
    else p
  }

  datatype Split = Split(lines: seq<string>, rest: string)

  /** Complete lines, without their newlines, and the unfinished line after them. */
  function SplitLines(s: string): (r: Split)
    ensures |r.rest| <= |s|
    decreases |s|
  {
    var nl := FindNewline(s, 0);
    if nl == |s| then Split([], s) else
      var t := SplitLines(s[nl + 1..]);
      Split([s[..nl]] + t.lines, t.rest)
  }

  lemma {:induction false} FindAppend(a: string, b: string, p: nat)
    requires p <= |a|
    ensures FindNewline(a, p) < |a| ==> FindNewline(a + b, p) == FindNewline(a, p)
    decreases |a| - p
  {
    if p >= |a| {
    } else {
      FindAppend(a, b, p + 1);
    }
  }

  lemma OneMore(line: string, s: seq<string>, t: seq<string>)
    ensures ([line] + s) + t == [line] + (s + t)
  {
  }

  /** Splitting does not depend on where the stream was cut. */
  lemma {:induction false} SplitAppend(a: string, b: string)
    ensures SplitLines(a + b) == Split(SplitLines(a).lines + SplitLines(SplitLines(a).rest + b).lines,
                                       SplitLines(SplitLines(a).rest + b).rest)
    decreases |a|
  {
    hide FindNewline;
    var nl := FindNewline(a, 0);
    if nl == |a| {
      assert SplitLines(a) == Split([], a);
    } else {
      FindAppend(a, b, 0);
      assert (a + b)[nl + 1..] == a[nl + 1..] + b && (a + b)[..nl] == a[..nl];
      SplitAppend(a[nl + 1..], b);
      var t := SplitLines(a[nl + 1..]);
      OneMore(a[..nl], t.lines, SplitLines(t.rest + b).lines);
    }
  }

  lemma {:induction false} FirstNewline(line: string, p: nat)
    requires '\n' !in line && p <= |line|
    ensures FindNewline(line, p) == |line|
    decreases |line| - p
  {
    if p >= |line| {
    } else {
      FirstNewline(line, p + 1);
    }
  }

  lemma {:induction false} NewlineThere(line: string, tail: string, p: nat)
    requires '\n' !in line && p <= |line|
    ensures FindNewline(line + "\n" + tail, p) == |line|
    decreases |line| - p
  {
    if p >= |line| {
    } else {
      assert (line + "\n" + tail)[p] == line[p];
      NewlineThere(line, tail, p + 1);
    }
  }

  lemma SplitLine(line: string, tail: string)
    requires '\n' !in line
    ensures SplitLines(line + "\n" + tail) == Split([line] + SplitLines(tail).lines, SplitLines(tail).rest)
  {
    NewlineThere(line, tail, 0);
    assert (line + "\n" + tail)[|line| + 1..] == tail && (line + "\n" + tail)[..|line|] == line;
  }

  // ----- what the server makes of the lines ---------------------------------------------

  predicate IsDLine(line: string) {
    |line| >= 2 && line[0] == 'D' && line[1] == ' '
  }

  function MetaOf(line: string, maxIface: nat, maxIp: nat): seq<PacketMeta> {
    if IsDLine(line) && ParseLine(line[2..], maxIface, maxIp).Some?
    then [ParseLine(line[2..], maxIface, maxIp).value] else []
  }

  function Metas(lines: seq<string>, maxIface: nat, maxIp: nat): seq<PacketMeta> {
    if lines == [] then [] else MetaOf(lines[0], maxIface, maxIp) + Metas(lines[1..], maxIface, maxIp)
  }

  lemma {:induction false} MetasAppend(a: seq<string>, b: seq<string>, maxIface: nat, maxIp: nat)
    ensures Metas(a + b, maxIface, maxIp) == Metas(a, maxIface, maxIp) + Metas(b, maxIface, maxIp)
  {
    if a == [] {
      assert a + b == b;
    } else {
      assert (a + b)[1..] == a[1..] + b;
      MetasAppend(a[1..], b, maxIface, maxIp);
    }
  }

  /** A parsed line and the second in which it was parsed. */
  datatype Arrival = Arrival(sec: int, meta: PacketMeta)

  datatype Gate = Gate(second: int, count: nat)

  function GateAfter(seen: seq<Arrival>): Gate {
    if seen == [] then Gate(-1, 0) else
      var g := GateAfter(seen[..|seen| - 1]);
      var sec := seen[|seen| - 1].sec;
      Gate(sec, if sec != g.second then 1 else g.count + 1)
  }

  /** Arrivals that pass the per-second limit. */
  function Passed(seen: seq<Arrival>, max: nat): seq<PacketMeta> {
    if seen == [] then [] else
      Passed(seen[..|seen| - 1], max)
      + if GateAfter(seen).count > max then [] else [seen[|seen| - 1].meta]
  }

  function MetasOf(seen: seq<Arrival>): (m: seq<PacketMeta>)
    ensures |m| == |seen|
  {
    seq(|seen|, i requires 0 <= i < |seen| => seen[i].meta)
  }

  function InSecond(seen: seq<Arrival>, sec: int): nat {
    if seen == [] then 0 else InSecond(seen[..|seen| - 1], sec) + if seen[|seen| - 1].sec == sec then 1 else 0
  }

  lemma {:induction false} GateWithinSecond(seen: seq<Arrival>)
    ensures seen != [] ==> GateAfter(seen).count <= InSecond(seen, GateAfter(seen).second)
    ensures seen == [] ==> GateAfter(seen).count == 0
  {
    if seen == [] {
    } else {
      GateWithinSecond(seen[..|seen| - 1]);
    }
  }

  lemma {:induction false} InSecondGrows(seen: seq<Arrival>, n: nat, sec: int)
    requires n <= |seen|
    ensures InSecond(seen[..n], sec) <= InSecond(seen, sec)
    decreases |seen|
  {
    if n < |seen| {
      InSecondGrows(seen[..|seen| - 1], n, sec);
      assert seen[..|seen| - 1][..n] == seen[..n];
    } else {
      assert seen[..n] == seen;
    }
  }

  /** No second sees more arrivals than the limit. */
  ghost predicate WithinRate(seen: seq<Arrival>, max: nat) {
    forall sec :: InSecond(seen, sec) <= max
  }

  /** Nothing is dropped as long as no second sees more than the limit. */
  lemma {:induction false} AllPass(seen: seq<Arrival>, max: nat)
    requires WithinRate(seen, max)
    ensures Passed(seen, max) == MetasOf(seen)
  {
    if seen == [] {
    } else {
      var n := |seen| - 1;
      forall sec ensures InSecond(seen[..n], sec) <= max {
        InSecondGrows(seen, n, sec);
      }
      AllPass(seen[..n], max);
      GateWithinSecond(seen);
      assert MetasOf(seen) == MetasOf(seen[..n]) + [seen[n].meta];
    }
  }

  /** The clock of the gate never runs back. */
  predicate Rising(seen: seq<Arrival>) {
    forall i, j | 0 <= i < j < |seen| :: seen[i].sec <= seen[j].sec
  }

  lemma {:induction false} NoneInSecond(seen: seq<Arrival>, sec: int)
    requires forall i | 0 <= i < |seen| :: seen[i].sec != sec
    ensures InSecond(seen, sec) == 0
  {
    if seen == [] {
    } else {
      NoneInSecond(seen[..|seen| - 1], sec);
    }
  }

  lemma {:induction false} GateIsSecond(seen: seq<Arrival>)
    requires Rising(seen) && seen != []
    ensures var sec := seen[|seen| - 1].sec; GateAfter(seen) == Gate(sec, InSecond(seen, sec))
  {
    var (rest, sec) := (seen[..|seen| - 1], seen[|seen| - 1].sec);
    if rest == [] {
    } else {
      GateIsSecond(rest);
      if rest[|rest| - 1].sec != sec {
        NoneInSecond(rest, sec);
      }
    }
  }

  lemma {:induction false} PassedLength(seen: seq<Arrival>, max: nat)
    ensures |Passed(seen, max)| <= |seen|
  {
    hide GateAfter;
    if seen == [] {
    } else {
      PassedLength(seen[..|seen| - 1], max);
    }
  }

  lemma {:induction false} BusyDrops(seen: seq<Arrival>, max: nat, sec: int)
    requires Rising(seen) && InSecond(seen, sec) > max
    ensures |Passed(seen, max)| < |seen|
  {
    hide GateAfter;
    if seen == [] {
    } else {
      var rest := seen[..|seen| - 1];
      PassedLength(rest, max);
      GateIsSecond(seen);
      if InSecond(rest, sec) > max {
        BusyDrops(rest, max, sec);
      }
    }
  }

  /** Nothing is dropped if and only if no second sees more than the limit. */
  lemma AllPassExactlyWhen(seen: seq<Arrival>, max: nat)
    requires Rising(seen)
    ensures Passed(seen, max) == MetasOf(seen) <==> WithinRate(seen, max)
  {
    if WithinRate(seen, max) {
      AllPass(seen, max);
    } else {
      var sec :| InSecond(seen, sec) > max;
      hide Passed, Rising;
      BusyDrops(seen, max, sec);
    }
  }

  // ----- the server's data loop ---------------------------------------------------------------

  class DataLoop {
    const maxIface: nat
    const maxIp: nat
    const maxBuffer: nat
    const maxPerSecond: nat
    var buffer: string
    var lastDLineSecond: int
    var dLineCountThisSecond: nat
    var added: seq<PacketMeta>   // the packets handed to the store
    ghost var received: string
    ghost var seen: seq<Arrival>

    /** After any chunks: the parsed lines are those of everything received, and those within the
        rate limit went to the store. */
    ghost predicate Handled()
      reads this
    {
      && MetasOf(seen) == Metas(SplitLines(received).lines, maxIface, maxIp)
      && Gated()
    }

    /** As long as the connection is not dropped, the buffer is the unfinished line of everything
        received. */
    ghost predicate Valid()
      reads this
    {
      Handled() && buffer == SplitLines(received).rest
    }

    constructor (maxIface: nat, maxIp: nat, maxBuffer: nat, maxPerSecond: nat)
      ensures Valid() && received == ""
      ensures this.maxIface == maxIface && this.maxIp == maxIp
      ensures this.maxBuffer == maxBuffer && this.maxPerSecond == maxPerSecond
    {
      this.maxIface, this.maxIp, this.maxBuffer, this.maxPerSecond := maxIface, maxIp, maxBuffer, maxPerSecond;
      buffer, lastDLineSecond, dLineCountThisSecond, added, received, seen := "", -1, 0, [], "", [];
    }

    ghost predicate Gated()
      reads this
    {
      Gate(lastDLineSecond, dLineCountThisSecond) == GateAfter(seen) && added == Passed(seen, maxPerSecond)
    }

    /** Counts a parsed line against its second and hands it on within the limit. */
    method Admit(meta: PacketMeta, nowSec: int)
      requires Gated()
      modifies this
      ensures Gated() && buffer == old(buffer) && received == old(received)
      ensures seen == old(seen) + [Arrival(nowSec, meta)]
    {
      if nowSec != lastDLineSecond {
        lastDLineSecond := nowSec;
        dLineCountThisSecond := 0;
      }
      dLineCountThisSecond := dLineCountThisSecond + 1;
      ghost var before := seen;
      seen := seen + [Arrival(nowSec, meta)];
      assert seen[..|seen| - 1] == before;
      if dLineCountThisSecond <= maxPerSecond {
        added := added + [meta];
      }
    }

    method HandleLine(line: string)
      requires Gated()
      modifies this
      ensures Gated() && buffer == old(buffer) && received == old(received)
      ensures MetasOf(seen) == old(MetasOf(seen)) + MetaOf(line, maxIface, maxIp)
    {
      if |line| >= 2 && line[0] == 'D' && line[1] == ' ' {
        var ok, meta := ParseDataLine(line[2..], maxIface, maxIp);
        if ok {
          var nowSec: int := *;
          Admit(meta, nowSec);
          SeenMore(old(seen), Arrival(nowSec, meta));
        }
      }
    }

    /** One chunk of payload; false means the buffer limit was passed and the
        connection is dropped. */
    method OnChunk(chunk: string) returns (ok: bool)
      requires Valid()
      modifies this
      ensures ok <==> |old(buffer)| + |chunk| <= maxBuffer
      ensures ok ==> Valid() && received == old(received) + chunk
      ensures !ok ==> Handled() && received == old(received)
    {
      hide GateAfter, Passed, MetasOf, Metas, MetaOf, SplitLines;
      buffer := buffer + chunk;
      if |buffer| > maxBuffer {
        return false;
      }
      SplitAppend(received, chunk);
      ghost var whole := buffer;
      ghost var before := Metas(SplitLines(received).lines, maxIface, maxIp);
      MetasAppend(SplitLines(received).lines, SplitLines(whole).lines, maxIface, maxIp);
      received := received + chunk;
      var pos := 0;
      assert buffer[0..] == buffer;
      while true
        invariant 0 <= pos <= |buffer| && buffer == whole && received == old(received) + chunk && Gated()
        invariant SplitLines(whole).rest == SplitLines(whole[pos..]).rest
        invariant MetasOf(seen) + Metas(SplitLines(whole[pos..]).lines, maxIface, maxIp)
               == before + Metas(SplitLines(whole).lines, maxIface, maxIp)
        decreases |buffer| - pos
      {
        var nl := FindNewline(buffer, pos);
        LinesFrom(buffer, pos, maxIface, maxIp);
        if nl == |buffer| {
          break;
        }
        ghost var done := MetasOf(seen);
        HandleLine(buffer[pos..nl]);
        Regroup(done, MetaOf(buffer[pos..nl], maxIface, maxIp),
                Metas(SplitLines(buffer[nl + 1..]).lines, maxIface, maxIp));
        pos := nl + 1;
      }
      assert MetasOf(seen) == before + Metas(SplitLines(whole).lines, maxIface, maxIp);
      if pos > 0 {
        buffer := buffer[pos..];
      }
      ok := true;
    }
  }

  lemma SeenMore(seen: seq<Arrival>, a: Arrival)
    ensures MetasOf(seen + [a]) == MetasOf(seen) + [a.meta]
  {
  }

  lemma SplitFrom(s: string, pos: nat)
    requires pos <= |s|
    ensures var nl := FindNewline(s, pos);
            SplitLines(s[pos..]) == if nl == |s| then Split([], s[pos..])
                                    else Split([s[pos..nl]] + SplitLines(s[nl + 1..]).lines,
                                               SplitLines(s[nl + 1..]).rest)
  {
    FindShift(s, pos, pos);
    hide FindNewline;
    var t, nl := s[pos..], FindNewline(s, pos);
    if nl < |s| {
      assert t[..nl - pos] == s[pos..nl] && t[nl - pos + 1..] == s[nl + 1..];
    }
  }

  lemma MetasCons(line: string, more: seq<string>, maxIface: nat, maxIp: nat)
    ensures Metas([line] + more, maxIface, maxIp) == MetaOf(line, maxIface, maxIp) + Metas(more, maxIface, maxIp)
    ensures Metas([], maxIface, maxIp) == []
  {
    hide MetaOf;
    assert ([line] + more)[1..] == more;
  }

  /** One turn of the splitting loop: the line up to the next newline, or the end. */
  lemma LinesFrom(s: string, pos: nat, maxIface: nat, maxIp: nat)
    requires pos <= |s|
    ensures var nl := FindNewline(s, pos);
            if nl == |s| then SplitLines(s[pos..]).rest == s[pos..]
                && Metas(SplitLines(s[pos..]).lines, maxIface, maxIp) == []
            else SplitLines(s[pos..]).rest == SplitLines(s[nl + 1..]).rest
                 && Metas(SplitLines(s[pos..]).lines, maxIface, maxIp)
                    == MetaOf(s[pos..nl], maxIface, maxIp) + Metas(SplitLines(s[nl + 1..]).lines, maxIface, maxIp)
  {
    hide SplitLines, Metas, MetaOf, FindNewline;
    var nl := FindNewline(s, pos);
    SplitFrom(s, pos);
    MetasCons(if nl < |s| then s[pos..nl] else "", if nl < |s| then SplitLines(s[nl + 1..]).lines else [], maxIface,
              maxIp);
  }

  lemma {:induction false} FindShift(s: string, p: nat, q: nat)
    requires p <= q <= |s|
    ensures FindNewline(s[p..], q - p) == FindNewline(s, q) - p
    decreases |s| - q
  {
    if q >= |s| {
    } else {
      FindShift(s, p, q + 1);
    }
  }

  // ----- what a client sends -------------------------------------------------------------------

  /** One line of the client: a flow, or an announcement, a health report or a response. */
  datatype Message = Flow(flow: PacketMeta) | Other(line: string)

  function LineOf(m: Message): string {
    match m
    case Flow(f) => "D " + Body(f)
    case Other(line) => line
  }

  function TextOf(ms: seq<Message>): string {
    if ms == [] then "" else LineOf(ms[0]) + "\n" + TextOf(ms[1..])
  }

  function FlowIn(m: Message): seq<PacketMeta> {
    if m.Flow? then [m.flow] else []
  }

  function FlowsOf(ms: seq<Message>): seq<PacketMeta> {
    if ms == [] then [] else FlowIn(ms[0]) + FlowsOf(ms[1..])
  }

  /** A line that does not begin as a flow's does. */
  predicate PlainLine(line: string) {
    '\n' !in line && !IsDLine(line)
  }

  /** A flow that survives the trip, or any other line. */
  predicate Sound(m: Message, maxIface: nat, maxIp: nat) {
    match m
    case Flow(f) => Deliverable(f, maxIface, maxIp)
    case Other(line) => PlainLine(line)
  }

  predicate AllSound(ms: seq<Message>, maxIface: nat, maxIp: nat) {
    forall i | 0 <= i < |ms| :: Sound(ms[i], maxIface, maxIp)
  }

  lemma DeliverableFits(f: PacketMeta, maxIface: nat, maxIp: nat)
    requires Deliverable(f, maxIface, maxIp)
    ensures f.bytes < U64
    ensures '\n' !in f.iface && '\n' !in f.srcIp && '\n' !in f.dstIp
  {
  }

  lemma NoNewline(f: PacketMeta, maxIface: nat, maxIp: nat)
    requires Deliverable(f, maxIface, maxIp)
    ensures '\n' !in Body(f)
  {
    hide CStr, Decimal, Deliverable;
    DeliverableFits(f, maxIface, maxIp);
    CStrWhole(f.iface);
    CStrWhole(f.srcIp);
    CStrWhole(f.dstIp);
    DigitsHaveNoNewline(f.bytes);
  }

  lemma DigitsHaveNoNewline(n: nat)
    ensures '\n' !in Decimal(n)
  {
  }

  lemma OneLine(m: Message, maxIface: nat, maxIp: nat)
    requires Sound(m, maxIface, maxIp)
    ensures '\n' !in LineOf(m) && MetaOf(LineOf(m), maxIface, maxIp) == FlowIn(m)
  {
    hide ParseLine, Body, Deliverable;
    if m.Flow? {
      var f := m.flow;
      DeliverableFits(f, maxIface, maxIp);
      PrintParse(f, maxIface, maxIp);
      assert ("D " + Body(f))[2..] == Body(f);
      NoNewline(f, maxIface, maxIp);
    }
  }

  lemma LineParses(m: Message, more: string, maxIface: nat, maxIp: nat)
    requires Sound(m, maxIface, maxIp)
    ensures Metas(SplitLines(LineOf(m) + "\n" + more).lines, maxIface, maxIp)
         == FlowIn(m) + Metas(SplitLines(more).lines, maxIface, maxIp)
    ensures SplitLines(LineOf(m) + "\n" + more).rest == SplitLines(more).rest
  {
    hide SplitLines, MetaOf, LineOf, Sound;
    OneLine(m, maxIface, maxIp);
    SplitLine(LineOf(m), more);
    assert ([LineOf(m)] + SplitLines(more).lines)[1..] == SplitLines(more).lines;
  }

  /** What a client sends, followed by anything, parses to its flows in order and then to
      whatever follows. */
  lemma {:induction false} TextParses(ms: seq<Message>, tail: string, maxIface: nat, maxIp: nat)
    requires AllSound(ms, maxIface, maxIp)
    ensures Metas(SplitLines(TextOf(ms) + tail).lines, maxIface, maxIp)
         == FlowsOf(ms) + Metas(SplitLines(tail).lines, maxIface, maxIp)
    ensures SplitLines(TextOf(ms) + tail).rest == SplitLines(tail).rest
  {
    hide SplitLines, Metas, LineOf, Sound;
    if ms == [] {
      assert TextOf(ms) + tail == tail;
    } else {
      var more := TextOf(ms[1..]) + tail;
      assert TextOf(ms) + tail == LineOf(ms[0]) + "\n" + more;
      LineParses(ms[0], more, maxIface, maxIp);
      TextParses(ms[1..], tail, maxIface, maxIp);
      Regroup(FlowIn(ms[0]), FlowsOf(ms[1..]), Metas(SplitLines(tail).lines, maxIface, maxIp));
    }
  }

  /** The lines of what has arrived so far are the first of all lines. */
  lemma PrefixParses(text: string, n: nat, maxIface: nat, maxIp: nat)
    requires n <= |text|
    ensures Metas(SplitLines(text[..n]).lines, maxIface, maxIp) <= Metas(SplitLines(text).lines, maxIface, maxIp)
  {
    hide SplitLines, Metas;
    SplitAppend(text[..n], text[n..]);
    assert text == text[..n] + text[n..];
    var a := SplitLines(text[..n]);
    MetasAppend(a.lines, SplitLines(a.rest + text[n..]).lines, maxIface, maxIp);
  }

  lemma {:induction false} TextAppend(a: seq<Message>, b: seq<Message>)
    ensures TextOf(a + b) == TextOf(a) + TextOf(b) && FlowsOf(a + b) == FlowsOf(a) + FlowsOf(b)
  {
    hide LineOf;
    if a == [] {
      assert a + b == b;
    } else {
      assert (a + b)[1..] == a[1..] + b;
      TextAppend(a[1..], b);
      Regroup(FlowIn(a[0]), FlowsOf(a[1..]), FlowsOf(b));
    }
  }

  // ----- flushes ---------------------------------------------------------------------------------

  predicate AllDeliverable(flows: seq<PacketMeta>, maxIface: nat, maxIp: nat) {
    forall i | 0 <= i < |flows| :: Deliverable(flows[i], maxIface, maxIp)
  }

  function Flush(flows: seq<PacketMeta>): (ms: seq<Message>)
    ensures |ms| == |flows|
  {
    seq(|flows|, i requires 0 <= i < |flows| => Flow(flows[i]))
  }

  function FlushText(flows: seq<PacketMeta>): string {
    TextOf(Flush(flows))
  }

  lemma {:induction false} FlowsOfFlush(flows: seq<PacketMeta>)
    ensures FlowsOf(Flush(flows)) == flows
  {
    if flows == [] {
    } else {
      assert Flush(flows)[1..] == Flush(flows[1..]);
      FlowsOfFlush(flows[1..]);
    }
  }

  lemma SoundFlush(flows: seq<PacketMeta>, maxIface: nat, maxIp: nat)
    ensures AllSound(Flush(flows), maxIface, maxIp) <==> AllDeliverable(flows, maxIface, maxIp)
  {
    hide Deliverable;
    assert forall i | 0 <= i < |flows| :: Flush(flows)[i] == Flow(flows[i]);
  }

  lemma FlushAppend(a: seq<PacketMeta>, b: seq<PacketMeta>)
    ensures FlushText(a + b) == FlushText(a) + FlushText(b)
  {
    hide TextOf;
    TextAppend(Flush(a), Flush(b));
    assert Flush(a + b) == Flush(a) + Flush(b);
  }

  lemma FlushOne(f: PacketMeta)
    ensures FlushText([f]) == PrintLine(f)
  {
    hide Body;
    assert Flush([f])[1..] == [];
    assert TextOf([]) == "";
  }

  /** A printed line has at least seven characters. */
  lemma {:induction false} FlushLength(flows: seq<PacketMeta>)
    ensures |FlushText(flows)| >= 7 * |flows|
  {
    hide CStr, Decimal;
    if flows == [] {
    } else {
      assert Flush(flows)[1..] == Flush(flows[1..]);
      FlushLength(flows[1..]);
    }
  }
}

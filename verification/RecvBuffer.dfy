/** How far unfinished lines fill the buffer of the server's data loop. */
module RecvBuffer {
  import opened Common
  import opened DataLine
  import opened Ingest

  /** After n characters of the text, c more are within the buffer's limit. */
  predicate FitsBuffer(text: string, n: nat, c: nat, maxBuffer: nat)
    requires n <= |text|
  {
    |SplitLines(text[..n]).rest| + c <= maxBuffer
  }

  /** However the text is cut into chunks of at most 4096 bytes, the buffer's limit is never passed. */
  ghost predicate Undropped(text: string, maxBuffer: nat) {
    forall n: nat, c: nat | n + c <= |text| && c <= 4096 :: FitsBuffer(text, n, c, maxBuffer)
  }

  lemma LimitPassed(text: string, n: nat, c: nat, maxBuffer: nat)
    requires n + c <= |text| && c <= 4096 && |SplitLines(text[..n]).rest| + c > maxBuffer
    ensures !Undropped(text, maxBuffer)
  {
    hide SplitLines;
    assert !FitsBuffer(text, n, c, maxBuffer);
  }

  /** A text that is cut where its buffer has no room ends the run of any data loop. */
  method DroppedRun(loop: DataLoop, text: string, n: nat, c: nat) returns (ok: bool)
    requires loop.Valid() && loop.received == ""
    requires n + c <= |text| && c <= 4096 && !FitsBuffer(text, n, c, loop.maxBuffer)
    modifies loop
    ensures !ok
  {
    hide SplitLines, GateAfter, Passed, Metas, MetasOf;
    for i := 0 to n
      invariant loop.Valid() && loop.received == text[..i]
    {
      ok := loop.OnChunk(text[i..i + 1]);
      if !ok {
        return;
      }
      assert text[..i + 1] == text[..i] + text[i..i + 1];
    }
    ok := loop.OnChunk(text[n..n + c]);
  }

  lemma {:induction false} NoNewlineRest(s: string)
    requires '\n' !in s
    ensures SplitLines(s) == Split([], s)
  {
    FirstNewline(s, 0);
  }

  lemma CutLine(line: string, more: string, n: nat)
    requires '\n' !in line && n <= |line| + 1 + |more|
    ensures SplitLines((line + "\n" + more)[..n]).rest
         == if n <= |line| then line[..n] else SplitLines(more[..n - |line| - 1]).rest
  {
    hide SplitLines;
    if n <= |line| {
      assert (line + "\n" + more)[..n] == line[..n];
      NoNewlineRest(line[..n]);
    } else {
      assert (line + "\n" + more)[..n] == line + "\n" + more[..n - |line| - 1];
      SplitLine(line, more[..n - |line| - 1]);
    }
  }

  predicate AllWithin(ms: seq<Message>, width: nat) {
    forall i | 0 <= i < |ms| :: |LineOf(ms[i])| <= width
  }

  lemma CutMessage(m: Message, more: string, n: nat, maxIface: nat, maxIp: nat)
    requires Sound(m, maxIface, maxIp) && n <= |LineOf(m)| + 1 + |more|
    ensures var rest := SplitLines((LineOf(m) + "\n" + more)[..n]).rest;
            if n <= |LineOf(m)| then |rest| <= |LineOf(m)| else rest == SplitLines(more[..n - |LineOf(m)| - 1]).rest
  {
    hide LineOf, Sound, SplitLines;
    OneLine(m, maxIface, maxIp);
    CutLine(LineOf(m), more, n);
  }

  /** In a stream of whole lines no unfinished line is longer than the longest of them. */
  lemma {:induction false} RestShort(ms: seq<Message>, n: nat, width: nat, maxIface: nat, maxIp: nat)
    requires AllSound(ms, maxIface, maxIp) && AllWithin(ms, width) && n <= |TextOf(ms)|
    ensures |SplitLines(TextOf(ms)[..n]).rest| <= width
  {
    hide LineOf, Sound, SplitLines;
    if ms == [] {
      NoNewlineRest("");
      assert TextOf(ms)[..n] == "";
    } else {
      var size := |LineOf(ms[0])|;
      CutMessage(ms[0], TextOf(ms[1..]), n, maxIface, maxIp);
      if n > size {
        RestShort(ms[1..], n - size - 1, width, maxIface, maxIp);
      }
    }
  }

  /** With room for a full chunk behind the longest line, nothing is dropped. */
  lemma NoneDropped(ms: seq<Message>, maxBuffer: nat, maxIface: nat, maxIp: nat)
    requires AllSound(ms, maxIface, maxIp) && maxBuffer >= 4096 && AllWithin(ms, maxBuffer - 4096)
    ensures Undropped(TextOf(ms), maxBuffer)
  {
    hide SplitLines, TextOf, LineOf, Sound;
    forall n: nat, c: nat | n + c <= |TextOf(ms)| && c <= 4096 ensures FitsBuffer(TextOf(ms), n, c, maxBuffer) {
      RestShort(ms, n, maxBuffer - 4096, maxIface, maxIp);
    }
  }

  lemma FlushWithin(flows: seq<PacketMeta>, maxIface: nat, maxIp: nat)
    requires AllDeliverable(flows, maxIface, maxIp)
    ensures AllWithin(Flush(flows), LongestLine(maxIface, maxIp))
  {
    hide Deliverable, Body;
    forall i | 0 <= i < |flows| ensures |LineOf(Flush(flows)[i])| <= LongestLine(maxIface, maxIp) {
      LineLength(flows[i], maxIface, maxIp);
    }
  }

  function Copies(f: PacketMeta, k: nat): (flows: seq<PacketMeta>)
    ensures |flows| == k
  {
    seq(k, i requires 0 <= i < k => f)
  }

  /** Flows with the longest lines pass any smaller limit: the buffer holds one of the lines but
      for its newline when a full chunk comes. */
  lemma LongLinesDropped(maxBuffer: nat, maxIface: nat, maxIp: nat)
    requires maxBuffer < 4096 + LongestLine(maxIface, maxIp)
    ensures var flows := Copies(LongFlow(maxIface, maxIp), 700);
            AllDeliverable(flows, maxIface, maxIp) && !Undropped(FlushText(flows), maxBuffer)
  {
    hide SplitLines, Deliverable, Body, Undropped;
    var f := LongFlow(maxIface, maxIp);
    var ms := Flush(Copies(f, 700));
    LongFlowLength(maxIface, maxIp);
    hide LongFlow;
    FlushLength(Copies(f, 700));
    var (line, more) := (LineOf(ms[0]), TextOf(ms[1..]));
    assert TextOf(ms) == line + "\n" + more;
    OneLine(ms[0], maxIface, maxIp);
    hide TextOf;
    CutLine(line, more, |line|);
    LimitPassed(TextOf(ms), |line|, 4096, maxBuffer);
  }

  /** No flows of printed lines, however cut, are ever dropped if and only if the limit has room
      for the longest line and a chunk. */
  lemma UndroppedExactlyWhen(maxBuffer: nat, maxIface: nat, maxIp: nat)
    ensures (forall flows | AllDeliverable(flows, maxIface, maxIp) :: Undropped(FlushText(flows), maxBuffer))
       <==> maxBuffer >= 4096 + LongestLine(maxIface, maxIp)
  {
    hide Undropped, Deliverable, LongestLine, TextOf;
    if maxBuffer >= 4096 + LongestLine(maxIface, maxIp) {
      forall flows | AllDeliverable(flows, maxIface, maxIp) ensures Undropped(FlushText(flows), maxBuffer) {
        FlushWithin(flows, maxIface, maxIp);
        SoundFlush(flows, maxIface, maxIp);
        NoneDropped(Flush(flows), maxBuffer, maxIface, maxIp);
      }
    } else {
      LongLinesDropped(maxBuffer, maxIface, maxIp);
    }
  }

  /** At the least limit that the server accepts, any 586 flows can be dropped. */
  lemma LeastLimitDrops(flows: seq<PacketMeta>)
    requires |flows| >= 586
    ensures !Undropped(FlushText(flows), 4096)
  {
    hide SplitLines, Body, Undropped;
    var text := FlushText(flows);
    FlushLength(flows);
    assert text == LineOf(Flush(flows)[0]) + "\n" + TextOf(Flush(flows)[1..]);
    assert text[..1] == "D";
    NoNewlineRest("D");
    LimitPassed(text, 1, 4096, 4096);
  }
}

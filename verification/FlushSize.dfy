/** Which flushes the client can write. */
module FlushSize {
  import opened Common
  import opened DataLine
  import opened Decimals
  import opened Bytes
  import opened FlowTableClient
  import opened Ingest
  import WsFraming

  /** The most bytes that the client's transport writes at once. */
  const MAX_IO: nat := 2 * 1024 * 1024

  /** A masked frame of n payload bytes. */
  function FrameSize(n: nat): nat {
    n + if n < 126 then 6 else if n <= 0xFFFF then 8 else 14
  }

  lemma FrameLength(payload: seq<Byte>, key: WsFraming.Key)
    requires |payload| < U64
    ensures |WsFraming.ClientFrame(WsFraming.BINARY, payload, key)| == FrameSize(|payload|)
  {
  }

  /** The text needs no frame, or one that can be written: of at most 2 MiB. */
  predicate Writable(text: string) {
    text == "" || FrameSize(|text|) <= 2_097_152
  }

  predicate FitsFrame(flows: seq<PacketMeta>) {
    Writable(FlushText(flows))
  }

  /** The table without one entry is listed by the listing without it. */
  lemma ListsLess(g: seq<PacketMeta>, table: map<AggFlowKey, nat>, i: nat)
    requires Lists(g, table) && i < |g|
    ensures Lists(g[..i] + g[i + 1..], table - {KeyOf(g[i])})
  {
    var rest, less := g[..i] + g[i + 1..], table - {KeyOf(g[i])};
    hide KeyOf;
    forall x | 0 <= x < |rest| ensures rest[x] == g[if x < i then x else x + 1] {
    }
    forall k | k in less ensures Observed(rest, k) {
      var j :| 0 <= j < |g| && KeyOf(g[j]) == k;
      assert KeyOf(rest[if j < i then j else j - 1]) == k;
    }
    hide Observed;
  }

  lemma TakenOut(g: seq<PacketMeta>, i: nat)
    requires i < |g|
    ensures |FlushText(g)| == |PrintLine(g[i])| + |FlushText(g[..i] + g[i + 1..])|
  {
    hide PrintLine, FlushText;
    FlushAppend(g[..i], [g[i]]);
    FlushOne(g[i]);
    FlushAppend(g[..i] + [g[i]], g[i + 1..]);
    FlushAppend(g[..i], g[i + 1..]);
    assert g == g[..i] + [g[i]] + g[i + 1..];
  }

  /** A table's text has one length, in whatever order it is listed. */
  lemma {:induction false} OneLength(f: seq<PacketMeta>, g: seq<PacketMeta>, table: map<AggFlowKey, nat>)
    requires Lists(f, table) && Lists(g, table)
    ensures |FlushText(f)| == |FlushText(g)|
    decreases |f|
  {
    hide PrintLine, Observed, FlushText;
    if f == [] {
      assert g != [] ==> KeyOf(g[0]) in table;
      NoneListed(table);
      assert g == [];
    } else {
      var i := Listed(f[0], g, table);
      TakenOut(f, 0);
      TakenOut(g, i);
      ListsLess(f, table, 0);
      ListsLess(g, table, i);
      assert f[..0] + f[1..] == f[1..];
      OneLength(f[1..], g[..i] + g[i + 1..], table - {KeyOf(f[0])});
    }
  }

  lemma NoneListed(table: map<AggFlowKey, nat>)
    requires Lists([], table)
    ensures forall k :: k !in table
  {
  }

  lemma Listed(f: PacketMeta, g: seq<PacketMeta>, table: map<AggFlowKey, nat>) returns (i: nat)
    requires Lists(g, table) && KeyOf(f) in table && f.bytes == table[KeyOf(f)]
    ensures i < |g| && g[i] == f
  {
    assert Observed(g, KeyOf(f));
    i :| i < |g| && KeyOf(g[i]) == KeyOf(f);
  }

  /** Whether a flush of the table can be written. */
  ghost predicate FitsTable(table: map<AggFlowKey, nat>) {
    exists flows :: Lists(flows, table) && FitsFrame(flows)
  }

  lemma FitsInAnyOrder(flows: seq<PacketMeta>, table: map<AggFlowKey, nat>)
    requires Lists(flows, table)
    ensures FitsFrame(flows) <==> FitsTable(table)
  {
    hide Lists, FlushText;
    if g :| Lists(g, table) && FitsFrame(g) {
      OneLength(flows, g, table);
    }
  }

  lemma {:induction false} KeysAtMost(flows: seq<PacketMeta>, ks: set<AggFlowKey>)
    requires forall k | k in ks :: Observed(flows, k)
    ensures |ks| <= |flows|
  {
    if flows == [] {
      assert ks == {};
    } else {
      var init, f := flows[..|flows| - 1], flows[|flows| - 1];
      assert flows == init + [f];
      forall k | k in ks - {KeyOf(f)} ensures Observed(init, k) {
        ObservedStep(init, f, k);
      }
      hide Observed;
      KeysAtMost(init, ks - {KeyOf(f)});
      assert KeyOf(f) in ks ==> ks == ks - {KeyOf(f)} + {KeyOf(f)};
      assert KeyOf(f) !in ks ==> ks == ks - {KeyOf(f)};
    }
  }

  /** The flush of a table of 299,592 flows or more cannot be written. */
  lemma LargeTable(table: map<AggFlowKey, nat>)
    requires |table| >= 299_592
    ensures !FitsTable(table)
  {
    hide FlushText, Observed;
    forall flows | Lists(flows, table) ensures !FitsFrame(flows) {
      KeysAtMost(flows, table.Keys);
      assert |table.Keys| == |table|;
      FlushLength(flows);
    }
  }

  /** Packets of ever new flows. */
  function NewFlow(i: nat): PacketMeta {
    PacketMeta("eth0", "fd00::" + Decimal(1 + i / 1000), "fd00::" + Decimal(1 + i % 1000), 60)
  }

  function ManyFlows(n: nat): (ms: seq<PacketMeta>)
    ensures |ms| == n
  {
    seq(n, i requires 0 <= i < n => NewFlow(i))
  }

  lemma NewFlowIsNew(i: nat, j: nat)
    requires KeyOf(NewFlow(i)) == KeyOf(NewFlow(j))
    ensures i == j
  {
    hide Decimal;
    forall k: nat ensures ("fd00::" + Decimal(k))[6..] == Decimal(k) {
    }
    ValueOfDecimal(1 + i / 1000);
    ValueOfDecimal(1 + j / 1000);
    ValueOfDecimal(1 + i % 1000);
    ValueOfDecimal(1 + j % 1000);
    assert Decimal(1 + i / 1000) == NewFlow(i).srcIp[6..] == NewFlow(j).srcIp[6..] == Decimal(1 + j / 1000);
    assert Decimal(1 + i % 1000) == NewFlow(i).dstIp[6..] == NewFlow(j).dstIp[6..] == Decimal(1 + j % 1000);
  }

  lemma LastIsNew(n: nat)
    requires n > 0
    ensures ManyFlows(n) == ManyFlows(n - 1) + [NewFlow(n - 1)]
    ensures !Observed(ManyFlows(n - 1), KeyOf(NewFlow(n - 1)))
  {
    hide NewFlow, KeyOf;
    var init := ManyFlows(n - 1);
    forall i | 0 <= i < n - 1 ensures KeyOf(init[i]) != KeyOf(NewFlow(n - 1)) {
      if KeyOf(NewFlow(i)) == KeyOf(NewFlow(n - 1)) {
        NewFlowIsNew(i, n - 1);
      }
    }
  }

  lemma {:induction false} ManyKeys(n: nat, ks: set<AggFlowKey>)
    requires forall k :: k in ks <==> Observed(ManyFlows(n), k)
    ensures |ks| == n
  {
    hide NewFlow, KeyOf;
    if n == 0 {
      assert ks == {};
    } else {
      var f := NewFlow(n - 1);
      LastIsNew(n);
      hide ManyFlows, Observed;
      forall k ensures k in ks <==> Observed(ManyFlows(n - 1), k) || k == KeyOf(f) {
        ObservedStep(ManyFlows(n - 1), f, k);
      }
      ManyKeys(n - 1, ks - {KeyOf(f)});
    }
  }

  /** A client that observes these packets between two flushes loses them all. */
  lemma ManyFlowsLost(n: nat, table: map<AggFlowKey, nat>)
    requires n >= 299_592 && TableOf(table, ManyFlows(n))
    ensures |table| == n && !FitsTable(table)
  {
    hide Observed, ManyFlows, FitsTable;
    ManyKeys(n, table.Keys);
    LargeTable(table);
  }
}

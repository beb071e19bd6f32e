/** The client's flow table. */
module FlowTableClient {
  import opened Common
  import opened DataLine

  datatype AggFlowKey = AggFlowKey(iface: string, srcIp: string, dstIp: string)

  function KeyOf(m: PacketMeta): AggFlowKey {
    AggFlowKey(m.iface, m.srcIp, m.dstIp)
  }

  /** Bytes observed for one flow. */
  function BytesOf(observed: seq<PacketMeta>, k: AggFlowKey): nat {
    if observed == [] then 0 else
      BytesOf(observed[..|observed| - 1], k)
      + if KeyOf(observed[|observed| - 1]) == k then observed[|observed| - 1].bytes else 0
  }

  /** Bytes of the flows that are wanted. */
  function Volume(ms: seq<PacketMeta>, want: AggFlowKey -> bool): nat {
    if ms == [] then 0 else
      Volume(ms[..|ms| - 1], want) + if want(KeyOf(ms[|ms| - 1])) then ms[|ms| - 1].bytes else 0
  }

  function OnIface(iface: string): AggFlowKey -> bool {
    (k: AggFlowKey) => k.iface == iface
  }

  function OneFlow(flow: AggFlowKey): AggFlowKey -> bool {
    (k: AggFlowKey) => k == flow
  }

  lemma {:induction false} BytesOfOneFlow(ms: seq<PacketMeta>, k: AggFlowKey)
    ensures Volume(ms, OneFlow(k)) == BytesOf(ms, k)
  {
    if ms == [] {
    } else {
      BytesOfOneFlow(ms[..|ms| - 1], k);
    }
  }

  ghost predicate Observed(ms: seq<PacketMeta>, k: AggFlowKey) {
    exists i :: 0 <= i < |ms| && KeyOf(ms[i]) == k
  }

  /** What a 64-bit counter holds. */
  function Wrap(n: nat): nat {
    n % U64
  }

  ghost predicate TableOf(table: map<AggFlowKey, nat>, observed: seq<PacketMeta>) {
    && (forall k :: k in table <==> Observed(observed, k))
    && (forall k | k in table :: table[k] == Wrap(BytesOf(observed, k)))
  }

  /** flows lists the table's entries, each once, in some order. */
  ghost predicate Lists(flows: seq<PacketMeta>, table: map<AggFlowKey, nat>) {
    && (forall i | 0 <= i < |flows| :: KeyOf(flows[i]) in table && flows[i].bytes == table[KeyOf(flows[i])])
    && (forall i, j | 0 <= i < j < |flows| :: KeyOf(flows[i]) != KeyOf(flows[j]))
    && (forall k | k in table :: Observed(flows, k))
  }

  lemma WrapAdd(a: nat, b: nat)
    ensures Wrap(Wrap(a) + b) == Wrap(a + b)
    ensures Wrap(0) == 0
    ensures a < U64 ==> Wrap(a) == a
  {
  }

  /** One more packet adds its bytes to its flow's entry, and changes no other. */
  lemma Accumulated(table: map<AggFlowKey, nat>, observed: seq<PacketMeta>, m: PacketMeta)
    requires TableOf(table, observed)
    ensures var k := KeyOf(m);
            TableOf(table[k := Wrap((if k in table then table[k] else 0) + m.bytes)], observed + [m])
  {
    hide Wrap, KeyOf;
    var k := KeyOf(m);
    if k !in table {
      UnobservedNoBytes(observed, k);
    }
    WrapAdd(BytesOf(observed, k), m.bytes);
    assert (observed + [m])[..|observed|] == observed;
    forall x ensures Observed(observed + [m], x) <==> Observed(observed, x) || k == x {
      ObservedStep(observed, m, x);
    }
    hide Observed;
  }

  lemma ObservedStep(ms: seq<PacketMeta>, m: PacketMeta, k: AggFlowKey)
    ensures Observed(ms + [m], k) <==> Observed(ms, k) || KeyOf(m) == k
  {
    if Observed(ms, k) {
      var i :| 0 <= i < |ms| && KeyOf(ms[i]) == k;
      assert KeyOf((ms + [m])[i]) == k;
    }
    assert (ms + [m])[|ms|] == m;
  }

  lemma {:induction false} UnobservedNoBytes(ms: seq<PacketMeta>, k: AggFlowKey)
    requires !Observed(ms, k)
    ensures BytesOf(ms, k) == 0
  {
    if ms == [] {
    } else {
      var rest := ms[..|ms| - 1];
      assert ms == rest + [ms[|ms| - 1]];
      ObservedStep(rest, ms[|ms| - 1], k);
      UnobservedNoBytes(rest, k);
    }
  }

  class ClientConnection {
    var flowTable: map<AggFlowKey, nat>
    ghost var observed: seq<PacketMeta>   // since the last drain

    ghost predicate Valid()
      reads this
    {
      TableOf(flowTable, observed)
    }

    constructor ()
      ensures Valid() && observed == []
    {
      flowTable, observed := map[], [];
    }

    method AccumulateFlow(meta: PacketMeta)
      requires Valid()
      modifies this
      ensures Valid() && observed == old(observed) + [meta]
    {
      hide TableOf, Wrap;
      Accumulated(flowTable, observed, meta);
      var k := KeyOf(meta);
      var before := if k in flowTable then flowTable[k] else 0;
      flowTable := flowTable[k := Wrap(before + meta.bytes)];
      observed := observed + [meta];
    }

    /** Swaps the table out and prints one line per flow. */
    method Drain() returns (text: string, ghost flows: seq<PacketMeta>)
      requires Valid()
      modifies this
      ensures Valid() && observed == [] && flowTable == map[]
      ensures Lists(flows, old(flowTable))
      ensures text == Printed(flows)
    {
      hide PrintLine, ListsUpTo, Observed;
      var table := flowTable;
      NothingObserved();
      flowTable := map[];
      observed := [];
      text, flows := "", [];
      var rest := table.Keys;
      assert ListsUpTo([], table, rest) by { NothingListed(table); }
      while rest != {}
        invariant rest <= table.Keys && text == Printed(flows) && flowTable == map[] && observed == []
        invariant ListsUpTo(flows, table, rest)
        decreases rest
      {
        var k :| k in rest;
        var f := PacketMeta(k.iface, k.srcIp, k.dstIp, table[k]);
        var line := PrintLine(f);
        EntryFits(f, flows, table, rest);
        if 0 < |line| < 256 {
          text := text + line;
        }
        assert (flows + [f])[..|flows|] == flows;
        OneListed(flows, table, rest, k);
        flows := flows + [f];
        rest := rest - {k};
      }
      AllListed(flows, table);
    }
  }

  /** flows lists the entries that are not in rest. */
  ghost predicate ListsUpTo(flows: seq<PacketMeta>, table: map<AggFlowKey, nat>, rest: set<AggFlowKey>) {
    && (forall k | k in table :: table[k] < U64)
    && (forall i | 0 <= i < |flows| ::
          KeyOf(flows[i]) in table && KeyOf(flows[i]) !in rest && flows[i].bytes == table[KeyOf(flows[i])])
    && (forall i, j | 0 <= i < j < |flows| :: KeyOf(flows[i]) != KeyOf(flows[j]))
    && (forall k | k in table && k !in rest :: Observed(flows, k))
  }

  lemma NothingObserved()
    ensures TableOf(map[], [])
  {
  }

  lemma NothingListed(table: map<AggFlowKey, nat>)
    requires forall k | k in table :: table[k] < U64
    ensures ListsUpTo([], table, table.Keys)
  {
  }

  lemma EntryFits(f: PacketMeta, flows: seq<PacketMeta>, table: map<AggFlowKey, nat>, rest: set<AggFlowKey>)
    requires ListsUpTo(flows, table, rest) && KeyOf(f) in table && f.bytes == table[KeyOf(f)]
    ensures 0 < |PrintLine(f)| < 256
  {
    PrintedFits(f);
  }

  lemma OneListed(flows: seq<PacketMeta>, table: map<AggFlowKey, nat>, rest: set<AggFlowKey>, k: AggFlowKey)
    requires ListsUpTo(flows, table, rest) && k in rest && k in table
    ensures ListsUpTo(flows + [PacketMeta(k.iface, k.srcIp, k.dstIp, table[k])], table, rest - {k})
  {
    var f := PacketMeta(k.iface, k.srcIp, k.dstIp, table[k]);
    forall x ensures Observed(flows + [f], x) <==> Observed(flows, x) || k == x {
      ObservedStep(flows, f, x);
    }
    hide Observed;
  }

  lemma AllListed(flows: seq<PacketMeta>, table: map<AggFlowKey, nat>)
    requires ListsUpTo(flows, table, {})
    ensures Lists(flows, table)
  {
  }

  function Printed(flows: seq<PacketMeta>): string {
    if flows == [] then "" else Printed(flows[..|flows| - 1]) + PrintLine(flows[|flows| - 1])
  }

  // ----- conservation -----------------------------------------------------------------

  /** Observed bytes of the listed flows that are wanted. */
  function ListedBytes(flows: seq<PacketMeta>, observed: seq<PacketMeta>, want: AggFlowKey -> bool): nat {
    if flows == [] then 0 else
      ListedBytes(flows[..|flows| - 1], observed, want)
      + if want(KeyOf(flows[|flows| - 1])) then BytesOf(observed, KeyOf(flows[|flows| - 1])) else 0
  }

  lemma {:induction false} ListedStep(flows: seq<PacketMeta>, rest: seq<PacketMeta>, m: PacketMeta,
                                     want: AggFlowKey -> bool)
    requires forall i, j | 0 <= i < j < |flows| :: KeyOf(flows[i]) != KeyOf(flows[j])
    ensures ListedBytes(flows, rest + [m], want)
         == ListedBytes(flows, rest, want) + if Observed(flows, KeyOf(m)) && want(KeyOf(m)) then m.bytes else 0
  {
    assert (rest + [m])[..|rest|] == rest;
    if flows == [] {
    } else {
      var init, f := flows[..|flows| - 1], flows[|flows| - 1];
      ListedStep(init, rest, m, want);
      assert flows == init + [f];
      ObservedStep(init, f, KeyOf(m));
    }
  }

  lemma {:induction false} ListedNothing(flows: seq<PacketMeta>, want: AggFlowKey -> bool)
    ensures ListedBytes(flows, [], want) == 0
  {
    if flows == [] {
    } else {
      ListedNothing(flows[..|flows| - 1], want);
    }
  }

  lemma {:induction false} ListedIsAll(flows: seq<PacketMeta>, observed: seq<PacketMeta>, want: AggFlowKey -> bool)
    requires forall i, j | 0 <= i < j < |flows| :: KeyOf(flows[i]) != KeyOf(flows[j])
    requires forall k | Observed(observed, k) :: Observed(flows, k)
    ensures ListedBytes(flows, observed, want) == Volume(observed, want)
  {
    if observed == [] {
      ListedNothing(flows, want);
    } else {
      var rest, m := observed[..|observed| - 1], observed[|observed| - 1];
      assert observed == rest + [m];
      forall k ensures Observed(observed, k) <==> Observed(rest, k) || KeyOf(m) == k {
        ObservedStep(rest, m, k);
      }
      ListedIsAll(flows, rest, want);
      ListedStep(flows, rest, m, want);
    }
  }

  lemma {:induction false} ListedIsPrinted(flows: seq<PacketMeta>, observed: seq<PacketMeta>, want: AggFlowKey -> bool)
    requires forall i | 0 <= i < |flows| :: flows[i].bytes == BytesOf(observed, KeyOf(flows[i]))
    ensures ListedBytes(flows, observed, want) == Volume(flows, want)
  {
    if flows == [] {
    } else {
      ListedIsPrinted(flows[..|flows| - 1], observed, want);
    }
  }

  /** The drained flows carry exactly the bytes observed, flow by flow or on any of them together,
      as long as no single flow passed 2^64 bytes between two drains. */
  lemma DrainConserves(flows: seq<PacketMeta>, table: map<AggFlowKey, nat>, observed: seq<PacketMeta>,
                       want: AggFlowKey -> bool)
    requires TableOf(table, observed) && Lists(flows, table)
    requires forall k | k in table :: BytesOf(observed, k) < U64
    ensures Volume(flows, want) == Volume(observed, want)
  {
    hide Observed, Wrap;
    forall i | 0 <= i < |flows| ensures flows[i].bytes == BytesOf(observed, KeyOf(flows[i])) {
      WrapAdd(BytesOf(observed, KeyOf(flows[i])), 0);
    }
    hide TableOf, BytesOf, Volume, ListedBytes;
    SameKeys(flows, table, observed);
    ListedIsAll(flows, observed, want);
    ListedIsPrinted(flows, observed, want);
  }

  lemma SameKeys(flows: seq<PacketMeta>, table: map<AggFlowKey, nat>, observed: seq<PacketMeta>)
    requires TableOf(table, observed) && Lists(flows, table)
    ensures forall k | Observed(observed, k) :: Observed(flows, k)
  {
    hide Observed;
  }
}

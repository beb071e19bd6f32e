/** A whole connection together with the store: the store's totals, and with them what a
    snapshot reports, grow by exactly the bytes that the client observed. */
module Delivery {
  import opened Common
  import opened PacketLog
  import opened CounterSums
  import opened DayBuckets
  import opened Snapshot
  import opened TrafficStats
  import DataLine
  import EndToEnd
  import FlowTableClient
  import Ingest
  import WsFraming

  // ----- what a log's extension adds to the window ---------------------------------------------

  /** All of a key's traffic, or that of one pair. */
  datatype Part = Whole | Pair(kind: Kind, pair: FlowKey)

  function Ask(key: string, part: Part, day: int): Query {
    match part
    case Whole => DayTotal(key, day)
    case Pair(kind, pair) => DaySplit(kind, key, day, pair)
  }

  function Hit(e: Event, key: string, part: Part): Counter {
    if e.Accepted? && CiKey(e.packet.client, e.packet.iface) == key
       && (part.Pair? ==> PairOf(part.kind, e.packet) == part.pair)
    then Counter(1, e.packet.length) else ZERO
  }

  /** The accepted traffic of a part of one key among these events. */
  function Traffic(es: Log, key: string, part: Part): Counter {
    if es == [] then ZERO else Traffic(es[..|es| - 1], key, part).Plus(Hit(es[|es| - 1], key, part))
  }

  /** A part's traffic on some days. */
  function Over(h: Log, days: seq<int>, key: string, part: Part): Counter {
    if days == [] then ZERO
    else Over(h, days[..|days| - 1], key, part).Plus(Tally(h, Ask(key, part, days[|days| - 1])))
  }

  lemma {:induction false} OverIs(h: Log, days: seq<int>, key: string, part: Part)
    ensures Over(h, days, key, part)
         == match part case Whole => OnDays(h, days, key) case Pair(kind, pair) => PairOnDays(h, kind, days, key, pair)
  {
    hide Tally, Counter.Plus;
    if days == [] {
    } else {
      OverIs(h, days[..|days| - 1], key, part);
    }
  }

  /** A part's traffic in the window. */
  function Window(h: Log, key: string, part: Part, hash: string -> nat, cfg: Config): Counter {
    match part
    case Whole => WindowTotal(h, key, hash, cfg)
    case Pair(kind, pair) => WindowPair(h, kind, key, pair, hash, cfg)
  }

  /** How many of a shard's active days are no longer retained. */
  function ClosedDays(h: Log, hash: string -> nat, si: nat, cfg: Config): nat {
    var days := |ActiveDays(h, hash, si)|;
    if days <= cfg.windowDays then 0 else days - cfg.windowDays
  }

  /** Whatever happened to the client from h to g was the counting of packets. */
  ghost predicate Untroubled(h: Log, g: Log, client: string) {
    h <= g && forall i | |h| <= i < |g| && EventClient(g[i]) == client :: g[i].Accepted?
  }

  lemma TallyHit(h: Log, e: Event, key: string, part: Part, day: int)
    requires !Resets(e, ClientOf(key))
    ensures Tally(h + [e], Ask(key, part, day))
         == Tally(h, Ask(key, part, day))
            .Plus(if e.Accepted? && DayIndex(e.sec) == day then Hit(e, key, part) else ZERO)
  {
    Append(h, e);
  }

  lemma ZeroPlus(c: Counter)
    ensures c.Plus(ZERO) == c
  {
  }

  /** Days that are all different count an event once, if it is on one of them. */
  lemma {:induction false} OverHit(h: Log, e: Event, days: seq<int>, key: string, part: Part)
    requires !Resets(e, ClientOf(key)) && StrictlyIncreasing(days)
    ensures Over(h + [e], days, key, part)
         == Over(h, days, key, part).Plus(if e.Accepted? && DayIndex(e.sec) in days then Hit(e, key, part) else ZERO)
  {
    hide Tally, Hit, Counter.Plus;
    if days == [] {
      ZeroPlus(ZERO);
    } else {
      var n := |days| - 1;
      OverHit(h, e, days[..n], key, part);
      TallyHit(h, e, key, part, days[n]);
      ZeroPlus(Over(h, days[..n], key, part));
      ZeroPlus(Tally(h, Ask(key, part, days[n])));
      PlusAcross(Over(h, days[..n], key, part), Tally(h, Ask(key, part, days[n])), Hit(e, key, part));
      ZeroPlus(Over(h, days, key, part));
    }
  }

  lemma PlusAcross(a: Counter, b: Counter, c: Counter)
    ensures a.Plus(c).Plus(b) == a.Plus(b).Plus(c) == a.Plus(b.Plus(c))
  {
  }

  /** A day opened by this event has had no traffic. */
  lemma NewDayQuiet(h: Log, e: Event, hash: string -> nat, key: string, part: Part)
    requires WellFormed(h + [e]) && e.Accepted?
    requires ActiveDays(h + [e], hash, ShardOf(hash, ClientOf(key)))
          == ActiveDays(h, hash, ShardOf(hash, ClientOf(key))) + [DayIndex(e.sec)]
    ensures Tally(h, Ask(key, part, DayIndex(e.sec))) == ZERO
  {
    var (si, day) := (ShardOf(hash, ClientOf(key)), DayIndex(e.sec));
    assert (h + [e])[..|h|] == h;
    WellFormedPrefix(h + [e], |h|);
    ActiveDaysOrdered(h, hash, si);
    ActiveDaysOrdered(h + [e], hash, si);
    var days := ActiveDays(h, hash, si);
    forall i | 0 <= i < |days| ensures days[i] != day {
      assert (days + [day])[i] < (days + [day])[|days|];
    }
    hide ActiveDays;
    if Tally(h, DayTotal(key, day)).packets > 0 {
      CountedDayActive(h, hash, key, day);
    }
    match part {
      case Whole => SplitWithinTotal(h, Flow, key, day, FlowKey("", ""));
      case Pair(kind, pair) => SplitWithinTotal(h, kind, key, day, pair);
    }
  }

  /** What counts for a key is an event of the key's shard. */
  lemma HitHere(h: Log, e: Event, key: string, part: Part, hash: string -> nat)
    requires WellFormed(h + [e])
    ensures Hit(e, key, part) != ZERO ==> e.Accepted? && ShardOf(hash, e.packet.client) == ShardOf(hash, ClientOf(key))
  {
    assert (h + [e])[|h|] == e;
    if Hit(e, key, part) != ZERO {
      ClientOfKey(e.packet.client, e.packet.iface);
    }
  }

  lemma DaysAfter(h: Log, e: Event, hash: string -> nat, si: nat)
    ensures var (before, after) := (ActiveDays(h, hash, si), ActiveDays(h + [e], hash, si));
            && (after == before || (e.Accepted? && after == before + [DayIndex(e.sec)]))
            && (e.Accepted? && ShardOf(hash, e.packet.client) == si ==>
                  after != [] && after[|after| - 1] == DayIndex(e.sec))
  {
    assert (h + [e])[..|h|] == h;
  }

  lemma EndIncreases(days: seq<int>, c: nat)
    requires StrictlyIncreasing(days) && c <= |days|
    ensures StrictlyIncreasing(days[c..])
  {
  }

  lemma OverQuiet(h: Log, days: seq<int>, day: int, key: string, part: Part)
    requires Tally(h, Ask(key, part, day)) == ZERO
    ensures Over(h, days + [day], key, part) == Over(h, days, key, part)
  {
    hide Tally, Counter.Plus;
    assert (days + [day])[..|days|] == days;
    ZeroPlus(Over(h, days, key, part));
  }

  /** Every event that counts for a key is on the shard's latest day. */
  lemma HitOnLast(h: Log, e: Event, key: string, part: Part, hash: string -> nat, c: nat)
    requires WellFormed(h + [e])
    requires var days := ActiveDays(h, hash, ShardOf(hash, ClientOf(key))); c <= |days| && (days != [] ==> c < |days|)
    ensures var days := ActiveDays(h + [e], hash, ShardOf(hash, ClientOf(key)));
            && c <= |days| && (days != [] ==> c < |days|)
            && (Hit(e, key, part) != ZERO ==> e.Accepted? && DayIndex(e.sec) in days[c..])
  {
    var days := ActiveDays(h + [e], hash, ShardOf(hash, ClientOf(key)));
    DaysAfter(h, e, hash, ShardOf(hash, ClientOf(key)));
    HitHere(h, e, key, part, hash);
    hide ActiveDays, Hit;
    if Hit(e, key, part) != ZERO {
      assert days[c..][|days| - c - 1] == DayIndex(e.sec);
    }
  }

  /** One event adds to a key's total from the c-th active day on what it counts for the key. */
  lemma SinceStep(h: Log, e: Event, key: string, part: Part, hash: string -> nat, c: nat)
    requires WellFormed(h + [e]) && !Resets(e, ClientOf(key))
    requires var days := ActiveDays(h, hash, ShardOf(hash, ClientOf(key))); c <= |days| && (days != [] ==> c < |days|)
    ensures var si := ShardOf(hash, ClientOf(key));
            var (before, after) := (ActiveDays(h, hash, si), ActiveDays(h + [e], hash, si));
            && c <= |after| && (after != [] ==> c < |after|)
            && Over(h + [e], after[c..], key, part) == Over(h, before[c..], key, part).Plus(Hit(e, key, part))
  {
    hide ActiveDays, Hit, Counter.Plus, Over, Tally, WellFormed;
    var si := ShardOf(hash, ClientOf(key));
    var (before, after) := (ActiveDays(h, hash, si), ActiveDays(h + [e], hash, si));
    DaysAfter(h, e, hash, si);
    ActiveDaysOrdered(h + [e], hash, si);
    HitOnLast(h, e, key, part, hash, c);
    EndIncreases(after, c);
    OverHit(h, e, after[c..], key, part);
    if after != before {
      NewDayQuiet(h, e, hash, key, part);
      assert after[c..] == before[c..] + [DayIndex(e.sec)];
      OverQuiet(h, before[c..], DayIndex(e.sec), key, part);
    }
  }

  lemma {:induction false} SinceGrows(h: Log, g: Log, key: string, part: Part, hash: string -> nat, c: nat)
    requires Untroubled(h, g, ClientOf(key)) && WellFormed(g)
    requires var days := ActiveDays(h, hash, ShardOf(hash, ClientOf(key))); c <= |days| && (days != [] ==> c < |days|)
    ensures var si := ShardOf(hash, ClientOf(key));
            var (before, after) := (ActiveDays(h, hash, si), ActiveDays(g, hash, si));
            && c <= |after| && (after != [] ==> c < |after|)
            && Over(g, after[c..], key, part) == Over(h, before[c..], key, part).Plus(Traffic(g[|h|..], key, part))
    decreases |g|
  {
    hide ActiveDays, Hit, Counter.Plus, Over;
    var si := ShardOf(hash, ClientOf(key));
    if h == g {
      ZeroPlus(Over(h, ActiveDays(h, hash, si)[c..], key, part));
    } else {
      var n := |g| - 1;
      var (init, e) := (g[..n], g[n]);
      assert g == init + [e];
      assert h <= init by { assert |h| <= n; assert g[..|h|] == init[..|h|]; }
      assert forall i | |h| <= i < n :: init[i] == g[i];
      WellFormedPrefix(g, n);
      SinceGrows(h, init, key, part, hash, c);
      SinceStep(init, e, key, part, hash, c);
      assert g[|h|..][..n - |h|] == init[|h|..] && g[|h|..][n - |h|] == e;
      PlusAcross(Over(h, ActiveDays(h, hash, si)[c..], key, part), Traffic(init[|h|..], key, part), Hit(e, key, part));
    }
  }

  lemma {:induction false} OverSplit(h: Log, days: seq<int>, k: nat, key: string, part: Part)
    requires k <= |days|
    ensures Over(h, days, key, part) == Over(h, days[..k], key, part).Plus(Over(h, days[k..], key, part))
    decreases |days|
  {
    hide Tally, Counter.Plus;
    if k == |days| {
      assert days[..k] == days && days[k..] == [];
      ZeroPlus(Over(h, days, key, part));
    } else {
      var n := |days| - 1;
      OverSplit(h, days[..n], k, key, part);
      assert days[..n][..k] == days[..k] && days[..n][k..] == days[k..][..n - k] && days[k..][n - k] == days[n];
      PlusAcross(Over(h, days[..k], key, part), Over(h, days[..n][k..], key, part), Tally(h, Ask(key, part, days[n])));
    }
  }

  lemma ClosedGrows(h: Log, e: Event, hash: string -> nat, si: nat, cfg: Config)
    ensures ClosedDays(h, hash, si, cfg) <= ClosedDays(h + [e], hash, si, cfg)
  {
    assert (h + [e])[..|h|] == h;
  }

  lemma {:induction false} ClosedGrowsTo(h: Log, g: Log, hash: string -> nat, si: nat, cfg: Config)
    requires h <= g
    ensures ClosedDays(h, hash, si, cfg) <= ClosedDays(g, hash, si, cfg)
    decreases |g|
  {
    if h == g {
    } else {
      var n := |g| - 1;
      ClosedGrowsTo(h, g[..n], hash, si, cfg);
      assert g == g[..n] + [g[n]];
      ClosedGrows(g[..n], g[n], hash, si, cfg);
    }
  }

  /** The days that left the window of a shard from h to g. */
  function DaysLeft(h: Log, g: Log, hash: string -> nat, si: nat, cfg: Config): seq<int> {
    var (days, from, to) := (ActiveDays(g, hash, si), ClosedDays(h, hash, si, cfg), ClosedDays(g, hash, si, cfg));
    if from <= to then days[from..to] else []
  }

  /** A key's traffic, as of g, on the days that have left. */
  function TrafficLeft(h: Log, g: Log, key: string, part: Part, hash: string -> nat, cfg: Config): Counter {
    Over(g, DaysLeft(h, g, hash, ShardOf(hash, ClientOf(key)), cfg), key, part)
  }

  lemma ClosedAndKept(h: Log, key: string, part: Part, hash: string -> nat, cfg: Config)
    ensures var si := ShardOf(hash, ClientOf(key));
            var (days, c) := (ActiveDays(h, hash, si), ClosedDays(h, hash, si, cfg));
            && c <= |days| && (days != [] && cfg.windowDays > 0 ==> c < |days|)
            && Over(h, days[c..], key, part) == Window(h, key, part, hash, cfg)
  {
    hide ActiveDays, Over, OnDays, PairOnDays;
    var days := ActiveDays(h, hash, ShardOf(hash, ClientOf(key)));
    OverIs(h, Last(days, cfg.windowDays), key, part);
  }

  /** Over any extension of the log that does not trouble the client, what the window holds of a key,
      or of one of its pairs, grows by exactly the accepted traffic, less that on the days that
      have left. */
  lemma WindowGrows(h: Log, g: Log, key: string, part: Part, hash: string -> nat, cfg: Config)
    requires Untroubled(h, g, ClientOf(key)) && WellFormed(g) && cfg.windowDays > 0
    ensures Window(g, key, part, hash, cfg).Plus(TrafficLeft(h, g, key, part, hash, cfg))
         == Window(h, key, part, hash, cfg).Plus(Traffic(g[|h|..], key, part))
  {
    hide ActiveDays, Hit, Counter.Plus, Over, Traffic, Window;
    var si := ShardOf(hash, ClientOf(key));
    var (from, to) := (ClosedDays(h, hash, si, cfg), ClosedDays(g, hash, si, cfg));
    var days := ActiveDays(g, hash, si);
    ClosedGrowsTo(h, g, hash, si, cfg);
    ClosedAndKept(h, key, part, hash, cfg);
    ClosedAndKept(g, key, part, hash, cfg);
    hide ClosedDays;
    SinceGrows(h, g, key, part, hash, from);
    OverSplit(g, days[from..], to - from, key, part);
    assert days[from..][..to - from] == days[from..to] && days[from..][to - from..] == days[to..];
    PlusOrder(Over(g, days[from..to], key, part), Window(g, key, part, hash, cfg));
  }

  lemma PlusOrder(a: Counter, b: Counter)
    ensures a.Plus(b) == b.Plus(a)
  {
  }

  // ----- handing flows to the store ----------------------------------------------------------------

  /** What the store has accepted of one client, in order. */
  function AcceptedOf(es: Log, client: string): seq<Event> {
    if es == [] then [] else
      var e := es[|es| - 1];
      AcceptedOf(es[..|es| - 1], client) + if e.Accepted? && e.packet.client == client then [e] else []
  }

  lemma {:induction false} OthersAcceptNone(es: Log, fs: Log, client: string)
    requires forall i | 0 <= i < |fs| :: EventClient(fs[i]) != client
    ensures AcceptedOf(es + fs, client) == AcceptedOf(es, client)
    decreases |fs|
  {
    if fs == [] {
      assert es + fs == es;
    } else {
      var n := |fs| - 1;
      OthersAcceptNone(es, fs[..n], client);
      assert (es + fs)[..|es + fs| - 1] == es + fs[..n] && (es + fs)[|es + fs| - 1] == fs[n];
    }
  }

  /** Other threads count and purge other clients. */
  method OtherClients(store: Store, client: string)
    requires store.Valid()
    modifies store
    ensures store.Valid() && old(store.log) <= store.log && old(store.now) <= store.now
    ensures forall i | |old(store.log)| <= i < |store.log| :: EventClient(store.log[i]) != client
  {
    hide Store.Valid, Logged;
    var steps: nat :| 0 <= steps;
    for i := 0 to steps
      invariant store.Valid() && old(store.log) <= store.log && old(store.now) <= store.now
      invariant forall j | |old(store.log)| <= j < |store.log| :: EventClient(store.log[j]) != client
    {
      var p: Packet := *;
      var sec: int := *;
      var purge: bool := *;
      if NoBar(p.client) && p.client != client {
        ghost var h := store.log;
        if purge {
          var found := store.PurgeClient(p.client);
        } else if p.length < U32 && store.now <= sec {
          var r := store.AddPacket(p, sec);
          LoggedOf(h, p, sec, store.isLanIP(p.dst) && !store.isLanIP(p.src), store.cfg);
        }
      }
    }
  }

  /** A packet logs events of its own client only, and counts once, unless it is rejected. */
  lemma LoggedOf(h: Log, p: Packet, sec: int, inbound: bool, cfg: Config)
    ensures var g := Logged(h, p, sec, inbound, cfg);
            && h <= g && |g| > |h| && (forall i | |h| <= i < |g| :: EventClient(g[i]) == p.client)
            && (Untroubled(h, g, p.client) ==> g == h + [Accepted(p, sec, inbound)])
  {
    hide AtIfaceCap, Overflows;
    var g := Logged(h, p, sec, inbound, cfg);
    assert !g[|h|].Accepted? ==> !Untroubled(h, g, p.client);
  }

  /** The country and the entity of an address, as looked up in a given second. */
  datatype Lookup = Lookup(country: (int, string) -> string, entity: (int, string) -> string)

  function PacketOf(client: string, m: DataLine.PacketMeta, sec: int, look: Lookup): Packet {
    Packet(client, m.iface, m.srcIp, m.dstIp, look.country(sec, m.srcIp), look.country(sec, m.dstIp),
           look.entity(sec, m.srcIp), look.entity(sec, m.dstIp), m.bytes)
  }

  /** The event counts this flow, in its direction, under its countries and entities. */
  predicate Counts(e: Event, client: string, m: DataLine.PacketMeta, isLanIP: string -> bool, look: Lookup) {
    && e.Accepted? && e.packet.client == client && e.packet.iface == m.iface
    && e.packet.src == m.srcIp && e.packet.dst == m.dstIp && e.packet.length == m.bytes
    && e.packet.srcCountry == look.country(e.sec, m.srcIp) && e.packet.dstCountry == look.country(e.sec, m.dstIp)
    && e.packet.srcEntity == look.entity(e.sec, m.srcIp) && e.packet.dstEntity == look.entity(e.sec, m.dstIp)
    && (e.inbound <==> isLanIP(m.dstIp) && !isLanIP(m.srcIp))
  }

  predicate AreFlows(es: seq<Event>, client: string, flows: seq<DataLine.PacketMeta>, isLanIP: string -> bool,
                     look: Lookup) {
    |es| == |flows| && forall i | 0 <= i < |es| :: Counts(es[i], client, flows[i], isLanIP, look)
  }

  /** What the store has accepted of the client since h are these flows, in order. */
  ghost predicate Arrived(h: Log, g: Log, client: string, flows: seq<DataLine.PacketMeta>, isLanIP: string -> bool,
                          look: Lookup) {
    h <= g && AreFlows(AcceptedOf(g[|h|..], client), client, flows, isLanIP, look)
  }

  lemma UntroubledPart(h: Log, g: Log, k: Log, client: string)
    requires h <= g <= k && Untroubled(h, k, client)
    ensures Untroubled(h, g, client) && Untroubled(g, k, client)
  {
    assert forall i | |h| <= i < |g| :: g[i] == k[i];
  }

  lemma ArrivedOthers(h: Log, g: Log, k: Log, client: string, flows: seq<DataLine.PacketMeta>,
                      isLanIP: string -> bool, look: Lookup)
    requires Arrived(h, g, client, flows, isLanIP, look) && g <= k
    requires forall i | |g| <= i < |k| :: EventClient(k[i]) != client
    ensures Arrived(h, k, client, flows, isLanIP, look)
  {
    hide AreFlows;
    assert k[|h|..] == g[|h|..] + k[|g|..];
    OthersAcceptNone(g[|h|..], k[|g|..], client);
  }

  lemma ArrivedOne(h: Log, g: Log, client: string, flows: seq<DataLine.PacketMeta>, m: DataLine.PacketMeta, e: Event,
                   isLanIP: string -> bool, look: Lookup)
    requires Arrived(h, g, client, flows, isLanIP, look) && Counts(e, client, m, isLanIP, look)
    ensures Arrived(h, g + [e], client, flows + [m], isLanIP, look)
  {
    assert (g + [e])[|h|..] == g[|h|..] + [e];
    assert (g[|h|..] + [e])[..|g[|h|..]|] == g[|h|..];
    hide Counts;
  }

  /** Gives the store each flow, while other threads work on other clients. */
  method Deliver(store: Store, client: string, flows: seq<DataLine.PacketMeta>, look: Lookup)
    requires store.Valid() && NoBar(client) && forall i | 0 <= i < |flows| :: flows[i].bytes < U32
    modifies store
    ensures store.Valid() && old(store.log) <= store.log
    ensures Untroubled(old(store.log), store.log, client) ==>
              Arrived(old(store.log), store.log, client, flows, store.isLanIP, look)
  {
    hide Store.Valid, Logged, Arrived, Untroubled;
    ghost var h := store.log;
    NothingArrived(h, client, store.isLanIP, look);
    for i := 0 to |flows|
      invariant store.Valid() && h <= store.log
      invariant Untroubled(h, store.log, client) ==> Arrived(h, store.log, client, flows[..i], store.isLanIP, look)
    {
      ghost var g := store.log;
      OtherClients(store, client);
      ghost var k := store.log;
      var sec: int := *;
      if sec < store.now {
        sec := store.now;
      }
      var p := PacketOf(client, flows[i], sec, look);
      var r := store.AddPacket(p, sec);
      ghost var inbound := store.isLanIP(p.dst) && !store.isLanIP(p.src);
      LoggedOf(k, p, sec, inbound, store.cfg);
      assert flows[..i + 1] == flows[..i] + [flows[i]];
      if Untroubled(h, store.log, client) {
        UntroubledPart(h, g, store.log, client);
        UntroubledPart(g, k, store.log, client);
        ArrivedOthers(h, g, k, client, flows[..i], store.isLanIP, look);
        ArrivedOne(h, k, client, flows[..i], flows[i], Accepted(p, sec, inbound), store.isLanIP, look);
      }
    }
    assert flows[..|flows|] == flows;
  }

  lemma NothingArrived(h: Log, client: string, isLanIP: string -> bool, look: Lookup)
    ensures Arrived(h, h, client, [], isLanIP, look)
  {
  }

  lemma ValidLog(store: Store)
    requires store.Valid()
    ensures WellFormed(store.log) && store.cfg.windowDays > 0
  {
    hide AllShards;
  }

  // ----- from the wire to a report ------------------------------------------------------------------

  lemma {:induction false} PassedAreSmall(seen: seq<Ingest.Arrival>, max: nat, lines: seq<string>, maxIface: nat,
                                          maxIp: nat)
    requires Ingest.MetasOf(seen) == Ingest.Metas(lines, maxIface, maxIp)
    ensures forall i | 0 <= i < |Ingest.Passed(seen, max)| :: Ingest.Passed(seen, max)[i].bytes < U32
  {
    MetasAreSmall(lines, maxIface, maxIp);
    forall i | 0 <= i < |seen| ensures seen[i].meta.bytes < U32 {
      assert seen[i].meta == Ingest.MetasOf(seen)[i];
    }
    PassedFrom(seen, max);
  }

  lemma {:induction false} MetasAreSmall(lines: seq<string>, maxIface: nat, maxIp: nat)
    ensures forall i | 0 <= i < |Ingest.Metas(lines, maxIface, maxIp)| ::
            Ingest.Metas(lines, maxIface, maxIp)[i].bytes < U32
  {
    if lines == [] {
    } else {
      MetasAreSmall(lines[1..], maxIface, maxIp);
    }
  }

  lemma {:induction false} PassedFrom(seen: seq<Ingest.Arrival>, max: nat)
    requires forall i | 0 <= i < |seen| :: seen[i].meta.bytes < U32
    ensures forall i | 0 <= i < |Ingest.Passed(seen, max)| :: Ingest.Passed(seen, max)[i].bytes < U32
  {
    hide Ingest.GateAfter;
    if seen == [] {
    } else {
      PassedFrom(seen[..|seen| - 1], max);
    }
  }

  /** What the window has gained of a key or a pair from h to g, its traffic on the days that left
      included. */
  function Gained(h: Log, g: Log, key: string, part: Part, hash: string -> nat, cfg: Config): int {
    Window(g, key, part, hash, cfg).bytes + TrafficLeft(h, g, key, part, hash, cfg).bytes
    - Window(h, key, part, hash, cfg).bytes
  }

  /** The flows that belong to a part of an interface's traffic. */
  function Wanted(iface: string, part: Part): FlowTableClient.AggFlowKey -> bool
    requires part.Pair? ==> part.kind.Flow?
  {
    match part
    case Whole => FlowTableClient.OnIface(iface)
    case Pair(_, pair) => FlowTableClient.OneFlow(FlowTableClient.AggFlowKey(iface, pair.src, pair.dst))
  }

  lemma HitIsFlow(e: Event, client: string, m: DataLine.PacketMeta, isLanIP: string -> bool, look: Lookup,
                  iface: string, part: Part)
    requires Counts(e, client, m, isLanIP, look) && NoBar(client) && (part.Pair? ==> part.kind.Flow?)
    ensures Hit(e, CiKey(client, iface), part).bytes
         == if Wanted(iface, part)(FlowTableClient.KeyOf(m)) then m.bytes else 0
  {
    KeyInjective(client, m.iface, client, iface);
  }

  lemma HitOther(e: Event, client: string, iface: string, part: Part)
    requires NoBar(client) && NoBar(EventClient(e)) && !(e.Accepted? && e.packet.client == client)
    ensures Hit(e, CiKey(client, iface), part) == ZERO
  {
    if e.Accepted? {
      KeyInjective(e.packet.client, e.packet.iface, client, iface);
    }
  }

  /** The traffic of events that count these flows is that of the flows. */
  lemma {:induction false} TrafficOfFlows(es: Log, client: string, flows: seq<DataLine.PacketMeta>,
                                          isLanIP: string -> bool, look: Lookup,
                                          iface: string, part: Part)
    requires AreFlows(AcceptedOf(es, client), client, flows, isLanIP, look)
    requires NoBar(client) && (part.Pair? ==> part.kind.Flow?)
    requires forall i | 0 <= i < |es| :: NoBar(EventClient(es[i]))
    ensures Traffic(es, CiKey(client, iface), part).bytes == FlowTableClient.Volume(flows, Wanted(iface, part))
  {
    hide Hit, Wanted, Counts, CiKey;
    if es == [] {
    } else {
      var (init, e) := (es[..|es| - 1], es[|es| - 1]);
      if e.Accepted? && e.packet.client == client {
        var n := |flows| - 1;
        assert AcceptedOf(es, client) == AcceptedOf(init, client) + [e];
        assert AcceptedOf(es, client)[n] == e;
        assert forall i | 0 <= i < n :: AcceptedOf(init, client)[i] == AcceptedOf(es, client)[i];
        TrafficOfFlows(init, client, flows[..n], isLanIP, look, iface, part);
        HitIsFlow(e, client, flows[n], isLanIP, look, iface, part);
      } else {
        assert AcceptedOf(es, client) == AcceptedOf(init, client);
        TrafficOfFlows(init, client, flows, isLanIP, look, iface, part);
        HitOther(e, client, iface, part);
      }
    }
  }

  lemma GainedArrived(h: Log, g: Log, client: string, flows: seq<DataLine.PacketMeta>, isLanIP: string -> bool,
                      look: Lookup, iface: string, part: Part, hash: string -> nat, cfg: Config)
    requires Untroubled(h, g, client) && Arrived(h, g, client, flows, isLanIP, look)
    requires WellFormed(g) && cfg.windowDays > 0
    requires NoBar(client) && (part.Pair? ==> part.kind.Flow?)
    ensures Gained(h, g, CiKey(client, iface), part, hash, cfg) == FlowTableClient.Volume(flows, Wanted(iface, part))
  {
    hide Window, TrafficLeft, AreFlows, Wanted, Untroubled;
    ClientOfKey(client, iface);
    WindowGrows(h, g, CiKey(client, iface), part, hash, cfg);
    TrafficOfFlows(g[|h|..], client, flows, isLanIP, look, iface, part);
  }

  /** Every interface and every flow on it has gained what was observed of it. */
  ghost predicate AllGained(h: Log, g: Log, client: string, observed: seq<DataLine.PacketMeta>, hash: string -> nat,
                            cfg: Config) {
    && (forall iface ::
          Gained(h, g, CiKey(client, iface), Whole, hash, cfg)
          == FlowTableClient.Volume(observed, FlowTableClient.OnIface(iface)))
    && (forall flow: FlowTableClient.AggFlowKey ::
          Gained(h, g, CiKey(client, flow.iface), Pair(Flow, FlowKey(flow.srcIp, flow.dstIp)), hash, cfg)
          == FlowTableClient.BytesOf(observed, flow))
  }

  /** None has gained more. */
  ghost predicate NoneGainedMore(h: Log, g: Log, client: string, observed: seq<DataLine.PacketMeta>,
                                 hash: string -> nat, cfg: Config) {
    && (forall iface ::
          Gained(h, g, CiKey(client, iface), Whole, hash, cfg)
          <= FlowTableClient.Volume(observed, FlowTableClient.OnIface(iface)))
    && (forall flow: FlowTableClient.AggFlowKey ::
          Gained(h, g, CiKey(client, flow.iface), Pair(Flow, FlowKey(flow.srcIp, flow.dstIp)), hash, cfg)
          <= FlowTableClient.BytesOf(observed, flow))
  }

  lemma GainedFlow(h: Log, g: Log, client: string, added: seq<DataLine.PacketMeta>, isLanIP: string -> bool,
                   look: Lookup, observed: seq<DataLine.PacketMeta>, flow: FlowTableClient.AggFlowKey,
                   hash: string -> nat, cfg: Config)
    requires Untroubled(h, g, client) && Arrived(h, g, client, added, isLanIP, look)
    requires WellFormed(g) && cfg.windowDays > 0
    requires NoBar(client)
    ensures var want := FlowTableClient.OneFlow(flow);
            && Gained(h, g, CiKey(client, flow.iface), Pair(Flow, FlowKey(flow.srcIp, flow.dstIp)), hash, cfg)
               == FlowTableClient.Volume(added, want)
            && FlowTableClient.BytesOf(observed, flow) == FlowTableClient.Volume(observed, want)
  {
    hide Gained, Arrived, Untroubled, WellFormed;
    GainedArrived(h, g, client, added, isLanIP, look, flow.iface, Pair(Flow, FlowKey(flow.srcIp, flow.dstIp)), hash,
                  cfg);
    FlowTableClient.BytesOfOneFlow(observed, flow);
  }

  lemma ConnectionGains(h: Log, g: Log, client: string, added: seq<DataLine.PacketMeta>, isLanIP: string -> bool,
                        look: Lookup, observed: seq<DataLine.PacketMeta>, all: bool, hash: string -> nat, cfg: Config)
    requires Untroubled(h, g, client) && Arrived(h, g, client, added, isLanIP, look)
    requires WellFormed(g) && cfg.windowDays > 0
    requires NoBar(client)
    requires forall want: FlowTableClient.AggFlowKey -> bool ::
               FlowTableClient.Volume(added, want) <= FlowTableClient.Volume(observed, want)
    requires all ==> forall want: FlowTableClient.AggFlowKey -> bool ::
               FlowTableClient.Volume(added, want) == FlowTableClient.Volume(observed, want)
    ensures NoneGainedMore(h, g, client, observed, hash, cfg)
    ensures all ==> AllGained(h, g, client, observed, hash, cfg)
  {
    hide Gained, Arrived, Untroubled, WellFormed;
    forall iface
      ensures Gained(h, g, CiKey(client, iface), Whole, hash, cfg)
           == FlowTableClient.Volume(added, FlowTableClient.OnIface(iface))
    {
      GainedArrived(h, g, client, added, isLanIP, look, iface, Whole, hash, cfg);
    }
    forall flow: FlowTableClient.AggFlowKey
      ensures Gained(h, g, CiKey(client, flow.iface), Pair(Flow, FlowKey(flow.srcIp, flow.dstIp)), hash, cfg)
           == FlowTableClient.Volume(added, FlowTableClient.OneFlow(flow))
      ensures FlowTableClient.BytesOf(observed, flow)
           == FlowTableClient.Volume(observed, FlowTableClient.OneFlow(flow))
    {
      GainedFlow(h, g, client, added, isLanIP, look, observed, flow, hash, cfg);
    }
  }

  /** A connection from the first observed packet to the store.  Unless the store resets or rejects
      the client, what the store accepts of it are first of all flows, in order, and no interface
      or flow gains more bytes than the client observed; if the stream is read to its end and no
      second is too busy, every interface and every flow gains exactly these. */
  method Connection(source: FlowTableClient.ClientConnection, batches: seq<seq<DataLine.PacketMeta>>,
                    others: seq<seq<string>>, loop: Ingest.DataLoop, time: nat, store: Store, client: string,
                    look: Lookup)
    returns (outcome: EndToEnd.Outcome, ghost parts: seq<seq<DataLine.PacketMeta>>, ghost lates: nat)
    requires source.Valid() && source.observed == [] && loop.Valid() && loop.received == ""
    requires |others| == |batches|
    requires forall i | 0 <= i < |batches| :: EndToEnd.DeliverableBatch(batches[i], loop.maxIface, loop.maxIp)
    requires forall i, j | 0 <= i < |others| && 0 <= j < |others[i]| :: EndToEnd.SendableLine(others[i][j])
    requires store.Valid() && NoBar(client)
    modifies source, loop, store
    ensures store.Valid() && old(store.log) <= store.log
    ensures Untroubled(old(store.log), store.log, client) ==>
              && Arrived(old(store.log), store.log, client, loop.added, store.isLanIP, look)
              && NoneGainedMore(old(store.log), store.log, client, EndToEnd.Flat(batches), store.hash, store.cfg)
    ensures outcome.Ended? && Ingest.WithinRate(loop.seen, loop.maxPerSecond)
            && Untroubled(old(store.log), store.log, client) ==>
              AllGained(old(store.log), store.log, client, EndToEnd.Flat(batches), store.hash, store.cfg)
    ensures EndToEnd.RoomFor(others, loop.maxBuffer, loop.maxIface, loop.maxIp) ==> !outcome.Dropped?
    ensures |parts| == |batches| && forall i | 0 <= i < |parts| :: EndToEnd.Carries(parts[i], batches[i])
    ensures outcome.Running? ==> time <= lates + |Ingest.TextOf(EndToEnd.SentLines(parts, others))|
  {
    hide Store.Valid, EndToEnd.DeliverableBatch, EndToEnd.Carries, AllGained, NoneGainedMore, Untroubled, Arrived,
         EndToEnd.RoomFor, EndToEnd.SendableLine;
    hide Ingest.SplitLines, Ingest.Metas, Ingest.Passed, Ingest.GateAfter, FlowTableClient.TableOf;
    ghost var h := store.log;
    outcome, parts, lates := EndToEnd.Session(source, batches, others, loop, time);
    PassedAreSmall(loop.seen, loop.maxPerSecond, Ingest.SplitLines(loop.received).lines, loop.maxIface, loop.maxIp);
    Deliver(store, client, loop.added, look);
    if Untroubled(h, store.log, client) {
      ValidLog(store);
      ConnectionGains(h, store.log, client, loop.added, store.isLanIP, look, EndToEnd.Flat(batches),
                      outcome.Ended? && Ingest.WithinRate(loop.seen, loop.maxPerSecond), store.hash, store.cfg);
    }
  }

  lemma ReportedTotal(r: Report, views: seq<Log>, hash: string -> nat, cfg: Config, key: string)
    requires Gathered(r, views, SHARD_COUNT, hash, cfg)
    ensures |views| == SHARD_COUNT
    ensures At(r.totals, key) == WindowTotal(views[ShardOf(hash, ClientOf(key))], key, hash, cfg).Wrapped()
  {
    hide WindowTotal, WindowPair, AddsUp, NarrowReport;
    assert Reports(r, key, views[ShardOf(hash, ClientOf(key))], hash, cfg);
  }

  lemma WrapMore(a: nat, n: int)
    ensures (a + n) % U64 == (a % U64 + n) % U64
  {
  }

  /** Two snapshots: a key's reported bytes grow, or shrink, by what its window total has in between. */
  lemma ReportGrows(r: Report, views: seq<Log>, r': Report, views': seq<Log>, hash: string -> nat, cfg: Config,
                    key: string, n: int)
    requires Gathered(r, views, SHARD_COUNT, hash, cfg) && Gathered(r', views', SHARD_COUNT, hash, cfg)
    requires var si := ShardOf(hash, ClientOf(key));
             WindowTotal(views'[si], key, hash, cfg).bytes == WindowTotal(views[si], key, hash, cfg).bytes + n
    ensures At(r'.totals, key).bytes == (At(r.totals, key).bytes + n) % U64
  {
    hide WindowTotal, Gathered;
    ReportedTotal(r, views, hash, cfg, key);
    ReportedTotal(r', views', hash, cfg, key);
    WrapMore(WindowTotal(views[ShardOf(hash, ClientOf(key))], key, hash, cfg).bytes, n);
  }
}

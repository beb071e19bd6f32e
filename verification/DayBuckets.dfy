/** One day's counters for the clients of one shard, and the claim each bucket
    makes about the log. */
module DayBuckets {
  import opened Common
  import opened PacketLog
  import opened CounterSums
  import opened FlowTables

  datatype DayBucket = DayBucket(
    dayIndex: int,
    totals: map<string, Counter>,
    flows: map<string, map<FlowKey, FlowStats>>,
    countryFlows: map<string, Table>,
    entityFlows: map<string, Table>)

  datatype Config = Config(windowDays: nat, maxFlows: nat, maxEntityFlows: nat, maxIfaces: nat) {
    predicate Valid() {
      windowDays > 0 && maxFlows > 0 && maxEntityFlows > 0 && maxIfaces > 0
    }
  }

  function TableAt(m: map<string, Table>, key: string): Table {
    if key in m then m[key] else map[]
  }

  function FlowsAt(m: map<string, map<FlowKey, FlowStats>>, key: string): map<FlowKey, FlowStats> {
    if key in m then m[key] else map[]
  }

  /** The counts of one key's table of a kind. */
  function Tracks(b: DayBucket, kind: Kind, key: string): Table {
    match kind
    case Flow => Counts(FlowsAt(b.flows, key))
    case Entity => TableAt(b.entityFlows, key)
    case Country => TableAt(b.countryFlows, key)
  }

  /** Country tables have no cap. */
  function Cap(cfg: Config, kind: Kind): nat {
    match kind
    case Flow => cfg.maxFlows
    case Entity => cfg.maxEntityFlows
    case Country => 0
  }

  predicate HasKey(b: DayBucket, key: string) {
    key in b.totals || key in b.flows || key in b.countryFlows || key in b.entityFlows
  }

  /** An entry counts the latest of its pair's packets, as many as it says, and was seen first and last
      with these.  Times before 1970 are taken for unset, so that there the last one stands for both. */
  predicate SeenRight(s: FlowStats, times: seq<int>, day: int) {
    && 0 < s.count.packets <= |times|
    && s.lastSeenSec == times[|times| - 1]
    && s.firstSeenSec == if day >= 0 then times[|times| - s.count.packets] else times[|times| - 1]
  }

  ghost predicate FlowsSeen(m: map<FlowKey, FlowStats>, h: Log, key: string, day: int) {
    forall f | f in m :: SeenRight(m[f], Times(h, DaySplit(Flow, key, day, f)), day)
  }

  /** Making room leaves every other entry as it is. */
  ghost predicate FlowRoom(m: map<FlowKey, FlowStats>, room: map<FlowKey, FlowStats>, f: FlowKey, cap: nat) {
    Room(Counts(m), Counts(room), f, cap) && forall g | g in room :: g in m && room[g] == m[g]
  }

  /** What a bucket says about one key: an exact total below 2^64, present exactly
      when there was traffic; an exact country table whose sum is the total; flow and
      entity tables that never overcount; and for each flow when it was seen. */
  ghost predicate KeyInv(b: DayBucket, h: Log, key: string, cfg: Config) {
    var t := Tally(h, DayTotal(key, b.dayIndex));
    && (HasKey(b, key) ==> key in b.totals && key in b.flows && key in b.countryFlows && key in b.entityFlows)
    && (HasKey(b, key) <==> t.packets > 0)
    && At(b.totals, key) == t
    && t.packets < U64 && t.bytes < U64
    && Exact(TableAt(b.countryFlows, key), h, Country, key, b.dayIndex)
    && Tracked(Counts(FlowsAt(b.flows, key)), h, Flow, key, b.dayIndex, cfg.maxFlows)
    && Tracked(TableAt(b.entityFlows, key), h, Entity, key, b.dayIndex, cfg.maxEntityFlows)
    && FlowsSeen(FlowsAt(b.flows, key), h, key, b.dayIndex)
  }

  ghost predicate BucketInv(b: DayBucket, h: Log, hash: string -> nat, si: nat, cfg: Config) {
    forall key ::
      if ShardOf(hash, ClientOf(key)) == si then KeyInv(b, h, key, cfg) else !HasKey(b, key)
  }

  // ----- frames --------------------------------------------------------------------

  /** Two logs that agree on one key of one day. */
  ghost predicate SameKey(h: Log, g: Log, key: string, day: int) {
    && Tally(h, DayTotal(key, day)) == Tally(g, DayTotal(key, day))
    && (forall kind, f :: Tally(h, DaySplit(kind, key, day, f)) == Tally(g, DaySplit(kind, key, day, f)))
    && (forall kind :: Distinct(h, kind, key, day) == Distinct(g, kind, key, day))
    && (forall f :: Times(h, DaySplit(Flow, key, day, f)) == Times(g, DaySplit(Flow, key, day, f)))
  }

  predicate SameCell(b: DayBucket, c: DayBucket, key: string) {
    && b.dayIndex == c.dayIndex
    && (key in b.totals <==> key in c.totals) && At(b.totals, key) == At(c.totals, key)
    && (key in b.flows <==> key in c.flows) && FlowsAt(b.flows, key) == FlowsAt(c.flows, key)
    && (key in b.countryFlows <==> key in c.countryFlows)
        && TableAt(b.countryFlows, key) == TableAt(c.countryFlows, key)
    && (key in b.entityFlows <==> key in c.entityFlows) && TableAt(b.entityFlows, key) == TableAt(c.entityFlows, key)
  }

  lemma ExactFrame(m: Table, h: Log, g: Log, kind: Kind, key: string, day: int)
    requires Exact(m, h, kind, key, day) && SameKey(h, g, key, day)
    ensures Exact(m, g, kind, key, day)
  {
  }

  lemma TrackedFrame(m: Table, h: Log, g: Log, kind: Kind, key: string, day: int, cap: nat)
    requires Tracked(m, h, kind, key, day, cap) && SameKey(h, g, key, day)
    ensures Tracked(m, g, kind, key, day, cap)
  {
  }

  lemma SeenFrame(m: map<FlowKey, FlowStats>, h: Log, g: Log, key: string, day: int)
    requires FlowsSeen(m, h, key, day) && SameKey(h, g, key, day)
    ensures FlowsSeen(m, g, key, day)
  {
  }

  lemma KeyInvFrame(b: DayBucket, c: DayBucket, h: Log, g: Log, key: string, cfg: Config)
    requires KeyInv(b, h, key, cfg) && SameCell(b, c, key) && SameKey(h, g, key, b.dayIndex)
    ensures KeyInv(c, g, key, cfg)
  {
    ExactFrame(TableAt(b.countryFlows, key), h, g, Country, key, b.dayIndex);
    TrackedFrame(Counts(FlowsAt(b.flows, key)), h, g, Flow, key, b.dayIndex, cfg.maxFlows);
    TrackedFrame(TableAt(b.entityFlows, key), h, g, Entity, key, b.dayIndex, cfg.maxEntityFlows);
    SeenFrame(FlowsAt(b.flows, key), h, g, key, b.dayIndex);
  }

  lemma OtherClientSameKey(h: Log, e: Event, key: string, day: int)
    requires NoBar(EventClient(e)) && EventClient(e) != ClientOf(key)
    ensures SameKey(h, h + [e], key, day)
  {
    if e.Accepted? {
      ClientOfKey(e.packet.client, e.packet.iface);
    }
    Append(h, e);
    forall f ensures Times(h, DaySplit(Flow, key, day, f)) == Times(h + [e], DaySplit(Flow, key, day, f)) {
      TimesStep(h, e, DaySplit(Flow, key, day, f));
    }
  }

  lemma OtherKeySameKey(h: Log, e: Event, key: string, day: int)
    requires e.Accepted? && !Matches(DayTotal(key, day), e.packet, e.sec, e.inbound)
    ensures SameKey(h, h + [e], key, day)
  {
    Append(h, e);
    forall f ensures Times(h, DaySplit(Flow, key, day, f)) == Times(h + [e], DaySplit(Flow, key, day, f)) {
      TimesStep(h, e, DaySplit(Flow, key, day, f));
    }
  }

  lemma RejectedSameKey(h: Log, e: Event, key: string, day: int)
    requires e.Rejected?
    ensures SameKey(h, h + [e], key, day)
  {
    Append(h, e);
    forall f ensures Times(h, DaySplit(Flow, key, day, f)) == Times(h + [e], DaySplit(Flow, key, day, f)) {
      TimesStep(h, e, DaySplit(Flow, key, day, f));
    }
  }

  /** Events of other shards leave a bucket right. */
  lemma BucketOtherShard(b: DayBucket, h: Log, e: Event, hash: string -> nat, si: nat, cfg: Config)
    requires BucketInv(b, h, hash, si, cfg)
    requires NoBar(EventClient(e)) && ShardOf(hash, EventClient(e)) != si
    ensures BucketInv(b, h + [e], hash, si, cfg)
  {
    forall key | ShardOf(hash, ClientOf(key)) == si ensures KeyInv(b, h + [e], key, cfg) {
      OtherClientSameKey(h, e, key, b.dayIndex);
      KeyInvFrame(b, b, h, h + [e], key, cfg);
    }
  }

  lemma BucketRejected(b: DayBucket, h: Log, e: Event, hash: string -> nat, si: nat, cfg: Config)
    requires BucketInv(b, h, hash, si, cfg) && e.Rejected?
    ensures BucketInv(b, h + [e], hash, si, cfg)
  {
    forall key | ShardOf(hash, ClientOf(key)) == si ensures KeyInv(b, h + [e], key, cfg) {
      RejectedSameKey(h, e, key, b.dayIndex);
      KeyInvFrame(b, b, h, h + [e], key, cfg);
    }
  }

  /** A packet of another day leaves a bucket right. */
  lemma BucketOtherDay(b: DayBucket, h: Log, e: Event, hash: string -> nat, si: nat, cfg: Config)
    requires BucketInv(b, h, hash, si, cfg)
    requires e.Accepted? && DayIndex(e.sec) != b.dayIndex
    ensures BucketInv(b, h + [e], hash, si, cfg)
  {
    forall key | ShardOf(hash, ClientOf(key)) == si ensures KeyInv(b, h + [e], key, cfg) {
      OtherKeySameKey(h, e, key, b.dayIndex);
      KeyInvFrame(b, b, h, h + [e], key, cfg);
    }
  }

  // ----- a new bucket ------------------------------------------------------------------

  function NewBucket(day: int): DayBucket {
    DayBucket(day, map[], map[], map[], map[])
  }

  lemma CellEmpty(b: DayBucket, h: Log, key: string, cfg: Config)
    requires !HasKey(b, key) && Tally(h, DayTotal(key, b.dayIndex)).packets == 0
    ensures KeyInv(b, h, key, cfg)
  {
    EmptyTables(h, Country, key, b.dayIndex, 0);
    EmptyTables(h, Flow, key, b.dayIndex, cfg.maxFlows);
    EmptyTables(h, Entity, key, b.dayIndex, cfg.maxEntityFlows);
    SplitWithinTotal(h, Flow, key, b.dayIndex, FlowKey("", ""));
    assert Counts(map[]) == map[];
  }

  lemma NewBucketRight(day: int, h: Log, hash: string -> nat, si: nat, cfg: Config)
    requires WellFormed(h) && day !in ActiveDays(h, hash, si)
    ensures BucketInv(NewBucket(day), h, hash, si, cfg)
  {
    ActiveDaysOrdered(h, hash, si);
    forall key | ShardOf(hash, ClientOf(key)) == si ensures KeyInv(NewBucket(day), h, key, cfg) {
      if Tally(h, DayTotal(key, day)).packets > 0 {
        CountedDayActive(h, hash, key, day);
      }
      CellEmpty(NewBucket(day), h, key, cfg);
    }
  }

  // ----- erasing a client -----------------------------------------------------------------

  /** Erases the entries whose key starts with the prefix, one at a time. */
  method EraseMatching<V>(m: map<string, V>, prefix: string) returns (r: map<string, V>)
    ensures r == map k | k in m && !HasPrefix(k, prefix) :: m[k]
  {
    r := m;
    var rest := m.Keys;
    while rest != {}
      invariant rest <= m.Keys
      invariant forall k :: k in r <==> k in m && (k in rest || !HasPrefix(k, prefix))
      invariant forall k | k in r :: r[k] == m[k]
      decreases rest
    {
      var k :| k in rest;
      if HasPrefix(k, prefix) {
        r := r - {k};
      }
      rest := rest - {k};
    }
  }

  ghost predicate Erased(b: DayBucket, c: DayBucket, prefix: string) {
    && c.dayIndex == b.dayIndex
    && c.totals == (map k | k in b.totals && !HasPrefix(k, prefix) :: b.totals[k])
    && c.flows == (map k | k in b.flows && !HasPrefix(k, prefix) :: b.flows[k])
    && c.countryFlows == (map k | k in b.countryFlows && !HasPrefix(k, prefix) :: b.countryFlows[k])
    && c.entityFlows == (map k | k in b.entityFlows && !HasPrefix(k, prefix) :: b.entityFlows[k])
  }

  method EraseClient(b: DayBucket, prefix: string) returns (c: DayBucket)
    ensures Erased(b, c, prefix)
  {
    var totals := EraseMatching(b.totals, prefix);
    var flows := EraseMatching(b.flows, prefix);
    var countryFlows := EraseMatching(b.countryFlows, prefix);
    var entityFlows := EraseMatching(b.entityFlows, prefix);
    c := DayBucket(b.dayIndex, totals, flows, countryFlows, entityFlows);
  }

  predicate Resets(e: Event, client: string) {
    e == Purged(client) || e == Overflow(client)
  }

  lemma ErasedKey(b: DayBucket, c: DayBucket, key: string, prefix: string)
    requires Erased(b, c, prefix)
    ensures HasPrefix(key, prefix) || !HasKey(b, key) ==> !HasKey(c, key)
    ensures !HasPrefix(key, prefix) || !HasKey(b, key) ==> SameCell(b, c, key)
    ensures c.dayIndex == b.dayIndex
  {
    hide HasPrefix;
  }

  lemma CountedHere(b: DayBucket, h: Log, key: string, cfg: Config)
    requires KeyInv(b, h, key, cfg) && HasKey(b, key)
    ensures Tally(h, DayTotal(key, b.dayIndex)).packets > 0
  {
  }

  lemma NothingCounted(h: Log, e: Event, client: string, key: string, day: int)
    requires Resets(e, client) && ClientOf(key) == client
    ensures Tally(h + [e], DayTotal(key, day)).packets == 0
  {
    Append(h, e);
  }

  lemma ResetCell(b: DayBucket, c: DayBucket, h: Log, e: Event, client: string, key: string, cfg: Config)
    requires KeyInv(b, h, key, cfg) && Erased(b, c, client + "|") && Resets(e, client) && NoBar(client)
    ensures KeyInv(c, h + [e], key, cfg)
  {
    hide KeyInv, Erased, HasKey, SameCell, HasPrefix, ClientOf, Tally, NoBar;
    ErasedKey(b, c, key, client + "|");
    if HasKey(b, key) {
      CountedHere(b, h, key, cfg);
      CountedKeyHasBar(h, key, b.dayIndex);
      PrefixSelectsClient(key, client);
    }
    if ClientOf(key) == client {
      NothingCounted(h, e, client, key, c.dayIndex);
      CellEmpty(c, h + [e], key, cfg);
    } else {
      OtherClientSameKey(h, e, key, b.dayIndex);
      KeyInvFrame(b, c, h, h + [e], key, cfg);
    }
  }

  /** Erasing by prefix is what a reset of the client means. */
  lemma BucketReset(b: DayBucket, c: DayBucket, h: Log, e: Event, client: string, hash: string -> nat, si: nat,
                    cfg: Config)
    requires BucketInv(b, h, hash, si, cfg) && Erased(b, c, client + "|") && Resets(e, client) && NoBar(client)
    ensures BucketInv(c, h + [e], hash, si, cfg)
  {
    forall key ensures if ShardOf(hash, ClientOf(key)) == si then KeyInv(c, h + [e], key, cfg) else !HasKey(c, key) {
      if ShardOf(hash, ClientOf(key)) == si {
        ResetCell(b, c, h, e, client, key, cfg);
      }
    }
  }

  // ----- counting a packet ----------------------------------------------------------------

  function Touch(s: FlowStats, length: nat, sec: int): FlowStats {
    FlowStats(s.count.Plus(Counter(1, length)), if s.firstSeenSec < 0 then sec else s.firstSeenSec, sec)
  }

  function StatsAt(m: map<FlowKey, FlowStats>, f: FlowKey): FlowStats {
    if f in m then m[f] else NO_FLOW
  }

  /** The bucket after a packet, given the flow and entity tables with room made. */
  function Counted(b: DayBucket, p: Packet, sec: int, flowRoom: map<FlowKey, FlowStats>,
                   entityRoom: Table): (c: DayBucket)
    ensures c.dayIndex == b.dayIndex
  {
    var key, f := CiKey(p.client, p.iface), PairOf(Flow, p);
    DayBucket(
      b.dayIndex,
      b.totals[key := At(b.totals, key).Plus(Counter(1, p.length))],
      b.flows[key := flowRoom[f := Touch(StatsAt(flowRoom, f), p.length, sec)]],
      b.countryFlows[key := Bump(TableAt(b.countryFlows, key), PairOf(Country, p), p.length)],
      b.entityFlows[key := Bump(entityRoom, PairOf(Entity, p), p.length)])
  }

  lemma CountsTouch(room: map<FlowKey, FlowStats>, f: FlowKey, length: nat, sec: int)
    ensures Counts(room[f := Touch(StatsAt(room, f), length, sec)]) == Bump(Counts(room), f, length)
  {
    var l, r := Counts(room[f := Touch(StatsAt(room, f), length, sec)]), Bump(Counts(room), f, length);
    assert l.Keys == r.Keys;
    assert forall g | g in l :: l[g] == r[g];
  }

  /** Counting a packet notes when its flow was seen, and no other. */
  lemma CountedSeen(m: map<FlowKey, FlowStats>, room: map<FlowKey, FlowStats>, h: Log, e: Event, key: string, day: int,
                    cap: nat)
    requires e.Accepted? && Matches(DayTotal(key, day), e.packet, e.sec, e.inbound)
    requires FlowsSeen(m, h, key, day) && FlowRoom(m, room, PairOf(Flow, e.packet), cap)
    ensures var f := PairOf(Flow, e.packet);
            FlowsSeen(room[f := Touch(StatsAt(room, f), e.packet.length, e.sec)], h + [e], key, day)
  {
    hide Room, Counts, Times;
    var f := PairOf(Flow, e.packet);
    var after := room[f := Touch(StatsAt(room, f), e.packet.length, e.sec)];
    forall g | g in after ensures SeenRight(after[g], Times(h + [e], DaySplit(Flow, key, day, g)), day) {
      TimesStep(h, e, DaySplit(Flow, key, day, g));
      if g == f {
        TimesOnDay(h, Flow, key, day, f);
        Touched(StatsAt(room, f), Times(h, DaySplit(Flow, key, day, f)), day, e.packet.length, e.sec);
      } else {
        assert SeenRight(m[g], Times(h, DaySplit(Flow, key, day, g)), day);
      }
    }
  }

  lemma Touched(s: FlowStats, times: seq<int>, day: int, length: nat, sec: int)
    requires s == NO_FLOW || SeenRight(s, times, day)
    requires DayIndex(sec) == day && forall i | 0 <= i < |times| :: DayIndex(times[i]) == day
    ensures SeenRight(Touch(s, length, sec), times + [sec], day)
  {
    SameSign(sec, day);
    if s != NO_FLOW {
      SameSign(times[|times| - 1], day);
      SameSign(times[|times| - s.count.packets], day);
    }
    hide DayIndex;
  }

  lemma SameSign(sec: int, day: int)
    requires DayIndex(sec) == day
    ensures sec >= 0 <==> day >= 0
  {
  }

  lemma CountedCell(b: DayBucket, h: Log, e: Event, cfg: Config, flowRoom: map<FlowKey, FlowStats>, entityRoom: Table)
    requires e.Accepted? && DayIndex(e.sec) == b.dayIndex && cfg.Valid()
    requires KeyInv(b, h, CiKey(e.packet.client, e.packet.iface), cfg)
    requires var key := CiKey(e.packet.client, e.packet.iface);
             && FlowRoom(FlowsAt(b.flows, key), flowRoom, PairOf(Flow, e.packet), cfg.maxFlows)
             && Room(TableAt(b.entityFlows, key), entityRoom, PairOf(Entity, e.packet), cfg.maxEntityFlows)
             && At(b.totals, key).packets + 1 < U64 && At(b.totals, key).bytes + e.packet.length < U64
    ensures KeyInv(Counted(b, e.packet, e.sec, flowRoom, entityRoom), h + [e], CiKey(e.packet.client, e.packet.iface),
                   cfg)
  {
    var p := e.packet;
    var key, f := CiKey(p.client, p.iface), PairOf(Flow, p);
    var c := Counted(b, p, e.sec, flowRoom, entityRoom);
    var total := Tally(h + [e], DayTotal(key, b.dayIndex));
    assert total == At(c.totals, key) && total.packets > 0 by {
      Append(h, e);
    }
    assert Exact(TableAt(c.countryFlows, key), h + [e], Country, key, b.dayIndex) by {
      ExactStep(TableAt(b.countryFlows, key), h, e, Country, key, b.dayIndex);
    }
    assert Tracked(Counts(FlowsAt(c.flows, key)), h + [e], Flow, key, b.dayIndex, cfg.maxFlows) by {
      TrackedStep(Counts(FlowsAt(b.flows, key)), Counts(flowRoom), h, e, Flow, key, b.dayIndex, cfg.maxFlows);
      CountsTouch(flowRoom, f, p.length, e.sec);
      assert FlowsAt(c.flows, key) == flowRoom[f := Touch(StatsAt(flowRoom, f), p.length, e.sec)];
    }
    assert Tracked(TableAt(c.entityFlows, key), h + [e], Entity, key, b.dayIndex, cfg.maxEntityFlows) by {
      TrackedStep(TableAt(b.entityFlows, key), entityRoom, h, e, Entity, key, b.dayIndex, cfg.maxEntityFlows);
    }
    assert FlowsSeen(FlowsAt(c.flows, key), h + [e], key, b.dayIndex) by {
      CountedSeen(FlowsAt(b.flows, key), flowRoom, h, e, key, b.dayIndex, cfg.maxFlows);
      assert FlowsAt(c.flows, key) == flowRoom[f := Touch(StatsAt(flowRoom, f), p.length, e.sec)];
    }
  }

  lemma CountedElsewhere(b: DayBucket, p: Packet, sec: int, flowRoom: map<FlowKey, FlowStats>, entityRoom: Table,
                         key: string)
    requires key != CiKey(p.client, p.iface)
    ensures SameCell(b, Counted(b, p, sec, flowRoom, entityRoom), key)
    ensures HasKey(b, key) <==> HasKey(Counted(b, p, sec, flowRoom, entityRoom), key)
  {
    hide Touch, Bump, StatsAt;
  }

  lemma BucketCounted(b: DayBucket, h: Log, e: Event, hash: string -> nat, si: nat, cfg: Config,
                      flowRoom: map<FlowKey, FlowStats>, entityRoom: Table)
    requires BucketInv(b, h, hash, si, cfg) && cfg.Valid()
    requires e.Accepted? && DayIndex(e.sec) == b.dayIndex
    requires NoBar(e.packet.client) && ShardOf(hash, e.packet.client) == si
    requires var key := CiKey(e.packet.client, e.packet.iface);
             && FlowRoom(FlowsAt(b.flows, key), flowRoom, PairOf(Flow, e.packet), cfg.maxFlows)
             && Room(TableAt(b.entityFlows, key), entityRoom, PairOf(Entity, e.packet), cfg.maxEntityFlows)
             && At(b.totals, key).packets + 1 < U64 && At(b.totals, key).bytes + e.packet.length < U64
    ensures BucketInv(Counted(b, e.packet, e.sec, flowRoom, entityRoom), h + [e], hash, si, cfg)
  {
    var c := Counted(b, e.packet, e.sec, flowRoom, entityRoom);
    ClientOfKey(e.packet.client, e.packet.iface);
    hide KeyInv, Room, Counted, HasKey, SameCell, ClientOf, At, Tally;
    forall key ensures if ShardOf(hash, ClientOf(key)) == si then KeyInv(c, h + [e], key, cfg) else !HasKey(c, key) {
      if key == CiKey(e.packet.client, e.packet.iface) {
        CountedCell(b, h, e, cfg, flowRoom, entityRoom);
      } else {
        CountedElsewhere(b, e.packet, e.sec, flowRoom, entityRoom, key);
        if ShardOf(hash, ClientOf(key)) == si {
          OtherKeySameKey(h, e, key, b.dayIndex);
          KeyInvFrame(b, c, h, h + [e], key, cfg);
        }
      }
    }
  }

  // ----- overflow ----------------------------------------------------------------------------

  predicate WouldOverflow(c: Counter, length: nat) {
    c.packets > U64 - 1 - 1 || (length > 0 && c.bytes > U64 - 1 - length)
  }

  /** The four overflow tests reduce to the first: the day's total is the largest
      of the four counters. */
  lemma OverflowIsTheTotals(b: DayBucket, h: Log, p: Packet, cfg: Config,
                            flowRoom: map<FlowKey, FlowStats>, entityRoom: Table)
    requires KeyInv(b, h, CiKey(p.client, p.iface), cfg)
    requires var key := CiKey(p.client, p.iface);
             && FlowRoom(FlowsAt(b.flows, key), flowRoom, PairOf(Flow, p), cfg.maxFlows)
             && Room(TableAt(b.entityFlows, key), entityRoom, PairOf(Entity, p), cfg.maxEntityFlows)
    ensures var key := CiKey(p.client, p.iface);
            && (WouldOverflow(StatsAt(flowRoom, PairOf(Flow, p)).count, p.length) ==>
                WouldOverflow(At(b.totals, key), p.length))
            && (WouldOverflow(At(TableAt(b.countryFlows, key), PairOf(Country, p)), p.length) ==>
                WouldOverflow(At(b.totals, key), p.length))
            && (WouldOverflow(At(entityRoom, PairOf(Entity, p)), p.length) ==>
                WouldOverflow(At(b.totals, key), p.length))
  {
    hide KeyInv, Room, WouldOverflow, At, StatsAt, CiKey, PairOf, Tally;
    var key := CiKey(p.client, p.iface);
    CellWithinTotal(b, h, key, PairOf(Flow, p), PairOf(Country, p), PairOf(Entity, p), cfg);
    RoomKeeps(Counts(FlowsAt(b.flows, key)), Counts(flowRoom), PairOf(Flow, p), cfg.maxFlows);
    RoomKeeps(TableAt(b.entityFlows, key), entityRoom, PairOf(Entity, p), cfg.maxEntityFlows);
    CountAt(flowRoom, PairOf(Flow, p));
    SmallerFits(At(Counts(flowRoom), PairOf(Flow, p)), At(b.totals, key), p.length);
    SmallerFits(At(TableAt(b.countryFlows, key), PairOf(Country, p)), At(b.totals, key), p.length);
    SmallerFits(At(entityRoom, PairOf(Entity, p)), At(b.totals, key), p.length);
  }

  lemma SmallerFits(c: Counter, d: Counter, length: nat)
    requires c.Within(d)
    ensures WouldOverflow(c, length) ==> WouldOverflow(d, length)
  {
  }

  lemma CountAt(m: map<FlowKey, FlowStats>, f: FlowKey)
    ensures StatsAt(m, f).count == At(Counts(m), f)
  {
  }

  lemma CellWithinTotal(b: DayBucket, h: Log, key: string, flow: FlowKey, country: FlowKey, entity: FlowKey,
                        cfg: Config)
    requires KeyInv(b, h, key, cfg)
    ensures At(Counts(FlowsAt(b.flows, key)), flow).Within(At(b.totals, key))
    ensures At(TableAt(b.countryFlows, key), country).Within(At(b.totals, key))
    ensures At(TableAt(b.entityFlows, key), entity).Within(At(b.totals, key))
  {
    SplitWithinTotal(h, Flow, key, b.dayIndex, flow);
    SplitWithinTotal(h, Country, key, b.dayIndex, country);
    SplitWithinTotal(h, Entity, key, b.dayIndex, entity);
    hide Counts, Tally, FlowsAt, TableAt, HasKey;
  }

  lemma RoomKeeps(m: Table, room: Table, f: FlowKey, cap: nat)
    requires Room(m, room, f, cap)
    ensures At(room, f) == At(m, f)
  {
  }
}

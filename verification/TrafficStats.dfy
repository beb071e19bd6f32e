/** The sharded traffic store. */
module TrafficStats {
  import opened Common
  import opened PacketLog
  import opened CounterSums
  import opened FlowTables
  import opened DayBuckets
  import opened HistoryRing
  import opened Shards
  import opened TableTrails
  import opened Snapshot

  datatype AddResult = AddedPacket | IfaceCapExceeded

  method MakeFlowRoom(m: map<FlowKey, FlowStats>, f: FlowKey, cap: nat) returns (room: map<FlowKey, FlowStats>)
    requires cap > 0
    ensures FlowRoom(m, room, f, cap)
  {
    room := m;
    assert |Counts(m)| == |Counts(m).Keys| && |m| == |m.Keys|;
    if |m| >= cap && f !in m {
      var it := MinElement(Counts(m));
      room := m - {it};
      assert Counts(room) == Counts(m) - {it};
    }
  }

  method MakeRoom(m: Table, f: FlowKey, cap: nat) returns (room: Table)
    requires cap > 0
    ensures Room(m, room, f, cap)
  {
    room := m;
    if |m| >= cap && f !in m {
      var it := MinElement(m);
      room := m - {it};
    }
  }

  /** Whether with one more packet the day's total of its interface would not fit 64-bit counters. */
  ghost predicate Overflows(h: Log, p: Packet, sec: int, inbound: bool) {
    var t := Tally(h + [Accepted(p, sec, inbound)], DayTotal(CiKey(p.client, p.iface), DayIndex(sec)));
    t.packets >= U64 || t.bytes >= U64
  }

  ghost predicate AtIfaceCap(h: Log, p: Packet, cfg: Config) {
    p.iface !in Ifaces(h, p.client) && |Ifaces(h, p.client)| >= cfg.maxIfaces
  }

  /** What one call of AddPacket writes in the log. */
  ghost function Logged(h: Log, p: Packet, sec: int, inbound: bool, cfg: Config): Log {
    if AtIfaceCap(h, p, cfg) then h + [Rejected(p.client)]
    else if Overflows(h, p, sec, inbound) then h + [Overflow(p.client)] + [Accepted(p, sec, inbound)]
    else h + [Accepted(p, sec, inbound)]
  }

  /** The four overflow tests of one packet. */
  method FindsOverflow(b: DayBucket, p: Packet, sec: int, flowRoom: map<FlowKey, FlowStats>, entityRoom: Table,
                       ghost inbound: bool, ghost h: Log, ghost hash: string -> nat, ghost si: nat, ghost cfg: Config)
    returns (overflow: bool)
    requires BucketInv(b, h, hash, si, cfg) && NoBar(p.client) && ShardOf(hash, p.client) == si
    requires b.dayIndex == DayIndex(sec) && RoomMade(b, p, flowRoom, entityRoom, cfg)
    ensures overflow <==> Overflows(h, p, sec, inbound)
    ensures !overflow ==> HasHeadroom(b, p)
  {
    hide Room, BucketInv, KeyInv, WouldOverflow, Overflows, HasHeadroom;
    var key := CiKey(p.client, p.iface);
    overflow :=
      WouldOverflow(At(b.totals, key), p.length)
      || WouldOverflow(StatsAt(flowRoom, PairOf(Flow, p)).count, p.length)
      || WouldOverflow(At(TableAt(b.countryFlows, key), PairOf(Country, p)), p.length)
      || WouldOverflow(At(entityRoom, PairOf(Entity, p)), p.length);
    CellOf(b, h, p, hash, si, cfg);
    OverflowIsTheTotals(b, h, p, cfg, flowRoom, entityRoom);
    OverflowsIs(b, h, p, sec, inbound, cfg);
  }

  /** The test of the day's total looks one packet ahead. */
  lemma OverflowsIs(b: DayBucket, h: Log, p: Packet, sec: int, inbound: bool, cfg: Config)
    requires KeyInv(b, h, CiKey(p.client, p.iface), cfg) && b.dayIndex == DayIndex(sec)
    ensures WouldOverflow(At(b.totals, CiKey(p.client, p.iface)), p.length) <==> Overflows(h, p, sec, inbound)
    ensures !Overflows(h, p, sec, inbound) ==> HasHeadroom(b, p)
  {
    Narrow(b, h, CiKey(p.client, p.iface), cfg);
    Append(h, Accepted(p, sec, inbound));
    hide KeyInv, CiKey, Tally;
  }

  lemma Narrow(b: DayBucket, h: Log, key: string, cfg: Config)
    requires KeyInv(b, h, key, cfg)
    ensures At(b.totals, key).packets < U64 && At(b.totals, key).bytes < U64
    ensures At(b.totals, key) == Tally(h, DayTotal(key, b.dayIndex))
  {
    hide Tally;
  }

  ghost predicate RoomMade(b: DayBucket, p: Packet, flowRoom: map<FlowKey, FlowStats>, entityRoom: Table, cfg: Config) {
    var key := CiKey(p.client, p.iface);
    && FlowRoom(FlowsAt(b.flows, key), flowRoom, PairOf(Flow, p), cfg.maxFlows)
    && Room(TableAt(b.entityFlows, key), entityRoom, PairOf(Entity, p), cfg.maxEntityFlows)
  }

  predicate HasHeadroom(b: DayBucket, p: Packet) {
    var c := At(b.totals, CiKey(p.client, p.iface));
    c.packets + 1 < U64 && c.bytes + p.length < U64
  }

  function Newest(bs: seq<DayBucket>, n: nat): seq<DayBucket> {
    if |bs| <= n then bs else bs[|bs| - n..]
  }

  /** Counts the packet in today's bucket and closes the days out of the window. */
  method CountToday(bs: seq<DayBucket>, p: Packet, sec: int, flowRoom: map<FlowKey, FlowStats>, entityRoom: Table,
                    cfg: Config, ghost g: Log, ghost e: Event, ghost hash: string -> nat, ghost si: nat)
    returns (kept: seq<DayBucket>)
    requires e.Accepted? && e.packet == p && e.sec == sec
    requires NoBar(p.client) && ShardOf(hash, p.client) == si && cfg.Valid()
    requires OpenDay(bs, DayIndex(sec), g, hash, si, cfg)
    requires RoomMade(bs[|bs| - 1], p, flowRoom, entityRoom, cfg) && HasHeadroom(bs[|bs| - 1], p)
    ensures BucketsInv(kept, g + [e], hash, si, cfg)
    ensures kept == Newest(bs[|bs| - 1 := Counted(bs[|bs| - 1], p, sec, flowRoom, entityRoom)], cfg.windowDays)
  {
    hide BucketInv, ActiveDays, Counted, Room;
    BucketsCounted(bs, g, e, hash, si, cfg, flowRoom, entityRoom);
    var cs := bs[|bs| - 1 := Counted(bs[|bs| - 1], p, sec, flowRoom, entityRoom)];
    kept := CloseOldDays(cs, cfg.windowDays);
    WindowClosed(cs, kept, WithDay(ActiveDays(g, hash, si), DayIndex(sec)), g + [e], hash, si, cfg);
  }

  /** The reset that an overflow causes, with today's bucket open. */
  method ResetForOverflow(s: Shard, p: Packet, sec: int, ghost h: Log, ghost hash: string -> nat, ghost si: nat,
                          ghost cfg: Config)
    returns (r: Shard)
    requires OpenDay(s.dayBuckets, DayIndex(sec), h, hash, si, cfg) && HistoriesInv(s.clientHistory, h, hash, si)
    requires NoBar(p.client) && ShardOf(hash, p.client) == si && cfg.Valid() && p.length < U32
    ensures var g := h + [Overflow(p.client)];
            OpenDay(r.dayBuckets, DayIndex(sec), g, hash, si, cfg) && HistoriesInv(r.clientHistory, g, hash, si)
    ensures |r.dayBuckets| > 0
    ensures var b, key := r.dayBuckets[|r.dayBuckets| - 1], CiKey(p.client, p.iface);
            HasHeadroom(b, p) && RoomMade(b, p, FlowsAt(b.flows, key), TableAt(b.entityFlows, key), cfg)
    ensures r.clientIfaces == s.clientIfaces - {p.client} && r.ifaceRejectCount == s.ifaceRejectCount - {p.client}
    ensures AllErased(s.dayBuckets, r.dayBuckets, p.client)
  {
    hide *;
    r := ResetClientInShard(s, p.client);
    IsReset(h, p.client);
    ErasedAll(s.dayBuckets, r.dayBuckets, p.client);
    DayReset(s.dayBuckets, r.dayBuckets, h, p.client, DayIndex(sec), hash, si, cfg);
    HistoriesReset(s.clientHistory, h, Overflow(p.client), p.client, hash, si);
    ReadyAfterReset(r.dayBuckets[|r.dayBuckets| - 1], h, p, hash, si, cfg);
  }

  ghost predicate AllErased(bs: seq<DayBucket>, cs: seq<DayBucket>, client: string) {
    |cs| == |bs| && forall i | 0 <= i < |bs| :: Erased(bs[i], cs[i], client + "|")
  }

  lemma ErasedAll(bs: seq<DayBucket>, cs: seq<DayBucket>, client: string)
    requires |cs| == |bs| && forall i | 0 <= i < |bs| :: Erased(bs[i], cs[i], client + "|")
    ensures AllErased(bs, cs, client)
  {
  }

  lemma IsReset(h: Log, client: string)
    ensures Resets(Overflow(client), client)
  {
  }

  lemma DayReset(bs: seq<DayBucket>, cs: seq<DayBucket>, h: Log, client: string, day: int,
                 hash: string -> nat, si: nat, cfg: Config)
    requires OpenDay(bs, day, h, hash, si, cfg) && NoBar(client)
    requires |cs| == |bs| && forall i | 0 <= i < |bs| :: Erased(bs[i], cs[i], client + "|")
    ensures OpenDay(cs, day, h + [Overflow(client)], hash, si, cfg)
    ensures |cs| > 0 && BucketInv(cs[|cs| - 1], h + [Overflow(client)], hash, si, cfg)
  {
    hide BucketInv, ActiveDays, Erased, WithDay, StrictlyIncreasing;
    BucketsReset(bs, cs, h, Overflow(client), client, hash, si, cfg);
    assert Days(cs)[|cs| - 1] == Days(bs)[|cs| - 1];
  }

  lemma ReadyAfterReset(b: DayBucket, h: Log, p: Packet, hash: string -> nat, si: nat, cfg: Config)
    requires BucketInv(b, h + [Overflow(p.client)], hash, si, cfg) && cfg.Valid() && p.length < U32
    requires NoBar(p.client) && ShardOf(hash, p.client) == si
    ensures var key := CiKey(p.client, p.iface);
            HasHeadroom(b, p) && RoomMade(b, p, FlowsAt(b.flows, key), TableAt(b.entityFlows, key), cfg)
  {
    EmptyAfterReset(b, h, p, hash, si, cfg);
    hide BucketInv;
  }

  /** Makes room for the packet in today's bucket; a counter that would overflow
      resets the client first.  g is the log with that reset. */
  method MakeReady(s: Shard, p: Packet, sec: int, cfg: Config, ghost inbound: bool, ghost h: Log,
                   ghost hash: string -> nat, ghost si: nat)
    returns (r: Shard, flowRoom: map<FlowKey, FlowStats>, entityRoom: Table, ghost g: Log)
    requires OpenDay(s.dayBuckets, DayIndex(sec), h, hash, si, cfg) && HistoriesInv(s.clientHistory, h, hash, si)
    requires NoBar(p.client) && ShardOf(hash, p.client) == si && cfg.Valid() && p.length < U32
    ensures g == if Overflows(h, p, sec, inbound) then h + [Overflow(p.client)] else h
    ensures OpenDay(r.dayBuckets, DayIndex(sec), g, hash, si, cfg) && HistoriesInv(r.clientHistory, g, hash, si)
    ensures var b := r.dayBuckets[|r.dayBuckets| - 1]; HasHeadroom(b, p) && RoomMade(b, p, flowRoom, entityRoom, cfg)
    ensures if Overflows(h, p, sec, inbound) then AllErased(s.dayBuckets, r.dayBuckets, p.client)
            else r.dayBuckets == s.dayBuckets
    ensures r.clientIfaces == (if Overflows(h, p, sec, inbound) then s.clientIfaces - {p.client} else s.clientIfaces)
    ensures r.ifaceRejectCount
         == if Overflows(h, p, sec, inbound) then s.ifaceRejectCount - {p.client} else s.ifaceRejectCount
  {
    hide *;
    TodayRight(s.dayBuckets, DayIndex(sec), h, hash, si, cfg);
    var key := CiKey(p.client, p.iface);
    r, g := s, h;
    var b := r.dayBuckets[|r.dayBuckets| - 1];
    flowRoom := MakeFlowRoom(FlowsAt(b.flows, key), PairOf(Flow, p), cfg.maxFlows);
    entityRoom := MakeRoom(TableAt(b.entityFlows, key), PairOf(Entity, p), cfg.maxEntityFlows);
    MadeRoom(b, p, flowRoom, entityRoom, cfg);
    var overflow := FindsOverflow(b, p, sec, flowRoom, entityRoom, inbound, h, hash, si, cfg);
    if overflow {
      r := ResetForOverflow(r, p, sec, h, hash, si, cfg);
      g := h + [Overflow(p.client)];
      b := r.dayBuckets[|r.dayBuckets| - 1];
      flowRoom, entityRoom := FlowsAt(b.flows, key), TableAt(b.entityFlows, key);
    }
  }

  lemma TodayRight(bs: seq<DayBucket>, day: int, h: Log, hash: string -> nat, si: nat, cfg: Config)
    requires OpenDay(bs, day, h, hash, si, cfg) && cfg.Valid()
    ensures |bs| > 0 && bs[|bs| - 1].dayIndex == day && BucketInv(bs[|bs| - 1], h, hash, si, cfg)
    ensures cfg.maxFlows > 0 && cfg.maxEntityFlows > 0
  {
    hide BucketInv;
  }

  lemma MadeRoom(b: DayBucket, p: Packet, flowRoom: map<FlowKey, FlowStats>, entityRoom: Table, cfg: Config)
    requires var key := CiKey(p.client, p.iface);
             && FlowRoom(FlowsAt(b.flows, key), flowRoom, PairOf(Flow, p), cfg.maxFlows)
             && Room(TableAt(b.entityFlows, key), entityRoom, PairOf(Entity, p), cfg.maxEntityFlows)
    ensures RoomMade(b, p, flowRoom, entityRoom, cfg)
  {
    hide Room;
  }

  lemma RegistersKept(s: Shard, h: Log, e: Event, overflow: bool, hash: string -> nat, si: nat, cfg: Config)
    requires ShardInv(s, h, hash, si, cfg) && e.Accepted? && !AtIfaceCap(h, e.packet, cfg)
    requires NoBar(e.packet.client) && ShardOf(hash, e.packet.client) == si
    requires h == [] || !h[|h| - 1].Overflow?
    ensures var (client, reg) := (e.packet.client, Registered(s.clientIfaces, e.packet));
            var g := if overflow then h + [Overflow(client)] else h;
            && IfacesInv(if overflow then reg - {client} else reg, g + [e], hash, si, cfg)
            && RejectsInv(if overflow then s.ifaceRejectCount - {client} else s.ifaceRejectCount, g + [e], hash, si)
  {
    hide IfacesInv, RejectsInv, BucketsInv, HistoriesInv, AtIfaceCap, Registered;
    if overflow {
      RegistersOverflowed(s, h, e, hash, si, cfg);
    } else {
      RegistersFit(s, h, e.packet, hash, si, cfg);
      RegistersCounted(s, h, e, hash, si, cfg);
    }
  }

  /** The trails after an overflow's reset, if there was one. */
  lemma ReadyTrails(bs: seq<DayBucket>, mid: seq<DayBucket>, p: Packet, sec: int, reset: bool, t: Trail,
                    h: Log, hash: string -> nat, si: nat, cfg: Config)
    returns (u: Trail)
    requires Shown(bs, t, hash, si) && TrailsRun(t, h, cfg) && NoBar(p.client)
    requires OpenDay(Opened(bs, DayIndex(sec)), DayIndex(sec), h, hash, si, cfg)
    requires if reset then AllErased(Opened(bs, DayIndex(sec)), mid, p.client) else mid == Opened(bs, DayIndex(sec))
    ensures var g := if reset then h + [Overflow(p.client)] else h;
            Shown(mid, u, hash, si) && TrailsRun(u, g, cfg) && OnlyOf(t, u, p.client) && Grown(t, h, u, g)
  {
    hide Shown, TrailsRun, OnlyOf, Grown, Opened, BucketInv, ActiveDays, WithDay;
    OpenedShown(bs, DayIndex(sec), t, h, hash, si, cfg);
    if reset {
      u := Without(t, p.client);
      AllErasedShown(Opened(bs, DayIndex(sec)), mid, t, h, Overflow(p.client), p.client, hash, si, cfg);
      ResetTrails(t, h, Overflow(p.client), p.client, cfg);
      ResetMoves(t, h, Overflow(p.client), p.client);
    } else {
      u := t;
      GrownSame(t, h, h);
      OnlySame(t, p.client);
    }
  }

  lemma OnlySame(t: Trail, client: string)
    ensures OnlyOf(t, t, client)
  {
  }

  /** The trails after the packet is counted and old days are closed. */
  lemma CountedTrails(mid: seq<DayBucket>, p: Packet, sec: int, inbound: bool,
                      flowRoom: map<FlowKey, FlowStats>, entityRoom: Table, t: Trail,
                      g: Log, hash: string -> nat, si: nat, cfg: Config)
    returns (u: Trail)
    requires OpenDay(mid, DayIndex(sec), g, hash, si, cfg) && Shown(mid, t, hash, si) && TrailsRun(t, g, cfg)
    requires RoomMade(mid[|mid| - 1], p, flowRoom, entityRoom, cfg)
    requires NoBar(p.client) && ShardOf(hash, p.client) == si
    ensures var kept := Newest(mid[|mid| - 1 := Counted(mid[|mid| - 1], p, sec, flowRoom, entityRoom)], cfg.windowDays);
            Shown(kept, u, hash, si)
    ensures TrailsRun(u, g + [Accepted(p, sec, inbound)], cfg)
    ensures OnlyOf(t, u, p.client) && Grown(t, g, u, g + [Accepted(p, sec, inbound)])
  {
    hide BucketInv, ActiveDays, WithDay, Counted, TrailsRun, OnlyOf, Grown, TrailAt, Room, ShownIn, StrictlyIncreasing;
    var (n, day, e) := (|mid| - 1, DayIndex(sec), Accepted(p, sec, inbound));
    var flows, entities := CountedShown(mid[n], p, sec, flowRoom, entityRoom, t, hash, si);
    u := AfterPacket(t, p, day, flows, entities);
    StepMade(mid[n], p, sec, flowRoom, entityRoom, t, hash, si, cfg);
    AcceptedTrails(t, g, e, flows, entities, cfg);
    CountedMoves(t, g, p, day, flows, entities, g + [e]);
    forall i | 0 <= i < n ensures ShownIn(mid[i], u, hash, si) {
      EarlierDay(mid, WithDay(ActiveDays(g, hash, si), day), i);
      OtherDayShown(mid[i], t, p, day, flows, entities, hash, si);
    }
  }

  lemma StepMade(b: DayBucket, p: Packet, sec: int, flowRoom: map<FlowKey, FlowStats>, entityRoom: Table, t: Trail,
                 hash: string -> nat, si: nat, cfg: Config)
    requires ShownIn(b, t, hash, si) && RoomMade(b, p, flowRoom, entityRoom, cfg) && b.dayIndex == DayIndex(sec)
    requires NoBar(p.client) && ShardOf(hash, p.client) == si
    ensures var (key, flows, entities) := (CiKey(p.client, p.iface), Bump(Counts(flowRoom), PairOf(Flow, p), p.length),
                                           Bump(entityRoom, PairOf(Entity, p), p.length));
            && TableStep(Current(TrailAt(t, AnySpot(Flow, key, b.dayIndex))), flows,
                         Counting(PairOf(Flow, p), p.length), cfg.maxFlows)
            && TableStep(Current(TrailAt(t, AnySpot(Entity, key, b.dayIndex))), entities,
                         Counting(PairOf(Entity, p), p.length), cfg.maxEntityFlows)
  {
    ClientOfKey(p.client, p.iface);
    hide Room, Bump, TrailAt, LastOf, FlowsAt, TableAt;
    var (f, n) := (AnySpot(Flow, CiKey(p.client, p.iface), b.dayIndex),
                   AnySpot(Entity, CiKey(p.client, p.iface), b.dayIndex));
    assert Tracks(b, Flow, f.key) == Current(TrailAt(t, f));
    assert Tracks(b, Entity, n.key) == Current(TrailAt(t, n));
  }

  /** Counting on one shard: today's bucket is opened, room is made, a counter that
      would overflow resets the client first, and days out of the window go. */
  method CountOnShard(s: Shard, p: Packet, sec: int, inbound: bool, cfg: Config,
                      ghost h: Log, ghost hash: string -> nat, ghost si: nat, ghost t: Trail)
    returns (r: Shard, ghost u: Trail)
    requires ShardInv(s, h, hash, si, cfg) && cfg.Valid()
    requires NoBar(p.client) && ShardOf(hash, p.client) == si && p.length < U32
    requires WellFormed(h) && UpTo(h, sec) && (h == [] || !h[|h| - 1].Overflow?)
    requires !AtIfaceCap(h, p, cfg)
    requires Shown(s.dayBuckets, t, hash, si) && TrailsRun(t, h, cfg)
    ensures ShardInv(r, Logged(h, p, sec, inbound, cfg), hash, si, cfg)
    ensures Shown(r.dayBuckets, u, hash, si) && TrailsRun(u, Logged(h, p, sec, inbound, cfg), cfg)
    ensures OnlyOf(t, u, p.client) && Grown(t, h, u, Logged(h, p, sec, inbound, cfg))
  {
    hide *;
    ghost var e := Accepted(p, sec, inbound);
    ShardParts(s, h, hash, si, cfg);
    NotEmptyLog(h, p, sec, inbound, cfg);
    DaysUpTo(h, sec);
    DayOpens(s.dayBuckets, DayIndex(sec), h, hash, si, cfg);
    RegistersKept(s, h, e, Overflows(h, p, sec, inbound), hash, si, cfg);
    r := s.(dayBuckets := Opened(s.dayBuckets, DayIndex(sec)), clientIfaces := Registered(s.clientIfaces, p));
    var flowRoom, entityRoom;
    ghost var g;
    r, flowRoom, entityRoom, g := MakeReady(r, p, sec, cfg, inbound, h, hash, si);
    ghost var mid := ReadyTrails(s.dayBuckets, r.dayBuckets, p, sec, Overflows(h, p, sec, inbound), t, h, hash, si,
                                 cfg);
    var kept := CountToday(r.dayBuckets, p, sec, flowRoom, entityRoom, cfg, g, e, hash, si);
    u := CountedTrails(r.dayBuckets, p, sec, inbound, flowRoom, entityRoom, mid, g, hash, si, cfg);
    OnlyTwice(t, mid, u, p.client);
    GrownTwice(t, h, mid, g, u, g + [e]);
    OverflowUpTo(h, p.client, sec);
    HistoriesCounted(r.clientHistory, g, e, hash, si);
    var ring := if p.client in r.clientHistory then r.clientHistory[p.client] else NEW_RING;
    r := r.(dayBuckets := kept,
            clientHistory := r.clientHistory[p.client := Recorded(ring, sec, inbound, p.length)]);
    ShardParts(r, g + [e], hash, si, cfg);
  }

  lemma ShardParts(s: Shard, h: Log, hash: string -> nat, si: nat, cfg: Config)
    ensures ShardInv(s, h, hash, si, cfg)
       <==> BucketsInv(s.dayBuckets, h, hash, si, cfg) && IfacesInv(s.clientIfaces, h, hash, si, cfg)
            && RejectsInv(s.ifaceRejectCount, h, hash, si) && HistoriesInv(s.clientHistory, h, hash, si)
  {
  }

  lemma NotEmptyLog(h: Log, p: Packet, sec: int, inbound: bool, cfg: Config)
    requires !AtIfaceCap(h, p, cfg)
    ensures Logged(h, p, sec, inbound, cfg)
         == (if Overflows(h, p, sec, inbound) then h + [Overflow(p.client)] else h) + [Accepted(p, sec, inbound)]
  {
  }

  lemma OverflowUpTo(h: Log, client: string, sec: int)
    requires UpTo(h, sec)
    ensures UpTo(h + [Overflow(client)], sec)
  {
  }

  lemma DaysUpTo(h: Log, sec: int)
    requires UpTo(h, sec)
    ensures NotAfter(h, DayIndex(sec))
  {
  }

  lemma CellOf(b: DayBucket, h: Log, p: Packet, hash: string -> nat, si: nat, cfg: Config)
    requires BucketInv(b, h, hash, si, cfg) && NoBar(p.client) && ShardOf(hash, p.client) == si
    ensures KeyInv(b, h, CiKey(p.client, p.iface), cfg)
    ensures At(b.totals, CiKey(p.client, p.iface)) == Tally(h, DayTotal(CiKey(p.client, p.iface), b.dayIndex))
  {
    ClientOfKey(p.client, p.iface);
  }

  lemma EmptyAfterReset(b: DayBucket, h: Log, p: Packet, hash: string -> nat, si: nat, cfg: Config)
    requires BucketInv(b, h + [Overflow(p.client)], hash, si, cfg) && NoBar(p.client) && ShardOf(hash, p.client) == si
    ensures At(b.totals, CiKey(p.client, p.iface)) == ZERO
    ensures FlowsAt(b.flows, CiKey(p.client, p.iface)) == map[]
            && TableAt(b.entityFlows, CiKey(p.client, p.iface)) == map[]
    ensures Counts(map[]) == map[]
  {
    CellOf(b, h + [Overflow(p.client)], p, hash, si, cfg);
    ClientOfKey(p.client, p.iface);
    Append(h, Overflow(p.client));
    hide BucketInv, ClientOf;
  }

  lemma RegistersFit(s: Shard, h: Log, p: Packet, hash: string -> nat, si: nat, cfg: Config)
    requires IfacesInv(s.clientIfaces, h, hash, si, cfg) && ShardOf(hash, p.client) == si && !AtIfaceCap(h, p, cfg)
    ensures p.iface in IfacesAt(s.clientIfaces, p.client) || |IfacesAt(s.clientIfaces, p.client)| < cfg.maxIfaces
  {
  }

  // ----- the store ---------------------------------------------------------------------

  ghost predicate AllShards(shards: seq<Shard>, h: Log, hash: string -> nat, cfg: Config) {
    |shards| == SHARD_COUNT && forall si | 0 <= si < SHARD_COUNT :: ShardInv(shards[si], h, hash, si, cfg)
  }

  ghost predicate GoodLog(h: Log, now: int) {
    WellFormed(h) && UpTo(h, now) && (h == [] || !h[|h| - 1].Overflow?)
  }

  lemma WellFormedLog(h: Log, now: int)
    requires GoodLog(h, now)
    ensures WellFormed(h)
  {
  }

  lemma LogGrows(h: Log, now: int, e: Event, now': int)
    requires WellFormed(h) && UpTo(h, now) && now <= now' && NoBar(EventClient(e)) && (e.Accepted? ==> e.sec == now')
    ensures WellFormed(h + [e]) && UpTo(h + [e], now')
  {
  }

  lemma LoggedGood(h: Log, now: int, p: Packet, sec: int, inbound: bool, cfg: Config)
    requires GoodLog(h, now) && now <= sec && NoBar(p.client)
    ensures GoodLog(Logged(h, p, sec, inbound, cfg), sec) && h <= Logged(h, p, sec, inbound, cfg)
  {
    hide AtIfaceCap, Overflows;
    LogGrows(h, now, Rejected(p.client), sec);
    LogGrows(h, now, Accepted(p, sec, inbound), sec);
    LogGrows(h, now, Overflow(p.client), sec);
    LogGrows(h + [Overflow(p.client)], sec, Accepted(p, sec, inbound), sec);
  }

  /** What a packet writes in the log leaves every other shard right. */
  lemma OthersKept(shards: seq<Shard>, h: Log, p: Packet, sec: int, inbound: bool, r: Shard, hash: string -> nat,
                   cfg: Config)
    requires AllShards(shards, h, hash, cfg) && NoBar(p.client)
    requires ShardInv(r, Logged(h, p, sec, inbound, cfg), hash, ShardOf(hash, p.client), cfg)
    ensures AllShards(shards[ShardOf(hash, p.client) := r], Logged(h, p, sec, inbound, cfg), hash, cfg)
  {
    hide ShardInv, AtIfaceCap, Overflows;
    forall si | 0 <= si < SHARD_COUNT && si != ShardOf(hash, p.client)
      ensures ShardInv(shards[si], Logged(h, p, sec, inbound, cfg), hash, si, cfg)
    {
      OtherShard(shards[si], h, Rejected(p.client), hash, si, cfg);
      OtherShard(shards[si], h, Accepted(p, sec, inbound), hash, si, cfg);
      OtherShard(shards[si], h, Overflow(p.client), hash, si, cfg);
      OtherShard(shards[si], h + [Overflow(p.client)], Accepted(p, sec, inbound), hash, si, cfg);
    }
  }

  lemma OthersPurged(shards: seq<Shard>, h: Log, client: string, r: Shard, hash: string -> nat, cfg: Config)
    requires AllShards(shards, h, hash, cfg) && NoBar(client)
    requires ShardInv(r, h + [Purged(client)], hash, ShardOf(hash, client), cfg)
    ensures AllShards(shards[ShardOf(hash, client) := r], h + [Purged(client)], hash, cfg)
  {
    hide ShardInv;
    forall si | 0 <= si < SHARD_COUNT && si != ShardOf(hash, client)
      ensures ShardInv(shards[si], h + [Purged(client)], hash, si, cfg)
    {
      OtherShard(shards[si], h, Purged(client), hash, si, cfg);
    }
  }

  /** In every shard, the buckets' tables are where their trails have got to. */
  ghost predicate AllShown(shards: seq<Shard>, t: Trail, hash: string -> nat) {
    |shards| == SHARD_COUNT && forall si | 0 <= si < SHARD_COUNT :: Shown(shards[si].dayBuckets, t, hash, si)
  }

  lemma OthersShown(shards: seq<Shard>, t: Trail, u: Trail, client: string, r: Shard, hash: string -> nat)
    requires AllShown(shards, t, hash) && OnlyOf(t, u, client)
    requires Shown(r.dayBuckets, u, hash, ShardOf(hash, client))
    ensures AllShown(shards[ShardOf(hash, client) := r], u, hash)
  {
    hide Shown, OnlyOf;
    forall si | 0 <= si < SHARD_COUNT && si != ShardOf(hash, client) ensures Shown(shards[si].dayBuckets, u, hash, si) {
      OtherShardShown(shards[si].dayBuckets, t, u, client, hash, si);
    }
  }

  lemma ShownAt(shards: seq<Shard>, t: Trail, hash: string -> nat, si: nat)
    requires AllShown(shards, t, hash) && si < SHARD_COUNT
    ensures |shards| == SHARD_COUNT && Shown(shards[si].dayBuckets, t, hash, si)
  {
  }

  lemma RejectedMoves(t: Trail, h: Log, client: string, cfg: Config)
    requires TrailsRun(t, h, cfg)
    ensures TrailsRun(t, h + [Rejected(client)], cfg) && OnlyOf(t, t, client) && Grown(t, h, t, h + [Rejected(client)])
  {
    RejectedTrails(t, h, Rejected(client), cfg);
  }

  /** A client's trails end with its purge. */
  lemma PurgedTrails(s: Shard, r: Shard, t: Trail, h: Log, client: string, hash: string -> nat, cfg: Config)
    requires ShardInv(s, h, hash, ShardOf(hash, client), cfg) && NoBar(client) && TrailsRun(t, h, cfg)
    requires Shown(s.dayBuckets, t, hash, ShardOf(hash, client))
    requires |r.dayBuckets| == |s.dayBuckets|
    requires forall i | 0 <= i < |s.dayBuckets| :: Erased(s.dayBuckets[i], r.dayBuckets[i], client + "|")
    ensures var (u, g) := (Without(t, client), h + [Purged(client)]);
            && TrailsRun(u, g, cfg) && Shown(r.dayBuckets, u, hash, ShardOf(hash, client))
            && OnlyOf(t, u, client) && Grown(t, h, u, g)
  {
    hide Erased, Shown, TrailsRun, OnlyOf, Grown, AllBuckets, IfacesInv, RejectsInv, HistoriesInv;
    AllErasedShown(s.dayBuckets, r.dayBuckets, t, h, Purged(client), client, hash, ShardOf(hash, client), cfg);
    ResetTrails(t, h, Purged(client), client, cfg);
    ResetMoves(t, h, Purged(client), client);
  }

  /** Shard by shard, no capped table's largest flow has shrunk. */
  ghost predicate NoneShrank(before: seq<Shard>, h: Log, after: seq<Shard>, g: Log, hash: string -> nat, cfg: Config) {
    && |before| == |after| == SHARD_COUNT
    && forall si | 0 <= si < SHARD_COUNT ::
         NoLargestShrank(before[si].dayBuckets, h, after[si].dayBuckets, g, hash, si, cfg)
  }

  lemma AllKeepLargest(before: seq<Shard>, t: Trail, h: Log, after: seq<Shard>, u: Trail, g: Log,
                       hash: string -> nat, cfg: Config)
    requires AllShown(before, t, hash) && AllShown(after, u, hash) && TrailsRun(t, h, cfg) && TrailsRun(u, g, cfg)
    requires Grown(t, h, u, g)
    ensures NoneShrank(before, h, after, g, hash, cfg)
  {
    hide Shown, TrailsRun, Grown, NoLargestShrank;
    forall si | 0 <= si < SHARD_COUNT
      ensures NoLargestShrank(before[si].dayBuckets, h, after[si].dayBuckets, g, hash, si, cfg)
    {
      TrailsKeepLargest(before[si].dayBuckets, t, h, after[si].dayBuckets, u, g, hash, si, cfg);
    }
  }

  /** Total of a key over the days its shard retains. */
  function WindowTotal(h: Log, key: string, hash: string -> nat, cfg: Config): Counter {
    OnDays(h, Last(ActiveDays(h, hash, ShardOf(hash, ClientOf(key))), cfg.windowDays), key)
  }

  function WindowPair(h: Log, kind: Kind, key: string, pair: FlowKey, hash: string -> nat, cfg: Config): Counter {
    PairOnDays(h, kind, Last(ActiveDays(h, hash, ShardOf(hash, ClientOf(key))), cfg.windowDays), key, pair)
  }

  /** The times of a pair's packets on the days its shard retains. */
  function WindowTimes(h: Log, key: string, pair: FlowKey, hash: string -> nat, cfg: Config): seq<int> {
    TimesOnDays(h, Last(ActiveDays(h, hash, ShardOf(hash, ClientOf(key))), cfg.windowDays), key, pair)
  }

  /** The buckets of its shard add up to the window total of a key, its country table too, every
      pair of that table is exact, and no pair of the capped tables exceeds its traffic. */
  lemma ShardTotals(s: Shard, h: Log, hash: string -> nat, si: nat, cfg: Config, key: string)
    requires BucketsInv(s.dayBuckets, h, hash, si, cfg) && ShardOf(hash, ClientOf(key)) == si
    ensures ExactTotal(s.dayBuckets, key) == WindowTotal(h, key, hash, cfg)
    ensures HasTotal(s.dayBuckets, key) <==> WindowTotal(h, key, hash, cfg).packets > 0
    ensures Sum(ExactTable(s.dayBuckets, Country, key)) == WindowTotal(h, key, hash, cfg)
    ensures forall kind, pair | FitsCaps(h, kind, key, hash, cfg) ::
              At(ExactTable(s.dayBuckets, kind, key), pair) == WindowPair(h, kind, key, pair, hash, cfg)
    ensures forall kind, pair ::
              At(ExactTable(s.dayBuckets, kind, key), pair).Within(WindowPair(h, kind, key, pair, hash, cfg))
  {
    hide HasTotal, ExactTotal, ExactTable, Exact, Tracked, Sum, OnDays, PairOnDays, Counter.Within, Tracks, Counts;
    hide FitsCaps, ActiveDays;
    var bs := s.dayBuckets;
    forall i | 0 <= i < |bs|
      ensures KeyInv(bs[i], h, key, cfg)
      ensures At(bs[i].totals, key) == Tally(h, DayTotal(key, bs[i].dayIndex))
      ensures key in bs[i].totals <==> At(bs[i].totals, key).packets > 0
      ensures Sum(Tracks(bs[i], Country, key)) == At(bs[i].totals, key)
      ensures Exact(Tracks(bs[i], Country, key), h, Country, key, bs[i].dayIndex)
      ensures Tracked(Tracks(bs[i], Flow, key), h, Flow, key, bs[i].dayIndex, cfg.maxFlows)
      ensures Tracked(Tracks(bs[i], Entity, key), h, Entity, key, bs[i].dayIndex, cfg.maxEntityFlows)
    {
      assert KeyInv(bs[i], h, key, cfg);
      KeyAddsUp(bs[i], h, key, cfg);
    }
    hide KeyInv;
    TotalFromLog(bs, h, key);
    TablesAddUp(bs, key);
    PresentIffCounted(bs, key);
    forall kind, pair
      ensures At(ExactTable(bs, kind, key), pair).Within(WindowPair(h, kind, key, pair, hash, cfg))
      ensures FitsCaps(h, kind, key, hash, cfg) ==>
                At(ExactTable(bs, kind, key), pair) == WindowPair(h, kind, key, pair, hash, cfg)
    {
      if kind == Country || FitsCaps(h, kind, key, hash, cfg) {
        FitsAll(bs, h, kind, key, hash, cfg);
        TableFromLog(bs, h, kind, key, pair);
        WithinSelf(At(ExactTable(bs, kind, key), pair));
      } else {
        TrackedFromLog(bs, h, kind, key, Cap(cfg, kind), pair);
      }
    }
  }

  /** On no retained day were there more pairs of the key than its table may hold. */
  predicate FitsCaps(h: Log, kind: Kind, key: string, hash: string -> nat, cfg: Config) {
    kind == Country
    || forall day | day in Last(ActiveDays(h, hash, ShardOf(hash, ClientOf(key))), cfg.windowDays) ::
         |Distinct(h, kind, key, day)| <= Cap(cfg, kind)
  }

  lemma FitsAll(bs: seq<DayBucket>, h: Log, kind: Kind, key: string, hash: string -> nat, cfg: Config)
    requires kind == Country || FitsCaps(h, kind, key, hash, cfg)
    requires Days(bs) == Last(ActiveDays(h, hash, ShardOf(hash, ClientOf(key))), cfg.windowDays)
    requires forall i | 0 <= i < |bs| :: Exact(Tracks(bs[i], Country, key), h, Country, key, bs[i].dayIndex)
    requires kind != Country ==>
               forall i | 0 <= i < |bs| :: Tracked(Tracks(bs[i], kind, key), h, kind, key, bs[i].dayIndex,
                                                   Cap(cfg, kind))
    ensures forall i | 0 <= i < |bs| :: Exact(Tracks(bs[i], kind, key), h, kind, key, bs[i].dayIndex)
  {
    hide Exact, Distinct, Tracks, ActiveDays, Last, Sum;
    forall i | 0 <= i < |bs| ensures Exact(Tracks(bs[i], kind, key), h, kind, key, bs[i].dayIndex) {
      assert Days(bs)[i] == bs[i].dayIndex;
    }
  }

  /** When the buckets of its shard have seen a pair. */
  lemma ShardSeen(s: Shard, h: Log, hash: string -> nat, si: nat, cfg: Config, key: string, pair: FlowKey)
    requires BucketsInv(s.dayBuckets, h, hash, si, cfg) && WellFormed(h) && ShardOf(hash, ClientOf(key)) == si
    ensures SeenFor(FirstSeen(s.dayBuckets, key, pair), LastSeen(s.dayBuckets, key, pair),
                    WindowTimes(h, key, pair, hash, cfg), FitsCaps(h, Flow, key, hash, cfg))
  {
    hide Exact, Tracked, Tally, ActiveDays, FlowsSeen, SeenFor, FirstSeen, LastSeen, TimesOnDays, Distinct, Sum;
    var bs := s.dayBuckets;
    ActiveDaysOrdered(h, hash, si);
    forall i | 0 <= i < |bs|
      ensures FlowsSeen(FlowsAt(bs[i].flows, key), h, key, bs[i].dayIndex)
      ensures FitsCaps(h, Flow, key, hash, cfg) ==>
              Exact(Counts(FlowsAt(bs[i].flows, key)), h, Flow, key, bs[i].dayIndex)
    {
      assert KeyInv(bs[i], h, key, cfg);
      assert Days(bs)[i] == bs[i].dayIndex;
      ExactIfFits(Counts(FlowsAt(bs[i].flows, key)), h, Flow, key, bs[i].dayIndex, cfg.maxFlows);
    }
    hide KeyInv, BucketInv, FitsCaps;
    SeenFromLog(bs, h, key, pair, FitsCaps(h, Flow, key, hash, cfg));
  }

  lemma ExactIfFits(m: Table, h: Log, kind: Kind, key: string, day: int, cap: nat)
    requires Tracked(m, h, kind, key, day, cap)
    ensures |Distinct(h, kind, key, day)| <= cap ==> Exact(m, h, kind, key, day)
  {
  }

  lemma WithinSelf(c: Counter)
    ensures c.Within(c)
  {
  }

  lemma KeyAddsUp(b: DayBucket, h: Log, key: string, cfg: Config)
    requires KeyInv(b, h, key, cfg)
    ensures Sum(Tracks(b, Country, key)) == At(b.totals, key) == Tally(h, DayTotal(key, b.dayIndex))
    ensures Exact(Tracks(b, Country, key), h, Country, key, b.dayIndex)
    ensures Tracked(Tracks(b, Flow, key), h, Flow, key, b.dayIndex, cfg.maxFlows)
    ensures Tracked(Tracks(b, Entity, key), h, Entity, key, b.dayIndex, cfg.maxEntityFlows)
    ensures key in b.totals <==> At(b.totals, key).packets > 0
  {
    hide Sum, Tally, Tracked;
  }

  lemma ShardAbsent(s: Shard, h: Log, hash: string -> nat, si: nat, cfg: Config, key: string)
    requires BucketsInv(s.dayBuckets, h, hash, si, cfg) && ShardOf(hash, ClientOf(key)) != si
    ensures !HasTotal(s.dayBuckets, key) && ExactTotal(s.dayBuckets, key) == ZERO
    ensures forall kind, pair :: At(ExactTable(s.dayBuckets, kind, key), pair) == ZERO
    ensures forall pair :: FirstSeen(s.dayBuckets, key, pair) == LastSeen(s.dayBuckets, key, pair) == -1
  {
    hide ExactTable, FirstSeen, LastSeen;
    Absent(s.dayBuckets, key);
    forall pair ensures FirstSeen(s.dayBuckets, key, pair) == LastSeen(s.dayBuckets, key, pair) == -1 {
      NeverSeen(s.dayBuckets, key, pair);
    }
  }

  lemma {:induction false} NeverSeen(bs: seq<DayBucket>, key: string, pair: FlowKey)
    requires forall i | 0 <= i < |bs| :: !HasKey(bs[i], key)
    ensures FirstSeen(bs, key, pair) == LastSeen(bs, key, pair) == -1
  {
    if bs == [] {
    } else {
      NeverSeen(bs[..|bs| - 1], key, pair);
    }
  }

  lemma {:induction false} PresentIffCounted(bs: seq<DayBucket>, key: string)
    requires forall i | 0 <= i < |bs| :: key in bs[i].totals <==> At(bs[i].totals, key).packets > 0
    ensures HasTotal(bs, key) <==> ExactTotal(bs, key).packets > 0
  {
    if bs == [] {
    } else {
      HasTotalStep(bs, key);
      PresentIffCounted(bs[..|bs| - 1], key);
    }
  }

  lemma {:induction false} Absent(bs: seq<DayBucket>, key: string)
    requires forall i | 0 <= i < |bs| :: !HasKey(bs[i], key)
    ensures !HasTotal(bs, key) && ExactTotal(bs, key) == ZERO && forall kind :: ExactTable(bs, kind, key).Keys == {}
  {
    hide Merge, Counter.Plus;
    if bs == [] {
    } else {
      Absent(bs[..|bs| - 1], key);
      PlusZero(ZERO);
    }
  }

  // ----- steps of the store's methods ------------------------------------------------------

  lemma ShardAt(shards: seq<Shard>, h: Log, hash: string -> nat, si: nat, cfg: Config)
    requires AllShards(shards, h, hash, cfg) && si < SHARD_COUNT
    ensures |shards| == SHARD_COUNT && ShardInv(shards[si], h, hash, si, cfg)
  {
  }

  lemma AtCapHere(s: Shard, h: Log, p: Packet, hash: string -> nat, cfg: Config)
    requires ShardInv(s, h, hash, ShardOf(hash, p.client), cfg)
    ensures AtIfaceCap(h, p, cfg)
       <==> p.iface !in IfacesAt(s.clientIfaces, p.client) && |IfacesAt(s.clientIfaces, p.client)| >= cfg.maxIfaces
  {
  }

  lemma UpToLater(h: Log, now: int, later: int)
    requires UpTo(h, now) && now <= later
    ensures UpTo(h, later)
  {
  }

  lemma LoggedRejected(h: Log, p: Packet, sec: int, inbound: bool, cfg: Config)
    requires AtIfaceCap(h, p, cfg)
    ensures Logged(h, p, sec, inbound, cfg) == h + [Rejected(p.client)]
  {
  }

  lemma EmptyShardRight(hash: string -> nat, si: nat, cfg: Config)
    requires cfg.Valid()
    ensures ShardInv(EMPTY_SHARD, [], hash, si, cfg)
  {
  }

  method HasClient(bs: seq<DayBucket>, client: string) returns (found: bool)
    ensures found <==> exists i, k :: 0 <= i < |bs| && k in bs[i].totals && HasPrefix(k, client + "|")
  {
    found := false;
    for i := 0 to |bs|
      invariant found <==> exists j, k :: 0 <= j < i && k in bs[j].totals && HasPrefix(k, client + "|")
    {
      var rest := bs[i].totals.Keys;
      while rest != {} && !found
        invariant rest <= bs[i].totals.Keys
        invariant found <==> exists j, k ::
                               0 <= j <= i && k in bs[j].totals && (j < i || k !in rest) && HasPrefix(k, client + "|")
        decreases rest
      {
        var k :| k in rest;
        if HasPrefix(k, client + "|") {
          assert k in bs[i].totals;
          found := true;
        }
        rest := rest - {k};
      }
      if found {
        break;
      }
    }
  }

  lemma FoundMeansTraffic(s: Shard, h: Log, client: string, hash: string -> nat, cfg: Config)
    requires ShardInv(s, h, hash, ShardOf(hash, client), cfg) && NoBar(client)
    ensures (exists i, k :: 0 <= i < |s.dayBuckets| && k in s.dayBuckets[i].totals && HasPrefix(k, client + "|"))
       <==> (exists key :: ClientOf(key) == client && WindowTotal(h, key, hash, cfg).packets > 0)
  {
    hide IfacesInv, RejectsInv, HistoriesInv, WindowTotal, ExactTotal, ExactTable;
    var bs, si := s.dayBuckets, ShardOf(hash, client);
    if i, k :| 0 <= i < |bs| && k in bs[i].totals && HasPrefix(k, client + "|") {
      KeyBelongs(bs[i], h, k, client, hash, si, cfg);
      ShardTotals(s, h, hash, si, cfg, k);
      assert HasTotal(bs, k);
    }
    if key :| ClientOf(key) == client && WindowTotal(h, key, hash, cfg).packets > 0 {
      ShardTotals(s, h, hash, si, cfg, key);
      var i :| 0 <= i < |bs| && key in bs[i].totals;
      KeyBelongs(bs[i], h, key, client, hash, si, cfg);
    }
  }

  lemma KeyBelongs(b: DayBucket, h: Log, key: string, client: string, hash: string -> nat, si: nat, cfg: Config)
    requires BucketInv(b, h, hash, si, cfg) && key in b.totals && NoBar(client)
    ensures HasPrefix(key, client + "|") <==> ClientOf(key) == client
  {
    assert HasKey(b, key);
    assert KeyInv(b, h, key, cfg);
    CountedKeyHasBar(h, key, b.dayIndex);
    PrefixSelectsClient(key, client);
  }

  // ----- a report taken shard by shard -----------------------------------------------------

  /** A key's country flows add up to its total in 64-bit counters, and exactly so
      whenever the traffic t fits in them. */
  ghost predicate AddsUp(r: Report, key: string, t: Counter) {
    && Sum(TableAt(r.countries, key)).Wrapped() == At(r.totals, key)
    && (t.packets < U64 && t.bytes < U64 ==> Sum(TableAt(r.countries, key)) == At(r.totals, key) == t)
  }

  /** Counters that hold no more than t, in 64 bits. */
  ghost predicate AtMost(c: Counter, t: Counter) {
    exists x: Counter :: x.Within(t) && c == x.Wrapped()
  }

  /** The report holds a key's traffic as of the log h, in 64-bit counters: the total and the country
      flows exactly; of every flow and every pair of entities no more than there was, and exactly that
      unless a table was full; and for every flow the times of its first and last packet, of those that
      the table still counts. */
  ghost predicate Reports(r: Report, key: string, h: Log, hash: string -> nat, cfg: Config) {
    && AddsUp(r, key, WindowTotal(h, key, hash, cfg))
    && (key in r.totals <==> WindowTotal(h, key, hash, cfg).packets > 0)
    && At(r.totals, key) == WindowTotal(h, key, hash, cfg).Wrapped()
    && (forall kind, pair | FitsCaps(h, kind, key, hash, cfg) ::
          At(ReportTable(r, kind, key), pair) == WindowPair(h, kind, key, pair, hash, cfg).Wrapped())
    && (forall kind, pair :: AtMost(At(ReportTable(r, kind, key), pair), WindowPair(h, kind, key, pair, hash, cfg)))
    && (forall pair :: SeenFor(FirstOf(r.flows, key, pair), LastOf(r.flows, key, pair),
                               WindowTimes(h, key, pair, hash, cfg), FitsCaps(h, Flow, key, hash, cfg)))
  }

  ghost predicate Silent(r: Report, key: string) {
    && key !in r.totals && At(r.totals, key) == ZERO
    && (forall kind, pair :: At(ReportTable(r, kind, key), pair) == ZERO)
    && (forall pair :: FirstOf(r.flows, key, pair) == LastOf(r.flows, key, pair) == -1)
  }

  /** The shards before n are reported as each was when it was visited; nothing is
      reported yet for the others. */
  ghost predicate Gathered(r: Report, views: seq<Log>, n: nat, hash: string -> nat, cfg: Config) {
    && |views| == n && NarrowReport(r)
    && forall key ::
         var si := ShardOf(hash, ClientOf(key));
         if si < n then Reports(r, key, views[si], hash, cfg) else Silent(r, key)
  }

  lemma NothingGathered(hash: string -> nat, cfg: Config)
    ensures Gathered(NO_REPORT, [], 0, hash, cfg)
  {
  }

  lemma BucketsOf(s: Shard, h: Log, hash: string -> nat, si: nat, cfg: Config)
    requires ShardInv(s, h, hash, si, cfg)
    ensures BucketsInv(s.dayBuckets, h, hash, si, cfg)
  {
  }

  lemma OwnKeyVisited(acc: Report, s: Shard, r: Report, key: string, h: Log, hash: string -> nat, si: nat, cfg: Config)
    requires BucketsInv(s.dayBuckets, h, hash, si, cfg) && Visited(acc, s.dayBuckets, r)
    requires ShardOf(hash, ClientOf(key)) == si && Silent(acc, key) && WellFormed(h)
    ensures Reports(r, key, h, hash, cfg)
  {
    hide FirstOf, LastOf, SeenFor, WindowTimes, FirstSeen, LastSeen;
    hide BucketsInv, WindowTotal, WindowPair, ExactTotal, ExactTable, HasTotal, NarrowReport, AddsUp, ReportTable,
            AtMost;
    hide FitsCaps;
    hide At, Counter.Within, Counter.Wrapped, Counter.Plus, Sum;
    var bs := s.dayBuckets;
    ShardTotals(s, h, hash, si, cfg, key);
    PlusZero(WindowTotal(h, key, hash, cfg));
    forall kind, pair
      ensures At(ReportTable(r, kind, key), pair) == At(ExactTable(bs, kind, key), pair).Wrapped()
      ensures AtMost(At(ReportTable(r, kind, key), pair), WindowPair(h, kind, key, pair, hash, cfg))
    {
      PlusZero(At(ExactTable(bs, kind, key), pair));
      WrappedAtMost(At(ExactTable(bs, kind, key), pair), WindowPair(h, kind, key, pair, hash, cfg));
    }
    CountriesAddUp(r, key, ExactTable(bs, Country, key), WindowTotal(h, key, hash, cfg));
    forall pair
      ensures SeenFor(FirstOf(r.flows, key, pair), LastOf(r.flows, key, pair),
                      WindowTimes(h, key, pair, hash, cfg), FitsCaps(h, Flow, key, hash, cfg))
    {
      SeenAfterNone(FirstSeen(bs, key, pair), LastSeen(bs, key, pair));
      ShardSeen(s, h, hash, si, cfg, key, pair);
      NoneNegative(bs, key, pair);
    }
  }

  lemma SeenAfterNone(first: int, last: int)
    ensures first >= -1 ==> Sooner(-1, first) == first
    ensures last >= -1 ==> Later(-1, last) == last
  {
  }

  lemma {:induction false} NoneNegative(bs: seq<DayBucket>, key: string, pair: FlowKey)
    ensures FirstSeen(bs, key, pair) >= -1 && LastSeen(bs, key, pair) >= -1
  {
    if bs == [] {
    } else {
      NoneNegative(bs[..|bs| - 1], key, pair);
    }
  }

  lemma WrappedAtMost(x: Counter, t: Counter)
    requires x.Within(t)
    ensures AtMost(x.Wrapped(), t)
  {
  }

  lemma SameAsTable(r: Report, key: string)
    ensures ReportTable(r, Country, key) == TableAt(r.countries, key)
  {
  }

  lemma OtherKeyVisited(acc: Report, s: Shard, r: Report, key: string, h: Log, hash: string -> nat, si: nat,
                        cfg: Config)
    requires BucketsInv(s.dayBuckets, h, hash, si, cfg) && Visited(acc, s.dayBuckets, r) && NarrowReport(acc)
    requires ShardOf(hash, ClientOf(key)) != si
    ensures forall t :: AddsUp(acc, key, t) ==> AddsUp(r, key, t)
    ensures (key in r.totals <==> key in acc.totals) && At(r.totals, key) == At(acc.totals, key)
    ensures forall kind, pair :: At(ReportTable(r, kind, key), pair) == At(ReportTable(acc, kind, key), pair)
    ensures forall pair :: FirstOf(r.flows, key, pair) == FirstOf(acc.flows, key, pair)
    ensures forall pair :: LastOf(r.flows, key, pair) == LastOf(acc.flows, key, pair)
  {
    hide FirstOf, LastOf, FirstSeen, LastSeen;
    hide BucketsInv, ExactTotal, ExactTable, HasTotal, At, TableAt, ReportTable, Counter.Plus, Counter.Wrapped;
    ShardAbsent(s, h, hash, si, cfg, key);
    NarrowAt(acc.totals, key);
    forall kind, pair ensures At(ReportTable(r, kind, key), pair) == At(ReportTable(acc, kind, key), pair) {
      NarrowAt(ReportTable(acc, kind, key), pair);
    }
    SameAsTable(r, key);
    SameAsTable(acc, key);
    SameSum(TableAt(r.countries, key), TableAt(acc.countries, key));
  }

  lemma ShardGathered(acc: Report, views: seq<Log>, s: Shard, r: Report, h: Log, hash: string -> nat, n: nat,
                      cfg: Config)
    requires Gathered(acc, views, n, hash, cfg) && n < SHARD_COUNT
    requires BucketsInv(s.dayBuckets, h, hash, n, cfg) && Visited(acc, s.dayBuckets, r) && WellFormed(h)
    ensures Gathered(r, views + [h], n + 1, hash, cfg)
  {
    hide BucketsInv, WindowTotal, WindowPair, AddsUp, ReportTable, AtMost, FitsCaps;
    hide FirstOf, LastOf, SeenFor, WindowTimes;
    forall key ensures var si := ShardOf(hash, ClientOf(key));
                       if si < n + 1 then Reports(r, key, (views + [h])[si], hash, cfg) else Silent(r, key)
    {
      if ShardOf(hash, ClientOf(key)) == n {
        OwnKeyVisited(acc, s, r, key, h, hash, n, cfg);
      } else {
        OtherKeyVisited(acc, s, r, key, h, hash, n, cfg);
      }
    }
  }

  /** The country flows of the buckets, each taken in 64 bits, add up to the total. */
  lemma CountriesAddUp(r: Report, key: string, exact: Table, total: Counter)
    requires Sum(exact) == total && At(r.totals, key) == total.Wrapped()
    requires forall pair :: At(ReportTable(r, Country, key), pair) == At(exact, pair).Wrapped()
    ensures AddsUp(r, key, total)
  {
    SameAsTable(r, key);
    hide Sum, At, TableAt, ReportTable, Counter.Wrapped;
    var shown := TableAt(r.countries, key);
    SumOfWrapped(shown, exact);
    if total.packets < U64 && total.bytes < U64 {
      forall pair ensures At(shown, pair) == At(exact, pair) {
        PartWithinSum(exact, pair);
        NarrowWraps(At(exact, pair));
      }
      SameSum(shown, exact);
      NarrowWraps(total);
    }
  }

  lemma NarrowWraps(c: Counter)
    requires c.packets < U64 && c.bytes < U64
    ensures c.Wrapped() == c
  {
  }

  lemma PartWithinSum(m: Table, f: FlowKey)
    ensures At(m, f).Within(Sum(m))
  {
    SumSplit(m, f);
  }

  lemma SameSum(a: Table, b: Table)
    requires forall f :: At(a, f) == At(b, f)
    ensures Sum(a) == Sum(b)
  {
    var keys := a.Keys + b.Keys;
    SumOverExtra(keys, a);
    SumOverExtra(keys, b);
    SumOverSame(keys, a, b);
  }

  // ----- the start of the window --------------------------------------------------------------

  function Retained(h: Log, hash: string -> nat, si: nat, cfg: Config): seq<int> {
    Last(ActiveDays(h, hash, si), cfg.windowDays)
  }

  /** The earliest day that any of the shards retained when it was visited. */
  ghost predicate Earliest(day: Option<int>, views: seq<Log>, hash: string -> nat, cfg: Config) {
    match day
    case None => forall si | 0 <= si < |views| :: Retained(views[si], hash, si, cfg) == []
    case Some(d) =>
      && (exists si :: 0 <= si < |views| && d in Retained(views[si], hash, si, cfg))
      && forall si, e | 0 <= si < |views| && e in Retained(views[si], hash, si, cfg) :: d <= e
  }

  lemma NothingRetained(hash: string -> nat, cfg: Config)
    ensures Earliest(None, [], hash, cfg)
  {
  }

  lemma FirstIsEarliest(s: Shard, h: Log, hash: string -> nat, si: nat, cfg: Config)
    requires BucketsInv(s.dayBuckets, h, hash, si, cfg) && WellFormed(h)
    ensures |s.dayBuckets| == |Retained(h, hash, si, cfg)|
    ensures s.dayBuckets != [] ==>
              && s.dayBuckets[0].dayIndex in Retained(h, hash, si, cfg)
              && forall e | e in Retained(h, hash, si, cfg) :: s.dayBuckets[0].dayIndex <= e
  {
    hide AllBuckets, ActiveDays;
    ActiveDaysOrdered(h, hash, si);
    if s.dayBuckets != [] {
      assert Days(s.dayBuckets)[0] == s.dayBuckets[0].dayIndex;
    }
  }

  lemma EarliestStep(day: Option<int>, views: seq<Log>, s: Shard, h: Log, hash: string -> nat, cfg: Config)
    requires Earliest(day, views, hash, cfg) && BucketsInv(s.dayBuckets, h, hash, |views|, cfg) && WellFormed(h)
    ensures Earliest(EarlierFirst(day, s.dayBuckets), views + [h], hash, cfg)
  {
    hide BucketsInv, Retained;
    FirstIsEarliest(s, h, hash, |views|, cfg);
    var (n, vs) := (|views|, views + [h]);
    assert forall si | 0 <= si < n :: vs[si] == views[si];
    assert vs[n] == h;
  }

  function EarlierFirst(day: Option<int>, bs: seq<DayBucket>): Option<int> {
    if bs == [] then day
    else if day.None? || bs[0].dayIndex < day.value then Some(bs[0].dayIndex)
    else day
  }

  // ----- what the invariant means for one shard -------------------------------------------------

  /** How many active days of a shard are later than d. */
  ghost function MoreRecent(h: Log, hash: string -> nat, si: nat, d: int): nat {
    |set e | e in ActiveDays(h, hash, si) && e > d|
  }

  /** The days a shard retains are strictly increasing, at most windowDays, and are
      the active days that fewer than windowDays active days are more recent than. */
  lemma WindowKept(s: Shard, h: Log, hash: string -> nat, si: nat, cfg: Config)
    requires ShardInv(s, h, hash, si, cfg) && WellFormed(h) && cfg.Valid()
    ensures var days := Days(s.dayBuckets);
            && StrictlyIncreasing(days) && |days| <= cfg.windowDays
            && forall d :: d in days <==> Active(h, hash, si, d) && MoreRecent(h, hash, si, d) < cfg.windowDays
  {
    hide ActiveDays, IfacesInv, RejectsInv, HistoriesInv, AllBuckets;
    var active := ActiveDays(h, hash, si);
    ActiveDaysOrdered(h, hash, si);
    forall d
      ensures d in Last(active, cfg.windowDays) <==> d in active && |set e | e in active && e > d| < cfg.windowDays
    {
      LastByRank(active, cfg.windowDays, d);
    }
  }

  /** In every retained bucket each flow and entity table is within its cap, no entry
      exceeds the pair's true traffic of that day, the tracked sum never exceeds the
      total, and the country table adds up to it. */
  lemma NeverOvercounts(s: Shard, h: Log, hash: string -> nat, si: nat, cfg: Config, i: nat, key: string, f: FlowKey)
    requires ShardInv(s, h, hash, si, cfg) && i < |s.dayBuckets| && ShardOf(hash, ClientOf(key)) == si
    ensures var b := s.dayBuckets[i];
            var (flows, entities, total) := (Counts(FlowsAt(b.flows, key)), TableAt(b.entityFlows, key),
                                             At(b.totals, key));
            && total == Tally(h, DayTotal(key, b.dayIndex))
            && |flows| <= cfg.maxFlows && |entities| <= cfg.maxEntityFlows
            && At(flows, f).Within(Tally(h, DaySplit(Flow, key, b.dayIndex, f)))
            && At(entities, f).Within(Tally(h, DaySplit(Entity, key, b.dayIndex, f)))
            && At(TableAt(b.countryFlows, key), f) == Tally(h, DaySplit(Country, key, b.dayIndex, f))
            && Sum(flows).Within(total) && Sum(entities).Within(total) && Sum(TableAt(b.countryFlows, key)) == total
  {
    hide IfacesInv, RejectsInv, HistoriesInv, Sum, Tally, Counts, Days;
    var b := s.dayBuckets[i];
    assert KeyInv(b, h, key, cfg);
    ExactAt(TableAt(b.countryFlows, key), h, Country, key, b.dayIndex, f);
  }

  /** No client has more than maxIfaces registered interfaces; without an overflow
      those are all the interfaces it has data on. */
  lemma IfacesCapped(s: Shard, h: Log, hash: string -> nat, cfg: Config, client: string)
    requires ShardInv(s, h, hash, ShardOf(hash, client), cfg) && WellFormed(h) && NoBar(client)
    ensures |Ifaces(h, client)| <= cfg.maxIfaces
    ensures (forall i | 0 <= i < |h| :: h[i] != Overflow(client)) ==>
              forall iface, day :: Tally(h, DayTotal(CiKey(client, iface), day)).packets > 0 ==>
                  iface in Ifaces(h, client)
  {
    hide BucketsInv, RejectsInv, HistoriesInv, Tally;
    var extra := DataIfacesRegistered(h, client);
  }

  // ----- the store itself ------------------------------------------------------------------

  class Store {
    const cfg: Config
    const hash: string -> nat
    const isLanIP: string -> bool
    var shards: seq<Shard>
    ghost var log: Log
    /** The successive states of every capped table since its client's last reset. */
    ghost var trail: Trail
    var now: int  // the clock: its last reading, never decreasing

    ghost predicate Valid()
      reads this
    {
      && cfg.Valid() && GoodLog(log, now) && AllShards(shards, log, hash, cfg)
      && TrailsRun(trail, log, cfg) && AllShown(shards, trail, hash)
    }

    /** Zero configuration values fall back to usable ones. */
    constructor (windowDays: nat, maxFlows: nat, maxEntityFlows: nat, maxIfaces: nat,
                 hash: string -> nat, isLanIP: string -> bool, now: int)
      ensures Valid() && log == [] && this.hash == hash && this.isLanIP == isLanIP && this.now == now
      ensures cfg.windowDays == if windowDays > 0 then windowDays else 7
      ensures cfg.maxFlows == if maxFlows > 0 then maxFlows else 1
      ensures cfg.maxEntityFlows == if maxEntityFlows > 0 then maxEntityFlows else 1
      ensures cfg.maxIfaces == if maxIfaces > 0 then maxIfaces else 1
    {
      cfg := Config(if windowDays > 0 then windowDays else 7,
                    if maxFlows > 0 then maxFlows else 1,
                    if maxEntityFlows > 0 then maxEntityFlows else 1,
                    if maxIfaces > 0 then maxIfaces else 1);
      this.hash, this.isLanIP := hash, isLanIP;
      shards := seq(SHARD_COUNT, _ => EMPTY_SHARD);
      log, trail, this.now := [], map[], now;
      new;
      NothingTrails(cfg);
      forall si | 0 <= si < SHARD_COUNT ensures ShardInv(shards[si], log, hash, si, cfg) {
        EmptyShardRight(hash, si, cfg);
      }
    }

    method AddPacket(p: Packet, sec: int) returns (r: AddResult)
      requires Valid() && NoBar(p.client) && p.length < U32 && now <= sec
      modifies this
      ensures Valid() && now == sec
      ensures log == Logged(old(log), p, sec, isLanIP(p.dst) && !isLanIP(p.src), cfg) && old(log) <= log
      ensures r == if AtIfaceCap(old(log), p, cfg) then IfaceCapExceeded else AddedPacket
      ensures Grown(old(trail), old(log), trail, log)
      ensures NoneShrank(old(shards), old(log), shards, log, hash, cfg)
    {
      hide ShardInv, AllShards, Logged, AtIfaceCap, AllShown, TrailsRun, Grown, OnlyOf, Shown, NoneShrank;
      var si := ShardOf(hash, p.client);
      var inbound := isLanIP(p.dst) && !isLanIP(p.src);
      ShardAt(shards, log, hash, si, cfg);
      var s := shards[si];
      LoggedGood(log, now, p, sec, inbound, cfg);
      AtCapHere(s, log, p, hash, cfg);
      UpToLater(log, now, sec);
      ShownAt(shards, trail, hash, si);
      ghost var before := shards;
      ghost var after := trail;
      if p.iface !in IfacesAt(s.clientIfaces, p.client) && |IfacesAt(s.clientIfaces, p.client)| >= cfg.maxIfaces {
        ShardRejected(s, log, p.client, hash, si, cfg);
        LoggedRejected(log, p, sec, inbound, cfg);
        RejectedMoves(trail, log, p.client, cfg);
        s := s.(ifaceRejectCount := s.ifaceRejectCount[p.client := RejectsAt(s.ifaceRejectCount, p.client) + 1]);
        r := IfaceCapExceeded;
      } else {
        s, after := CountOnShard(s, p, sec, inbound, cfg, log, hash, si, trail);
        r := AddedPacket;
      }
      shards := shards[si := s];
      OthersKept(before, log, p, sec, inbound, s, hash, cfg);
      OthersShown(before, trail, after, p.client, s, hash);
      AllKeepLargest(before, trail, log, shards, after, Logged(log, p, sec, inbound, cfg), hash, cfg);
      log, trail, now := Logged(log, p, sec, inbound, cfg), after, sec;
    }

    /** What a capped table of a retained day holds and what it has evicted since its client's
        last reset are together the exact total. */
    lemma EvictionsAccounted(i: nat, s: Spot)
      requires Valid() && |shards| == SHARD_COUNT
      requires var bs := shards[ShardOf(hash, ClientOf(s.key))].dayBuckets; i < |bs| && bs[i].dayIndex == s.day
      ensures var b := shards[ShardOf(hash, ClientOf(s.key))].dayBuckets[i];
              && Current(TrailAt(trail, s)) == Tracks(b, s.kind, s.key)
                  && |Tracks(b, s.kind, s.key)| <= Cap(cfg, s.kind)
              && Sum(Tracks(b, s.kind, s.key)).Plus(Evicted(TrailAt(trail, s))) == At(b.totals, s.key)
              && At(b.totals, s.key) == Tally(log, DayTotal(s.key, s.day))
    {
      hide IfacesInv, RejectsInv, HistoriesInv, Sum, Evicted, Tracks, TrailsRun, ShownIn, TrailAt;
      var si := ShardOf(hash, ClientOf(s.key));
      ShardAt(shards, log, hash, si, cfg);
      EvictionAccounted(shards[si].dayBuckets[i], trail, log, hash, si, cfg, s);
      assert KeyInv(shards[si].dayBuckets[i], log, s.key, cfg);
    }

    method GetIfaceRejectCount(client: string) returns (n: nat)
      requires Valid()
      ensures n == Rejections(log, client)
    {
      n := RejectsAt(shards[ShardOf(hash, client)].ifaceRejectCount, client);
      assert ShardInv(shards[ShardOf(hash, client)], log, hash, ShardOf(hash, client), cfg);
    }

    /** Erases one client; found tells whether any retained day had traffic of it. */
    method PurgeClient(client: string) returns (found: bool)
      requires Valid() && NoBar(client)
      modifies this
      ensures Valid() && now == old(now) && log == old(log) + [Purged(client)]
      ensures Grown(old(trail), old(log), trail, log)
      ensures found <==> exists key :: ClientOf(key) == client && WindowTotal(old(log), key, hash, cfg).packets > 0
    {
      hide ShardInv, AllShards, WindowTotal, AllShown, TrailsRun, Grown, OnlyOf, Shown;
      var si := ShardOf(hash, client);
      ShardAt(shards, log, hash, si, cfg);
      var s := shards[si];
      found := HasClient(s.dayBuckets, client);
      FoundMeansTraffic(s, log, client, hash, cfg);
      var r := ResetClientInShard(s, client);
      ShardReset(s, r, log, client, hash, si, cfg);
      OthersPurged(shards, log, client, r, hash, cfg);
      ShownAt(shards, trail, hash, si);
      PurgedTrails(s, r, trail, log, client, hash, cfg);
      OthersShown(shards, trail, Without(trail, client), client, r, hash);
      shards := shards[si := r];
      LogGrows(log, now, Purged(client), now);
      log, trail := log + [Purged(client)], Without(trail, client);
    }

    /** The last `minutes` minutes with traffic, or every reported hour. */
    method SnapshotHistory(client: string, minutes: int, nowSec: int) returns (bucketSeconds: nat, out: seq<Bucket>)
      requires Valid() && now <= nowSec < I64
      ensures minutes > 0 ==>
                var n := if minutes < MINUTE_SLOTS then minutes else MINUTE_SLOTS;
                var last := EpochOf(Minute, nowSec);
                && bucketSeconds == 60
                && out == if NoHistory(log, client) then [] else
                     Phantom(log, client, last - n + 1)
                     + BusyMinutes(log, client, if last + 1 >= n then last + 1 - n else 0, last + 1)
      // But for the one at time 0 these are the minutes with traffic, with what came in them.
      ensures minutes > 0 ==>
                && SoundSpans(out, log, client, 60, nowSec)
                && CompleteSpans(out, log, client, 60, nowSec - 60 * Min(minutes, 1440), nowSec)
      ensures minutes <= 0 ==>
                && SoundSpans(out, log, client, 3600, nowSec)
                && CompleteSpans(out, log, client, 3600, nowSec - 3600 * 168, nowSec)
      ensures minutes <= 0 ==>
                && Ascending(out)
                && (forall b :: b in out <==> HourReported(b, log, client))
                && (NoHistory(log, client) || bucketSeconds == 3600)
    {
      hide BucketsInv, IfacesInv, RejectsInv, RingInv, TrailsRun, AllShown, SoundSpans, CompleteSpans;
      var si := ShardOf(hash, client);
      UpToLater(log, now, nowSec);
      assert ShardInv(shards[si], log, hash, si, cfg);
      assert HistoryInv(shards[si].clientHistory, log, client);
      bucketSeconds, out := 60, [];
      if client !in shards[si].clientHistory {
        NoSpans(log, client, 60, Minute, nowSec - 60 * (if minutes < MINUTE_SLOTS then minutes else MINUTE_SLOTS),
                nowSec);
        NoSpans(log, client, 3600, Hour, nowSec - 3600 * HOUR_SLOTS, nowSec);
        return;
      }
      var ring := shards[si].clientHistory[client];
      if minutes > 0 {
        out := ReadMinutes(ring.minutes, EpochOf(Minute, nowSec),
                           if minutes < MINUTE_SLOTS then minutes else MINUTE_SLOTS, log, client, nowSec);
        MinuteSpans(log, client, nowSec, if minutes < MINUTE_SLOTS then minutes else MINUTE_SLOTS);
      } else {
        bucketSeconds := 3600;
        out := ReadHours(ring.hours, log, client);
        HourSpans(out, log, client, nowSec);
      }
    }

    /** Whatever other threads do between two locks: any packets, any purges. */
    method OtherThreads()
      requires Valid()
      modifies this
      ensures Valid() && old(log) <= log && old(now) <= now
      ensures Grown(old(trail), old(log), trail, log)
      ensures NoneShrank(old(shards), old(log), shards, log, hash, cfg)
    {
      hide AllShards, AllShown, TrailsRun, Grown, NoneShrank, GoodLog, Logged;
      GrownSame(trail, log, log);
      var steps: nat :| 0 <= steps;
      for i := 0 to steps
        invariant Valid() && old(log) <= log && old(now) <= now
        invariant Grown(old(trail), old(log), trail, log)
      {
        ghost var (t, h) := (trail, log);
        var p: Packet := *;
        var sec: int := *;
        var purge: bool := *;
        if NoBar(p.client) {
          if purge {
            var found := PurgeClient(p.client);
            GrownTwice(old(trail), old(log), t, h, trail, log);
          } else if p.length < U32 && now <= sec {
            var r := AddPacket(p, sec);
            GrownTwice(old(trail), old(log), t, h, trail, log);
          }
        }
      }
      AllKeepLargest(old(shards), old(trail), old(log), shards, trail, log, hash, cfg);
    }

    /** Adds up all shards, holding one lock at a time.  Each shard is reported as
        it was at one moment, views[si], and the moments are in order. */
    method TakeSnapshot() returns (r: Report, windowStart: Option<int>, ghost views: seq<Log>)
      requires Valid()
      modifies this
      ensures Valid() && old(log) <= log
      ensures Gathered(r, views, SHARD_COUNT, hash, cfg)
      ensures Earliest(windowStart, views, hash, cfg)
      ensures forall i | 0 <= i < SHARD_COUNT :: old(log) <= views[i] <= log
      ensures forall i, j | 0 <= i < j < SHARD_COUNT :: views[i] <= views[j]
    {
      hide Gathered, Earliest, ShardInv, AllShards, GoodLog, TrailsRun, AllShown, NoneShrank, Grown;
      r, windowStart, views := NO_REPORT, None, [];
      NothingGathered(hash, cfg);
      NothingRetained(hash, cfg);
      for si := 0 to SHARD_COUNT
        invariant Valid() && old(log) <= log
        invariant Gathered(r, views, si, hash, cfg) && |views| == si && NarrowReport(r)
        invariant Earliest(windowStart, views, hash, cfg)
        invariant forall i | 0 <= i < si :: old(log) <= views[i] <= log
        invariant forall i, j | 0 <= i < j < si :: views[i] <= views[j]
      {
        OtherThreads();
        ShardAt(shards, log, hash, si, cfg);
        BucketsOf(shards[si], log, hash, si, cfg);
        var acc := r;
        r := VisitBuckets(acc, shards[si].dayBuckets);
        WellFormedLog(log, now);
        ShardGathered(acc, views, shards[si], r, log, hash, si, cfg);
        EarliestStep(windowStart, views, shards[si], log, hash, cfg);
        windowStart := EarlierFirst(windowStart, shards[si].dayBuckets);
        views := views + [log];
      }
    }
  }
}

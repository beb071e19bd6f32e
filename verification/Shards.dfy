/** One independently locked partition of the store, its four parts, and the
    claim each part makes about the log. */
module Shards {
  import opened Common
  import opened PacketLog
  import opened CounterSums
  import opened FlowTables
  import opened DayBuckets
  import opened HistoryRing

  datatype Shard = Shard(
    dayBuckets: seq<DayBucket>,
    clientIfaces: map<string, set<string>>,
    ifaceRejectCount: map<string, nat>,
    clientHistory: map<string, Ring>)

  const EMPTY_SHARD := Shard([], map[], map[], map[])

  function Days(bs: seq<DayBucket>): seq<int> {
    seq(|bs|, i requires 0 <= i < |bs| => bs[i].dayIndex)
  }

  function IfacesAt(m: map<string, set<string>>, client: string): set<string> {
    if client in m then m[client] else {}
  }

  function RejectsAt(m: map<string, nat>, client: string): nat {
    if client in m then m[client] else 0
  }

  ghost predicate AllBuckets(bs: seq<DayBucket>, h: Log, hash: string -> nat, si: nat, cfg: Config) {
    forall i | 0 <= i < |bs| :: BucketInv(bs[i], h, hash, si, cfg)
  }

  /** The buckets are those of the last windowDays active days of the shard. */
  ghost predicate BucketsInv(bs: seq<DayBucket>, h: Log, hash: string -> nat, si: nat, cfg: Config) {
    Days(bs) == Last(ActiveDays(h, hash, si), cfg.windowDays) && AllBuckets(bs, h, hash, si, cfg)
  }

  ghost predicate IfacesInv(m: map<string, set<string>>, h: Log, hash: string -> nat, si: nat, cfg: Config) {
    forall c | ShardOf(hash, c) == si :: IfacesAt(m, c) == Ifaces(h, c) && |Ifaces(h, c)| <= cfg.maxIfaces
  }

  ghost predicate RejectsInv(m: map<string, nat>, h: Log, hash: string -> nat, si: nat) {
    forall c | ShardOf(hash, c) == si :: RejectsAt(m, c) == Rejections(h, c)
  }

  ghost predicate HistoryInv(m: map<string, Ring>, h: Log, c: string) {
    && (c in m <==> !NoHistory(h, c))
    && (c in m ==> RingInv(m[c].minutes, h, Minute, c) && RingInv(m[c].hours, h, Hour, c))
  }

  ghost predicate HistoriesInv(m: map<string, Ring>, h: Log, hash: string -> nat, si: nat) {
    forall c | ShardOf(hash, c) == si :: HistoryInv(m, h, c)
  }

  ghost predicate ShardInv(s: Shard, h: Log, hash: string -> nat, si: nat, cfg: Config) {
    && BucketsInv(s.dayBuckets, h, hash, si, cfg)
    && IfacesInv(s.clientIfaces, h, hash, si, cfg)
    && RejectsInv(s.ifaceRejectCount, h, hash, si)
    && HistoriesInv(s.clientHistory, h, hash, si)
  }

  // ----- events that do not concern a client -------------------------------------------

  lemma ClientUnaffected(h: Log, e: Event, c: string)
    requires NoBar(EventClient(e)) && EventClient(e) != c
    ensures Ifaces(h + [e], c) == Ifaces(h, c) && Rejections(h + [e], c) == Rejections(h, c)
    ensures forall unit, epoch, inbound ::
              Tally(h + [e], History(unit, c, epoch, inbound)) == Tally(h, History(unit, c, epoch, inbound))
  {
    Append(h, e);
  }

  lemma RingFrame(slots: seq<Slot>, h: Log, g: Log, unit: Unit, c: string)
    requires RingInv(slots, h, unit, c)
    requires forall epoch, inbound ::
               Tally(g, History(unit, c, epoch, inbound)) == Tally(h, History(unit, c, epoch, inbound))
    ensures RingInv(slots, g, unit, c)
  {
    forall epoch: nat ensures SlotOf(g, unit, c, epoch) == SlotOf(h, unit, c, epoch)
                      ensures Traffic(g, unit, c, epoch) == Traffic(h, unit, c, epoch)
    {
    }
  }

  lemma HistoryFrame(m: map<string, Ring>, n: map<string, Ring>, h: Log, g: Log, c: string)
    requires HistoryInv(m, h, c) && (c in m <==> c in n) && (c in m ==> m[c] == n[c])
    requires forall unit, epoch, inbound ::
               Tally(g, History(unit, c, epoch, inbound)) == Tally(h, History(unit, c, epoch, inbound))
    ensures HistoryInv(n, g, c)
  {
    if c in m {
      RingFrame(m[c].minutes, h, g, Minute, c);
      RingFrame(m[c].hours, h, g, Hour, c);
    }
    forall unit, epoch: nat ensures Traffic(g, unit, c, epoch) == Traffic(h, unit, c, epoch) {
    }
    assert NoHistory(g, c) == NoHistory(h, c);
  }

  /** An event of another shard leaves a shard right. */
  lemma OtherShard(s: Shard, h: Log, e: Event, hash: string -> nat, si: nat, cfg: Config)
    requires ShardInv(s, h, hash, si, cfg)
    requires NoBar(EventClient(e)) && ShardOf(hash, EventClient(e)) != si
    ensures ShardInv(s, h + [e], hash, si, cfg)
  {
    Append(h, e);
    forall i | 0 <= i < |s.dayBuckets| ensures BucketInv(s.dayBuckets[i], h + [e], hash, si, cfg) {
      BucketOtherShard(s.dayBuckets[i], h, e, hash, si, cfg);
    }
    assert BucketsInv(s.dayBuckets, h + [e], hash, si, cfg);
    forall c | ShardOf(hash, c) == si
      ensures Ifaces(h + [e], c) == Ifaces(h, c) && Rejections(h + [e], c) == Rejections(h, c)
      ensures HistoryInv(s.clientHistory, h + [e], c)
    {
      ClientUnaffected(h, e, c);
      HistoryFrame(s.clientHistory, s.clientHistory, h, h + [e], c);
    }
  }

  // ----- a rejected packet -----------------------------------------------------------------

  lemma ShardRejected(s: Shard, h: Log, client: string, hash: string -> nat, si: nat, cfg: Config)
    requires ShardInv(s, h, hash, si, cfg)
    ensures ShardInv(s.(ifaceRejectCount := s.ifaceRejectCount[client := RejectsAt(s.ifaceRejectCount, client) + 1]),
                     h + [Rejected(client)], hash, si, cfg)
  {
    var e := Rejected(client);
    Append(h, e);
    forall i | 0 <= i < |s.dayBuckets| ensures BucketInv(s.dayBuckets[i], h + [e], hash, si, cfg) {
      BucketRejected(s.dayBuckets[i], h, e, hash, si, cfg);
    }
    forall c | ShardOf(hash, c) == si ensures HistoryInv(s.clientHistory, h + [e], c) {
      HistoryFrame(s.clientHistory, s.clientHistory, h, h + [e], c);
    }
  }

  // ----- resetting a client -----------------------------------------------------------------

  method ResetClientInShard(s: Shard, client: string) returns (r: Shard)
    ensures |r.dayBuckets| == |s.dayBuckets|
    ensures forall i | 0 <= i < |s.dayBuckets| :: Erased(s.dayBuckets[i], r.dayBuckets[i], client + "|")
    ensures r.clientIfaces == s.clientIfaces - {client}
    ensures r.ifaceRejectCount == s.ifaceRejectCount - {client}
    ensures r.clientHistory == s.clientHistory - {client}
  {
    var bs := s.dayBuckets;
    for i := 0 to |bs|
      invariant |bs| == |s.dayBuckets|
      invariant forall j | 0 <= j < i :: Erased(s.dayBuckets[j], bs[j], client + "|")
      invariant forall j | i <= j < |bs| :: bs[j] == s.dayBuckets[j]
    {
      var b := EraseClient(bs[i], client + "|");
      bs := bs[i := b];
    }
    r := Shard(bs, s.clientIfaces - {client}, s.ifaceRejectCount - {client}, s.clientHistory - {client});
  }

  lemma BucketsReset(bs: seq<DayBucket>, cs: seq<DayBucket>, h: Log, e: Event, client: string,
                     hash: string -> nat, si: nat, cfg: Config)
    requires AllBuckets(bs, h, hash, si, cfg) && Resets(e, client) && NoBar(client)
    requires |cs| == |bs| && forall i | 0 <= i < |bs| :: Erased(bs[i], cs[i], client + "|")
    ensures AllBuckets(cs, h + [e], hash, si, cfg) && Days(cs) == Days(bs)
    ensures ActiveDays(h + [e], hash, si) == ActiveDays(h, hash, si)
  {
    Append(h, e);
    forall i | 0 <= i < |cs| ensures BucketInv(cs[i], h + [e], hash, si, cfg) {
      BucketReset(bs[i], cs[i], h, e, client, hash, si, cfg);
    }
  }

  lemma HistoriesReset(m: map<string, Ring>, h: Log, e: Event, client: string, hash: string -> nat, si: nat)
    requires HistoriesInv(m, h, hash, si) && Resets(e, client) && NoBar(client)
    ensures HistoriesInv(m - {client}, h + [e], hash, si)
  {
    Append(h, e);
    forall c | ShardOf(hash, c) == si ensures HistoryInv(m - {client}, h + [e], c) {
      if c != client {
        HistoryFrame(m, m - {client}, h, h + [e], c);
      } else {
        assert NoHistory(h + [e], c);
      }
    }
  }

  lemma RegistersReset(s: Shard, h: Log, e: Event, client: string, hash: string -> nat, si: nat, cfg: Config)
    requires IfacesInv(s.clientIfaces, h, hash, si, cfg) && RejectsInv(s.ifaceRejectCount, h, hash, si)
    requires Resets(e, client)
    ensures IfacesInv(s.clientIfaces - {client}, h + [e], hash, si, cfg)
    ensures RejectsInv(s.ifaceRejectCount - {client}, h + [e], hash, si)
  {
    Append(h, e);
  }

  lemma ShardReset(s: Shard, r: Shard, h: Log, client: string, hash: string -> nat, si: nat, cfg: Config)
    requires ShardInv(s, h, hash, si, cfg) && NoBar(client)
    requires |r.dayBuckets| == |s.dayBuckets|
    requires forall i | 0 <= i < |s.dayBuckets| :: Erased(s.dayBuckets[i], r.dayBuckets[i], client + "|")
    requires r.clientIfaces == s.clientIfaces - {client} && r.ifaceRejectCount == s.ifaceRejectCount - {client}
    requires r.clientHistory == s.clientHistory - {client}
    ensures ShardInv(r, h + [Purged(client)], hash, si, cfg)
  {
    BucketsReset(s.dayBuckets, r.dayBuckets, h, Purged(client), client, hash, si, cfg);
    HistoriesReset(s.clientHistory, h, Purged(client), client, hash, si);
    RegistersReset(s, h, Purged(client), client, hash, si, cfg);
  }

  // ----- opening the day of a packet, and closing old days ---------------------------------------

  function WithDay(days: seq<int>, day: int): seq<int> {
    if days != [] && days[|days| - 1] == day then days else days + [day]
  }

  /** The last bucket is today's, all buckets are right, and no day of the window
      that the packet opens is missing. */
  ghost predicate OpenDay(bs: seq<DayBucket>, day: int, h: Log, hash: string -> nat, si: nat, cfg: Config) {
    var days := WithDay(ActiveDays(h, hash, si), day);
    && AllBuckets(bs, h, hash, si, cfg)
    && 0 < |bs| <= |days| && bs[|bs| - 1].dayIndex == day
    && Days(bs) == days[|days| - |bs|..]
    && (|bs| < cfg.windowDays ==> |bs| == |days|)
    && StrictlyIncreasing(days)
  }

  lemma LargestLast(days: seq<int>, day: int)
    requires StrictlyIncreasing(days) && days != [] && forall d | d in days :: d <= day
    ensures days[|days| - 1] <= day && forall i | 0 <= i < |days| - 1 :: days[i] < day
  {
    assert days[|days| - 1] in days;
  }

  lemma WithDayIncreases(days: seq<int>, day: int)
    requires StrictlyIncreasing(days) && forall d | d in days :: d <= day
    ensures StrictlyIncreasing(WithDay(days, day))
  {
    if days != [] {
      LargestLast(days, day);
    }
  }

  /** r is the end of all, ends with day, and is all of it if shorter than n. */
  predicate Window(r: seq<int>, all: seq<int>, day: int, n: nat) {
    0 < |r| <= |all| && r[|r| - 1] == day && r == all[|all| - |r|..] && (|r| < n ==> |r| == |all|)
  }

  lemma DayOpened(kept: seq<int>, days: seq<int>, day: int, n: nat)
    requires StrictlyIncreasing(days) && n > 0 && kept == Last(days, n)
    requires forall d | d in days :: d <= day
    ensures StrictlyIncreasing(WithDay(days, day))
    ensures Window(WithDay(kept, day), WithDay(days, day), day, n)
  {
    WithDayIncreases(days, day);
    hide StrictlyIncreasing, Window;
    if days == [] {
      WindowShifts(days, kept, day, n);
    } else {
      LastKept(days, n);
      hide Last;
      if days[|days| - 1] != day {
        WindowShifts(days, kept, day, n);
      }
    }
  }

  lemma LastKept(days: seq<int>, n: nat)
    requires days != [] && n > 0
    ensures var kept := Last(days, n);
            && kept != [] && kept[|kept| - 1] == days[|days| - 1] && Window(kept, days, days[|days| - 1], n)
  {
  }

  lemma WindowShifts(days: seq<int>, kept: seq<int>, day: int, n: nat)
    requires n > 0 && kept == Last(days, n)
    ensures Window(kept + [day], days + [day], day, n)
  {
    assert kept + [day] == (days + [day])[|days| - |kept|..];
  }

  ghost predicate NotAfter(h: Log, day: int) {
    forall i | 0 <= i < |h| && h[i].Accepted? :: DayIndex(h[i].sec) <= day
  }

  lemma DaysNotAfter(h: Log, day: int, hash: string -> nat, si: nat)
    requires WellFormed(h) && NotAfter(h, day)
    ensures StrictlyIncreasing(ActiveDays(h, hash, si))
    ensures forall d | d in ActiveDays(h, hash, si) :: d <= day
  {
    ActiveDaysOrdered(h, hash, si);
    forall d | d in ActiveDays(h, hash, si) ensures d <= day {
      var i :| 0 <= i < |h| && AcceptsOn(h[i], hash, si, d);
    }
  }

  function Opened(bs: seq<DayBucket>, day: int): seq<DayBucket> {
    if |bs| == 0 || bs[|bs| - 1].dayIndex != day then bs + [NewBucket(day)] else bs
  }

  lemma OpenedDays(bs: seq<DayBucket>, day: int)
    ensures Days(Opened(bs, day)) == WithDay(Days(bs), day)
  {
  }

  lemma OpenedRight(bs: seq<DayBucket>, day: int, h: Log, hash: string -> nat, si: nat, cfg: Config)
    requires BucketsInv(bs, h, hash, si, cfg) && cfg.Valid() && WellFormed(h) && NotAfter(h, day)
    ensures AllBuckets(Opened(bs, day), h, hash, si, cfg)
  {
    hide BucketInv, ActiveDays;
    if |bs| == 0 || bs[|bs| - 1].dayIndex != day {
      var days := ActiveDays(h, hash, si);
      DaysNotAfter(h, day, hash, si);
      if day in days {
        DayIsLast(days, day, Days(bs), cfg.windowDays);
        assert false;
      }
      NewBucketRight(day, h, hash, si, cfg);
    }
  }

  /** Today's bucket exists once it has been opened. */
  lemma DayOpens(bs: seq<DayBucket>, day: int, h: Log, hash: string -> nat, si: nat, cfg: Config)
    requires BucketsInv(bs, h, hash, si, cfg) && cfg.Valid() && WellFormed(h) && NotAfter(h, day)
    ensures OpenDay(Opened(bs, day), day, h, hash, si, cfg)
  {
    hide AllBuckets, ActiveDays, Opened, Window, WithDay, Last, Days, StrictlyIncreasing, OpenDay;
    DaysNotAfter(h, day, hash, si);
    DayOpened(Days(bs), ActiveDays(h, hash, si), day, cfg.windowDays);
    OpenedDays(bs, day);
    OpenedRight(bs, day, h, hash, si, cfg);
    OpenByWindow(Opened(bs, day), day, h, hash, si, cfg);
  }

  lemma OpenByWindow(bs: seq<DayBucket>, day: int, h: Log, hash: string -> nat, si: nat, cfg: Config)
    requires AllBuckets(bs, h, hash, si, cfg)
    requires var days := WithDay(ActiveDays(h, hash, si), day);
             StrictlyIncreasing(days) && Window(Days(bs), days, day, cfg.windowDays)
    ensures OpenDay(bs, day, h, hash, si, cfg)
  {
    hide AllBuckets, ActiveDays, WithDay, StrictlyIncreasing;
    assert Days(bs)[|bs| - 1] == bs[|bs| - 1].dayIndex;
  }

  lemma DayIsLast(days: seq<int>, day: int, kept: seq<int>, n: nat)
    requires StrictlyIncreasing(days) && day in days && (forall d | d in days :: d <= day)
    requires n > 0 && kept == Last(days, n)
    ensures kept != [] && kept[|kept| - 1] == day
  {
    var i :| 0 <= i < |days| && days[i] == day;
    assert days[|days| - 1] in days;
  }

  method CloseOldDays(bs: seq<DayBucket>, windowDays: nat) returns (r: seq<DayBucket>)
    ensures r == if |bs| <= windowDays then bs else bs[|bs| - windowDays..]
  {
    r := bs;
    while |r| > windowDays
      invariant |r| <= |bs| && r == bs[|bs| - |r|..]
      invariant |r| < windowDays ==> r == bs
    {
      r := r[1..];
    }
  }

  // ----- an accepted packet -------------------------------------------------------------------------

  /** Today's bucket counts the packet; every other bucket is of another day. */
  lemma BucketsCounted(bs: seq<DayBucket>, h: Log, e: Event, hash: string -> nat, si: nat, cfg: Config,
                       flowRoom: map<FlowKey, FlowStats>, entityRoom: Table)
    requires e.Accepted? && NoBar(e.packet.client) && ShardOf(hash, e.packet.client) == si && cfg.Valid()
    requires OpenDay(bs, DayIndex(e.sec), h, hash, si, cfg)
    requires var b, key := bs[|bs| - 1], CiKey(e.packet.client, e.packet.iface);
             && FlowRoom(FlowsAt(b.flows, key), flowRoom, PairOf(Flow, e.packet), cfg.maxFlows)
             && Room(TableAt(b.entityFlows, key), entityRoom, PairOf(Entity, e.packet), cfg.maxEntityFlows)
             && At(b.totals, key).packets + 1 < U64 && At(b.totals, key).bytes + e.packet.length < U64
    ensures var cs := bs[|bs| - 1 := Counted(bs[|bs| - 1], e.packet, e.sec, flowRoom, entityRoom)];
            && AllBuckets(cs, h + [e], hash, si, cfg) && Days(cs) == Days(bs)
    ensures ActiveDays(h + [e], hash, si) == WithDay(ActiveDays(h, hash, si), DayIndex(e.sec))
  {
    hide BucketInv, Counted, Room, ActiveDays;
    DayAccepted(h, e, hash, si);
    BucketCounted(bs[|bs| - 1], h, e, hash, si, cfg, flowRoom, entityRoom);
    OlderBuckets(bs, h, e, hash, si, cfg);
    LastReplaced(bs, Counted(bs[|bs| - 1], e.packet, e.sec, flowRoom, entityRoom));
  }

  lemma DayAccepted(h: Log, e: Event, hash: string -> nat, si: nat)
    requires e.Accepted? && ShardOf(hash, e.packet.client) == si
    ensures ActiveDays(h + [e], hash, si) == WithDay(ActiveDays(h, hash, si), DayIndex(e.sec))
  {
    Append(h, e);
  }

  lemma LastReplaced(bs: seq<DayBucket>, b: DayBucket)
    requires bs != []
    ensures b.dayIndex == bs[|bs| - 1].dayIndex ==> Days(bs[|bs| - 1 := b]) == Days(bs)
  {
  }

  lemma OlderBuckets(bs: seq<DayBucket>, h: Log, e: Event, hash: string -> nat, si: nat, cfg: Config)
    requires e.Accepted? && OpenDay(bs, DayIndex(e.sec), h, hash, si, cfg)
    ensures forall i | 0 <= i < |bs| - 1 :: BucketInv(bs[i], h + [e], hash, si, cfg)
  {
    hide BucketInv, ActiveDays;
    forall i | 0 <= i < |bs| - 1 ensures BucketInv(bs[i], h + [e], hash, si, cfg) {
      EarlierDay(bs, WithDay(ActiveDays(h, hash, si), DayIndex(e.sec)), i);
      BucketOtherDay(bs[i], h, e, hash, si, cfg);
    }
  }

  lemma EarlierDay(bs: seq<DayBucket>, days: seq<int>, i: nat)
    requires StrictlyIncreasing(days) && |bs| <= |days| && Days(bs) == days[|days| - |bs|..] && i < |bs| - 1
    ensures bs[i].dayIndex < bs[|bs| - 1].dayIndex
  {
    assert Days(bs)[i] == days[|days| - |bs| + i];
    assert Days(bs)[|bs| - 1] == days[|days| - 1];
  }

  lemma WindowClosed(cs: seq<DayBucket>, rs: seq<DayBucket>, days: seq<int>, g: Log, hash: string -> nat, si: nat,
                     cfg: Config)
    requires AllBuckets(cs, g, hash, si, cfg) && ActiveDays(g, hash, si) == days
    requires 0 < |cs| <= |days| && Days(cs) == days[|days| - |cs|..] && (|cs| < cfg.windowDays ==> |cs| == |days|)
    requires rs == if |cs| <= cfg.windowDays then cs else cs[|cs| - cfg.windowDays..]
    ensures BucketsInv(rs, g, hash, si, cfg)
  {
    hide BucketInv, ActiveDays;
    DropDays(cs, if |cs| > cfg.windowDays then |cs| - cfg.windowDays else 0);
    assert AllBuckets(rs, g, hash, si, cfg);
    hide AllBuckets, Days;
    LastOfEnd(days, |cs|, cfg.windowDays);
  }

  lemma DropDays(bs: seq<DayBucket>, n: nat)
    requires n <= |bs|
    ensures Days(bs[n..]) == Days(bs)[n..] && |Days(bs)| == |bs| && bs[0..] == bs && Days(bs)[0..] == Days(bs)
  {
  }

  lemma LastOfEnd(days: seq<int>, k: nat, n: nat)
    requires k <= |days| && (k < n ==> k == |days|)
    ensures (if k > n then days[|days| - k..][k - n..] else days[|days| - k..]) == Last(days, n)
  {
  }

  lemma HistoriesCounted(m: map<string, Ring>, h: Log, e: Event, hash: string -> nat, si: nat)
    requires HistoriesInv(m, h, hash, si) && e.Accepted? && NoBar(e.packet.client) && UpTo(h, e.sec)
    requires ShardOf(hash, e.packet.client) == si
    ensures var ring := if e.packet.client in m then m[e.packet.client] else NEW_RING;
            && |ring.minutes| == MINUTE_SLOTS && |ring.hours| == HOUR_SLOTS
            && HistoriesInv(m[e.packet.client := Recorded(ring, e.sec, e.inbound, e.packet.length)], h + [e], hash, si)
  {
    var client := e.packet.client;
    var ring := if client in m then m[client] else NEW_RING;
    if client !in m {
      NewRing(h, Minute, client);
      NewRing(h, Hour, client);
    }
    var after := m[client := Recorded(ring, e.sec, e.inbound, e.packet.length)];
    forall c | ShardOf(hash, c) == si ensures HistoryInv(after, h + [e], c) {
      if c == client {
        TrafficStep(h, e, Minute, EpochOf(Minute, e.sec));
        RecordStep(ring.minutes, h, e, Minute);
        RecordStep(ring.hours, h, e, Hour);
      } else {
        ClientUnaffected(h, e, c);
        HistoryFrame(m, after, h, h + [e], c);
      }
    }
  }

  function Recorded(ring: Ring, sec: int, inbound: bool, length: nat): Ring
    requires |ring.minutes| == MINUTE_SLOTS && |ring.hours| == HOUR_SLOTS
  {
    Ring(Record(ring.minutes, EpochOf(Minute, sec), inbound, length),
         Record(ring.hours, EpochOf(Hour, sec), inbound, length))
  }

  lemma RegistersCounted(s: Shard, h: Log, e: Event, hash: string -> nat, si: nat, cfg: Config)
    requires IfacesInv(s.clientIfaces, h, hash, si, cfg) && RejectsInv(s.ifaceRejectCount, h, hash, si)
    requires e.Accepted? && NoBar(e.packet.client) && ShardOf(hash, e.packet.client) == si
    requires h == [] || !h[|h| - 1].Overflow?
    requires e.packet.iface in IfacesAt(s.clientIfaces, e.packet.client)
            || |IfacesAt(s.clientIfaces, e.packet.client)| < cfg.maxIfaces
    ensures IfacesInv(Registered(s.clientIfaces, e.packet), h + [e], hash, si, cfg)
    ensures RejectsInv(s.ifaceRejectCount, h + [e], hash, si)
  {
    Append(h, e);
    var client := e.packet.client;
    assert |h| > 0 ==> (h + [e])[|h| - 1] == h[|h| - 1];
    forall c | ShardOf(hash, c) == si
      ensures IfacesAt(Registered(s.clientIfaces, e.packet), c) == Ifaces(h + [e], c)
              && |Ifaces(h + [e], c)| <= cfg.maxIfaces
    {
      if c != client {
        ClientUnaffected(h, e, c);
      } else if e.packet.iface in Ifaces(h, c) {
        assert Ifaces(h, c) + {e.packet.iface} == Ifaces(h, c);
      }
    }
  }

  function Registered(m: map<string, set<string>>, p: Packet): map<string, set<string>> {
    if p.iface in IfacesAt(m, p.client) then m else m[p.client := IfacesAt(m, p.client) + {p.iface}]
  }

  /** After an overflow the registration of the packet's interface is gone. */
  lemma RegistersOverflowed(s: Shard, h: Log, e: Event, hash: string -> nat, si: nat, cfg: Config)
    requires IfacesInv(s.clientIfaces, h, hash, si, cfg) && RejectsInv(s.ifaceRejectCount, h, hash, si)
    requires e.Accepted? && NoBar(e.packet.client)
    ensures IfacesInv(Registered(s.clientIfaces, e.packet) - {e.packet.client}, h + [Overflow(e.packet.client)] + [e],
                      hash, si, cfg)
    ensures RejectsInv(s.ifaceRejectCount - {e.packet.client}, h + [Overflow(e.packet.client)] + [e], hash, si)
  {
    var client := e.packet.client;
    var g := h + [Overflow(client)];
    Append(h, Overflow(client));
    Append(g, e);
    RegistersReset(s, h, Overflow(client), client, hash, si, cfg);
    assert (g + [e])[|g| - 1] == Overflow(client);
    forall c | ShardOf(hash, c) == si
      ensures IfacesAt(Registered(s.clientIfaces, e.packet) - {client}, c) == Ifaces(g + [e], c)
              && |Ifaces(g + [e], c)| <= cfg.maxIfaces
      ensures Rejections(g + [e], c) == Rejections(g, c)
    {
      if c != client {
        ClientUnaffected(g, e, c);
        assert IfacesAt(s.clientIfaces - {client}, c) == Ifaces(g, c);
      }
    }
  }
}

/** The successive states of every flow and entity table: runs of the packets that the log
    has for them since their client's last reset. */
module TableTrails {
  import opened PacketLog
  import opened CounterSums
  import opened FlowTables
  import opened DayBuckets
  import opened Shards

  datatype AnySpot = AnySpot(kind: Kind, key: string, day: int)

  /** Where a capped table is; country tables have no cap. */
  type Spot = s: AnySpot | s.kind != Country witness AnySpot(Flow, "", 0)

  /** The packets a table has been offered since its client's last reset. */
  function Offers(h: Log, s: Spot): seq<Counting> {
    if h == [] then [] else
      var rest := Offers(h[..|h| - 1], s);
      match h[|h| - 1]
      case Accepted(p, sec, inbound) =>
        if Matches(DayTotal(s.key, s.day), p, sec, inbound)
        then rest + [Counting(PairOf(s.kind, p), p.length)] else rest
      case Rejected(_) => rest
      case Purged(x) => if x == ClientOf(s.key) then [] else rest
      case Overflow(x) => if x == ClientOf(s.key) then [] else rest
  }

  /** They are the traffic of the table's day. */
  lemma {:induction false} OffersTotal(h: Log, s: Spot)
    ensures Offered(Offers(h, s)) == Tally(h, DayTotal(s.key, s.day))
    ensures |Offers(h, s)| == Tally(h, DayTotal(s.key, s.day)).packets
  {
    if h == [] {
    } else {
      var n := |h| - 1;
      OffersTotal(h[..n], s);
      if h[n].Accepted? {
        var rest, c := Offers(h[..n], s), Counting(PairOf(s.kind, h[n].packet), h[n].packet.length);
        assert (rest + [c])[..|rest|] == rest;
      }
    }
  }

  type Trail = map<Spot, seq<Table>>

  function TrailAt(t: Trail, s: Spot): (ts: seq<Table>)
    ensures ts != []
  {
    if s in t && t[s] != [] then t[s] else [map[]]
  }

  function Current(ts: seq<Table>): Table
    requires ts != []
  {
    ts[|ts| - 1]
  }

  ghost predicate Runs(t: Trail, h: Log, cfg: Config, s: Spot) {
    TableRun(TrailAt(t, s), Offers(h, s), Cap(cfg, s.kind))
  }

  /** Every trail is a run of its table's offers. */
  ghost predicate TrailsRun(t: Trail, h: Log, cfg: Config) {
    forall s: Spot :: Runs(t, h, cfg, s)
  }

  /** The bucket's tables are where their trails have got to. */
  ghost predicate ShownIn(b: DayBucket, t: Trail, hash: string -> nat, si: nat) {
    forall s: Spot | s.day == b.dayIndex && ShardOf(hash, ClientOf(s.key)) == si ::
      Tracks(b, s.kind, s.key) == Current(TrailAt(t, s))
  }

  ghost predicate Shown(bs: seq<DayBucket>, t: Trail, hash: string -> nat, si: nat) {
    forall i | 0 <= i < |bs| :: ShownIn(bs[i], t, hash, si)
  }

  function Without(t: Trail, client: string): Trail {
    map s | s in t && ClientOf(s.key) != client :: t[s]
  }

  function Extended(t: Trail, s: Spot, m: Table): Trail {
    t[s := TrailAt(t, s) + [m]]
  }

  // ----- events ------------------------------------------------------------------------------

  lemma StartRuns(cap: nat)
    ensures TableRun([map[]], [], cap)
  {
  }

  lemma NothingTrails(cfg: Config)
    ensures TrailsRun(map[], [], cfg)
  {
    forall s: Spot ensures Runs(map[], [], cfg, s) {
      StartRuns(Cap(cfg, s.kind));
    }
  }

  lemma OffersStep(h: Log, e: Event, s: Spot)
    ensures e.Rejected? ==> Offers(h + [e], s) == Offers(h, s)
    ensures Resets(e, ClientOf(s.key)) ==> Offers(h + [e], s) == []
    ensures NoBar(EventClient(e)) && EventClient(e) != ClientOf(s.key) ==> Offers(h + [e], s) == Offers(h, s)
    ensures e.Accepted? ==>
              Offers(h + [e], s)
              == Offers(h, s) + if Matches(DayTotal(s.key, s.day), e.packet, e.sec, e.inbound)
                                then [Counting(PairOf(s.kind, e.packet), e.packet.length)] else []
  {
    assert (h + [e])[..|h|] == h;
    if e.Accepted? && NoBar(e.packet.client) {
      ClientOfKey(e.packet.client, e.packet.iface);
    }
  }

  lemma RejectedTrails(t: Trail, h: Log, e: Event, cfg: Config)
    requires TrailsRun(t, h, cfg) && e.Rejected?
    ensures TrailsRun(t, h + [e], cfg)
  {
    hide TableRun;
    forall s: Spot ensures Runs(t, h + [e], cfg, s) {
      OffersStep(h, e, s);
      assert Runs(t, h, cfg, s);
    }
  }

  lemma ResetTrails(t: Trail, h: Log, e: Event, client: string, cfg: Config)
    requires TrailsRun(t, h, cfg) && Resets(e, client) && NoBar(client)
    ensures TrailsRun(Without(t, client), h + [e], cfg)
  {
    hide TableRun;
    forall s: Spot ensures Runs(Without(t, client), h + [e], cfg, s) {
      OffersStep(h, e, s);
      StartRuns(Cap(cfg, s.kind));
      assert Runs(t, h, cfg, s);
    }
  }

  lemma RunGrows(ts: seq<Table>, ps: seq<Counting>, m: Table, c: Counting, cap: nat)
    requires TableRun(ts, ps, cap) && TableStep(Current(ts), m, c, cap)
    ensures TableRun(ts + [m], ps + [c], cap)
  {
    hide TableStep;
    forall i | 0 <= i < |ps| + 1 ensures TableStep((ts + [m])[i], (ts + [m])[i + 1], (ps + [c])[i], cap) {
    }
  }

  /** The trail after a packet left these flow and entity tables. */
  function AfterPacket(t: Trail, p: Packet, day: int, flows: Table, entities: Table): Trail {
    var key := CiKey(p.client, p.iface);
    Extended(Extended(t, AnySpot(Flow, key, day), flows), AnySpot(Entity, key, day), entities)
  }

  lemma TrailAfter(t: Trail, p: Packet, day: int, flows: Table, entities: Table, s: Spot)
    ensures TrailAt(AfterPacket(t, p, day, flows, entities), s)
         == TrailAt(t, s) + if s.key == CiKey(p.client, p.iface) && s.day == day
                            then [if s.kind == Flow then flows else entities] else []
  {
  }

  lemma AcceptedTrails(t: Trail, h: Log, e: Event, flows: Table, entities: Table, cfg: Config)
    requires TrailsRun(t, h, cfg) && e.Accepted?
    requires var (p, day) := (e.packet, DayIndex(e.sec));
             var (f, n) := (AnySpot(Flow, CiKey(p.client, p.iface), day),
                            AnySpot(Entity, CiKey(p.client, p.iface), day));
             && TableStep(Current(TrailAt(t, f)), flows, Counting(PairOf(Flow, p), p.length), cfg.maxFlows)
             && TableStep(Current(TrailAt(t, n)), entities, Counting(PairOf(Entity, p), p.length), cfg.maxEntityFlows)
    ensures TrailsRun(AfterPacket(t, e.packet, DayIndex(e.sec), flows, entities), h + [e], cfg)
  {
    hide TableRun, TableStep, AfterPacket, Offers;
    var (p, day) := (e.packet, DayIndex(e.sec));
    forall s: Spot ensures Runs(AfterPacket(t, p, day, flows, entities), h + [e], cfg, s) {
      OffersStep(h, e, s);
      TrailAfter(t, p, day, flows, entities, s);
      assert Runs(t, h, cfg, s);
      if s.key == CiKey(p.client, p.iface) && s.day == day {
        RunGrows(TrailAt(t, s), Offers(h, s), if s.kind == Flow then flows else entities,
                 Counting(PairOf(s.kind, p), p.length), Cap(cfg, s.kind));
      } else {
        assert TrailAt(t, s) + [] == TrailAt(t, s) && Offers(h, s) + [] == Offers(h, s);
      }
    }
  }

  // ----- buckets -------------------------------------------------------------------------------

  /** A key that a bucket does not have has no trail on that day. */
  lemma AbsentShown(b: DayBucket, t: Trail, h: Log, cfg: Config, s: Spot)
    requires KeyInv(b, h, s.key, cfg) && !HasKey(b, s.key) && TrailsRun(t, h, cfg) && s.day == b.dayIndex
    ensures Tracks(b, s.kind, s.key) == Current(TrailAt(t, s)) == map[]
  {
    hide Tracked, Exact;
    OffersTotal(h, s);
    assert Runs(t, h, cfg, s);
    assert Counts(map[]) == map[];
  }

  lemma NewBucketShown(day: int, t: Trail, h: Log, hash: string -> nat, si: nat, cfg: Config)
    requires BucketInv(NewBucket(day), h, hash, si, cfg) && TrailsRun(t, h, cfg)
    ensures ShownIn(NewBucket(day), t, hash, si)
  {
    hide KeyInv, TrailsRun, Current, TrailAt, Tracks;
    forall s: Spot | s.day == day && ShardOf(hash, ClientOf(s.key)) == si
      ensures Tracks(NewBucket(day), s.kind, s.key) == Current(TrailAt(t, s))
    {
      assert KeyInv(NewBucket(day), h, s.key, cfg);
      AbsentShown(NewBucket(day), t, h, cfg, s);
    }
  }

  lemma OpenedShown(bs: seq<DayBucket>, day: int, t: Trail, h: Log, hash: string -> nat, si: nat, cfg: Config)
    requires OpenDay(Opened(bs, day), day, h, hash, si, cfg) && Shown(bs, t, hash, si) && TrailsRun(t, h, cfg)
    ensures Shown(Opened(bs, day), t, hash, si)
  {
    hide BucketInv, ShownIn, ActiveDays, WithDay, TrailsRun;
    var cs := Opened(bs, day);
    if |cs| > |bs| {
      assert cs[|bs|] == NewBucket(day);
      NewBucketShown(day, t, h, hash, si, cfg);
    }
  }

  lemma TracksSame(b: DayBucket, c: DayBucket, kind: Kind, key: string)
    requires SameCell(b, c, key)
    ensures Tracks(b, kind, key) == Tracks(c, kind, key)
  {
  }

  /** b is right for h, and c is b without the client, right for h with the reset in it. */
  lemma ErasedShown(b: DayBucket, c: DayBucket, t: Trail, h: Log, e: Event, client: string,
                    hash: string -> nat, si: nat, cfg: Config)
    requires BucketInv(b, h, hash, si, cfg) && Erased(b, c, client + "|") && Resets(e, client) && NoBar(client)
    requires ShownIn(b, t, hash, si) && TrailsRun(t, h, cfg)
    ensures ShownIn(c, Without(t, client), hash, si)
  {
    BucketReset(b, c, h, e, client, hash, si, cfg);
    ResetTrails(t, h, e, client, cfg);
    var u := Without(t, client);
    hide KeyInv, TrailsRun, Tracks, HasKey, Erased, Current, HasPrefix, Without;
    forall s: Spot | s.day == c.dayIndex && ShardOf(hash, ClientOf(s.key)) == si
      ensures Tracks(c, s.kind, s.key) == Current(TrailAt(u, s))
    {
      assert KeyInv(b, h, s.key, cfg) && KeyInv(c, h + [e], s.key, cfg);
      ErasedKey(b, c, s.key, client + "|");
      if HasKey(c, s.key) {
        KeptKey(b, c, h, e, s.key, client, cfg);
        TracksSame(b, c, s.kind, s.key);
        KeptTrail(t, client, s);
      } else {
        AbsentShown(c, u, h + [e], cfg, s);
      }
    }
  }

  lemma KeptTrail(t: Trail, client: string, s: Spot)
    requires ClientOf(s.key) != client
    ensures TrailAt(Without(t, client), s) == TrailAt(t, s)
  {
  }

  lemma KeptKey(b: DayBucket, c: DayBucket, h: Log, e: Event, key: string, client: string, cfg: Config)
    requires Erased(b, c, client + "|") && KeyInv(c, h + [e], key, cfg) && HasKey(c, key) && Resets(e, client)
    requires NoBar(client)
    ensures ClientOf(key) != client && SameCell(b, c, key) && c.dayIndex == b.dayIndex
  {
    hide KeyInv, Erased, HasKey, SameCell, HasPrefix, ClientOf, Tally, NoBar;
    ErasedKey(b, c, key, client + "|");
    CountedHere(c, h + [e], key, cfg);
    if ClientOf(key) == client {
      NothingCounted(h, e, client, key, c.dayIndex);
    }
  }

  lemma AllErasedShown(bs: seq<DayBucket>, cs: seq<DayBucket>, t: Trail, h: Log, e: Event, client: string,
                       hash: string -> nat, si: nat, cfg: Config)
    requires AllBuckets(bs, h, hash, si, cfg) && Resets(e, client) && NoBar(client)
    requires |cs| == |bs| && forall i | 0 <= i < |bs| :: Erased(bs[i], cs[i], client + "|")
    requires Shown(bs, t, hash, si) && TrailsRun(t, h, cfg)
    ensures Shown(cs, Without(t, client), hash, si)
  {
    hide BucketInv, Erased, ShownIn, TrailsRun, Without;
    forall i | 0 <= i < |cs| ensures ShownIn(cs[i], Without(t, client), hash, si) {
      ErasedShown(bs[i], cs[i], t, h, e, client, hash, si, cfg);
    }
  }

  /** Counting a packet takes today's tables one step on. */
  lemma CountedShown(b: DayBucket, p: Packet, sec: int, flowRoom: map<FlowKey, FlowStats>, entityRoom: Table,
                     t: Trail, hash: string -> nat, si: nat)
    returns (flows: Table, entities: Table)
    requires ShownIn(b, t, hash, si)
    ensures flows == Bump(Counts(flowRoom), PairOf(Flow, p), p.length)
    ensures entities == Bump(entityRoom, PairOf(Entity, p), p.length)
    ensures ShownIn(Counted(b, p, sec, flowRoom, entityRoom), AfterPacket(t, p, b.dayIndex, flows, entities), hash, si)
  {
    var key := CiKey(p.client, p.iface);
    var c := Counted(b, p, sec, flowRoom, entityRoom);
    flows, entities := Bump(Counts(flowRoom), PairOf(Flow, p), p.length), Bump(entityRoom, PairOf(Entity, p), p.length);
    HereCounted(b, p, sec, flowRoom, entityRoom);
    hide Counted, AfterPacket, Tracks, Bump, TrailAt, Counts;
    forall s: Spot | s.day == c.dayIndex && ShardOf(hash, ClientOf(s.key)) == si
      ensures Tracks(c, s.kind, s.key) == Current(TrailAt(AfterPacket(t, p, b.dayIndex, flows, entities), s))
    {
      TrailAfter(t, p, b.dayIndex, flows, entities, s);
      if s.key != key {
        CountedElsewhere(b, p, sec, flowRoom, entityRoom, s.key);
        TracksSame(b, c, s.kind, s.key);
      }
    }
  }

  lemma HereCounted(b: DayBucket, p: Packet, sec: int, flowRoom: map<FlowKey, FlowStats>, entityRoom: Table)
    ensures var (c, key) := (Counted(b, p, sec, flowRoom, entityRoom), CiKey(p.client, p.iface));
            && Tracks(c, Flow, key) == Bump(Counts(flowRoom), PairOf(Flow, p), p.length)
            && Tracks(c, Entity, key) == Bump(entityRoom, PairOf(Entity, p), p.length)
  {
    CountsTouch(flowRoom, PairOf(Flow, p), p.length, sec);
    hide Bump, Touch, StatsAt;
  }

  lemma OtherDayShown(b: DayBucket, t: Trail, p: Packet, day: int, flows: Table, entities: Table,
                      hash: string -> nat, si: nat)
    requires ShownIn(b, t, hash, si) && b.dayIndex != day
    ensures ShownIn(b, AfterPacket(t, p, day, flows, entities), hash, si)
  {
    hide AfterPacket, Tracks, TrailAt;
    forall s: Spot | s.day == b.dayIndex && ShardOf(hash, ClientOf(s.key)) == si
      ensures Tracks(b, s.kind, s.key) == Current(TrailAt(AfterPacket(t, p, day, flows, entities), s))
    {
      TrailAfter(t, p, day, flows, entities, s);
    }
  }

  /** The buckets of other shards hold nothing of the client. */
  lemma OtherShardShown(bs: seq<DayBucket>, t: Trail, u: Trail, client: string, hash: string -> nat, si: nat)
    requires Shown(bs, t, hash, si) && ShardOf(hash, client) != si && OnlyOf(t, u, client)
    ensures Shown(bs, u, hash, si)
  {
    hide Tracks, TrailAt;
    forall i | 0 <= i < |bs| ensures ShownIn(bs[i], u, hash, si) {
      assert ShownIn(bs[i], t, hash, si);
    }
  }

  // ----- how trails move -----------------------------------------------------------------------

  /** Nothing but the client's trails has changed. */
  ghost predicate OnlyOf(t: Trail, u: Trail, client: string) {
    forall s: Spot | ClientOf(s.key) != client :: TrailAt(u, s) == TrailAt(t, s)
  }

  ghost predicate Unreset(h: Log, g: Log, client: string) {
    h <= g && forall i | |h| <= i < |g| :: !Resets(g[i], client)
  }

  /** As long as a client is not reset, its tables go on from where they were. */
  ghost predicate Grown(t: Trail, h: Log, u: Trail, g: Log) {
    forall s: Spot | Unreset(h, g, ClientOf(s.key)) :: TrailAt(t, s) <= TrailAt(u, s)
  }

  lemma GrownSame(t: Trail, h: Log, g: Log)
    ensures Grown(t, h, t, g)
  {
  }

  lemma GrownTwice(t: Trail, h: Log, u: Trail, g: Log, v: Trail, k: Log)
    requires Grown(t, h, u, g) && Grown(u, g, v, k) && h <= g <= k
    ensures Grown(t, h, v, k)
  {
    hide TrailAt;
    forall s: Spot | Unreset(h, k, ClientOf(s.key)) ensures TrailAt(t, s) <= TrailAt(v, s) {
      UnresetParts(h, g, k, ClientOf(s.key));
      assert TrailAt(t, s) <= TrailAt(u, s) && TrailAt(u, s) <= TrailAt(v, s);
    }
  }

  lemma UnresetParts(h: Log, g: Log, k: Log, client: string)
    requires h <= g <= k && Unreset(h, k, client)
    ensures Unreset(h, g, client) && Unreset(g, k, client)
  {
    forall i | |h| <= i < |g| ensures !Resets(g[i], client) {
      assert g[i] == k[i];
    }
  }

  lemma ResetMoves(t: Trail, h: Log, e: Event, client: string)
    requires Resets(e, client)
    ensures OnlyOf(t, Without(t, client), client)
    ensures Grown(t, h, Without(t, client), h + [e])
  {
    assert (h + [e])[|h|] == e;
  }

  lemma CountedMoves(t: Trail, h: Log, p: Packet, day: int, flows: Table, entities: Table, g: Log)
    requires NoBar(p.client)
    ensures OnlyOf(t, AfterPacket(t, p, day, flows, entities), p.client)
    ensures Grown(t, h, AfterPacket(t, p, day, flows, entities), g)
  {
    hide AfterPacket, TrailAt;
    ClientOfKey(p.client, p.iface);
    forall s: Spot ensures TrailAt(t, s) <= TrailAt(AfterPacket(t, p, day, flows, entities), s)
                   ensures ClientOf(s.key) != p.client ==>
                           TrailAt(AfterPacket(t, p, day, flows, entities), s) == TrailAt(t, s)
    {
      TrailAfter(t, p, day, flows, entities, s);
    }
  }

  lemma OnlyTwice(t: Trail, u: Trail, v: Trail, client: string)
    requires OnlyOf(t, u, client) && OnlyOf(u, v, client)
    ensures OnlyOf(t, v, client)
  {
  }

  // ----- what it means for the tables ----------------------------------------------------------------

  /** In every bucket, what a capped table holds and what it has evicted since its client's last
      reset add up to the total; the evictions are those of the table's own trail. */
  lemma EvictionAccounted(b: DayBucket, t: Trail, h: Log, hash: string -> nat, si: nat, cfg: Config, s: Spot)
    requires BucketInv(b, h, hash, si, cfg) && ShownIn(b, t, hash, si) && TrailsRun(t, h, cfg) && cfg.Valid()
    requires s.day == b.dayIndex && ShardOf(hash, ClientOf(s.key)) == si
    ensures Current(TrailAt(t, s)) == Tracks(b, s.kind, s.key)
    ensures Sum(Tracks(b, s.kind, s.key)).Plus(Evicted(TrailAt(t, s))) == At(b.totals, s.key)
    ensures |Tracks(b, s.kind, s.key)| <= Cap(cfg, s.kind)
  {
    hide Sum, Evicted, Tracks, Tracked, Exact, TableStep;
    assert Runs(t, h, cfg, s) && KeyInv(b, h, s.key, cfg);
    EvictionConserves(TrailAt(t, s), Offers(h, s), Cap(cfg, s.kind));
    OffersTotal(h, s);
  }

  /** A flow tracked at one moment: at any later one, unless its client was reset in between
      or the day has gone, some flow at least as large is tracked for the same day. */
  ghost predicate NoLargestShrank(bs: seq<DayBucket>, h: Log, cs: seq<DayBucket>, g: Log,
                              hash: string -> nat, si: nat, cfg: Config) {
    forall i, j, s: Spot, f |
      && 0 <= i < |bs| && 0 <= j < |cs| && bs[i].dayIndex == cs[j].dayIndex == s.day
      && ShardOf(hash, ClientOf(s.key)) == si && Unreset(h, g, ClientOf(s.key))
      && Cap(cfg, s.kind) >= 2 && f in Tracks(bs[i], s.kind, s.key) ::
      HasAsLarge(Tracks(cs[j], s.kind, s.key), Tracks(bs[i], s.kind, s.key)[f].bytes)
  }

  lemma TrailsKeepLargest(bs: seq<DayBucket>, t: Trail, h: Log, cs: seq<DayBucket>, u: Trail, g: Log,
                          hash: string -> nat, si: nat, cfg: Config)
    requires Shown(bs, t, hash, si) && Shown(cs, u, hash, si) && TrailsRun(t, h, cfg) && TrailsRun(u, g, cfg)
    requires Grown(t, h, u, g)
    ensures NoLargestShrank(bs, h, cs, g, hash, si, cfg)
  {
    hide Tracks, TrailAt, TrailsRun, Unreset;
    forall i, j, s: Spot, f |
      && 0 <= i < |bs| && 0 <= j < |cs| && bs[i].dayIndex == cs[j].dayIndex == s.day
      && ShardOf(hash, ClientOf(s.key)) == si && Unreset(h, g, ClientOf(s.key))
      && Cap(cfg, s.kind) >= 2 && f in Tracks(bs[i], s.kind, s.key)
      ensures HasAsLarge(Tracks(cs[j], s.kind, s.key), Tracks(bs[i], s.kind, s.key)[f].bytes)
    {
      assert ShownIn(bs[i], t, hash, si) && ShownIn(cs[j], u, hash, si);
      TrailKeepsLargest(t, u, g, cfg, s, f);
    }
  }

  lemma TrailKeepsLargest(t: Trail, u: Trail, g: Log, cfg: Config, s: Spot, f: FlowKey)
    requires TrailsRun(u, g, cfg) && TrailAt(t, s) <= TrailAt(u, s) && Cap(cfg, s.kind) >= 2
    requires f in Current(TrailAt(t, s))
    ensures HasAsLarge(Current(TrailAt(u, s)), Current(TrailAt(t, s))[f].bytes)
  {
    hide TrailAt, TableStep;
    var (i, j) := (|TrailAt(t, s)| - 1, |TrailAt(u, s)| - 1);
    assert Runs(u, g, cfg, s);
    assert TrailAt(t, s)[i] == TrailAt(u, s)[i];
    var e := LargestNeverShrinks(TrailAt(u, s), Offers(g, s), Cap(cfg, s.kind), i, j, f);
  }
}

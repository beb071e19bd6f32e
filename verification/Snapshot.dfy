/** Adding up day buckets into one report, in 64-bit counters. */
module Snapshot {
  import opened Common
  import opened PacketLog
  import opened CounterSums
  import opened FlowTables
  import opened DayBuckets
  import opened Shards

  // ----- wrapping arithmetic ---------------------------------------------------

  lemma WrapPlus(a: Counter, b: Counter)
    ensures a.Wrapped().Plus(b).Wrapped() == a.Plus(b).Wrapped()
  {
  }

  ghost predicate Narrow<K(!new)>(m: map<K, Counter>) {
    forall k | k in m :: m[k].packets < U64 && m[k].bytes < U64
  }

  lemma NarrowPlusZero(c: Counter)
    requires c.packets < U64 && c.bytes < U64
    ensures c.Plus(ZERO).Wrapped() == c
  {
    var z := c.Plus(ZERO);
    assert z.packets == c.packets && z.bytes == c.bytes;
  }

  lemma NarrowAt<K(!new)>(m: map<K, Counter>, k: K)
    requires Narrow(m)
    ensures At(m, k).Plus(ZERO).Wrapped() == At(m, k)
  {
    NarrowPlusZero(At(m, k));
  }

  ghost predicate Added<K(!new)>(acc: map<K, Counter>, t: map<K, Counter>, r: map<K, Counter>) {
    && r.Keys == acc.Keys + t.Keys
    && Narrow(r)
    && forall k :: At(r, k) == At(acc, k).Plus(At(t, k)).Wrapped()
  }

  method AddCounters<K(!new)>(acc: map<K, Counter>, t: map<K, Counter>) returns (r: map<K, Counter>)
    requires Narrow(acc)
    ensures Added(acc, t, r)
  {
    r := acc;
    var rest := t.Keys;
    while rest != {}
      invariant rest <= t.Keys && Narrow(r)
      invariant r.Keys == acc.Keys + (t.Keys - rest)
      invariant forall k :: At(r, k) == if k in t && k !in rest then At(acc, k).Plus(t[k]).Wrapped() else At(acc, k)
      decreases rest
    {
      var k :| k in rest;
      r := r[k := At(r, k).Plus(t[k]).Wrapped()];
      rest := rest - {k};
    }
    forall k ensures At(r, k) == At(acc, k).Plus(At(t, k)).Wrapped() {
      if k !in t { NarrowAt(acc, k); }
    }
  }

  lemma Unchanged<K(!new)>(m: map<K, Counter>)
    requires Narrow(m)
    ensures Added(m, map[], m)
  {
    forall k ensures At(m, k) == At(m, k).Plus(ZERO).Wrapped() { NarrowAt(m, k); }
  }

  method AddTables(acc: map<string, Table>, t: map<string, Table>) returns (r: map<string, Table>)
    requires forall k | k in acc :: Narrow(acc[k])
    ensures forall k :: Added(TableAt(acc, k), TableAt(t, k), TableAt(r, k))
  {
    r := acc;
    var rest := t.Keys;
    while rest != {}
      invariant rest <= t.Keys && (forall k | k in r :: Narrow(r[k]))
      invariant forall k :: if k in t && k !in rest then Added(TableAt(acc, k), TableAt(t, k), TableAt(r, k))
                            else TableAt(r, k) == TableAt(acc, k)
      decreases rest
    {
      var k :| k in rest;
      var row := AddCounters(TableAt(r, k), t[k]);
      r := r[k := row];
      rest := rest - {k};
    }
    forall k ensures Added(TableAt(acc, k), TableAt(t, k), TableAt(r, k)) {
      if k !in t {
        Unchanged(TableAt(acc, k));
      }
    }
  }

  lemma {:induction false} WrappedSumOver<K(!new)>(keys: set<K>, a: map<K, Counter>, b: map<K, Counter>)
    requires forall f :: At(a, f) == At(b, f).Wrapped()
    ensures SumOver(keys, a).Wrapped() == SumOver(keys, b).Wrapped()
  {
    hide At;
    if keys == {} {
    } else {
      var f := Pick(keys);
      WrappedSumOver(keys - {f}, a, b);
      WrapBoth(At(b, f), SumOver(keys - {f}, a), SumOver(keys - {f}, b));
    }
  }

  lemma PlusCommutes(a: Counter, b: Counter)
    ensures a.Plus(b) == b.Plus(a)
  {
  }

  lemma WrapBoth(x: Counter, y: Counter, z: Counter)
    requires y.Wrapped() == z.Wrapped()
    ensures x.Wrapped().Plus(y).Wrapped() == x.Plus(z).Wrapped()
  {
    hide Counter.Wrapped, Counter.Plus;
    WrapPlus(x, y);
    PlusCommutes(x, y);
    PlusCommutes(x, z);
    WrapPlus(y, x);
    WrapPlus(z, x);
  }

  lemma SumOfWrapped<K(!new)>(a: map<K, Counter>, b: map<K, Counter>)
    requires forall f :: At(a, f) == At(b, f).Wrapped()
    ensures Sum(a).Wrapped() == Sum(b).Wrapped()
  {
    var keys := a.Keys + b.Keys;
    SumOverExtra(keys, a);
    SumOverExtra(keys, b);
    WrappedSumOver(keys, a, b);
  }

  // ----- exact sums over buckets ---------------------------------------------------

  function ExactTotal(bs: seq<DayBucket>, key: string): Counter {
    if bs == [] then ZERO else ExactTotal(bs[..|bs| - 1], key).Plus(At(bs[|bs| - 1].totals, key))
  }

  function Merge<K>(a: map<K, Counter>, b: map<K, Counter>): (m: map<K, Counter>)
    ensures m.Keys == a.Keys + b.Keys
  {
    map f | f in a.Keys + b.Keys :: At(a, f).Plus(At(b, f))
  }

  function ExactTable(bs: seq<DayBucket>, kind: Kind, key: string): Table {
    if bs == [] then map[] else Merge(ExactTable(bs[..|bs| - 1], kind, key), Tracks(bs[|bs| - 1], kind, key))
  }

  lemma PlusMiddle(a: Counter, b: Counter, x: Counter, y: Counter)
    ensures a.Plus(b).Plus(x.Plus(y)) == a.Plus(x).Plus(b.Plus(y))
  {
  }

  lemma MergeAt<K>(a: map<K, Counter>, b: map<K, Counter>, f: K)
    requires f in a || f in b
    ensures At(Merge(a, b), f) == At(a, f).Plus(At(b, f))
  {
  }

  lemma MergedAt<K>(a: map<K, Counter>, b: map<K, Counter>, f: K)
    ensures At(Merge(a, b), f) == At(a, f).Plus(At(b, f))
  {
    if f in a || f in b {
      MergeAt(a, b, f);
    } else {
      assert At(Merge(a, b), f) == ZERO;
      PlusZero(ZERO);
    }
  }

  lemma {:induction false} SumOverMerge<K>(keys: set<K>, a: map<K, Counter>, b: map<K, Counter>)
    requires keys <= a.Keys + b.Keys
    ensures SumOver(keys, Merge(a, b)) == SumOver(keys, a).Plus(SumOver(keys, b))
  {
    hide Merge, At;
    if keys == {} {
      PlusZero(ZERO);
    } else {
      var f := Pick(keys);
      MergeAt(a, b, f);
      SumOverMerge(keys - {f}, a, b);
      PlusMiddle(At(a, f), At(b, f), SumOver(keys - {f}, a), SumOver(keys - {f}, b));
    }
  }

  lemma {:induction false} SumOverExtra<K>(keys: set<K>, m: map<K, Counter>)
    requires m.Keys <= keys
    ensures SumOver(keys, m) == Sum(m)
    decreases keys
  {
    if keys == m.Keys {
    } else {
      var f :| f in keys && f !in m;
      SumOverRemove(keys, m, f);
      SumOverExtra(keys - {f}, m);
      PlusZero(SumOver(keys - {f}, m));
    }
  }

  lemma SumMerge<K>(a: map<K, Counter>, b: map<K, Counter>)
    ensures Sum(Merge(a, b)) == Sum(a).Plus(Sum(b))
  {
    var keys := a.Keys + b.Keys;
    SumOverMerge(keys, a, b);
    SumOverExtra(keys, a);
    SumOverExtra(keys, b);
  }

  /** Summed over any set of days, the country table still adds up to the total. */
  lemma {:induction false} TablesAddUp(bs: seq<DayBucket>, key: string)
    requires forall i | 0 <= i < |bs| :: Sum(Tracks(bs[i], Country, key)) == At(bs[i].totals, key)
    ensures Sum(ExactTable(bs, Country, key)) == ExactTotal(bs, key)
  {
    hide Merge, Tracks, At, Sum, Counter.Plus;
    if bs == [] {
      EmptySum();
    } else {
      var n := |bs| - 1;
      TablesAddUp(bs[..n], key);
      SumMerge(ExactTable(bs[..n], Country, key), Tracks(bs[n], Country, key));
    }
  }

  /** The same total read off the log: traffic of a key on the given days. */
  function OnDays(h: Log, days: seq<int>, key: string): Counter {
    if days == [] then ZERO else OnDays(h, days[..|days| - 1], key).Plus(Tally(h, DayTotal(key, days[|days| - 1])))
  }

  lemma {:induction false} TotalFromLog(bs: seq<DayBucket>, h: Log, key: string)
    requires forall i | 0 <= i < |bs| :: At(bs[i].totals, key) == Tally(h, DayTotal(key, bs[i].dayIndex))
    ensures ExactTotal(bs, key) == OnDays(h, Days(bs), key)
  {
    if bs == [] {
    } else {
      TotalFromLog(bs[..|bs| - 1], h, key);
      assert Days(bs)[..|bs| - 1] == Days(bs[..|bs| - 1]);
    }
  }

  /** Traffic of a key and pair on the given days. */
  function PairOnDays(h: Log, kind: Kind, days: seq<int>, key: string, pair: FlowKey): Counter {
    if days == [] then ZERO
    else PairOnDays(h, kind, days[..|days| - 1], key, pair).Plus(Tally(h, DaySplit(kind, key, days[|days| - 1], pair)))
  }

  lemma ExactAt(m: Table, h: Log, kind: Kind, key: string, day: int, f: FlowKey)
    requires Exact(m, h, kind, key, day)
    ensures At(m, f) == Tally(h, DaySplit(kind, key, day, f))
  {
    SplitZero(h, kind, key, day, f);
  }

  lemma {:induction false} TableFromLog(bs: seq<DayBucket>, h: Log, kind: Kind, key: string, pair: FlowKey)
    requires forall i | 0 <= i < |bs| :: Exact(Tracks(bs[i], kind, key), h, kind, key, bs[i].dayIndex)
    ensures At(ExactTable(bs, kind, key), pair) == PairOnDays(h, kind, Days(bs), key, pair)
  {
    hide Exact, Merge, Tally, Tracks;
    if bs == [] {
    } else {
      var n := |bs| - 1;
      TableFromLog(bs[..n], h, kind, key, pair);
      assert Days(bs)[..n] == Days(bs[..n]);
      ExactAt(Tracks(bs[n], kind, key), h, kind, key, bs[n].dayIndex, pair);
      MergedAt(ExactTable(bs[..n], kind, key), Tracks(bs[n], kind, key), pair);
    }
  }

  lemma TrackedAt(m: Table, h: Log, kind: Kind, key: string, day: int, cap: nat, f: FlowKey)
    requires Tracked(m, h, kind, key, day, cap)
    ensures At(m, f).Within(Tally(h, DaySplit(kind, key, day, f)))
  {
  }

  lemma WithinBoth(a: Counter, b: Counter, x: Counter, y: Counter)
    requires a.Within(x) && b.Within(y)
    ensures a.Plus(b).Within(x.Plus(y))
  {
  }

  /** Tables that may have evicted entries add up to no more than a pair's true traffic. */
  lemma {:induction false} TrackedFromLog(bs: seq<DayBucket>, h: Log, kind: Kind, key: string, cap: nat, pair: FlowKey)
    requires forall i | 0 <= i < |bs| :: Tracked(Tracks(bs[i], kind, key), h, kind, key, bs[i].dayIndex, cap)
    ensures At(ExactTable(bs, kind, key), pair).Within(PairOnDays(h, kind, Days(bs), key, pair))
  {
    hide Tracked, Merge, Tally, Tracks, Counter.Within, Counter.Plus;
    if bs == [] {
      assert ZERO.Within(ZERO) by { ZeroWithin(); }
    } else {
      var n := |bs| - 1;
      TrackedFromLog(bs[..n], h, kind, key, cap, pair);
      assert Days(bs)[..n] == Days(bs[..n]);
      TrackedAt(Tracks(bs[n], kind, key), h, kind, key, bs[n].dayIndex, cap, pair);
      MergedAt(ExactTable(bs[..n], kind, key), Tracks(bs[n], kind, key), pair);
      WithinBoth(At(ExactTable(bs[..n], kind, key), pair), At(Tracks(bs[n], kind, key), pair),
                 PairOnDays(h, kind, Days(bs[..n]), key, pair), Tally(h, DaySplit(kind, key, bs[n].dayIndex, pair)));
    }
  }

  lemma ZeroWithin()
    ensures ZERO.Within(ZERO)
  {
  }

  // ----- when flows were seen ------------------------------------------------------------

  /** The earlier of two times; a negative one is none. */
  function Sooner(a: int, b: int): int {
    if b >= 0 && (a < 0 || b < a) then b else a
  }

  function Later(a: int, b: int): int {
    if b >= 0 && (a < 0 || b > a) then b else a
  }

  function FirstSeen(bs: seq<DayBucket>, key: string, f: FlowKey): int {
    if bs == [] then -1 else Sooner(FirstSeen(bs[..|bs| - 1], key, f),
                                    StatsAt(FlowsAt(bs[|bs| - 1].flows, key), f).firstSeenSec)
  }

  function LastSeen(bs: seq<DayBucket>, key: string, f: FlowKey): int {
    if bs == [] then -1 else Later(LastSeen(bs[..|bs| - 1], key, f),
                                   StatsAt(FlowsAt(bs[|bs| - 1].flows, key), f).lastSeenSec)
  }

  /** A pair's packet times on the given days from 1970 on. */
  function TimesOnDays(h: Log, days: seq<int>, key: string, f: FlowKey): seq<int> {
    if days == [] then [] else
      var day := days[|days| - 1];
      TimesOnDays(h, days[..|days| - 1], key, f) + if day >= 0 then Times(h, DaySplit(Flow, key, day, f)) else []
  }

  /** These are times of the pair's packets, or none; if all were counted, the first and the last. */
  predicate SeenFor(first: int, last: int, times: seq<int>, all: bool) {
    && (first == -1 <==> last == -1) && (first == -1 || (first in times && last in times))
    && (all ==> if times == [] then first == -1 else first == times[0] && last == times[|times| - 1])
  }

  lemma {:induction false} TimesBefore(h: Log, days: seq<int>, key: string, f: FlowKey, day: int)
    requires forall d | d in days :: d < day
    ensures forall i | 0 <= i < |TimesOnDays(h, days, key, f)| ::
              TimesOnDays(h, days, key, f)[i] >= 0 && DayIndex(TimesOnDays(h, days, key, f)[i]) < day
  {
    hide DayIndex;
    if days == [] {
    } else {
      var n := |days| - 1;
      assert forall i | 0 <= i < n :: days[..n][i] in days;
      TimesBefore(h, days[..n], key, f, day);
      TimesOnDay(h, Flow, key, days[n], f);
      assert days[n] in days;
      var times := Times(h, DaySplit(Flow, key, days[n], f));
      forall i | 0 <= i < |times| ensures times[i] >= 0 <==> days[n] >= 0 {
        SameSign(times[i], days[n]);
      }
      hide Times;
      var (before, all) := (TimesOnDays(h, days[..n], key, f), TimesOnDays(h, days, key, f));
      assert all == before + if days[n] >= 0 then times else [];
    }
  }

  lemma DaysInOrder(a: int, b: int)
    requires DayIndex(a) < DayIndex(b)
    ensures a < b
  {
  }

  /** One day's entry joins those of the days before. */
  lemma SeenJoined(first: int, last: int, before: seq<int>, all: bool, s: FlowStats, times: seq<int>, day: int)
    requires SeenFor(first, last, before, all)
    requires forall i | 0 <= i < |before| :: before[i] >= 0 && DayIndex(before[i]) < day
    requires forall i | 0 <= i < |times| :: DayIndex(times[i]) == day
    requires s == NO_FLOW || SeenRight(s, times, day)
    requires all ==> if s == NO_FLOW then times == [] else s.count.packets == |times|
    ensures SeenFor(Sooner(first, s.firstSeenSec), Later(last, s.lastSeenSec),
                    before + if day >= 0 then times else [], all)
  {
    forall i | 0 <= i < |times| ensures times[i] >= 0 <==> day >= 0 {
      SameSign(times[i], day);
    }
    forall i, j | 0 <= i < |before| && 0 <= j < |times| ensures before[i] < times[j] {
      DaysInOrder(before[i], times[j]);
    }
    hide DayIndex;
  }

  lemma {:induction false} SeenFromLog(bs: seq<DayBucket>, h: Log, key: string, f: FlowKey, all: bool)
    requires forall i | 0 <= i < |bs| :: FlowsSeen(FlowsAt(bs[i].flows, key), h, key, bs[i].dayIndex)
    requires all ==>
               forall i | 0 <= i < |bs| :: Exact(Counts(FlowsAt(bs[i].flows, key)), h, Flow, key, bs[i].dayIndex)
    requires StrictlyIncreasing(Days(bs))
    ensures SeenFor(FirstSeen(bs, key, f), LastSeen(bs, key, f), TimesOnDays(h, Days(bs), key, f), all)
  {
    hide Exact, SeenFor, Sooner, Later, FlowsSeen, Times;
    if bs == [] {
      assert SeenFor(-1, -1, [], all) by { NothingSeen(all); }
    } else {
      var n := |bs| - 1;
      var (day, m) := (bs[n].dayIndex, FlowsAt(bs[n].flows, key));
      assert Days(bs)[..n] == Days(bs[..n]);
      forall d | d in Days(bs[..n]) ensures d < day {
        var i :| 0 <= i < n && Days(bs)[i] == d;
        assert Days(bs)[i] < Days(bs)[n];
      }
      SeenFromLog(bs[..n], h, key, f, all);
      TimesBefore(h, Days(bs[..n]), key, f, day);
      TimesOnDay(h, Flow, key, day, f);
      EntrySeen(m, h, key, day, f, all);
      SeenJoined(FirstSeen(bs[..n], key, f), LastSeen(bs[..n], key, f), TimesOnDays(h, Days(bs[..n]), key, f), all,
                 StatsAt(m, f), Times(h, DaySplit(Flow, key, day, f)), day);
    }
  }

  lemma NothingSeen(all: bool)
    ensures SeenFor(-1, -1, [], all)
  {
  }

  lemma EntrySeen(m: map<FlowKey, FlowStats>, h: Log, key: string, day: int, f: FlowKey, all: bool)
    requires FlowsSeen(m, h, key, day)
    requires all ==> Exact(Counts(m), h, Flow, key, day)
    ensures var (s, times) := (StatsAt(m, f), Times(h, DaySplit(Flow, key, day, f)));
            && (s == NO_FLOW || SeenRight(s, times, day))
            && (all ==> if s == NO_FLOW then times == [] else s.count.packets == |times|)
  {
    hide Times, Tally, Sum;
    TimesCount(h, DaySplit(Flow, key, day, f));
    if f in m {
      assert SeenRight(m[f], Times(h, DaySplit(Flow, key, day, f)), day);
      assert all ==> f in Counts(m) && Counts(m)[f] == m[f].count;
    } else {
      assert all ==> f !in Counts(m);
    }
  }

  // ----- visiting the buckets of one shard ------------------------------------------

  datatype Report = Report(totals: map<string, Counter>, flows: map<string, map<FlowKey, FlowStats>>,
                           countries: map<string, Table>, entities: map<string, Table>)

  const NO_REPORT := Report(map[], map[], map[], map[])

  function ReportTable(r: Report, kind: Kind, key: string): Table {
    match kind
    case Flow => Counts(FlowsAt(r.flows, key))
    case Country => TableAt(r.countries, key)
    case Entity => TableAt(r.entities, key)
  }

  function FirstOf(m: map<string, map<FlowKey, FlowStats>>, key: string, f: FlowKey): int {
    StatsAt(FlowsAt(m, key), f).firstSeenSec
  }

  function LastOf(m: map<string, map<FlowKey, FlowStats>>, key: string, f: FlowKey): int {
    StatsAt(FlowsAt(m, key), f).lastSeenSec
  }

  ghost predicate NarrowReport(r: Report) {
    Narrow(r.totals) && forall kind, k :: Narrow(ReportTable(r, kind, k))
  }

  ghost predicate HasTotal(bs: seq<DayBucket>, key: string) {
    exists i :: 0 <= i < |bs| && key in bs[i].totals
  }

  /** r is acc with the buckets added. */
  ghost predicate Visited(acc: Report, bs: seq<DayBucket>, r: Report) {
    && NarrowReport(r)
    && (forall key :: key in r.totals <==> key in acc.totals || HasTotal(bs, key))
    && (forall key :: At(r.totals, key) == At(acc.totals, key).Plus(ExactTotal(bs, key)).Wrapped())
    && (forall kind, key, f :: At(ReportTable(r, kind, key), f)
                      == At(ReportTable(acc, kind, key), f).Plus(At(ExactTable(bs, kind, key), f)).Wrapped())
    && (forall key, f :: FirstOf(r.flows, key, f) == Sooner(FirstOf(acc.flows, key, f), FirstSeen(bs, key, f)))
    && (forall key, f :: LastOf(r.flows, key, f) == Later(LastOf(acc.flows, key, f), LastSeen(bs, key, f)))
  }

  lemma HasTotalStep(bs: seq<DayBucket>, key: string)
    requires bs != []
    ensures HasTotal(bs, key) <==> HasTotal(bs[..|bs| - 1], key) || key in bs[|bs| - 1].totals
  {
    var n := |bs| - 1;
    if HasTotal(bs[..n], key) {
      var i :| 0 <= i < n && key in bs[..n][i].totals;
      assert key in bs[i].totals;
    }
    if HasTotal(bs, key) {
      var i :| 0 <= i < |bs| && key in bs[i].totals;
      assert i < n ==> key in bs[..n][i].totals;
    }
  }

  lemma WrapAgain(a: Counter, x: Counter, y: Counter)
    ensures a.Plus(x).Wrapped().Plus(y).Wrapped() == a.Plus(x.Plus(y)).Wrapped()
  {
    assert a.Plus(x).Plus(y) == a.Plus(x.Plus(y));
    hide Counter.Plus, Counter.Wrapped;
    WrapPlus(a.Plus(x), y);
  }

  lemma VisitedStep(acc: Report, bs: seq<DayBucket>, mid: Report, r: Report)
    requires bs != [] && Visited(acc, bs[..|bs| - 1], mid) && NarrowReport(r)
    requires Added(mid.totals, bs[|bs| - 1].totals, r.totals)
    requires forall kind, k :: Added(ReportTable(mid, kind, k), Tracks(bs[|bs| - 1], kind, k), ReportTable(r, kind, k))
    requires forall k :: SeenAdded(FlowsAt(mid.flows, k), FlowsAt(bs[|bs| - 1].flows, k), FlowsAt(r.flows, k))
    ensures Visited(acc, bs, r)
  {
    hide ReportTable, Tracks, FlowsAt, StatsAt, Sooner, Later;
    var n := |bs| - 1;
    forall key ensures key in r.totals <==> key in acc.totals || HasTotal(bs, key) {
      HasTotalStep(bs, key);
    }
    forall key ensures At(r.totals, key) == At(acc.totals, key).Plus(ExactTotal(bs, key)).Wrapped() {
      WrapAgain(At(acc.totals, key), ExactTotal(bs[..n], key), At(bs[n].totals, key));
    }
    forall kind, key, f
      ensures At(ReportTable(r, kind, key), f)
           == At(ReportTable(acc, kind, key), f).Plus(At(ExactTable(bs, kind, key), f)).Wrapped()
    {
      PairStep(acc, bs, mid, r, kind, key, f);
    }
    forall key, f
      ensures FirstOf(r.flows, key, f) == Sooner(FirstOf(acc.flows, key, f), FirstSeen(bs, key, f))
      ensures LastOf(r.flows, key, f) == Later(LastOf(acc.flows, key, f), LastSeen(bs, key, f))
    {
      assert SeenAdded(FlowsAt(mid.flows, key), FlowsAt(bs[n].flows, key), FlowsAt(r.flows, key));
      SoonerTwice(FirstOf(acc.flows, key, f), FirstSeen(bs[..n], key, f), FirstOf(bs[n].flows, key, f));
      LaterTwice(LastOf(acc.flows, key, f), LastSeen(bs[..n], key, f), LastOf(bs[n].flows, key, f));
    }
  }

  lemma SoonerTwice(a: int, b: int, c: int)
    ensures Sooner(Sooner(a, b), c) == Sooner(a, Sooner(b, c))
  {
  }

  lemma LaterTwice(a: int, b: int, c: int)
    ensures Later(Later(a, b), c) == Later(a, Later(b, c))
  {
  }

  lemma PairStep(acc: Report, bs: seq<DayBucket>, mid: Report, r: Report, kind: Kind, key: string, f: FlowKey)
    requires bs != [] && Visited(acc, bs[..|bs| - 1], mid)
    requires Added(ReportTable(mid, kind, key), Tracks(bs[|bs| - 1], kind, key), ReportTable(r, kind, key))
    ensures At(ReportTable(r, kind, key), f)
         == At(ReportTable(acc, kind, key), f).Plus(At(ExactTable(bs, kind, key), f)).Wrapped()
  {
    hide ReportTable, Tracks, Merge, NarrowReport, HasTotal;
    var n := |bs| - 1;
    var x, y := At(ExactTable(bs[..n], kind, key), f), At(Tracks(bs[n], kind, key), f);
    WrapAgain(At(ReportTable(acc, kind, key), f), x, y);
    MergedAt(ExactTable(bs[..n], kind, key), Tracks(bs[n], kind, key), f);
  }

  ghost predicate SeenAdded(acc: map<FlowKey, FlowStats>, t: map<FlowKey, FlowStats>, r: map<FlowKey, FlowStats>) {
    forall f ::
      && StatsAt(r, f).firstSeenSec == Sooner(StatsAt(acc, f).firstSeenSec, StatsAt(t, f).firstSeenSec)
      && StatsAt(r, f).lastSeenSec == Later(StatsAt(acc, f).lastSeenSec, StatsAt(t, f).lastSeenSec)
  }

  ghost predicate FlowsAdded(acc: map<FlowKey, FlowStats>, t: map<FlowKey, FlowStats>, r: map<FlowKey, FlowStats>) {
    Added(Counts(acc), Counts(t), Counts(r)) && SeenAdded(acc, t, r)
  }

  function Joined(a: FlowStats, b: FlowStats): FlowStats {
    FlowStats(a.count.Plus(b.count).Wrapped(), Sooner(a.firstSeenSec, b.firstSeenSec),
              Later(a.lastSeenSec, b.lastSeenSec))
  }

  method AddStats(acc: map<FlowKey, FlowStats>, t: map<FlowKey, FlowStats>) returns (r: map<FlowKey, FlowStats>)
    requires Narrow(Counts(acc))
    ensures FlowsAdded(acc, t, r)
  {
    hide Joined;
    r := acc;
    var rest := t.Keys;
    while rest != {}
      invariant rest <= t.Keys && r.Keys == acc.Keys + (t.Keys - rest)
      invariant forall f ::
                  StatsAt(r, f) == if f in t && f !in rest then Joined(StatsAt(acc, f), t[f]) else StatsAt(acc, f)
      decreases rest
    {
      var f :| f in rest;
      r := r[f := Joined(StatsAt(r, f), t[f])];
      rest := rest - {f};
    }
    StatsJoined(acc, t, r);
  }

  lemma StatsJoined(acc: map<FlowKey, FlowStats>, t: map<FlowKey, FlowStats>, r: map<FlowKey, FlowStats>)
    requires Narrow(Counts(acc)) && r.Keys == acc.Keys + t.Keys
    requires forall f :: StatsAt(r, f) == if f in t then Joined(StatsAt(acc, f), t[f]) else StatsAt(acc, f)
    ensures FlowsAdded(acc, t, r)
  {
    forall f ensures At(Counts(r), f) == At(Counts(acc), f).Plus(At(Counts(t), f)).Wrapped()
             ensures At(Counts(r), f).packets < U64 && At(Counts(r), f).bytes < U64
    {
      CountAt(r, f);
      CountAt(acc, f);
      CountAt(t, f);
      NarrowAt(Counts(acc), f);
    }
    assert Narrow(Counts(r)) by {
      forall f | f in Counts(r) ensures Counts(r)[f].packets < U64 && Counts(r)[f].bytes < U64 {
        assert Counts(r)[f] == At(Counts(r), f);
      }
    }
  }

  /** Adds every key's flows. */
  method AddFlows(acc: map<string, map<FlowKey, FlowStats>>, t: map<string, map<FlowKey, FlowStats>>)
    returns (r: map<string, map<FlowKey, FlowStats>>)
    requires forall k | k in acc :: Narrow(Counts(acc[k]))
    ensures forall k :: FlowsAdded(FlowsAt(acc, k), FlowsAt(t, k), FlowsAt(r, k))
  {
    hide Counts, FlowsAdded, Narrow;
    NothingNarrow();
    r := acc;
    var rest := t.Keys;
    while rest != {}
      invariant rest <= t.Keys && (forall k | k in r && k in acc && k !in t - rest :: r[k] == acc[k])
      invariant forall k :: if k in t && k !in rest then FlowsAdded(FlowsAt(acc, k), t[k], FlowsAt(r, k))
                            else FlowsAt(r, k) == FlowsAt(acc, k)
      decreases rest
    {
      var k :| k in rest;
      assert FlowsAt(r, k) == FlowsAt(acc, k);
      var row := AddStats(FlowsAt(acc, k), t[k]);
      r := r[k := row];
      rest := rest - {k};
    }
    forall k ensures FlowsAdded(FlowsAt(acc, k), FlowsAt(t, k), FlowsAt(r, k)) {
      if k !in t {
        FlowsUnchanged(FlowsAt(acc, k));
      }
    }
  }

  lemma NothingNarrow()
    ensures Narrow(Counts(map[]))
  {
  }

  lemma FlowsUnchanged(m: map<FlowKey, FlowStats>)
    requires Narrow(Counts(m))
    ensures FlowsAdded(m, map[], m)
  {
    assert Counts(map[]) == map[];
    Unchanged(Counts(m));
  }

  lemma AddedIsNarrow(acc: Report, r: Report, b: DayBucket)
    requires Narrow(r.totals)
    requires forall k :: FlowsAdded(FlowsAt(acc.flows, k), FlowsAt(b.flows, k), FlowsAt(r.flows, k))
    requires forall k :: Added(TableAt(acc.countries, k), TableAt(b.countryFlows, k), TableAt(r.countries, k))
    requires forall k :: Added(TableAt(acc.entities, k), TableAt(b.entityFlows, k), TableAt(r.entities, k))
    ensures NarrowReport(r)
    ensures forall kind, k :: Added(ReportTable(acc, kind, k), Tracks(b, kind, k), ReportTable(r, kind, k))
    ensures forall k :: SeenAdded(FlowsAt(acc.flows, k), FlowsAt(b.flows, k), FlowsAt(r.flows, k))
  {
    hide Counts, FlowsAt, TableAt, Narrow, At, SeenAdded;
  }

  lemma NarrowTables(r: Report)
    requires NarrowReport(r)
    ensures Narrow(r.totals) && (forall k | k in r.flows :: Narrow(Counts(r.flows[k])))
    ensures forall k | k in r.countries :: Narrow(r.countries[k])
    ensures forall k | k in r.entities :: Narrow(r.entities[k])
  {
    hide Narrow, Counts;
    assert forall k | k in r.flows :: ReportTable(r, Flow, k) == Counts(r.flows[k]);
    assert forall k | k in r.countries :: ReportTable(r, Country, k) == r.countries[k];
    assert forall k | k in r.entities :: ReportTable(r, Entity, k) == r.entities[k];
  }

  method VisitBuckets(acc: Report, bs: seq<DayBucket>) returns (r: Report)
    requires NarrowReport(acc)
    ensures Visited(acc, bs, r)
  {
    hide Added, Narrow, NarrowReport, Visited, FlowsAdded, SeenAdded;
    r := acc;
    StartVisit(acc);
    for i := 0 to |bs|
      invariant Visited(acc, bs[..i], r) && NarrowReport(r)
    {
      NarrowTables(r);
      var totals := AddCounters(r.totals, bs[i].totals);
      var flows := AddFlows(r.flows, bs[i].flows);
      var countries := AddTables(r.countries, bs[i].countryFlows);
      var entities := AddTables(r.entities, bs[i].entityFlows);
      var mid := r;
      r := Report(totals, flows, countries, entities);
      assert bs[..i + 1][..i] == bs[..i] && bs[..i + 1][i] == bs[i];
      TotalsNarrow(mid.totals, bs[i].totals, totals);
      AddedIsNarrow(mid, r, bs[i]);
      VisitedStep(acc, bs[..i + 1], mid, r);
    }
    assert bs[..|bs|] == bs;
  }

  lemma TotalsNarrow<K(!new)>(acc: map<K, Counter>, t: map<K, Counter>, r: map<K, Counter>)
    requires Added(acc, t, r)
    ensures Narrow(r)
  {
  }

  lemma StartVisit(acc: Report)
    requires NarrowReport(acc)
    ensures Visited(acc, [], acc)
  {
    hide ReportTable, StatsAt;
    forall key ensures At(acc.totals, key).Plus(ZERO).Wrapped() == At(acc.totals, key) {
      NarrowAt(acc.totals, key);
    }
    forall kind, key, f
      ensures At(ReportTable(acc, kind, key), f).Plus(ZERO).Wrapped() == At(ReportTable(acc, kind, key), f)
    {
      NarrowAt(ReportTable(acc, kind, key), f);
    }
  }
}

/** Sums of counters over finite maps. */
module CounterSums {
  import opened PacketLog

  function At<K>(m: map<K, Counter>, f: K): Counter {
    if f in m then m[f] else ZERO
  }

  ghost function Pick<K>(keys: set<K>): (f: K)
    requires keys != {}
    ensures f in keys
  {
    var f :| f in keys; f
  }

  /** Sum of the counters of the given keys. */
  ghost function SumOver<K>(keys: set<K>, m: map<K, Counter>): Counter {
    if keys == {} then ZERO else
      At(m, Pick(keys)).Plus(SumOver(keys - {Pick(keys)}, m))
  }

  ghost function Sum<K>(m: map<K, Counter>): Counter {
    SumOver(m.Keys, m)
  }

  lemma SumOverPick<K>(keys: set<K>, m: map<K, Counter>)
    requires keys != {}
    ensures SumOver(keys, m) == At(m, Pick(keys)).Plus(SumOver(keys - {Pick(keys)}, m))
  {
  }

  lemma PlusExchange(a: Counter, b: Counter, c: Counter)
    ensures a.Plus(b.Plus(c)) == b.Plus(a.Plus(c))
  {
  }

  lemma {:induction false} SumOverRemove<K>(keys: set<K>, m: map<K, Counter>, f: K)
    requires f in keys
    ensures SumOver(keys, m) == At(m, f).Plus(SumOver(keys - {f}, m))
  {
    hide SumOver, At;
    var g := Pick(keys);
    SumOverPick(keys, m);
    if g == f {
    } else {
      SumOverRemove(keys - {g}, m, f);
      SumOverRemove(keys - {f}, m, g);
      assert keys - {g} - {f} == keys - {f} - {g};
      PlusExchange(At(m, f), At(m, g), SumOver(keys - {f} - {g}, m));
    }
  }

  lemma {:induction false} SumOverSame<K>(keys: set<K>, m: map<K, Counter>, n: map<K, Counter>)
    requires forall f | f in keys :: At(m, f) == At(n, f)
    ensures SumOver(keys, m) == SumOver(keys, n)
  {
    if keys == {} {
    } else {
      SumOverSame(keys - {Pick(keys)}, m, n);
    }
  }

  /** The sum of all entries but one. */
  ghost function Rest<K>(m: map<K, Counter>, f: K): Counter {
    SumOver(m.Keys - {f}, m)
  }

  lemma PlusZero(c: Counter)
    ensures ZERO.Plus(c) == c
  {
  }

  lemma PlusSwap(a: Counter, b: Counter, c: Counter)
    ensures a.Plus(b).Plus(c) == a.Plus(c).Plus(b)
  {
  }

  lemma SumSplit<K>(m: map<K, Counter>, f: K)
    ensures Sum(m) == At(m, f).Plus(Rest(m, f))
  {
    if f in m {
      SumOverRemove(m.Keys, m, f);
    } else {
      PlusZero(Sum(m));
      assert m.Keys - {f} == m.Keys;
    }
  }

  lemma SumRemove<K>(m: map<K, Counter>, f: K)
    requires f in m
    ensures Sum(m) == m[f].Plus(Sum(m - {f}))
  {
    SumSplit(m, f);
    assert (m - {f}).Keys == m.Keys - {f};
    SumOverSame(m.Keys - {f}, m, m - {f});
  }

  lemma SumUpdate<K>(m: map<K, Counter>, f: K, c: Counter)
    ensures Sum(m[f := c]) == c.Plus(Rest(m, f))
    ensures Sum(m) == At(m, f).Plus(Rest(m, f))
  {
    SumSplit(m, f);
    SumSplit(m[f := c], f);
    SumOverSame(m.Keys - {f}, m[f := c], m);
    assert m[f := c].Keys - {f} == m.Keys - {f};
  }
}

/** The per-interface counter tables of one day: sums over a table, the
    smallest-first eviction that keeps a table within its cap, and what a table
    may still claim about the log after evictions. */
module FlowTables {
  import opened PacketLog
  import opened CounterSums

  type Table = map<FlowKey, Counter>

  datatype FlowStats = FlowStats(count: Counter, firstSeenSec: int, lastSeenSec: int)

  const NO_FLOW := FlowStats(ZERO, -1, -1)

  function Counts(m: map<FlowKey, FlowStats>): (t: Table)
    ensures t.Keys == m.Keys
  {
    map f | f in m :: m[f].count
  }

  // ----- eviction --------------------------------------------------------------

  predicate Smallest(m: Table, f: FlowKey) {
    f in m && forall g | g in m :: m[f].bytes <= m[g].bytes
  }

  /** A least element by bytes; which of several equal ones is not fixed. */
  method MinElement(m: Table) returns (it: FlowKey)
    requires m != map[]
    ensures Smallest(m, it)
  {
    it :| it in m;
    var rest := m.Keys - {it};
    while rest != {}
      invariant rest <= m.Keys && it in m
      invariant forall g | g in m && g !in rest :: m[it].bytes <= m[g].bytes
      decreases rest
    {
      var g :| g in rest;
      if m[g].bytes < m[it].bytes {
        it := g;
      }
      rest := rest - {g};
    }
  }

  /** room is m after making room for f in a table of at most cap entries. */
  ghost predicate Room(m: Table, room: Table, f: FlowKey, cap: nat) {
    if |m| >= cap && f !in m then exists v :: Smallest(m, v) && room == m - {v} else room == m
  }

  function Bump(m: Table, f: FlowKey, length: nat): Table {
    m[f := At(m, f).Plus(Counter(1, length))]
  }

  lemma BumpSum(m: Table, f: FlowKey, length: nat)
    ensures Sum(Bump(m, f, length)) == Sum(m).Plus(Counter(1, length))
  {
    SumUpdate(m, f, At(m, f).Plus(Counter(1, length)));
    PlusSwap(At(m, f), Counter(1, length), Rest(m, f));
  }

  lemma BumpSize(m: Table, room: Table, f: FlowKey, cap: nat, length: nat)
    requires Room(m, room, f, cap) && |m| <= cap && cap > 0
    ensures |Bump(room, f, length)| <= cap
  {
    assert Bump(room, f, length).Keys == room.Keys + {f};
    if f in room {
      assert room.Keys + {f} == room.Keys;
    }
    if room != m {
      var v :| Smallest(m, v) && room == m - {v};
      assert room.Keys == m.Keys - {v};
    }
  }

  /** The counters of the entries that a step took out. */
  ghost function Left(before: Table, after: Table): Counter {
    SumOver(before.Keys - after.Keys, before)
  }

  /** Conservation: what stays and what leaves add up to what was there and the packet.
      One entry leaves, a smallest one, exactly if the table is full and the pair new. */
  lemma BumpConserves(m: Table, room: Table, f: FlowKey, cap: nat, length: nat)
    requires Room(m, room, f, cap)
    ensures var after := Bump(room, f, length);
            && Sum(after).Plus(Left(m, after)) == Sum(m).Plus(Counter(1, length))
            && if |m| >= cap && f !in m
               then exists v :: Smallest(m, v) && m.Keys - after.Keys == {v} && Left(m, after) == m[v]
               else m.Keys <= after.Keys && Left(m, after) == ZERO
  {
    hide Sum, Bump, Left;
    BumpSum(room, f, length);
    if |m| >= cap && f !in m {
      var v :| Smallest(m, v) && room == m - {v};
      SmallestLeaves(m, v, f, length);
      PlusAside(Sum(room), Counter(1, length), m[v]);
    } else {
      NothingLeaves(m, f, length);
    }
  }

  lemma SmallestLeaves(m: Table, v: FlowKey, f: FlowKey, length: nat)
    requires v in m && f !in m
    ensures m.Keys - Bump(m - {v}, f, length).Keys == {v} && Left(m, Bump(m - {v}, f, length)) == m[v]
    ensures Sum(m) == m[v].Plus(Sum(m - {v}))
  {
    SumRemove(m, v);
    OneLeft(m, v);
    assert m.Keys - Bump(m - {v}, f, length).Keys == {v};
  }

  lemma NothingLeaves(m: Table, f: FlowKey, length: nat)
    ensures m.Keys <= Bump(m, f, length).Keys && Left(m, Bump(m, f, length)) == ZERO
    ensures Sum(Bump(m, f, length)).Plus(ZERO) == Sum(Bump(m, f, length))
  {
    assert m.Keys - Bump(m, f, length).Keys == {};
  }

  lemma OneLeft(m: Table, v: FlowKey)
    requires v in m
    ensures SumOver({v}, m) == m[v]
  {
    SumOverRemove({v}, m, v);
    assert {v} - {v} == {};
  }

  lemma PlusAside(a: Counter, b: Counter, c: Counter)
    ensures a.Plus(b).Plus(c) == c.Plus(a).Plus(b)
  {
  }

  /** With room for at least two entries the largest flow never shrinks. */
  lemma LargestKept(m: Table, room: Table, f: FlowKey, cap: nat, length: nat, g: FlowKey)
    requires Room(m, room, f, cap) && cap >= 2 && g in m
    ensures exists k :: k in Bump(room, f, length) && Bump(room, f, length)[k].bytes >= m[g].bytes
  {
    var after := Bump(room, f, length);
    if g in room {
      assert g in after && after[g].bytes >= m[g].bytes;
    } else {
      var v :| Smallest(m, v) && room == m - {v};
      assert |m.Keys| == |m| && |{v}| == 1;
      assert m.Keys != {v};
      var k :| k in m && k != v;
      assert k in after && after[k].bytes >= m[g].bytes;
    }
  }

  // ----- any run of one table ----------------------------------------------------

  datatype Counting = Counting(pair: FlowKey, length: nat)

  ghost predicate TableStep(before: Table, after: Table, c: Counting, cap: nat) {
    exists room :: Room(before, room, c.pair, cap) && after == Bump(room, c.pair, c.length)
  }

  /** ts are the successive states of a table that counts ps, evicting as it must. */
  ghost predicate TableRun(ts: seq<Table>, ps: seq<Counting>, cap: nat) {
    && |ts| == |ps| + 1 && ts[0] == map[]
    && forall i | 0 <= i < |ps| :: TableStep(ts[i], ts[i + 1], ps[i], cap)
  }

  function Offered(ps: seq<Counting>): Counter {
    if ps == [] then ZERO else Offered(ps[..|ps| - 1]).Plus(Counter(1, ps[|ps| - 1].length))
  }

  /** What the steps of a run took out, all together. */
  ghost function Evicted(ts: seq<Table>): Counter {
    if |ts| <= 1 then ZERO else Evicted(ts[..|ts| - 1]).Plus(Left(ts[|ts| - 2], ts[|ts| - 1]))
  }

  lemma StepConserves(before: Table, after: Table, c: Counting, cap: nat)
    requires TableStep(before, after, c, cap) && cap > 0 && |before| <= cap
    ensures Sum(after).Plus(Left(before, after)) == Sum(before).Plus(Counter(1, c.length)) && |after| <= cap
  {
    hide Room, Sum, Bump, Left;
    var room :| Room(before, room, c.pair, cap) && after == Bump(room, c.pair, c.length);
    BumpSize(before, room, c.pair, cap, c.length);
    BumpConserves(before, room, c.pair, cap, c.length);
  }

  lemma RunPrefix(ts: seq<Table>, ps: seq<Counting>, cap: nat)
    requires TableRun(ts, ps, cap) && ps != []
    ensures TableRun(ts[..|ps|], ps[..|ps| - 1], cap) && TableStep(ts[|ps| - 1], ts[|ps|], ps[|ps| - 1], cap)
  {
    var n := |ps| - 1;
    assert TableStep(ts[n], ts[n + 1], ps[n], cap);
    hide TableStep;
    forall i | 0 <= i < n ensures TableStep(ts[..n + 1][i], ts[..n + 1][i + 1], ps[..n][i], cap) {
      assert TableStep(ts[i], ts[i + 1], ps[i], cap);
    }
  }

  /** Over any run, what is tracked and what was evicted add up to what was counted,
      and the table stays within its cap. */
  lemma {:induction false} EvictionConserves(ts: seq<Table>, ps: seq<Counting>, cap: nat)
    requires TableRun(ts, ps, cap) && cap > 0
    ensures |ts| == |ps| + 1 && Sum(ts[|ps|]).Plus(Evicted(ts)) == Offered(ps) && |ts[|ps|]| <= cap
    decreases |ps|
  {
    hide TableStep, Sum, Left;
    if ps == [] {
      EmptySum();
      PlusZero(ZERO);
    } else {
      var n := |ps| - 1;
      RunPrefix(ts, ps, cap);
      EvictionConserves(ts[..n + 1], ps[..n], cap);
      StepConserves(ts[n], ts[n + 1], ps[n], cap);
      assert ts[..n + 2] == ts;
      hide Evicted, Offered;
      EvictedStep(ts, ps);
      PlusChain(Sum(ts[n + 1]), Left(ts[n], ts[n + 1]), Evicted(ts[..n + 1]));
    }
  }

  lemma EvictedStep(ts: seq<Table>, ps: seq<Counting>)
    requires |ts| == |ps| + 1 && ps != []
    ensures var n := |ps| - 1;
            && Evicted(ts) == Evicted(ts[..n + 1]).Plus(Left(ts[n], ts[n + 1]))
            && Offered(ps) == Offered(ps[..n]).Plus(Counter(1, ps[n].length))
  {
  }

  lemma PlusChain(a: Counter, b: Counter, c: Counter)
    ensures a.Plus(c.Plus(b)) == a.Plus(b).Plus(c)
    ensures forall x: Counter, y: Counter :: a.Plus(b) == x.Plus(y) ==> a.Plus(c.Plus(b)) == x.Plus(c).Plus(y)
  {
  }

  lemma EmptySum()
    ensures Sum<FlowKey>(map[]) == ZERO
  {
  }

  /** Over any run of a table with room for two entries, whatever was tracked once,
      some flow at least as large is tracked ever after. */
  lemma {:induction false} LargestNeverShrinks(ts: seq<Table>, ps: seq<Counting>, cap: nat, i: nat, j: nat, f: FlowKey)
    returns (g: FlowKey)
    requires TableRun(ts, ps, cap) && cap >= 2 && i <= j <= |ps| && f in ts[i]
    ensures g in ts[j] && ts[j][g].bytes >= ts[i][f].bytes
    decreases j
  {
    if i == j {
      g := f;
    } else {
      var e := LargestNeverShrinks(ts, ps, cap, i, j - 1, f);
      assert TableStep(ts[j - 1], ts[j - 1 + 1], ps[j - 1], cap);
      hide Room, Bump;
      var room :| Room(ts[j - 1], room, ps[j - 1].pair, cap) && ts[j] == Bump(room, ps[j - 1].pair, ps[j - 1].length);
      LargestKept(ts[j - 1], room, ps[j - 1].pair, cap, ps[j - 1].length, e);
      g :| g in ts[j] && ts[j][g].bytes >= ts[j - 1][e].bytes;
    }
  }

  /** A table of cap entries loses no largest flow on any run. */
  ghost predicate KeepsLargest(cap: nat) {
    forall ts: seq<Table>, ps: seq<Counting>, i: nat, j: nat, f: FlowKey |
      TableRun(ts, ps, cap) && i <= j <= |ps| && f in ts[i] ::
      HasAsLarge(ts[j], ts[i][f].bytes)
  }

  ghost predicate HasAsLarge(m: Table, bytes: nat) {
    exists f :: f in m && m[f].bytes >= bytes
  }

  function One(f: FlowKey, length: nat): Table {
    map[f := Counter(1, length)]
  }

  lemma FirstCounted(f: FlowKey, length: nat)
    ensures TableStep(map[], One(f, length), Counting(f, length), 1)
  {
    var nothing: Table := map[];
    assert Room(nothing, nothing, f, 1);
    assert Bump(nothing, f, length) == One(f, length);
  }

  lemma OneReplaced(f: FlowKey, length: nat, g: FlowKey, bytes: nat)
    requires f != g
    ensures TableStep(One(f, length), One(g, bytes), Counting(g, bytes), 1)
  {
    var nothing: Table := map[];
    assert One(f, length) - {f} == nothing;
    assert Smallest(One(f, length), f) && |One(f, length)| == 1;
    assert Room(One(f, length), nothing, g, 1);
    assert Bump(nothing, g, bytes) == One(g, bytes);
  }

  /** A run of two packets on which a table of one entry loses its largest flow. */
  lemma LargestLostAtCapOne(big: FlowKey, length: nat, small: FlowKey, bytes: nat)
    requires big != small && bytes < length
    ensures var ts := [map[], One(big, length), One(small, bytes)];
            && TableRun(ts, [Counting(big, length), Counting(small, bytes)], 1)
            && big in ts[1] && !HasAsLarge(ts[2], ts[1][big].bytes)
  {
    hide TableStep;
    FirstCounted(big, length);
    OneReplaced(big, length, small, bytes);
  }

  /** Whatever the run, no largest flow is lost if and only if there is room for two. */
  lemma LargestKeptExactlyWhen(cap: nat)
    requires cap > 0
    ensures KeepsLargest(cap) <==> cap >= 2
  {
    hide TableStep;
    if cap >= 2 {
      forall ts: seq<Table>, ps: seq<Counting>, i: nat, j: nat, f: FlowKey |
        TableRun(ts, ps, cap) && i <= j <= |ps| && f in ts[i]
        ensures HasAsLarge(ts[j], ts[i][f].bytes)
      {
        var g := LargestNeverShrinks(ts, ps, cap, i, j, f);
      }
    } else {
      var (big, small) := (FlowKey("big", ""), FlowKey("small", ""));
      LargestLostAtCapOne(big, 900, small, 1);
      var ts := [map[], One(big, 900), One(small, 1)];
      var ps := [Counting(big, 900), Counting(small, 1)];
      assert TableRun(ts, ps, cap) && 1 <= 2 <= |ps| && big in ts[1];
    }
  }

  // ----- what tables say about the log -----------------------------------------

  /** The table holds exactly the pairs seen, each with its exact counts. */
  ghost predicate Exact(m: Table, h: Log, kind: Kind, key: string, day: int) {
    && (forall f :: f in m <==> Tally(h, DaySplit(kind, key, day, f)).packets > 0)
    && (forall f | f in m :: m[f] == Tally(h, DaySplit(kind, key, day, f)))
    && Sum(m) == Tally(h, DayTotal(key, day))
  }

  /** A table that may have evicted entries: it never claims more than the log
      holds, and as long as the pairs seen fit under the cap it is exact. */
  ghost predicate Tracked(m: Table, h: Log, kind: Kind, key: string, day: int, cap: nat) {
    && |m| <= cap
    && (forall f | f in m :: 0 < m[f].packets && m[f].Within(Tally(h, DaySplit(kind, key, day, f))))
    && Sum(m).Within(Tally(h, DayTotal(key, day)))
    && (|Distinct(h, kind, key, day)| <= cap ==> Exact(m, h, kind, key, day))
  }

  lemma EmptyTables(h: Log, kind: Kind, key: string, day: int, cap: nat)
    requires Tally(h, DayTotal(key, day)).packets == 0
    ensures Exact(map[], h, kind, key, day) && Tracked(map[], h, kind, key, day, cap)
  {
    forall f ensures Tally(h, DaySplit(kind, key, day, f)).packets == 0 {
      SplitWithinTotal(h, kind, key, day, f);
    }
    SplitWithinTotal(h, kind, key, day, FlowKey("", ""));
  }

  lemma ExactEntry(m: Table, h: Log, e: Event, kind: Kind, key: string, day: int, g: FlowKey)
    requires Exact(m, h, kind, key, day)
    requires e.Accepted? && Matches(DayTotal(key, day), e.packet, e.sec, e.inbound)
    ensures var m' := Bump(m, PairOf(kind, e.packet), e.packet.length);
            var t := Tally(h + [e], DaySplit(kind, key, day, g));
            (g in m' <==> t.packets > 0) && (g in m' ==> m'[g] == t)
  {
    Append(h, e);
    SplitZero(h, kind, key, day, g);
  }

  lemma ExactStep(m: Table, h: Log, e: Event, kind: Kind, key: string, day: int)
    requires Exact(m, h, kind, key, day)
    requires e.Accepted? && Matches(DayTotal(key, day), e.packet, e.sec, e.inbound)
    ensures Exact(Bump(m, PairOf(kind, e.packet), e.packet.length), h + [e], kind, key, day)
  {
    var f := PairOf(kind, e.packet);
    var m' := Bump(m, f, e.packet.length);
    BumpSum(m, f, e.packet.length);
    Append(h, e);
    forall g ensures var t := Tally(h + [e], DaySplit(kind, key, day, g));
                     (g in m' <==> t.packets > 0) && (g in m' ==> m'[g] == t)
    {
      ExactEntry(m, h, e, kind, key, day, g);
    }
  }

  lemma {:induction false} SplitZero(h: Log, kind: Kind, key: string, day: int, f: FlowKey)
    ensures Tally(h, DaySplit(kind, key, day, f)).packets == 0 ==> Tally(h, DaySplit(kind, key, day, f)) == ZERO
  {
    if h == [] {
    } else {
      SplitZero(h[..|h| - 1], kind, key, day, f);
    }
  }

  lemma TrackedStep(m: Table, room: Table, h: Log, e: Event, kind: Kind, key: string, day: int, cap: nat)
    requires Tracked(m, h, kind, key, day, cap) && cap > 0
    requires e.Accepted? && Matches(DayTotal(key, day), e.packet, e.sec, e.inbound)
    requires Room(m, room, PairOf(kind, e.packet), cap)
    ensures Tracked(Bump(room, PairOf(kind, e.packet), e.packet.length), h + [e], kind, key, day, cap)
  {
    var f := PairOf(kind, e.packet);
    TrackedEntries(m, room, h, e, kind, key, day, cap);
    TrackedSum(m, room, h, e, kind, key, day, cap);
    BumpSize(m, room, f, cap, e.packet.length);
    TrackedExact(m, room, h, e, kind, key, day, cap);
    hide Room, Bump, Sum, Exact, Distinct, Tally, Matches, PairOf;
  }

  lemma TrackedEntries(m: Table, room: Table, h: Log, e: Event, kind: Kind, key: string, day: int, cap: nat)
    requires e.Accepted? && Matches(DayTotal(key, day), e.packet, e.sec, e.inbound)
    requires Tracked(m, h, kind, key, day, cap) && Room(m, room, PairOf(kind, e.packet), cap)
    ensures var after := Bump(room, PairOf(kind, e.packet), e.packet.length);
            forall g | g in after :: 0 < after[g].packets
                && after[g].Within(Tally(h + [e], DaySplit(kind, key, day, g)))
  {
    hide Sum, Exact, Distinct;
    Append(h, e);
  }

  lemma TrackedSum(m: Table, room: Table, h: Log, e: Event, kind: Kind, key: string, day: int, cap: nat)
    requires e.Accepted? && Matches(DayTotal(key, day), e.packet, e.sec, e.inbound)
    requires Tracked(m, h, kind, key, day, cap) && Room(m, room, PairOf(kind, e.packet), cap)
    ensures Sum(Bump(room, PairOf(kind, e.packet), e.packet.length)).Within(Tally(h + [e], DayTotal(key, day)))
  {
    hide Exact, Distinct, Room, Bump, Sum, PairOf, Left;
    BumpConserves(m, room, PairOf(kind, e.packet), cap, e.packet.length);
    Append(h, e);
  }

  lemma TrackedExact(m: Table, room: Table, h: Log, e: Event, kind: Kind, key: string, day: int, cap: nat)
    requires Tracked(m, h, kind, key, day, cap)
    requires e.Accepted? && Matches(DayTotal(key, day), e.packet, e.sec, e.inbound)
    requires Room(m, room, PairOf(kind, e.packet), cap)
    ensures |Distinct(h + [e], kind, key, day)| <= cap ==>
              Exact(Bump(room, PairOf(kind, e.packet), e.packet.length), h + [e], kind, key, day)
  {
    var f := PairOf(kind, e.packet);
    var before, after := Distinct(h, kind, key, day), Distinct(h + [e], kind, key, day);
    Append(h, e);
    assert after == before + {f};
    if |after| <= cap {
      if f in before { assert after == before; }
      assert |before| <= |after|;
      assert m.Keys == before by {
        forall g ensures g in m <==> g in before { SplitWithinTotal(h, kind, key, day, g); }
      }
      assert |m| == |m.Keys|;
      assert room == m;
      ExactStep(m, h, e, kind, key, day);
    }
  }
}

/** The plain packet log that the traffic store must agree with.

    A run of the store is a sequence of events.  What the store should report
    is defined here from the events alone: how many packets and bytes match a
    question since the last reset of the client the question is about, which
    days a shard was active, and which interfaces a client has registered. */
module PacketLog {
  import opened Common

  const SECONDS_PER_DAY: nat := 86400

  datatype Counter = Counter(packets: nat, bytes: nat) {
    function Plus(o: Counter): Counter {
      Counter(packets + o.packets, bytes + o.bytes)
    }

    predicate Within(o: Counter) {
      packets <= o.packets && bytes <= o.bytes
    }

    function Wrapped(): Counter {
      Counter(packets % U64, bytes % U64)
    }
  }

  const ZERO := Counter(0, 0)

  datatype FlowKey = FlowKey(src: string, dst: string)

  datatype Packet = Packet(client: string, iface: string, src: string, dst: string,
                           srcCountry: string, dstCountry: string,
                           srcEntity: string, dstEntity: string, length: nat)

  /** Everything that changes what the store reports.  Overflow is the reset the
      store performs on its own, immediately before it counts a packet that
      would have pushed a counter past 64 bits. */
  datatype Event =
    | Accepted(packet: Packet, sec: int, inbound: bool)
    | Rejected(client: string)
    | Purged(client: string)
    | Overflow(client: string)

  type Log = seq<Event>

  datatype Kind = Flow | Country | Entity

  datatype Unit = Minute | Hour

  /** The questions one can ask of the log. */
  datatype Query =
    | DayTotal(key: string, day: int)
    | DaySplit(kind: Kind, key: string, day: int, pair: FlowKey)
    | History(unit: Unit, client: string, epoch: nat, inbound: bool)

  // ----- time ------------------------------------------------------------

  /** C++ division truncates toward zero, so the source shifts negative times
      before dividing. */
  function DayIndex(sec: int): (day: int)
    ensures day * SECONDS_PER_DAY <= sec < (day + 1) * SECONDS_PER_DAY
  {
    if sec >= 0 then sec / SECONDS_PER_DAY else -((SECONDS_PER_DAY - 1 - sec) / SECONDS_PER_DAY)
  }

  function UnitSeconds(unit: Unit): nat {
    match unit case Minute => 60 case Hour => 3600
  }

  /** Whole minutes or hours since the epoch; times before it count as zero. */
  function EpochOf(unit: Unit, sec: int): (epoch: nat)
    ensures if sec > 0 then epoch * UnitSeconds(unit) <= sec < (epoch + 1) * UnitSeconds(unit) else epoch == 0
  {
    if sec > 0 then sec / UnitSeconds(unit) else 0
  }

  // ----- "client|iface" keys -----------------------------------------------

  predicate NoBar(s: string) {
    '|' !in s
  }

  function CiKey(client: string, iface: string): string {
    client + "|" + iface
  }

  /** The part of a key before its first bar. */
  function ClientOf(key: string): string {
    if key == "" || key[0] == '|' then "" else [key[0]] + ClientOf(key[1..])
  }

  predicate HasPrefix(s: string, prefix: string) {
    |s| >= |prefix| && s[..|prefix|] == prefix
  }

  lemma {:induction false} ClientOfKey(client: string, iface: string)
    requires NoBar(client)
    ensures ClientOf(CiKey(client, iface)) == client
  {
    if client == "" {
    } else {
      ClientOfKey(client[1..], iface);
      assert CiKey(client, iface)[1..] == CiKey(client[1..], iface);
      assert CiKey(client, iface)[0] == client[0];
    }
  }

  lemma {:induction false} ClientOfPrefix(key: string)
    requires '|' in key
    ensures NoBar(ClientOf(key)) && HasPrefix(key, ClientOf(key) + "|")
  {
    if key[0] == '|' {
    } else {
      ClientOfPrefix(key[1..]);
      var c := ClientOf(key[1..]);
      assert ClientOf(key) == [key[0]] + c;
      assert key == [key[0]] + key[1..];
      assert key[..|c| + 2] == [key[0]] + key[1..][..|c| + 1];
    }
  }

  /** The prefix test that the store uses to find a client's entries selects
      exactly the keys of that client. */
  lemma PrefixSelectsClient(key: string, client: string)
    requires '|' in key && NoBar(client)
    ensures HasPrefix(key, client + "|") <==> ClientOf(key) == client
  {
    ClientOfPrefix(key);
    if HasPrefix(key, client + "|") {
      var iface := key[|client| + 1..];
      assert key == CiKey(client, iface);
      ClientOfKey(client, iface);
    }
  }

  // ----- tallies -------------------------------------------------------------

  function QueryClient(q: Query): string {
    match q
    case DayTotal(k, _) => ClientOf(k)
    case DaySplit(_, k, _, _) => ClientOf(k)
    case History(_, c, _, _) => c
  }

  function PairOf(kind: Kind, p: Packet): FlowKey {
    match kind
    case Flow => FlowKey(p.src, p.dst)
    case Country => FlowKey(p.srcCountry, p.dstCountry)
    case Entity => FlowKey(p.srcEntity, p.dstEntity)
  }

  predicate Matches(q: Query, p: Packet, sec: int, inbound: bool) {
    match q
    case DayTotal(k, d) => CiKey(p.client, p.iface) == k && DayIndex(sec) == d
    case DaySplit(kind, k, d, pair) =>
      CiKey(p.client, p.iface) == k && DayIndex(sec) == d && PairOf(kind, p) == pair
    case History(unit, c, epoch, inb) => p.client == c && EpochOf(unit, sec) == epoch && inbound == inb
  }

  function Next(c: Counter, e: Event, q: Query): Counter {
    match e
    case Accepted(p, sec, inbound) =>
      if Matches(q, p, sec, inbound) then c.Plus(Counter(1, p.length)) else c
    case Rejected(_) => c
    case Purged(x) => if x == QueryClient(q) then ZERO else c
    case Overflow(x) => if x == QueryClient(q) then ZERO else c
  }

  /** Packets and bytes of the accepted packets that match q and came after the
      last reset of q's client. */
  function Tally(h: Log, q: Query): Counter {
    if h == [] then ZERO else Next(Tally(h[..|h| - 1], q), h[|h| - 1], q)
  }

  /** The times of the packets that a tally counts, in order. */
  function Times(h: Log, q: Query): seq<int> {
    if h == [] then [] else
      var rest := Times(h[..|h| - 1], q);
      match h[|h| - 1]
      case Accepted(p, sec, inbound) => if Matches(q, p, sec, inbound) then rest + [sec] else rest
      case Rejected(_) => rest
      case Purged(x) => if x == QueryClient(q) then [] else rest
      case Overflow(x) => if x == QueryClient(q) then [] else rest
  }

  lemma TimesStep(h: Log, e: Event, q: Query)
    ensures e.Accepted? ==>
              Times(h + [e], q) == Times(h, q) + if Matches(q, e.packet, e.sec, e.inbound) then [e.sec] else []
    ensures e.Rejected? ==> Times(h + [e], q) == Times(h, q)
    ensures (e.Purged? || e.Overflow?) ==> Times(h + [e], q) == if e.client == QueryClient(q) then [] else Times(h, q)
  {
    assert (h + [e])[..|h|] == h;
  }

  lemma {:induction false} TimesCount(h: Log, q: Query)
    ensures |Times(h, q)| == Tally(h, q).packets
  {
    if h == [] {
    } else {
      TimesCount(h[..|h| - 1], q);
    }
  }

  lemma {:induction false} TimesOnDay(h: Log, kind: Kind, key: string, day: int, pair: FlowKey)
    ensures forall i | 0 <= i < |Times(h, DaySplit(kind, key, day, pair))| ::
              DayIndex(Times(h, DaySplit(kind, key, day, pair))[i]) == day
  {
    if h == [] {
    } else {
      TimesOnDay(h[..|h| - 1], kind, key, day, pair);
    }
  }

  /** Distinct pairs of one kind seen for a key on a day since the last reset. */
  function Distinct(h: Log, kind: Kind, key: string, day: int): set<FlowKey> {
    if h == [] then {} else
      var rest := Distinct(h[..|h| - 1], kind, key, day);
      match h[|h| - 1]
      case Accepted(p, sec, inbound) =>
        if Matches(DayTotal(key, day), p, sec, inbound) then rest + {PairOf(kind, p)} else rest
      case Rejected(_) => rest
      case Purged(x) => if x == ClientOf(key) then {} else rest
      case Overflow(x) => if x == ClientOf(key) then {} else rest
  }

  /** Interfaces registered for a client.  The reset that an overflow causes also
      forgets the registration of the interface whose packet caused it. */
  function Ifaces(h: Log, client: string): set<string> {
    if h == [] then {} else
      var rest := Ifaces(h[..|h| - 1], client);
      match h[|h| - 1]
      case Accepted(p, _, _) =>
        if p.client != client then rest
        else if |h| >= 2 && h[|h| - 2] == Overflow(client) then {}
        else rest + {p.iface}
      case Rejected(_) => rest
      case Purged(x) => if x == client then {} else rest
      case Overflow(x) => if x == client then {} else rest
  }

  /** Packets of a client turned away since its last reset. */
  function Rejections(h: Log, client: string): nat {
    if h == [] then 0 else
      var rest := Rejections(h[..|h| - 1], client);
      match h[|h| - 1]
      case Accepted(_, _, _) => rest
      case Rejected(x) => if x == client then rest + 1 else rest
      case Purged(x) => if x == client then 0 else rest
      case Overflow(x) => if x == client then 0 else rest
  }

  function EventClient(e: Event): string {
    match e
    case Accepted(p, _, _) => p.client
    case Rejected(c) => c
    case Purged(c) => c
    case Overflow(c) => c
  }

  predicate WellFormed(h: Log) {
    && (forall i | 0 <= i < |h| :: NoBar(EventClient(h[i])))
    && (forall i, j | 0 <= i < j < |h| && h[i].Accepted? && h[j].Accepted? :: h[i].sec <= h[j].sec)
  }

  lemma Append(h: Log, e: Event)
    ensures |h + [e]| == |h| + 1 && (h + [e])[..|h|] == h && (h + [e])[|h|] == e
    ensures forall q :: Tally(h + [e], q) == Next(Tally(h, q), e, q)
  {
    assert (h + [e])[..|h|] == h;
  }

  /** What a packet counts for: the pair of its addresses, of their countries, or of their entities,
      on its interface and day. */
  lemma PacketCounts(h: Log, p: Packet, sec: int, inbound: bool, key: string, day: int, src: string, dst: string)
    ensures var one := Counter(1, p.length);
            var here := CiKey(p.client, p.iface) == key && day * 86400 <= sec < (day + 1) * 86400;
            var (g, pair) := (h + [Accepted(p, sec, inbound)], FlowKey(src, dst));
            && Tally(g, DayTotal(key, day)) == Tally(h, DayTotal(key, day)).Plus(if here then one else ZERO)
            && Tally(g, DaySplit(Flow, key, day, pair))
               == Tally(h, DaySplit(Flow, key, day, pair))
                  .Plus(if here && p.src == src && p.dst == dst then one else ZERO)
            && Tally(g, DaySplit(Country, key, day, pair))
               == Tally(h, DaySplit(Country, key, day, pair))
                  .Plus(if here && p.srcCountry == src && p.dstCountry == dst then one else ZERO)
            && Tally(g, DaySplit(Entity, key, day, pair))
               == Tally(h, DaySplit(Entity, key, day, pair))
                  .Plus(if here && p.srcEntity == src && p.dstEntity == dst then one else ZERO)
  {
    Append(h, Accepted(p, sec, inbound));
    hide Tally, CiKey;
    OnDay(sec, day);
  }

  lemma OnDay(sec: int, day: int)
    ensures DayIndex(sec) == day <==> day * 86400 <= sec < (day + 1) * 86400
  {
  }

  /** An event of one client changes no answer about another client. */
  lemma OtherClient(h: Log, e: Event, q: Query)
    requires NoBar(EventClient(e)) && EventClient(e) != QueryClient(q)
    ensures Tally(h + [e], q) == Tally(h, q)
  {
    Append(h, e);
    match e
    case Accepted(p, sec, inbound) => ClientOfKey(p.client, p.iface);
    case _ =>
  }

  /** A split of a day's traffic never exceeds the day's total, and is present
      exactly when the pair was seen. */
  lemma {:induction false} SplitWithinTotal(h: Log, kind: Kind, key: string, day: int, pair: FlowKey)
    ensures Tally(h, DaySplit(kind, key, day, pair)).Within(Tally(h, DayTotal(key, day)))
    ensures pair in Distinct(h, kind, key, day) <==> Tally(h, DaySplit(kind, key, day, pair)).packets > 0
    ensures Tally(h, DayTotal(key, day)).packets == 0 ==> Distinct(h, kind, key, day) == {}
    ensures Tally(h, DayTotal(key, day)).packets == 0 ==> Tally(h, DayTotal(key, day)) == ZERO
  {
    if h == [] {
    } else {
      SplitWithinTotal(h[..|h| - 1], kind, key, day, pair);
    }
  }

  /** A key that was counted has a bar in it. */
  lemma {:induction false} CountedKeyHasBar(h: Log, key: string, day: int)
    requires Tally(h, DayTotal(key, day)).packets > 0
    ensures '|' in key
  {
    if h != [] && Tally(h[..|h| - 1], DayTotal(key, day)).packets > 0 {
      CountedKeyHasBar(h[..|h| - 1], key, day);
    } else {
      var p := h[|h| - 1].packet;
      assert CiKey(p.client, p.iface)[|p.client|] == '|';
    }
  }

  /** A client never has more interfaces with data than it has registered, plus
      the one interface whose packet caused the last overflow. */
  lemma {:induction false} DataIfacesRegistered(h: Log, client: string) returns (extra: string)
    requires WellFormed(h) && NoBar(client)
    ensures forall iface, day :: Tally(h, DayTotal(CiKey(client, iface), day)).packets > 0
              ==> iface in Ifaces(h, client) || iface == extra
    ensures (forall i | 0 <= i < |h| :: h[i] != Overflow(client))
              ==> forall iface, day :: Tally(h, DayTotal(CiKey(client, iface), day)).packets > 0
                    ==> iface in Ifaces(h, client)
  {
    extra := "";
    if h == [] {
    } else {
      var rest, e := h[..|h| - 1], h[|h| - 1];
      extra := DataIfacesRegistered(rest, client);
      if e.Accepted? && e.packet.client == client && |h| >= 2 && h[|h| - 2] == Overflow(client) {
        extra := e.packet.iface;
        assert h[..|h| - 1][..|h| - 2] == h[..|h| - 2];
      }
      forall iface, day | Tally(h, DayTotal(CiKey(client, iface), day)).packets > 0
        ensures iface in Ifaces(h, client) || iface == extra
        ensures (forall i | 0 <= i < |h| :: h[i] != Overflow(client)) ==> iface in Ifaces(h, client)
      {
        ClientOfKey(client, iface);
        if e.Accepted? {
          KeyInjective(e.packet.client, e.packet.iface, client, iface);
        }
      }
    }
  }

  lemma KeyInjective(c1: string, i1: string, c2: string, i2: string)
    requires NoBar(c1) && NoBar(c2)
    ensures CiKey(c1, i1) == CiKey(c2, i2) <==> c1 == c2 && i1 == i2
  {
    ClientOfKey(c1, i1);
    ClientOfKey(c2, i2);
    if CiKey(c1, i1) == CiKey(c2, i2) {
      assert i1 == CiKey(c1, i1)[|c1| + 1..];
      assert i2 == CiKey(c2, i2)[|c2| + 1..];
    }
  }

  // ----- active days of a shard ------------------------------------------------

  const SHARD_COUNT: nat := 16

  function ShardOf(hash: string -> nat, client: string): (si: nat)
    ensures si < SHARD_COUNT
  {
    hash(client) % SHARD_COUNT
  }

  /** The days on which a shard accepted a packet, in order of arrival, without
      immediate repetition. */
  function ActiveDays(h: Log, hash: string -> nat, si: nat): seq<int> {
    if h == [] then [] else
      var rest := ActiveDays(h[..|h| - 1], hash, si);
      match h[|h| - 1]
      case Accepted(p, sec, _) =>
        if ShardOf(hash, p.client) == si && (rest == [] || rest[|rest| - 1] != DayIndex(sec))
        then rest + [DayIndex(sec)] else rest
      case _ => rest
  }

  ghost predicate AcceptsOn(e: Event, hash: string -> nat, si: nat, day: int) {
    e.Accepted? && ShardOf(hash, e.packet.client) == si && DayIndex(e.sec) == day
  }

  ghost predicate Active(h: Log, hash: string -> nat, si: nat, day: int) {
    exists i :: 0 <= i < |h| && AcceptsOn(h[i], hash, si, day)
  }

  predicate StrictlyIncreasing(s: seq<int>) {
    forall i, j | 0 <= i < j < |s| :: s[i] < s[j]
  }

  function Last(s: seq<int>, n: nat): seq<int> {
    if |s| <= n then s else s[|s| - n..]
  }

  lemma WellFormedPrefix(h: Log, n: nat)
    requires WellFormed(h) && n <= |h|
    ensures WellFormed(h[..n])
  {
  }

  lemma ActiveStep(h: Log, e: Event, hash: string -> nat, si: nat, day: int)
    ensures Active(h + [e], hash, si, day) <==> Active(h, hash, si, day) || AcceptsOn(e, hash, si, day)
  {
    var h' := h + [e];
    if Active(h, hash, si, day) {
      var i :| 0 <= i < |h| && AcceptsOn(h[i], hash, si, day);
      assert AcceptsOn(h'[i], hash, si, day);
    }
    if AcceptsOn(e, hash, si, day) {
      assert AcceptsOn(h'[|h|], hash, si, day);
    }
    if Active(h', hash, si, day) {
      var i :| 0 <= i < |h'| && AcceptsOn(h'[i], hash, si, day);
      assert i < |h| ==> AcceptsOn(h[i], hash, si, day);
    }
  }

  lemma ActiveNotLater(h: Log, e: Event, hash: string -> nat, si: nat, day: int)
    requires WellFormed(h + [e]) && e.Accepted?
    requires Active(h, hash, si, day)
    ensures day <= DayIndex(e.sec)
  {
    var i :| 0 <= i < |h| && AcceptsOn(h[i], hash, si, day);
    assert (h + [e])[i] == h[i] && (h + [e])[|h|] == e;
  }

  /** Under a clock that never runs backwards the active days are strictly
      increasing and are exactly the days with an accepted packet. */
  lemma {:induction false} ActiveDaysOrdered(h: Log, hash: string -> nat, si: nat)
    requires WellFormed(h)
    ensures StrictlyIncreasing(ActiveDays(h, hash, si))
    ensures forall d :: d in ActiveDays(h, hash, si) <==> Active(h, hash, si, d)
  {
    if h == [] {
    } else {
      var rest, e := h[..|h| - 1], h[|h| - 1];
      assert h == rest + [e];
      WellFormedPrefix(h, |h| - 1);
      ActiveDaysOrdered(rest, hash, si);
      forall d ensures Active(h, hash, si, d) <==> Active(rest, hash, si, d) || AcceptsOn(e, hash, si, d) {
        ActiveStep(rest, e, hash, si, d);
      }
      forall d | d in ActiveDays(rest, hash, si) && e.Accepted? ensures d <= DayIndex(e.sec) {
        ActiveNotLater(rest, e, hash, si, d);
      }
      var days := ActiveDays(rest, hash, si);
      if e.Accepted? && days != [] {
        assert days[|days| - 1] in days;
        assert forall i | 0 <= i < |days| - 1 :: days[i] < days[|days| - 1];
      }
    }
  }

  /** The first packet counted for a key and day. */
  lemma FirstCounted(h: Log, e: Event, key: string, day: int)
    requires Tally(h + [e], DayTotal(key, day)).packets > 0 && Tally(h, DayTotal(key, day)).packets == 0
    ensures e.Accepted? && CiKey(e.packet.client, e.packet.iface) == key && DayIndex(e.sec) == day
  {
    Append(h, e);
    hide Tally;
  }

  /** Traffic counted for a day makes that day active in the client's shard. */
  lemma {:induction false} CountedDayActive(h: Log, hash: string -> nat, key: string, day: int)
    requires WellFormed(h)
    requires Tally(h, DayTotal(key, day)).packets > 0
    ensures Active(h, hash, ShardOf(hash, ClientOf(key)), day)
  {
    hide Active, DayIndex, ClientOf, CiKey;
    if h == [] {
      assert false;
    } else {
      var (rest, e) := (h[..|h| - 1], h[|h| - 1]);
      assert h == rest + [e];
      hide Tally;
      WellFormedPrefix(h, |h| - 1);
      if Tally(rest, DayTotal(key, day)).packets > 0 {
        CountedDayActive(rest, hash, key, day);
      } else {
        FirstCounted(rest, e, key, day);
        ClientOfKey(e.packet.client, e.packet.iface);
      }
      ActiveStep(rest, e, hash, ShardOf(hash, ClientOf(key)), day);
    }
  }

  /** The retained window, said without reference to any buffer: an active day is
      retained exactly when fewer than n active days are more recent. */
  lemma LastByRank(s: seq<int>, n: nat, d: int)
    requires StrictlyIncreasing(s) && n > 0
    ensures d in Last(s, n) <==> d in s && |set e | e in s && e > d| < n
  {
    if d in s {
      var i :| 0 <= i < |s| && s[i] == d;
      RankOfIndex(s, i);
      if i >= |s| - n && |s| > n {
        assert Last(s, n)[i - (|s| - n)] == d;
      }
      if d in Last(s, n) && |s| > n {
        var j :| 0 <= j < n && Last(s, n)[j] == d;
        assert s[|s| - n + j] == d;
      }
    }
  }

  lemma {:induction false} RankOfIndex(s: seq<int>, i: nat)
    requires StrictlyIncreasing(s) && i < |s|
    ensures |set e | e in s && e > s[i]| == |s| - 1 - i
    decreases |s| - i
  {
    var above := set e | e in s && e > s[i];
    if i == |s| - 1 {
      assert above == {};
    } else {
      RankOfIndex(s, i + 1);
      var next := set e | e in s && e > s[i + 1];
      forall e ensures e in above <==> e in next + {s[i + 1]} {
        if e in s && e > s[i] {
          var j :| 0 <= j < |s| && s[j] == e;
          assert j > i;
        }
      }
      assert above == next + {s[i + 1]};
    }
  }
}

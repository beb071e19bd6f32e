/** Per-client traffic history: a ring of 1440 one-minute slots and a ring of 168
    one-hour slots, each slot reused when its minute or hour comes round again. */
module HistoryRing {
  import opened Common
  import opened PacketLog

  const MINUTE_SLOTS: nat := 1440
  const HOUR_SLOTS: nat := 168
  const I64: nat := 0x8000_0000_0000_0000

  /** A slot whose epoch is 0 has not been written, or holds the very first
      minute (hour) of the epoch: the two are not told apart. */
  datatype Slot = Slot(epoch: nat, inBytes: nat, outBytes: nat, inPackets: nat, outPackets: nat)

  const EMPTY := Slot(0, 0, 0, 0, 0)

  datatype Ring = Ring(minutes: seq<Slot>, hours: seq<Slot>)

  const NEW_RING := Ring(seq(MINUTE_SLOTS, _ => EMPTY), seq(HOUR_SLOTS, _ => EMPTY))

  datatype Bucket = Bucket(t: nat, inBytes: nat, outBytes: nat, inPackets: nat, outPackets: nat)

  function SlotCount(unit: Unit): nat {
    match unit case Minute => MINUTE_SLOTS case Hour => HOUR_SLOTS
  }

  function SlotsOf(r: Ring, unit: Unit): seq<Slot> {
    match unit case Minute => r.minutes case Hour => r.hours
  }

  function Count(s: Slot, inbound: bool, length: nat): Slot {
    if inbound
    then s.(inBytes := (s.inBytes + length) % U64, inPackets := (s.inPackets + 1) % U64)
    else s.(outBytes := (s.outBytes + length) % U64, outPackets := (s.outPackets + 1) % U64)
  }

  function Record(slots: seq<Slot>, epoch: nat, inbound: bool, length: nat): seq<Slot>
    requires |slots| > 0
  {
    var j := epoch % |slots|;
    var s := if slots[j].epoch != epoch then Slot(epoch, 0, 0, 0, 0) else slots[j];
    slots[j := Count(s, inbound, length)]
  }

  // ----- what the rings say about the log ----------------------------------------

  ghost predicate Traffic(h: Log, unit: Unit, client: string, epoch: nat) {
    Tally(h, History(unit, client, epoch, true)).packets > 0
        || Tally(h, History(unit, client, epoch, false)).packets > 0
  }

  /** The client has had no traffic since its last reset. */
  ghost predicate NoHistory(h: Log, client: string) {
    forall unit, epoch: nat :: !Traffic(h, unit, client, epoch)
  }

  /** The counts of one minute or hour, as 64-bit counters hold them. */
  ghost function SlotOf(h: Log, unit: Unit, client: string, epoch: nat): Slot {
    var i := Tally(h, History(unit, client, epoch, true)).Wrapped();
    var o := Tally(h, History(unit, client, epoch, false)).Wrapped();
    Slot(epoch, i.bytes, o.bytes, i.packets, o.packets)
  }

  /** Every slot is either unwritten or exact for the latest minute (hour) with
      traffic among those that share the slot. */
  ghost predicate RingInv(slots: seq<Slot>, h: Log, unit: Unit, client: string) {
    && |slots| == SlotCount(unit)
    && (forall j | 0 <= j < |slots| ::
          if slots[j].epoch % |slots| == j then slots[j] == SlotOf(h, unit, client, slots[j].epoch)
          else slots[j] == EMPTY)
    && (forall j | 0 <= j < |slots| :: slots[j].epoch == 0 || Traffic(h, unit, client, slots[j].epoch))
    && (forall epoch: nat | Traffic(h, unit, client, epoch) :: slots[epoch % |slots|].epoch >= epoch)
  }

  /** The log so far is not later than now. */
  ghost predicate UpTo(h: Log, now: int) {
    forall i | 0 <= i < |h| && h[i].Accepted? :: h[i].sec <= now
  }

  lemma EpochMonotone(unit: Unit, a: int, b: int)
    requires a <= b
    ensures EpochOf(unit, a) <= EpochOf(unit, b)
  {
  }

  lemma {:induction false} TrafficNotLater(h: Log, unit: Unit, client: string, epoch: nat, now: int)
    requires UpTo(h, now) && Traffic(h, unit, client, epoch)
    ensures epoch <= EpochOf(unit, now)
  {
    var rest, e := h[..|h| - 1], h[|h| - 1];
    if Traffic(rest, unit, client, epoch) {
      TrafficNotLater(rest, unit, client, epoch, now);
    } else {
      EpochMonotone(unit, e.sec, now);
    }
  }

  lemma {:induction false} NoPacketsNoBytes(h: Log, q: Query)
    ensures Tally(h, q).packets == 0 ==> Tally(h, q) == ZERO
  {
    if h == [] {
    } else {
      NoPacketsNoBytes(h[..|h| - 1], q);
    }
  }

  lemma QuietSlot(h: Log, unit: Unit, client: string, epoch: nat)
    requires !Traffic(h, unit, client, epoch)
    ensures SlotOf(h, unit, client, epoch) == Slot(epoch, 0, 0, 0, 0)
  {
    NoPacketsNoBytes(h, History(unit, client, epoch, true));
    NoPacketsNoBytes(h, History(unit, client, epoch, false));
  }

  /** A fresh ring is right for a client without traffic. */
  lemma NewRing(h: Log, unit: Unit, client: string)
    requires forall epoch: nat :: !Traffic(h, unit, client, epoch)
    ensures RingInv(SlotsOf(NEW_RING, unit), h, unit, client)
  {
    QuietSlot(h, unit, client, 0);
  }

  lemma WrappedAdd(a: nat, b: nat)
    ensures (a % U64 + b) % U64 == (a + b) % U64
  {
  }

  lemma SlotStep(h: Log, e: Event, unit: Unit, epoch: nat)
    requires e.Accepted?
    ensures SlotOf(h + [e], unit, e.packet.client, epoch)
         == if EpochOf(unit, e.sec) == epoch
            then Count(SlotOf(h, unit, e.packet.client, epoch), e.inbound, e.packet.length)
            else SlotOf(h, unit, e.packet.client, epoch)
  {
    Append(h, e);
    var t := Tally(h, History(unit, e.packet.client, epoch, e.inbound));
    WrappedAdd(t.bytes, e.packet.length);
    WrappedAdd(t.packets, 1);
  }

  lemma TrafficStep(h: Log, e: Event, unit: Unit, epoch: nat)
    requires e.Accepted?
    ensures Traffic(h + [e], unit, e.packet.client, epoch)
       <==> Traffic(h, unit, e.packet.client, epoch) || EpochOf(unit, e.sec) == epoch
  {
    Append(h, e);
  }

  lemma RecordStep(slots: seq<Slot>, h: Log, e: Event, unit: Unit)
    requires e.Accepted? && UpTo(h, e.sec)
    requires RingInv(slots, h, unit, e.packet.client)
    ensures RingInv(Record(slots, EpochOf(unit, e.sec), e.inbound, e.packet.length), h + [e], unit, e.packet.client)
  {
    var c, epoch := e.packet.client, EpochOf(unit, e.sec);
    var n, j := |slots|, epoch % |slots|;
    var after := Record(slots, epoch, e.inbound, e.packet.length);
    forall x: nat ensures Traffic(h + [e], unit, c, x) <==> Traffic(h, unit, c, x) || epoch == x {
      TrafficStep(h, e, unit, x);
    }
    assert after[j] == SlotOf(h + [e], unit, c, epoch) by {
      SlotStep(h, e, unit, epoch);
      if slots[j].epoch != epoch {
        if Traffic(h, unit, c, epoch) {
          assert slots[j].epoch > epoch;
          TrafficNotLater(h, unit, c, slots[j].epoch, e.sec);
          assert false;
        }
        QuietSlot(h, unit, c, epoch);
      }
    }
    forall k | 0 <= k < n && k != j ensures after[k] == slots[k] && slots[k].epoch % n == k ==>
        slots[k] == SlotOf(h + [e], unit, c, slots[k].epoch)
    {
      SlotStep(h, e, unit, slots[k].epoch);
    }
    forall x: nat | Traffic(h, unit, c, x) && x % n == j ensures x <= epoch {
      TrafficNotLater(h, unit, c, x, e.sec);
    }
  }

  lemma MultipleGrows(n: int, q: int)
    requires n > 0
    ensures q >= 1 ==> n * q >= n
    ensures q <= -1 ==> n * q <= -n
  {
  }

  lemma SameResidue(a: nat, b: nat, n: nat)
    requires n > 0 && a <= b < a + n && a % n == b % n
    ensures a == b
  {
    var q := b / n - a / n;
    assert b - a == n * q;
    MultipleGrows(n, q);
  }

  /** Within one turn of the ring a slot is current exactly when its minute
      (hour) had traffic. */
  lemma CurrentSlot(slots: seq<Slot>, h: Log, unit: Unit, client: string, epoch: nat, now: int)
    requires RingInv(slots, h, unit, client) && UpTo(h, now)
    requires epoch <= EpochOf(unit, now) < epoch + |slots|
    ensures Traffic(h, unit, client, epoch) ==> slots[epoch % |slots|].epoch == epoch
    ensures slots[epoch % |slots|].epoch == epoch ==> slots[epoch % |slots|] == SlotOf(h, unit, client, epoch)
    ensures slots[epoch % |slots|].epoch == epoch > 0 ==> Traffic(h, unit, client, epoch)
  {
    var j := epoch % |slots|;
    if Traffic(h, unit, client, epoch) {
      var x := slots[j].epoch;
      if x > 0 {
        TrafficNotLater(h, unit, client, x, now);
        SameResidue(epoch, x, |slots|);
      }
    }
  }

  // ----- reading the minute ring ------------------------------------------------

  function ToBucket(s: Slot, unit: Unit): Bucket {
    Bucket(s.epoch * UnitSeconds(unit), s.inBytes, s.outBytes, s.inPackets, s.outPackets)
  }

  /** The reference answer: minutes lo, ..., hi - 1 that had traffic, in order. */
  ghost function BusyMinutes(h: Log, client: string, lo: nat, hi: nat): seq<Bucket> {
    if lo >= hi then [] else
      BusyMinutes(h, client, lo, hi - 1)
      + if Traffic(h, Minute, client, hi - 1) then [ToBucket(SlotOf(h, Minute, client, hi - 1), Minute)] else []
  }

  /** The bucket reported for minute 0 although nothing happened in it. */
  ghost function Phantom(h: Log, client: string, lo: int): seq<Bucket> {
    if lo <= 0 && !Traffic(h, Minute, client, 0) then [Bucket(0, 0, 0, 0, 0)] else []
  }

  /** b is the bucket of a minute with traffic from lo on and before hi. */
  ghost predicate MinuteReported(b: Bucket, h: Log, client: string, lo: nat, hi: nat) {
    exists m: nat :: lo <= m < hi && Traffic(h, Minute, client, m)
        && b == ToBucket(SlotOf(h, Minute, client, m), Minute)
  }

  lemma {:induction false} BusyMinutesAre(h: Log, client: string, lo: nat, hi: nat)
    ensures forall b :: b in BusyMinutes(h, client, lo, hi) <==> MinuteReported(b, h, client, lo, hi)
    ensures Ascending(BusyMinutes(h, client, lo, hi))
    ensures forall b | b in BusyMinutes(h, client, lo, hi) :: lo * 60 <= b.t < hi * 60
  {
    hide Traffic, SlotOf;
    if lo >= hi {
    } else {
      var rest := BusyMinutes(h, client, lo, hi - 1);
      BusyMinutesAre(h, client, lo, hi - 1);
      EpochOfSlot(h, client, hi - 1);
      forall b ensures MinuteReported(b, h, client, lo, hi)
        <==> MinuteReported(b, h, client, lo, hi - 1)
             || (Traffic(h, Minute, client, hi - 1) && b == ToBucket(SlotOf(h, Minute, client, hi - 1), Minute))
      {
      }
      assert forall i | 0 <= i < |rest| :: rest[i] in rest;
    }
  }

  lemma EpochOfSlot(h: Log, client: string, m: nat)
    ensures ToBucket(SlotOf(h, Minute, client, m), Minute).t == m * 60
  {
  }

  /** What the minute history lists, read at minute `last`: in ascending order the
      busy ones of the last n minutes, and nothing else exactly when n minutes have
      passed since the epoch or the client had traffic in the very first one. */
  lemma MinuteHistoryExactlyWhen(h: Log, client: string, last: nat, n: nat)
    requires 1 <= n <= MINUTE_SLOTS
    ensures var lo := if last + 1 >= n then last + 1 - n else 0;
            var busy := BusyMinutes(h, client, lo, last + 1);
            var out := Phantom(h, client, last - n + 1) + busy;
            && Ascending(out)
            && (forall b :: b in busy <==> MinuteReported(b, h, client, lo, last + 1))
            && (out == busy <==> last >= n || Traffic(h, Minute, client, 0))
  {
    hide Traffic, SlotOf;
    var lo: nat := if last + 1 >= n then last + 1 - n else 0;
    var busy := BusyMinutes(h, client, lo, last + 1);
    BusyMinutesAre(h, client, lo, last + 1);
    var out := Phantom(h, client, last - n + 1) + busy;
    if !(last >= n || Traffic(h, Minute, client, 0)) {
      forall i | 0 <= i < |busy| ensures busy[i].t > 0 {
        assert busy[i] in busy;
        var m: nat :| lo <= m < last + 1 && Traffic(h, Minute, client, m)
            && busy[i] == ToBucket(SlotOf(h, Minute, client, m), Minute);
        EpochOfSlot(h, client, m);
      }
      assert |out| == |busy| + 1;
    } else {
      assert out == busy;
    }
  }

  /** In the first minutes after the epoch a quiet minute 0 is listed all the same. */
  lemma QuietMinuteListed(p: Packet)
    ensures var h := [Accepted(p, 300, true)];
            !Traffic(h, Minute, p.client, 0) && Phantom(h, p.client, 5 - 10 + 1) == [Bucket(0, 0, 0, 0, 0)]
  {
    var e := Accepted(p, 300, true);
    assert [] + [e] == [e];
    TrafficStep([], e, Minute, 0);
  }

  /** A bucket's four counts are the exact sums as long as they fit in 64 bits. */
  lemma BucketIsExact(h: Log, unit: Unit, client: string, epoch: nat)
    ensures var (b, i, o) := (ToBucket(SlotOf(h, unit, client, epoch), unit),
                              Tally(h, History(unit, client, epoch, true)),
                              Tally(h, History(unit, client, epoch, false)));
            b == Bucket(epoch * UnitSeconds(unit), i.bytes, o.bytes, i.packets, o.packets)
            <==> i.bytes < U64 && o.bytes < U64 && i.packets < U64 && o.packets < U64
  {
    hide Tally, UnitSeconds;
    FitsUnwrapped(Tally(h, History(unit, client, epoch, true)));
    FitsUnwrapped(Tally(h, History(unit, client, epoch, false)));
    hide Counter.Wrapped;
  }

  lemma FitsUnwrapped(c: Counter)
    ensures c.Wrapped().bytes == c.bytes <==> c.bytes < U64
    ensures c.Wrapped().packets == c.packets <==> c.packets < U64
  {
  }

  /** One look at the ring per minute, oldest first.  The source computes the
      minute in unsigned arithmetic, so a window that reaches before the epoch
      asks for minutes near 2^64, which no slot holds. */
  method ReadMinutes(slots: seq<Slot>, nowMin: nat, n: nat, ghost h: Log, ghost client: string, ghost now: int)
    returns (out: seq<Bucket>)
    requires RingInv(slots, h, Minute, client) && UpTo(h, now)
    requires now < I64 && nowMin == EpochOf(Minute, now)
    requires 1 <= n <= MINUTE_SLOTS
    ensures out == Phantom(h, client, nowMin - n + 1)
                   + BusyMinutes(h, client, if nowMin + 1 >= n then nowMin + 1 - n else 0, nowMin + 1)
  {
    hide RingInv, Traffic, SlotOf, UpTo;
    out := [];
    ghost var lo: nat := if nowMin + 1 >= n then nowMin + 1 - n else 0;
    ghost var first := nowMin - n + 1;
    RingSize(slots, h, Minute, client);
    for i := 0 to n
      invariant first + i >= 1 ==> out == Phantom(h, client, first) + BusyMinutes(h, client, lo, first + i)
      invariant first + i < 1 ==> out == []
    {
      var em := (nowMin - (n - 1 - i)) % U64;
      var s := slots[em % MINUTE_SLOTS];
      if first + i >= 0 {
        assert em == first + i;
        MinuteHeld(slots, h, client, em, now);
        if em == 0 {
          FirstMinute(slots, h, client, now);
          assert BusyMinutes(h, client, lo, 0) == [];
        }
      } else {
        assert em == first + i + U64;
        NeverHeld(slots, h, client, em, now);
      }
      if s.epoch == em {
        out := out + [Bucket(em * 60, s.inBytes, s.outBytes, s.inPackets, s.outPackets)];
      }
    }
  }

  lemma RingSize(slots: seq<Slot>, h: Log, unit: Unit, client: string)
    requires RingInv(slots, h, unit, client)
    ensures |slots| == SlotCount(unit)
  {
  }

  lemma MinuteHeld(slots: seq<Slot>, h: Log, client: string, em: nat, now: int)
    requires RingInv(slots, h, Minute, client) && UpTo(h, now) && |slots| == MINUTE_SLOTS
    requires em <= EpochOf(Minute, now) < em + MINUTE_SLOTS
    ensures em > 0 ==> (slots[em % MINUTE_SLOTS].epoch == em <==> Traffic(h, Minute, client, em))
    ensures slots[em % MINUTE_SLOTS].epoch == em ==> slots[em % MINUTE_SLOTS] == SlotOf(h, Minute, client, em)
  {
    CurrentSlot(slots, h, Minute, client, em, now);
  }

  /** A minute after the clock is held by no slot. */
  lemma NeverHeld(slots: seq<Slot>, h: Log, client: string, em: nat, now: int)
    requires RingInv(slots, h, Minute, client) && UpTo(h, now) && |slots| == MINUTE_SLOTS
    requires em > EpochOf(Minute, now) && em > 0
    ensures slots[em % MINUTE_SLOTS].epoch != em
  {
    var s := slots[em % MINUTE_SLOTS];
    if s.epoch > 0 {
      TrafficNotLater(h, Minute, client, s.epoch, now);
    }
  }

  lemma FirstMinute(slots: seq<Slot>, h: Log, client: string, now: int)
    requires RingInv(slots, h, Minute, client) && UpTo(h, now) && EpochOf(Minute, now) < MINUTE_SLOTS
    ensures slots[0].epoch == 0
    ensures !Traffic(h, Minute, client, 0) ==> slots[0] == EMPTY
  {
    var x := slots[0].epoch;
    if x > 0 {
      TrafficNotLater(h, Minute, client, x, now);
    }
    if !Traffic(h, Minute, client, 0) {
      QuietSlot(h, Minute, client, 0);
    }
  }

  // ----- reading the hour ring -----------------------------------------------------

  /** The latest hour with traffic among those that share its slot. */
  ghost predicate LatestOfSlot(h: Log, client: string, hour: nat) {
    && Traffic(h, Hour, client, hour)
    && forall x: nat | x > hour && x % HOUR_SLOTS == hour % HOUR_SLOTS :: !Traffic(h, Hour, client, x)
  }

  predicate Ascending(s: seq<Bucket>) {
    forall i, j | 0 <= i < j < |s| :: s[i].t < s[j].t
  }

  predicate DistinctTimes(s: seq<Bucket>) {
    forall i, j | 0 <= i < j < |s| :: s[i].t != s[j].t
  }

  lemma NotYet(a: seq<Bucket>, i: nat, out: seq<Bucket>)
    requires i < |a| && DistinctTimes(a) && forall b :: b in out <==> b in a[..i]
    ensures forall j | 0 <= j < |out| :: out[j].t != a[i].t
  {
    forall j | 0 <= j < |out| ensures out[j].t != a[i].t {
      assert out[j] in a[..i];
    }
  }

  lemma Inserted(s: seq<Bucket>, k: nat, b: Bucket)
    requires Ascending(s) && k <= |s| && (forall j | 0 <= j < k :: s[j].t < b.t) && (k < |s| ==> b.t < s[k].t)
    ensures Ascending(s[..k] + [b] + s[k..])
    ensures forall c :: c in s[..k] + [b] + s[k..] <==> c in s || c == b
  {
    var r := s[..k] + [b] + s[k..];
    forall c ensures c in r <==> c in s || c == b {
      assert s == s[..k] + s[k..];
    }
    assert forall i | 0 <= i < |r| :: r[i] == if i < k then s[i] else if i == k then b else s[i - 1];
  }

  /** Orders buckets by time; on distinct times there is only one such order. */
  method SortByTime(a: seq<Bucket>) returns (out: seq<Bucket>)
    requires DistinctTimes(a)
    ensures Ascending(out)
    ensures forall b :: b in out <==> b in a
  {
    out := [];
    for i := 0 to |a|
      invariant Ascending(out)
      invariant forall b :: b in out <==> b in a[..i]
    {
      var k := 0;
      while k < |out| && out[k].t < a[i].t
        invariant 0 <= k <= |out| && forall j | 0 <= j < k :: out[j].t < a[i].t
      {
        k := k + 1;
      }
      NotYet(a, i, out);
      Inserted(out, k, a[i]);
      out := out[..k] + [a[i]] + out[k..];
      assert a[..i + 1] == a[..i] + [a[i]];
    }
    assert a[..|a|] == a;
  }

  ghost predicate FromSlot(b: Bucket, slots: seq<Slot>, n: nat) {
    exists j :: 0 <= j < n <= |slots| && slots[j].epoch != 0 && b == ToBucket(slots[j], Hour)
  }

  method WrittenHours(slots: seq<Slot>) returns (tmp: seq<Bucket>)
    requires forall j | 0 <= j < |slots| && slots[j].epoch != 0 :: slots[j].epoch % |slots| == j
    ensures DistinctTimes(tmp)
    ensures forall b :: b in tmp <==> FromSlot(b, slots, |slots|)
  {
    hide FromSlot, ToBucket;
    tmp := [];
    assert forall b :: !FromSlot(b, slots, 0) by { NoSlotsYet(slots); }
    for j := 0 to |slots|
      invariant DistinctTimes(tmp)
      invariant forall b :: b in tmp <==> FromSlot(b, slots, j)
    {
      ghost var before := tmp;
      if slots[j].epoch != 0 {
        var b := ToBucket(slots[j], Hour);
        forall k | 0 <= k < |tmp| ensures tmp[k].t != b.t {
          assert tmp[k] in tmp;
          NotSameHour(slots, j, tmp[k]);
        }
        tmp := tmp + [b];
      }
      forall b ensures b in tmp <==> FromSlot(b, slots, j + 1) {
        SlotAdded(slots, j, b);
      }
    }
  }

  lemma NoSlotsYet(slots: seq<Slot>)
    ensures forall b :: !FromSlot(b, slots, 0)
  {
  }

  /** Slots of different indices hold different hours. */
  lemma NotSameHour(slots: seq<Slot>, j: nat, b: Bucket)
    requires forall i | 0 <= i < |slots| && slots[i].epoch != 0 :: slots[i].epoch % |slots| == i
    requires j < |slots| && slots[j].epoch != 0 && FromSlot(b, slots, j)
    ensures b.t != ToBucket(slots[j], Hour).t
  {
    var i :| 0 <= i < j && slots[i].epoch != 0 && b == ToBucket(slots[i], Hour);
  }

  lemma SlotAdded(slots: seq<Slot>, j: nat, b: Bucket)
    requires j < |slots|
    ensures FromSlot(b, slots, j + 1)
       <==> FromSlot(b, slots, j) || (slots[j].epoch != 0 && b == ToBucket(slots[j], Hour))
  {
    if FromSlot(b, slots, j) {
      var i :| 0 <= i < j && slots[i].epoch != 0 && b == ToBucket(slots[i], Hour);
    }
  }

  /** b is the bucket of a reported hour; hour 0 never is. */
  ghost predicate HourReported(b: Bucket, h: Log, client: string) {
    exists hour: nat :: hour > 0 && LatestOfSlot(h, client, hour) && b == ToBucket(SlotOf(h, Hour, client, hour), Hour)
  }

  lemma SlotsReportLatest(slots: seq<Slot>, h: Log, client: string, b: Bucket)
    requires RingInv(slots, h, Hour, client)
    ensures FromSlot(b, slots, |slots|) <==> HourReported(b, h, client)
  {
    if FromSlot(b, slots, |slots|) {
      var j :| 0 <= j < |slots| && slots[j].epoch != 0 && b == ToBucket(slots[j], Hour);
      SlotIsLatest(slots, h, client, j);
    }
    if HourReported(b, h, client) {
      var hour: nat :| hour > 0 && LatestOfSlot(h, client, hour) && b == ToBucket(SlotOf(h, Hour, client, hour), Hour);
      LatestIsInSlot(slots, h, client, hour);
    }
  }

  method ReadHours(slots: seq<Slot>, ghost h: Log, ghost client: string) returns (out: seq<Bucket>)
    requires RingInv(slots, h, Hour, client)
    ensures Ascending(out)
    ensures forall b :: b in out <==> HourReported(b, h, client)
  {
    var tmp := WrittenHours(slots);
    out := SortByTime(tmp);
    forall b ensures b in out <==> HourReported(b, h, client) {
      SlotsReportLatest(slots, h, client, b);
    }
  }

  lemma SlotIsLatest(slots: seq<Slot>, h: Log, client: string, j: nat)
    requires RingInv(slots, h, Hour, client) && j < |slots| && slots[j].epoch != 0
    ensures LatestOfSlot(h, client, slots[j].epoch) && slots[j] == SlotOf(h, Hour, client, slots[j].epoch)
  {
  }

  lemma LatestIsInSlot(slots: seq<Slot>, h: Log, client: string, hour: nat)
    requires RingInv(slots, h, Hour, client) && LatestOfSlot(h, client, hour) && hour > 0
    ensures slots[hour % HOUR_SLOTS] == SlotOf(h, Hour, client, hour)
  {
  }

  /** An hour with traffic among the last 168 is the latest of its slot; it is reported
      exactly if it is not hour 0, which the ring takes for a slot not yet written. */
  lemma RecentHoursReported(h: Log, client: string, hour: nat, now: int)
    requires UpTo(h, now) && Traffic(h, Hour, client, hour) && hour <= EpochOf(Hour, now) < hour + HOUR_SLOTS
    ensures LatestOfSlot(h, client, hour)
    ensures HourReported(ToBucket(SlotOf(h, Hour, client, hour), Hour), h, client) <==> hour > 0
  {
    forall x: nat | x > hour && x % HOUR_SLOTS == hour % HOUR_SLOTS ensures !Traffic(h, Hour, client, x) {
      if Traffic(h, Hour, client, x) {
        TrafficNotLater(h, Hour, client, x, now);
        SameResidue(hour, x, HOUR_SLOTS);
        assert false;
      }
    }
    hide Traffic, LatestOfSlot;
    ReportedLater(h, client);
    TimeOfHour(h, client, hour);
  }

  lemma TimeOfHour(h: Log, client: string, hour: nat)
    ensures ToBucket(SlotOf(h, Hour, client, hour), Hour).t == hour * 3600
  {
  }

  lemma ReportedLater(h: Log, client: string)
    ensures forall b | HourReported(b, h, client) :: b.t >= 3600
  {
    hide LatestOfSlot, SlotOf;
    forall b | HourReported(b, h, client) ensures b.t >= 3600 {
      var hour: nat :| hour > 0 && LatestOfSlot(h, client, hour)
                       && b == ToBucket(SlotOf(h, Hour, client, hour), Hour);
      TimeOfHour(h, client, hour);
    }
  }

  /** The hourly history has the latest busy hour of every slot if and only if hour 0 is none of them. */
  lemma HourHistoryExactlyWhen(h: Log, client: string)
    ensures (forall hour: nat | LatestOfSlot(h, client, hour) ::
               HourReported(ToBucket(SlotOf(h, Hour, client, hour), Hour), h, client))
       <==> !LatestOfSlot(h, client, 0)
  {
    hide LatestOfSlot, SlotOf;
    ReportedLater(h, client);
    TimeOfHour(h, client, 0);
  }

  /** A busy hour that is not reported. */
  lemma FirstHourMissed(p: Packet)
    ensures var h := [Accepted(p, 300, true)];
            LatestOfSlot(h, p.client, 0) && !HourReported(ToBucket(SlotOf(h, Hour, p.client, 0), Hour), h, p.client)
  {
    var e := Accepted(p, 300, true);
    assert [] + [e] == [e];
    TrafficStep([], e, Hour, 0);
    RecentHoursReported([e], p.client, 0, 300);
  }

  // ----- the answers, without minutes and hours -------------------------------------

  /** Packets and bytes of the client from second lo on and before hi, in one direction, since the
      client's last reset. */
  function Between(h: Log, client: string, lo: int, hi: int, inbound: bool): Counter {
    if h == [] then ZERO else
      var rest := Between(h[..|h| - 1], client, lo, hi, inbound);
      match h[|h| - 1]
      case Accepted(p, sec, inb) =>
        if p.client == client && lo <= sec < hi && inb == inbound then rest.Plus(Counter(1, p.length)) else rest
      case Rejected(_) => rest
      case Purged(x) => if x == client then ZERO else rest
      case Overflow(x) => if x == client then ZERO else rest
  }

  predicate BusySpan(h: Log, client: string, t: int, length: nat) {
    Between(h, client, t, t + length, true).packets > 0 || Between(h, client, t, t + length, false).packets > 0
  }

  /** What came in the seconds from t on, as 64-bit counters hold it. */
  function SpanBucket(h: Log, client: string, t: nat, length: nat): Bucket {
    var i := Between(h, client, t, t + length, true).Wrapped();
    var o := Between(h, client, t, t + length, false).Wrapped();
    Bucket(t, i.bytes, o.bytes, i.packets, o.packets)
  }

  /** A listed bucket, unless it is that of time 0, is a span with traffic, of this length and not
      after now. */
  ghost predicate SoundSpans(out: seq<Bucket>, h: Log, client: string, length: nat, now: int)
    requires length > 0
  {
    forall b | b in out && b.t > 0 ::
      b.t % length == 0 && b.t <= now && BusySpan(h, client, b.t, length) && b == SpanBucket(h, client, b.t, length)
  }

  /** Every such span that begins after `since` is listed. */
  ghost predicate CompleteSpans(out: seq<Bucket>, h: Log, client: string, length: nat, since: int, now: int)
    requires length > 0
  {
    forall t: nat | t > 0 && t % length == 0 && since < t <= now && BusySpan(h, client, t, length) ::
      SpanBucket(h, client, t, length) in out
  }

  lemma InEpoch(unit: Unit, sec: int, epoch: nat)
    requires epoch > 0
    ensures EpochOf(unit, sec) == epoch <==> epoch * UnitSeconds(unit) <= sec < (epoch + 1) * UnitSeconds(unit)
  {
  }

  lemma {:induction false} TallyIsBetween(h: Log, unit: Unit, client: string, epoch: nat, inbound: bool)
    requires epoch > 0
    ensures Tally(h, History(unit, client, epoch, inbound))
         == Between(h, client, epoch * UnitSeconds(unit), (epoch + 1) * UnitSeconds(unit), inbound)
  {
    hide EpochOf, UnitSeconds, Counter.Plus;
    if h == [] {
    } else {
      TallyIsBetween(h[..|h| - 1], unit, client, epoch, inbound);
      var e := h[|h| - 1];
      if e.Accepted? {
        InEpoch(unit, e.sec, epoch);
      }
    }
  }

  /** The slot of a minute or hour holds what came from its first second on. */
  lemma SlotIsSpan(h: Log, unit: Unit, client: string, epoch: nat)
    requires epoch > 0
    ensures var t := epoch * UnitSeconds(unit);
            && (Traffic(h, unit, client, epoch) <==> BusySpan(h, client, t, UnitSeconds(unit)))
            && ToBucket(SlotOf(h, unit, client, epoch), unit) == SpanBucket(h, client, t, UnitSeconds(unit))
  {
    hide Tally, Between;
    assert (epoch + 1) * UnitSeconds(unit) == epoch * UnitSeconds(unit) + UnitSeconds(unit);
    TallyIsBetween(h, unit, client, epoch, true);
    TallyIsBetween(h, unit, client, epoch, false);
  }

  lemma NoSpans(h: Log, client: string, length: nat, unit: Unit, since: int, now: int)
    requires NoHistory(h, client) && length == UnitSeconds(unit)
    ensures SoundSpans([], h, client, length, now) && CompleteSpans([], h, client, length, since, now)
  {
    hide BusySpan, Traffic;
    forall t: nat | t > 0 && t % length == 0 ensures !BusySpan(h, client, t, length) {
      SlotIsSpan(h, unit, client, t / length);
    }
  }

  lemma MinuteShown(b: Bucket, h: Log, client: string, lo: nat, now: int)
    requires MinuteReported(b, h, client, lo, EpochOf(Minute, now) + 1) && b.t > 0
    ensures b.t % 60 == 0 && b.t <= now && BusySpan(h, client, b.t, 60) && b == SpanBucket(h, client, b.t, 60)
  {
    hide BusySpan, Traffic, SpanBucket, SlotOf, ToBucket;
    var m: nat :| lo <= m < EpochOf(Minute, now) + 1 && Traffic(h, Minute, client, m)
                  && b == ToBucket(SlotOf(h, Minute, client, m), Minute);
    EpochOfSlot(h, client, m);
    SlotIsSpan(h, Minute, client, m);
  }

  lemma MinuteFound(t: nat, h: Log, client: string, now: int, n: nat)
    requires t > 0 && t % 60 == 0 && now - 60 * n < t <= now && BusySpan(h, client, t, 60)
    ensures var last := EpochOf(Minute, now);
            MinuteReported(SpanBucket(h, client, t, 60), h, client, if last + 1 >= n then last + 1 - n else 0, last + 1)
  {
    hide BusySpan, Traffic, SpanBucket, SlotOf, ToBucket;
    SlotIsSpan(h, Minute, client, t / 60);
  }

  lemma OnlyTimeZero(h: Log, client: string, lo: int)
    ensures forall b | b in Phantom(h, client, lo) :: b.t == 0
  {
    hide Traffic;
  }

  lemma MinuteSpans(h: Log, client: string, now: int, n: nat)
    requires n > 0
    ensures var last := EpochOf(Minute, now);
            var out := Phantom(h, client, last - n + 1)
                       + BusyMinutes(h, client, if last + 1 >= n then last + 1 - n else 0, last + 1);
            SoundSpans(out, h, client, 60, now) && CompleteSpans(out, h, client, 60, now - 60 * n, now)
  {
    var last := EpochOf(Minute, now);
    var lo: nat := if last + 1 >= n then last + 1 - n else 0;
    var busy := BusyMinutes(h, client, lo, last + 1);
    var out := Phantom(h, client, last - n + 1) + busy;
    BusyMinutesAre(h, client, lo, last + 1);
    OnlyTimeZero(h, client, last - n + 1);
    hide BusySpan, Traffic, SpanBucket, BusyMinutes, EpochOf, MinuteReported, Phantom;
    forall b | b in out && b.t > 0
      ensures b.t % 60 == 0 && b.t <= now && BusySpan(h, client, b.t, 60) && b == SpanBucket(h, client, b.t, 60)
    {
      assert b in busy;
      MinuteShown(b, h, client, lo, now);
    }
    forall t: nat | t > 0 && t % 60 == 0 && now - 60 * n < t <= now && BusySpan(h, client, t, 60)
      ensures SpanBucket(h, client, t, 60) in out
    {
      MinuteFound(t, h, client, now, n);
    }
  }

  lemma HourShown(b: Bucket, h: Log, client: string, now: int)
    requires HourReported(b, h, client) && UpTo(h, now)
    ensures b.t % 3600 == 0 && b.t <= now && BusySpan(h, client, b.t, 3600) && b == SpanBucket(h, client, b.t, 3600)
  {
    var hour: nat :| hour > 0 && LatestOfSlot(h, client, hour) && b == ToBucket(SlotOf(h, Hour, client, hour), Hour);
    hide BusySpan, Traffic, SpanBucket, SlotOf, ToBucket, UpTo;
    TimeOfHour(h, client, hour);
    TrafficNotLater(h, Hour, client, hour, now);
    SlotIsSpan(h, Hour, client, hour);
  }

  lemma HourFound(t: nat, h: Log, client: string, now: int)
    requires t > 0 && t % 3600 == 0 && now - 3600 * 168 < t <= now && BusySpan(h, client, t, 3600) && UpTo(h, now)
    ensures HourReported(SpanBucket(h, client, t, 3600), h, client)
  {
    hide BusySpan, Traffic, SpanBucket, SlotOf, ToBucket, UpTo;
    SlotIsSpan(h, Hour, client, t / 3600);
    RecentHoursReported(h, client, t / 3600, now);
  }

  lemma HourSpans(out: seq<Bucket>, h: Log, client: string, now: int)
    requires UpTo(h, now) && forall b :: b in out <==> HourReported(b, h, client)
    ensures SoundSpans(out, h, client, 3600, now) && CompleteSpans(out, h, client, 3600, now - 3600 * 168, now)
  {
    hide BusySpan, SpanBucket, UpTo, HourReported;
    forall b | b in out && b.t > 0
      ensures b.t % 3600 == 0 && b.t <= now && BusySpan(h, client, b.t, 3600) && b == SpanBucket(h, client, b.t, 3600)
    {
      HourShown(b, h, client, now);
    }
    forall t: nat | t > 0 && t % 3600 == 0 && now - 3600 * 168 < t <= now && BusySpan(h, client, t, 3600)
      ensures SpanBucket(h, client, t, 3600) in out
    {
      HourFound(t, h, client, now);
    }
  }
}

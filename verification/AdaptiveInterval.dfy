/** The flush interval's feedback controller, with its moving average taken exactly. */
module AdaptiveInterval {
  import opened Common

  datatype Config = Config(targetLinesPerSec: UInt32, minIntervalMs: UInt32, maxIntervalMs: UInt32)

  /** Clamping is undefined for crossed limits. */
  predicate Proper(cfg: Config) {
    cfg.minIntervalMs <= cfg.maxIntervalMs
  }

  /** The interval at which so many flows a flush come out at the target rate. */
  function Desired(cfg: Config, flows: UInt32): UInt32 {
    if flows == 0 || cfg.targetLinesPerSec == 0 then cfg.maxIntervalMs else
      var d := flows * 1000 / cfg.targetLinesPerSec;
      if d > cfg.maxIntervalMs then cfg.maxIntervalMs
      else if d < cfg.minIntervalMs then cfg.minIntervalMs
      else d
  }

  lemma Fitted(d: nat, q: nat, n: nat, rate: nat, lo: nat, hi: nat)
    requires q * rate <= n < (q + 1) * rate && (d > lo ==> d <= q) && (d < hi ==> d >= q)
    ensures (d > lo ==> d * rate <= n) && (d < hi ==> (d + 1) * rate > n)
  {
    if d <= q {
      Scaled(d, q, rate);
    }
    if d >= q {
      Scaled(q, d, rate);
    }
  }

  lemma Unclamped(cfg: Config, flows: UInt32) returns (q: nat)
    requires Proper(cfg) && flows > 0 && cfg.targetLinesPerSec > 0
    ensures q * cfg.targetLinesPerSec <= 1000 * flows < (q + 1) * cfg.targetLinesPerSec
    ensures var d := Desired(cfg, flows);
            && Within(cfg, d) && (d > cfg.minIntervalMs ==> d <= q) && (d < cfg.maxIntervalMs ==> d >= q)
  {
    q := flows * 1000 / cfg.targetLinesPerSec;
    Quotient(flows * 1000, cfg.targetLinesPerSec);
  }

  lemma Quotient(n: nat, rate: nat)
    requires rate > 0
    ensures n / rate * rate <= n < (n / rate + 1) * rate
  {
  }

  lemma Scaled(a: nat, b: nat, rate: nat)
    requires a <= b
    ensures a * rate <= b * rate && (a + 1) * rate <= (b + 1) * rate
  {
  }

  /** The target is the longest interval, within the limits, for which the target rate allows no more
      lines than this flush had; for an idle flush it is the longest of all. */
  lemma DesiredIs(cfg: Config, flows: UInt32)
    requires Proper(cfg)
    ensures var (d, rate) := (Desired(cfg, flows), cfg.targetLinesPerSec);
            && Within(cfg, d)
            && (flows == 0 || rate == 0 ==> d == cfg.maxIntervalMs)
            && (flows > 0 && rate > 0 ==>
                  && (d > cfg.minIntervalMs ==> d * rate <= 1000 * flows)
                  && (d < cfg.maxIntervalMs ==> (d + 1) * rate > 1000 * flows))
  {
    if flows > 0 && cfg.targetLinesPerSec > 0 {
      var q := Unclamped(cfg, flows);
      hide Desired;
      Fitted(Desired(cfg, flows), q, 1000 * flows, cfg.targetLinesPerSec, cfg.minIntervalMs, cfg.maxIntervalMs);
    }
  }

  function Clamp(n: int, lo: UInt32, hi: UInt32): UInt32
    requires lo <= hi
  {
    if n < lo then lo else if n > hi then hi else n
  }

  function Next(cfg: Config, current: UInt32, flows: UInt32): UInt32
    requires Proper(cfg)
  {
    Clamp((7 * current + 3 * Desired(cfg, flows)) / 10, cfg.minIntervalMs, cfg.maxIntervalMs)
  }

  predicate Within(cfg: Config, ms: UInt32) {
    cfg.minIntervalMs <= ms <= cfg.maxIntervalMs
  }

  /** One update moves toward the target without passing it, and strictly so unless it
      is there or up to 3 ms below it. */
  lemma StepsCloser(cfg: Config, current: UInt32, flows: UInt32)
    requires Proper(cfg) && Within(cfg, current)
    ensures var (d, next) := (Desired(cfg, flows), Next(cfg, current, flows));
            && Within(cfg, d) && Within(cfg, next)
            && (current >= d ==> d <= next <= current)
            && (current <= d ==> current <= next <= d)
            && (next == current <==> d - 3 <= current <= d)
            && (current < d ==> next < d)
  {
    var d := Desired(cfg, flows);
    if current >= d {
      var k := current - d;
      assert (7 * current + 3 * d) / 10 == d + 7 * k / 10;
    } else {
      var k := d - current;
      assert (7 * current + 3 * d) / 10 == current + 3 * k / 10;
    }
  }

  /** The interval after n updates under a constant load. */
  function After(cfg: Config, start: UInt32, flows: UInt32, n: nat): UInt32
    requires Proper(cfg)
    decreases n
  {
    if n == 0 then start else After(cfg, Next(cfg, start, flows), flows, n - 1)
  }

  /** Under a constant load the interval settles: from above on the target itself, from
      below at most 3 ms short of it, and it takes no more updates than milliseconds. */
  lemma {:induction false} Settles(cfg: Config, start: UInt32, flows: UInt32, n: nat)
    requires Proper(cfg) && Within(cfg, start)
    ensures var (d, end) := (Desired(cfg, flows), After(cfg, start, flows, n));
            && Within(cfg, end)
            && (start >= d ==> d <= end <= start && (n >= start - d ==> end == d))
            && (start <= d ==> start <= end <= d && (n >= d - start ==> d - 3 <= end))
    decreases n
  {
    if n == 0 {
    } else {
      StepsCloser(cfg, start, flows);
      Settles(cfg, Next(cfg, start, flows), flows, n - 1);
      hide Desired;
    }
  }

  function Pow(b: nat, n: nat): nat {
    if n == 0 then 1 else b * Pow(b, n - 1)
  }

  /** How far the interval is above its target, or more than 3 ms below. */
  function Off(d: UInt32, ms: UInt32): nat {
    if ms >= d then ms - d else if ms < d - 3 then d - 3 - ms else 0
  }

  /** One update takes off at least three tenths of that. */
  lemma OffShrinks(cfg: Config, current: UInt32, flows: UInt32)
    requires Proper(cfg) && Within(cfg, current)
    ensures 10 * Off(Desired(cfg, flows), Next(cfg, current, flows)) <= 7 * Off(Desired(cfg, flows), current)
  {
    StepsCloser(cfg, current, flows);
    hide Desired;
  }

  lemma ShrinkTwice(p: nat, q: nat, x: nat, y: nat, z: nat)
    requires p * x <= q * y && 10 * y <= 7 * z
    ensures 10 * p * x <= 7 * q * z
  {
    assert 10 * (p * x) <= 10 * (q * y) == q * (10 * y);
    assert q * (10 * y) <= q * (7 * z);
  }

  /** Under a constant load the interval closes in geometrically: after n updates at most
      (7/10)^n of what it was off is left, and as soon as that is below one millisecond
      the interval has settled. */
  lemma {:induction false} SettlesGeometrically(cfg: Config, start: UInt32, flows: UInt32, n: nat)
    requires Proper(cfg) && Within(cfg, start)
    ensures var (d, end) := (Desired(cfg, flows), After(cfg, start, flows, n));
            && Pow(10, n) * Off(d, end) <= Pow(7, n) * Off(d, start)
            && (Pow(7, n) * Off(d, start) < Pow(10, n) ==> Off(d, end) == 0)
    decreases n
  {
    if n == 0 {
    } else {
      var (d, next) := (Desired(cfg, flows), Next(cfg, start, flows));
      StepsCloser(cfg, start, flows);
      OffShrinks(cfg, start, flows);
      hide Desired, Next, Off;
      SettlesGeometrically(cfg, next, flows, n - 1);
      ShrinkTwice(Pow(10, n - 1), Pow(7, n - 1), Off(d, After(cfg, start, flows, n)), Off(d, next), Off(d, start));
    }
    if Pow(7, n) * Off(Desired(cfg, flows), start) < Pow(10, n) {
      BelowOne(Pow(10, n), Off(Desired(cfg, flows), After(cfg, start, flows, n)),
               Pow(7, n) * Off(Desired(cfg, flows), start));
    }
  }

  lemma AtLeastOnce(p: nat, x: nat)
    requires x >= 1
    ensures p * x >= p
  {
  }

  lemma BelowOne(p: nat, x: nat, y: nat)
    requires p * x <= y < p
    ensures x == 0
  {
    if x >= 1 {
      AtLeastOnce(p, x);
    }
  }

  lemma {:induction false} NeverFromBelow(cfg: Config, start: UInt32, flows: UInt32, n: nat)
    requires Proper(cfg) && Within(cfg, start) && start < Desired(cfg, flows)
    ensures After(cfg, start, flows, n) < Desired(cfg, flows)
    decreases n
  {
    if n == 0 {
    } else {
      StepsCloser(cfg, start, flows);
      NeverFromBelow(cfg, Next(cfg, start, flows), flows, n - 1);
    }
  }

  /** Under a constant load the target is ever reached if and only if the interval starts there or above. */
  lemma ReachedExactlyWhen(cfg: Config, start: UInt32, flows: UInt32)
    requires Proper(cfg) && Within(cfg, start)
    ensures (exists n: nat :: After(cfg, start, flows, n) == Desired(cfg, flows)) <==> start >= Desired(cfg, flows)
  {
    var d := Desired(cfg, flows);
    if start >= d {
      Settles(cfg, start, flows, start - d);
    } else {
      forall n: nat ensures After(cfg, start, flows, n) != d {
        NeverFromBelow(cfg, start, flows, n);
      }
    }
  }

  /** It can stop short: 997 ms for a target of 1000 never moves again. */
  lemma {:induction false} StopsShort(n: nat)
    ensures var cfg := Config(500, 100, 5000);
            Desired(cfg, 500) == 1000 && After(cfg, 997, 500, n) == 997
  {
    if n == 0 {
    } else {
      StopsShort(n - 1);
    }
  }

  class Interval {
    const cfg: Config
    var currentMs: UInt32

    predicate Valid()
      reads this
    {
      Proper(cfg) && Within(cfg, currentMs)
    }

    constructor (cfg: Config)
      requires Proper(cfg)
      ensures Valid() && this.cfg == cfg && currentMs == cfg.minIntervalMs
    {
      this.cfg := cfg;
      currentMs := cfg.minIntervalMs;
    }

    /** The product is taken in 64 bits and cannot overflow. */
    method Update(flowsEmitted: UInt32)
      requires Valid()
      modifies this
      ensures Valid() && currentMs == Next(cfg, old(currentMs), flowsEmitted)
      ensures 10 * currentMs <= 7 * old(currentMs) + 3 * Desired(cfg, flowsEmitted) < 10 * (currentMs + 1)
    {
      StepsCloser(cfg, currentMs, flowsEmitted);
      var desired: UInt32;
      if flowsEmitted == 0 || cfg.targetLinesPerSec == 0 {
        desired := cfg.maxIntervalMs;
      } else {
        var product: UInt64 := flowsEmitted * 1000;
        var d := product / cfg.targetLinesPerSec;
        desired := if d > cfg.maxIntervalMs then cfg.maxIntervalMs
                   else if d < cfg.minIntervalMs then cfg.minIntervalMs
                   else d;
      }
      currentMs := Clamp((7 * currentMs + 3 * desired) / 10, cfg.minIntervalMs, cfg.maxIntervalMs);
    }

    method Reset()
      requires Valid()
      modifies this
      ensures Valid() && currentMs == cfg.minIntervalMs
    {
      currentMs := cfg.minIntervalMs;
    }
  }
}

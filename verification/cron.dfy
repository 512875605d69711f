/** The cron matcher, `hudson.scheduler.CronTab`, belongs to a library
    outside this model. The evaluator only ever asks a parsed pattern for
    `floor(t)` and `ceil(t)`, so a pattern is modelled by those two
    searches plus the set of instants it matches, and the library's
    promise about them is the predicate `Valid`. */
module Cron {

  /** A parsed cron pattern over epoch-millisecond instants: which instants
      it matches, the instant its backward search returns (`floor`) and the
      instant its forward search returns (`ceil`). */
  datatype CronTab = CronTab(matches: int -> bool, floor: int -> int, ceil: int -> int)

  /** The contract assumed of the cron library: `floor(t)` is the latest
      matching instant at or before `t` and `ceil(t)` the earliest matching
      instant at or after `t`. */
  ghost predicate Valid(c: CronTab) {
    && (forall t :: c.floor(t) <= t && c.matches(c.floor(t)))
    && (forall t, s :: c.matches(s) && s <= t ==> s <= c.floor(t))
    && (forall t :: t <= c.ceil(t) && c.matches(c.ceil(t)))
    && (forall t, s :: c.matches(s) && t <= s ==> c.ceil(t) <= s)
  }

  /** Both searches are inclusive: at a matching instant they return that
      instant, and only there. */
  lemma ExactMatch(c: CronTab, t: int)
    requires Valid(c)
    ensures c.matches(t) <==> c.floor(t) == t
    ensures c.matches(t) <==> c.ceil(t) == t
  {
  }

  /** Between `t` and the next occurrence nothing matches, so the backward
      search lands on the same occurrence from anywhere in that stretch. */
  lemma FloorStable(c: CronTab, t: int, u: int)
    requires Valid(c)
    requires t <= u < c.ceil(t)
    ensures c.floor(u) == c.floor(t)
  {
    var f := c.floor(u);
    assert f <= t;
    assert f <= c.floor(t);
  }

  // ---------------------------------------------------------------------
  // A concrete pattern satisfying the contract
  // ---------------------------------------------------------------------

  /** True of the instants `offset + k * period`, for every integer `k`. */
  predicate OnBeat(period: int, offset: int, t: int)
    requires period > 0
  {
    (t - offset) % period == 0
  }

  /** The latest instant on the beat at or before `t`. */
  function BeatFloor(period: int, offset: int, t: int): int
    requires period > 0
  {
    t - (t - offset) % period
  }

  /** The earliest instant on the beat at or after `t`. */
  function BeatCeil(period: int, offset: int, t: int): int
    requires period > 0
  {
    if OnBeat(period, offset, t) then t else BeatFloor(period, offset, t) + period
  }

  /** A pattern that fires every `period` milliseconds starting from
      `offset`; in a fixed calendar without daylight saving this is what
      `0 0 * * *` (one day) or `0 * * * *` (one hour) denotes. */
  function Periodic(period: int, offset: int): (c: CronTab)
    requires period > 0
    ensures c.matches(offset)
  {
    CronTab(
      t => OnBeat(period, offset, t),
      t => BeatFloor(period, offset, t),
      t => BeatCeil(period, offset, t))
  }

  lemma MulAtLeast(x: int, p: int)
    requires x >= 1 && p > 0
    ensures x * p >= p
  {
  }

  lemma MulAtMost(x: int, p: int)
    requires x <= -1 && p > 0
    ensures x * p <= -p
  {
  }

  /** Every multiple of `p` leaves remainder zero. */
  lemma MultipleMod(q: int, p: int)
    requires p > 0
    ensures (q * p) % p == 0
  {
    var a := q * p;
    var q2, r := a / p, a % p;
    assert a == q2 * p + r;
    assert (q - q2) * p == r;
    if q - q2 >= 1 { MulAtLeast(q - q2, p); }
    if q - q2 <= -1 { MulAtMost(q - q2, p); }
  }

  /** Two distinct multiples of `p` lie at least `p` apart. */
  lemma MultiplesApart(a: int, b: int, p: int)
    requires p > 0 && a % p == 0 && b % p == 0
    requires b < a
    ensures b + p <= a
  {
    var qa, qb := a / p, b / p;
    assert a == qa * p && b == qb * p;
    assert (qa - qb) * p == a - b;
    if qa - qb <= -1 { MulAtMost(qa - qb, p); }
    if qa - qb >= 1 { MulAtLeast(qa - qb, p); }
  }

  /** The beat floor and the beat after it are both on the beat. */
  lemma BeatFloorOnBeat(period: int, offset: int, t: int)
    requires period > 0
    ensures OnBeat(period, offset, BeatFloor(period, offset, t))
    ensures OnBeat(period, offset, BeatFloor(period, offset, t) + period)
  {
    var d := t - offset;
    assert d - d % period == (d / period) * period;
    MultipleMod(d / period, period);
    assert d - d % period + period == (d / period + 1) * period;
    MultipleMod(d / period + 1, period);
  }

  /** The periodic pattern meets the library contract; in particular
      `Valid` can be met. */
  lemma PeriodicValid(period: int, offset: int)
    requires period > 0
    ensures Valid(Periodic(period, offset))
  {
    var c := Periodic(period, offset);
    forall t
      ensures c.floor(t) <= t && c.matches(c.floor(t))
    {
      BeatFloorOnBeat(period, offset, t);
    }
    forall t, s | c.matches(s) && s <= t
      ensures s <= c.floor(t)
    {
      BeatFloorOnBeat(period, offset, t);
      var f := BeatFloor(period, offset, t);
      if f < s {
        MultiplesApart(s - offset, f - offset, period);
      }
    }
    forall t
      ensures t <= c.ceil(t) && c.matches(c.ceil(t))
    {
      BeatFloorOnBeat(period, offset, t);
    }
    forall t, s | c.matches(s) && t <= s
      ensures c.ceil(t) <= s
    {
      BeatFloorOnBeat(period, offset, t);
      var f := BeatFloor(period, offset, t);
      if !OnBeat(period, offset, t) {
        MultiplesApart(s - offset, f - offset, period);
      }
    }
  }
}

/** One reservation rule, `CronSquatter.Entry`: a size, a cron pattern
    giving the instants a reservation starts, and a duration. Each
    occurrence `s` of the pattern opens the window `[s, s + duration)`;
    while `t` lies in the window opened by the latest occurrence at or
    before it, the entry holds its size of the node's executors. */
module Entries {
  import opened Cron

  /** The stored size written as `*` in the rule text: every executor of
      the node, whatever their number when the rule is evaluated. */
  const AllExecutors: int := -1

  /** A parsed rule. `size` is a Java `int`, any negative value meaning
      "all executors"; `duration` is in milliseconds. */
  datatype Entry = Entry(size: int, cron: CronTab, duration: int)

  /** `getReservationSize`: a negative stored size resolves to the node's
      executor count, any other stored size is taken as it is. The node is
      reduced to its executor count, which is never negative. */
  function ReservationSize(e: Entry, executors: nat): (r: nat)
    ensures e.size < 0 ==> r == executors
    ensures e.size >= 0 ==> r == e.size
    ensures r >= 0
  {
    if e.size < 0 then executors else e.size
  }

  /** The end (exclusive) of the window opened by the latest occurrence at
      or before `t`. */
  function WindowEnd(e: Entry, t: int): int {
    e.cron.floor(t) + e.duration
  }

  /** `t` lies in the window `[floor(t), floor(t) + duration)`. */
  predicate InWindow(e: Entry, t: int) {
    e.cron.floor(t) <= t < WindowEnd(e, t)
  }

  /** `Entry.sizeOfReservation`: how many executors this entry holds at
      `t`, which is all or nothing of its resolved size. */
  function SizeOfReservation(e: Entry, executors: nat, t: int): (r: nat)
    ensures r == 0 || r == ReservationSize(e, executors)
    ensures InWindow(e, t) ==> r == ReservationSize(e, executors)
    ensures !InWindow(e, t) ==> r == 0
  {
    var start := e.cron.floor(t);
    if start <= t && t < start + e.duration then ReservationSize(e, executors) else 0
  }

  /** `Entry.timeOfNextChange`: the earliest instant, at or after `t`, from
      which this entry's holding may differ from its holding at `t`. It is
      never later than the next occurrence, nor than the close of a window
      that is still open at `t`. */
  function TimeOfNextChange(e: Entry, t: int): (r: int)
    ensures r <= e.cron.ceil(t)
    ensures t < WindowEnd(e, t) ==> r <= WindowEnd(e, t)
    ensures r == e.cron.ceil(t) || (t < r && r == WindowEnd(e, t))
  {
    var end := e.cron.floor(t) + e.duration;
    var start := e.cron.ceil(t);
    if t < end then (if end <= start then end else start) else start
  }

  /** The window test against the latest occurrence alone is the same as
      asking whether ANY occurrence's window covers `t`: an entry whose
      windows overlap still holds its size once, not once per window. */
  lemma ActiveIffCovered(e: Entry, t: int)
    requires Valid(e.cron)
    ensures InWindow(e, t) <==> exists s :: e.cron.matches(s) && s <= t < s + e.duration
  {
    if exists s :: e.cron.matches(s) && s <= t < s + e.duration {
      var s :| e.cron.matches(s) && s <= t < s + e.duration;
      assert s <= e.cron.floor(t);
    }
    if InWindow(e, t) {
      assert e.cron.matches(e.cron.floor(t));
    }
  }

  /** The next change is never in the past. */
  lemma NextChangeNotBefore(e: Entry, t: int)
    requires Valid(e.cron)
    ensures t <= TimeOfNextChange(e, t)
  {
    assert t <= e.cron.ceil(t);
  }

  /** The answer is `t` itself exactly when `t` is an occurrence of the
      pattern: a caller that re-queries at the returned instant then gets
      the same instant back and has to step past it on its own. */
  lemma NextChangeIsNowIffOccurrence(e: Entry, t: int)
    requires Valid(e.cron)
    ensures TimeOfNextChange(e, t) == t <==> e.cron.matches(t)
  {
    ExactMatch(e.cron, t);
  }

  /** The promise callers rely on: from `t` up to (not including) the
      returned instant, the entry holds exactly what it holds at `t`, for
      every node. */
  lemma EntryStableUntilNextChange(e: Entry, executors: nat, t: int, u: int)
    requires Valid(e.cron)
    requires t <= u < TimeOfNextChange(e, t)
    ensures SizeOfReservation(e, executors, u) == SizeOfReservation(e, executors, t)
  {
    FloorStable(e.cron, t, u);
  }

  /** The returned instant is a real event when it lies ahead of `t`: the
      window closes there (the entry is in its window just before and out
      of it at that instant), or a new occurrence starts there. */
  lemma NextChangeIsEventBoundary(e: Entry, t: int)
    requires Valid(e.cron)
    requires t < TimeOfNextChange(e, t)
    ensures var r := TimeOfNextChange(e, t);
            InWindow(e, r - 1) != InWindow(e, r) || e.cron.matches(r)
  {
    var r := TimeOfNextChange(e, t);
    if r != e.cron.ceil(t) {
      FloorStable(e.cron, t, r - 1);
      FloorStable(e.cron, t, r);
    }
  }
}

/** Worked examples: a few concrete schedules, with the answers the
    evaluator gives for them. */
module Scenarios {
  import opened Results
  import opened Cron
  import opened Entries
  import opened RuleFormat
  import CronSquatter

  const Minute: int := 60 * 1000
  const Hour: int := 60 * Minute
  const Day: int := 24 * Hour

  /** `*:0 0 * * *:60` on a 4-executor node: all four executors are held
      from midnight for one hour, and none after that. */
  lemma MidnightHour()
    ensures var e := Entry(AllExecutors, Periodic(Day, 0), 60 * Minute);
            && SizeOfReservation(e, 4, 30 * Minute) == 4
            && SizeOfReservation(e, 4, 90 * Minute) == 0
            && TimeOfNextChange(e, 30 * Minute) == Hour
            && TimeOfNextChange(e, 90 * Minute) == Day
  {
    var e := Entry(AllExecutors, Periodic(Day, 0), 60 * Minute);
    assert e.cron.floor(30 * Minute) == 0;
    assert e.cron.floor(90 * Minute) == 0;
    assert e.cron.ceil(30 * Minute) == Day;
    assert e.cron.ceil(90 * Minute) == Day;
  }

  /** Two overlapping entries on the same node are added up, even beyond
      the node's executor count. */
  lemma OverlappingEntriesAdd()
    ensures var es := [Entry(AllExecutors, Periodic(Day, 0), 60 * Minute),
                       Entry(2, Periodic(Day, 0), 120 * Minute)];
            && CronSquatter.TotalReserved(es, 4, 30 * Minute) == 6
            && CronSquatter.TotalReserved(es, 4, 90 * Minute) == 2
            && CronSquatter.EarliestChange(es, 30 * Minute) == Hour
  {
    MidnightHour();
    var e := Entry(2, Periodic(Day, 0), 120 * Minute);
    var es := [Entry(AllExecutors, Periodic(Day, 0), 60 * Minute), e];
    assert es[1..] == [e] && es[1..][1..] == [];
    assert e.cron.floor(30 * Minute) == 0;
    assert e.cron.floor(90 * Minute) == 0;
    assert e.cron.ceil(30 * Minute) == Day;
    assert TimeOfNextChange(e, 30 * Minute) == 120 * Minute;
    assert CronSquatter.EarliestChange([e], 30 * Minute) == 120 * Minute;
    assert CronSquatter.EarliestChange(es, 30 * Minute)
           == CronSquatter.Min(TimeOfNextChange(es[0], 30 * Minute), CronSquatter.EarliestChange([e], 30 * Minute));
  }

  /** Any negative size, not only the `-1` that `*` stands for, means
      every executor; and the token `-1` reads the same as `*`. */
  lemma NegativeSizeMeansAll()
    ensures ReservationSize(Entry(-3, Periodic(Day, 0), Hour), 4) == 4
    ensures ParseSize("-1") == ParseSize("*") == Some(AllExecutors)
  {
  }
}

/** `CronSquatter` itself: the entries parsed from its rule text, and the
    two questions the host scheduler asks of them. How many executors of
    a node are reserved at an instant is the sum of what every entry
    holds, uncapped; when that answer may next change is the earliest of
    the entries' next changes, `Long.MAX_VALUE` when there are none. */
module CronSquatter {
  import opened Results
  import opened JavaStrings
  import opened Cron
  import opened RuleFormat
  import Entries

  type Entry = Entries.Entry

  /** A squatter: its rule text and the entries parsed from it. Only
      `Create` builds one, so the entries are always those of the text. */
  datatype Squatter = Squatter(format: string, entries: seq<Entry>)

  /** The constructor: parse the rule text, and refuse it whole when any
      rule line is bad. */
  function Create(format: string, parsePattern: PatternParser): (r: Result<Squatter, ParseError>)
    ensures r.Ok? <==> ParseFormat(format, parsePattern).Ok?
    ensures r.Ok? ==> r.value.format == format && r.value.entries == ParseFormat(format, parsePattern).value
    ensures r.Err? ==> r.error == ParseFormat(format, parsePattern).error
  {
    match ParseFormat(format, parsePattern)
    case Err(e) => Err(e)
    case Ok(entries) => Ok(Squatter(format, entries))
  }

  /** The executors every entry holds at `t`, added up. */
  function TotalReserved(entries: seq<Entry>, executors: nat, t: int): (r: nat)
    ensures entries == [] ==> r == 0
    ensures forall i :: 0 <= i < |entries| ==> Entries.SizeOfReservation(entries[i], executors, t) <= r
  {
    if entries == [] then 0
    else
      var rest := TotalReserved(entries[1..], executors, t);
      assert forall i :: 1 <= i < |entries| ==>
               Entries.SizeOfReservation(entries[i], executors, t) <= rest by {
        forall i | 1 <= i < |entries|
          ensures Entries.SizeOfReservation(entries[i], executors, t) <= rest
        {
          assert entries[i] == entries[1..][i - 1];
        }
      }
      Entries.SizeOfReservation(entries[0], executors, t) + rest
  }

  /** `Math.min` */
  function Min(a: int, b: int): (r: int)
    ensures r <= a && r <= b
    ensures r == a || r == b
  {
    if a <= b then a else b
  }

  /** The earliest of the entries' next changes, and `Long.MAX_VALUE`
      when that is earlier or there are no entries: a lower bound of
      every entry's next change that is attained by one of them (or is
      the sentinel). */
  function EarliestChange(entries: seq<Entry>, t: int): (r: int)
    ensures r <= LongMax
    ensures forall i :: 0 <= i < |entries| ==> r <= Entries.TimeOfNextChange(entries[i], t)
  {
    if entries == [] then LongMax
    else
      var rest := EarliestChange(entries[1..], t);
      assert forall i :: 1 <= i < |entries| ==> rest <= Entries.TimeOfNextChange(entries[i], t) by {
        forall i | 1 <= i < |entries|
          ensures rest <= Entries.TimeOfNextChange(entries[i], t)
        {
          assert entries[i] == entries[1..][i - 1];
        }
      }
      Min(Entries.TimeOfNextChange(entries[0], t), rest)
  }

  /** `CronSquatter.sizeOfReservation`: the loop over the entries, adding
      each entry's holding. */
  method SizeOfReservation(s: Squatter, executors: nat, t: int) returns (r: int)
    ensures r == TotalReserved(s.entries, executors, t)
    ensures r >= 0
  {
    r := 0;
    for i := 0 to |s.entries|
      invariant r == TotalReserved(s.entries[..i], executors, t)
    {
      TotalAppend(s.entries[..i], [s.entries[i]], executors, t);
      assert s.entries[..i + 1] == s.entries[..i] + [s.entries[i]];
      r := r + Entries.SizeOfReservation(s.entries[i], executors, t);
    }
    assert s.entries[..|s.entries|] == s.entries;
  }

  /** `CronSquatter.timeOfNextChange`: the loop over the entries, starting
      from `Long.MAX_VALUE` and keeping the smaller value. The node plays
      no part. */
  method TimeOfNextChange(s: Squatter, executors: nat, t: int) returns (r: int)
    ensures r == EarliestChange(s.entries, t)
  {
    r := LongMax;
    for i := 0 to |s.entries|
      invariant r == EarliestChange(s.entries[..i], t)
    {
      EarliestAppend(s.entries[..i], [s.entries[i]], t);
      assert s.entries[..i + 1] == s.entries[..i] + [s.entries[i]];
      r := Min(r, Entries.TimeOfNextChange(s.entries[i], t));
    }
    assert s.entries[..|s.entries|] == s.entries;
  }

  /** Splitting the entry list splits the sum. */
  lemma {:induction false} TotalAppend(a: seq<Entry>, b: seq<Entry>, executors: nat, t: int)
    ensures TotalReserved(a + b, executors, t) == TotalReserved(a, executors, t) + TotalReserved(b, executors, t)
  {
    if a == [] {
      assert a + b == b;
    } else {
      TotalAppend(a[1..], b, executors, t);
      assert (a + b)[0] == a[0];
      assert (a + b)[1..] == a[1..] + b;
    }
  }

  /** Splitting the entry list splits the minimum. */
  lemma {:induction false} EarliestAppend(a: seq<Entry>, b: seq<Entry>, t: int)
    ensures EarliestChange(a + b, t) == Min(EarliestChange(a, t), EarliestChange(b, t))
  {
    if a == [] {
      assert a + b == b;
    } else {
      EarliestAppend(a[1..], b, t);
      assert (a + b)[0] == a[0];
      assert (a + b)[1..] == a[1..] + b;
    }
  }

  /** Adding an entry never lowers the reserved total, and raises it by
      exactly what the new entry holds: overlapping entries add up. */
  lemma AddEntryTotal(entries: seq<Entry>, e: Entry, executors: nat, t: int)
    ensures TotalReserved(entries + [e], executors, t)
            == TotalReserved(entries, executors, t) + Entries.SizeOfReservation(e, executors, t)
    ensures TotalReserved(entries + [e], executors, t) >= TotalReserved(entries, executors, t)
  {
    TotalAppend(entries, [e], executors, t);
  }

  /** Adding an entry never delays the next change: it becomes the smaller
      of the old answer and the new entry's own. */
  lemma AddEntryEarliest(entries: seq<Entry>, e: Entry, t: int)
    ensures EarliestChange(entries + [e], t) == Min(EarliestChange(entries, t), Min(Entries.TimeOfNextChange(e, t), LongMax))
    ensures EarliestChange(entries + [e], t) <= EarliestChange(entries, t)
  {
    EarliestAppend(entries, [e], t);
  }

  /** Taking the same element off two equal multisets leaves equal rests. */
  lemma MultisetRemove(a: seq<Entry>, b: seq<Entry>, i: nat)
    requires multiset(a) == multiset(b)
    requires a != [] && i < |b| && b[i] == a[0]
    ensures multiset(a[1..]) == multiset(b[..i] + b[i + 1..])
  {
    var b' := b[..i] + b[i + 1..];
    assert b == b[..i] + [b[i]] + b[i + 1..];
    assert a == [a[0]] + a[1..];
    calc {
      multiset(a[1..]) + multiset([a[0]]);
      multiset(a);
      multiset(b);
      multiset(b[..i]) + multiset([b[i]]) + multiset(b[i + 1..]);
      multiset(b') + multiset([a[0]]);
    }
    forall x
      ensures multiset(a[1..])[x] == multiset(b')[x]
    {
      assert (multiset(a[1..]) + multiset([a[0]]))[x] == (multiset(b') + multiset([a[0]]))[x];
    }
  }

  /** Taking one entry out of the list takes its holding out of the sum and
      its next change out of the minimum. */
  lemma RemoveEntry(b: seq<Entry>, i: nat, executors: nat, t: int)
    requires i < |b|
    ensures TotalReserved(b, executors, t)
            == Entries.SizeOfReservation(b[i], executors, t) + TotalReserved(b[..i] + b[i + 1..], executors, t)
    ensures EarliestChange(b, t)
            == Min(Entries.TimeOfNextChange(b[i], t), EarliestChange(b[..i] + b[i + 1..], t))
  {
    assert b[..i] + ([b[i]] + b[i + 1..]) == b;
    assert ([b[i]] + b[i + 1..])[1..] == b[i + 1..];
    TotalAppend(b[..i], [b[i]] + b[i + 1..], executors, t);
    TotalAppend(b[..i], b[i + 1..], executors, t);
    EarliestAppend(b[..i], [b[i]] + b[i + 1..], t);
    EarliestAppend(b[..i], b[i + 1..], t);
  }

  /** Rearranging the entries changes neither answer: both aggregates are
      insensitive to the order of the rule lines. */
  lemma {:induction false} AggregatesIgnoreOrder(a: seq<Entry>, b: seq<Entry>, executors: nat, t: int)
    requires multiset(a) == multiset(b)
    ensures TotalReserved(a, executors, t) == TotalReserved(b, executors, t)
    ensures EarliestChange(a, t) == EarliestChange(b, t)
    decreases |a|
  {
    if a == [] {
      assert |b| == |multiset(b)| == 0;
    } else {
      assert a[0] in multiset(b);
      var i :| 0 <= i < |b| && b[i] == a[0];
      MultisetRemove(a, b, i);
      AggregatesIgnoreOrder(a[1..], b[..i] + b[i + 1..], executors, t);
      RemoveEntry(b, i, executors, t);
    }
  }

  /** The promise the host scheduler relies on to stop polling: from `t`
      up to (not including) the returned instant, the number of reserved
      executors stays what it is at `t`, for every node. */
  lemma {:induction false} StableUntilNextChange(entries: seq<Entry>, executors: nat, t: int, u: int)
    requires forall i :: 0 <= i < |entries| ==> Valid(entries[i].cron)
    requires t <= u < EarliestChange(entries, t)
    ensures TotalReserved(entries, executors, u) == TotalReserved(entries, executors, t)
  {
    if entries != [] {
      Entries.EntryStableUntilNextChange(entries[0], executors, t, u);
      assert forall i :: 0 <= i < |entries[1..]| ==> entries[1..][i] == entries[i + 1];
      StableUntilNextChange(entries[1..], executors, t, u);
    }
  }

  /** The next change is never in the past, given every pattern keeps the
      cron contract and `t` is a `long`. */
  lemma {:induction false} NextChangeNotBefore(entries: seq<Entry>, t: int)
    requires forall i :: 0 <= i < |entries| ==> Valid(entries[i].cron)
    requires t <= LongMax
    ensures t <= EarliestChange(entries, t)
  {
    if entries != [] {
      Entries.NextChangeNotBefore(entries[0], t);
      assert forall i :: 0 <= i < |entries[1..]| ==> entries[1..][i] == entries[i + 1];
      NextChangeNotBefore(entries[1..], t);
    }
  }

  /** The answer is one of the entries' own next changes, unless it is the
      `Long.MAX_VALUE` the loop starts from. */
  lemma {:induction false} EarliestAttained(entries: seq<Entry>, t: int)
    ensures EarliestChange(entries, t) == LongMax
            || exists i :: 0 <= i < |entries| && EarliestChange(entries, t) == Entries.TimeOfNextChange(entries[i], t)
  {
    if entries != [] {
      var rest := EarliestChange(entries[1..], t);
      EarliestAttained(entries[1..], t);
      if EarliestChange(entries, t) != Entries.TimeOfNextChange(entries[0], t) && rest != LongMax {
        var i :| 0 <= i < |entries[1..]| && rest == Entries.TimeOfNextChange(entries[1..][i], t);
        assert entries[1..][i] == entries[i + 1];
      }
    }
  }

  /** A squatter without entries reserves nothing and never changes. */
  lemma EmptySchedule(executors: nat, t: int)
    ensures TotalReserved([], executors, t) == 0
    ensures EarliestChange([], t) == LongMax
  {
  }
}

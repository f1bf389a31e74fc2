/** Model of the inclusive weekday/weekend day counter of the booking front end
    (`calculate_weekdays_weekends`). Dates are proleptic Gregorian day ordinals,
    numbered as Python's `date.toordinal()` numbers them: 0001-01-01 is 1. */
module Calendar {

  /** Ordinals of Python's `date.min` (0001-01-01) and `date.max` (9999-12-31). */
  const MinOrdinal: int := 1
  const MaxOrdinal: int := 3652059

  /** A day that Python's `date` type can represent. */
  type Date = d: int | MinOrdinal <= d <= MaxOrdinal witness MinOrdinal

  /** Python's `date.weekday()`, which is `(toordinal() + 6) % 7`:
      Monday is 0, Friday is 4, Saturday is 5 and Sunday is 6. */
  function Weekday(d: int): (w: int)
    ensures 0 <= w < 7
  {
    (d + 6) % 7
  }

  /** The test the loop applies to each date: Monday to Friday. */
  predicate IsWeekday(d: int) {
    Weekday(d) < 5
  }

  /** Number of Monday-to-Friday dates in the inclusive range [start, end]. */
  function CountWeekdays(start: int, end: int): (n: nat)
    ensures n <= if start <= end then end - start + 1 else 0
    decreases end - start
  {
    if start > end then 0
    else CountWeekdays(start, end - 1) + (if IsWeekday(end) then 1 else 0)
  }

  /** Number of Saturday/Sunday dates in the inclusive range [start, end]. */
  function CountWeekends(start: int, end: int): (n: nat)
    ensures n <= if start <= end then end - start + 1 else 0
    decreases end - start
  {
    if start > end then 0
    else CountWeekends(start, end - 1) + (if IsWeekday(end) then 0 else 1)
  }

  /** Reference definitions: the sets the two counters are meant to measure. */
  ghost function WeekdaySet(start: int, end: int): set<int> {
    set d | start <= d <= end && Weekday(d) < 5
  }

  ghost function WeekendSet(start: int, end: int): set<int> {
    set d | start <= d <= end && (Weekday(d) == 5 || Weekday(d) == 6)
  }

  /** Outcome of the loop as it is written: the two counters, or the
      `OverflowError` Python raises when a date is moved past `date.max`. */
  datatype Outcome = Counts(weekdays: nat, weekends: nat) | DateOverflow

  /** The counter as written: the cursor is advanced after every counted date,
      including the last one, so a range ending on `date.max` overflows. */
  method CalculateWeekdaysWeekends(start: Date, end: Date) returns (r: Outcome)
    ensures start <= end && end == MaxOrdinal ==> r == DateOverflow
    ensures !(start <= end && end == MaxOrdinal) ==>
      r == Counts(CountWeekdays(start, end), CountWeekends(start, end))
  {
    var weekdays: nat, weekends: nat := 0, 0;
    var current: Date := start;
    while current <= end
      invariant start <= current
      invariant start > end ==> current == start
      invariant start <= end ==> current <= end + 1
      invariant weekdays == CountWeekdays(start, current - 1)
      invariant weekends == CountWeekends(start, current - 1)
      decreases end - current
    {
      if Weekday(current) < 5 {
        weekdays := weekdays + 1;
      } else {
        weekends := weekends + 1;
      }
      if current == MaxOrdinal {
        return DateOverflow;
      }
      current := current + 1;
    }
    return Counts(weekdays, weekends);
  }

  /** The counter with the overflow removed: the loop stops on the last date
      instead of stepping past it, so every range of representable dates is
      counted. */
  method CalculateWeekdaysWeekendsNoOverflow(start: Date, end: Date) returns (weekdays: nat, weekends: nat)
    ensures weekdays == CountWeekdays(start, end)
    ensures weekends == CountWeekends(start, end)
  {
    weekdays, weekends := 0, 0;
    var current: Date := start;
    while current <= end
      invariant start <= current
      invariant start > end ==> current == start
      invariant start <= end ==> current <= end
      invariant weekdays == CountWeekdays(start, current - 1)
      invariant weekends == CountWeekends(start, current - 1)
      decreases end - current
    {
      if Weekday(current) < 5 {
        weekdays := weekdays + 1;
      } else {
        weekends := weekends + 1;
      }
      if current == end {
        break;
      }
      current := current + 1;
    }
  }

  /** Every date of a non-empty range is counted exactly once: the two
      counters add up to the number of calendar days (not nights). */
  lemma {:induction false} DaysArePartitioned(start: int, end: int)
    requires start <= end
    ensures CountWeekdays(start, end) + CountWeekends(start, end) == end - start + 1
    decreases end - start
  {
    if start < end {
      DaysArePartitioned(start, end - 1);
    }
  }

  /** An empty range (start after end) counts nothing. */
  lemma EmptyRange(start: int, end: int)
    requires start > end
    ensures CountWeekdays(start, end) == 0 && CountWeekends(start, end) == 0
  {
  }

  /** A one-day range counts that day as a weekday or as a weekend day. */
  lemma SingleDay(d: int)
    ensures CountWeekdays(d, d) == (if Weekday(d) < 5 then 1 else 0)
    ensures CountWeekends(d, d) == (if Weekday(d) < 5 then 0 else 1)
  {
  }

  /** The weekday counter measures the set of Monday-to-Friday dates. */
  lemma {:induction false} WeekdaysAreCounted(start: int, end: int)
    ensures CountWeekdays(start, end) == |WeekdaySet(start, end)|
    decreases end - start
  {
    if start > end {
      assert WeekdaySet(start, end) == {};
    } else {
      WeekdaysAreCounted(start, end - 1);
      if IsWeekday(end) {
        assert WeekdaySet(start, end) == WeekdaySet(start, end - 1) + {end};
      } else {
        assert WeekdaySet(start, end) == WeekdaySet(start, end - 1);
      }
    }
  }

  /** The weekend counter measures the set of Saturdays and Sundays. */
  lemma {:induction false} WeekendsAreCounted(start: int, end: int)
    ensures CountWeekends(start, end) == |WeekendSet(start, end)|
    decreases end - start
  {
    if start > end {
      assert WeekendSet(start, end) == {};
    } else {
      WeekendsAreCounted(start, end - 1);
      if IsWeekday(end) {
        assert WeekendSet(start, end) == WeekendSet(start, end - 1);
      } else {
        assert WeekendSet(start, end) == WeekendSet(start, end - 1) + {end};
      }
    }
  }

  /** Counts over adjacent ranges add up. */
  lemma {:induction false} CountsSplit(start: int, mid: int, end: int)
    requires start - 1 <= mid <= end
    ensures CountWeekdays(start, end) == CountWeekdays(start, mid) + CountWeekdays(mid + 1, end)
    ensures CountWeekends(start, end) == CountWeekends(start, mid) + CountWeekends(mid + 1, end)
    decreases end - mid
  {
    if mid < end {
      CountsSplit(start, mid, end - 1);
    }
  }

  /** Advancing a date by k days advances its weekday by k, modulo 7. */
  lemma WeekdayShift(d: int, k: int)
    ensures Weekday(d + k) == (Weekday(d) + k) % 7
  {
  }

  /** Any seven consecutive days hold five weekdays and two weekend days. */
  lemma {:induction false} FullWeek(start: int)
    ensures CountWeekdays(start, start + 6) == 5
    ensures CountWeekends(start, start + 6) == 2
  {
    var c0 := CountWeekdays(start, start);
    var c1 := CountWeekdays(start, start + 1);
    var c2 := CountWeekdays(start, start + 2);
    var c3 := CountWeekdays(start, start + 3);
    var c4 := CountWeekdays(start, start + 4);
    var c5 := CountWeekdays(start, start + 5);
    var c6 := CountWeekdays(start, start + 6);
    assert c0 == if IsWeekday(start) then 1 else 0;
    assert c1 == c0 + if IsWeekday(start + 1) then 1 else 0;
    assert c2 == c1 + if IsWeekday(start + 2) then 1 else 0;
    assert c3 == c2 + if IsWeekday(start + 3) then 1 else 0;
    assert c4 == c3 + if IsWeekday(start + 4) then 1 else 0;
    assert c5 == c4 + if IsWeekday(start + 5) then 1 else 0;
    assert c6 == c5 + if IsWeekday(start + 6) then 1 else 0;
    WeekdayShift(start, 1);
    WeekdayShift(start, 2);
    WeekdayShift(start, 3);
    WeekdayShift(start, 4);
    WeekdayShift(start, 5);
    WeekdayShift(start, 6);
    DaysArePartitioned(start, start + 6);
  }

  /** n whole weeks hold 5n weekdays and 2n weekend days. */
  lemma {:induction false} WholeWeeks(start: int, n: nat)
    ensures CountWeekdays(start, start + 7 * n - 1) == 5 * n
    ensures CountWeekends(start, start + 7 * n - 1) == 2 * n
  {
    if n > 0 {
      WholeWeeks(start, n - 1);
      CountsSplit(start, start + 7 * (n - 1) - 1, start + 7 * n - 1);
      FullWeek(start + 7 * (n - 1));
    }
  }

  /** Monday 2024-01-01 (ordinal 738886) through Sunday 2024-01-07 gives (5, 2). */
  lemma MondayToSunday()
    ensures Weekday(738886) == 0 && Weekday(738892) == 6
    ensures CountWeekdays(738886, 738892) == 5 && CountWeekends(738886, 738892) == 2
  {
    FullWeek(738886);
  }

  /** The input that exposes the overflow: `date.max` is a Friday, so the
      one-day range on it should give (1, 0); the loop as written overflows. */
  lemma MaxDateRange()
    ensures Weekday(MaxOrdinal) == 4
    ensures CountWeekdays(MaxOrdinal, MaxOrdinal) == 1 && CountWeekends(MaxOrdinal, MaxOrdinal) == 0
  {
  }
}

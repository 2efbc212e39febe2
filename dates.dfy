/** `get_dates`: the window of the `days` most recent calendar dates, today
    first, rendered `DD.MM.YYYY` (chat/server.py:15-25, and the identical copy
    at exchange_rates.py:12-22). */
module Dates {
  import opened Wrappers
  import opened Calendar

  /** How many items `range(days)` yields. */
  function Count(days: int): nat {
    if days > 0 then days else 0
  }

  /** The whole window lies in the years `'%Y'` renders with four digits:
      today is at most in year 9999, and the earliest date of the window (its
      ordinal is today's minus `days - 1`) is at least 1 January 1000. */
  predicate WindowInRange(today: Date, days: int) {
    && ValidDate(today) && today.year <= 9999
    && (days > 0 ==> DayNumber(today) - days >= DaysBeforeYear(1000))
  }

  /** Every date of a window in range has a four-digit year. */
  lemma InRangeAt(today: Date, days: int, i: nat)
    requires WindowInRange(today, days) && i < Count(days)
    ensures InFormatRange(Back(today, i))
  {
    BackDayNumber(today, i);
    YearFromDayNumber(Back(today, i), 1000);
  }

  /** The list `get_dates(days)` returns when the day is `today`: item `i`
      is the date `i` days back, rendered. */
  function Window(today: Date, days: int): (w: seq<string>)
    requires ValidDate(today)
    ensures |w| == Count(days)
  {
    seq(Count(days), i requires 0 <= i < Count(days) => Format(Back(today, i)))
  }

  /** `get_dates(days)`, with "today" a parameter. */
  method GetDates(days: int, today: Date) returns (dates: seq<string>)
    requires WindowInRange(today, days)
    ensures dates == Window(today, days)
  {
    dates := [];
    var d := 0;
    while d < days
      invariant 0 <= d <= Count(days)
      invariant dates == Window(today, d)
    {
      var date := Back(today, d);
      var dateStr := Format(date);
      WindowSnoc(today, d);
      dates := dates + [dateStr];
      d := d + 1;
    }
  }

  /** One more day appends the date one further back. */
  lemma WindowSnoc(today: Date, d: nat)
    requires ValidDate(today)
    ensures Window(today, d + 1) == Window(today, d) + [Format(Back(today, d))]
  {
    var w, w' := Window(today, d), Window(today, d + 1);
    forall k | 0 <= k < d ensures w'[k] == w[k] {
    }
  }

  /** Item `i` of the window reads back as the date whose ordinal is today's
      minus `i`: the first item is today and each item is one day before the
      previous one. Every item has the shape `DD.MM.YYYY`. */
  lemma WindowDates(today: Date, days: int, i: nat)
    requires WindowInRange(today, days) && i < Count(days)
    ensures i < |Window(today, days)|
    ensures IsDateString(Window(today, days)[i])
    ensures ParseDate(Window(today, days)[i]) == Some(Back(today, i))
    ensures DayNumber(Back(today, i)) == DayNumber(today) - i
    ensures i == 0 ==> Back(today, i) == today
  {
    InRangeAt(today, days, i);
    FormatShape(Back(today, i));
    ParseFormat(Back(today, i));
    BackDayNumber(today, i);
  }

  /** Later items are strictly earlier dates, so no date repeats. */
  lemma WindowDecreasing(today: Date, days: int, i: nat, j: nat)
    requires WindowInRange(today, days) && i < j < Count(days)
    ensures j < |Window(today, days)|
    ensures Before(Back(today, j), Back(today, i))
    ensures Window(today, days)[i] != Window(today, days)[j]
  {
    InRangeAt(today, days, i);
    InRangeAt(today, days, j);
    BackStrictlyEarlier(today, i, j);
    if Window(today, days)[i] == Window(today, days)[j] {
      FormatInjective(Back(today, i), Back(today, j));
    }
  }
}

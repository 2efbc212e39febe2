/** exchange_rates.py: `main`, which gathers one `{date: rates}` dictionary per
    date of the window, and the command-line entry point that validates the
    day count before running it. */
module ExchangeRates {
  import opened Wrappers
  import opened Errors
  import opened Text
  import opened Calendar
  import opened Rates
  import opened Dates
  import opened Aggregate

  /** One item of `main`'s result: the single-key dictionary `{date: rates}`. */
  type DateDict = map<string, RateMap>

  function DateDictOf(line: ReplyLine): (m: DateDict)
    ensures m.Keys == {line.date} && m[line.date] == line.rates
  {
    map[line.date := line.rates]
  }

  /** The list of dictionaries built from the accumulated items, one per item, in order. */
  function Dicts(lines: seq<ReplyLine>): (ds: seq<DateDict>)
    ensures |ds| == |lines|
  {
    seq(|lines|, k requires 0 <= k < |lines| => DateDictOf(lines[k]))
  }

  lemma DictsSnoc(lines: seq<ReplyLine>, line: ReplyLine)
    ensures Dicts(lines + [line]) == Dicts(lines) + [DateDictOf(line)]
  {
    var all := lines + [line];
    assert forall k | 0 <= k < |lines| :: all[k] == lines[k];
    assert all[|lines|] == line;
  }

  /** `main(days)`, with "today" and the answers of the upstream API as parameters. */
  method RatesMain(days: int, today: Date, upstream: string -> Fetch) returns (result: seq<DateDict>)
    requires WindowInRange(today, days)
    ensures result == Dicts(Collect(Window(today, days), upstream))
  {
    result := [];
    var dates := GetDates(days, today);
    var i := 0;
    while i < |dates|
      invariant 0 <= i <= |dates|
      invariant result == Dicts(Collect(dates[..i], upstream))
    {
      var date := dates[i];
      var response := upstream(date);
      assert dates[..i + 1][..i] == dates[..i] && dates[..i + 1][i] == date;
      assert Collect(dates[..i + 1], upstream) == Collect(dates[..i], upstream) + LineFor(date, response);
      if response.Responded? && response.status == 200 {
        var data := ParseData(response.body);
        var dateDict := map[date := data];
        DictsSnoc(Collect(dates[..i], upstream), ReplyLine(date, data));
        result := result + [dateDict];
      }
      i := i + 1;
    }
    assert dates[..i] == dates;
  }

  /** The result has at most `days` items; each is a single-key dictionary whose
      key is a date of the window whose request succeeded, and whose value is
      the parsed body of that response. */
  lemma MainItems(today: Date, days: int, upstream: string -> Fetch, k: nat)
    requires WindowInRange(today, days)
    ensures |Dicts(Collect(Window(today, days), upstream))| <= Count(days)
    ensures k < |Dicts(Collect(Window(today, days), upstream))| ==>
              var d := Dicts(Collect(Window(today, days), upstream))[k];
              exists date | date in Window(today, days) ::
                && d.Keys == {date}
                && Succeeded(upstream(date))
                && d[date] == ParseSpec(upstream(date).body)
  {
    var c := Collect(Window(today, days), upstream);
    CollectLength(Window(today, days), upstream);
    if k < |c| {
      WindowReplyAt(today, days, upstream, k);
      var d := Dicts(c)[k];
      assert d == DateDictOf(c[k]);
      assert c[k].date in Window(today, days);
    }
  }

  /** The dates heading the items run from the most recent to the oldest. */
  lemma MainNewestFirst(today: Date, days: int, upstream: string -> Fetch, k: nat, l: nat, a: string, b: string)
    requires WindowInRange(today, days)
    requires k < l < |Dicts(Collect(Window(today, days), upstream))|
    requires a in Dicts(Collect(Window(today, days), upstream))[k]
    requires b in Dicts(Collect(Window(today, days), upstream))[l]
    ensures ParseDate(a).Some? && ParseDate(b).Some?
    ensures DayNumber(ParseDate(b).value) < DayNumber(ParseDate(a).value)
  {
    var c := Collect(Window(today, days), upstream);
    assert Dicts(c)[k] == DateDictOf(c[k]) && Dicts(c)[l] == DateDictOf(c[l]);
    WindowReplyNewestFirst(today, days, upstream, k, l);
  }

  /** When no request succeeds `main` returns `[]`. */
  lemma MainAllFail(today: Date, days: int, upstream: string -> Fetch)
    requires WindowInRange(today, days)
    requires forall i | 0 <= i < Count(days) :: !Succeeded(upstream(Window(today, days)[i]))
    ensures Dicts(Collect(Window(today, days), upstream)) == []
  {
    CollectAllFail(Window(today, days), upstream);
  }

  /** What running the script prints, or the exception it ends with. */
  datatype CliOutput =
    | Printed(text: string)                  // a message instead of a run
    | Failed(exc: Exc)                       // `int(sys.argv[1])` raised
    | PrintedResult(result: seq<DateDict>)   // `print(result)` after `main(days)`

  const UsageMessage := "Enter the argument (days)"
  const LimitMessage := "The number of days cannot be more than 10"

  /** The `__main__` block, with `sys.argv` as `argv` (the script name first). */
  method Cli(argv: seq<string>, today: Date, upstream: string -> Fetch) returns (out: CliOutput)
    requires WindowInRange(today, 10)
    ensures |argv| < 2 <==> out == Printed(UsageMessage)
    ensures |argv| >= 2 ==> (ParseInt(argv[1]).None? <==> out == Failed(ValueError))
    ensures |argv| >= 2 && ParseInt(argv[1]).Some? ==>
              (ParseInt(argv[1]).value > 10 <==> out == Printed(LimitMessage))
    ensures out.PrintedResult? <==> |argv| >= 2 && ParseInt(argv[1]).Some? && ParseInt(argv[1]).value <= 10
    ensures out.PrintedResult? ==>
              var days := ParseInt(argv[1]).value;
              WindowInRange(today, days) && out.result == Dicts(Collect(Window(today, days), upstream))
  {
    if |argv| < 2 {
      return Printed(UsageMessage);
    }
    var parsed := ParseInt(argv[1]);
    if parsed.None? {
      return Failed(ValueError);
    }
    var days := parsed.value;
    if days > 10 {
      return Printed(LimitMessage);
    }
    var result := RatesMain(days, today, upstream);
    out := PrintedResult(result);
  }

  /** A run that gets as far as `main` prints at most ten items, and none for a
      day count that is zero or negative. */
  lemma CliResultBounded(today: Date, upstream: string -> Fetch, days: int)
    requires WindowInRange(today, days) && days <= 10
    ensures |Dicts(Collect(Window(today, days), upstream))| <= 10
    ensures days <= 0 ==> Dicts(Collect(Window(today, days), upstream)) == []
  {
    CollectLength(Window(today, days), upstream);
  }
}

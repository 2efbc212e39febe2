/** The per-date aggregation shared by `main_ex` (chat/server.py:43-71) and
    `main` (exchange_rates.py:40-68): one request per date, in order; a date
    whose request did not produce status 200 is skipped and the loop goes on. */
module Aggregate {
  import opened Wrappers
  import opened Calendar
  import opened Rates
  import opened Dates

  /** What the request for one date produced. */
  datatype Fetch =
    | Responded(status: int, body: seq<Entry>)  // `body` is the `exchangeRate` list of the JSON reply
    | ConnectorError                            // aiohttp raised ClientConnectorError

  predicate Succeeded(f: Fetch) {
    f.Responded? && f.status == 200
  }

  /** One result item: `{date: parse_data(data)}`. */
  datatype ReplyLine = ReplyLine(date: string, rates: RateMap)

  function LineFor(date: string, f: Fetch): seq<ReplyLine> {
    if Succeeded(f) then [ReplyLine(date, ParseSpec(f.body))] else []
  }

  /** The items the loop accumulates over `dates` when `upstream` answers the
      request for each date. */
  function Collect(dates: seq<string>, upstream: string -> Fetch): seq<ReplyLine> {
    if dates == [] then []
    else
      var date := dates[|dates| - 1];
      Collect(dates[..|dates| - 1], upstream) + LineFor(date, upstream(date))
  }

  /** The positions of the dates whose request succeeded, ascending. */
  function OkPositions(dates: seq<string>, upstream: string -> Fetch): seq<nat> {
    if dates == [] then []
    else
      var n := |dates| - 1;
      OkPositions(dates[..n], upstream) + (if Succeeded(upstream(dates[n])) then [n] else [])
  }

  /** Every listed position is that of a successful date, and the positions ascend. */
  lemma {:induction false} OkPositionsSound(dates: seq<string>, upstream: string -> Fetch)
    ensures forall k | 0 <= k < |OkPositions(dates, upstream)| ::
              var i := OkPositions(dates, upstream)[k];
              i < |dates| && Succeeded(upstream(dates[i]))
    ensures forall k, l | 0 <= k < l < |OkPositions(dates, upstream)| ::
              OkPositions(dates, upstream)[k] < OkPositions(dates, upstream)[l]
  {
    if dates != [] {
      var n := |dates| - 1;
      var init := dates[..n];
      OkPositionsSound(init, upstream);
      var p := OkPositions(init, upstream);
      var last: seq<nat> := if Succeeded(upstream(dates[n])) then [n] else [];
      assert OkPositions(dates, upstream) == p + last;
      assert forall k | 0 <= k < |p| :: p[k] < n && dates[p[k]] == init[p[k]];
    }
  }

  /** Every successful date is listed. */
  lemma {:induction false} OkPositionsComplete(dates: seq<string>, upstream: string -> Fetch, i: nat)
    requires i < |dates|
    ensures Succeeded(upstream(dates[i])) <==> i in OkPositions(dates, upstream)
  {
    var n := |dates| - 1;
    var init := dates[..n];
    var p := OkPositions(init, upstream);
    var last: seq<nat> := if Succeeded(upstream(dates[n])) then [n] else [];
    assert OkPositions(dates, upstream) == p + last;
    OkPositionsSound(init, upstream);
    if i < n {
      OkPositionsComplete(init, upstream, i);
      assert init[i] == dates[i];
    } else {
      assert i !in p;
    }
  }

  lemma {:induction false} CollectLength(dates: seq<string>, upstream: string -> Fetch)
    ensures |Collect(dates, upstream)| == |OkPositions(dates, upstream)| <= |dates|
  {
    if dates != [] {
      CollectLength(dates[..|dates| - 1], upstream);
    }
  }

  /** Item `k` of the result is the line of the `k`-th successful date. */
  lemma {:induction false} CollectAt(dates: seq<string>, upstream: string -> Fetch, k: nat)
    requires k < |OkPositions(dates, upstream)|
    ensures |Collect(dates, upstream)| == |OkPositions(dates, upstream)|
    ensures OkPositions(dates, upstream)[k] < |dates|
    ensures Succeeded(upstream(dates[OkPositions(dates, upstream)[k]]))
    ensures var i := OkPositions(dates, upstream)[k];
            Collect(dates, upstream)[k] == ReplyLine(dates[i], ParseSpec(upstream(dates[i]).body))
  {
    var n := |dates| - 1;
    var init := dates[..n];
    CollectLength(dates, upstream);
    CollectLength(init, upstream);
    OkPositionsSound(dates, upstream);
    if k < |OkPositions(init, upstream)| {
      CollectAt(init, upstream, k);
    }
  }

  /** Item `k` of the result comes from the `k`-th successful date, the
      successful dates taken in order; every successful date contributes one
      item and no failed date contributes any. */
  lemma CollectByPositions(dates: seq<string>, upstream: string -> Fetch)
    ensures |Collect(dates, upstream)| == |OkPositions(dates, upstream)| <= |dates|
    ensures forall k | 0 <= k < |OkPositions(dates, upstream)| ::
              var i := OkPositions(dates, upstream)[k];
              && i < |dates| && Succeeded(upstream(dates[i]))
              && Collect(dates, upstream)[k] == ReplyLine(dates[i], ParseSpec(upstream(dates[i]).body))
    ensures forall k, l | 0 <= k < l < |OkPositions(dates, upstream)| ::
              OkPositions(dates, upstream)[k] < OkPositions(dates, upstream)[l]
    ensures forall i | 0 <= i < |dates| ::
              Succeeded(upstream(dates[i])) <==> i in OkPositions(dates, upstream)
  {
    CollectLength(dates, upstream);
    OkPositionsSound(dates, upstream);
    forall i | 0 <= i < |dates|
      ensures Succeeded(upstream(dates[i])) <==> i in OkPositions(dates, upstream)
    {
      OkPositionsComplete(dates, upstream, i);
    }
    forall k | 0 <= k < |OkPositions(dates, upstream)|
      ensures var i := OkPositions(dates, upstream)[k];
              Collect(dates, upstream)[k] == ReplyLine(dates[i], ParseSpec(upstream(dates[i]).body))
    {
      CollectAt(dates, upstream, k);
    }
  }

  /** When every request fails the result is empty. */
  lemma {:induction false} CollectAllFail(dates: seq<string>, upstream: string -> Fetch)
    requires forall i | 0 <= i < |dates| :: !Succeeded(upstream(dates[i]))
    ensures Collect(dates, upstream) == []
  {
    if dates != [] {
      CollectAllFail(dates[..|dates| - 1], upstream);
    }
  }

  /** When every request succeeds there is one item per date, in date order. */
  lemma {:induction false} CollectAllSucceed(dates: seq<string>, upstream: string -> Fetch)
    requires forall i | 0 <= i < |dates| :: Succeeded(upstream(dates[i]))
    ensures |Collect(dates, upstream)| == |dates|
    ensures forall k | 0 <= k < |dates| :: Collect(dates, upstream)[k].date == dates[k]
  {
    if dates != [] {
      var n := |dates| - 1;
      var init := dates[..n];
      assert forall i | 0 <= i < n :: init[i] == dates[i];
      CollectAllSucceed(init, upstream);
      var c := Collect(init, upstream);
      var line := ReplyLine(dates[n], ParseSpec(upstream(dates[n]).body));
      assert Collect(dates, upstream) == c + [line];
      forall k | 0 <= k < |dates| ensures Collect(dates, upstream)[k].date == dates[k] {
        if k < n {
          assert (c + [line])[k] == c[k];
        }
      }
    }
  }

  /** The dates are handled independently: a failure in the first part does not
      touch the items of the second. */
  lemma {:induction false} CollectAppend(a: seq<string>, b: seq<string>, upstream: string -> Fetch)
    ensures Collect(a + b, upstream) == Collect(a, upstream) + Collect(b, upstream)
    decreases |b|
  {
    if b == [] {
      assert a + b == a;
    } else {
      var n := |b| - 1;
      assert (a + b)[..|a + b| - 1] == a + b[..n];
      CollectAppend(a, b[..n], upstream);
    }
  }

  /** Over the window of `get_dates`: item `k` of the result is keyed by a date
      of the window whose request succeeded, it reads back as a date no later
      than today, and it carries the parsed body of that date's response. */
  lemma WindowReplyAt(today: Date, days: int, upstream: string -> Fetch, k: nat)
    requires WindowInRange(today, days) && k < |Collect(Window(today, days), upstream)|
    ensures var line := Collect(Window(today, days), upstream)[k];
            && line.date in Window(today, days)
            && Succeeded(upstream(line.date))
            && line.rates == ParseSpec(upstream(line.date).body)
            && ParseDate(line.date).Some?
            && DayNumber(ParseDate(line.date).value) <= DayNumber(today)
  {
    var w := Window(today, days);
    CollectLength(w, upstream);
    CollectAt(w, upstream, k);
    WindowDates(today, days, OkPositions(w, upstream)[k]);
  }

  /** Over the window of `get_dates`, the result is newest first: a later item
      is keyed by a strictly earlier date. */
  lemma WindowReplyNewestFirst(today: Date, days: int, upstream: string -> Fetch, k: nat, l: nat)
    requires WindowInRange(today, days) && k < l < |Collect(Window(today, days), upstream)|
    ensures var c := Collect(Window(today, days), upstream);
            && ParseDate(c[k].date).Some? && ParseDate(c[l].date).Some?
            && DayNumber(ParseDate(c[l].date).value) < DayNumber(ParseDate(c[k].date).value)
  {
    var w := Window(today, days);
    CollectLength(w, upstream);
    CollectAt(w, upstream, k);
    CollectAt(w, upstream, l);
    OkPositionsSound(w, upstream);
    var p := OkPositions(w, upstream);
    WindowDates(today, days, p[k]);
    WindowDates(today, days, p[l]);
  }
}

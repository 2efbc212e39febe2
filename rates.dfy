/** `parse_data`: the projection of the upstream `exchangeRate` list onto the
    EUR and USD quotes (chat/server.py:28-40, and the identical copy at
    exchange_rates.py:25-37). */
module Rates {
  import opened Wrappers

  /** A rate as the upstream JSON carries it; the model never looks inside. */
  datatype RateValue = RateValue(literal: string)

  /** One element of the `exchangeRate` list; an absent (or null) rate field is `None`. */
  datatype Entry = Entry(currency: string, saleRate: Option<RateValue>, purchaseRate: Option<RateValue>)

  /** The `{'sale': ..., 'purchase': ...}` dictionary kept per currency. */
  datatype Quote = Quote(sale: Option<RateValue>, purchase: Option<RateValue>)

  /** The dictionary `parse_data` returns: currency to quote. */
  type RateMap = map<string, Quote>

  /** The membership test `el['currency'] in ['EUR', 'USD']`. */
  predicate Tracked(currency: string) {
    currency == "EUR" || currency == "USD"
  }

  /** The dictionary after the loop has run over `entries`, in order: each
      tracked entry assigns its currency the quote
      `{'sale': el.get('saleRate'), 'purchase': el.get('purchaseRate')}`, so a
      later entry overwrites an earlier one. */
  function ParseSpec(entries: seq<Entry>): RateMap {
    if entries == [] then map[]
    else
      var m := ParseSpec(entries[..|entries| - 1]);
      var e := entries[|entries| - 1];
      if Tracked(e.currency) then m[e.currency := Quote(e.saleRate, e.purchaseRate)] else m
  }

  /** `parse_data(data)` with `data["exchangeRate"] == entries`. */
  method ParseData(entries: seq<Entry>) returns (m: RateMap)
    ensures m == ParseSpec(entries)
  {
    m := map[];
    var i := 0;
    while i < |entries|
      invariant 0 <= i <= |entries|
      invariant m == ParseSpec(entries[..i])
    {
      var e := entries[i];
      assert entries[..i + 1][..i] == entries[..i];
      if e.currency == "EUR" || e.currency == "USD" {
        m := m[e.currency := Quote(e.saleRate, e.purchaseRate)];
      }
      i := i + 1;
    }
    assert entries[..i] == entries;
  }

  /** Only EUR and USD can be keys. */
  lemma {:induction false} ParseKeys(entries: seq<Entry>)
    ensures ParseSpec(entries).Keys <= {"EUR", "USD"}
  {
    if entries != [] {
      ParseKeys(entries[..|entries| - 1]);
    }
  }

  /** Parsing a concatenation lets the second half override the first, as
      Dafny's right-biased map union does. */
  lemma {:induction false} ParseAppend(a: seq<Entry>, b: seq<Entry>)
    ensures ParseSpec(a + b) == ParseSpec(a) + ParseSpec(b)
    decreases |b|
  {
    if b == [] {
      assert a + b == a;
    } else {
      var b' := b[..|b| - 1];
      assert (a + b)[..|a + b| - 1] == a + b';
      ParseAppend(a, b');
    }
  }

  /** An entry of another currency has no effect, wherever it stands. */
  lemma IgnoresUntracked(a: seq<Entry>, e: Entry, b: seq<Entry>)
    requires !Tracked(e.currency)
    ensures ParseSpec(a + [e] + b) == ParseSpec(a + b)
  {
    ParseAppend(a + [e], b);
    ParseAppend(a, [e]);
    ParseAppend(a, b);
    assert ParseSpec([e]) == map[] by {
      assert [e][..0] == [];
    }
  }

  /** A currency is a key iff it is tracked and some entry carries it. */
  lemma {:induction false} ParsePresent(entries: seq<Entry>, c: string)
    ensures c in ParseSpec(entries) <==>
              Tracked(c) && exists i | 0 <= i < |entries| :: entries[i].currency == c
  {
    if entries != [] {
      var n := |entries| - 1;
      var init := entries[..n];
      ParsePresent(init, c);
      if entries[n].currency != c && Tracked(c) && exists i | 0 <= i < |entries| :: entries[i].currency == c {
        var i :| 0 <= i < |entries| && entries[i].currency == c;
        assert init[i].currency == c;
      }
      if c in ParseSpec(init) {
        var i :| 0 <= i < |init| && init[i].currency == c;
        assert entries[i].currency == c;
      }
    }
  }

  /** The quote of a present currency comes from the LAST entry that carries
      it: its sale and purchase are that entry's `saleRate` and `purchaseRate`,
      `None` exactly when the entry has no such field. */
  lemma {:induction false} ParseLastWins(entries: seq<Entry>, c: string)
    requires c in ParseSpec(entries)
    ensures exists i | 0 <= i < |entries| ::
              && entries[i].currency == c
              && ParseSpec(entries)[c].sale == entries[i].saleRate
              && ParseSpec(entries)[c].purchase == entries[i].purchaseRate
              && forall j | i < j < |entries| :: entries[j].currency != c
  {
    ParseKeys(entries);
    var n := |entries| - 1;
    var init := entries[..n];
    if entries[n].currency != c {
      assert c in ParseSpec(init) && ParseSpec(entries)[c] == ParseSpec(init)[c];
      ParseLastWins(init, c);
      var i :| 0 <= i < |init| && init[i].currency == c && ParseSpec(init)[c] == Quote(init[i].saleRate, init[i].purchaseRate)
               && forall j | i < j < |init| :: init[j].currency != c;
      assert entries[i] == init[i];
      assert forall j | i < j < |entries| :: entries[j].currency != c by {
        forall j | i < j < |entries| ensures entries[j].currency != c {
          if j < n { assert entries[j] == init[j]; }
        }
      }
    } else {
      assert Tracked(entries[n].currency) && ParseSpec(entries)[c] == Quote(entries[n].saleRate, entries[n].purchaseRate);
    }
  }
}

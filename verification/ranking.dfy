/** Competitor ranking, `get_top_competitors` (BACK.py:80-102): resolve each
    distinct candidate name to a ticker, keep one record per ticker when the
    market data are usable, sort by market capitalisation (largest first,
    stable), and keep the first three. */
module Ranking {
  import opened Options
  import opened Symbols
  import opened Oracles

  /** One entry of `competitor_data` (BACK.py:90-97). */
  datatype Record = Record(
    name: string,
    ticker: string,
    marketCap: int,
    prices: seq<Price>,
    labels: seq<Label>,
    latestPrice: Price)

  /** How many records the ranking returns at most (the `[:3]` of BACK.py:101). */
  const TopCount: nat := 3

  // ----- Python's `set(competitors)` -----

  /** No name occurs twice. */
  predicate Distinct(xs: seq<string>) {
    forall i, j :: 0 <= i < j < |xs| ==> xs[i] != xs[j]
  }

  /** `ys` lists the distinct elements of `xs`, each once, in some order. */
  ghost predicate Enumerates(ys: seq<string>, xs: seq<string>) {
    && Distinct(ys)
    && (forall y :: y in ys ==> y in xs)
    && (forall x :: x in xs ==> x in ys)
  }

  /** The distinct elements of `xs` in first-occurrence order. */
  function Dedup(xs: seq<string>): (r: seq<string>)
    ensures Enumerates(r, xs)
    decreases |xs|
  {
    if |xs| == 0 then []
    else
      var init := xs[..|xs| - 1];
      var rest := Dedup(init);
      var last := xs[|xs| - 1];
      assert forall x :: x in xs ==> x in init || x == last;
      if last in rest then rest else rest + [last]
  }

  /** The order in which `for competitor in set(competitors)` visits the
      names. Python leaves it unspecified, so it is any function that lists
      the distinct names once each. */
  type SetOrder = f: seq<string> -> seq<string> | forall xs :: Enumerates(f(xs), xs)
    witness Dedup

  // ----- accepting candidates -----

  /** `rec` is the record BACK.py:85-97 builds for candidate `name`: a truthy
      ticker resolved from the name, a truthy market cap, non-empty prices
      and labels, and the last price as the current price. */
  predicate IsRecordFor(p: Providers, name: string, rec: Record) {
    && rec.name == name
    && rec.ticker != ""
    && Resolve(p, name) == Some(rec.ticker)
    && rec.marketCap != 0
    && p.marketCap(rec.ticker) == Some(rec.marketCap)
    && p.competitorHistory(rec.ticker) == Some(PriceSeries(rec.prices, rec.labels))
    && |rec.prices| > 0
    && |rec.labels| > 0
    && rec.latestPrice == rec.prices[|rec.prices| - 1]
  }

  /** The record candidate `name` yields when its ticker is still free, or
      `None` when the candidate is dropped for want of a ticker or data. */
  function Candidate(p: Providers, name: string): (r: Option<Record>)
    ensures r.Some? ==> IsRecordFor(p, name, r.value)
    ensures r.None? ==> forall rec :: !IsRecordFor(p, name, rec)
  {
    var ticker := Resolve(p, name);
    if ticker.Some? && ticker.value != "" then
      var cap := p.marketCap(ticker.value);
      var history := p.competitorHistory(ticker.value);
      if cap.Some? && cap.value != 0 && history.Some?
         && |history.value.prices| > 0 && |history.value.labels| > 0
      then
        var prices := history.value.prices;
        Some(Record(name, ticker.value, cap.value, prices, history.value.labels, prices[|prices| - 1]))
      else None
    else None
  }

  /** The loop state of BACK.py:81-98. */
  datatype Scan = Scan(records: seq<Record>, processed: set<string>)

  /** The tickers of a list of records. */
  function Tickers(records: seq<Record>): set<string> {
    set k | 0 <= k < |records| :: records[k].ticker
  }

  /** No two records share a ticker. */
  predicate UniqueTickers(records: seq<Record>) {
    forall i, j :: 0 <= i < j < |records| ==> records[i].ticker != records[j].ticker
  }

  /** One iteration of the loop body, BACK.py:85-98, in the code's order:
      the ticker is checked against `processed` before any data is used.
      A record is appended exactly when the candidate yields one whose
      ticker is not yet processed; otherwise the state is unchanged. */
  function Visit(p: Providers, st: Scan, name: string): (r: Scan)
    ensures st.records <= r.records
    ensures |r.records| == |st.records| + 1 <==>
              Candidate(p, name).Some? && Candidate(p, name).value.ticker !in st.processed
    ensures |r.records| == |st.records| + 1 ==>
              && r.records[|st.records|] == Candidate(p, name).value
              && r.processed == st.processed + {Candidate(p, name).value.ticker}
    ensures |r.records| != |st.records| + 1 ==> r == st
  {
    var ticker := Resolve(p, name);
    if ticker.Some? && ticker.value != "" && ticker.value !in st.processed then
      match Candidate(p, name)
      case Some(rec) => Scan(st.records + [rec], st.processed + {rec.ticker})
      case None => st
    else st
  }

  /** The loop state after visiting `names` in order. Throughout,
      `processed` is exactly the set of tickers of the accepted records, no
      two records share a ticker, and each record is the one its own
      candidate name yields. */
  function Scanned(p: Providers, names: seq<string>): (st: Scan)
    ensures st.processed == Tickers(st.records)
    ensures UniqueTickers(st.records)
    ensures |st.records| <= |names|
    ensures forall k :: 0 <= k < |st.records| ==>
              st.records[k].name in names && IsRecordFor(p, st.records[k].name, st.records[k])
    decreases |names|
  {
    if |names| == 0 then Scan([], {})
    else
      var init := names[..|names| - 1];
      var last := names[|names| - 1];
      var st := Scanned(p, init);
      var st' := Visit(p, st, last);
      assert forall x :: x in init ==> x in names;
      if st'.records == st.records then
        assert st' == st;
        st'
      else
        var rec := Candidate(p, last).value;
        assert st'.records == st.records + [rec];
        TickersAppend(st.records, rec);
        st'
  }

  /** The scan keeps visiting order: the records accepted while visiting
      the first `i` names come first, unchanged, and every record after
      them comes from one of the remaining names. */
  lemma {:induction false} ScannedKeepsVisitOrder(p: Providers, names: seq<string>, i: nat)
    requires i <= |names|
    ensures Scanned(p, names[..i]).records <= Scanned(p, names).records
    ensures forall k :: |Scanned(p, names[..i]).records| <= k < |Scanned(p, names).records| ==>
              Scanned(p, names).records[k].name in names[i..]
    decreases |names|
  {
    if i < |names| {
      var init := names[..|names| - 1];
      var last := names[|names| - 1];
      ScannedKeepsVisitOrder(p, init, i);
      assert init[..i] == names[..i];
      assert forall x :: x in init[i..] ==> x in names[i..] by {
        forall x | x in init[i..] ensures x in names[i..] {
          var m :| 0 <= m < |init[i..]| && init[i..][m] == x;
          assert names[i..][m] == x;
        }
      }
      assert last in names[i..] by {
        assert names[i..][|names| - 1 - i] == last;
      }
      assert Scanned(p, names) == Visit(p, Scanned(p, init), last);
    } else {
      assert names[..i] == names;
    }
  }

  /** Appending a record adds exactly its ticker. */
  lemma TickersAppend(records: seq<Record>, rec: Record)
    ensures Tickers(records + [rec]) == Tickers(records) + {rec.ticker}
  {
    var all := records + [rec];
    forall t | t in Tickers(all) ensures t in Tickers(records) + {rec.ticker} {
      var k :| 0 <= k < |all| && all[k].ticker == t;
      if k < |records| {
        assert records[k] == all[k];
      }
    }
    forall t | t in Tickers(records) + {rec.ticker} ensures t in Tickers(all) {
      if t in Tickers(records) {
        var k :| 0 <= k < |records| && records[k].ticker == t;
        assert all[k] == records[k];
      } else {
        assert all[|records|] == rec;
      }
    }
  }

  /** Nothing usable is lost except to an earlier record with the same
      ticker: after the scan, the ticker of every candidate that yields a
      record is among the accepted tickers. */
  lemma {:induction false} ScannedComplete(p: Providers, names: seq<string>)
    ensures forall i :: 0 <= i < |names| && Candidate(p, names[i]).Some? ==>
              Candidate(p, names[i]).value.ticker in Scanned(p, names).processed
    decreases |names|
  {
    if |names| > 0 {
      var init := names[..|names| - 1];
      ScannedComplete(p, init);
      var st := Scanned(p, init);
      var st' := Scanned(p, names);
      assert st' == Visit(p, st, names[|names| - 1]);
      assert st.processed <= st'.processed;
      forall i | 0 <= i < |names| && Candidate(p, names[i]).Some?
        ensures Candidate(p, names[i]).value.ticker in st'.processed
      {
        if i < |names| - 1 {
          assert names[i] == init[i];
        }
      }
    }
  }

  /** No candidate before `rec`'s own name yields a record with `rec`'s
      ticker: `rec.name` occurs no later than any candidate yielding that
      ticker. */
  predicate ClaimedFirst(p: Providers, names: seq<string>, rec: Record) {
    forall i :: 0 <= i < |names| && Candidate(p, names[i]).Some?
                && Candidate(p, names[i]).value.ticker == rec.ticker
                ==> rec.name in names[..i + 1]
  }

  /** The first candidate to yield a record for a ticker wins; later
      candidates with the same ticker are dropped, whatever their name. */
  lemma {:induction false} ScannedFirstWins(p: Providers, names: seq<string>)
    ensures forall k :: 0 <= k < |Scanned(p, names).records| ==>
              ClaimedFirst(p, names, Scanned(p, names).records[k])
    decreases |names|, 2
  {
    forall k | 0 <= k < |Scanned(p, names).records|
      ensures ClaimedFirst(p, names, Scanned(p, names).records[k])
    {
      forall i | 0 <= i < |names| && Candidate(p, names[i]).Some?
                 && Candidate(p, names[i]).value.ticker == Scanned(p, names).records[k].ticker
        ensures Scanned(p, names).records[k].name in names[..i + 1]
      {
        FirstWinsAt(p, names, k, i);
      }
    }
  }

  /** The induction step of `ScannedFirstWins` for one record and one
      candidate position. */
  lemma {:induction false} FirstWinsAt(p: Providers, names: seq<string>, k: nat, i: nat)
    requires k < |Scanned(p, names).records|
    requires i < |names| && Candidate(p, names[i]).Some?
    requires Candidate(p, names[i]).value.ticker == Scanned(p, names).records[k].ticker
    ensures Scanned(p, names).records[k].name in names[..i + 1]
    decreases |names|, 1
  {
    if i == |names| - 1 {
      assert names[..i + 1] == names;
    } else {
      var init := names[..|names| - 1];
      var last := names[|names| - 1];
      var st := Scanned(p, init);
      var ticker := Candidate(p, names[i]).value.ticker;
      assert names[i] == init[i];
      assert ticker in st.processed by {
        ScannedComplete(p, init);
      }
      assert Scanned(p, names).records[k] == st.records[k] && k < |st.records| by {
        assert Scanned(p, names) == Visit(p, st, last);
        FirstWinsStep(p, st, last, k, ticker);
      }
      assert st.records[k].name in init[..i + 1] by {
        ScannedFirstWins(p, init);
        assert ClaimedFirst(p, init, st.records[k]);
      }
      assert names[..i + 1] == init[..i + 1];
    }
  }

  /** A record appended by `Visit` carries a ticker not yet processed. */
  lemma FirstWinsStep(p: Providers, st: Scan, name: string, k: nat, ticker: string)
    requires ticker in st.processed
    requires k < |Visit(p, st, name).records|
    requires Visit(p, st, name).records[k].ticker == ticker
    ensures k < |st.records| && Visit(p, st, name).records[k] == st.records[k]
  {
  }

  /** The loop of BACK.py:84-98 over the names in visiting order. */
  method CollectRecords(p: Providers, names: seq<string>) returns (records: seq<Record>, processed: set<string>)
    ensures Scan(records, processed) == Scanned(p, names)
    ensures processed == Tickers(records) && UniqueTickers(records)
  {
    records := [];
    processed := {};
    var i := 0;
    while i < |names|
      invariant 0 <= i <= |names|
      invariant Scan(records, processed) == Scanned(p, names[..i])
    {
      var name := names[i];
      var ticker := Resolve(p, name);
      if ticker.Some? && ticker.value != "" && ticker.value !in processed {
        var candidate := Candidate(p, name);
        if candidate.Some? {
          records := records + [candidate.value];
          processed := processed + {candidate.value.ticker};
        }
      }
      ScannedStep(p, names, i);
      i := i + 1;
    }
    assert names[..i] == names;
  }

  /** One more name is one more `Visit`. */
  lemma ScannedStep(p: Providers, names: seq<string>, i: nat)
    requires i < |names|
    ensures Scanned(p, names[..i + 1]) == Visit(p, Scanned(p, names[..i]), names[i])
  {
    assert names[..i + 1][..i] == names[..i];
  }

  // ----- sorting -----

  /** Market caps never increase along the list. */
  predicate SortedByCap(records: seq<Record>) {
    forall i, j :: 0 <= i < j < |records| ==> records[i].marketCap >= records[j].marketCap
  }

  /** The records with market cap `cap`, in list order. */
  function WithCap(records: seq<Record>, cap: int): seq<Record>
    decreases |records|
  {
    if |records| == 0 then []
    else (if records[0].marketCap == cap then [records[0]] else []) + WithCap(records[1..], cap)
  }

  /** Places `rec` after every record whose market cap is at least its own. */
  function Insert(sorted: seq<Record>, rec: Record): (r: seq<Record>)
    requires SortedByCap(sorted)
    ensures SortedByCap(r)
    ensures |r| == |sorted| + 1
    ensures forall x :: x in r <==> x in sorted || x == rec
    decreases |sorted|
  {
    if |sorted| == 0 then [rec]
    else if sorted[0].marketCap >= rec.marketCap then
      var rest := Insert(sorted[1..], rec);
      assert forall x :: x in sorted <==> x == sorted[0] || x in sorted[1..] by {
        assert sorted == [sorted[0]] + sorted[1..];
      }
      assert forall k :: 0 <= k < |rest| ==> rest[k].marketCap <= sorted[0].marketCap by {
        forall k | 0 <= k < |rest| ensures rest[k].marketCap <= sorted[0].marketCap {
          assert rest[k] in rest;
          if rest[k] != rec {
            var m :| 0 <= m < |sorted[1..]| && sorted[1..][m] == rest[k];
            assert sorted[m + 1] == rest[k];
          }
        }
      }
      ConsKeepsSorted(sorted[0], rest);
      [sorted[0]] + rest
    else
      ConsKeepsSorted(rec, sorted);
      [rec] + sorted
  }

  /** A head at least as large as everything after it keeps the order. */
  lemma ConsKeepsSorted(x: Record, rest: seq<Record>)
    requires SortedByCap(rest)
    requires forall k :: 0 <= k < |rest| ==> rest[k].marketCap <= x.marketCap
    ensures SortedByCap([x] + rest)
  {
    var r := [x] + rest;
    assert forall k :: 0 < k < |r| ==> r[k] == rest[k - 1];
  }

  /** `sorted(records, key=market_cap, reverse=True)`: largest market cap
      first, and the same records. */
  function SortByCap(records: seq<Record>): (r: seq<Record>)
    ensures SortedByCap(r)
    ensures |r| == |records|
    ensures forall x :: x in r <==> x in records
    decreases |records|
  {
    if |records| == 0 then []
    else
      var init := records[..|records| - 1];
      var last := records[|records| - 1];
      assert records == init + [last];
      Insert(SortByCap(init), last)
  }

  /** Inserting a record with a fresh ticker keeps tickers unique. */
  lemma {:induction false} InsertKeepsUnique(sorted: seq<Record>, rec: Record)
    requires SortedByCap(sorted)
    requires UniqueTickers(sorted) && rec.ticker !in Tickers(sorted)
    ensures UniqueTickers(Insert(sorted, rec))
    decreases |sorted|
  {
    if |sorted| > 0 {
      if sorted[0].marketCap >= rec.marketCap {
        var tail := sorted[1..];
        assert sorted[0].ticker in Tickers(sorted);
        assert rec.ticker !in Tickers(tail) by {
          forall t | t in Tickers(tail) ensures t in Tickers(sorted) {
            var k :| 0 <= k < |tail| && tail[k].ticker == t;
            assert sorted[k + 1] == tail[k];
          }
        }
        InsertKeepsUnique(tail, rec);
        var rest := Insert(tail, rec);
        assert forall j :: 0 <= j < |rest| ==> rest[j].ticker != sorted[0].ticker by {
          forall j | 0 <= j < |rest| ensures rest[j].ticker != sorted[0].ticker {
            assert rest[j] in rest;
            if rest[j] != rec {
              var m :| 0 <= m < |tail| && tail[m] == rest[j];
              assert sorted[m + 1] == rest[j];
            }
          }
        }
        ConsKeepsUnique(sorted[0], rest);
      } else {
        assert forall k :: 0 <= k < |sorted| ==> sorted[k].ticker in Tickers(sorted);
        ConsKeepsUnique(rec, sorted);
      }
    }
  }

  /** A head whose ticker the rest lacks keeps tickers unique. */
  lemma ConsKeepsUnique(x: Record, rest: seq<Record>)
    requires UniqueTickers(rest)
    requires forall k :: 0 <= k < |rest| ==> rest[k].ticker != x.ticker
    ensures UniqueTickers([x] + rest)
  {
    var r := [x] + rest;
    assert forall k :: 0 < k < |r| ==> r[k] == rest[k - 1];
  }


  /** Sorting keeps tickers unique. */
  lemma {:induction false} SortKeepsUnique(records: seq<Record>)
    requires UniqueTickers(records)
    ensures UniqueTickers(SortByCap(records))
    decreases |records|
  {
    if |records| > 0 {
      var init := records[..|records| - 1];
      var last := records[|records| - 1];
      LastTickerFresh(records);
      SortKeepsUnique(init);
      SameMembersSameTickers(SortByCap(init), init);
      InsertKeepsUnique(SortByCap(init), last);
    }
  }

  /** Two lists with the same members have the same tickers. */
  lemma SameMembersSameTickers(a: seq<Record>, b: seq<Record>)
    requires forall x :: x in a <==> x in b
    ensures Tickers(a) == Tickers(b)
  {
    forall t | t in Tickers(a) ensures t in Tickers(b) {
      var k :| 0 <= k < |a| && a[k].ticker == t;
      assert a[k] in b;
    }
    forall t | t in Tickers(b) ensures t in Tickers(a) {
      var k :| 0 <= k < |b| && b[k].ticker == t;
      assert b[k] in a;
    }
  }

  /** In a list without shared tickers, the last ticker is not among the
      earlier ones, and the earlier ones share none either. */
  lemma LastTickerFresh(records: seq<Record>)
    requires |records| > 0
    ensures UniqueTickers(records) ==> records[|records| - 1].ticker !in Tickers(records[..|records| - 1])
    ensures UniqueTickers(records) ==> UniqueTickers(records[..|records| - 1])
  {
    var init := records[..|records| - 1];
    if UniqueTickers(records) {
      forall k | 0 <= k < |init| ensures init[k].ticker != records[|records| - 1].ticker {
        assert init[k] == records[k];
      }
    }
  }

  /** Filtering by market cap distributes over concatenation. */
  lemma {:induction false} WithCapAppend(a: seq<Record>, b: seq<Record>, cap: int)
    ensures WithCap(a + b, cap) == WithCap(a, cap) + WithCap(b, cap)
    decreases |a|
  {
    if |a| == 0 {
      assert a + b == b;
    } else {
      var head: seq<Record> := if a[0].marketCap == cap then [a[0]] else [];
      assert WithCap(a + b, cap) == head + WithCap(a[1..] + b, cap) by {
        assert a + b == [a[0]] + (a[1..] + b);
        WithCapCons(a[0], a[1..] + b, cap);
      }
      WithCapAppend(a[1..], b, cap);
    }
  }

  /** A list without the market cap filters to nothing. */
  lemma {:induction false} WithCapNone(records: seq<Record>, cap: int)
    requires forall k :: 0 <= k < |records| ==> records[k].marketCap != cap
    ensures WithCap(records, cap) == []
    decreases |records|
  {
    if |records| > 0 {
      WithCapNone(records[1..], cap);
    }
  }

  /** `WithCap` of a list with a given head. */
  lemma WithCapCons(x: Record, rest: seq<Record>, cap: int)
    ensures WithCap([x] + rest, cap) == (if x.marketCap == cap then [x] else []) + WithCap(rest, cap)
  {
    assert ([x] + rest)[1..] == rest;
  }

  /** Inserting `rec` puts it after every record of equal market cap. */
  lemma {:induction false} InsertStable(sorted: seq<Record>, rec: Record, cap: int)
    requires SortedByCap(sorted)
    ensures WithCap(Insert(sorted, rec), cap)
            == WithCap(sorted, cap) + (if rec.marketCap == cap then [rec] else [])
    decreases |sorted|
  {
    var tail: seq<Record> := if rec.marketCap == cap then [rec] else [];
    if |sorted| == 0 {
      WithCapCons(rec, [], cap);
    } else if sorted[0].marketCap >= rec.marketCap {
      var head: seq<Record> := if sorted[0].marketCap == cap then [sorted[0]] else [];
      var rest := Insert(sorted[1..], rec);
      assert Insert(sorted, rec) == [sorted[0]] + rest;
      InsertStable(sorted[1..], rec, cap);
      WithCapCons(sorted[0], rest, cap);
      WithCapCons(sorted[0], sorted[1..], cap);
      assert sorted == [sorted[0]] + sorted[1..];
      assert WithCap(Insert(sorted, rec), cap) == head + (WithCap(sorted[1..], cap) + tail);
    } else {
      assert Insert(sorted, rec) == [rec] + sorted;
      WithCapCons(rec, sorted, cap);
      if rec.marketCap == cap {
        WithCapNone(sorted, cap);
      }
    }
  }

  /** The sort is stable: among records of equal market cap, their order in
      the input is their order in the output. */
  lemma {:induction false} SortIsStable(records: seq<Record>, cap: int)
    ensures WithCap(SortByCap(records), cap) == WithCap(records, cap)
    decreases |records|
  {
    if |records| > 0 {
      var init := records[..|records| - 1];
      var last := records[|records| - 1];
      SortIsStable(init, cap);
      InsertStable(SortByCap(init), last, cap);
      assert records == init + [last];
      WithCapAppend(init, [last], cap);
      assert [last][1..] == [];
    }
  }

  // ----- the ranking -----

  /** The smaller of two counts. */
  function Min(a: nat, b: nat): nat {
    if a < b then a else b
  }

  /** The records the loop of BACK.py:84-98 accepts, in acceptance order. */
  function Accepted(p: Providers, order: SetOrder, competitors: seq<string>): seq<Record> {
    Scanned(p, order(competitors)).records
  }

  /** `get_top_competitors(competitors)`: at most three records, largest
      market cap first, no shared ticker, each one the record its own
      candidate name yields; every accepted record left out has a market cap
      no larger than any record returned. */
  function TopCompetitors(p: Providers, order: SetOrder, competitors: seq<string>): (r: seq<Record>)
    ensures |r| == Min(TopCount, |Accepted(p, order, competitors)|)
    ensures SortedByCap(r)
    ensures UniqueTickers(r)
    ensures forall k :: 0 <= k < |r| ==> r[k] in Accepted(p, order, competitors)
    ensures forall k :: 0 <= k < |r| ==> r[k].name in competitors && IsRecordFor(p, r[k].name, r[k])
    ensures forall rec :: rec in Accepted(p, order, competitors) && rec !in r ==>
              forall k :: 0 <= k < |r| ==> rec.marketCap <= r[k].marketCap
  {
    var names := order(competitors);
    var accepted := Scanned(p, names).records;
    var sorted := SortByCap(accepted);
    var n := Min(TopCount, |sorted|);
    SortKeepsUnique(accepted);
    TakeKeeps(sorted, n);
    AcceptedRecordsValid(p, order, competitors);
    sorted[..n]
  }

  /** Ties keep their encounter order: for every market cap, the returned
      records with that cap are the first of the accepted ones with that
      cap, in acceptance order. */
  lemma TopKeepsTieOrder(p: Providers, order: SetOrder, competitors: seq<string>, cap: int)
    ensures WithCap(TopCompetitors(p, order, competitors), cap) <= WithCap(Accepted(p, order, competitors), cap)
  {
    var accepted := Accepted(p, order, competitors);
    var sorted := SortByCap(accepted);
    var n := Min(TopCount, |sorted|);
    assert TopCompetitors(p, order, competitors) == sorted[..n];
    assert sorted == sorted[..n] + sorted[n..];
    WithCapAppend(sorted[..n], sorted[n..], cap);
    SortIsStable(accepted, cap);
  }

  /** A prefix of a sorted list of records is sorted, keeps unique tickers,
      and dominates every record of the list it leaves out. */
  lemma TakeKeeps(sorted: seq<Record>, n: nat)
    requires n <= |sorted|
    requires SortedByCap(sorted)
    ensures SortedByCap(sorted[..n])
    ensures UniqueTickers(sorted) ==> UniqueTickers(sorted[..n])
    ensures forall k :: 0 <= k < n ==> sorted[..n][k] in sorted
    ensures forall rec :: rec in sorted && rec !in sorted[..n] ==>
              forall k :: 0 <= k < n ==> rec.marketCap <= sorted[..n][k].marketCap
  {
    var r := sorted[..n];
    forall rec | rec in sorted && rec !in r
      ensures forall k :: 0 <= k < n ==> rec.marketCap <= r[k].marketCap
    {
      var j :| 0 <= j < |sorted| && sorted[j] == rec;
      assert n <= j;
    }
  }

  /** The accepted records come from the visited names, hence from the
      candidates. */
  lemma AcceptedRecordsValid(p: Providers, order: SetOrder, competitors: seq<string>)
    ensures forall rec :: rec in Accepted(p, order, competitors) ==>
              rec.name in competitors && IsRecordFor(p, rec.name, rec)
  {
    var names := order(competitors);
    assert Enumerates(names, competitors);
  }

  /** A single competitor ranks to nothing exactly when it yields no
      record. */
  lemma {:induction false} SingleNameRanking(p: Providers, order: SetOrder, name: string)
    ensures TopCompetitors(p, order, [name]) == [] <==> Candidate(p, name).None?
  {
    var names := order([name]);
    assert Enumerates(names, [name]);
    var st := Scanned(p, names);
    if Candidate(p, name).None? {
      assert forall i :: 0 <= i < |names| ==> names[i] in names;
      ScannedRejectedIsEmpty(p, names);
    } else {
      assert name in names;
      var i :| 0 <= i < |names| && names[i] == name;
      ScannedComplete(p, names);
      assert Candidate(p, name).value.ticker in Tickers(st.records);
    }
  }

  /** Names that yield no record leave the scan empty. */
  lemma {:induction false} ScannedRejectedIsEmpty(p: Providers, names: seq<string>)
    requires forall i :: 0 <= i < |names| ==> Candidate(p, names[i]).None?
    ensures Scanned(p, names).records == []
    decreases |names|
  {
    if |names| > 0 {
      var init := names[..|names| - 1];
      assert forall i :: 0 <= i < |init| ==> init[i] == names[i];
      ScannedRejectedIsEmpty(p, init);
    }
  }
}

/** Storing a company's fact-by-period table (save_dataframe.py): the
    per-fact series of dated values, the document keyed by ticker, and the
    collection it is written to. The table is what `makeCompanyDataframe`
    returns; the database connection is not part of this model, the
    collection is a list of documents held in memory. */
module Trends {
  import opened Base
  import opened Text
  import opened Order
  import opened Tables

  /** One `{'date': ..., 'value': ...}` entry of a series. */
  datatype Point = Point(date: string, value: real)

  /** One row of `df.to_dict(orient='records')`: the fact and, for every
      period column, the cell (absent for NaN). */
  datatype Record = Record(fact: Option<string>, cells: map<string, Option<real>>)

  /** The `financials` field: the per-fact series written by
      `save_financial_trends`, or the row records written by
      `save_dataframe_to_db`. */
  datatype Financials = Trends(series: map<string, seq<Point>>) | Records(rows: seq<Record>)

  datatype Document = Document(ticker: string, financials: Financials)

  // ---------------------------------------------------------------------
  // save_financial_trends: the series
  // ---------------------------------------------------------------------

  /** The series of one row: a point for every period, in column order,
      whose cell holds a value. */
  function SeriesOf(periods: seq<string>, cells: map<string, real>): seq<Point>
  {
    if periods == [] then []
    else
      var p := periods[|periods| - 1];
      SeriesOf(periods[..|periods| - 1], cells) + if p in cells then [Point(p, cells[p])] else []
  }

  function Dates(points: seq<Point>): (r: seq<string>)
    ensures |r| == |points|
    ensures forall k :: 0 <= k < |points| ==> r[k] == points[k].date
  {
    seq(|points|, k requires 0 <= k < |points| => points[k].date)
  }

  /** A series holds exactly the periods whose cell has a value, each with
      that value; over periods in ascending order its dates ascend too. */
  lemma SeriesOfSpec(periods: seq<string>, cells: map<string, real>)
    ensures forall k :: 0 <= k < |SeriesOf(periods, cells)| ==>
              var q := SeriesOf(periods, cells)[k];
              q.date in periods && q.date in cells && q.value == cells[q.date]
    ensures forall p :: p in periods && p in cells ==> p in Dates(SeriesOf(periods, cells))
    ensures Increasing(periods) ==> Increasing(Dates(SeriesOf(periods, cells)))
  {
    SeriesOfSound(periods, cells);
    SeriesOfComplete(periods, cells);
    SeriesOfIncreasing(periods, cells);
  }

  lemma {:induction false} SeriesOfSound(periods: seq<string>, cells: map<string, real>)
    ensures forall k :: 0 <= k < |SeriesOf(periods, cells)| ==>
              var q := SeriesOf(periods, cells)[k];
              q.date in periods && q.date in cells && q.value == cells[q.date]
  {
    if periods != [] {
      var init, p := periods[..|periods| - 1], periods[|periods| - 1];
      SeriesOfSound(init, cells);
      var s := SeriesOf(init, cells);
      var r := SeriesOf(periods, cells);
      assert r == s + if p in cells then [Point(p, cells[p])] else [];
      forall k | 0 <= k < |r| ensures r[k].date in periods && r[k].date in cells && r[k].value == cells[r[k].date] {
        if k < |s| {
          assert r[k] == s[k];
          var i :| 0 <= i < |init| && init[i] == s[k].date;
          assert periods[i] == init[i];
        }
      }
    }
  }

  lemma {:induction false} SeriesOfComplete(periods: seq<string>, cells: map<string, real>)
    ensures forall p :: p in periods && p in cells ==> p in Dates(SeriesOf(periods, cells))
  {
    if periods != [] {
      var n := |periods|;
      var init, last := periods[..n - 1], periods[n - 1];
      SeriesOfComplete(init, cells);
      var s := SeriesOf(init, cells);
      var r := SeriesOf(periods, cells);
      assert r == s + if last in cells then [Point(last, cells[last])] else [];
      assert Dates(s) <= Dates(r);
      forall x | x in periods && x in cells
        ensures x in Dates(r)
      {
        if x != last {
          var i :| 0 <= i < n && periods[i] == x;
          assert init[i] == x;
        } else {
          assert Dates(r)[|r| - 1] == x;
        }
      }
    }
  }

  lemma {:induction false} SeriesOfIncreasing(periods: seq<string>, cells: map<string, real>)
    ensures Increasing(periods) ==> Increasing(Dates(SeriesOf(periods, cells)))
  {
    if periods != [] && Increasing(periods) {
      var n := |periods|;
      var init, p := periods[..n - 1], periods[n - 1];
      assert Increasing(init);
      SeriesOfIncreasing(init, cells);
      SeriesOfSound(init, cells);
      var s := SeriesOf(init, cells);
      var r := SeriesOf(periods, cells);
      assert r == s + if p in cells then [Point(p, cells[p])] else [];
      var d := Dates(r);
      forall a, b | 0 <= a < b < |d|
        ensures Below(d[a], d[b]) && d[a] != d[b]
      {
        assert r[a] == s[a];
        if b < |s| {
          assert r[b] == s[b];
          assert Dates(s)[a] == d[a] && Dates(s)[b] == d[b];
        } else {
          assert d[b] == p;
          var i :| 0 <= i < |init| && init[i] == d[a];
          assert periods[i] == d[a];
        }
      }
    }
  }

  /** Row `i` is named `k` and has at least one value. */
  predicate Filled(rows: seq<Series>, periods: seq<string>, i: int, k: string)
  {
    0 <= i < |rows| && rows[i].name == Some(k) && SeriesOf(periods, rows[i].cells) != []
  }

  /** The `financials` mapping: rows without a name are skipped, a row
      without any value adds nothing, and a later row with the same name
      replaces an earlier one. */
  function FinancialsOf(rows: seq<Series>, periods: seq<string>): map<string, seq<Point>>
  {
    if rows == [] then map[]
    else
      var m := FinancialsOf(rows[..|rows| - 1], periods);
      var row := rows[|rows| - 1];
      if row.name.None? then m
      else
        var points := SeriesOf(periods, row.cells);
        if points == [] then m else m[row.name.value := points]
  }

  lemma FilledInit(rows: seq<Series>, periods: seq<string>, i: int, k: string)
    requires 0 <= i < |rows| - 1
    ensures Filled(rows[..|rows| - 1], periods, i, k) <==> Filled(rows, periods, i, k)
  {
    assert rows[..|rows| - 1][i] == rows[i];
  }

  /** The mapping has a key exactly for every name of a row with a value. */
  lemma {:induction false} FinancialsKeys(rows: seq<Series>, periods: seq<string>)
    ensures forall k :: k in FinancialsOf(rows, periods) <==> exists i :: Filled(rows, periods, i, k)
  {
    if rows != [] {
      var n := |rows|;
      var init := rows[..n - 1];
      FinancialsKeys(init, periods);
      var m := FinancialsOf(init, periods);
      var f := FinancialsOf(rows, periods);
      forall k
        ensures k in f <==> exists i :: Filled(rows, periods, i, k)
      {
        if !Filled(rows, periods, n - 1, k) {
          assert k in f <==> k in m;
          if k in m {
            var i :| Filled(init, periods, i, k);
            FilledInit(rows, periods, i, k);
          }
          if exists i :: Filled(rows, periods, i, k) {
            var i :| Filled(rows, periods, i, k);
            FilledInit(rows, periods, i, k);
          }
        }
      }
    }
  }

  /** Each key holds the series of the last row with that name and a value:
      a later row replaces an earlier one. */
  lemma {:induction false} FinancialsValues(rows: seq<Series>, periods: seq<string>)
    ensures forall k :: k in FinancialsOf(rows, periods) ==>
              exists i :: (Filled(rows, periods, i, k)
                           && FinancialsOf(rows, periods)[k] == SeriesOf(periods, rows[i].cells)
                           && forall j :: i < j < |rows| ==> !Filled(rows, periods, j, k))
  {
    if rows != [] {
      var n := |rows|;
      var init := rows[..n - 1];
      FinancialsValues(init, periods);
      var m := FinancialsOf(init, periods);
      var f := FinancialsOf(rows, periods);
      forall k | k in f
        ensures exists i :: (Filled(rows, periods, i, k)
                             && f[k] == SeriesOf(periods, rows[i].cells)
                             && forall j :: i < j < |rows| ==> !Filled(rows, periods, j, k))
      {
        if Filled(rows, periods, n - 1, k) {
          assert f[k] == SeriesOf(periods, rows[n - 1].cells);
        } else {
          assert k in m && f[k] == m[k];
          var i :| Filled(init, periods, i, k) && m[k] == SeriesOf(periods, init[i].cells)
                   && forall j :: i < j < |init| ==> !Filled(init, periods, j, k);
          FilledInit(rows, periods, i, k);
          forall j | i < j < n
            ensures !Filled(rows, periods, j, k)
          {
            if j < n - 1 {
              FilledInit(rows, periods, j, k);
            }
          }
          assert rows[i] == init[i];
        }
      }
    }
  }

  /** The loops of `save_financial_trends` that fill `financials`. */
  method BuildFinancials(t: Table) returns (financials: map<string, seq<Point>>)
    ensures financials == FinancialsOf(t.series, t.periods)
  {
    financials := map[];
    for i := 0 to |t.series|
      invariant financials == FinancialsOf(t.series[..i], t.periods)
    {
      assert t.series[..i + 1][..i] == t.series[..i];
      var row := t.series[i];
      if row.name.None? {
        continue;
      }
      var series: seq<Point> := [];
      for j := 0 to |t.periods|
        invariant series == SeriesOf(t.periods[..j], row.cells)
      {
        assert t.periods[..j + 1][..j] == t.periods[..j];
        var date := t.periods[j];
        if date in row.cells {
          series := series + [Point(date, row.cells[date])];
        }
      }
      assert t.periods[..|t.periods|] == t.periods;
      if series != [] {
        financials := financials[row.name.value := series];
      }
    }
    assert t.series[..|t.series|] == t.series;
  }

  // ---------------------------------------------------------------------
  // save_dataframe_to_db: the row records
  // ---------------------------------------------------------------------

  /** `df.to_dict(orient='records')`: one record per row, with a cell for
      every period column. */
  function RecordsOf(t: Table): (r: seq<Record>)
    ensures |r| == |t.series|
    ensures forall i :: 0 <= i < |r| ==> r[i].fact == t.series[i].name
    ensures forall i :: 0 <= i < |r| ==> r[i].cells.Keys == Elems(t.periods)
    ensures forall i, p :: 0 <= i < |r| && p in r[i].cells ==>
              r[i].cells[p] == if p in t.series[i].cells then Some(t.series[i].cells[p]) else None
  {
    seq(|t.series|, i requires 0 <= i < |t.series| =>
      Record(t.series[i].name,
             map p | p in t.periods :: if p in t.series[i].cells then Some(t.series[i].cells[p]) else None))
  }

  // ---------------------------------------------------------------------
  // The collection
  // ---------------------------------------------------------------------

  /** The index of the first document with this exact ticker. */
  function FirstWith(docs: seq<Document>, ticker: string): (r: Option<nat>)
    ensures r.Some? ==> r.value < |docs| && docs[r.value].ticker == ticker
                        && forall j :: 0 <= j < r.value ==> docs[j].ticker != ticker
    ensures r.None? ==> forall j :: 0 <= j < |docs| ==> docs[j].ticker != ticker
  {
    if docs == [] then None
    else if docs[0].ticker == ticker then Some(0)
    else
      match FirstWith(docs[1..], ticker)
      case None => None
      case Some(j) => Some(j + 1)
  }

  /** `update_one({'ticker': key}, {'$set': doc}, upsert=True)` where `doc`
      sets every field: the first document with that ticker is replaced,
      and without one `doc` is added at the end. */
  function Upserted(docs: seq<Document>, key: string, doc: Document): seq<Document>
  {
    match FirstWith(docs, key)
    case Some(i) => docs[i := doc]
    case None => docs + [doc]
  }

  /** How many documents carry this ticker. */
  function Count(docs: seq<Document>, ticker: string): nat
  {
    if docs == [] then 0
    else Count(docs[..|docs| - 1], ticker) + if docs[|docs| - 1].ticker == ticker then 1 else 0
  }

  /** The documents with another ticker, in order. */
  function Others(docs: seq<Document>, ticker: string): seq<Document>
  {
    if docs == [] then []
    else Others(docs[..|docs| - 1], ticker) + if docs[|docs| - 1].ticker == ticker then [] else [docs[|docs| - 1]]
  }

  lemma {:induction false} ReplaceCounts(docs: seq<Document>, i: nat, doc: Document)
    requires i < |docs| && docs[i].ticker == doc.ticker
    ensures Count(docs[i := doc], doc.ticker) == Count(docs, doc.ticker)
    ensures Others(docs[i := doc], doc.ticker) == Others(docs, doc.ticker)
    decreases |docs|
  {
    var n := |docs|;
    var r := docs[i := doc];
    if i < n - 1 {
      assert r[..n - 1] == docs[..n - 1][i := doc];
      ReplaceCounts(docs[..n - 1], i, doc);
    } else {
      assert r[..n - 1] == docs[..n - 1];
    }
  }

  lemma {:induction false} CountZero(docs: seq<Document>, ticker: string)
    requires forall j :: 0 <= j < |docs| ==> docs[j].ticker != ticker
    ensures Count(docs, ticker) == 0
  {
    if docs != [] {
      CountZero(docs[..|docs| - 1], ticker);
    }
  }

  /** An upsert keyed by the document's own ticker leaves one document with
      that ticker when there was none and otherwise as many as before, puts
      `doc` where a lookup finds it, and leaves every other document as it
      was. */
  lemma UpsertSpec(docs: seq<Document>, doc: Document)
    ensures Count(Upserted(docs, doc.ticker, doc), doc.ticker) ==
              if Count(docs, doc.ticker) == 0 then 1 else Count(docs, doc.ticker)
    ensures FirstWith(Upserted(docs, doc.ticker, doc), doc.ticker).Some?
    ensures Upserted(docs, doc.ticker, doc)[FirstWith(Upserted(docs, doc.ticker, doc), doc.ticker).value] == doc
    ensures Others(Upserted(docs, doc.ticker, doc), doc.ticker) == Others(docs, doc.ticker)
  {
    var key := doc.ticker;
    var r := Upserted(docs, key, doc);
    match FirstWith(docs, key)
    case Some(i) =>
      ReplaceCounts(docs, i, doc);
      assert docs[i].ticker == key;
      assert Count(docs, key) != 0 by {
        if Count(docs, key) == 0 {
          CountPositive(docs, i, key);
        }
      }
      assert FirstWith(r, key) == Some(i) by {
        FirstWithIs(r, key, i);
      }
    case None =>
      CountZero(docs, key);
      assert r[..|docs|] == docs;
      FirstWithIs(r, key, |docs|);
  }

  lemma {:induction false} CountPositive(docs: seq<Document>, i: nat, ticker: string)
    requires i < |docs| && docs[i].ticker == ticker
    ensures Count(docs, ticker) > 0
    decreases |docs|
  {
    if i < |docs| - 1 {
      CountPositive(docs[..|docs| - 1], i, ticker);
    }
  }

  lemma {:induction false} FirstWithIs(docs: seq<Document>, ticker: string, i: nat)
    requires i < |docs| && docs[i].ticker == ticker
    requires forall j :: 0 <= j < i ==> docs[j].ticker != ticker
    ensures FirstWith(docs, ticker) == Some(i)
    decreases i
  {
    if i > 0 {
      FirstWithIs(docs[1..], ticker, i - 1);
    }
  }

  /** Two saves keyed by the same ticker leave as many documents with it
      as one save. */
  lemma RepeatedSavesReplace(docs: seq<Document>, first: Document, second: Document)
    requires first.ticker == second.ticker
    ensures var once := Upserted(docs, first.ticker, first);
            Count(Upserted(once, second.ticker, second), second.ticker) == Count(once, first.ticker)
  {
    var once := Upserted(docs, first.ticker, first);
    UpsertSpec(docs, first);
    UpsertSpec(once, second);
  }

  /** The store the functions write to: a list of documents. */
  class Collection {
    var docs: seq<Document>

    constructor (docs: seq<Document>)
      ensures this.docs == docs
    {
      this.docs := docs;
    }

    /** `find_one({'ticker': ticker})` */
    function FindOne(ticker: string): (r: Option<Document>)
      reads this
      ensures r.Some? <==> exists j :: 0 <= j < |docs| && docs[j].ticker == ticker
      ensures r.Some? ==> r.value.ticker == ticker
    {
      match FirstWith(docs, ticker)
      case Some(i) => Some(docs[i])
      case None => None
    }

    method InsertOne(doc: Document)
      modifies this
      ensures docs == old(docs) + [doc]
    {
      docs := docs + [doc];
    }

    method UpdateOneUpsert(key: string, doc: Document)
      modifies this
      ensures docs == Upserted(old(docs), key, doc)
    {
      var i := FirstWith(docs, key);
      if i.Some? {
        docs := docs[i.value := doc];
      } else {
        docs := docs + [doc];
      }
    }
  }

  /** `save_financial_trends(ticker, collection)` on the table `t`. */
  method SaveFinancialTrends(ticker: string, t: Table, collection: Collection)
    modifies collection
    ensures collection.docs ==
              Upserted(old(collection.docs), LowerStr(ticker),
                       Document(LowerStr(ticker), Trends(FinancialsOf(t.series, t.periods))))
  {
    var financials := BuildFinancials(t);
    var doc := Document(LowerStr(ticker), Trends(financials));
    collection.UpdateOneUpsert(LowerStr(ticker), doc);
  }

  /** `save_dataframe_to_db(ticker, collection)` on the table `t`: the
      ticker is stored as given. */
  method SaveDataframeToDb(ticker: string, t: Table, collection: Collection)
    modifies collection
    ensures collection.docs == old(collection.docs) + [Document(ticker, Records(RecordsOf(t)))]
  {
    collection.InsertOne(Document(ticker, Records(RecordsOf(t))));
  }

  function NoData(ticker: string): string
  {
    "ValueError: No data found for ticker: " + ticker
  }

  /** The message `pd.DataFrame` raises for columns of different lengths. */
  const UnequalLengths: string := "ValueError: All arrays must be of the same length"

  /** `pd.DataFrame(financials)` raises on a dictionary of series (the shape
      `save_financial_trends` writes) whose series differ in length; a list
      of records (the shape `save_dataframe_to_db` writes) always loads. */
  predicate Ragged(f: Financials) {
    f.Trends? && exists a, b :: a in f.series && b in f.series && |f.series[a]| != |f.series[b]|
  }

  /** `load_collection_to_dataframe(ticker, collection)`: the financials of
      the first document with exactly this ticker, which `pd.DataFrame`
      turns into a frame (and fails on when the stored series differ in
      length) before the frame is written to a CSV file. */
  method LoadCollection(ticker: string, collection: Collection) returns (r: Result<Financials>)
    ensures FirstWith(collection.docs, ticker).None? ==> r == Err(NoData(ticker))
    ensures FirstWith(collection.docs, ticker).Some? ==>
      var f := collection.docs[FirstWith(collection.docs, ticker).value].financials;
      && (r.Ok? <==> !Ragged(f))
      && (r.Ok? ==> r.value == f)
      && (r.Err? ==> r.error == UnequalLengths)
  {
    var document := collection.FindOne(ticker);
    if document.None? {
      return Err(NoData(ticker));
    }
    var financials := document.value.financials;
    if Ragged(financials) {
      return Err(UnequalLengths);
    }
    r := Ok(financials);
  }

  /** After `save_financial_trends`, a lookup under the lower-cased ticker
      finds exactly the saved series, so loading them succeeds exactly when
      they all have the same length. */
  lemma SavedTrendsFound(docs: seq<Document>, ticker: string, series: map<string, seq<Point>>)
    ensures var key := LowerStr(ticker);
      var after := Upserted(docs, key, Document(key, Trends(series)));
      && FirstWith(after, key).Some?
      && after[FirstWith(after, key).value].financials == Trends(series)
  {
    UpsertSpec(docs, Document(LowerStr(ticker), Trends(series)));
  }

  /** Trends are stored under the lower-cased ticker, so when the ticker
      has upper-case letters a later lookup with it as given still finds
      nothing. */
  lemma TrendsNotFoundByGivenTicker(docs: seq<Document>, ticker: string, series: map<string, seq<Point>>)
    requires LowerStr(ticker) != ticker
    requires FirstWith(docs, ticker).None?
    ensures FirstWith(Upserted(docs, LowerStr(ticker), Document(LowerStr(ticker), Trends(series))), ticker).None?
  {
    var r := Upserted(docs, LowerStr(ticker), Document(LowerStr(ticker), Trends(series)));
    assert forall j :: 0 <= j < |r| ==> r[j].ticker != ticker;
  }
}

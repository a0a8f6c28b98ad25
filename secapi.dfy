/** `sec_api_utils.py`: the company lookup and the XBRL fact pipeline.

    The three SEC endpoints the Python code fetches (the company directory
    `company_tickers.json`, a company's submissions and its company facts)
    are passed in as values. Dates are ISO `YYYY-MM-DD` strings, whose
    string order is the date order pandas sorts `Timestamp`s by. */
module SecApi {
  import opened Base
  import opened Text
  import opened Order
  import opened Tables

  // ---- getCIKNumber ----

  /** One entry of the SEC company directory. */
  datatype Company = Company(cik: nat, ticker: string, title: string)

  /** `ticker.upper().replace(".", "-")`: share-class tickers such as
      `brk.b` are spelled `BRK-B` in the directory. */
  function NormalizeTicker(s: string): (r: string)
    ensures |r| == |s|
    ensures forall i :: 0 <= i < |r| ==> r[i] != '.' && !IsLowerAscii(r[i])
    ensures forall i :: 0 <= i < |s| && s[i] != '.' && !IsLowerAscii(s[i]) ==> r[i] == s[i]
    ensures forall i :: 0 <= i < |s| && s[i] == '.' ==> r[i] == '-'
    ensures forall i :: 0 <= i < |s| && IsLowerAscii(s[i]) ==> r[i] == Upper(s[i])
  {
    seq(|s|, i requires 0 <= i < |s| => if s[i] == '.' then '-' else Upper(s[i]))
  }

  /** Normalising twice is normalising once. */
  lemma NormalizeIdempotent(s: string)
    ensures NormalizeTicker(NormalizeTicker(s)) == NormalizeTicker(s)
  {
    var r := NormalizeTicker(s);
    assert forall i :: 0 <= i < |r| ==> NormalizeTicker(r)[i] == r[i];
  }

  /** `str(cik_str).zfill(10)`. */
  function CikString(cik: nat): string
  {
    ZFill(Decimal(cik), 10)
  }

  /** The padded CIK has ten digits, or more when the number needs them; it
      ends with the decimal digits of the number and denotes the same number. */
  lemma CikStringSpec(cik: nat)
    ensures |CikString(cik)| == if |Decimal(cik)| >= 10 then |Decimal(cik)| else 10
    ensures CikString(cik)[|CikString(cik)| - |Decimal(cik)|..] == Decimal(cik)
    ensures forall i :: 0 <= i < |CikString(cik)| ==> IsDigit(CikString(cik)[i])
    ensures DigitsValue(CikString(cik)) == cik
  {
    ZFillSpec(Decimal(cik), 10);
    DecimalRoundTrip(cik);
  }

  function TickerNotFound(ticker: string): string
  {
    "ValueError: Ticker " + ticker + " not found in SEC database"
  }

  /** `getCIKNumber(ticker)` over the fetched directory, in its order: the
      padded CIK of the first entry whose ticker equals the normalised one. */
  method CikNumber(ticker: string, directory: seq<Company>) returns (r: Result<string>)
    ensures r.Ok? <==> exists i :: 0 <= i < |directory| && directory[i].ticker == NormalizeTicker(ticker)
    ensures r.Err? ==> r.error == TickerNotFound(NormalizeTicker(ticker))
    ensures r.Ok? ==> exists i :: (
      && 0 <= i < |directory| && directory[i].ticker == NormalizeTicker(ticker)
      && (forall j :: 0 <= j < i ==> directory[j].ticker != NormalizeTicker(ticker))
      && r.value == CikString(directory[i].cik))
  {
    var t := NormalizeTicker(ticker);
    var i := 0;
    while i < |directory|
      invariant 0 <= i <= |directory|
      invariant forall j :: 0 <= j < i ==> directory[j].ticker != t
    {
      if directory[i].ticker == t {
        return Ok(CikString(directory[i].cik));
      }
      i := i + 1;
    }
    return Err(TickerNotFound(t));
  }

  // ---- getFilteredFilings ----

  /** One row of a company's `filings.recent` submissions table. */
  datatype Filing = Filing(accessionNumber: string, reportDate: string, form: string, primaryDocument: string)

  /** One entry of the accession-number series indexed by report date. */
  datatype Accession = Accession(reportDate: string, accn: string)

  /** The filings of one form, in submission order, as (report date,
      accession number) entries. */
  function OfForm(fs: seq<Filing>, form: string): seq<Accession>
    decreases |fs|
  {
    if fs == [] then []
    else
      var head := if fs[0].form == form then [Accession(fs[0].reportDate, fs[0].accessionNumber)] else [];
      head + OfForm(fs[1..], form)
  }

  /** An entry comes out exactly for each filing of the form. */
  lemma {:induction false} OfFormMembers(fs: seq<Filing>, form: string)
    ensures |OfForm(fs, form)| <= |fs|
    ensures forall a :: a in OfForm(fs, form) <==>
      exists i :: 0 <= i < |fs| && fs[i].form == form && a == Accession(fs[i].reportDate, fs[i].accessionNumber)
    decreases |fs|
  {
    if fs != [] {
      OfFormMembers(fs[1..], form);
      forall a ensures a in OfForm(fs, form) <==>
        exists i :: 0 <= i < |fs| && fs[i].form == form && a == Accession(fs[i].reportDate, fs[i].accessionNumber)
      {
        if a in OfForm(fs[1..], form) {
          var i :| 0 <= i < |fs[1..]| && fs[1..][i].form == form
            && a == Accession(fs[1..][i].reportDate, fs[1..][i].accessionNumber);
          assert fs[i + 1] == fs[1..][i];
        }
        if exists i :: 0 <= i < |fs| && fs[i].form == form && a == Accession(fs[i].reportDate, fs[i].accessionNumber) {
          var i :| 0 <= i < |fs| && fs[i].form == form && a == Accession(fs[i].reportDate, fs[i].accessionNumber);
          if i > 0 {
            assert fs[1..][i - 1] == fs[i];
          }
        }
      }
    }
  }

  /** Selection keeps submission order: filtering a concatenation filters
      each part. */
  lemma {:induction false} OfFormAppend(a: seq<Filing>, b: seq<Filing>, form: string)
    ensures OfForm(a + b, form) == OfForm(a, form) + OfForm(b, form)
    decreases |a|
  {
    if a == [] {
      assert a + b == b;
    } else {
      var head := if a[0].form == form then [Accession(a[0].reportDate, a[0].accessionNumber)] else [];
      var x, y := OfForm(a[1..], form), OfForm(b, form);
      assert OfForm(a + b, form) == head + OfForm(a[1..] + b, form) by {
        assert a + b != [];
        assert (a + b)[0] == a[0] && (a + b)[1..] == a[1..] + b;
      }
      assert OfForm(a[1..] + b, form) == x + y by {
        OfFormAppend(a[1..], b, form);
      }
      assert head + (x + y) == (head + x) + y;
    }
  }

  /** `getFilteredFilings`: `'ten_k'` picks the 10-K filings and `'ten_q'`
      the 10-Q filings; any other argument leaves `df` unbound. */
  function FilteredFilings(fs: seq<Filing>, form: string): (r: Result<seq<Accession>>)
    ensures r.Ok? <==> form == "ten_k" || form == "ten_q"
    ensures r.Err? ==> r.error == "UnboundLocalError: df"
  {
    if form == "ten_k" then Ok(OfForm(fs, "10-K"))
    else if form == "ten_q" then Ok(OfForm(fs, "10-Q"))
    else Err("UnboundLocalError: df")
  }

  /** The selection is exact: an entry comes out for each filing whose form
      is exactly `10-K` (for `'ten_k'`) or `10-Q` (for `'ten_q'`). */
  lemma FilteredFilingsMembers(fs: seq<Filing>, form: string, a: Accession)
    requires form == "ten_k" || form == "ten_q"
    ensures a in FilteredFilings(fs, form).value <==>
      exists i :: 0 <= i < |fs| && fs[i].form == (if form == "ten_k" then "10-K" else "10-Q")
        && a == Accession(fs[i].reportDate, fs[i].accessionNumber)
  {
    OfFormMembers(fs, if form == "ten_k" then "10-K" else "10-Q");
  }

  // ---- getFactsDF ----

  /** One reported value of a fact: `start` is absent for instant facts. */
  datatype Item = Item(start: Option<string>, end: string, val: real, accn: string, form: string, filed: string)

  /** The items of one fact reported in one unit (`USD`, `shares`, ...). */
  datatype Unit = Unit(name: string, items: seq<Item>)

  /** One `us-gaap` fact of the company facts: its key, label and units. */
  datatype Fact = Fact(name: string, factLabel: Option<string>, units: seq<Unit>)

  /** One row of the flattened frame: an item's fields plus `fact`. */
  datatype Row = Row(fact: string, item: Item)

  function ItemRows(fact: string, items: seq<Item>): (r: seq<Row>)
    ensures |r| == |items|
    ensures forall k :: 0 <= k < |items| ==> r[k] == Row(fact, items[k])
  {
    seq(|items|, k requires 0 <= k < |items| => Row(fact, items[k]))
  }

  function UnitRows(fact: string, units: seq<Unit>): seq<Row>
  {
    if units == [] then []
    else UnitRows(fact, units[..|units| - 1]) + ItemRows(fact, units[|units| - 1].items)
  }

  /** The rows of the three nested loops, fact by fact, unit by unit, item
      by item. */
  function Flatten(facts: seq<Fact>): seq<Row>
  {
    if facts == [] then []
    else Flatten(facts[..|facts| - 1]) + UnitRows(facts[|facts| - 1].name, facts[|facts| - 1].units)
  }

  /** The loops of `getFactsDF` that build `df_data`. */
  method FlattenFacts(facts: seq<Fact>) returns (rows: seq<Row>)
    ensures rows == Flatten(facts)
  {
    rows := [];
    var i := 0;
    while i < |facts|
      invariant 0 <= i <= |facts|
      invariant rows == Flatten(facts[..i])
    {
      var f := facts[i];
      ghost var done := rows;
      var j := 0;
      while j < |f.units|
        invariant 0 <= j <= |f.units|
        invariant rows == done + UnitRows(f.name, f.units[..j])
      {
        UnitRowsSnoc(done, f.name, f.units, j);
        rows := AppendItems(rows, f.name, f.units[j].items);
        j := j + 1;
      }
      assert f.units[..j] == f.units;
      FlattenSnoc(facts, i);
      i := i + 1;
    }
    assert facts[..i] == facts;
  }

  /** The innermost loop of `getFactsDF`: one row per item of a unit. */
  method AppendItems(rows: seq<Row>, fact: string, items: seq<Item>) returns (out: seq<Row>)
    ensures out == rows + ItemRows(fact, items)
  {
    out := rows;
    var k := 0;
    while k < |items|
      invariant 0 <= k <= |items|
      invariant out == rows + ItemRows(fact, items[..k])
    {
      ItemRowsSnoc(fact, items, k);
      out := out + [Row(fact, items[k])];
      k := k + 1;
    }
    assert items[..k] == items;
  }

  lemma ItemRowsSnoc(fact: string, items: seq<Item>, k: nat)
    requires k < |items|
    ensures ItemRows(fact, items[..k + 1]) == ItemRows(fact, items[..k]) + [Row(fact, items[k])]
  {
  }

  lemma UnitRowsSnoc(done: seq<Row>, fact: string, units: seq<Unit>, j: nat)
    requires j < |units|
    ensures done + UnitRows(fact, units[..j + 1])
         == (done + UnitRows(fact, units[..j])) + ItemRows(fact, units[j].items)
  {
    assert units[..j + 1][..j] == units[..j];
  }

  lemma FlattenSnoc(facts: seq<Fact>, i: nat)
    requires i < |facts|
    ensures Flatten(facts[..i + 1]) == Flatten(facts[..i]) + UnitRows(facts[i].name, facts[i].units)
  {
    assert facts[..i + 1][..i] == facts[..i];
  }

  /** A row is emitted for item `k` of unit `j` of fact `i`. */
  predicate Emitted(facts: seq<Fact>, r: Row)
  {
    exists i, j, k :: 0 <= i < |facts| && 0 <= j < |facts[i].units| && 0 <= k < |facts[i].units[j].items|
      && r == Row(facts[i].name, facts[i].units[j].items[k])
  }

  lemma {:induction false} UnitRowsMembers(fact: string, units: seq<Unit>, r: Row)
    ensures r in UnitRows(fact, units) <==>
      exists j, k :: 0 <= j < |units| && 0 <= k < |units[j].items| && r == Row(fact, units[j].items[k])
    decreases |units|
  {
    if units != [] {
      var init, last := units[..|units| - 1], units[|units| - 1];
      UnitRowsMembers(fact, init, r);
      if exists j, k :: 0 <= j < |units| && 0 <= k < |units[j].items| && r == Row(fact, units[j].items[k]) {
        var j, k :| 0 <= j < |units| && 0 <= k < |units[j].items| && r == Row(fact, units[j].items[k]);
        if j < |init| {
          assert init[j] == units[j];
        } else {
          assert ItemRows(fact, last.items)[k] == r;
        }
      }
      if r in UnitRows(fact, init) {
        var j, k :| 0 <= j < |init| && 0 <= k < |init[j].items| && r == Row(fact, init[j].items[k]);
        assert units[j] == init[j];
      }
    }
  }

  /** Flattening emits exactly one row per (fact, unit, item), carrying the
      fact's key, and nothing else. */
  lemma {:induction false} FlattenMembers(facts: seq<Fact>, r: Row)
    ensures r in Flatten(facts) <==> Emitted(facts, r)
    decreases |facts|
  {
    if facts != [] {
      var init, last := facts[..|facts| - 1], facts[|facts| - 1];
      FlattenMembers(init, r);
      UnitRowsMembers(last.name, last.units, r);
      assert Flatten(facts) == Flatten(init) + UnitRows(last.name, last.units);
      EmittedSnoc(facts, r);
    }
  }

  /** One of the rows the units of `f` produce. */
  predicate FactEmits(f: Fact, r: Row)
  {
    exists j, k :: 0 <= j < |f.units| && 0 <= k < |f.units[j].items| && r == Row(f.name, f.units[j].items[k])
  }

  /** A row is emitted by some fact exactly when an earlier fact or the last
      one emits it. */
  lemma EmittedSnoc(facts: seq<Fact>, r: Row)
    requires facts != []
    ensures Emitted(facts, r) <==> (Emitted(facts[..|facts| - 1], r) || FactEmits(facts[|facts| - 1], r))
  {
    var init := facts[..|facts| - 1];
    if Emitted(facts, r) {
      var i, j, k :| 0 <= i < |facts| && 0 <= j < |facts[i].units| && 0 <= k < |facts[i].units[j].items|
        && r == Row(facts[i].name, facts[i].units[j].items[k]);
      if i < |init| {
        assert init[i] == facts[i];
      }
    }
    if Emitted(init, r) {
      var i, j, k :| 0 <= i < |init| && 0 <= j < |init[i].units| && 0 <= k < |init[i].units[j].items|
        && r == Row(init[i].name, init[i].units[j].items[k]);
      assert facts[i] == init[i];
    }
  }

  function UnitItemCount(units: seq<Unit>): nat
  {
    if units == [] then 0 else UnitItemCount(units[..|units| - 1]) + |units[|units| - 1].items|
  }

  function ItemCount(facts: seq<Fact>): nat
  {
    if facts == [] then 0 else ItemCount(facts[..|facts| - 1]) + UnitItemCount(facts[|facts| - 1].units)
  }

  /** One row per item: the frame has as many rows as the facts have items. */
  lemma {:induction false} FlattenLength(facts: seq<Fact>)
    ensures |Flatten(facts)| == ItemCount(facts)
    decreases |facts|
  {
    if facts != [] {
      FlattenLength(facts[..|facts| - 1]);
      UnitRowsLength(facts[|facts| - 1].name, facts[|facts| - 1].units);
    }
  }

  lemma {:induction false} UnitRowsLength(fact: string, units: seq<Unit>)
    ensures |UnitRows(fact, units)| == UnitItemCount(units)
    decreases |units|
  {
    if units != [] {
      UnitRowsLength(fact, units[..|units| - 1]);
    }
  }

  /** `{fact: details["label"] for fact, details in us_gaap_data.items()}`. */
  function Labels(facts: seq<Fact>): map<string, Option<string>>
  {
    if facts == [] then map[]
    else Labels(facts[..|facts| - 1])[facts[|facts| - 1].name := facts[|facts| - 1].factLabel]
  }

  /** The label map has one entry per fact key, holding the label of the
      last fact with that key. */
  lemma LabelsSpec(facts: seq<Fact>)
    ensures Labels(facts).Keys == set f | f in facts :: f.name
    ensures forall i :: 0 <= i < |facts| && (forall j :: i < j < |facts| ==> facts[j].name != facts[i].name) ==>
      Labels(facts)[facts[i].name] == facts[i].factLabel
  {
    LabelsKeys(facts);
    LabelsLast(facts);
  }

  lemma {:induction false} LabelsKeys(facts: seq<Fact>)
    ensures Labels(facts).Keys == set f | f in facts :: f.name
    decreases |facts|
  {
    if facts != [] {
      var init, last := facts[..|facts| - 1], facts[|facts| - 1];
      LabelsKeys(init);
      assert facts == init + [last];
      assert (set f | f in facts :: f.name) == (set f | f in init :: f.name) + {last.name};
    }
  }

  lemma {:induction false} LabelsLast(facts: seq<Fact>)
    ensures forall i :: 0 <= i < |facts| && (forall j :: i < j < |facts| ==> facts[j].name != facts[i].name) ==>
      facts[i].name in Labels(facts) && Labels(facts)[facts[i].name] == facts[i].factLabel
    decreases |facts|
  {
    if facts != [] {
      var init, last := facts[..|facts| - 1], facts[|facts| - 1];
      var m := Labels(init);
      assert Labels(facts) == m[last.name := last.factLabel];
      forall i | 0 <= i < |facts| && (forall j :: i < j < |facts| ==> facts[j].name != facts[i].name)
        ensures facts[i].name in Labels(facts) && Labels(facts)[facts[i].name] == facts[i].factLabel
      {
        if i < |init| {
          var f := facts[i];
          assert f == init[i];
          assert f.name != last.name;
          assert f.name in m && m[f.name] == f.factLabel by {
            assert forall j :: i < j < |init| ==> init[j] == facts[j];
            LabelsLast(init);
          }
        }
      }
    }
  }

  // ---- drop_duplicates ----

  function KeysOf<T(==), K(==)>(s: seq<T>, key: T -> K): set<K>
  {
    set x | x in s :: key(x)
  }

  /** `drop_duplicates(subset=..., keep="first")`, the subset given as a key. */
  function KeepFirst<T(==), K(==)>(s: seq<T>, key: T -> K): seq<T>
  {
    if s == [] then []
    else if key(s[|s| - 1]) in KeysOf(s[..|s| - 1], key) then KeepFirst(s[..|s| - 1], key)
    else KeepFirst(s[..|s| - 1], key) + [s[|s| - 1]]
  }

  /** `drop_duplicates(subset=..., keep="last")`. */
  function KeepLast<T(==), K(==)>(s: seq<T>, key: T -> K): seq<T>
  {
    if s == [] then []
    else if key(s[0]) in KeysOf(s[1..], key) then KeepLast(s[1..], key)
    else [s[0]] + KeepLast(s[1..], key)
  }

  /** Keep-first leaves every key once, and the row it keeps for a key is
      the first one with that key. */
  lemma KeepFirstSpec<T, K>(s: seq<T>, key: T -> K)
    ensures KeysOf(KeepFirst(s, key), key) == KeysOf(s, key)
    ensures forall a, b :: 0 <= a < b < |KeepFirst(s, key)| ==> key(KeepFirst(s, key)[a]) != key(KeepFirst(s, key)[b])
    ensures forall a :: 0 <= a < |KeepFirst(s, key)| ==> exists i :: (
      && 0 <= i < |s| && KeepFirst(s, key)[a] == s[i]
      && forall j :: 0 <= j < i ==> key(s[j]) != key(s[i]))
  {
    KeepFirstKeys(s, key);
    KeepFirstDistinct(s, key);
    KeepFirstFirst(s, key);
  }

  lemma {:induction false} KeepFirstKeys<T, K>(s: seq<T>, key: T -> K)
    ensures KeysOf(KeepFirst(s, key), key) == KeysOf(s, key)
    decreases |s|
  {
    if s != [] {
      var init, last := s[..|s| - 1], s[|s| - 1];
      KeepFirstKeys(init, key);
      assert s == init + [last];
      assert KeysOf(s, key) == KeysOf(init, key) + {key(last)};
      if key(last) !in KeysOf(init, key) {
        var r := KeepFirst(init, key);
        assert KeysOf(r + [last], key) == KeysOf(r, key) + {key(last)};
      }
    }
  }

  lemma {:induction false} KeepFirstDistinct<T, K>(s: seq<T>, key: T -> K)
    ensures forall a, b :: 0 <= a < b < |KeepFirst(s, key)| ==> key(KeepFirst(s, key)[a]) != key(KeepFirst(s, key)[b])
    decreases |s|
  {
    if s != [] {
      var init, last := s[..|s| - 1], s[|s| - 1];
      KeepFirstDistinct(init, key);
      var r := KeepFirst(init, key);
      if key(last) !in KeysOf(init, key) {
        KeepFirstKeys(init, key);
        var r' := r + [last];
        forall a, b | 0 <= a < b < |r'| ensures key(r'[a]) != key(r'[b]) {
          if b == |r| {
            assert r'[a] == r[a] && r[a] in r;
          } else {
            assert r'[a] == r[a] && r'[b] == r[b];
          }
        }
      }
    }
  }

  lemma {:induction false} KeepFirstFirst<T, K>(s: seq<T>, key: T -> K)
    ensures forall a :: 0 <= a < |KeepFirst(s, key)| ==> exists i :: (
      && 0 <= i < |s| && KeepFirst(s, key)[a] == s[i]
      && forall j :: 0 <= j < i ==> key(s[j]) != key(s[i]))
    decreases |s|
  {
    if s != [] {
      var init, last := s[..|s| - 1], s[|s| - 1];
      KeepFirstFirst(init, key);
      var r := KeepFirst(init, key);
      forall a | 0 <= a < |r|
        ensures exists i :: 0 <= i < |s| && r[a] == s[i] && forall j :: 0 <= j < i ==> key(s[j]) != key(s[i])
      {
        var i :| 0 <= i < |init| && r[a] == init[i] && forall j :: 0 <= j < i ==> key(init[j]) != key(init[i]);
        assert s[i] == init[i];
        assert forall j :: 0 <= j < i ==> s[j] == init[j];
        assert 0 <= i < |s| && r[a] == s[i] && forall j :: 0 <= j < i ==> key(s[j]) != key(s[i]);
      }
      if key(last) in KeysOf(init, key) {
        assert KeepFirst(s, key) == r;
      } else {
        forall j | 0 <= j < |s| - 1 ensures key(s[j]) != key(last) {
          assert s[j] == init[j] && init[j] in init;
        }
        var r' := r + [last];
        forall a | 0 <= a < |r'|
          ensures exists i :: 0 <= i < |s| && r'[a] == s[i] && forall j :: 0 <= j < i ==> key(s[j]) != key(s[i])
        {
          if a < |r| {
            assert r'[a] == r[a];
          } else {
            assert r'[a] == s[|s| - 1];
            assert forall j :: 0 <= j < |s| - 1 ==> key(s[j]) != key(s[|s| - 1]);
          }
        }
        assert KeepFirst(s, key) == r';
      }
    } else {
      assert KeepFirst(s, key) == [];
    }
  }

  /** Keep-last leaves every key once, and the row it keeps for a key is the
      last one with that key. */
  lemma KeepLastSpec<T, K>(s: seq<T>, key: T -> K)
    ensures KeysOf(KeepLast(s, key), key) == KeysOf(s, key)
    ensures forall a, b :: 0 <= a < b < |KeepLast(s, key)| ==> key(KeepLast(s, key)[a]) != key(KeepLast(s, key)[b])
    ensures forall a :: 0 <= a < |KeepLast(s, key)| ==> exists i :: (
      && 0 <= i < |s| && KeepLast(s, key)[a] == s[i]
      && forall j :: i < j < |s| ==> key(s[j]) != key(s[i]))
  {
    KeepLastKeys(s, key);
    KeepLastDistinct(s, key);
    KeepLastLast(s, key);
  }

  lemma {:induction false} KeepLastKeys<T, K>(s: seq<T>, key: T -> K)
    ensures KeysOf(KeepLast(s, key), key) == KeysOf(s, key)
    decreases |s|
  {
    if s != [] {
      var first, rest := s[0], s[1..];
      KeepLastKeys(rest, key);
      assert s == [first] + rest;
      assert KeysOf(s, key) == {key(first)} + KeysOf(rest, key);
      if key(first) !in KeysOf(rest, key) {
        var r := KeepLast(rest, key);
        assert KeysOf([first] + r, key) == {key(first)} + KeysOf(r, key);
      }
    }
  }

  lemma {:induction false} KeepLastDistinct<T, K>(s: seq<T>, key: T -> K)
    ensures forall a, b :: 0 <= a < b < |KeepLast(s, key)| ==> key(KeepLast(s, key)[a]) != key(KeepLast(s, key)[b])
    decreases |s|
  {
    if s != [] {
      var first, rest := s[0], s[1..];
      KeepLastDistinct(rest, key);
      var r := KeepLast(rest, key);
      if key(first) !in KeysOf(rest, key) {
        KeepLastKeys(rest, key);
        var r' := [first] + r;
        forall a, b | 0 <= a < b < |r'| ensures key(r'[a]) != key(r'[b]) {
          if a == 0 {
            assert r'[b] == r[b - 1] && r[b - 1] in r;
          } else {
            assert r'[a] == r[a - 1] && r'[b] == r[b - 1];
          }
        }
      }
    }
  }

  lemma {:induction false} KeepLastLast<T, K>(s: seq<T>, key: T -> K)
    ensures forall a :: 0 <= a < |KeepLast(s, key)| ==> exists i :: (
      && 0 <= i < |s| && KeepLast(s, key)[a] == s[i]
      && forall j :: i < j < |s| ==> key(s[j]) != key(s[i]))
    decreases |s|
  {
    if s != [] {
      var first, rest := s[0], s[1..];
      KeepLastLast(rest, key);
      var r := KeepLast(rest, key);
      forall a | 0 <= a < |r|
        ensures exists i :: 0 <= i < |s| && r[a] == s[i] && forall j :: i < j < |s| ==> key(s[j]) != key(s[i])
      {
        var i :| 0 <= i < |rest| && r[a] == rest[i] && forall j :: i < j < |rest| ==> key(rest[j]) != key(rest[i]);
        assert s[i + 1] == rest[i];
        assert forall j :: i + 1 < j < |s| ==> s[j] == rest[j - 1];
        assert 0 <= i + 1 < |s| && r[a] == s[i + 1] && forall j :: i + 1 < j < |s| ==> key(s[j]) != key(s[i + 1]);
      }
      if key(first) in KeysOf(rest, key) {
        assert KeepLast(s, key) == r;
      } else {
        var r' := [first] + r;
        forall j | 0 < j < |s| ensures key(s[j]) != key(first) {
          assert s[j] == rest[j - 1] && rest[j - 1] in rest;
        }
        assert r'[0] == s[0];
        forall a | 0 <= a < |r'|
          ensures exists i :: 0 <= i < |s| && r'[a] == s[i] && forall j :: i < j < |s| ==> key(s[j]) != key(s[i])
        {
          if a == 0 {
            assert 0 <= 0 < |s| && r'[0] == s[0] && forall j :: 0 < j < |s| ==> key(s[j]) != key(s[0]);
          } else {
            assert r'[a] == r[a - 1];
          }
        }
        assert KeepLast(s, key) == r';
      }
    } else {
      assert KeepLast(s, key) == [];
    }
  }

  // ---- getFactsDF, after the loops ----

  /** The fact frame and the label map `getFactsDF` returns. */
  datatype Frame = Frame(rows: seq<Row>, labels: map<string, Option<string>>)

  function FactEndVal(r: Row): (string, string, real)
  {
    (r.fact, r.item.end, r.item.val)
  }

  function FactEnd(r: Row): (string, string)
  {
    (r.fact, r.item.end)
  }

  /** `getFactsDF` once the rows are built: converting `end` and `start`
      raises `KeyError` when no row has that field (no item at all, or only
      instant facts), then duplicates on (fact, end, val) are dropped. */
  function FactsFrame(facts: seq<Fact>): Result<Frame>
  {
    var rows := Flatten(facts);
    if rows == [] then Err(KeyError("end"))
    else if forall k :: 0 <= k < |rows| ==> rows[k].item.start.None? then Err(KeyError("start"))
    else Ok(Frame(KeepFirst(rows, FactEndVal), Labels(facts)))
  }

  /** `getFactsDF(ticker)` over the fetched company facts. */
  method FactsDF(facts: seq<Fact>) returns (r: Result<Frame>)
    ensures r == FactsFrame(facts)
  {
    var rows := FlattenFacts(facts);
    if rows == [] {
      return Err(KeyError("end"));
    }
    if forall k :: 0 <= k < |rows| ==> rows[k].item.start.None? {
      return Err(KeyError("start"));
    }
    r := Ok(Frame(KeepFirst(rows, FactEndVal), Labels(facts)));
  }

  /** The frame fails only for want of rows or of any `start`; otherwise it
      holds one row per (fact, end, val) among the emitted rows, each the
      first such row, and a label for every fact. */
  lemma FactsFrameSpec(facts: seq<Fact>)
    ensures FactsFrame(facts).Err? <==>
      Flatten(facts) == [] || forall k :: 0 <= k < |Flatten(facts)| ==> Flatten(facts)[k].item.start.None?
    ensures FactsFrame(facts).Ok? ==>
      var rows := FactsFrame(facts).value.rows;
      && (forall r :: r in rows ==> Emitted(facts, r))
      && KeysOf(rows, FactEndVal) == KeysOf(Flatten(facts), FactEndVal)
      && (forall a, b :: 0 <= a < b < |rows| ==> FactEndVal(rows[a]) != FactEndVal(rows[b]))
      && FactsFrame(facts).value.labels.Keys == set f | f in facts :: f.name
  {
    var all := Flatten(facts);
    KeepFirstSpec(all, FactEndVal);
    LabelsSpec(facts);
    forall r | r in KeepFirst(all, FactEndVal) ensures Emitted(facts, r) {
      var a :| 0 <= a < |KeepFirst(all, FactEndVal)| && KeepFirst(all, FactEndVal)[a] == r;
      FlattenMembers(facts, r);
    }
  }

  // ---- getAnnualFacts / getQuarterlyFacts ----

  /** Both filters: the row's accession number is one of the selected
      filings' and its end date is one of their report dates (not
      necessarily the same filing's). */
  predicate Listed(acc: seq<Accession>, r: Row)
  {
    && (exists a :: a in acc && a.accn == r.item.accn)
    && (exists a :: a in acc && a.reportDate == r.item.end)
  }

  function Filed(rows: seq<Row>, acc: seq<Accession>): seq<Row>
  {
    if rows == [] then []
    else (if Listed(acc, rows[0]) then [rows[0]] else []) + Filed(rows[1..], acc)
  }

  /** A row is kept exactly when it passes both filters; order is kept. */
  lemma {:induction false} FiledMembers(rows: seq<Row>, acc: seq<Accession>)
    ensures forall r :: r in Filed(rows, acc) <==> r in rows && Listed(acc, r)
    ensures |Filed(rows, acc)| <= |rows|
    decreases |rows|
  {
    if rows != [] {
      FiledMembers(rows[1..], acc);
      assert rows == [rows[0]] + rows[1..];
    }
  }

  lemma {:induction false} FiledAppend(a: seq<Row>, b: seq<Row>, acc: seq<Accession>)
    ensures Filed(a + b, acc) == Filed(a, acc) + Filed(b, acc)
    decreases |a|
  {
    if a == [] {
      assert a + b == b;
    } else {
      var head := if Listed(acc, a[0]) then [a[0]] else [];
      assert (a + b)[0] == a[0] && (a + b)[1..] == a[1..] + b;
      calc {
        Filed(a + b, acc);
        head + Filed(a[1..] + b, acc);
        { FiledAppend(a[1..], b, acc); }
        head + (Filed(a[1..], acc) + Filed(b, acc));
        (head + Filed(a[1..], acc)) + Filed(b, acc);
        Filed(a, acc) + Filed(b, acc);
      }
    }
  }

  function Ends(rows: seq<Row>): (r: seq<string>)
    ensures |r| == |rows| && forall k :: 0 <= k < |rows| ==> r[k] == rows[k].item.end
  {
    seq(|rows|, k requires 0 <= k < |rows| => rows[k].item.end)
  }

  function FactKeys(rows: seq<Row>): (r: seq<string>)
    ensures |r| == |rows| && forall k :: 0 <= k < |rows| ==> r[k] == rows[k].fact
  {
    seq(|rows|, k requires 0 <= k < |rows| => rows[k].fact)
  }

  /** The cells of one fact's pivot row: period to value. A later row for
      the same (fact, end) replaces an earlier one. */
  function Cells(rows: seq<Row>, fact: string): map<string, real>
  {
    if rows == [] then map[]
    else
      var m := Cells(rows[..|rows| - 1], fact);
      var r := rows[|rows| - 1];
      if r.fact == fact then m[r.item.end := r.item.val] else m
  }

  /** Some row reports `fact` for the period ending `p`. */
  predicate Reported(rows: seq<Row>, fact: string, p: string)
  {
    exists k :: 0 <= k < |rows| && rows[k].fact == fact && rows[k].item.end == p
  }

  /** A cell is present exactly where a row of that fact ends, and holds the
      value of the last such row. */
  lemma CellsSpec(rows: seq<Row>, fact: string, p: string)
    ensures p in Cells(rows, fact) <==> Reported(rows, fact, p)
    ensures p in Cells(rows, fact) ==> exists k :: (
      && 0 <= k < |rows| && rows[k].fact == fact && rows[k].item.end == p
      && Cells(rows, fact)[p] == rows[k].item.val
      && forall j :: k < j < |rows| ==> !(rows[j].fact == fact && rows[j].item.end == p))
  {
    CellsKeys(rows, fact, p);
    if p in Cells(rows, fact) {
      CellsLast(rows, fact, p);
    }
  }

  lemma {:induction false} CellsKeys(rows: seq<Row>, fact: string, p: string)
    ensures p in Cells(rows, fact) <==> Reported(rows, fact, p)
    decreases |rows|
  {
    if rows != [] {
      var init, last := rows[..|rows| - 1], rows[|rows| - 1];
      CellsKeys(init, fact, p);
      if Reported(rows, fact, p) && !(last.fact == fact && last.item.end == p) {
        var k :| 0 <= k < |rows| && rows[k].fact == fact && rows[k].item.end == p;
        assert k < |init| && init[k] == rows[k];
      }
      if Reported(init, fact, p) {
        var k :| 0 <= k < |init| && init[k].fact == fact && init[k].item.end == p;
        assert rows[k] == init[k];
      }
    }
  }

  lemma {:induction false} CellsLast(rows: seq<Row>, fact: string, p: string)
    requires p in Cells(rows, fact)
    ensures exists k :: (
      && 0 <= k < |rows| && rows[k].fact == fact && rows[k].item.end == p
      && Cells(rows, fact)[p] == rows[k].item.val
      && forall j :: k < j < |rows| ==> !(rows[j].fact == fact && rows[j].item.end == p))
    decreases |rows|
  {
    var init, last := rows[..|rows| - 1], rows[|rows| - 1];
    if last.fact == fact && last.item.end == p {
      var k := |rows| - 1;
      assert Cells(rows, fact)[p] == rows[k].item.val;
    } else {
      assert Cells(rows, fact) == Cells(init, fact)
        || Cells(rows, fact) == Cells(init, fact)[last.item.end := last.item.val];
      assert p in Cells(init, fact) && Cells(rows, fact)[p] == Cells(init, fact)[p];
      CellsLast(init, fact, p);
      var k :| && 0 <= k < |init| && init[k].fact == fact && init[k].item.end == p
        && Cells(init, fact)[p] == init[k].item.val
        && forall j :: k < j < |init| ==> !(init[j].fact == fact && init[j].item.end == p);
      assert rows[k] == init[k];
      forall j | k < j < |rows| ensures !(rows[j].fact == fact && rows[j].item.end == p) {
        if j < |init| {
          assert rows[j] == init[j];
        }
      }
    }
  }

  /** A fact key becomes a row label through the label map; a missing label
      is an empty (NaN) name. */
  function Rename(labels: map<string, Option<string>>, fact: string): Option<string>
  {
    if fact in labels then labels[fact] else Some(fact)
  }

  /** The facts `pivot_table` lays out, in sorted order. */
  function PivotFacts(rows: seq<Row>): seq<string>
  {
    SortedDistinct(FactKeys(rows))
  }

  /** `pivot_table(values="val", columns="fact", index="end")`, renamed by
      the label map and transposed: one row per fact in key order, one
      column per end date in date order. */
  function Pivot(rows: seq<Row>, labels: map<string, Option<string>>): Table
  {
    var facts := PivotFacts(rows);
    Table(SortedDistinct(Ends(rows)),
      seq(|facts|, i requires 0 <= i < |facts| => Series(Rename(labels, facts[i]), Cells(rows, facts[i]))))
  }

  /** The pivot's periods are the rows' end dates, ascending and distinct;
      its rows are the distinct facts in ascending key order, each under its
      label; a cell is present exactly where a row of that fact ends at that
      period, and lies in a column of the table. */
  lemma PivotSpec(rows: seq<Row>, labels: map<string, Option<string>>)
    ensures Increasing(Pivot(rows, labels).periods)
    ensures Elems(Pivot(rows, labels).periods) == (set r | r in rows :: r.item.end)
    ensures Increasing(PivotFacts(rows)) && Elems(PivotFacts(rows)) == (set r | r in rows :: r.fact)
    ensures |Pivot(rows, labels).series| == |PivotFacts(rows)|
    ensures forall i :: 0 <= i < |PivotFacts(rows)| ==>
      Pivot(rows, labels).series[i].name == Rename(labels, PivotFacts(rows)[i])
    ensures forall i, p :: 0 <= i < |PivotFacts(rows)| && p in Pivot(rows, labels).series[i].cells ==>
      Reported(rows, PivotFacts(rows)[i], p)
    ensures forall i, p :: 0 <= i < |PivotFacts(rows)| && Reported(rows, PivotFacts(rows)[i], p) ==>
      p in Pivot(rows, labels).series[i].cells
    ensures forall i, p :: 0 <= i < |PivotFacts(rows)| && p in Pivot(rows, labels).series[i].cells ==>
      p in Pivot(rows, labels).periods
  {
    EndsElems(rows);
    FactKeysElems(rows);
    forall i | 0 <= i < |PivotFacts(rows)|
      ensures forall p :: p in Pivot(rows, labels).series[i].cells ==> Reported(rows, PivotFacts(rows)[i], p)
      ensures forall p :: Reported(rows, PivotFacts(rows)[i], p) ==> p in Pivot(rows, labels).series[i].cells
      ensures forall p :: p in Pivot(rows, labels).series[i].cells ==> p in Pivot(rows, labels).periods
    {
      PivotCells(rows, labels, i);
    }
  }

  lemma PivotCells(rows: seq<Row>, labels: map<string, Option<string>>, i: nat)
    requires i < |PivotFacts(rows)|
    ensures forall p :: p in Pivot(rows, labels).series[i].cells ==> Reported(rows, PivotFacts(rows)[i], p)
    ensures forall p :: Reported(rows, PivotFacts(rows)[i], p) ==> p in Pivot(rows, labels).series[i].cells
    ensures forall p :: p in Pivot(rows, labels).series[i].cells ==> p in Pivot(rows, labels).periods
  {
    var fact := PivotFacts(rows)[i];
    assert Pivot(rows, labels).series[i].cells == Cells(rows, fact);
    EndsElems(rows);
    forall p ensures p in Cells(rows, fact) <==> Reported(rows, fact, p)
      ensures p in Cells(rows, fact) ==> p in Pivot(rows, labels).periods
    {
      CellsSpec(rows, fact, p);
      if p in Cells(rows, fact) {
        var k :| 0 <= k < |rows| && rows[k].fact == fact && rows[k].item.end == p;
        assert rows[k] in rows;
        assert p in Elems(SortedDistinct(Ends(rows)));
      }
    }
  }

  lemma EndsElems(rows: seq<Row>)
    ensures Elems(Ends(rows)) == set r | r in rows :: r.item.end
  {
    forall x | x in Elems(Ends(rows)) ensures x in set r | r in rows :: r.item.end {
      var k :| 0 <= k < |rows| && Ends(rows)[k] == x;
      assert rows[k] in rows;
    }
    forall x | x in set r | r in rows :: r.item.end ensures x in Elems(Ends(rows)) {
      var r :| r in rows && r.item.end == x;
      var k :| 0 <= k < |rows| && rows[k] == r;
      assert Ends(rows)[k] == x;
    }
  }

  lemma FactKeysElems(rows: seq<Row>)
    ensures Elems(FactKeys(rows)) == set r | r in rows :: r.fact
  {
    forall x | x in Elems(FactKeys(rows)) ensures x in set r | r in rows :: r.fact {
      var k :| 0 <= k < |rows| && FactKeys(rows)[k] == x;
      assert rows[k] in rows;
    }
    forall x | x in set r | r in rows :: r.fact ensures x in Elems(FactKeys(rows)) {
      var r :| r in rows && r.fact == x;
      var k :| 0 <= k < |rows| && rows[k] == r;
      assert FactKeys(rows)[k] == x;
    }
  }

  /** `getAnnualFacts`: the fact rows of 10-K filings, pivoted. */
  function AnnualFacts(fs: seq<Filing>, facts: seq<Fact>): Result<Table>
  {
    var acc := FilteredFilings(fs, "ten_k").value;
    match FactsFrame(facts)
    case Err(e) => Err(e)
    case Ok(frame) => Ok(Pivot(Filed(frame.rows, acc), frame.labels))
  }

  /** `getQuarterlyFacts`: the fact rows of 10-Q filings, one per (fact,
      end) keeping the last, pivoted. */
  function QuarterlyRows(fs: seq<Filing>, frame: Frame): seq<Row>
  {
    KeepLast(Filed(frame.rows, FilteredFilings(fs, "ten_q").value), FactEnd)
  }

  function QuarterlyFacts(fs: seq<Filing>, facts: seq<Fact>): Result<Table>
  {
    match FactsFrame(facts)
    case Err(e) => Err(e)
    case Ok(frame) => Ok(Pivot(QuarterlyRows(fs, frame), frame.labels))
  }

  /** Every row that reaches the annual pivot is a 10-K fact row that passed
      both filters. */
  lemma AnnualRowsFiled(fs: seq<Filing>, frame: Frame, r: Row)
    ensures r in Filed(frame.rows, FilteredFilings(fs, "ten_k").value) <==>
      && r in frame.rows
      && (exists i :: 0 <= i < |fs| && fs[i].form == "10-K" && fs[i].accessionNumber == r.item.accn)
      && (exists i :: 0 <= i < |fs| && fs[i].form == "10-K" && fs[i].reportDate == r.item.end)
  {
    var acc := FilteredFilings(fs, "ten_k").value;
    FiledMembers(frame.rows, acc);
    OfFormMembers(fs, "10-K");
    if exists i :: 0 <= i < |fs| && fs[i].form == "10-K" && fs[i].accessionNumber == r.item.accn {
      var i :| 0 <= i < |fs| && fs[i].form == "10-K" && fs[i].accessionNumber == r.item.accn;
      assert Accession(fs[i].reportDate, fs[i].accessionNumber) in acc;
    }
    if exists i :: 0 <= i < |fs| && fs[i].form == "10-K" && fs[i].reportDate == r.item.end {
      var i :| 0 <= i < |fs| && fs[i].form == "10-K" && fs[i].reportDate == r.item.end;
      assert Accession(fs[i].reportDate, fs[i].accessionNumber) in acc;
    }
  }

  /** On the quarterly path each (fact, end) survives once, as the last
      filtered row with that key, so a cell holds that row's value. */
  lemma QuarterlyRowsSpec(fs: seq<Filing>, frame: Frame)
    ensures var filed := Filed(frame.rows, FilteredFilings(fs, "ten_q").value);
      var q := QuarterlyRows(fs, frame);
      && KeysOf(q, FactEnd) == KeysOf(filed, FactEnd)
      && (forall a, b :: 0 <= a < b < |q| ==> FactEnd(q[a]) != FactEnd(q[b]))
      && (forall a :: 0 <= a < |q| ==> exists i :: (
            && 0 <= i < |filed| && q[a] == filed[i]
            && forall j :: i < j < |filed| ==> FactEnd(filed[j]) != FactEnd(filed[i])))
  {
    KeepLastSpec(Filed(frame.rows, FilteredFilings(fs, "ten_q").value), FactEnd);
  }

  // ---- getHistoricalData ----

  /** The annual rows matching one quarterly row on `fact`, in annual order,
      with the two rows' cells side by side. */
  function Matches(s: Series, annual: seq<Series>): seq<Series>
  {
    if annual == [] then []
    else
      var head := if annual[0].name == s.name then [Series(s.name, s.cells + annual[0].cells)] else [];
      head + Matches(s, annual[1..])
  }

  /** `pd.merge(quarterly, annual, on='fact')`: an inner join in quarterly
      order, each quarterly row followed by its annual matches. */
  function JoinSeries(quarterly: seq<Series>, annual: seq<Series>): seq<Series>
  {
    if quarterly == [] then [] else Matches(quarterly[0], annual) + JoinSeries(quarterly[1..], annual)
  }

  /** The merge, then the period columns sorted. */
  function Join(quarterly: Table, annual: Table): Table
  {
    Table(SortedDistinct(quarterly.periods + annual.periods), JoinSeries(quarterly.series, annual.series))
  }

  function NameSet(ss: seq<Series>): set<Option<string>>
  {
    set s | s in ss :: s.name
  }

  /** A joined row pairs a quarterly and an annual row with the same name. */
  predicate Paired(quarterly: seq<Series>, annual: seq<Series>, s: Series)
  {
    exists i, j :: 0 <= i < |quarterly| && 0 <= j < |annual|
      && quarterly[i].name == s.name && annual[j].name == s.name
      && s.cells == quarterly[i].cells + annual[j].cells
  }

  lemma NameSetAppend(a: seq<Series>, b: seq<Series>)
    ensures NameSet(a + b) == NameSet(a) + NameSet(b)
  {
    forall x | x in NameSet(a + b) ensures x in NameSet(a) + NameSet(b) {
      var s :| s in a + b && s.name == x;
    }
  }

  lemma {:induction false} MatchesNames(q: Series, annual: seq<Series>)
    ensures NameSet(Matches(q, annual)) == if q.name in NameSet(annual) then {q.name} else {}
    decreases |annual|
  {
    if annual != [] {
      MatchesNames(q, annual[1..]);
      NameSetAppend([annual[0]], annual[1..]);
      assert annual == [annual[0]] + annual[1..];
      var head := if annual[0].name == q.name then [Series(q.name, q.cells + annual[0].cells)] else [];
      NameSetAppend(head, Matches(q, annual[1..]));
    }
  }

  lemma {:induction false} MatchesPairs(q: Series, annual: seq<Series>)
    ensures forall s :: s in Matches(q, annual) ==>
      s.name == q.name && exists j :: 0 <= j < |annual| && annual[j].name == q.name && s.cells == q.cells + annual[j].cells
    decreases |annual|
  {
    if annual != [] {
      MatchesPairs(q, annual[1..]);
      forall s | s in Matches(q, annual[1..])
        ensures exists j :: 0 <= j < |annual| && annual[j].name == q.name && s.cells == q.cells + annual[j].cells
      {
        var j :| 0 <= j < |annual[1..]| && annual[1..][j].name == q.name && s.cells == q.cells + annual[1..][j].cells;
        assert annual[j + 1] == annual[1..][j];
      }
    }
  }

  /** The joined names are exactly the names present on both sides, and
      every joined row is a same-name pair with the cells of both. */
  lemma {:induction false} JoinSeriesSpec(quarterly: seq<Series>, annual: seq<Series>)
    ensures NameSet(JoinSeries(quarterly, annual)) == NameSet(quarterly) * NameSet(annual)
    ensures forall s :: s in JoinSeries(quarterly, annual) ==> Paired(quarterly, annual, s)
    decreases |quarterly|
  {
    if quarterly != [] {
      var q, rest := quarterly[0], quarterly[1..];
      JoinSeriesSpec(rest, annual);
      MatchesNames(q, annual);
      MatchesPairs(q, annual);
      assert quarterly == [q] + rest;
      NameSetAppend([q], rest);
      NameSetAppend(Matches(q, annual), JoinSeries(rest, annual));
      forall s | s in JoinSeries(quarterly, annual) ensures Paired(quarterly, annual, s) {
        if s in Matches(q, annual) {
          var j :| 0 <= j < |annual| && annual[j].name == q.name && s.cells == q.cells + annual[j].cells;
          assert quarterly[0] == q;
        } else {
          assert s in JoinSeries(rest, annual);
          var i, j :| 0 <= i < |rest| && 0 <= j < |annual|
            && rest[i].name == s.name && annual[j].name == s.name
            && s.cells == rest[i].cells + annual[j].cells;
          assert quarterly[i + 1] == rest[i];
        }
      }
    }
  }

  /** The number of rows of `annual` named like `s`. */
  function MatchCount(s: Series, annual: seq<Series>): nat
  {
    if annual == [] then 0
    else (if annual[0].name == s.name then 1 else 0) + MatchCount(s, annual[1..])
  }

  /** The number of same-name (quarterly, annual) pairs. */
  function PairCount(quarterly: seq<Series>, annual: seq<Series>): nat
  {
    if quarterly == [] then 0 else MatchCount(quarterly[0], annual) + PairCount(quarterly[1..], annual)
  }

  lemma {:induction false} MatchesLength(s: Series, annual: seq<Series>)
    ensures |Matches(s, annual)| == MatchCount(s, annual)
    decreases |annual|
  {
    if annual != [] {
      MatchesLength(s, annual[1..]);
    }
  }

  /** The match with annual row `j` comes after one match per earlier
      same-name annual row. */
  lemma {:induction false} MatchesAt(s: Series, annual: seq<Series>, j: nat)
    requires j < |annual| && annual[j].name == s.name
    ensures MatchCount(s, annual[..j]) < |Matches(s, annual)|
    ensures Matches(s, annual)[MatchCount(s, annual[..j])] == Series(s.name, s.cells + annual[j].cells)
    decreases j
  {
    MatchesLength(s, annual);
    if j > 0 {
      assert annual[..j][1..] == annual[1..][..j - 1];
      MatchesAt(s, annual[1..], j - 1);
    }
  }

  lemma {:induction false} JoinSeriesLength(quarterly: seq<Series>, annual: seq<Series>)
    ensures |JoinSeries(quarterly, annual)| == PairCount(quarterly, annual)
    decreases |quarterly|
  {
    if quarterly != [] {
      MatchesLength(quarterly[0], annual);
      JoinSeriesLength(quarterly[1..], annual);
    }
  }

  /** The pair (i, j) sits after the pairs of the earlier quarterly rows and
      the earlier annual matches of row i. */
  lemma {:induction false} JoinSeriesAt(quarterly: seq<Series>, annual: seq<Series>, i: nat, j: nat)
    requires i < |quarterly| && j < |annual| && quarterly[i].name == annual[j].name
    ensures PairIndex(quarterly, annual, i, j) < |JoinSeries(quarterly, annual)|
    ensures JoinSeries(quarterly, annual)[PairIndex(quarterly, annual, i, j)]
         == Series(quarterly[i].name, quarterly[i].cells + annual[j].cells)
    decreases i
  {
    if i == 0 {
      JoinSeriesAtFirst(quarterly, annual, j);
    } else {
      JoinSeriesAt(quarterly[1..], annual, i - 1, j);
      JoinSeriesAtLater(quarterly, annual, i, j);
    }
  }

  lemma JoinSeriesAtFirst(quarterly: seq<Series>, annual: seq<Series>, j: nat)
    requires 0 < |quarterly| && j < |annual| && quarterly[0].name == annual[j].name
    ensures PairIndex(quarterly, annual, 0, j) < |JoinSeries(quarterly, annual)|
    ensures JoinSeries(quarterly, annual)[PairIndex(quarterly, annual, 0, j)]
         == Series(quarterly[0].name, quarterly[0].cells + annual[j].cells)
  {
    var q := quarterly[0];
    assert JoinSeries(quarterly, annual) == Matches(q, annual) + JoinSeries(quarterly[1..], annual);
    assert quarterly[..0] == [];
    assert PairIndex(quarterly, annual, 0, j) == MatchCount(q, annual[..j]);
    MatchesAt(q, annual, j);
  }

  /** The step of JoinSeriesAt: a pair of a later quarterly row moves up by
      the matches of the first row. */
  lemma JoinSeriesAtLater(quarterly: seq<Series>, annual: seq<Series>, i: nat, j: nat)
    requires 0 < i < |quarterly| && j < |annual|
    requires var k := PairIndex(quarterly[1..], annual, i - 1, j);
      k < |JoinSeries(quarterly[1..], annual)|
      && JoinSeries(quarterly[1..], annual)[k] == Series(quarterly[1..][i - 1].name, quarterly[1..][i - 1].cells + annual[j].cells)
    ensures PairIndex(quarterly, annual, i, j) < |JoinSeries(quarterly, annual)|
    ensures JoinSeries(quarterly, annual)[PairIndex(quarterly, annual, i, j)]
         == Series(quarterly[i].name, quarterly[i].cells + annual[j].cells)
  {
    var q, rest := quarterly[0], quarterly[1..];
    var m, r := Matches(q, annual), JoinSeries(rest, annual);
    assert rest[i - 1] == quarterly[i];
    var k := PairIndex(rest, annual, i - 1, j);
    assert k == PairCount(rest[..i - 1], annual) + MatchCount(quarterly[i], annual[..j]);
    MatchesLength(q, annual);
    PairCountCons(quarterly, annual, i);
    assert JoinSeries(quarterly, annual) == m + r;
    assert PairIndex(quarterly, annual, i, j) == |m| + k;
    assert (m + r)[|m| + k] == r[k];
  }

  lemma PairCountCons(quarterly: seq<Series>, annual: seq<Series>, i: nat)
    requires 0 < i <= |quarterly|
    ensures PairCount(quarterly[..i], annual) == MatchCount(quarterly[0], annual) + PairCount(quarterly[1..][..i - 1], annual)
  {
    assert quarterly[..i][1..] == quarterly[1..][..i - 1];
  }

  /** Where the same-name pair (i, j) belongs in the join: after the pairs
      of the earlier quarterly rows and the earlier annual matches of row i. */
  function PairIndex(quarterly: seq<Series>, annual: seq<Series>, i: nat, j: nat): nat
    requires i < |quarterly| && j <= |annual|
  {
    PairCount(quarterly[..i], annual) + MatchCount(quarterly[i], annual[..j])
  }

  /** `rows` has one row per same-name pair, and the pair (i, j), with the
      cells of both rows, at its place in quarterly-then-annual order. */
  ghost predicate JoinedInOrder(quarterly: seq<Series>, annual: seq<Series>, rows: seq<Series>)
  {
    && |rows| == PairCount(quarterly, annual)
    && forall i, j :: 0 <= i < |quarterly| && 0 <= j < |annual| && quarterly[i].name == annual[j].name ==>
         PairIndex(quarterly, annual, i, j) < |rows|
         && rows[PairIndex(quarterly, annual, i, j)] == Series(quarterly[i].name, quarterly[i].cells + annual[j].cells)
  }

  /** The join is complete: every same-name pair is joined once, in order. */
  lemma JoinSeriesComplete(quarterly: seq<Series>, annual: seq<Series>)
    ensures JoinedInOrder(quarterly, annual, JoinSeries(quarterly, annual))
  {
    JoinSeriesLength(quarterly, annual);
    forall i, j | 0 <= i < |quarterly| && 0 <= j < |annual| && quarterly[i].name == annual[j].name
      ensures PairIndex(quarterly, annual, i, j) < |JoinSeries(quarterly, annual)|
        && JoinSeries(quarterly, annual)[PairIndex(quarterly, annual, i, j)]
           == Series(quarterly[i].name, quarterly[i].cells + annual[j].cells)
    {
      JoinSeriesAt(quarterly, annual, i, j);
    }
  }

  /** `getHistoricalData`: the quarterly and annual tables joined on fact,
      with the period columns in ascending order. */
  function HistoricalData(fs: seq<Filing>, facts: seq<Fact>): Result<Table>
  {
    match QuarterlyFacts(fs, facts)
    case Err(e) => Err(e)
    case Ok(q) =>
      match AnnualFacts(fs, facts)
      case Err(e) => Err(e)
      case Ok(a) => Ok(Join(q, a))
  }

  /** The combined table fails only when the fact frame does; it has the
      facts present in both tables, one row per same-name pair in
      quarterly-then-annual order, and its periods are those of both
      tables, ascending and distinct. */
  lemma HistoricalDataSpec(fs: seq<Filing>, facts: seq<Fact>)
    ensures HistoricalData(fs, facts).Ok? <==> FactsFrame(facts).Ok?
    ensures HistoricalData(fs, facts).Ok? ==>
      var h, q, a := HistoricalData(fs, facts).value, QuarterlyFacts(fs, facts).value, AnnualFacts(fs, facts).value;
      && Increasing(h.periods)
      && Elems(h.periods) == Elems(q.periods) + Elems(a.periods)
      && NameSet(h.series) == NameSet(q.series) * NameSet(a.series)
      && (forall s :: s in h.series ==> Paired(q.series, a.series, s))
      && JoinedInOrder(q.series, a.series, h.series)
  {
    if FactsFrame(facts).Ok? {
      var q, a := QuarterlyFacts(fs, facts).value, AnnualFacts(fs, facts).value;
      JoinSeriesSpec(q.series, a.series);
      JoinSeriesComplete(q.series, a.series);
      assert Elems(q.periods + a.periods) == Elems(q.periods) + Elems(a.periods);
    }
  }
}

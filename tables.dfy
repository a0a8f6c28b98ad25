/** The fact-by-period table that flows from the XBRL pipeline through the
    ratio engine to the document store.

    A series is one fact row of the table (equivalently, one column of its
    transpose, which is what the ratio engine works on): its name (a fact
    label, absent when the label is null) and its cells, a map from period
    label to value; a period missing from the map is an empty (NaN) cell. */
module Tables {
  import opened Base

  datatype Series = Series(name: Option<string>, cells: map<string, real>)

  datatype Table = Table(periods: seq<string>, series: seq<Series>)

  function Names(t: Table): (r: seq<Option<string>>)
    ensures |r| == |t.series|
    ensures forall i :: 0 <= i < |r| ==> r[i] == t.series[i].name
  {
    seq(|t.series|, i requires 0 <= i < |t.series| => t.series[i].name)
  }

  /** `c in df.columns` */
  predicate Has(t: Table, c: string) {
    exists i :: 0 <= i < |t.series| && t.series[i].name == Some(c)
  }

  function FirstCells(s: seq<Series>, c: string): (r: Option<map<string, real>>)
    ensures r.Some? <==> exists i :: 0 <= i < |s| && s[i].name == Some(c)
    ensures r.Some? ==> exists i :: 0 <= i < |s| && s[i].name == Some(c) && s[i].cells == r.value
                                   && forall j :: 0 <= j < i ==> s[j].name != Some(c)
  {
    if s == [] then None
    else if s[0].name == Some(c) then Some(s[0].cells)
    else
      var r := FirstCells(s[1..], c);
      assert forall i :: 1 <= i < |s| ==> s[i] == s[1..][i - 1];
      r
  }

  /** `df[c]`: the cells of the column named `c`, or nothing when it is not there. */
  function Column(t: Table, c: string): (r: Option<map<string, real>>)
    ensures r.Some? <==> Has(t, c)
  {
    FirstCells(t.series, c)
  }

  /** `df[c] = cells`: overwrites the column named `c` where there is one,
      and appends it after the existing columns otherwise. */
  function SetColumn(t: Table, c: string, cells: map<string, real>): (r: Table)
    ensures r.periods == t.periods
    ensures Has(r, c) && Column(r, c) == Some(cells)
  {
    if Has(t, c) then
      var r := Table(t.periods, seq(|t.series|, i requires 0 <= i < |t.series| =>
                       if t.series[i].name == Some(c) then Series(Some(c), cells) else t.series[i]));
      assert Has(r, c) by {
        var i :| 0 <= i < |t.series| && t.series[i].name == Some(c);
        assert r.series[i].name == Some(c);
      }
      r
    else
      var r := Table(t.periods, t.series + [Series(Some(c), cells)]);
      assert r.series[|t.series|].name == Some(c);
      r
  }

  /** Setting a column keeps the existing columns, in their order, as a
      prefix, adds one column exactly when `c` was not there, and changes
      nothing but `c`. */
  lemma SetColumnSpec(t: Table, c: string, cells: map<string, real>)
    ensures var r := SetColumn(t, c, cells);
      && Names(t) <= Names(r)
      && |r.series| == (if Has(t, c) then |t.series| else |t.series| + 1)
      && (forall i :: 0 <= i < |t.series| && t.series[i].name != Some(c) ==> r.series[i] == t.series[i])
      && (forall d :: d != c ==> (Has(r, d) <==> Has(t, d)) && Column(r, d) == Column(t, d))
  {
    if Has(t, c) {
      SetColumnOverwrites(t, c, cells);
    } else {
      SetColumnAppends(t, c, cells);
    }
    SetColumnOthers(t, SetColumn(t, c, cells), c);
  }

  lemma SetColumnOverwrites(t: Table, c: string, cells: map<string, real>)
    requires Has(t, c)
    ensures var r := SetColumn(t, c, cells);
      && Names(t) == Names(r) && |r.series| == |t.series|
      && (forall i :: 0 <= i < |t.series| ==>
            r.series[i] == if t.series[i].name == Some(c) then Series(Some(c), cells) else t.series[i])
  {
  }

  lemma SetColumnAppends(t: Table, c: string, cells: map<string, real>)
    requires !Has(t, c)
    ensures var r := SetColumn(t, c, cells);
      && Names(r) == Names(t) + [Some(c)] && r.series == t.series + [Series(Some(c), cells)]
  {
  }

  /** Two tables that agree on every series not named `c` (the second one
      possibly one longer, at the end) agree on every other column. */
  lemma {:induction false} SetColumnOthers(t: Table, r: Table, c: string)
    requires |t.series| <= |r.series| <= |t.series| + 1
    requires forall i :: 0 <= i < |r.series| ==> (r.series[i].name == Some(c) <==> (i >= |t.series| || t.series[i].name == Some(c)))
    requires forall i :: 0 <= i < |t.series| && t.series[i].name != Some(c) ==> r.series[i] == t.series[i]
    ensures forall d :: d != c ==> (Has(r, d) <==> Has(t, d)) && Column(r, d) == Column(t, d)
  {
    forall d | d != c
      ensures (Has(r, d) <==> Has(t, d)) && Column(r, d) == Column(t, d)
    {
      FirstCellsAgree(t.series, r.series, c, d);
    }
  }

  lemma {:induction false} FirstCellsAgree(s: seq<Series>, u: seq<Series>, c: string, d: string)
    requires d != c
    requires |s| <= |u| <= |s| + 1
    requires forall i :: 0 <= i < |u| ==> (u[i].name == Some(c) <==> (i >= |s| || s[i].name == Some(c)))
    requires forall i :: 0 <= i < |s| && s[i].name != Some(c) ==> u[i] == s[i]
    ensures FirstCells(u, d) == FirstCells(s, d)
    decreases |s|
  {
    if s == [] {
      assert u == [] || u[0].name == Some(c);
    } else {
      assert u[0].name == Some(c) <==> s[0].name == Some(c);
      if s[0].name != Some(c) {
        assert u[0] == s[0];
      }
      FirstCellsAgree(s[1..], u[1..], c, d);
    }
  }

  /** No two series carry the same (non-null) name. pandas reads a
      duplicated label as a frame rather than a column, so `Column` is only
      faithful to `df[c]` on tables with this property. */
  predicate DistinctNames(t: Table) {
    forall i, j :: 0 <= i < j < |t.series| && t.series[i].name.Some? ==> t.series[i].name != t.series[j].name
  }

  /** On a table with distinct names, `df[c]` is the one series named `c`. */
  lemma ColumnOfDistinct(t: Table, i: nat, c: string)
    requires DistinctNames(t)
    requires i < |t.series| && t.series[i].name == Some(c)
    ensures Column(t, c) == Some(t.series[i].cells)
  {
    var k :| 0 <= k < |t.series| && t.series[k].name == Some(c) && t.series[k].cells == Column(t, c).value
             && forall j :: 0 <= j < k ==> t.series[j].name != Some(c);
  }

  /** Setting a column never creates a second series with the same name. */
  lemma SetColumnKeepsDistinct(t: Table, c: string, cells: map<string, real>)
    requires DistinctNames(t)
    ensures DistinctNames(SetColumn(t, c, cells))
  {
    if Has(t, c) {
      SetColumnOverwrites(t, c, cells);
    } else {
      SetColumnAppends(t, c, cells);
    }
  }
}

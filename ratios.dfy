/** The ratio engine of `create_dataframe.py`.

    `calculateRatios` transposes the historical table so that facts become
    columns; in this model a table's series already are those columns, so
    both transposes are the identity and a column of the transposed frame
    is a series of the table. Values are reals; an empty cell is a period
    missing from a series' map. */
module Ratios {
  import opened Base
  import opened Tables

  /** The pandas expression a ratio computes, over whole columns. */
  datatype Formula =
    | Col(name: string)
    | Num(value: real)
    | Quot(num: Formula, den: Formula)
    | Diff(left: Formula, right: Formula)

  /** One entry of the ordered ratio dictionary: name, required columns, operation. */
  datatype RatioDef = RatioDef(name: string, required: seq<string>, formula: Formula)

  /** The columns a formula reads, in Python's left-to-right evaluation order. */
  function Reads(f: Formula): seq<string>
  {
    match f
    case Col(c) => [c]
    case Num(_) => []
    case Quot(a, b) => Reads(a) + Reads(b)
    case Diff(a, b) => Reads(a) + Reads(b)
  }

  /** Element-wise division: empty where either side is empty or the divisor is zero. */
  function Divide(a: map<string, real>, b: map<string, real>): (r: map<string, real>)
    ensures forall p :: p in r <==> p in a && p in b && b[p] != 0.0
    ensures forall p :: p in r ==> r[p] == a[p] / b[p]
  {
    map p | p in a && p in b && b[p] != 0.0 :: a[p] / b[p]
  }

  /** Element-wise subtraction: empty where either side is empty. */
  function Subtract(a: map<string, real>, b: map<string, real>): (r: map<string, real>)
    ensures forall p :: p in r <==> p in a && p in b
    ensures forall p :: p in r ==> r[p] == a[p] - b[p]
  {
    map p | p in a && p in b :: a[p] - b[p]
  }

  /** Evaluates a formula on the table. Reading a column that is not there
      raises `KeyError`, naming the first such column in evaluation order. */
  function Eval(t: Table, f: Formula): (r: Result<map<string, real>>)
    ensures r.Ok? <==> forall c :: c in Reads(f) ==> Has(t, c)
    ensures r.Err? ==> exists c :: c in Reads(f) && !Has(t, c) && r.error == KeyError(c)
  {
    match f
    case Col(c) => if Has(t, c) then Ok(Column(t, c).value) else Err(KeyError(c))
    case Num(v) => Ok(map p | p in t.periods :: v)
    case Quot(a, b) =>
      (match Eval(t, a)
       case Err(e) => Err(e)
       case Ok(x) =>
         match Eval(t, b)
         case Err(e) => Err(e)
         case Ok(y) => Ok(Divide(x, y)))
    case Diff(a, b) =>
      (match Eval(t, a)
       case Err(e) => Err(e)
       case Ok(x) =>
         match Eval(t, b)
         case Err(e) => Err(e)
         case Ok(y) => Ok(Subtract(x, y)))
  }

  /** Eval sees a table only through the columns the formula reads. */
  lemma {:induction false} EvalAgree(t: Table, u: Table, f: Formula)
    requires t.periods == u.periods
    requires forall c :: c in Reads(f) ==> Column(t, c) == Column(u, c)
    ensures Eval(t, f) == Eval(u, f)
  {
    match f
    case Col(c) =>
    case Num(_) =>
    case Quot(a, b) => EvalAgree(t, u, a); EvalAgree(t, u, b);
    case Diff(a, b) => EvalAgree(t, u, a); EvalAgree(t, u, b);
  }

  predicate HasAll(t: Table, cols: seq<string>) {
    forall c :: c in cols ==> Has(t, c)
  }

  /** What a pass over the ratio dictionary yields: the table (or the error
      that stopped it) and the names reported as skipped, in order. */
  datatype Pass = Pass(outcome: Result<Table>, skipped: seq<string>)

  /** `addColumns`, entry by entry: an entry whose required columns are all
      present sets its column; any other entry is reported and skipped. */
  function Run(t: Table, defs: seq<RatioDef>, skipped: seq<string>): Pass
    decreases |defs|
  {
    if defs == [] then Pass(Ok(t), skipped)
    else if HasAll(t, defs[0].required) then
      match Eval(t, defs[0].formula)
      case Err(e) => Pass(Err(e), skipped)
      case Ok(v) => Run(SetColumn(t, defs[0].name, v), defs[1..], skipped)
    else Run(t, defs[1..], skipped + [defs[0].name])
  }

  /** `addColumns(df, ratioDictionary)`: one ordered pass that updates the
      frame and the report of skipped entries step by step. */
  method AddColumns(df: Table, defs: seq<RatioDef>) returns (r: Result<Table>, skipped: seq<string>)
    ensures Pass(r, skipped) == Run(df, defs, [])
  {
    var t := df;
    skipped := [];
    var i := 0;
    while i < |defs|
      invariant 0 <= i <= |defs|
      invariant Run(t, defs[i..], skipped) == Run(df, defs, [])
    {
      var d := defs[i];
      assert defs[i..][1..] == defs[i + 1..];
      if HasAll(t, d.required) {
        var v := Eval(t, d.formula);
        if v.Err? {
          return Err(v.error), skipped;
        }
        t := SetColumn(t, d.name, v.value);
      } else {
        skipped := skipped + [d.name];
      }
      i := i + 1;
    }
    r := Ok(t);
  }

  /** The pass never introduces a duplicated column name: on a table whose
      names are distinct, every column it reads is the only one so named. */
  lemma {:induction false} RunKeepsDistinct(t: Table, defs: seq<RatioDef>, skipped: seq<string>)
    requires DistinctNames(t)
    ensures Run(t, defs, skipped).outcome.Ok? ==> DistinctNames(Run(t, defs, skipped).outcome.value)
    decreases |defs|
  {
    if defs != [] && HasAll(t, defs[0].required) {
      match Eval(t, defs[0].formula)
      case Err(_) =>
      case Ok(v) =>
        SetColumnKeepsDistinct(t, defs[0].name, v);
        RunKeepsDistinct(SetColumn(t, defs[0].name, v), defs[1..], skipped);
    } else if defs != [] {
      RunKeepsDistinct(t, defs[1..], skipped + [defs[0].name]);
    }
  }

  /** The column names the entries set. */
  function EntryNames(defs: seq<RatioDef>): set<string>
  {
    set k | 0 <= k < |defs| :: defs[k].name
  }

  /** A pass over `a + b` is a pass over `a` followed by a pass over `b`. */
  lemma {:induction false} RunSplit(t: Table, a: seq<RatioDef>, b: seq<RatioDef>, sk: seq<string>)
    ensures Run(t, a + b, sk) ==
      (var p := Run(t, a, sk); if p.outcome.Ok? then Run(p.outcome.value, b, p.skipped) else p)
    decreases |a|
  {
    if a != [] {
      assert (a + b)[1..] == a[1..] + b;
      if HasAll(t, a[0].required) {
        match Eval(t, a[0].formula)
        case Err(e) =>
        case Ok(v) => RunSplit(SetColumn(t, a[0].name, v), a[1..], b, sk);
      } else {
        RunSplit(t, a[1..], b, sk + [a[0].name]);
      }
    } else {
      assert a + b == b;
    }
  }

  /** A column that no entry names is neither added nor changed by the pass;
      the columns present before stay, in their order, as a prefix, and the
      earlier reports stay as a prefix of the report. */
  lemma {:induction false} RunKeeps(t: Table, defs: seq<RatioDef>, sk: seq<string>)
    ensures sk <= Run(t, defs, sk).skipped
    ensures Run(t, defs, sk).outcome.Ok? ==>
      var u := Run(t, defs, sk).outcome.value;
      && u.periods == t.periods
      && Names(t) <= Names(u)
      && forall c :: c !in EntryNames(defs) ==> (Has(u, c) <==> Has(t, c)) && Column(u, c) == Column(t, c)
    decreases |defs|
  {
    if defs != [] {
      var d, tail := defs[0], defs[1..];
      assert EntryNames(tail) <= EntryNames(defs) by {
        forall c | c in EntryNames(tail) ensures c in EntryNames(defs) {
          var k :| 0 <= k < |tail| && tail[k].name == c;
          assert defs[k + 1].name == c;
        }
      }
      assert d.name in EntryNames(defs);
      if !HasAll(t, d.required) {
        RunKeeps(t, tail, sk + [d.name]);
        assert Run(t, defs, sk) == Run(t, tail, sk + [d.name]);
        var p := Run(t, tail, sk + [d.name]);
        if p.outcome.Ok? {
          KeepsWiden(t, p.outcome.value, EntryNames(tail), EntryNames(defs));
        }
      } else if Eval(t, d.formula).Ok? {
        var t' := SetColumn(t, d.name, Eval(t, d.formula).value);
        RunKeeps(t', tail, sk);
        assert Run(t, defs, sk) == Run(t', tail, sk);
        var p := Run(t', tail, sk);
        if p.outcome.Ok? {
          SetColumnSpec(t, d.name, Eval(t, d.formula).value);
          KeepsCompose(t, t', p.outcome.value, {d.name}, EntryNames(tail), EntryNames(defs));
        }
      }
    }
  }

  /** `u` has the periods and the columns of `t`, and differs from it at
      most in the columns named in `names`. */
  ghost predicate Keeps(t: Table, u: Table, names: set<string>)
  {
    && u.periods == t.periods
    && Names(t) <= Names(u)
    && forall c :: c !in names ==> (Has(u, c) <==> Has(t, c)) && Column(u, c) == Column(t, c)
  }

  lemma KeepsWiden(t: Table, u: Table, a: set<string>, n: set<string>)
    requires Keeps(t, u, a) && a <= n
    ensures Keeps(t, u, n)
  {
  }

  lemma KeepsCompose(t: Table, m: Table, u: Table, a: set<string>, b: set<string>, n: set<string>)
    requires Keeps(t, m, a) && Keeps(m, u, b) && a <= n && b <= n
    ensures Keeps(t, u, n)
  {
  }

  /** Every entry is either reported as skipped or present in the result. */
  lemma {:induction false} RunSkipsOrAdds(t: Table, defs: seq<RatioDef>, sk: seq<string>)
    ensures Run(t, defs, sk).outcome.Ok? ==>
      forall k :: 0 <= k < |defs| ==>
        defs[k].name in Run(t, defs, sk).skipped || Has(Run(t, defs, sk).outcome.value, defs[k].name)
    decreases |defs|
  {
    if defs != [] {
      var d := defs[0];
      if !HasAll(t, d.required) {
        RunSkipsOrAdds(t, defs[1..], sk + [d.name]);
        SkippedCovered(t, defs, sk);
      } else if Eval(t, d.formula).Ok? {
        RunSkipsOrAdds(SetColumn(t, d.name, Eval(t, d.formula).value), defs[1..], sk);
        AddedCovered(t, defs, sk);
      }
    }
  }

  /** Every entry of `defs` is reported as skipped or present after the pass. */
  predicate Covered(p: Pass, defs: seq<RatioDef>)
  {
    p.outcome.Ok? ==> forall k :: 0 <= k < |defs| ==> defs[k].name in p.skipped || Has(p.outcome.value, defs[k].name)
  }

  lemma SkippedCovered(t: Table, defs: seq<RatioDef>, sk: seq<string>)
    requires defs != [] && !HasAll(t, defs[0].required)
    requires Covered(Run(t, defs[1..], sk + [defs[0].name]), defs[1..])
    ensures Covered(Run(t, defs, sk), defs)
  {
    var d, tail := defs[0], defs[1..];
    var q := Run(t, tail, sk + [d.name]);
    assert Run(t, defs, sk) == q;
    if q.outcome.Ok? {
      assert d.name in q.skipped by {
        RunKeeps(t, tail, sk + [d.name]);
        assert q.skipped[|sk|] == (sk + [d.name])[|sk|];
      }
      forall k | 0 <= k < |defs|
        ensures defs[k].name in q.skipped || Has(q.outcome.value, defs[k].name)
      {
        if k > 0 { assert defs[k] == tail[k - 1]; }
      }
    }
  }

  lemma AddedCovered(t: Table, defs: seq<RatioDef>, sk: seq<string>)
    requires defs != [] && HasAll(t, defs[0].required) && Eval(t, defs[0].formula).Ok?
    requires Covered(Run(SetColumn(t, defs[0].name, Eval(t, defs[0].formula).value), defs[1..], sk), defs[1..])
    ensures Covered(Run(t, defs, sk), defs)
  {
    var d, tail := defs[0], defs[1..];
    var t' := SetColumn(t, d.name, Eval(t, d.formula).value);
    var q := Run(t', tail, sk);
    assert Run(t, defs, sk) == q;
    if q.outcome.Ok? {
      assert Has(q.outcome.value, d.name) by {
        RunAddedStays(t', tail, sk, d.name);
      }
      forall k | 0 <= k < |defs|
        ensures defs[k].name in q.skipped || Has(q.outcome.value, defs[k].name)
      {
        if k > 0 { assert defs[k] == tail[k - 1]; }
      }
    }
  }

  /** A column present before the pass is present after it. */
  lemma {:induction false} RunAddedStays(t: Table, defs: seq<RatioDef>, sk: seq<string>, c: string)
    requires Has(t, c)
    ensures Run(t, defs, sk).outcome.Ok? ==> Has(Run(t, defs, sk).outcome.value, c)
  {
    RunKeeps(t, defs, sk);
    if Run(t, defs, sk).outcome.Ok? {
      var u := Run(t, defs, sk).outcome.value;
      var i :| 0 <= i < |t.series| && t.series[i].name == Some(c);
      assert Names(t)[i] == Names(u)[i];
    }
  }

  /** An entry that raises: its required columns are present but its
      operation reads a column that is not. */
  predicate Faulty(t: Table, d: RatioDef) {
    HasAll(t, d.required) && Eval(t, d.formula).Err?
  }

  /** An entry whose operation reads only its required columns, or one
      whose columns are all facts (no entry of `defs` produces them). */
  predicate Checked(d: RatioDef, defs: seq<RatioDef>) {
    || (forall c :: c in Reads(d.formula) ==> c in d.required)
    || (forall c :: (c in d.required || c in Reads(d.formula)) ==> c !in EntryNames(defs))
  }

  lemma FaultyAgree(t: Table, u: Table, d: RatioDef, defs: seq<RatioDef>, x: string)
    requires Checked(d, defs) && x in EntryNames(defs)
    requires t.periods == u.periods
    requires forall c :: c != x ==> (Has(u, c) <==> Has(t, c)) && Column(u, c) == Column(t, c)
    ensures Faulty(u, d) == Faulty(t, d)
  {
    if forall c :: c in Reads(d.formula) ==> c in d.required {
    } else {
      EvalAgree(t, u, d.formula);
    }
  }

  /** When every entry is `Checked`, the pass fails exactly when some entry
      is faulty already on the table it starts from. */
  lemma {:induction false} RunFailsIff(t: Table, defs: seq<RatioDef>, all: seq<RatioDef>, sk: seq<string>)
    requires forall k :: 0 <= k < |defs| ==> Checked(defs[k], all)
    requires EntryNames(defs) <= EntryNames(all)
    ensures Run(t, defs, sk).outcome.Err? <==> exists k :: 0 <= k < |defs| && Faulty(t, defs[k])
    decreases |defs|
  {
    if defs != [] {
      var d, tail := defs[0], defs[1..];
      assert forall k :: 0 <= k < |tail| ==> tail[k] == defs[k + 1];
      assert EntryNames(tail) <= EntryNames(defs) by {
        forall c | c in EntryNames(tail) ensures c in EntryNames(defs) {
          var k :| 0 <= k < |tail| && tail[k].name == c;
          assert defs[k + 1].name == c;
        }
      }
      if !HasAll(t, d.required) {
        RunFailsIff(t, tail, all, sk + [d.name]);
        SkippedFailsIff(t, defs, sk);
      } else if Eval(t, d.formula).Err? {
        assert Faulty(t, defs[0]);
      } else {
        var t' := SetColumn(t, d.name, Eval(t, d.formula).value);
        RunFailsIff(t', tail, all, sk);
        AddedFailsIff(t, defs, all, sk);
      }
    }
  }

  /** Some entry of `defs` is faulty on `t`. */
  predicate AnyFaulty(t: Table, defs: seq<RatioDef>) {
    exists k :: 0 <= k < |defs| && Faulty(t, defs[k])
  }

  lemma AnyFaultyTail(t: Table, defs: seq<RatioDef>)
    requires defs != [] && !Faulty(t, defs[0])
    ensures AnyFaulty(t, defs) == AnyFaulty(t, defs[1..])
  {
    if AnyFaulty(t, defs) {
      var k :| 0 <= k < |defs| && Faulty(t, defs[k]);
      assert defs[1..][k - 1] == defs[k];
    }
    if AnyFaulty(t, defs[1..]) {
      var k :| 0 <= k < |defs[1..]| && Faulty(t, defs[1..][k]);
      assert defs[k + 1] == defs[1..][k];
    }
  }

  /** Adding a column that some entry of `all` produces changes no checked
      entry's fault. */
  lemma AnyFaultyAfterSet(t: Table, c: string, cells: map<string, real>, defs: seq<RatioDef>, all: seq<RatioDef>)
    requires forall k :: 0 <= k < |defs| ==> Checked(defs[k], all)
    requires c in EntryNames(all)
    ensures AnyFaulty(SetColumn(t, c, cells), defs) == AnyFaulty(t, defs)
  {
    var u := SetColumn(t, c, cells);
    SetColumnSpec(t, c, cells);
    forall k | 0 <= k < |defs| ensures Faulty(u, defs[k]) == Faulty(t, defs[k]) {
      FaultyAgree(t, u, defs[k], all, c);
    }
  }

  /** The step of `RunFailsIff` for a skipped entry, given the claim for the
      entries after it. */
  lemma SkippedFailsIff(t: Table, defs: seq<RatioDef>, sk: seq<string>)
    requires defs != [] && !HasAll(t, defs[0].required)
    requires Run(t, defs[1..], sk + [defs[0].name]).outcome.Err? <==> AnyFaulty(t, defs[1..])
    ensures Run(t, defs, sk).outcome.Err? <==> AnyFaulty(t, defs)
  {
    assert Run(t, defs, sk) == Run(t, defs[1..], sk + [defs[0].name]);
    AnyFaultyTail(t, defs);
  }

  /** The step of `RunFailsIff` for an entry that is added, given the claim
      for the entries after it on the table that holds it. */
  lemma AddedFailsIff(t: Table, defs: seq<RatioDef>, all: seq<RatioDef>, sk: seq<string>)
    requires defs != [] && HasAll(t, defs[0].required) && Eval(t, defs[0].formula).Ok?
    requires forall k :: 0 <= k < |defs| ==> Checked(defs[k], all)
    requires EntryNames(defs) <= EntryNames(all)
    requires var t' := SetColumn(t, defs[0].name, Eval(t, defs[0].formula).value);
             Run(t', defs[1..], sk).outcome.Err? <==> AnyFaulty(t', defs[1..])
    ensures Run(t, defs, sk).outcome.Err? <==> AnyFaulty(t, defs)
  {
    var d, tail := defs[0], defs[1..];
    var cells := Eval(t, d.formula).value;
    assert Run(t, defs, sk) == Run(SetColumn(t, d.name, cells), tail, sk);
    assert d.name in EntryNames(all) by {
      assert d.name in EntryNames(defs);
    }
    assert forall k :: 0 <= k < |tail| ==> Checked(tail[k], all) by {
      forall k | 0 <= k < |tail| ensures Checked(tail[k], all) {
        assert tail[k] == defs[k + 1];
      }
    }
    AnyFaultyAfterSet(t, d.name, cells, tail, all);
    AnyFaultyTail(t, defs);
  }

  /** Declaration order decides dependent entries: an entry whose only input
      `x` is produced by an earlier entry ends up present exactly when `x`
      does. */
  lemma DependentEntry(t: Table, defs: seq<RatioDef>, j: nat, x: string)
    requires j < |defs|
    requires defs[j].required == [x] && Reads(defs[j].formula) == [x] && x != defs[j].name
    requires forall k :: 0 <= k < |defs| && k != j ==> defs[k].name != defs[j].name
    requires forall k :: j < k < |defs| ==> defs[k].name != x
    requires !Has(t, defs[j].name)
    requires Run(t, defs, []).outcome.Ok?
    ensures var u := Run(t, defs, []).outcome.value;
      Has(u, defs[j].name) <==> Has(u, x)
  {
    var pre, d, post := defs[..j], defs[j], defs[j + 1..|defs|];
    assert defs == pre + ([d] + post);
    var p := Run(t, pre, []);
    assert Run(t, defs, []) == (if p.outcome.Ok? then Run(p.outcome.value, [d] + post, p.skipped) else p) by {
      RunSplit(t, pre, [d] + post, []);
    }
    var m := p.outcome.value;
    assert !Has(m, d.name) by {
      NotNamed(defs, 0, j, d.name);
      assert defs[0..j] == pre;
      RunKeeps(t, pre, []);
    }
    assert d.name !in EntryNames(post) && x !in EntryNames(post) by {
      NotNamed(defs, j + 1, |defs|, d.name);
      NotNamed(defs, j + 1, |defs|, x);
    }
    DependentEntryFrom(m, d, post, p.skipped, x);
  }

  /** DependentEntry from the table the earlier entries leave behind. */
  lemma DependentEntryFrom(m: Table, d: RatioDef, post: seq<RatioDef>, skipped: seq<string>, x: string)
    requires d.required == [x] && Reads(d.formula) == [x] && x != d.name
    requires !Has(m, d.name) && d.name !in EntryNames(post) && x !in EntryNames(post)
    requires Run(m, [d] + post, skipped).outcome.Ok?
    ensures var u := Run(m, [d] + post, skipped).outcome.value;
      Has(u, d.name) <==> Has(u, x)
  {
    assert ([d] + post)[0] == d && ([d] + post)[1..] == post;
    if HasAll(m, [x]) {
      var m' := SetColumn(m, d.name, Eval(m, d.formula).value);
      assert Run(m, [d] + post, skipped) == Run(m', post, skipped);
      SetColumnSpec(m, d.name, Eval(m, d.formula).value);
      RunKeeps(m', post, skipped);
    } else {
      assert Run(m, [d] + post, skipped) == Run(m, post, skipped + [d.name]);
      RunKeeps(m, post, skipped + [d.name]);
    }
  }

  // ---- The fact and ratio names of `calculateRatios` ----

  const DeprecatedRevenue := "Revenue, Net (Deprecated 2018-01-31)"
  const ContractRevenue := "Revenue from Contract with Customer, Excluding Assessed Tax"
  const EffectiveRevenue := "Effective Revenue"
  const OperatingIncome := "Operating Income (Loss)"
  const GrossProfit := "Gross Profit"
  const NetIncome := "Net Income (Loss) Attributable to Parent"
  const Assets := "Assets"
  const Equity := "Stockholders' Equity Attributable to Parent"
  const AssetsCurrent := "Assets, Current"
  const LiabilitiesCurrent := "Liabilities, Current"
  const Inventory := "Inventory, Net"
  const Cash := "Cash and Cash Equivalents, at Carrying Value"
  const Liabilities := "Liabilities"
  const InterestExpense := "Interest Expense"
  const CostOfGoods := "Cost of Goods and Services Sold"
  const Receivables := "Accounts Receivable, after Allowance for Credit Loss, Current"
  const Payables := "Accounts Payable, Current"
  const OperatingCashFlow := "Net Cash Provided by (Used in) Operating Activities, Continuing Operations"
  const CapitalExpenditure := "Payments to Acquire Property, Plant, and Equipment"

  const OperatingMargin := "Operating Margin Ratio"
  const QuickRatio := "Quick Ratio"
  const CashRatio := "Cash Ratio"
  const ReceivablesTurnover := "Receivables Turnover Ratio"
  const InventoryTurnover := "Inventory Turnover Ratio"
  const DaysSales := "Days Sales outstanding"
  const DaysInventory := "Days Inventory outstanding"

  function Ratio(a: string, b: string): Formula { Quot(Col(a), Col(b)) }

  /** The entries of `ratioDictionary`: name, required columns, operation. */
  const GrossMarginDef := RatioDef("Gross Margin Ratio", [GrossProfit, EffectiveRevenue], Ratio(GrossProfit, EffectiveRevenue))
  const OperatingMarginDef := RatioDef(OperatingMargin, [OperatingIncome, EffectiveRevenue], Ratio(OperatingIncome, EffectiveRevenue))
  const NetProfitMarginDef := RatioDef("Net Profit Margin Ratio", [NetIncome, EffectiveRevenue], Ratio(NetIncome, EffectiveRevenue))
  const ReturnOnAssetsDef := RatioDef("Return on Assets Ratio", [NetIncome, Assets], Ratio(NetIncome, Assets))
  const ReturnOnEquityDef := RatioDef("Return on Equity Ratio", [NetIncome, Equity], Ratio(NetIncome, Equity))
  const CurrentRatioDef := RatioDef("Current Ratio", [AssetsCurrent, LiabilitiesCurrent], Ratio(AssetsCurrent, LiabilitiesCurrent))
  const QuickRatioDef := RatioDef(QuickRatio, [AssetsCurrent, Inventory, LiabilitiesCurrent],
    Diff(Col(AssetsCurrent), Ratio(Inventory, LiabilitiesCurrent)))
  const CashRatioDef := RatioDef(CashRatio, [Cash, LiabilitiesCurrent], Ratio(Cash, Liabilities))
  const DebtToEquityDef := RatioDef("Debt to Equity (D/E) Ratio", [Liabilities, Equity], Ratio(Liabilities, Equity))
  const DebtToAssetsDef := RatioDef("Debt to Assets Ratio", [Liabilities, Assets], Ratio(Liabilities, Assets))
  const InterestCoverageDef := RatioDef("Interest Coverage Ratio", [OperatingIncome, InterestExpense], Ratio(OperatingIncome, InterestExpense))
  const EquityRatioDef := RatioDef("Equity Ratio", [Equity, Assets], Ratio(Equity, Assets))
  const AssetTurnoverDef := RatioDef("Asset Turnover Ratio", [EffectiveRevenue, Assets], Ratio(EffectiveRevenue, Assets))
  const InventoryTurnoverDef := RatioDef(InventoryTurnover, [CostOfGoods, Inventory], Ratio(CostOfGoods, Inventory))
  const ReceivablesTurnoverDef := RatioDef(ReceivablesTurnover, [EffectiveRevenue, Receivables], Ratio(EffectiveRevenue, Receivables))
  const DaysSalesDef := RatioDef(DaysSales, [ReceivablesTurnover], Quot(Num(365.0), Col(ReceivablesTurnover)))
  const DaysInventoryDef := RatioDef(DaysInventory, [InventoryTurnover], Quot(Num(365.0), Col(InventoryTurnover)))
  const PayablesTurnoverDef := RatioDef("Payables Turnover Ratio", [CostOfGoods, Payables], Ratio(CostOfGoods, Payables))
  const OperatingCashFlowDef := RatioDef("Operating Cash Flow Ratio", [OperatingCashFlow, Liabilities], Ratio(OperatingCashFlow, Liabilities))
  const CapitalExpenditureDef := RatioDef("Capital Expenditure Coverage Ratio", [OperatingCashFlow, CapitalExpenditure], Ratio(OperatingCashFlow, CapitalExpenditure))

  /** `ratioDictionary`, in declaration order. Quick Ratio divides before it
      subtracts; Cash Ratio requires current liabilities but divides by total
      liabilities. */
  const RatioDefinitions: seq<RatioDef> := [
    GrossMarginDef, OperatingMarginDef, NetProfitMarginDef, ReturnOnAssetsDef,
    ReturnOnEquityDef, CurrentRatioDef, QuickRatioDef, CashRatioDef,
    DebtToEquityDef, DebtToAssetsDef, InterestCoverageDef, EquityRatioDef,
    AssetTurnoverDef, InventoryTurnoverDef, ReceivablesTurnoverDef, DaysSalesDef,
    DaysInventoryDef, PayablesTurnoverDef, OperatingCashFlowDef, CapitalExpenditureDef
  ]

  /** `a.fillna(b)` over one index: `a` where it has a value, else `b`. */
  function FillNa(a: map<string, real>, b: map<string, real>): (r: map<string, real>)
    ensures r.Keys == a.Keys + b.Keys
    ensures forall p :: p in a ==> r[p] == a[p]
    ensures forall p :: p !in a && p in b ==> r[p] == b[p]
  {
    map p | p in a.Keys + b.Keys :: if p in a then a[p] else b[p]
  }

  /** The `Effective Revenue` column: the deprecated revenue fact where it has
      a value, else contract revenue; contract revenue alone when the
      deprecated column is absent. Both branches read contract revenue. */
  function EffectiveRevenueCells(t: Table): (r: Result<map<string, real>>)
    ensures r.Ok? <==> Has(t, ContractRevenue)
    ensures r.Err? ==> r.error == KeyError(ContractRevenue)
    ensures r.Ok? && !Has(t, DeprecatedRevenue) ==> r.value == Column(t, ContractRevenue).value
    ensures r.Ok? && Has(t, DeprecatedRevenue) ==>
      var dep, con := Column(t, DeprecatedRevenue).value, Column(t, ContractRevenue).value;
      && r.value.Keys == dep.Keys + con.Keys
      && (forall p :: p in dep ==> r.value[p] == dep[p])
      && (forall p :: p !in dep && p in con ==> r.value[p] == con[p])
  {
    if Has(t, DeprecatedRevenue) then
      if Has(t, ContractRevenue) then Ok(FillNa(Column(t, DeprecatedRevenue).value, Column(t, ContractRevenue).value))
      else Err(KeyError(ContractRevenue))
    else Eval(t, Col(ContractRevenue))
  }

  /** The two columns `calculateRatios` sets before its pass: Effective
      Revenue, then the Operating Margin Ratio over it. */
  function Prepare(data: Table): Result<Table>
  {
    match EffectiveRevenueCells(data)
    case Err(e) => Err(e)
    case Ok(er) =>
      var t1 := SetColumn(data, EffectiveRevenue, er);
      match Eval(t1, Ratio(OperatingIncome, EffectiveRevenue))
      case Err(e) => Err(e)
      case Ok(om) => Ok(SetColumn(t1, OperatingMargin, om))
  }

  lemma EvalRatio(t: Table, a: string, b: string)
    ensures Eval(t, Ratio(a, b)).Ok? <==> Has(t, a) && Has(t, b)
    ensures !Has(t, a) ==> Eval(t, Ratio(a, b)) == Err(KeyError(a))
    ensures Has(t, a) && !Has(t, b) ==> Eval(t, Ratio(a, b)) == Err(KeyError(b))
    ensures Has(t, a) && Has(t, b) ==>
      Eval(t, Ratio(a, b)) == Ok(Divide(Column(t, a).value, Column(t, b).value))
  {
    assert Reads(Ratio(a, b)) == [a, b];
  }

  lemma PreparedNamesDiffer()
    ensures OperatingIncome != EffectiveRevenue && OperatingMargin != EffectiveRevenue
    ensures ContractRevenue != EffectiveRevenue
    ensures Cash != EffectiveRevenue && Cash != OperatingMargin
    ensures LiabilitiesCurrent != EffectiveRevenue && LiabilitiesCurrent != OperatingMargin
    ensures Liabilities != EffectiveRevenue && Liabilities != OperatingMargin
    ensures DaysSales != EffectiveRevenue && DaysSales != OperatingMargin
    ensures DaysInventory != EffectiveRevenue && DaysInventory != OperatingMargin
  {
  }

  lemma CalculateAfterPrepare(data: Table)
    requires Prepare(data).Ok?
    ensures Calculate(data) == Run(Prepare(data).value, RatioDefinitions, [])
  {
  }

  /** Preparing raises `KeyError` for missing contract revenue, then for
      missing operating income; otherwise it sets the two columns and leaves
      every other column alone. */
  lemma PrepareSpec(data: Table)
    ensures Prepare(data).Ok? <==> Has(data, ContractRevenue) && Has(data, OperatingIncome)
    ensures !Has(data, ContractRevenue) ==> Prepare(data) == Err(KeyError(ContractRevenue))
    ensures Has(data, ContractRevenue) && !Has(data, OperatingIncome) ==>
      Prepare(data) == Err(KeyError(OperatingIncome))
    ensures Prepare(data).Ok? ==>
      var u, er := Prepare(data).value, EffectiveRevenueCells(data).value;
      && u.periods == data.periods
      && Names(data) <= Names(u)
      && Column(u, EffectiveRevenue) == Some(er)
      && Column(u, OperatingMargin) == Some(Divide(Column(data, OperatingIncome).value, er))
      && forall c :: c != EffectiveRevenue && c != OperatingMargin ==>
           (Has(u, c) <==> Has(data, c)) && Column(u, c) == Column(data, c)
  {
    if Has(data, ContractRevenue) {
      var er := EffectiveRevenueCells(data).value;
      var t1 := SetColumn(data, EffectiveRevenue, er);
      PreparedNamesDiffer();
      SetColumnSpec(data, EffectiveRevenue, er);
      assert Has(t1, OperatingIncome) == Has(data, OperatingIncome);
      assert Column(t1, OperatingIncome) == Column(data, OperatingIncome);
      EvalRatio(t1, OperatingIncome, EffectiveRevenue);
      if Has(data, OperatingIncome) {
        var om := Divide(Column(data, OperatingIncome).value, er);
        assert Prepare(data) == Ok(SetColumn(t1, OperatingMargin, om));
        SetTwoColumns(data, EffectiveRevenue, er, OperatingMargin, om);
      }
    }
  }

  lemma SetTwoColumns(t: Table, a: string, x: map<string, real>, b: string, y: map<string, real>)
    requires a != b
    ensures var u := SetColumn(SetColumn(t, a, x), b, y);
      && u.periods == t.periods
      && Names(t) <= Names(u)
      && Column(u, a) == Some(x) && Column(u, b) == Some(y)
      && forall c :: c != a && c != b ==> (Has(u, c) <==> Has(t, c)) && Column(u, c) == Column(t, c)
  {
    var t1 := SetColumn(t, a, x);
    SetColumnSpec(t, a, x);
    SetColumnSpec(t1, b, y);
    assert Names(t) <= Names(t1) <= Names(SetColumn(t1, b, y));
  }

  /** `calculateRatios` on the (already transposed) table. */
  function Calculate(data: Table): Pass
  {
    match Prepare(data)
    case Err(e) => Pass(Err(e), [])
    case Ok(t) => Run(t, RatioDefinitions, [])
  }

  /** The whole calculation leaves distinct column names distinct. */
  lemma CalculateKeepsDistinct(data: Table)
    requires DistinctNames(data)
    ensures Calculate(data).outcome.Ok? ==> DistinctNames(Calculate(data).outcome.value)
  {
    match EffectiveRevenueCells(data)
    case Err(_) =>
    case Ok(er) =>
      var t1 := SetColumn(data, EffectiveRevenue, er);
      SetColumnKeepsDistinct(data, EffectiveRevenue, er);
      match Eval(t1, Ratio(OperatingIncome, EffectiveRevenue))
      case Err(_) =>
      case Ok(om) =>
        SetColumnKeepsDistinct(t1, OperatingMargin, om);
        RunKeepsDistinct(SetColumn(t1, OperatingMargin, om), RatioDefinitions, []);
  }

  /** `calculateRatios(dataDf)`: sets Effective Revenue and the Operating
      Margin Ratio in place, then runs the ordered pass. */
  method CalculateRatios(data: Table) returns (r: Result<Table>, skipped: seq<string>)
    ensures Pass(r, skipped) == Calculate(data)
  {
    var er := EffectiveRevenueCells(data);
    if er.Err? {
      return Err(er.error), [];
    }
    var df := SetColumn(data, EffectiveRevenue, er.value);
    var om := Eval(df, Ratio(OperatingIncome, EffectiveRevenue));
    if om.Err? {
      return Err(om.error), [];
    }
    df := SetColumn(df, OperatingMargin, om.value);
    r, skipped := AddColumns(df, RatioDefinitions);
  }

  // ---- What calculateRatios promises ----

  lemma {:induction false} NotNamed(defs: seq<RatioDef>, lo: nat, hi: nat, c: string)
    requires lo <= hi <= |defs|
    requires forall k :: lo <= k < hi ==> defs[k].name != c
    ensures c !in EntryNames(defs[lo..hi])
  {
    forall k | 0 <= k < hi - lo
      ensures defs[lo..hi][k].name != c
    {
      assert defs[lo..hi][k] == defs[lo + k];
    }
  }

  /** Every entry but Cash Ratio reads exactly what it requires. */
  lemma OnlyCashRatioReadsUnrequired()
    ensures forall k :: 0 <= k < |RatioDefinitions| && k != 7 ==>
      forall c :: c in Reads(RatioDefinitions[k].formula) ==> c in RatioDefinitions[k].required
    ensures RatioDefinitions[7].name == CashRatio
    ensures Liabilities in Reads(RatioDefinitions[7].formula) && Liabilities !in RatioDefinitions[7].required
  {
  }

  /** The facts Cash Ratio touches are not produced by any entry. */
  lemma CashRatioInputsAreFacts()
    ensures Cash !in EntryNames(RatioDefinitions)
    ensures LiabilitiesCurrent !in EntryNames(RatioDefinitions)
    ensures Liabilities !in EntryNames(RatioDefinitions)
  {
    var defs := RatioDefinitions;
    assert defs[0..20] == defs;
    NotNamed(defs, 0, 20, Cash);
    NotNamed(defs, 0, 20, LiabilitiesCurrent);
    NotNamed(defs, 0, 20, Liabilities);
  }

  /** The columns set before the pass are facts or the pass's own first entries. */
  lemma PreparedColumnsNotAfterOperatingMargin()
    ensures EffectiveRevenue !in EntryNames(RatioDefinitions)
    ensures RatioDefinitions[1].name == OperatingMargin && OperatingMargin in EntryNames(RatioDefinitions)
    ensures forall k :: 2 <= k < |RatioDefinitions| ==> RatioDefinitions[k].name != OperatingMargin
  {
    var defs := RatioDefinitions;
    assert defs[0..20] == defs;
    NotNamed(defs, 0, 20, EffectiveRevenue);
  }

  lemma DefinitionsChecked()
    ensures forall k :: 0 <= k < |RatioDefinitions| ==> Checked(RatioDefinitions[k], RatioDefinitions)
  {
    CashRatioInputsAreFacts();
    OnlyCashRatioReadsUnrequired();
    var d := RatioDefinitions[7];
    assert forall c :: (c in d.required || c in Reads(d.formula)) ==> c in {Cash, LiabilitiesCurrent, Liabilities};
  }

  lemma NotFaultyWhenSelfContained(t: Table, d: RatioDef)
    requires forall c :: c in Reads(d.formula) ==> c in d.required
    ensures !Faulty(t, d)
  {
  }

  /** The ordered pass over the declared entries fails exactly when one of
      them is faulty on the table it starts from. */
  lemma PassFailsWhenFaulty(t: Table)
    ensures Run(t, RatioDefinitions, []).outcome.Err? <==>
      exists k :: 0 <= k < |RatioDefinitions| && Faulty(t, RatioDefinitions[k])
  {
    DefinitionsChecked();
    RunFailsIff(t, RatioDefinitions, RatioDefinitions, []);
  }

  lemma OnlyOneFaulty(t: Table, defs: seq<RatioDef>, j: nat)
    requires j < |defs|
    requires forall k :: 0 <= k < |defs| && k != j ==> !Faulty(t, defs[k])
    ensures (exists k :: 0 <= k < |defs| && Faulty(t, defs[k])) <==> Faulty(t, defs[j])
  {
  }

  /** Cash Ratio is faulty exactly when cash and current liabilities are
      present and total liabilities are not. */
  lemma CashRatioFaultyIff(t: Table)
    ensures Faulty(t, RatioDefinitions[7]) <==>
      Has(t, Cash) && Has(t, LiabilitiesCurrent) && !Has(t, Liabilities)
  {
  }

  /** The ordered pass raises only through Cash Ratio. */
  lemma PassFailsIff(t: Table)
    ensures Run(t, RatioDefinitions, []).outcome.Err? <==>
      Has(t, Cash) && Has(t, LiabilitiesCurrent) && !Has(t, Liabilities)
  {
    var defs := RatioDefinitions;
    PassFailsWhenFaulty(t);
    OnlyCashRatioReadsUnrequired();
    forall k | 0 <= k < |defs| && k != 7 ensures !Faulty(t, defs[k]) {
      NotFaultyWhenSelfContained(t, defs[k]);
    }
    OnlyOneFaulty(t, defs, 7);
    CashRatioFaultyIff(t);
  }

  /** `calculateRatios` raises exactly when contract revenue is missing
      (Effective Revenue reads it on both branches), when operating income is
      missing (the Operating Margin Ratio before the pass is unconditional),
      or when Cash Ratio's check passes on current liabilities while its
      formula reads total liabilities, which are missing. A missing input of
      any other ratio is a skip, never an error. */
  lemma CalculateFailsIff(data: Table)
    ensures Calculate(data).outcome.Err? <==>
      || !Has(data, ContractRevenue)
      || !Has(data, OperatingIncome)
      || (Has(data, Cash) && Has(data, LiabilitiesCurrent) && !Has(data, Liabilities))
  {
    PrepareSpec(data);
    if Prepare(data).Ok? {
      PreparedNamesDiffer();
      CalculateAfterPrepare(data);
      PassFailsIff(Prepare(data).value);
    }
  }

  /** Days Sales and Days Inventory outstanding come out exactly when the
      turnover ratio they divide (declared before them) does. */
  lemma DaysOutstandingFollowTurnover(data: Table)
    requires Calculate(data).outcome.Ok?
    ensures !Has(data, DaysSales) ==>
      (Has(Calculate(data).outcome.value, DaysSales) <==> Has(Calculate(data).outcome.value, ReceivablesTurnover))
    ensures !Has(data, DaysInventory) ==>
      (Has(Calculate(data).outcome.value, DaysInventory) <==> Has(Calculate(data).outcome.value, InventoryTurnover))
  {
    PrepareSpec(data);
    PreparedNamesDiffer();
    CalculateAfterPrepare(data);
    var t := Prepare(data).value;
    if !Has(data, DaysSales) {
      DaysSalesFollows(t);
    }
    if !Has(data, DaysInventory) {
      DaysInventoryFollows(t);
    }
  }

  /** Days Sales outstanding (entry 15) divides only the Receivables
      Turnover Ratio, and its name and input occur nowhere else after it. */
  lemma DaysSalesEntry()
    ensures var defs := RatioDefinitions;
      && defs[15].name == DaysSales
      && defs[15].required == [ReceivablesTurnover] && Reads(defs[15].formula) == [ReceivablesTurnover]
      && ReceivablesTurnover != DaysSales
      && (forall k :: 0 <= k < |defs| && k != 15 ==> defs[k].name != DaysSales)
      && (forall k :: 15 < k < |defs| ==> defs[k].name != ReceivablesTurnover)
  {
  }

  lemma DaysInventoryEntry()
    ensures var defs := RatioDefinitions;
      && defs[16].name == DaysInventory
      && defs[16].required == [InventoryTurnover] && Reads(defs[16].formula) == [InventoryTurnover]
      && InventoryTurnover != DaysInventory
      && (forall k :: 0 <= k < |defs| && k != 16 ==> defs[k].name != DaysInventory)
      && (forall k :: 16 < k < |defs| ==> defs[k].name != InventoryTurnover)
  {
  }

  lemma DaysSalesFollows(t: Table)
    requires !Has(t, DaysSales) && Run(t, RatioDefinitions, []).outcome.Ok?
    ensures var u := Run(t, RatioDefinitions, []).outcome.value;
      Has(u, DaysSales) <==> Has(u, ReceivablesTurnover)
  {
    DaysSalesEntry();
    DependentEntry(t, RatioDefinitions, 15, ReceivablesTurnover);
  }

  lemma DaysInventoryFollows(t: Table)
    requires !Has(t, DaysInventory) && Run(t, RatioDefinitions, []).outcome.Ok?
    ensures var u := Run(t, RatioDefinitions, []).outcome.value;
      Has(u, DaysInventory) <==> Has(u, InventoryTurnover)
  {
    DaysInventoryEntry();
    DependentEntry(t, RatioDefinitions, 16, InventoryTurnover);
  }

  /** The table comes back with every input row first, in order and with the
      same cells unless its name is one the calculation sets, followed by the
      rows it adds; Effective Revenue is the fallback column. */
  lemma CalculateKeepsFacts(data: Table)
    requires Calculate(data).outcome.Ok?
    ensures Calculate(data).outcome.value.periods == data.periods
    ensures Names(data) <= Names(Calculate(data).outcome.value)
    ensures Column(Calculate(data).outcome.value, EffectiveRevenue) == Some(EffectiveRevenueCells(data).value)
    ensures forall c :: c !in EntryNames(RatioDefinitions) && c != EffectiveRevenue ==>
      Column(Calculate(data).outcome.value, c) == Column(data, c)
  {
    CalculateAfterPrepare(data);
    PreparedPassKeeps(data, Prepare(data).value, Calculate(data).outcome.value);
  }

  lemma PreparedPassKeeps(data: Table, t: Table, u: Table)
    requires Prepare(data) == Ok(t) && Run(t, RatioDefinitions, []).outcome == Ok(u)
    ensures u.periods == data.periods
    ensures Names(data) <= Names(u)
    ensures Column(u, EffectiveRevenue) == Some(EffectiveRevenueCells(data).value)
    ensures forall c :: c !in EntryNames(RatioDefinitions) && c != EffectiveRevenue ==> Column(u, c) == Column(data, c)
  {
    PrepareSpec(data);
    PassKeeps(t);
    KeepsThrough(data, t, u, EffectiveRevenueCells(data).value, EntryNames(RatioDefinitions));
  }

  lemma KeepsThrough(data: Table, t: Table, u: Table, er: map<string, real>, named: set<string>)
    requires t.periods == data.periods && Names(data) <= Names(t)
    requires Column(t, EffectiveRevenue) == Some(er)
    requires forall c :: c != EffectiveRevenue && c != OperatingMargin ==>
      (Has(t, c) <==> Has(data, c)) && Column(t, c) == Column(data, c)
    requires u.periods == t.periods && Names(t) <= Names(u)
    requires Column(u, EffectiveRevenue) == Column(t, EffectiveRevenue)
    requires forall c :: c !in named ==> c != OperatingMargin && Column(u, c) == Column(t, c)
    ensures u.periods == data.periods
    ensures Names(data) <= Names(u)
    ensures Column(u, EffectiveRevenue) == Some(er)
    ensures forall c :: c !in named && c != EffectiveRevenue ==> Column(u, c) == Column(data, c)
  {
  }

  /** The pass keeps the prepared columns and every fact it does not name. */
  lemma PassKeeps(t: Table)
    requires Run(t, RatioDefinitions, []).outcome.Ok?
    ensures var u := Run(t, RatioDefinitions, []).outcome.value;
      && u.periods == t.periods
      && Names(t) <= Names(u)
      && Column(u, EffectiveRevenue) == Column(t, EffectiveRevenue)
      && forall c :: c !in EntryNames(RatioDefinitions) ==> c != OperatingMargin && Column(u, c) == Column(t, c)
  {
    PreparedColumnsNotAfterOperatingMargin();
    RunKeeps(t, RatioDefinitions, []);
  }

  /** The pass recomputes the Operating Margin Ratio to the values the
      unconditional computation before it already set. */
  lemma OperatingMarginRecomputed(data: Table)
    requires Calculate(data).outcome.Ok?
    ensures Has(data, OperatingIncome) && EffectiveRevenueCells(data).Ok?
    ensures Column(Calculate(data).outcome.value, OperatingMargin) ==
      Some(Divide(Column(data, OperatingIncome).value, EffectiveRevenueCells(data).value))
  {
    PrepareSpec(data);
    var t := Prepare(data).value;
    OperatingMarginKept(t, Divide(Column(data, OperatingIncome).value, EffectiveRevenueCells(data).value));
  }

  /** The pass sets Operating Margin to the quotient of the two columns it
      reads: no earlier entry touches them and no later entry has its name. */
  lemma OperatingMarginKept(t: Table, om: map<string, real>)
    requires Has(t, OperatingIncome) && Has(t, EffectiveRevenue)
    requires om == Divide(Column(t, OperatingIncome).value, Column(t, EffectiveRevenue).value)
    requires Run(t, RatioDefinitions, []).outcome.Ok?
    ensures Column(Run(t, RatioDefinitions, []).outcome.value, OperatingMargin) == Some(om)
  {
    OperatingMarginEntry();
    SecondEntryKept(t, RatioDefinitions, OperatingIncome, EffectiveRevenue, om);
  }

  /** Entry 1 divides two columns that entry 0 does not produce, and no
      later entry reuses its name. */
  lemma SecondEntryKept(t: Table, defs: seq<RatioDef>, a: string, b: string, v: map<string, real>)
    requires |defs| > 1 && defs[1].required == [a, b] && defs[1].formula == Ratio(a, b)
    requires defs[0].name != a && defs[0].name != b
    requires forall k :: 1 < k < |defs| ==> defs[k].name != defs[1].name
    requires Has(t, a) && Has(t, b) && v == Divide(Column(t, a).value, Column(t, b).value)
    requires Run(t, defs, []).outcome.Ok?
    ensures Column(Run(t, defs, []).outcome.value, defs[1].name) == Some(v)
  {
    SecondEntryReady(t, defs, a, b, v);
    RecomputedEntry(t, defs, 1, v);
  }

  /** The requirements of RecomputedEntry for entry 1. */
  lemma SecondEntryReady(t: Table, defs: seq<RatioDef>, a: string, b: string, v: map<string, real>)
    requires |defs| > 1 && defs[1].required == [a, b] && defs[1].formula == Ratio(a, b)
    requires defs[0].name != a && defs[0].name != b
    requires Has(t, a) && Has(t, b) && v == Divide(Column(t, a).value, Column(t, b).value)
    ensures forall c :: c in Reads(defs[1].formula) ==> c in defs[1].required
    ensures forall k, c :: 0 <= k < 1 && c in defs[1].required ==> defs[k].name != c
    ensures HasAll(t, defs[1].required) && Eval(t, defs[1].formula) == Ok(v)
  {
    RatioEntryReady(t, defs[1], a, b, v);
  }

  /** A ratio entry over two present columns reads only what it requires
      and evaluates to their quotient. */
  lemma RatioEntryReady(t: Table, d: RatioDef, a: string, b: string, v: map<string, real>)
    requires d.required == [a, b] && d.formula == Ratio(a, b)
    requires Has(t, a) && Has(t, b) && v == Divide(Column(t, a).value, Column(t, b).value)
    ensures forall c :: c in Reads(d.formula) ==> c in d.required
    ensures HasAll(t, d.required) && Eval(t, d.formula) == Ok(v)
  {
    EvalRatio(t, a, b);
    assert Reads(d.formula) == [a, b];
  }

  lemma OperatingMarginEntry()
    ensures var defs := RatioDefinitions;
      && defs[1] == RatioDef(OperatingMargin, [OperatingIncome, EffectiveRevenue], Ratio(OperatingIncome, EffectiveRevenue))
      && defs[0].name != OperatingIncome && defs[0].name != EffectiveRevenue
      && (forall k :: 1 < k < |defs| ==> defs[k].name != OperatingMargin)
  {
  }

  /** An entry whose inputs no earlier entry overwrites and whose name no
      later entry reuses ends up holding its formula on the starting table. */
  lemma RecomputedEntry(t: Table, defs: seq<RatioDef>, j: nat, v: map<string, real>)
    requires j < |defs|
    requires forall c :: c in Reads(defs[j].formula) ==> c in defs[j].required
    requires forall k, c :: 0 <= k < j && c in defs[j].required ==> defs[k].name != c
    requires forall k :: j < k < |defs| ==> defs[k].name != defs[j].name
    requires HasAll(t, defs[j].required) && Eval(t, defs[j].formula) == Ok(v)
    requires Run(t, defs, []).outcome.Ok?
    ensures Column(Run(t, defs, []).outcome.value, defs[j].name) == Some(v)
  {
    RunSplitAt(t, defs, j, []);
    PrefixKeepsEval(t, defs, j, v);
    var p := Run(t, defs[..j], []);
    EntryKept(p.outcome.value, defs, j, p.skipped, v);
  }

  /** A pass split at entry `j`. */
  lemma RunSplitAt(t: Table, defs: seq<RatioDef>, j: nat, sk: seq<string>)
    requires j <= |defs|
    ensures Run(t, defs, sk) ==
      (var p := Run(t, defs[..j], sk); if p.outcome.Ok? then Run(p.outcome.value, defs[j..], p.skipped) else p)
  {
    assert defs == defs[..j] + defs[j..];
    RunSplit(t, defs[..j], defs[j..], sk);
  }

  /** The entries before `j` leave the columns entry `j` reads as they were,
      when none of them names one, so entry `j` computes the same values. */
  lemma PrefixKeepsEval(t: Table, defs: seq<RatioDef>, j: nat, v: map<string, real>)
    requires j < |defs|
    requires forall c :: c in Reads(defs[j].formula) ==> c in defs[j].required
    requires forall k, c :: 0 <= k < j && c in defs[j].required ==> defs[k].name != c
    requires HasAll(t, defs[j].required) && Eval(t, defs[j].formula) == Ok(v)
    ensures var p := Run(t, defs[..j], []);
      p.outcome.Ok? ==> HasAll(p.outcome.value, defs[j].required) && Eval(p.outcome.value, defs[j].formula) == Ok(v)
  {
    var p := Run(t, defs[..j], []);
    if p.outcome.Ok? {
      var m := p.outcome.value;
      assert m.periods == t.periods && forall c :: c in defs[j].required ==> Has(m, c) && Column(m, c) == Column(t, c) by {
        RunKeeps(t, defs[..j], []);
        forall c | c in defs[j].required ensures c !in EntryNames(defs[..j]) {
          NotNamed(defs, 0, j, c);
          assert defs[0..j] == defs[..j];
        }
      }
      EvalAgree(t, m, defs[j].formula);
    }
  }

  /** Entry `j` computes `v` and no later entry reuses its name, so `v` is
      left in its column. */
  lemma EntryKept(m: Table, defs: seq<RatioDef>, j: nat, sk: seq<string>, v: map<string, real>)
    requires j < |defs|
    requires HasAll(m, defs[j].required) && Eval(m, defs[j].formula) == Ok(v)
    requires forall k :: j < k < |defs| ==> defs[k].name != defs[j].name
    requires Run(m, defs[j..], sk).outcome.Ok?
    ensures Column(Run(m, defs[j..], sk).outcome.value, defs[j].name) == Some(v)
  {
    var d := defs[j];
    var m' := SetColumn(m, d.name, v);
    assert Run(m, defs[j..], sk) == Run(m', defs[j + 1..], sk) by {
      assert defs[j..][0] == d && defs[j..][1..] == defs[j + 1..];
    }
    assert d.name !in EntryNames(defs[j + 1..]) by {
      NotNamed(defs, j + 1, |defs|, d.name);
      assert defs[j + 1..|defs|] == defs[j + 1..];
    }
    RunKeeps(m', defs[j + 1..], sk);
  }

  // ---- Worked cases ----

  lemma EvalDiff(t: Table, a: string, f: Formula)
    requires Has(t, a) && Eval(t, f).Ok?
    ensures Eval(t, Diff(Col(a), f)) == Ok(Subtract(Column(t, a).value, Eval(t, f).value))
  {
  }

  lemma DivideOne(p: string, x: real, y: real)
    requires y != 0.0
    ensures Divide(map[p := x], map[p := y]) == map[p := x / y]
  {
  }

  lemma SubtractOne(p: string, x: real, y: real)
    ensures Subtract(map[p := x], map[p := y]) == map[p := x - y]
  {
  }

  /** Gross Margin Ratio is Gross Profit over Effective Revenue in each
      period that has both; a period without Effective Revenue has no Gross
      Margin Ratio, and only that period. */
  lemma GrossMarginCase(t: Table, p: string, q: string, x: real, z: real, y: real)
    requires p != q && y != 0.0
    requires Column(t, GrossProfit) == Some(map[p := x, q := z])
    requires Column(t, EffectiveRevenue) == Some(map[p := y])
    ensures Eval(t, GrossMarginDef.formula) == Ok(map[p := x / y])
  {
    DivideMissing(p, q, x, z, y);
    EvalRatio(t, GrossProfit, EffectiveRevenue);
  }

  /** A period missing from the divisor gets no cell. */
  lemma DivideMissing(p: string, q: string, x: real, z: real, y: real)
    requires p != q && y != 0.0
    ensures Divide(map[p := x, q := z], map[p := y]) == map[p := x / y]
  {
    var r := Divide(map[p := x, q := z], map[p := y]);
    assert r.Keys == {p} by {
      assert q !in r;
    }
  }

  /** Quick Ratio with current assets 500, inventory 50 and current
      liabilities 100 is 500 - 50 / 100 = 499.5, not (500 - 50) / 100. */
  lemma QuickRatioCase(t: Table, p: string)
    requires Column(t, AssetsCurrent) == Some(map[p := 500.0])
    requires Column(t, Inventory) == Some(map[p := 50.0])
    requires Column(t, LiabilitiesCurrent) == Some(map[p := 100.0])
    ensures Eval(t, QuickRatioDef.formula) == Ok(map[p := 499.5])
  {
    var f := Ratio(Inventory, LiabilitiesCurrent);
    assert Eval(t, f) == Ok(map[p := 0.5]) by {
      EvalRatio(t, Inventory, LiabilitiesCurrent);
      DivideOne(p, 50.0, 100.0);
    }
    EvalDiff(t, AssetsCurrent, f);
    SubtractOne(p, 500.0, 0.5);
  }

  /** Cash Ratio's check passes with cash and current liabilities, and its
      computation then raises for want of total liabilities. */
  lemma CashRatioCase()
    ensures var t := Table(["2024"], [
              Series(Some(Cash), map["2024" := 30.0]),
              Series(Some(LiabilitiesCurrent), map["2024" := 60.0])]);
      HasAll(t, RatioDefinitions[7].required) && Eval(t, RatioDefinitions[7].formula) == Err(KeyError(Liabilities))
  {
    var t := Table(["2024"], [
              Series(Some(Cash), map["2024" := 30.0]),
              Series(Some(LiabilitiesCurrent), map["2024" := 60.0])]);
    assert t.series[0].name == Some(Cash) && t.series[1].name == Some(LiabilitiesCurrent);
    assert !Has(t, Liabilities);
  }
}

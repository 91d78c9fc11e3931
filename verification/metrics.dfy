/** `calculate_dax_metrics` of dashboardprep.py (lines 71-102): column
    totals and means of the fact table, the Insurance loss ratio, the
    customer count, the retention rate and the orders per customer. */
module Metrics {
  import opened Wrappers
  import opened Records
  import opened Star
  import Stats
  import Sequences

  // ---------------------------------------------------------------------------
  // Fact columns
  // ---------------------------------------------------------------------------

  /** The amount columns of the fact table that the metrics aggregate. */
  datatype Amount = BudgetAmount | ActualAmount | CostAmount | RevenueAmount | ClaimAmount
                  | ProfitAmount | VarianceAmount | VariancePctAmount

  function Value(f: Fact, a: Amount): Option<real> {
    match a
    case BudgetAmount => f.budget
    case ActualAmount => f.actual
    case CostAmount => f.cost
    case RevenueAmount => f.revenue
    case ClaimAmount => f.claim
    case ProfitAmount => f.profit
    case VarianceAmount => f.variance
    case VariancePctAmount => f.variancePct
  }

  /** One column of the fact table, in row order. */
  function ColumnOf(fs: seq<Fact>, a: Amount): (s: seq<Option<real>>)
    ensures |s| == |fs|
    ensures forall i :: 0 <= i < |fs| ==> s[i] == Value(fs[i], a)
  {
    Sequences.Map(fs, (f: Fact) => Value(f, a))
  }

  /** `fact_df[a].sum()`: missing values count as nothing. */
  function Total(fs: seq<Fact>, a: Amount): real {
    Stats.Sum(ColumnOf(fs, a))
  }

  lemma TotalLast(fs: seq<Fact>, a: Amount)
    requires |fs| > 0
    ensures Total(fs, a) == Total(fs[..|fs| - 1], a) + Value(fs[|fs| - 1], a).GetOr(0.0)
  {
    var s := ColumnOf(fs, a);
    var p := fs[..|fs| - 1];
    assert s[..|s| - 1] == ColumnOf(p, a) by {
      assert forall i :: 0 <= i < |p| ==> p[i] == fs[i];
    }
  }

  /** The profit of a fact row is its revenue less its cost (line 33). */
  predicate ProfitDerived(f: Fact) {
    f.profit == Minus(f.revenue, f.cost)
  }

  /** The variance of a fact row is its actual less its budget (line 34). */
  predicate VarianceDerived(f: Fact) {
    f.variance == Minus(f.actual, f.budget)
  }

  /** Where column `d` is `a - b` row by row and both are known everywhere,
      the total of `d` is the total of `a` less the total of `b`. */
  lemma {:induction false} TotalDifference(fs: seq<Fact>, a: Amount, b: Amount, d: Amount)
    requires forall i :: 0 <= i < |fs| ==> Value(fs[i], a).Some? && Value(fs[i], b).Some?
    requires forall i :: 0 <= i < |fs| ==> Value(fs[i], d) == Minus(Value(fs[i], a), Value(fs[i], b))
    ensures Total(fs, d) == Total(fs, a) - Total(fs, b)
    decreases |fs|
  {
    if fs != [] {
      var n := |fs| - 1;
      var p := fs[..n];
      assert forall i :: 0 <= i < |p| ==> p[i] == fs[i];
      TotalDifference(p, a, b, d);
      TotalLast(fs, a);
      TotalLast(fs, b);
      TotalLast(fs, d);
      var x, y := Value(fs[n], a), Value(fs[n], b);
      assert Value(fs[n], d).GetOr(0.0) == x.GetOr(0.0) - y.GetOr(0.0);
    }
  }

  /** Total Profit is Total Revenue less Total Cost when no revenue or cost
      is missing. */
  lemma TotalProfit(fs: seq<Fact>)
    requires forall i :: 0 <= i < |fs| ==> ProfitDerived(fs[i]) && fs[i].revenue.Some? && fs[i].cost.Some?
    ensures Total(fs, ProfitAmount) == Total(fs, RevenueAmount) - Total(fs, CostAmount)
  {
    TotalDifference(fs, RevenueAmount, CostAmount, ProfitAmount);
  }

  /** The variance total is the actual total less the budget total when no
      budget or actual amount is missing. */
  lemma TotalVariance(fs: seq<Fact>)
    requires forall i :: 0 <= i < |fs| ==> VarianceDerived(fs[i]) && fs[i].actual.Some? && fs[i].budget.Some?
    ensures Total(fs, VarianceAmount) == Total(fs, ActualAmount) - Total(fs, BudgetAmount)
  {
    TotalDifference(fs, ActualAmount, BudgetAmount, VarianceAmount);
  }

  /** No row has a value in column `a`. */
  predicate AllMissing(fs: seq<Fact>, a: Amount) {
    forall i :: 0 <= i < |fs| ==> Value(fs[i], a).None?
  }

  /** `fact_df[a].mean()`: missing when the column has no value. */
  function Average(fs: seq<Fact>, a: Amount): (r: Option<real>)
    ensures r.None? <==> AllMissing(fs, a)
  {
    Stats.Mean(ColumnOf(fs, a))
  }

  /** With no value missing, the mean is the total over the number of rows. */
  lemma AverageAllPresent(fs: seq<Fact>, a: Amount)
    requires |fs| > 0
    requires forall i :: 0 <= i < |fs| ==> Value(fs[i], a).Some?
    ensures Average(fs, a) == Some(Total(fs, a) / |fs| as real)
  {
    Stats.CountAllPresent(ColumnOf(fs, a));
  }

  /** With every budget and actual amount known, Avg Budget Variance is the
      gap between the two totals spread over all rows. */
  lemma AverageVariance(fs: seq<Fact>)
    requires |fs| > 0
    requires forall i :: 0 <= i < |fs| ==> VarianceDerived(fs[i]) && fs[i].actual.Some? && fs[i].budget.Some?
    ensures Average(fs, VarianceAmount) == Some((Total(fs, ActualAmount) - Total(fs, BudgetAmount)) / |fs| as real)
  {
    VarianceKnown(fs);
    AverageAllPresent(fs, VarianceAmount);
    TotalVariance(fs);
  }

  lemma VarianceKnown(fs: seq<Fact>)
    requires forall i :: 0 <= i < |fs| ==> VarianceDerived(fs[i]) && fs[i].actual.Some? && fs[i].budget.Some?
    ensures forall i :: 0 <= i < |fs| ==> Value(fs[i], VarianceAmount).Some?
  {
    forall i | 0 <= i < |fs| ensures Value(fs[i], VarianceAmount).Some? {
      assert VarianceDerived(fs[i]);
    }
  }

  // ---------------------------------------------------------------------------
  // Loss ratio (lines 76-79)
  // ---------------------------------------------------------------------------

  /** `product_category == 'Insurance'`: exact, and false for NaN. */
  predicate IsInsurance(f: Fact) {
    f.productCategory == Some("Insurance")
  }

  /** The rows the Insurance mask selects, in order. */
  function InsuranceFacts(fs: seq<Fact>): (r: seq<Fact>)
    ensures |r| <= |fs|
    ensures forall i :: 0 <= i < |r| ==> IsInsurance(r[i]) && r[i] in fs
    ensures forall i :: 0 <= i < |fs| && IsInsurance(fs[i]) ==> fs[i] in r
  {
    if fs == [] then []
    else
      var n := |fs| - 1;
      var p := InsuranceFacts(fs[..n]);
      assert fs == fs[..n] + [fs[n]];
      if IsInsurance(fs[n]) then p + [fs[n]] else p
  }

  function InsuranceRevenue(fs: seq<Fact>): real {
    Total(InsuranceFacts(fs), RevenueAmount)
  }

  function InsuranceClaims(fs: seq<Fact>): real {
    Total(InsuranceFacts(fs), ClaimAmount)
  }

  /** `r` is Insurance claims over Insurance revenue when that revenue is
      positive, and 0 otherwise, negative revenue included. */
  predicate IsLossRatio(fs: seq<Fact>, r: real) {
    RatioOf(InsuranceClaims(fs), InsuranceRevenue(fs), r)
  }

  /** `r` is `claims` over `revenue` when `revenue` is positive, 0 otherwise. */
  predicate RatioOf(claims: real, revenue: real, r: real) {
    && (revenue > 0.0 ==> r * revenue == claims)
    && (revenue <= 0.0 ==> r == 0.0)
  }

  /** Loss Ratio (lines 76-79). */
  function LossRatio(fs: seq<Fact>): (r: real)
    ensures IsLossRatio(fs, r)
  {
    var revenue := InsuranceRevenue(fs);
    if revenue > 0.0 then InsuranceClaims(fs) / revenue else 0.0
  }

  /** Rows of any other category, and rows without one, leave the loss
      ratio as it was. */
  lemma LossRatioIgnoresOthers(fs: seq<Fact>, g: Fact)
    requires !IsInsurance(g)
    ensures LossRatio(fs + [g]) == LossRatio(fs)
  {
    assert (fs + [g])[..|fs|] == fs;
    assert InsuranceFacts(fs + [g]) == InsuranceFacts(fs);
  }

  /** The mask is case-sensitive: an `insurance` row does not count. */
  lemma LowerCaseInsuranceIgnored(fs: seq<Fact>, g: Fact)
    requires g.productCategory == Some("insurance")
    ensures LossRatio(fs + [g]) == LossRatio(fs)
  {
    assert "insurance"[0] != "Insurance"[0];
    LossRatioIgnoresOthers(fs, g);
  }

  /** An Insurance row appended adds its revenue and its claim to the
      Insurance totals. */
  lemma InsuranceAppend(fs: seq<Fact>, g: Fact)
    requires IsInsurance(g)
    ensures InsuranceRevenue(fs + [g]) == InsuranceRevenue(fs) + g.revenue.GetOr(0.0)
    ensures InsuranceClaims(fs + [g]) == InsuranceClaims(fs) + g.claim.GetOr(0.0)
  {
    var p := InsuranceFacts(fs);
    assert (fs + [g])[..|fs|] == fs;
    var q := InsuranceFacts(fs + [g]);
    assert q == p + [g];
    assert q[..|q| - 1] == p;
    TotalLast(q, RevenueAmount);
    TotalLast(q, ClaimAmount);
  }

  /** An Insurance row appended with revenue but no claim lowers a positive
      ratio whose claims are positive. */
  lemma LossRatioDilutes(fs: seq<Fact>, g: Fact)
    requires IsInsurance(g) && g.claim.None? && g.revenue.Some? && g.revenue.value > 0.0
    requires InsuranceRevenue(fs) > 0.0 && InsuranceClaims(fs) > 0.0
    ensures LossRatio(fs + [g]) < LossRatio(fs)
  {
    InsuranceAppend(fs, g);
    Dilution(InsuranceClaims(fs), InsuranceRevenue(fs), g.revenue.value, LossRatio(fs), LossRatio(fs + [g]));
  }

  /** The ratio arithmetic behind `LossRatioDilutes`. */
  lemma Dilution(claims: real, rev: real, extra: real, a: real, b: real)
    requires rev > 0.0 && claims > 0.0 && extra > 0.0
    requires RatioOf(claims, rev, a) && RatioOf(claims, rev + extra, b)
    ensures b < a
  {
    PositiveFactor(a, rev);
    assert a * (rev + extra) == a * rev + a * extra;
    PositiveProduct(a, extra);
    CancelFactor(b, a, rev + extra);
  }

  lemma PositiveFactor(x: real, y: real)
    requires y > 0.0 && x * y > 0.0
    ensures x > 0.0
  {
  }

  lemma PositiveProduct(x: real, y: real)
    requires x > 0.0 && y > 0.0
    ensures x * y > 0.0
  {
  }

  lemma CancelFactor(x: real, y: real, z: real)
    requires z > 0.0 && x * z < y * z
    ensures x < y
  {
  }

  // ---------------------------------------------------------------------------
  // Customers, retention and orders (lines 82, 100-102)
  // ---------------------------------------------------------------------------

  /** The `customer_id` column of a table of customer tuples. */
  function CustomerIds(dim: seq<Customer>): (s: seq<Option<string>>)
    ensures |s| == |dim|
    ensures forall i :: 0 <= i < |dim| ==> s[i] == dim[i].customerId
  {
    Sequences.Map(dim, (c: Customer) => c.customerId)
  }

  /** `nunique()`: the number of distinct present values. */
  function NUnique(s: seq<Option<string>>): (n: nat)
    ensures n == |Values(s)|
  {
    var u := Sequences.Distinct(Stats.Present(s));
    DistinctValues(s);
    Sequences.NoRepeatsCard(u);
    |u|
  }

  /** The distinct present values are the column's set of values. */
  lemma DistinctValues(s: seq<Option<string>>)
    ensures Values(s) == set x | x in Sequences.Distinct(Stats.Present(s))
  {
    var p := Stats.Present(s);
    var u := Sequences.Distinct(p);
    forall x | x in u ensures x in Values(s) {
      var k :| 0 <= k < |u| && u[k] == x;
      var j := Sequences.DistinctSource(p, k);
      assert Some(p[j]) in s;
    }
    forall i | 0 <= i < |s| && s[i].Some? ensures s[i].value in u {
      var j :| 0 <= j < |p| && p[j] == s[i].value;
      var k := Sequences.DistinctPosition(p, j);
    }
  }

  /** No distinct value exactly when no value is present. */
  lemma NUniqueZero(s: seq<Option<string>>)
    ensures NUnique(s) == 0 <==> forall i :: 0 <= i < |s| ==> s[i].None?
  {
    assert forall i :: 0 <= i < |s| && s[i].Some? ==> s[i].value in Values(s);
  }

  /** Total Customers: the distinct customer ids of the customer dimension,
      and at least 1 so that it can divide. */
  function TotalCustomers(dim: seq<Customer>): (n: int)
    ensures n >= 1
    ensures n >= NUnique(CustomerIds(dim))
    ensures n == NUnique(CustomerIds(dim)) || (n == 1 && forall i :: 0 <= i < |dim| ==> dim[i].customerId.None?)
  {
    var u := NUnique(CustomerIds(dim));
    NUniqueZero(CustomerIds(dim));
    if u == 0 then 1 else u
  }

  /** The present values of a text column, as a set. */
  function Values(s: seq<Option<string>>): set<string> {
    set i | 0 <= i < |s| && s[i].Some? :: s[i].value
  }

  /** The customer dimension has exactly the customer ids of the rows, so
      counting them there counts the rows' customers. */
  lemma CustomerDimIds(rows: seq<Row>)
    ensures Values(CustomerIds(CustomerDim(rows))) == Values(CustomerIds(CustomerTuples(rows)))
    ensures NUnique(CustomerIds(CustomerDim(rows))) == NUnique(CustomerIds(CustomerTuples(rows)))
  {
    DimIdsFromRows(rows);
    RowIdsInDim(rows);
  }

  lemma DimIdsFromRows(rows: seq<Row>)
    ensures Values(CustomerIds(CustomerDim(rows))) <= Values(CustomerIds(CustomerTuples(rows)))
  {
    var dim := CustomerDim(rows);
    var ids := CustomerIds(dim);
    var tuples := CustomerTuples(rows);
    var rs := CustomerIds(tuples);
    forall x | x in Values(ids) ensures x in Values(rs) {
      var i :| 0 <= i < |ids| && ids[i].Some? && ids[i].value == x;
      var j := DimIdSource(rows, i);
      assert rs[j] == tuples[j].customerId == rows[j].customerId;
      assert ids[i] == dim[i].customerId == rs[j];
    }
  }

  lemma DimIdSource(rows: seq<Row>, i: nat) returns (j: nat)
    requires i < |CustomerDim(rows)|
    ensures j < |rows| && CustomerDim(rows)[i].customerId == rows[j].customerId
  {
    var dim := CustomerDim(rows);
    j :| 0 <= j < |rows| && dim[i] == CustomerOf(rows[j]);
  }

  lemma RowIdsInDim(rows: seq<Row>)
    ensures Values(CustomerIds(CustomerTuples(rows))) <= Values(CustomerIds(CustomerDim(rows)))
  {
    var dim := CustomerDim(rows);
    var ids := CustomerIds(dim);
    var tuples := CustomerTuples(rows);
    var rs := CustomerIds(tuples);
    forall x | x in Values(rs) ensures x in Values(ids) {
      var j :| 0 <= j < |rows| && rs[j].Some? && rs[j].value == x;
      assert rs[j] == tuples[j].customerId == rows[j].customerId;
      assert CustomerOf(rows[j]) in dim;
      var i :| 0 <= i < |dim| && dim[i] == CustomerOf(rows[j]);
      assert ids[i] == dim[i].customerId == rs[j];
    }
  }

  /** `fact_df[column].sum()` of an integer column. */
  function IntTotal(s: seq<int>): (r: int)
    ensures (forall i :: 0 <= i < |s| ==> s[i] == 0) ==> r == 0
    ensures (forall i :: 0 <= i < |s| ==> s[i] >= 0) ==> r >= 0
  {
    if s == [] then 0 else IntTotal(s[..|s| - 1]) + s[|s| - 1]
  }

  /** The `churn_flag` column of the fact table. */
  function ChurnFlags(fs: seq<Fact>): (s: seq<int>)
    ensures |s| == |fs|
    ensures forall i :: 0 <= i < |fs| ==> s[i] == fs[i].churnFlag
  {
    Sequences.Map(fs, (f: Fact) => f.churnFlag)
  }

  /** The `orders_count` column of the fact table; NaN is a missing count. */
  function OrderCounts(fs: seq<Fact>): (s: seq<Option<int>>)
    ensures |s| == |fs|
    ensures forall i :: 0 <= i < |fs| ==> s[i] == fs[i].ordersCount
  {
    Sequences.Map(fs, (f: Fact) => f.ordersCount)
  }

  /** `fact_df['orders_count'].sum()`: the integer sum with a missing count
      (NaN) read as 0. */
  function PresentTotal(s: seq<Option<int>>): (r: int)
    ensures (forall i :: 0 <= i < |s| ==> s[i].None?) ==> r == 0
    ensures (forall i :: 0 <= i < |s| ==> s[i].GetOr(0) >= 0) ==> r >= 0
  {
    IntTotal(Sequences.Map(s, (o: Option<int>) => o.GetOr(0)))
  }

  /** `r` is 1 less the churn flags' sum per customer. */
  predicate IsRetention(fs: seq<Fact>, customers: int, r: real) {
    (1.0 - r) * customers as real == IntTotal(ChurnFlags(fs)) as real
  }

  /** `r` is the orders' sum per customer. */
  predicate IsAvgOrders(fs: seq<Fact>, customers: int, r: real) {
    r * customers as real == PresentTotal(OrderCounts(fs)) as real
  }

  /** Customer Retention Rate. */
  function Retention(fs: seq<Fact>, customers: int): (r: real)
    requires customers >= 1
    ensures IsRetention(fs, customers, r)
  {
    1.0 - IntTotal(ChurnFlags(fs)) as real / customers as real
  }

  /** Avg Orders per Customer. */
  function AvgOrders(fs: seq<Fact>, customers: int): (r: real)
    requires customers >= 1
    ensures IsAvgOrders(fs, customers, r)
  {
    PresentTotal(OrderCounts(fs)) as real / customers as real
  }

  /** A row whose order count is missing leaves Avg Orders per Customer as
      it was. */
  lemma AvgOrdersIgnoresMissing(fs: seq<Fact>, g: Fact, customers: int)
    requires customers >= 1 && g.ordersCount.None?
    ensures AvgOrders(fs + [g], customers) == AvgOrders(fs, customers)
  {
    var f := (o: Option<int>) => o.GetOr(0);
    var s := Sequences.Map(OrderCounts(fs + [g]), f);
    var p := Sequences.Map(OrderCounts(fs), f);
    assert s == p + [0] by {
      assert forall i :: 0 <= i < |fs| ==> (fs + [g])[i] == fs[i];
    }
    IntTotalZero(p);
  }

  lemma IntTotalZero(s: seq<int>)
    ensures IntTotal(s + [0]) == IntTotal(s)
  {
    assert (s + [0])[..|s|] == s;
  }

  lemma {:induction false} IntTotalBounds(s: seq<int>)
    requires forall i :: 0 <= i < |s| ==> 0 <= s[i] <= 1
    ensures 0 <= IntTotal(s) <= |s|
    decreases |s|
  {
    if s != [] {
      var p := s[..|s| - 1];
      assert forall i :: 0 <= i < |p| ==> p[i] == s[i];
      IntTotalBounds(p);
    }
  }

  /** With 0/1 churn flags and no more rows than customers, the retention
      rate lies between 0 and 1. */
  lemma RetentionInUnitRange(fs: seq<Fact>, customers: int)
    requires customers >= 1 && |fs| <= customers
    requires forall i :: 0 <= i < |fs| ==> 0 <= fs[i].churnFlag <= 1
    ensures 0.0 <= Retention(fs, customers) <= 1.0
  {
    IntTotalBounds(ChurnFlags(fs));
    UnitFraction(IntTotal(ChurnFlags(fs)) as real, customers as real);
  }

  lemma UnitFraction(c: real, n: real)
    requires 0.0 <= c <= n && n > 0.0
    ensures 0.0 <= c / n <= 1.0
  {
  }

  /** The flags are summed per row, not per customer: one customer churned
      on two rows gives a retention rate of -1. */
  lemma RetentionCanBeNegative(f: Fact)
    requires f.churnFlag == 1
    ensures Retention([f, f], 1) == -1.0
  {
    var s := ChurnFlags([f, f]);
    assert s == [1, 1];
    assert s[..1] == [1] && s[..1][..0] == [];
    assert IntTotal(s[..1]) == 1;
    assert IntTotal(s) == 2;
  }

  // ---------------------------------------------------------------------------
  // The metrics record
  // ---------------------------------------------------------------------------

  /** The numeric entries of the metrics dictionary. */
  datatype Report = Report(
    totalRevenue: real,
    totalCost: real,
    totalProfit: real,
    totalBudget: real,
    totalActualSpend: real,
    avgBudgetVariance: Option<real>,
    avgBudgetVariancePct: Option<real>,
    lossRatio: real,
    totalCustomers: int,
    customerRetentionRate: real,
    avgOrdersPerCustomer: real)

  /** `calculate_dax_metrics` (lines 71-102) without its text entries. */
  function CalculateMetrics(fs: seq<Fact>, dim: seq<Customer>): (m: Report)
    ensures m.totalRevenue == Total(fs, RevenueAmount) && m.totalCost == Total(fs, CostAmount)
    ensures m.totalProfit == Total(fs, ProfitAmount)
    ensures m.totalBudget == Total(fs, BudgetAmount) && m.totalActualSpend == Total(fs, ActualAmount)
    ensures m.avgBudgetVariance.None? <==> AllMissing(fs, VarianceAmount)
    ensures m.avgBudgetVariancePct.None? <==> AllMissing(fs, VariancePctAmount)
    ensures IsLossRatio(fs, m.lossRatio)
    ensures m.totalCustomers == TotalCustomers(dim)
    ensures m.avgBudgetVariance == Average(fs, VarianceAmount)
    ensures m.avgBudgetVariancePct == Average(fs, VariancePctAmount)
    ensures IsRetention(fs, m.totalCustomers, m.customerRetentionRate)
    ensures IsAvgOrders(fs, m.totalCustomers, m.avgOrdersPerCustomer)
  {
    var customers := TotalCustomers(dim);
    var variance, pct := Average(fs, VarianceAmount), Average(fs, VariancePctAmount);
    var loss := LossRatio(fs);
    var retention := Retention(fs, customers);
    var orders := AvgOrders(fs, customers);
    Report(Total(fs, RevenueAmount), Total(fs, CostAmount), Total(fs, ProfitAmount),
           Total(fs, BudgetAmount), Total(fs, ActualAmount), variance, pct,
           loss, customers, retention, orders)
  }
}

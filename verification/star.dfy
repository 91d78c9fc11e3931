/** `create_star_schema` of dashboardprep.py (lines 17-69): the fact table
    with its derived measures, and the customer, date and product dimension
    tables, each a distinct projection of the input rows. */
module Star {
  import opened Wrappers
  import opened Numeric
  import opened Records
  import Sequences

  // ---------------------------------------------------------------------------
  // Fact table (lines 19-45)
  // ---------------------------------------------------------------------------

  /** One row of `fact_transactions`; amounts are missing (NaN) or numbers. */
  datatype Fact = Fact(
    transactionId: Option<string>,
    date: Option<CalendarDate>,
    customerId: Option<string>,
    productCategory: Option<string>,
    budget: Option<real>,
    actual: Option<real>,
    cost: Option<real>,
    revenue: Option<real>,
    claimFlag: int,
    claim: Option<real>,
    churnFlag: int,
    ordersCount: Option<int>,
    profit: Option<real>,
    variance: Option<real>,
    variancePct: Option<real>)

  /** Column subtraction: NaN when either side is NaN. */
  function Minus(a: Option<real>, b: Option<real>): (r: Option<real>)
    ensures r.Some? <==> a.Some? && b.Some?
    ensures r.Some? ==> r.value + b.value == a.value
  {
    if a.Some? && b.Some? then Some(a.value - b.value) else None
  }

  /** Lines 35-39: the variance over the budget where the budget is not 0;
      NaN where it is 0, and NaN where either side is already NaN. */
  function VariancePct(variance: Option<real>, budget: Option<real>): (r: Option<real>)
    ensures r.Some? <==> variance.Some? && budget.Some? && budget.value != 0.0
    ensures r.Some? ==> r.value * budget.value == variance.value
  {
    if variance.Some? && budget.Some? && budget.value != 0.0 then Some(variance.value / budget.value) else None
  }

  /** Lines 25-39 for one row whose amounts are already converted. */
  function FactFrom(r: Row, budget: Option<real>, actual: Option<real>, cost: Option<real>,
                    revenue: Option<real>, claim: Option<real>): (f: Fact)
    ensures f.transactionId == r.transactionId && f.date == r.date && f.customerId == r.customerId
    ensures f.productCategory == r.productCategory
    ensures f.budget == budget && f.actual == actual && f.cost == cost && f.revenue == revenue && f.claim == claim
    ensures f.claimFlag == r.claimFlag && f.churnFlag == r.churnFlag && f.ordersCount == r.ordersCount
    ensures f.profit.Some? <==> revenue.Some? && cost.Some?
    ensures f.profit.Some? ==> f.profit.value == revenue.value - cost.value
    ensures f.variance.Some? <==> actual.Some? && budget.Some?
    ensures f.variance.Some? ==> f.variance.value == actual.value - budget.value
    ensures f.variancePct.Some? <==> f.variance.Some? && budget.value != 0.0
    ensures f.variancePct.Some? ==> f.variancePct.value * budget.value == f.variance.value
  {
    var variance := Minus(actual, budget);
    var pct := VariancePct(variance, budget);
    Fact(r.transactionId, r.date, r.customerId, r.productCategory, budget, actual, cost, revenue,
         r.claimFlag, claim, r.churnFlag, r.ordersCount, Minus(revenue, cost), variance, pct)
  }

  /** Lines 20-22 and 25-39 for one row: each amount through
      `convert_to_float`, then the derived measures. */
  function FactOf(r: Row): (f: Fact)
    ensures f.transactionId == r.transactionId && f.date == r.date && f.customerId == r.customerId
    ensures f.productCategory == r.productCategory
    ensures f.claimFlag == r.claimFlag && f.churnFlag == r.churnFlag && f.ordersCount == r.ordersCount
    ensures f.budget == ConvertToFloat(r.budget) && f.actual == ConvertToFloat(r.actual)
    ensures f.cost == ConvertToFloat(r.cost) && f.revenue == ConvertToFloat(r.revenue)
    ensures f.claim == ConvertToFloat(r.claim)
    ensures f.profit == Minus(f.revenue, f.cost) && f.variance == Minus(f.actual, f.budget)
    ensures f.variancePct == VariancePct(f.variance, f.budget)
  {
    var budget, actual := ConvertToFloat(r.budget), ConvertToFloat(r.actual);
    var cost, revenue := ConvertToFloat(r.cost), ConvertToFloat(r.revenue);
    FactFrom(r, budget, actual, cost, revenue, ConvertToFloat(r.claim))
  }

  /** A row's profit and variance: the difference of its two amounts when
      both are numbers, missing when either is missing. */
  lemma FactOfMeasures(r: Row)
    ensures r.revenue.Num? && r.cost.Num? ==> FactOf(r).profit == Some(r.revenue.number - r.cost.number)
    ensures r.revenue.Missing? || r.cost.Missing? ==> FactOf(r).profit.None?
    ensures r.actual.Num? && r.budget.Num? ==> FactOf(r).variance == Some(r.actual.number - r.budget.number)
    ensures r.actual.Missing? || r.budget.Missing? ==> FactOf(r).variance.None?
  {
    FactProfit(r);
    FactVariance(r);
  }

  lemma FactProfit(r: Row)
    ensures r.revenue.Num? && r.cost.Num? ==> FactOf(r).profit == Some(r.revenue.number - r.cost.number)
    ensures r.revenue.Missing? || r.cost.Missing? ==> FactOf(r).profit.None?
  {
    var f := FactOf(r);
    ConvertedDifference(r.revenue, r.cost, f.revenue, f.cost, f.profit);
  }

  lemma FactVariance(r: Row)
    ensures r.actual.Num? && r.budget.Num? ==> FactOf(r).variance == Some(r.actual.number - r.budget.number)
    ensures r.actual.Missing? || r.budget.Missing? ==> FactOf(r).variance.None?
  {
    var f := FactOf(r);
    ConvertedDifference(r.actual, r.budget, f.actual, f.budget, f.variance);
  }

  /** A difference of two converted amounts. */
  lemma ConvertedDifference(a: Cell, b: Cell, x: Option<real>, y: Option<real>, d: Option<real>)
    requires x == ConvertToFloat(a) && y == ConvertToFloat(b) && d == Minus(x, y)
    ensures a.Num? && b.Num? ==> d == Some(a.number - b.number)
    ensures a.Missing? || b.Missing? ==> d.None?
  {
  }

  /** The fact table: one row per input row, in input order. */
  function Facts(rows: seq<Row>): (f: seq<Fact>)
    ensures |f| == |rows|
    ensures forall i :: 0 <= i < |rows| ==> f[i] == FactOf(rows[i])
  {
    Sequences.Map(rows, FactOf)
  }

  /** A zero budget gives a missing percentage, whatever the variance. */
  lemma ZeroBudgetNoPct(r: Row)
    requires ConvertToFloat(r.budget) == Some(0.0)
    ensures FactOf(r).variancePct.None?
  {
  }

  // ---------------------------------------------------------------------------
  // Customer dimension (lines 47-49)
  // ---------------------------------------------------------------------------

  /** One row of `dim_customers`. */
  datatype Customer = Customer(customerId: Option<string>, segment: Option<string>,
                               region: Option<string>, country: Option<string>)

  function CustomerOf(r: Row): Customer {
    Customer(r.customerId, r.segment, r.region, r.country)
  }

  function CustomerTuples(rows: seq<Row>): (c: seq<Customer>)
    ensures |c| == |rows|
    ensures forall i :: 0 <= i < |rows| ==> c[i] == CustomerOf(rows[i])
  {
    Sequences.Map(rows, CustomerOf)
  }

  /** `drop_duplicates()` over the four customer columns: every tuple of the
      input once, nothing else. */
  function CustomerDim(rows: seq<Row>): (d: seq<Customer>)
    ensures |d| <= |rows|
    ensures forall i, j :: 0 <= i < j < |d| ==> d[i] != d[j]
    ensures forall i :: 0 <= i < |rows| ==> CustomerOf(rows[i]) in d
    ensures forall i :: 0 <= i < |d| ==> exists j :: 0 <= j < |rows| && d[i] == CustomerOf(rows[j])
  {
    CustomerSources(rows);
    Sequences.Distinct(CustomerTuples(rows))
  }

  lemma CustomerSources(rows: seq<Row>)
    ensures var d := Sequences.Distinct(CustomerTuples(rows));
            forall i :: 0 <= i < |d| ==> exists j :: 0 <= j < |rows| && d[i] == CustomerOf(rows[j])
  {
    var tuples := CustomerTuples(rows);
    var d := Sequences.Distinct(tuples);
    forall i | 0 <= i < |d| ensures exists j :: 0 <= j < |rows| && d[i] == CustomerOf(rows[j]) {
      var j :| 0 <= j < |tuples| && tuples[j] == d[i];
    }
  }

  /** The dimension is keyed on the whole tuple, not the id: one customer id
      with two segments gives two rows with that id. */
  lemma CustomerIdRepeats(a: Row, b: Row)
    requires a.customerId == b.customerId && a.segment != b.segment
    ensures exists i, j :: 0 <= i < j < |CustomerDim([a, b])|
                           && CustomerDim([a, b])[i].customerId == CustomerDim([a, b])[j].customerId
  {
    var d := CustomerDim([a, b]);
    var rows := [a, b];
    assert CustomerOf(rows[0]) in d && CustomerOf(rows[1]) in d;
    var i :| 0 <= i < |d| && d[i] == CustomerOf(a);
    var j :| 0 <= j < |d| && d[j] == CustomerOf(b);
    assert i != j;
    var lo, hi := if i < j then i else j, if i < j then j else i;
    assert d[lo].customerId == d[hi].customerId;
  }

  // ---------------------------------------------------------------------------
  // Date dimension (lines 51-58)
  // ---------------------------------------------------------------------------

  /** One row of `dim_date`. The NaT of a missing date is a row of its own,
      whose calendar attributes are all NaN. */
  datatype DateRow =
    | KnownDate(date: CalendarDate, day: int, month: int, year: int, quarter: int, monthYear: (int, int))
    | UnknownDate

  /** The calendar quarter of a month. */
  function Quarter(month: int): (q: int)
    requires 1 <= month <= 12
    ensures 1 <= q <= 4
    ensures 3 * q - 2 <= month <= 3 * q
  {
    (month - 1) / 3 + 1
  }

  function DateRowOf(d: Option<CalendarDate>): (r: DateRow)
    ensures r.UnknownDate? <==> d.None?
    ensures r.KnownDate? ==> r.date == d.value && r.day == d.value.day && r.month == d.value.month
                             && r.year == d.value.year
    ensures r.KnownDate? ==> 1 <= r.quarter <= 4 && 3 * r.quarter - 2 <= r.month <= 3 * r.quarter
    ensures r.KnownDate? ==> r.monthYear == (r.year, r.month)
  {
    match d
    case None => UnknownDate
    case Some(x) => KnownDate(x, x.day, x.month, x.year, Quarter(x.month), (x.year, x.month))
  }

  function DateRows(ds: seq<Option<CalendarDate>>): (r: seq<DateRow>)
    ensures |r| == |ds|
    ensures forall i :: 0 <= i < |ds| ==> r[i] == DateRowOf(ds[i])
  {
    Sequences.Map(ds, DateRowOf)
  }

  /** `unique()` of the date column, NaT included, with its calendar
      attributes: one row per distinct date, and every row's date occurs. */
  function DateDim(rows: seq<Row>): (d: seq<DateRow>)
    ensures |d| <= |rows|
    ensures forall i, j :: 0 <= i < j < |d| ==> d[i] != d[j]
    ensures forall i :: 0 <= i < |rows| ==> DateRowOf(rows[i].date) in d
    ensures forall i :: 0 <= i < |d| ==> exists j :: 0 <= j < |rows| && d[i] == DateRowOf(rows[j].date)
  {
    var u := Sequences.Distinct(Dates(rows));
    DateRowsDistinct(u);
    DateRowsCover(rows);
    DateRowsSources(rows);
    DateRows(u)
  }

  lemma DateRowsDistinct(u: seq<Option<CalendarDate>>)
    requires forall i, j :: 0 <= i < j < |u| ==> u[i] != u[j]
    ensures forall i, j :: 0 <= i < j < |u| ==> DateRows(u)[i] != DateRows(u)[j]
  {
    var d := DateRows(u);
    forall i, j | 0 <= i < j < |d| ensures d[i] != d[j] {
      if d[i] == d[j] {
        DateRowOfInjective(u[i], u[j]);
      }
    }
  }

  lemma DateRowsCover(rows: seq<Row>)
    ensures forall i :: 0 <= i < |rows| ==> DateRowOf(rows[i].date) in DateRows(Sequences.Distinct(Dates(rows)))
  {
    var dates := Dates(rows);
    var d := DateRows(Sequences.Distinct(dates));
    forall i | 0 <= i < |rows| ensures DateRowOf(rows[i].date) in d {
      var k := Sequences.DistinctPosition(dates, i);
      assert d[k] == DateRowOf(rows[i].date);
    }
  }

  lemma DateRowsSources(rows: seq<Row>)
    ensures forall i :: 0 <= i < |DateRows(Sequences.Distinct(Dates(rows)))| ==>
              exists j :: 0 <= j < |rows| && DateRows(Sequences.Distinct(Dates(rows)))[i] == DateRowOf(rows[j].date)
  {
    var dates := Dates(rows);
    var u := Sequences.Distinct(dates);
    var d := DateRows(u);
    forall i | 0 <= i < |d| ensures exists j :: 0 <= j < |rows| && d[i] == DateRowOf(rows[j].date) {
      var j := Sequences.DistinctSource(dates, i);
      assert u[i] == dates[j] == rows[j].date;
      assert d[i] == DateRowOf(rows[j].date);
    }
  }

  lemma DateRowOfInjective(a: Option<CalendarDate>, b: Option<CalendarDate>)
    requires DateRowOf(a) == DateRowOf(b)
    ensures a == b
  {
  }

  // ---------------------------------------------------------------------------
  // Product dimension (lines 60-67)
  // ---------------------------------------------------------------------------

  datatype ProductType = RiskProducts | TransactionalProducts

  /** One row of `dim_products`. */
  datatype Product = Product(category: Option<string>, productType: ProductType)

  /** `isin(['Insurance', 'Loans'])`: exact, case-sensitive; NaN is in neither. */
  function ProductTypeOf(category: Option<string>): (t: ProductType)
    ensures t == RiskProducts <==> category == Some("Insurance") || category == Some("Loans")
  {
    if category == Some("Insurance") || category == Some("Loans") then RiskProducts else TransactionalProducts
  }

  function Products(cs: seq<Option<string>>): (p: seq<Product>)
    ensures |p| == |cs|
    ensures forall i :: 0 <= i < |cs| ==> p[i].category == cs[i]
    ensures forall i :: 0 <= i < |cs| ==> p[i].productType == ProductTypeOf(cs[i])
  {
    Sequences.Map(cs, (c: Option<string>) => Product(c, ProductTypeOf(c)))
  }

  function CategoryColumn(rows: seq<Row>): (c: seq<Option<string>>)
    ensures |c| == |rows|
    ensures forall i :: 0 <= i < |rows| ==> c[i] == rows[i].productCategory
  {
    Sequences.Map(rows, (r: Row) => r.productCategory)
  }

  /** `dim_products`: one row per distinct category (NaN included), each
      with its product type. */
  function ProductDim(rows: seq<Row>): (d: seq<Product>)
    ensures |d| <= |rows|
    ensures forall i, j :: 0 <= i < j < |d| ==> d[i].category != d[j].category
    ensures forall i :: 0 <= i < |d| ==> d[i].productType == ProductTypeOf(d[i].category)
  {
    Products(Sequences.Distinct(CategoryColumn(rows)))
  }

  /** Every row's category has its product row. */
  lemma ProductDimCovers(rows: seq<Row>)
    ensures forall i :: 0 <= i < |rows| ==>
              exists k :: 0 <= k < |ProductDim(rows)| && ProductDim(rows)[k].category == rows[i].productCategory
  {
    var d := ProductDim(rows);
    forall i | 0 <= i < |rows|
      ensures exists k :: 0 <= k < |d| && d[k].category == rows[i].productCategory
    {
      var k := Sequences.DistinctPosition(CategoryColumn(rows), i);
      assert d[k].category == rows[i].productCategory;
    }
  }

  /** Every product row's category occurs in the table. */
  lemma ProductDimSources(rows: seq<Row>)
    ensures forall k :: 0 <= k < |ProductDim(rows)| ==>
              exists i :: 0 <= i < |rows| && ProductDim(rows)[k].category == rows[i].productCategory
  {
    var d := ProductDim(rows);
    forall k | 0 <= k < |d|
      ensures exists i :: 0 <= i < |rows| && d[k].category == rows[i].productCategory
    {
      var i := Sequences.DistinctSource(CategoryColumn(rows), k);
      assert d[k].category == rows[i].productCategory;
    }
  }

  /** The product rows follow the order in which categories first appear. */
  lemma ProductDimOrder(rows: seq<Row>)
    ensures forall i, j :: 0 <= i < j < |ProductDim(rows)| ==>
              Sequences.SeenBefore(CategoryColumn(rows), ProductDim(rows)[i].category, ProductDim(rows)[j].category)
  {
    Sequences.DistinctOrder(CategoryColumn(rows));
  }

  /** The classification is case-sensitive: `insurance` is transactional. */
  lemma LowerCaseIsTransactional()
    ensures ProductTypeOf(Some("insurance")) == TransactionalProducts
  {
    assert "insurance"[0] != "Insurance"[0];
  }
}

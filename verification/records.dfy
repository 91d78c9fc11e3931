/** The rows of the financial transactions table shared by the cleaning and
    the star-schema scripts (cleandata.py, dashboardprep.py). */
module Records {
  import opened Wrappers
  import opened Numeric
  import Sequences

  // ---------------------------------------------------------------------------
  // Calendar dates
  // ---------------------------------------------------------------------------

  /** A date as `pd.to_datetime` yields it once the text is parsed. */
  datatype Date = Date(year: int, month: int, day: int)

  /** Gregorian leap years. */
  predicate IsLeapYear(year: int) {
    year % 4 == 0 && (year % 100 != 0 || year % 400 == 0)
  }

  function DaysInMonth(year: int, month: int): (n: int)
    requires 1 <= month <= 12
    ensures 28 <= n <= 31
    ensures month == 2 ==> (n == 29 <==> IsLeapYear(year))
  {
    if month == 2 then (if IsLeapYear(year) then 29 else 28)
    else if month == 4 || month == 6 || month == 9 || month == 11 then 30
    else 31
  }

  predicate ValidDate(d: Date) {
    1 <= d.month <= 12 && 1 <= d.day <= DaysInMonth(d.year, d.month)
  }

  /** The dates of the calendar. */
  type CalendarDate = d: Date | ValidDate(d) witness Date(2000, 1, 1)

  /** Chronological order: year, then month, then day. */
  predicate DateLe(a: Date, b: Date) {
    a.year < b.year || (a.year == b.year && (a.month < b.month || (a.month == b.month && a.day <= b.day)))
  }

  // ---------------------------------------------------------------------------
  // Rows
  // ---------------------------------------------------------------------------

  /** One transaction. Text columns are missing (`None`) or text; the five
      amount columns hold raw cells until they are normalised; the flags are
      integers; the order count is never cleaned and may be missing (NaN). The `location` column does not exist
      until the cleaner builds it, and is missing until then. */
  datatype Row = Row(
    transactionId: Option<string>,
    date: Option<CalendarDate>,
    customerId: Option<string>,
    region: Option<string>,
    segment: Option<string>,
    productCategory: Option<string>,
    country: Option<string>,
    location: Option<string>,
    budget: Cell,
    actual: Cell,
    cost: Cell,
    revenue: Cell,
    claim: Cell,
    claimFlag: int,
    churnFlag: int,
    ordersCount: Option<int>)

  /** The five amount columns, in the order the scripts list them. */
  datatype Measure = Budget | Actual | Cost | Revenue | Claim

  const Measures: seq<Measure> := [Budget, Actual, Cost, Revenue, Claim]

  /** The four amount columns whose sign is dropped after cleaning. */
  const MonetaryMeasures: seq<Measure> := [Budget, Actual, Cost, Revenue]

  lemma AllMeasures()
    ensures forall m :: m in Measures
  {
    forall m ensures m in Measures {
      match m
      case Budget => assert Measures[0] == m;
      case Actual => assert Measures[1] == m;
      case Cost => assert Measures[2] == m;
      case Revenue => assert Measures[3] == m;
      case Claim => assert Measures[4] == m;
    }
  }

  function MeasureName(m: Measure): string {
    match m
    case Budget => "budget_amount"
    case Actual => "actual_amount"
    case Cost => "cost"
    case Revenue => "revenue"
    case Claim => "claim_amount"
  }

  function Amount(r: Row, m: Measure): Cell {
    match m
    case Budget => r.budget
    case Actual => r.actual
    case Cost => r.cost
    case Revenue => r.revenue
    case Claim => r.claim
  }

  /** The row with one amount replaced and every other column kept. */
  function WithAmount(r: Row, m: Measure, c: Cell): (s: Row)
    ensures Amount(s, m) == c
    ensures forall n :: n != m ==> Amount(s, n) == Amount(r, n)
    ensures s.transactionId == r.transactionId && s.date == r.date && s.customerId == r.customerId
    ensures s.region == r.region && s.segment == r.segment && s.productCategory == r.productCategory
    ensures s.country == r.country && s.location == r.location
    ensures s.claimFlag == r.claimFlag && s.churnFlag == r.churnFlag && s.ordersCount == r.ordersCount
  {
    match m
    case Budget => r.(budget := c)
    case Actual => r.(actual := c)
    case Cost => r.(cost := c)
    case Revenue => r.(revenue := c)
    case Claim => r.(claim := c)
  }

  /** The three categorical columns the cleaner title-cases, in its order. */
  datatype Category = Segment | ProductCategory | Country

  const Categories: seq<Category> := [Segment, ProductCategory, Country]

  lemma AllCategories()
    ensures forall c :: c in Categories
  {
    forall c ensures c in Categories {
      match c
      case Segment => assert Categories[0] == c;
      case ProductCategory => assert Categories[1] == c;
      case Country => assert Categories[2] == c;
    }
  }

  function CategoryName(c: Category): string {
    match c
    case Segment => "segment"
    case ProductCategory => "product_category"
    case Country => "country"
  }

  function Label(r: Row, c: Category): Option<string> {
    match c
    case Segment => r.segment
    case ProductCategory => r.productCategory
    case Country => r.country
  }

  /** The row with one categorical column replaced and every other column kept. */
  function WithLabel(r: Row, c: Category, v: Option<string>): (s: Row)
    ensures Label(s, c) == v
    ensures forall d :: d != c ==> Label(s, d) == Label(r, d)
    ensures forall m :: Amount(s, m) == Amount(r, m)
    ensures s.transactionId == r.transactionId && s.date == r.date && s.customerId == r.customerId
    ensures s.region == r.region && s.location == r.location
    ensures s.claimFlag == r.claimFlag && s.churnFlag == r.churnFlag && s.ordersCount == r.ordersCount
  {
    match c
    case Segment => r.(segment := v)
    case ProductCategory => r.(productCategory := v)
    case Country => r.(country := v)
  }

  /** Two rows agree on every column but the amounts. */
  predicate SameButAmounts(r: Row, s: Row) {
    && r.transactionId == s.transactionId && r.date == s.date && r.customerId == s.customerId
    && r.region == s.region && r.segment == s.segment && r.productCategory == s.productCategory
    && r.country == s.country && r.location == s.location
    && r.claimFlag == s.claimFlag && r.churnFlag == s.churnFlag && r.ordersCount == s.ordersCount
  }

  /** Rows that differ at most in their amounts have the same labels. */
  lemma SameButAmountsLabels(r: Row, s: Row)
    requires SameButAmounts(r, s)
    ensures forall c :: Label(r, c) == Label(s, c)
  {
    forall c ensures Label(r, c) == Label(s, c) {
      match c
      case Segment =>
      case ProductCategory =>
      case Country =>
    }
  }

  /** The rows agree on every column; amounts included. */
  lemma SameButAmountsEqual(r: Row, s: Row)
    requires SameButAmounts(r, s)
    requires forall m :: Amount(r, m) == Amount(s, m)
    ensures r == s
  {
    assert Amount(r, Budget) == Amount(s, Budget);
    assert Amount(r, Actual) == Amount(s, Actual);
    assert Amount(r, Cost) == Amount(s, Cost);
    assert Amount(r, Revenue) == Amount(s, Revenue);
    assert Amount(r, Claim) == Amount(s, Claim);
  }

  /** The date column of a table, in row order. */
  function Dates(rows: seq<Row>): (d: seq<Option<CalendarDate>>)
    ensures |d| == |rows|
    ensures forall i :: 0 <= i < |rows| ==> d[i] == rows[i].date
  {
    Sequences.Map(rows, (r: Row) => r.date)
  }
}

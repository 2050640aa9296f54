/** The compensation page: commission earnings per employee, the monthly and
    yearly breakdowns of revenue into company profit and commissions, the
    revenue distribution, the progress towards the earnings target and the
    recent-sales table. Amounts are exact reals: the rates 0.4 and 0.3 are
    the exact fractions, with no floating-point rounding. */
module Compensation {

  datatype Role = WebDeveloper | SalesAgent

  datatype Employee = Employee(id: int, name: string, role: Role)

  datatype Sale = Sale(id: int, date: string, projectName: string, amount: real,
                       salesAgentId: int, developerId: int)

  /** `COMMISSION_RATES[role]`. */
  function Rate(role: Role): real
  {
    match role
    case WebDeveloper => 0.4
    case SalesAgent => 0.3
  }

  const COMPANY_RATE: real := 0.3
  const EARNINGS_TARGET: real := 50000.0

  // ---------------------------------------------------------------------------
  // Sums in the order of `reduce`

  /** `sales.reduce((sum, s) => sum + s.amount, 0)`. */
  function Revenue(sales: seq<Sale>): real
  {
    if sales == [] then 0.0 else Revenue(sales[..|sales| - 1]) + sales[|sales| - 1].amount
  }

  /** `sales.reduce((sum, s) => sum + s.amount * rate, 0)`. */
  function WeightedRevenue(sales: seq<Sale>, rate: real): real
  {
    if sales == [] then 0.0 else WeightedRevenue(sales[..|sales| - 1], rate) + sales[|sales| - 1].amount * rate
  }

  /** A rate can be taken out of the sum. */
  lemma {:induction false} WeightedRevenueIsScaled(sales: seq<Sale>, rate: real)
    ensures WeightedRevenue(sales, rate) == rate * Revenue(sales)
  {
    if sales != [] {
      WeightedRevenueIsScaled(sales[..|sales| - 1], rate);
    }
  }

  lemma {:induction false} RevenueAppend(a: seq<Sale>, b: seq<Sale>)
    ensures Revenue(a + b) == Revenue(a) + Revenue(b)
  {
    if b == [] {
      assert a + b == a;
    } else {
      assert (a + b)[..|a + b| - 1] == a + b[..|b| - 1];
      RevenueAppend(a, b[..|b| - 1]);
    }
  }

  // ---------------------------------------------------------------------------
  // Earnings per employee (`employeeEarnings`)

  /** The sales an employee is paid commission on: as developer for a Web
      Developer, as sales agent for a Sales Agent. */
  predicate Credits(e: Employee, s: Sale)
  {
    || (e.role == SalesAgent && s.salesAgentId == e.id)
    || (e.role == WebDeveloper && s.developerId == e.id)
  }

  function Credited(e: Employee, sales: seq<Sale>): (r: seq<Sale>)
    ensures forall s :: s in r <==> s in sales && Credits(e, s)
    ensures |r| <= |sales|
  {
    if sales == [] then []
    else
      var last := sales[|sales| - 1];
      Credited(e, sales[..|sales| - 1]) + (if Credits(e, last) then [last] else [])
  }

  datatype Earnings = Earnings(employee: Employee, rate: real, totalEarnings: real, projectCount: nat)

  /** An employee's commission: the rate of their role times the revenue of
      the sales they are credited on. */
  function Earned(e: Employee, sales: seq<Sale>): real
  {
    Rate(e.role) * Revenue(Credited(e, sales))
  }

  datatype Tally = Tally(total: real, count: nat)

  /** The commission and the sale count accumulated sale by sale, in the
      order of the source's `forEach`. */
  function Accumulated(e: Employee, sales: seq<Sale>): Tally
  {
    if sales == [] then Tally(0.0, 0)
    else
      var prev := Accumulated(e, sales[..|sales| - 1]);
      var last := sales[|sales| - 1];
      if Credits(e, last) then Tally(prev.total + last.amount * Rate(e.role), prev.count + 1) else prev
  }

  /** Accumulating sale by sale gives the rate times the credited revenue,
      and counts the credited sales. */
  lemma {:induction false} AccumulatedIsEarned(e: Employee, sales: seq<Sale>)
    ensures Accumulated(e, sales).total == Earned(e, sales)
    ensures Accumulated(e, sales).count == |Credited(e, sales)|
  {
    if sales != [] {
      var init, last := sales[..|sales| - 1], sales[|sales| - 1];
      AccumulatedIsEarned(e, init);
      if Credits(e, last) {
        RevenueAppend(Credited(e, init), [last]);
        assert Revenue([last]) == last.amount by { assert [last][..0] == []; }
      } else {
        assert Credited(e, sales) == Credited(e, init) + [];
        assert Credited(e, init) + [] == Credited(e, init);
      }
    }
  }

  /** One employee's entry of `employeeEarnings`: the loop over the sales. */
  method EarningsOf(emp: Employee, sales: seq<Sale>) returns (r: Earnings)
    ensures r.employee == emp && r.rate == Rate(emp.role)
    ensures r.totalEarnings == Earned(emp, sales) && r.projectCount == |Credited(emp, sales)|
  {
    var rate := Rate(emp.role);
    var totalEarnings := 0.0;
    var projectCount: nat := 0;
    var j := 0;
    while j < |sales|
      invariant 0 <= j <= |sales|
      invariant Tally(totalEarnings, projectCount) == Accumulated(emp, sales[..j])
    {
      var sale := sales[j];
      assert sales[..j + 1][..j] == sales[..j];
      ghost var before := Accumulated(emp, sales[..j]);
      assert Accumulated(emp, sales[..j + 1])
          == if Credits(emp, sale) then Tally(before.total + sale.amount * rate, before.count + 1) else before;
      if emp.role == SalesAgent && sale.salesAgentId == emp.id {
        totalEarnings := totalEarnings + sale.amount * rate;
        projectCount := projectCount + 1;
      } else if emp.role == WebDeveloper && sale.developerId == emp.id {
        totalEarnings := totalEarnings + sale.amount * rate;
        projectCount := projectCount + 1;
      }
      j := j + 1;
    }
    assert sales[..j] == sales;
    AccumulatedIsEarned(emp, sales);
    r := Earnings(emp, rate, totalEarnings, projectCount);
  }

  /** `employeeEarnings`: for each employee, in order, the rate of their role,
      the commission on the sales credited to them and how many sales that is. */
  method EmployeeEarnings(employees: seq<Employee>, sales: seq<Sale>) returns (r: seq<Earnings>)
    ensures |r| == |employees|
    ensures forall i :: 0 <= i < |r| ==>
      && r[i].employee == employees[i]
      && r[i].rate == Rate(employees[i].role)
      && r[i].totalEarnings == Earned(employees[i], sales)
      && r[i].projectCount == |Credited(employees[i], sales)|
  {
    r := [];
    var k := 0;
    while k < |employees|
      invariant 0 <= k <= |employees| && |r| == k
      invariant forall i :: 0 <= i < k ==>
        && r[i].employee == employees[i]
        && r[i].rate == Rate(employees[i].role)
        && r[i].totalEarnings == Earned(employees[i], sales)
        && r[i].projectCount == |Credited(employees[i], sales)|
    {
      var entry := EarningsOf(employees[k], sales);
      r := r + [entry];
      k := k + 1;
    }
  }

  /** What one sale adds to the commissions of a list of employees. */
  function ShareOf(employees: seq<Employee>, s: Sale): real
  {
    if employees == [] then 0.0
    else (if Credits(employees[0], s) then Rate(employees[0].role) * s.amount else 0.0) + ShareOf(employees[1..], s)
  }

  /** How many employees are credited on a sale as its developer, and as its agent. */
  function DeveloperCount(employees: seq<Employee>, s: Sale): nat
  {
    if employees == [] then 0
    else (if employees[0].role == WebDeveloper && employees[0].id == s.developerId then 1 else 0)
         + DeveloperCount(employees[1..], s)
  }

  function AgentCount(employees: seq<Employee>, s: Sale): nat
  {
    if employees == [] then 0
    else (if employees[0].role == SalesAgent && employees[0].id == s.salesAgentId then 1 else 0)
         + AgentCount(employees[1..], s)
  }

  /** The fraction of a sale paid to a list of employees. */
  function Weight(employees: seq<Employee>, s: Sale): real
  {
    if employees == [] then 0.0
    else (if Credits(employees[0], s) then Rate(employees[0].role) else 0.0) + Weight(employees[1..], s)
  }

  lemma {:induction false} ShareIsWeighted(employees: seq<Employee>, s: Sale)
    ensures ShareOf(employees, s) == s.amount * Weight(employees, s)
  {
    if employees != [] {
      ShareIsWeighted(employees[1..], s);
      var w0 := if Credits(employees[0], s) then Rate(employees[0].role) else 0.0;
      assert ShareOf(employees, s) == w0 * s.amount + ShareOf(employees[1..], s);
      assert Weight(employees, s) == w0 + Weight(employees[1..], s);
      Distribute(s.amount, w0, Weight(employees[1..], s));
    }
  }

  lemma Distribute(a: real, x: real, y: real)
    ensures a * (x + y) == x * a + a * y
  {
  }

  /** A sale pays 40% to each developer and 30% to each agent credited on it. */
  lemma {:induction false} WeightCounts(employees: seq<Employee>, s: Sale)
    ensures Weight(employees, s) == 0.4 * DeveloperCount(employees, s) as real + 0.3 * AgentCount(employees, s) as real
  {
    if employees != [] {
      WeightCounts(employees[1..], s);
    }
  }

  /** The commissions of all employees together. */
  function TotalEarned(employees: seq<Employee>, sales: seq<Sale>): real
  {
    if employees == [] then 0.0 else Earned(employees[0], sales) + TotalEarned(employees[1..], sales)
  }

  lemma {:induction false} TotalEarnedStep(employees: seq<Employee>, sales: seq<Sale>, s: Sale)
    ensures TotalEarned(employees, sales + [s]) == TotalEarned(employees, sales) + ShareOf(employees, s)
  {
    if employees != [] {
      var e := employees[0];
      TotalEarnedStep(employees[1..], sales, s);
      assert (sales + [s])[..|sales + [s]| - 1] == sales;
      assert Credited(e, sales + [s]) == Credited(e, sales) + (if Credits(e, s) then [s] else []);
      RevenueAppend(Credited(e, sales), if Credits(e, s) then [s] else []);
      assert Revenue([s]) == s.amount by {
        assert [s][..0] == [];
      }
    }
  }

  /** When every sale has exactly one developer and exactly one sales agent
      among the employees, the commissions paid out and the company's 30%
      add up to the revenue: nothing is paid twice and nothing is lost. */
  lemma {:induction false} CommissionsAndProfitMakeRevenue(employees: seq<Employee>, sales: seq<Sale>)
    requires forall s :: s in sales ==> DeveloperCount(employees, s) == 1 && AgentCount(employees, s) == 1
    ensures TotalEarned(employees, sales) + COMPANY_RATE * Revenue(sales) == Revenue(sales)
  {
    if sales == [] {
      TotalEarnedNone(employees);
    } else {
      var init, s := sales[..|sales| - 1], sales[|sales| - 1];
      assert sales == init + [s];
      assert Revenue(sales) == Revenue(init) + s.amount;
      CommissionsAndProfitMakeRevenue(employees, init);
      SaleShare(employees, s);
      TotalEarnedStep(employees, init, s);
    }
  }

  /** A sale with one developer and one agent pays out 70% of its amount. */
  lemma SaleShare(employees: seq<Employee>, s: Sale)
    requires DeveloperCount(employees, s) == 1 && AgentCount(employees, s) == 1
    ensures ShareOf(employees, s) == 0.7 * s.amount
  {
    WeightCounts(employees, s);
    ShareIsWeighted(employees, s);
  }

  lemma {:induction false} TotalEarnedNone(employees: seq<Employee>)
    ensures TotalEarned(employees, []) == 0.0
  {
    if employees != [] {
      TotalEarnedNone(employees[1..]);
    }
  }

  // ---------------------------------------------------------------------------
  // Monthly breakdown (`monthlyData`)

  predicate IsDigit(c: char)
  {
    '0' <= c <= '9'
  }

  function Digit(n: int): (c: char)
    requires 0 <= n < 10
    ensures IsDigit(c) && c as int - '0' as int == n
  {
    ('0' as int + n) as char
  }

  /** `String(n).padStart(2, "0")` for a number below 100. */
  function Pad2(n: int): (r: string)
    requires 0 <= n < 100
    ensures |r| == 2 && IsDigit(r[0]) && IsDigit(r[1])
    ensures (r[0] as int - '0' as int) * 10 + (r[1] as int - '0' as int) == n
  {
    if n < 10 then ['0', Digit(n)] else [Digit(n / 10), Digit(n % 10)]
  }

  /** Different months get different tags. */
  lemma Pad2Injective(a: int, b: int)
    requires 0 <= a < 100 && 0 <= b < 100 && Pad2(a) == Pad2(b)
    ensures a == b
  {
  }

  /** The text a sale's date is searched for: `-${monthNum}-`. */
  function MonthTag(month: int): string
    requires 1 <= month <= 12
  {
    "-" + Pad2(month) + "-"
  }

  /** `t` occurs in `s` starting at position `i`. */
  predicate OccursAt(s: string, t: string, i: int)
  {
    0 <= i <= |s| - |t| && s[i..i + |t|] == t
  }

  /** JavaScript's `s.includes(t)`. */
  predicate Includes(s: string, t: string)
  {
    exists i :: 0 <= i <= |s| - |t| && OccursAt(s, t, i)
  }

  /** A `YYYY-MM-DD` date. */
  predicate WellFormedDate(d: string)
  {
    && |d| == 10 && d[4] == '-' && d[7] == '-'
    && forall k :: 0 <= k < 10 && k != 4 && k != 7 ==> IsDigit(d[k])
  }

  /** A well-formed date contains a month's tag exactly when its month field
      is that month. */
  lemma MonthTagMatch(d: string, month: int)
    requires WellFormedDate(d) && 1 <= month <= 12
    ensures Includes(d, MonthTag(month)) <==> d[5..7] == Pad2(month)
  {
    var tag := MonthTag(month);
    assert |tag| == 4 && tag[0] == '-' && tag[3] == '-' && tag[1..3] == Pad2(month);
    assert tag == ['-', tag[1], tag[2], '-'];
    if d[5..7] == Pad2(month) {
      assert d[4..8] == [d[4], d[5], d[6], d[7]];
      assert d[5] == d[5..7][0] && d[6] == d[5..7][1];
      assert OccursAt(d, tag, 4);
    }
    if Includes(d, tag) {
      var i :| 0 <= i <= |d| - |tag| && OccursAt(d, tag, i);
      assert d[i..i + 4] == tag;
      assert d[i] == d[i..i + 4][0] == '-';
      assert forall k :: 0 <= k <= 6 && k != 4 ==> d[k] != '-';
      assert i == 4;
      assert d[5] == d[i..i + 4][1] == tag[1] && d[6] == d[i..i + 4][2] == tag[2];
      assert d[5..7] == [d[5], d[6]];
    }
  }

  /** `salesData.filter(s => s.date.includes(tag))`. */
  function MonthSales(sales: seq<Sale>, tag: string): (r: seq<Sale>)
    ensures forall s :: s in r <==> s in sales && Includes(s.date, tag)
    ensures |r| <= |sales|
  {
    if sales == [] then []
    else
      var last := sales[|sales| - 1];
      MonthSales(sales[..|sales| - 1], tag) + (if Includes(last.date, tag) then [last] else [])
  }

  datatype MonthRow = MonthRow(month: string, totalRevenue: real, companyProfit: real,
                               developerCommissions: real, salesCommissions: real, projects: nat)

  const MONTHS: seq<string> := ["Jan", "Feb", "Mar", "Apr"]

  /** One row of the monthly breakdown: the month's revenue, the company's
      30%, the developers' 40% and the agents' 30%, which together are the
      month's revenue, and the number of sales in the month. */
  function MonthRowOf(sales: seq<Sale>, idx: nat): (r: MonthRow)
    requires idx < |MONTHS|
    ensures r.month == MONTHS[idx]
    ensures r.companyProfit + r.developerCommissions + r.salesCommissions == r.totalRevenue
    ensures r.totalRevenue == Revenue(MonthSales(sales, MonthTag(idx + 1)))
    ensures r.projects == |MonthSales(sales, MonthTag(idx + 1))|
    ensures r.companyProfit == COMPANY_RATE * r.totalRevenue
    ensures r.developerCommissions == Rate(WebDeveloper) * r.totalRevenue
    ensures r.salesCommissions == Rate(SalesAgent) * r.totalRevenue
  {
    var monthSales := MonthSales(sales, MonthTag(idx + 1));
    var totalRevenue := Revenue(monthSales);
    WeightedRevenueIsScaled(monthSales, Rate(WebDeveloper));
    WeightedRevenueIsScaled(monthSales, Rate(SalesAgent));
    MonthRow(MONTHS[idx], totalRevenue, totalRevenue * COMPANY_RATE,
             WeightedRevenue(monthSales, Rate(WebDeveloper)), WeightedRevenue(monthSales, Rate(SalesAgent)),
             |monthSales|)
  }

  /** `monthlyData`: the rows for January to April, in order. */
  function MonthlyData(sales: seq<Sale>): (r: seq<MonthRow>)
    ensures |r| == |MONTHS|
    ensures forall i :: 0 <= i < |r| ==> r[i] == MonthRowOf(sales, i)
  {
    seq(|MONTHS|, i requires 0 <= i < |MONTHS| => MonthRowOf(sales, i))
  }

  /** A sale dated January to April. */
  predicate InFirstFourMonths(s: Sale)
  {
    WellFormedDate(s.date) && s.date[5..7] in {"01", "02", "03", "04"}
  }

  lemma TagsOfSale(s: Sale)
    requires InFirstFourMonths(s)
    ensures var m := s.date[5..7];
      && (Includes(s.date, MonthTag(1)) <==> m == "01")
      && (Includes(s.date, MonthTag(2)) <==> m == "02")
      && (Includes(s.date, MonthTag(3)) <==> m == "03")
      && (Includes(s.date, MonthTag(4)) <==> m == "04")
  {
    MonthTagMatch(s.date, 1);
    MonthTagMatch(s.date, 2);
    MonthTagMatch(s.date, 3);
    MonthTagMatch(s.date, 4);
    assert Pad2(1) == "01" && Pad2(2) == "02" && Pad2(3) == "03" && Pad2(4) == "04";
  }

  /** When every sale is dated January to April, each lands in exactly one
      monthly row: the four rows' revenues add up to the year's revenue and
      their project counts to the number of sales. */
  lemma {:induction false} MonthsPartitionTheYear(sales: seq<Sale>)
    requires forall s :: s in sales ==> InFirstFourMonths(s)
    ensures var rows := MonthlyData(sales);
      && rows[0].totalRevenue + rows[1].totalRevenue + rows[2].totalRevenue + rows[3].totalRevenue == Revenue(sales)
      && rows[0].projects + rows[1].projects + rows[2].projects + rows[3].projects == |sales|
  {
    var rows := MonthlyData(sales);
    assert rows[0] == MonthRowOf(sales, 0) && rows[1] == MonthRowOf(sales, 1);
    assert rows[2] == MonthRowOf(sales, 2) && rows[3] == MonthRowOf(sales, 3);
    MonthSalesPartition(sales);
  }

  lemma {:induction false} MonthSalesPartition(sales: seq<Sale>)
    requires forall s :: s in sales ==> InFirstFourMonths(s)
    ensures var m1, m2, m3, m4 := MonthSales(sales, MonthTag(1)), MonthSales(sales, MonthTag(2)),
                                  MonthSales(sales, MonthTag(3)), MonthSales(sales, MonthTag(4));
      && Revenue(m1) + Revenue(m2) + Revenue(m3) + Revenue(m4) == Revenue(sales)
      && |m1| + |m2| + |m3| + |m4| == |sales|
  {
    if sales != [] {
      var init, s := sales[..|sales| - 1], sales[|sales| - 1];
      assert forall x :: x in init ==> x in sales;
      MonthSalesPartition(init);
      TagsOfSale(s);
      MonthSalesStep(sales, MonthTag(1));
      MonthSalesStep(sales, MonthTag(2));
      MonthSalesStep(sales, MonthTag(3));
      MonthSalesStep(sales, MonthTag(4));
    }
  }

  /** The last sale adds its amount and one project to the month whose tag its date includes. */
  lemma MonthSalesStep(sales: seq<Sale>, tag: string)
    requires sales != []
    ensures var init, s := sales[..|sales| - 1], sales[|sales| - 1];
      && Revenue(MonthSales(sales, tag)) == Revenue(MonthSales(init, tag)) + (if Includes(s.date, tag) then s.amount else 0.0)
      && |MonthSales(sales, tag)| == |MonthSales(init, tag)| + (if Includes(s.date, tag) then 1 else 0)
  {
    var init, s := sales[..|sales| - 1], sales[|sales| - 1];
    var piece := if Includes(s.date, tag) then [s] else [];
    RevenueAppend(MonthSales(init, tag), piece);
    assert Revenue([s]) == s.amount by { assert [s][..0] == []; }
  }

  // ---------------------------------------------------------------------------
  // Yearly totals, distribution, progress and recent sales

  datatype YearTotals = YearTotals(totalRevenue: real, companyProfit: real, totalCommissions: real, projectCount: nat)

  /** `yearlyTotals`: the company keeps 30% of the revenue, the rest is paid
      as commissions, and every sale is a project. */
  function YearlyTotals(sales: seq<Sale>): (r: YearTotals)
    ensures r.totalRevenue == Revenue(sales) && r.projectCount == |sales|
    ensures r.companyProfit + r.totalCommissions == r.totalRevenue
    ensures r.companyProfit == COMPANY_RATE * r.totalRevenue
  {
    var totalRevenue := Revenue(sales);
    YearTotals(totalRevenue, totalRevenue * COMPANY_RATE, totalRevenue * (1.0 - COMPANY_RATE), |sales|)
  }

  /** The year-to-date row of the monthly table: its developer and agent
      columns, summed sale by sale, and the company profit make up the
      revenue, and the two columns are the yearly commissions. */
  lemma YearToDateRowBalances(sales: seq<Sale>)
    ensures var y := YearlyTotals(sales);
      && WeightedRevenue(sales, 0.4) + WeightedRevenue(sales, 0.3) == y.totalCommissions
      && y.companyProfit + WeightedRevenue(sales, 0.4) + WeightedRevenue(sales, 0.3) == y.totalRevenue
  {
    WeightedRevenueIsScaled(sales, 0.4);
    WeightedRevenueIsScaled(sales, 0.3);
  }

  datatype Slice = Slice(name: string, value: real)

  /** `distributionData`: the company's, the developers' and the agents'
      slices, which together are the revenue. */
  function Distribution(sales: seq<Sale>): (r: seq<Slice>)
    ensures |r| == 3
    ensures r[0].value + r[1].value + r[2].value == Revenue(sales)
    ensures r[0].value == COMPANY_RATE * Revenue(sales) && r[1].value == Rate(WebDeveloper) * Revenue(sales)
    ensures r[2].value == Rate(SalesAgent) * Revenue(sales)
  {
    var totalRevenue := Revenue(sales);
    [Slice("Company (30%)", totalRevenue * 0.3), Slice("Developers (40%)", totalRevenue * 0.4),
     Slice("Sales (30%)", totalRevenue * 0.3)]
  }

  /** The progress bar: `Math.min(100, totalEarnings / 50000 * 100)`. It is
      full exactly from the target on, and proportional below it. */
  function Progress(totalEarnings: real): (r: real)
    ensures r <= 100.0
    ensures totalEarnings >= 0.0 ==> r >= 0.0
    ensures r == 100.0 <==> totalEarnings >= EARNINGS_TARGET
    ensures totalEarnings < EARNINGS_TARGET ==> r * EARNINGS_TARGET == totalEarnings * 100.0
  {
    var pct := totalEarnings / EARNINGS_TARGET * 100.0;
    if pct < 100.0 then pct else 100.0
  }

  /** JavaScript's `Math.round`: to the nearest integer, halves upwards. */
  function Round(x: real): (r: int)
    ensures x - 0.5 < r as real <= x + 0.5
  {
    (x + 0.5).Floor
  }

  /** The percentage printed beside the bar:
      `Math.min(100, Math.round(totalEarnings / 50000 * 100))`. */
  function ProgressLabel(totalEarnings: real): (r: int)
    ensures r <= 100
    ensures totalEarnings >= 0.0 ==> r >= 0
    ensures r == 100 <==> totalEarnings >= 49750.0
    ensures totalEarnings < 49750.0 ==> r == Round(totalEarnings / EARNINGS_TARGET * 100.0)
  {
    var rounded := Round(totalEarnings / EARNINGS_TARGET * 100.0);
    if rounded < 100 then rounded else 100
  }

  /** The printed percentage rounds up to 100% while the bar is not yet
      full: at 49,750 the label reads 100 and the bar stands at 99.5. */
  lemma LabelFullBeforeBar()
    ensures ProgressLabel(49750.0) == 100 && Progress(49750.0) == 99.5
  {
  }

  /** `list.reverse()`. */
  function Reverse<T>(s: seq<T>): (r: seq<T>)
    ensures |r| == |s|
    ensures forall i :: 0 <= i < |r| ==> r[i] == s[|s| - 1 - i]
  {
    if s == [] then [] else [s[|s| - 1]] + Reverse(s[..|s| - 1])
  }

  /** `salesData.slice(-10).reverse()`: the last ten sales (all of them when
      there are fewer), newest first. */
  function RecentSales(sales: seq<Sale>): (r: seq<Sale>)
    ensures |r| == if |sales| < 10 then |sales| else 10
    ensures forall i :: 0 <= i < |r| ==> r[i] == sales[|sales| - 1 - i]
  {
    var start := if |sales| < 10 then 0 else |sales| - 10;
    Reverse(sales[start..])
  }

  datatype SaleSplit = SaleSplit(developer: real, salesAgent: real, company: real)

  /** One recent-sales row's breakdown: 40% to the developer, 30% to the
      agent, 30% to the company, which together are the sale's amount. */
  function SplitOf(s: Sale): (r: SaleSplit)
    ensures r.developer + r.salesAgent + r.company == s.amount
    ensures r.developer == Rate(WebDeveloper) * s.amount && r.salesAgent == Rate(SalesAgent) * s.amount
    ensures r.company == COMPANY_RATE * s.amount
  {
    SaleSplit(s.amount * 0.4, s.amount * 0.3, s.amount * 0.3)
  }
}

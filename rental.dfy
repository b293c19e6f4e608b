/** The rental deal: seventeen inputs and the twelve monthly figures derived from
    them (model.py). Amounts are exact reals; the library annuity payment
    `numpy_financial.pmt` is a parameter of the model. */
module RentalModel {

  /** `numpy_financial.pmt(rate, nper, pv)`: the periodic payment of an annuity, signed
      as the library signs it (negative when `pv` is a positive loan). */
  type Pmt = (real, int, real) -> real

  /** The deal inputs, in declaration order; `int` where the record declares `int`. */
  datatype Rental = Rental(
    salePrice: int,
    downPaymentPercent: real,
    mortgageRate: real,
    loanTermYears: int,
    closingCosts: int,
    pmiRate: real,
    propertyTaxRate: real,
    annualHomeownersInsurance: int,
    annualHoaFees: int,
    upfrontRepairs: int,
    projectedMonthlyRent: int,
    vacancyRateAnnual: real,
    monthlyMaintenanceAndRepairs: int,
    capex: int,
    monthlyManagementFees: int,
    horizon: int,
    annualizedAppreciation: real)

  // ---------------------------------------------------------------------------
  // The computed fields, each over the inputs and the fields before it

  function DownPayment(r: Rental): real
  {
    r.downPaymentPercent * r.salePrice as real / 100.0
  }

  function MortgagePrincipal(r: Rental): real
  {
    r.salePrice as real - DownPayment(r)
  }

  function TotalUpfrontCosts(r: Rental): real
  {
    DownPayment(r) + r.closingCosts as real + r.upfrontRepairs as real
  }

  /** The monthly interest rate handed to the annuity formula. */
  function MonthlyRate(r: Rental): real
  {
    r.mortgageRate / 100.0 / 12.0
  }

  /** The number of monthly payments handed to the annuity formula. */
  function Periods(r: Rental): int
  {
    12 * r.loanTermYears
  }

  function MortgagePayment(r: Rental, pmt: Pmt): real
  {
    -pmt(MonthlyRate(r), Periods(r), MortgagePrincipal(r))
  }

  function PmiPayment(r: Rental): real
  {
    if r.downPaymentPercent >= 20.0 then 0.0
    else MortgagePrincipal(r) * r.pmiRate / 100.0 / 12.0
  }

  function PropertyTaxPayment(r: Rental): real
  {
    r.salePrice as real * r.propertyTaxRate / 100.0 / 12.0
  }

  function HomeownersInsurancePayment(r: Rental): real
  {
    r.annualHomeownersInsurance as real / 12.0
  }

  function HoaFeesPayment(r: Rental): real
  {
    r.annualHoaFees as real / 12.0
  }

  function VacancyCostMonthly(r: Rental): real
  {
    (r.vacancyRateAnnual / 100.0) * r.projectedMonthlyRent as real
  }

  function VariableExpenses(r: Rental): real
  {
    VacancyCostMonthly(r) + r.monthlyMaintenanceAndRepairs as real + r.capex as real
      + r.monthlyManagementFees as real
  }

  function MonthlyExpenses(r: Rental, pmt: Pmt): real
  {
    MortgagePayment(r, pmt) + PropertyTaxPayment(r) + HomeownersInsurancePayment(r)
      + VariableExpenses(r) + PmiPayment(r) + HoaFeesPayment(r)
  }

  function MonthlyCashflow(r: Rental, pmt: Pmt): real
  {
    r.projectedMonthlyRent as real - MonthlyExpenses(r, pmt)
  }

  // ---------------------------------------------------------------------------
  // The derived record, and the accounting identities it satisfies

  datatype Metrics = Metrics(
    downPayment: real,
    mortgagePrincipal: real,
    totalUpfrontCosts: real,
    mortgagePayment: real,
    pmiPayment: real,
    propertyTaxPayment: real,
    homeownersInsurancePayment: real,
    hoaFeesPayment: real,
    vacancyCostMonthly: real,
    variableExpenses: real,
    monthlyExpenses: real,
    monthlyCashflow: real)

  /** All twelve computed fields of a deal. */
  function Compute(r: Rental, pmt: Pmt): Metrics
  {
    Metrics(
      DownPayment(r), MortgagePrincipal(r), TotalUpfrontCosts(r), MortgagePayment(r, pmt),
      PmiPayment(r), PropertyTaxPayment(r), HomeownersInsurancePayment(r), HoaFeesPayment(r),
      VacancyCostMonthly(r), VariableExpenses(r), MonthlyExpenses(r, pmt), MonthlyCashflow(r, pmt))
  }

  /** The relations a deal's figures stand in, stated without division: the down
      payment is the given share of the price and the loan is the rest; upfront cash is
      down payment, closing costs and repairs; annual and percentage figures are spread
      over twelve months; PMI is charged only below a 20% down payment; the monthly
      outgoings are the six payments; the cash flow is rent less outgoings. */
  ghost predicate Balanced(r: Rental, mortgagePayment: real, m: Metrics)
  {
    && 100.0 * m.downPayment == r.downPaymentPercent * r.salePrice as real
    && m.mortgagePrincipal + m.downPayment == r.salePrice as real
    && m.totalUpfrontCosts == m.downPayment + r.closingCosts as real + r.upfrontRepairs as real
    && m.mortgagePayment == mortgagePayment
    && (r.downPaymentPercent >= 20.0 ==> m.pmiPayment == 0.0)
    && (r.downPaymentPercent < 20.0 ==> 1200.0 * m.pmiPayment == m.mortgagePrincipal * r.pmiRate)
    && 1200.0 * m.propertyTaxPayment == r.salePrice as real * r.propertyTaxRate
    && 12.0 * m.homeownersInsurancePayment == r.annualHomeownersInsurance as real
    && 12.0 * m.hoaFeesPayment == r.annualHoaFees as real
    && 100.0 * m.vacancyCostMonthly == r.vacancyRateAnnual * r.projectedMonthlyRent as real
    && m.variableExpenses == m.vacancyCostMonthly + r.monthlyMaintenanceAndRepairs as real
                              + r.capex as real + r.monthlyManagementFees as real
    && m.monthlyExpenses == m.mortgagePayment + m.propertyTaxPayment + m.homeownersInsurancePayment
                             + m.variableExpenses + m.pmiPayment + m.hoaFeesPayment
    && m.monthlyCashflow == r.projectedMonthlyRent as real - m.monthlyExpenses
  }

  /** The computed fields satisfy the accounting identities, and they are the only
      figures that do: the identities determine the record once the mortgage payment
      is fixed. */
  lemma ComputeIsBalanced(r: Rental, pmt: Pmt, m: Metrics)
    ensures Balanced(r, MortgagePayment(r, pmt), Compute(r, pmt))
    ensures Balanced(r, MortgagePayment(r, pmt), m) ==> m == Compute(r, pmt)
  {
    var c := Compute(r, pmt);
    assert 100.0 * c.downPayment == r.downPaymentPercent * r.salePrice as real;
    if r.downPaymentPercent < 20.0 {
      assert 1200.0 * c.pmiPayment == c.mortgagePrincipal * r.pmiRate;
    }
    if Balanced(r, MortgagePayment(r, pmt), m) {
      assert m.downPayment == c.downPayment;
      assert m.mortgagePrincipal == c.mortgagePrincipal;
      assert m.pmiPayment == c.pmiPayment;
    }
  }

  // ---------------------------------------------------------------------------
  // Properties of single fields

  lemma MulNonNegative(a: real, b: real)
    requires a >= 0.0 && b >= 0.0
    ensures a * b >= 0.0
  {
  }

  lemma MulDistributes(a: real, b: real, c: real)
    ensures a * (b + c) == a * b + a * c
  {
  }

  /** The down payment is the stated percentage of the price; with a percentage between
      0 and 100 and a non-negative price, it and the loan both lie between 0 and the price. */
  lemma DownPaymentShare(r: Rental)
    ensures r.salePrice != 0 ==> 100.0 * DownPayment(r) / r.salePrice as real == r.downPaymentPercent
    ensures 0.0 <= r.downPaymentPercent <= 100.0 && r.salePrice >= 0 ==>
      0.0 <= DownPayment(r) <= r.salePrice as real && 0.0 <= MortgagePrincipal(r) <= r.salePrice as real
  {
    var p := r.salePrice as real;
    var d := r.downPaymentPercent;
    if 0.0 <= d <= 100.0 && r.salePrice >= 0 {
      MulNonNegative(d, p);
      MulNonNegative(100.0 - d, p);
      MulDistributes(p, 100.0, -d);
      assert d * p <= 100.0 * p;
    }
  }

  /** The loan and the down payment add up to the price. */
  lemma PrincipalPlusDownPayment(r: Rental)
    ensures MortgagePrincipal(r) + DownPayment(r) == r.salePrice as real
  {
  }

  /** The price and the purchase costs are met by the cash paid up front and the loan
      together; with non-negative closing costs and repairs the up-front cash is at
      least the down payment. */
  lemma UpfrontCostsAndLoan(r: Rental)
    ensures TotalUpfrontCosts(r) + MortgagePrincipal(r)
      == (r.salePrice + r.closingCosts + r.upfrontRepairs) as real
    ensures r.closingCosts >= 0 && r.upfrontRepairs >= 0 ==> TotalUpfrontCosts(r) >= DownPayment(r)
  {
  }

  /** The mortgage payment depends on the deal only through the rate, the term, the
      price and the down-payment percentage, whatever the library payment is. */
  lemma MortgagePaymentInputs(r: Rental, r': Rental, pmt: Pmt)
    requires r.mortgageRate == r'.mortgageRate && r.loanTermYears == r'.loanTermYears
    requires r.salePrice == r'.salePrice && r.downPaymentPercent == r'.downPaymentPercent
    ensures MortgagePayment(r, pmt) == MortgagePayment(r', pmt)
  {
    assert MonthlyRate(r) == MonthlyRate(r') && Periods(r) == Periods(r');
    assert MortgagePrincipal(r) == MortgagePrincipal(r');
  }

  /** With no interest, a library payment that spreads the loan evenly over the periods
      (numpy_financial's zero-rate case) makes the mortgage payment principal / (12 * years). */
  lemma ZeroRateMortgage(r: Rental, pmt: Pmt)
    requires r.mortgageRate == 0.0 && r.loanTermYears != 0
    requires pmt(0.0, Periods(r), MortgagePrincipal(r)) == -MortgagePrincipal(r) / Periods(r) as real
    ensures MortgagePayment(r, pmt) == MortgagePrincipal(r) / (12 * r.loanTermYears) as real
  {
  }

  /** PMI is waived exactly at a down payment of 20% or more (or when the loan or the
      rate is zero); otherwise it is the annual rate on the loan spread over twelve
      months, and it is never negative for a non-negative loan and rate. */
  lemma PmiRule(r: Rental)
    ensures r.downPaymentPercent >= 20.0 ==> PmiPayment(r) == 0.0
    ensures r.downPaymentPercent < 20.0 ==> PmiPayment(r) == MortgagePrincipal(r) * r.pmiRate / 1200.0
    ensures PmiPayment(r) == 0.0 <==>
      r.downPaymentPercent >= 20.0 || MortgagePrincipal(r) == 0.0 || r.pmiRate == 0.0
    ensures MortgagePrincipal(r) >= 0.0 && r.pmiRate >= 0.0 ==> PmiPayment(r) >= 0.0
  {
    if r.downPaymentPercent < 20.0 {
      var p := MortgagePrincipal(r);
      assert PmiPayment(r) == p * r.pmiRate / 1200.0;
      if p != 0.0 && r.pmiRate != 0.0 {
        assert p * r.pmiRate != 0.0;
      }
      if p >= 0.0 && r.pmiRate >= 0.0 {
        assert p * r.pmiRate >= 0.0;
      }
    }
  }

  /** Vacancy never reduces variable expenses below maintenance, capex and management
      when the vacancy rate and the rent are non-negative; at a rate of 100% or less the
      vacancy cost is at most the rent. */
  lemma VariableExpensesFloor(r: Rental)
    ensures r.vacancyRateAnnual >= 0.0 && r.projectedMonthlyRent >= 0 ==>
      VariableExpenses(r) >= (r.monthlyMaintenanceAndRepairs + r.capex + r.monthlyManagementFees) as real
    ensures 0.0 <= r.vacancyRateAnnual <= 100.0 && r.projectedMonthlyRent >= 0 ==>
      0.0 <= VacancyCostMonthly(r) <= r.projectedMonthlyRent as real
  {
    var v := r.vacancyRateAnnual;
    var rent := r.projectedMonthlyRent as real;
    var k := v / 100.0;
    if v >= 0.0 && rent >= 0.0 {
      MulNonNegative(k, rent);
      if v <= 100.0 {
        MulNonNegative(1.0 - k, rent);
        MulDistributes(rent, 1.0, -k);
      }
    }
  }

  /** Each monthly cost passes straight through to cash flow: raising maintenance,
      capex or management fees by `e` a month, or insurance or HOA fees by `12 e` a
      year, lowers monthly cash flow by exactly `e`. */
  lemma CashflowPerCost(r: Rental, pmt: Pmt, e: int)
    ensures MonthlyCashflow(r.(monthlyMaintenanceAndRepairs := r.monthlyMaintenanceAndRepairs + e), pmt)
      == MonthlyCashflow(r, pmt) - e as real
    ensures MonthlyCashflow(r.(capex := r.capex + e), pmt) == MonthlyCashflow(r, pmt) - e as real
    ensures MonthlyCashflow(r.(monthlyManagementFees := r.monthlyManagementFees + e), pmt)
      == MonthlyCashflow(r, pmt) - e as real
    ensures MonthlyCashflow(r.(annualHomeownersInsurance := r.annualHomeownersInsurance + 12 * e), pmt)
      == MonthlyCashflow(r, pmt) - e as real
    ensures MonthlyCashflow(r.(annualHoaFees := r.annualHoaFees + 12 * e), pmt)
      == MonthlyCashflow(r, pmt) - e as real
  {
    MortgagePaymentInputs(r.(monthlyMaintenanceAndRepairs := r.monthlyMaintenanceAndRepairs + e), r, pmt);
    MortgagePaymentInputs(r.(capex := r.capex + e), r, pmt);
    MortgagePaymentInputs(r.(monthlyManagementFees := r.monthlyManagementFees + e), r, pmt);
    MortgagePaymentInputs(r.(annualHomeownersInsurance := r.annualHomeownersInsurance + 12 * e), r, pmt);
    MortgagePaymentInputs(r.(annualHoaFees := r.annualHoaFees + 12 * e), r, pmt);
  }

  /** Each extra unit of rent raises monthly cash flow by one less the vacancy share. */
  lemma CashflowPerRent(r: Rental, pmt: Pmt, extra: int)
    ensures var r' := r.(projectedMonthlyRent := r.projectedMonthlyRent + extra);
      MonthlyCashflow(r', pmt) - MonthlyCashflow(r, pmt)
        == extra as real * (1.0 - r.vacancyRateAnnual / 100.0)
  {
    var r' := r.(projectedMonthlyRent := r.projectedMonthlyRent + extra);
    var v := r.vacancyRateAnnual / 100.0;
    var rent, e := r.projectedMonthlyRent as real, extra as real;
    assert r'.projectedMonthlyRent as real == rent + e;
    MulDistributes(v, rent, e);
    assert VacancyCostMonthly(r') - VacancyCostMonthly(r) == v * e;
    MulDistributes(e, 1.0, -v);
    MortgagePaymentInputs(r', r, pmt);
  }

  /** The holding horizon and the appreciation rate enter no formula. */
  lemma IgnoresHorizonAndAppreciation(r: Rental, pmt: Pmt, horizon: int, appreciation: real)
    ensures Compute(r.(horizon := horizon, annualizedAppreciation := appreciation), pmt) == Compute(r, pmt)
  {
    var r' := r.(horizon := horizon, annualizedAppreciation := appreciation);
    MortgagePaymentInputs(r', r, pmt);
    assert PmiPayment(r') == PmiPayment(r);
  }

  /** The worked deal: $300,000 at 20% down, 6% over 30 years, rent $2,200. */
  const Example := Rental(300000, 20.0, 6.0, 30, 5000, 0.5, 1.2, 1200, 0, 2000, 2200, 5.0, 100, 50, 150, 5, 3.0)

  lemma ExampleDeal(pmt: Pmt)
    ensures DownPayment(Example) == 60000.0 && MortgagePrincipal(Example) == 240000.0
    ensures TotalUpfrontCosts(Example) == 67000.0
    ensures PmiPayment(Example) == 0.0
    ensures MonthlyRate(Example) == 0.005 && Periods(Example) == 360
    ensures PropertyTaxPayment(Example) == 300.0 && VacancyCostMonthly(Example) == 110.0
    ensures VariableExpenses(Example) == 410.0
    ensures MonthlyCashflow(Example, pmt) == 1390.0 - MortgagePayment(Example, pmt)
  {
  }

  // ---------------------------------------------------------------------------
  // The flat record: inputs, then computed fields, as the report reads them

  /** The column names of the dumped record, in order. */
  const FieldNames: seq<string> := [
    "sale_price", "down_payment_percent", "mortgage_rate", "loan_term_years",
    "closing_costs", "pmi_rate", "property_tax_rate", "annual_homeowners_insurance",
    "annual_hoa_fees", "upfront_repairs", "projected_monthly_rent", "vacancy_rate_annual",
    "monthly_maintenance_and_repairs", "capex", "monthly_management_fees", "horizon",
    "annualized_appreciation",
    "down_payment", "mortgage_principal", "total_upfront_costs", "mortgage_payment",
    "pmi_payment", "property_tax_payment", "homeowners_insurance_payment", "hoa_fees_payment",
    "vacancy_cost_monthly", "variable_expenses", "monthly_expenses", "monthly_cashflow"]

  /** The value of the named field of a deal. */
  function FieldValue(r: Rental, pmt: Pmt, name: string): real
    requires name in FieldNames
  {
    match name
    case "sale_price" => r.salePrice as real
    case "down_payment_percent" => r.downPaymentPercent
    case "mortgage_rate" => r.mortgageRate
    case "loan_term_years" => r.loanTermYears as real
    case "closing_costs" => r.closingCosts as real
    case "pmi_rate" => r.pmiRate
    case "property_tax_rate" => r.propertyTaxRate
    case "annual_homeowners_insurance" => r.annualHomeownersInsurance as real
    case "annual_hoa_fees" => r.annualHoaFees as real
    case "upfront_repairs" => r.upfrontRepairs as real
    case "projected_monthly_rent" => r.projectedMonthlyRent as real
    case "vacancy_rate_annual" => r.vacancyRateAnnual
    case "monthly_maintenance_and_repairs" => r.monthlyMaintenanceAndRepairs as real
    case "capex" => r.capex as real
    case "monthly_management_fees" => r.monthlyManagementFees as real
    case "horizon" => r.horizon as real
    case "annualized_appreciation" => r.annualizedAppreciation
    case "down_payment" => DownPayment(r)
    case "mortgage_principal" => MortgagePrincipal(r)
    case "total_upfront_costs" => TotalUpfrontCosts(r)
    case "mortgage_payment" => MortgagePayment(r, pmt)
    case "pmi_payment" => PmiPayment(r)
    case "property_tax_payment" => PropertyTaxPayment(r)
    case "homeowners_insurance_payment" => HomeownersInsurancePayment(r)
    case "hoa_fees_payment" => HoaFeesPayment(r)
    case "vacancy_cost_monthly" => VacancyCostMonthly(r)
    case "variable_expenses" => VariableExpenses(r)
    case "monthly_expenses" => MonthlyExpenses(r, pmt)
    case "monthly_cashflow" => MonthlyCashflow(r, pmt)
    case _ => assert false; 0.0
  }

  /** The record as one row of named columns, one per field in field order. */
  function Dump(r: Rental, pmt: Pmt): seq<(string, real)>
  {
    seq(|FieldNames|, i requires 0 <= i < |FieldNames| => (FieldNames[i], FieldValue(r, pmt, FieldNames[i])))
  }

  /** No name occurs twice. */
  predicate DistinctNames(names: seq<string>)
  {
    forall i, j :: 0 <= i < j < |names| ==> names[i] != names[j]
  }

  /** The dump has one column per field, named as the record names it, no two alike. */
  lemma DumpColumns(r: Rental, pmt: Pmt)
    ensures |Dump(r, pmt)| == |FieldNames| == 29
    ensures forall i :: 0 <= i < 29 ==>
      Dump(r, pmt)[i] == (FieldNames[i], FieldValue(r, pmt, FieldNames[i]))
  {
  }

  lemma FieldNamesDistinct()
    ensures DistinctNames(FieldNames)
  {
    forall i, j | 0 <= i < j < |FieldNames| ensures FieldNames[i] != FieldNames[j] {
      if i < 10 { NameUnrepeated0(i); }
      else if i < 20 { NameUnrepeated1(i); }
      else { NameUnrepeated2(i); }
    }
  }

  // The pairwise comparison of the literal names, in three slices to keep each proof small.

  lemma NameUnrepeated0(i: nat)
    requires i < 10
    ensures forall j :: i < j < |FieldNames| ==> FieldNames[i] != FieldNames[j]
  {
  }

  lemma NameUnrepeated1(i: nat)
    requires 10 <= i < 20
    ensures forall j :: i < j < |FieldNames| ==> FieldNames[i] != FieldNames[j]
  {
  }

  lemma NameUnrepeated2(i: nat)
    requires 20 <= i < |FieldNames|
    ensures forall j :: i < j < |FieldNames| ==> FieldNames[i] != FieldNames[j]
  {
  }
}

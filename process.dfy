/** The report tables (process.py): the flat record is cut into five fixed groups of
    columns, and each group becomes a two-column table of labelled, formatted rows. A
    one-row data frame is modelled as its sequence of (column name, value) pairs. */
module Process {
  import opened PyStr
  import RentalModel

  /** A one-row data frame: its columns in order, each a name and the row's value. */
  type Frame = seq<(string, real)>

  /** A row of a processed table: the `Metric` and `Value` columns. */
  datatype Row = Row(metric: string, value: string)

  /** The outcome of a column selection: the value, or pandas' KeyError naming the
      requested columns that the frame does not have. */
  datatype Result<T> = Ok(value: T) | KeyError(missing: seq<string>)

  // ---------------------------------------------------------------------------
  // The five groups

  const DealTerms: seq<string> := [
    "sale_price", "down_payment_percent", "mortgage_rate", "loan_term_years",
    "closing_costs", "pmi_rate", "property_tax_rate", "annual_homeowners_insurance"]

  const UpfrontCosts: seq<string> := ["upfront_repairs", "down_payment", "total_upfront_costs"]

  const MonthlyPayments: seq<string> := [
    "mortgage_payment", "pmi_payment", "property_tax_payment",
    "homeowners_insurance_payment", "hoa_fees_payment"]

  const OperatingExpenses: seq<string> := [
    "vacancy_rate_annual", "vacancy_cost_monthly", "monthly_maintenance_and_repairs",
    "capex", "monthly_management_fees", "variable_expenses"]

  const CashflowSummary: seq<string> := ["projected_monthly_rent", "monthly_expenses", "monthly_cashflow"]

  const ReportGroups: seq<seq<string>> :=
    [DealTerms, UpfrontCosts, MonthlyPayments, OperatingExpenses, CashflowSummary]

  /** Every column name that appears in some group, in report order. */
  const ShownNames: seq<string> :=
    DealTerms + UpfrontCosts + MonthlyPayments + OperatingExpenses + CashflowSummary

  // ---------------------------------------------------------------------------
  // Column selection `df[[names]]`

  /** The columns of `df` called `name`, in frame order (a frame may repeat a name,
      and then selection returns every such column). */
  function ColumnsNamed(df: Frame, name: string): (cs: Frame)
    ensures forall k :: 0 <= k < |cs| ==> cs[k].0 == name && cs[k] in df
    ensures |cs| <= |df|
  {
    if df == [] then []
    else (if df[0].0 == name then [df[0]] else []) + ColumnsNamed(df[1..], name)
  }

  /** The columns called `name` are exactly the frame's columns with that name. */
  lemma {:induction false} ColumnsNamedExactly(df: Frame, name: string, c: (string, real))
    ensures c in ColumnsNamed(df, name) <==> c in df && c.0 == name
  {
    if df != [] {
      ColumnsNamedExactly(df[1..], name, c);
      assert c in df <==> c == df[0] || c in df[1..];
    }
  }

  /** The requested names the frame has no column for, in request order. */
  function Missing(df: Frame, names: seq<string>): (ms: seq<string>)
    ensures forall m :: m in ms ==> m in names && ColumnsNamed(df, m) == []
    ensures ms == [] ==> forall n :: n in names ==> ColumnsNamed(df, n) != []
  {
    if names == [] then []
    else (if ColumnsNamed(df, names[0]) == [] then [names[0]] else []) + Missing(df, names[1..])
  }

  /** The selected columns, each requested name contributing its columns in turn. */
  function Gather(df: Frame, names: seq<string>): Frame
  {
    if names == [] then [] else ColumnsNamed(df, names[0]) + Gather(df, names[1..])
  }

  /** `df[names]` with a list of names: a KeyError when any of them is absent. */
  function Select(df: Frame, names: seq<string>): Result<Frame>
  {
    var ms := Missing(df, names);
    if ms != [] then KeyError(ms) else Ok(Gather(df, names))
  }

  /** Selection fails exactly when a requested name has no column, and the error
      lists only such names. */
  lemma SelectFails(df: Frame, names: seq<string>)
    ensures Select(df, names).KeyError? <==> exists n :: n in names && ColumnsNamed(df, n) == []
    ensures Select(df, names).KeyError? ==>
      && Select(df, names).missing != []
      && forall m :: m in Select(df, names).missing ==> m in names && ColumnsNamed(df, m) == []
  {
    var ms := Missing(df, names);
    if ms != [] {
      var m := ms[0];
      assert m in ms;
      assert m in names && ColumnsNamed(df, m) == [];
    }
  }

  /** When each requested name names exactly one column, the selection has one column
      per name, in the requested order, each the frame's column of that name. */
  lemma {:induction false} SelectUnique(df: Frame, names: seq<string>)
    requires forall n :: n in names ==> |ColumnsNamed(df, n)| == 1
    ensures Select(df, names).Ok?
    ensures var t := Select(df, names).value;
      |t| == |names| && forall i :: 0 <= i < |t| ==> t[i] == ColumnsNamed(df, names[i])[0]
  {
    GatherUnique(df, names);
  }

  lemma {:induction false} GatherUnique(df: Frame, names: seq<string>)
    requires forall n :: n in names ==> |ColumnsNamed(df, n)| == 1
    ensures Missing(df, names) == []
    ensures var t := Gather(df, names);
      |t| == |names| && forall i :: 0 <= i < |t| ==> t[i] == ColumnsNamed(df, names[i])[0]
  {
    if names != [] {
      assert names[0] in names;
      var rest := names[1..];
      assert forall n :: n in rest ==> n in names;
      GatherUnique(df, rest);
      var c := ColumnsNamed(df, names[0]);
      var g := Gather(df, rest);
      var t := Gather(df, names);
      assert t == c + g;
      forall i | 0 <= i < |t| ensures t[i] == ColumnsNamed(df, names[i])[0] {
        if i > 0 {
          assert t[i] == g[i - 1];
          assert names[i] == rest[i - 1];
        }
      }
    }
  }

  /** A frame whose column names are pairwise distinct. */
  predicate UniqueColumns(df: Frame)
  {
    forall i, j :: 0 <= i < j < |df| ==> df[i].0 != df[j].0
  }

  /** In a frame without repeated names, a name that is present names one column. */
  lemma {:induction false} ColumnOfUniqueFrame(df: Frame, j: nat)
    requires UniqueColumns(df) && j < |df|
    ensures ColumnsNamed(df, df[j].0) == [df[j]]
  {
    if j == 0 {
      NameAbsent(df[1..], df[0].0);
    } else {
      assert df[1..][j - 1] == df[j];
      ColumnOfUniqueFrame(df[1..], j - 1);
    }
  }

  lemma {:induction false} NameAbsent(df: Frame, name: string)
    requires forall k :: 0 <= k < |df| ==> df[k].0 != name
    ensures ColumnsNamed(df, name) == []
  {
    if df != [] {
      NameAbsent(df[1..], name);
    }
  }

  // ---------------------------------------------------------------------------
  // Splitting into the report tables

  /** The five tables, selected left to right; the first failing selection's KeyError
      is the result. */
  function SplitIntoReportTables(df: Frame): Result<seq<Frame>>
  {
    SelectEach(df, ReportGroups)
  }

  function SelectEach(df: Frame, groups: seq<seq<string>>): Result<seq<Frame>>
  {
    if groups == [] then Ok([])
    else match Select(df, groups[0])
      case KeyError(ms) => KeyError(ms)
      case Ok(t) =>
        match SelectEach(df, groups[1..])
        case KeyError(ms) => KeyError(ms)
        case Ok(ts) => Ok([t] + ts)
  }

  /** The groups have 8, 3, 5, 6 and 3 names, 25 in all. */
  lemma GroupSizes()
    ensures |ReportGroups| == 5
    ensures |DealTerms| == 8 && |UpfrontCosts| == 3 && |MonthlyPayments| == 5
    ensures |OperatingExpenses| == 6 && |CashflowSummary| == 3
    ensures |ShownNames| == 25
    ensures forall k, n :: 0 <= k < 5 && n in ReportGroups[k] ==> n in ShownNames
  {
  }

  lemma {:induction false} SelectEachUnique(df: Frame, groups: seq<seq<string>>)
    requires forall k, n :: 0 <= k < |groups| && n in groups[k] ==> |ColumnsNamed(df, n)| == 1
    ensures SelectEach(df, groups).Ok?
    ensures var ts := SelectEach(df, groups).value;
      && |ts| == |groups|
      && forall k :: 0 <= k < |ts| ==>
           && |ts[k]| == |groups[k]|
           && forall i :: 0 <= i < |ts[k]| ==> ts[k][i] == ColumnsNamed(df, groups[k][i])[0]
  {
    if groups != [] {
      SelectUnique(df, groups[0]);
      SelectEachUnique(df, groups[1..]);
      var ts := SelectEach(df, groups).value;
      forall k | 1 <= k < |ts| ensures ts[k] == SelectEach(df, groups[1..]).value[k - 1] { }
    }
  }

  /** When every name of the five groups names exactly one column, the split yields one
      table per group with one column per name, the i-th column of table k being the
      frame's column named by the i-th name of group k. */
  lemma SplitShape(df: Frame)
    requires forall n :: n in ShownNames ==> |ColumnsNamed(df, n)| == 1
    ensures SplitIntoReportTables(df).Ok?
    ensures var ts := SplitIntoReportTables(df).value;
      && |ts| == |ReportGroups|
      && forall k :: 0 <= k < |ts| ==>
           && |ts[k]| == |ReportGroups[k]|
           && forall i :: 0 <= i < |ts[k]| ==>
                && ReportGroups[k][i] in ShownNames
                && ts[k][i] == ColumnsNamed(df, ReportGroups[k][i])[0]
  {
    GroupSizes();
    SelectEachUnique(df, ReportGroups);
  }

  /** The split fails exactly when some grouped name has no column. */
  lemma SplitFails(df: Frame)
    ensures SplitIntoReportTables(df).KeyError? <==> exists n :: n in ShownNames && ColumnsNamed(df, n) == []
  {
    GroupSizes();
    if n :| n in ShownNames && ColumnsNamed(df, n) == [] {
      var k :| 0 <= k < 5 && n in ReportGroups[k] by {
        if n in DealTerms { assert n in ReportGroups[0]; }
        else if n in UpfrontCosts { assert n in ReportGroups[1]; }
        else if n in MonthlyPayments { assert n in ReportGroups[2]; }
        else if n in OperatingExpenses { assert n in ReportGroups[3]; }
        else { assert n in ReportGroups[4]; }
      }
      SelectEachFails(df, ReportGroups, k, n);
    }
    if SplitIntoReportTables(df).KeyError? {
      SelectEachFailsOnly(df, ReportGroups);
      var k, n :| 0 <= k < |ReportGroups| && n in ReportGroups[k] && ColumnsNamed(df, n) == [];
      assert n in ShownNames;
    }
  }

  /** A failed selection of several groups names a group holding a name with no column. */
  lemma {:induction false} SelectEachFailsOnly(df: Frame, groups: seq<seq<string>>)
    requires SelectEach(df, groups).KeyError?
    ensures exists k, n :: 0 <= k < |groups| && n in groups[k] && ColumnsNamed(df, n) == []
  {
    SelectFails(df, groups[0]);
    if Select(df, groups[0]).KeyError? {
      var n :| n in groups[0] && ColumnsNamed(df, n) == [];
      assert 0 < |groups| && n in groups[0];
    } else {
      SelectEachFailsOnly(df, groups[1..]);
      var k, n :| 0 <= k < |groups[1..]| && n in groups[1..][k] && ColumnsNamed(df, n) == [];
      assert n in groups[k + 1];
    }
  }

  lemma {:induction false} SelectEachFails(df: Frame, groups: seq<seq<string>>, k: nat, n: string)
    requires k < |groups| && n in groups[k] && ColumnsNamed(df, n) == []
    ensures SelectEach(df, groups).KeyError?
  {
    SelectFails(df, groups[0]);
    if k > 0 {
      SelectEachFails(df, groups[1..], k - 1, n);
    }
  }

  // ---------------------------------------------------------------------------
  // The rows of a table

  /** The metric label: underscores become spaces, then `capitalize()`. */
  function Label(name: string): string
  {
    Capitalize(Replace(name, '_', ' '))
  }

  /** A label keeps the name's length, has no underscore, starts with an upper-case (or
      non-letter) character and has no upper-case letter after it. */
  lemma LabelShape(name: string)
    ensures |Label(name)| == |name|
    ensures forall i :: 0 <= i < |name| ==> Label(name)[i] != '_'
    ensures name != [] ==> !IsAsciiLower(Label(name)[0])
    ensures forall i :: 0 < i < |name| ==> !IsAsciiUpper(Label(name)[i])
    ensures forall i :: 0 <= i < |name| ==>
      Lower(Label(name)[i]) == Lower(if name[i] == '_' then ' ' else name[i])
  {
    var r := Replace(name, '_', ' ');
    CapitalizeShape(r);
    forall i | 0 <= i < |name|
      ensures Label(name)[i] != '_'
      ensures Lower(Label(name)[i]) == Lower(if name[i] == '_' then ' ' else name[i])
    {
      assert r[i] != '_';
    }
  }

  /** Relabelling a label changes nothing. */
  lemma LabelIdempotent(name: string)
    ensures Label(Label(name)) == Label(name)
  {
    var l := Label(name);
    LabelShape(name);
    LabelShape(l);
    CapitalizeShape(Replace(l, '_', ' '));
    assert Replace(l, '_', ' ') == l;
    if l != [] {
      LowerStrIdempotent(l[1..]);
      assert l[1..] == LowerStr(Replace(name, '_', ' ')[1..]);
    }
  }

  /** A snake-case name: lower-case letters, digits and underscores. */
  predicate IsSnakeCase(name: string)
  {
    forall i :: 0 <= i < |name| ==> IsAsciiLower(name[i]) || IsDigit(name[i]) || name[i] == '_'
  }

  /** The column name a label was made from: spaces back to underscores, lower-cased. */
  function Unlabel(text: string): string
  {
    LowerStr(Replace(text, ' ', '_'))
  }

  /** A snake-case name is recovered from its label. */
  lemma LabelRoundTrip(name: string)
    requires IsSnakeCase(name)
    ensures Unlabel(Label(name)) == name
  {
    var l := Label(name);
    LabelShape(name);
    var u := Unlabel(l);
    forall i | 0 <= i < |name| ensures u[i] == name[i] {
      var c := if name[i] == '_' then ' ' else name[i];
      if name[i] == '_' {
        assert Lower(l[i]) == ' ';
        assert l[i] == ' ';
      } else {
        assert l[i] != ' ';
      }
    }
  }

  /** The formatting dispatch: the lower-cased label mentions a rate or a percentage. */
  predicate IsPercentMetric(metric: string)
  {
    Contains(LowerStr(metric), "rate") || Contains(LowerStr(metric), "percent")
  }

  /** For a snake-case name, lower-casing the label undoes the capital: it is the name
      with spaces for underscores. */
  lemma LowerLabel(name: string)
    requires IsSnakeCase(name)
    ensures LowerStr(Label(name)) == Replace(name, '_', ' ')
  {
    LabelShape(name);
    var l := LowerStr(Label(name));
    var r := Replace(name, '_', ' ');
    forall i | 0 <= i < |name| ensures l[i] == r[i] {
      assert !IsAsciiUpper(r[i]);
    }
  }

  /** The dispatch on the label agrees with a test on the field name itself: a snake-case
      name is shown as a percentage exactly when it contains "rate" or "percent". */
  lemma PercentByName(name: string)
    requires IsSnakeCase(name)
    ensures IsPercentMetric(Label(name)) <==> Contains(name, "rate") || Contains(name, "percent")
  {
    LowerLabel(name);
    ContainsReplaced(name, "rate");
    ContainsReplaced(name, "percent");
  }

  /** The value column of one row: two-decimal percentage for rate and percent metrics,
      otherwise whole-currency, with parentheses for a negative amount. */
  function HandleRowFormat(metric: string, value: real): string
  {
    if IsPercentMetric(metric) then FormatPercent(value / 100.0)
    else if value >= 0.0 then "$" + FormatThousands(value)
    else "$(" + FormatThousands(-value) + ")"
  }

  /** Reads a currency text `$digits` or `$(digits)`, commas allowed, back as an amount. */
  function ReadCurrency(s: string): real
  {
    if |s| >= 3 && s[0] == '$' && s[1] == '(' && s[|s| - 1] == ')' then
      -(DecimalValue(RemoveCommas(s[2..|s| - 1])) as real)
    else if |s| >= 1 && s[0] == '$' then DecimalValue(RemoveCommas(s[1..])) as real
    else 0.0
  }

  lemma PercentDispatch(metric: string, value: real)
    requires IsPercentMetric(metric)
    ensures HandleRowFormat(metric, value) == FormatPercent(value / 100.0)
  {
  }

  /** Worked rows: a 6% rate shows `6.00%`; for any other metric, rent of 2,200 shows
      `$2,200`, a loss of 150 shows `$(150)` and a loss of 1,234.4 shows `$(1,234)`. */
  lemma RowExamples(metric: string)
    ensures IsPercentMetric(metric) ==> HandleRowFormat(metric, 6.0) == "6.00%"
    ensures !IsPercentMetric(metric) ==>
      && HandleRowFormat(metric, 2200.0) == "$2,200"
      && HandleRowFormat(metric, -150.0) == "$(150)"
      && HandleRowFormat(metric, -1234.4) == "$(1,234)"
  {
    FormatExamples();
    assert RoundHalfEven(2200.0) == 2200;
    assert Pad3(200) == "200";
    assert Grouped(2) == "2";
    assert Grouped(2200) == "2,200";
    assert RoundHalfEven(150.0) == 150;
    assert Digits(150) == "150";
    assert Grouped(150) == "150";
    assert (1234.4).Floor == 1234;
    assert RoundHalfEven(1234.4) == 1234;
    assert Pad3(234) == "234";
    assert Grouped(1) == "1";
    assert Grouped(1234) == "1,234";
  }

  /** A rate or percent metric shows its value with two decimals and a '%', signed as the
      value is, and the text reads back within half a hundredth of the value. */
  lemma PercentRow(metric: string, value: real)
    requires IsPercentMetric(metric)
    ensures IsPercentText(HandleRowFormat(metric, value))
    ensures HandleRowFormat(metric, value)[0] == '-' <==> value < 0.0
    ensures -1.0 / 200.0 <= ReadPercent(HandleRowFormat(metric, value)) - value <= 1.0 / 200.0
  {
    PercentDispatch(metric, value);
    PercentOfFraction(value);
  }

  /** Any other metric with a non-negative value shows `$` and the comma-grouped whole
      amount, no parenthesis; without the commas the digits are those of the rounded
      value, and the text reads back within half a unit of the value. */
  lemma CurrencyRowNonNegative(metric: string, value: real)
    requires !IsPercentMetric(metric) && value >= 0.0
    ensures var s := HandleRowFormat(metric, value);
      && s == "$" + Grouped(RoundHalfEven(value))
      && |s| >= 2 && IsDigit(s[1])
      && RemoveCommas(s[1..]) == Digits(RoundHalfEven(value))
      && -1.0 / 2.0 <= ReadCurrency(s) - value <= 1.0 / 2.0
  {
    var k := RoundHalfEven(value);
    var g := Grouped(k);
    GroupedShape(k);
    GroupedUngroup(k);
    DigitsRoundTrip(k);
    assert HandleRowFormat(metric, value) == "$" + g;
    ReadCurrencyParts(false, g);
  }

  /** Any other metric with a negative value shows the grouped, rounded magnitude between
      `$(` and `)`, and the text reads back within half a unit of the value. */
  lemma CurrencyRowNegative(metric: string, value: real)
    requires !IsPercentMetric(metric) && value < 0.0
    ensures var s := HandleRowFormat(metric, value);
      && s == "$(" + Grouped(RoundHalfEven(-value)) + ")"
      && RemoveCommas(s[2..|s| - 1]) == Digits(RoundHalfEven(-value))
      && -1.0 / 2.0 <= ReadCurrency(s) - value <= 1.0 / 2.0
  {
    var k := RoundHalfEven(-value);
    var g := Grouped(k);
    GroupedShape(k);
    GroupedUngroup(k);
    DigitsRoundTrip(k);
    assert HandleRowFormat(metric, value) == "$(" + g + ")";
    ReadCurrencyParts(true, g);
  }

  /** Reading `$g` or `$(g)` gives the value of `g`'s digits, negated in parentheses. */
  lemma ReadCurrencyParts(neg: bool, g: string)
    requires g != [] && IsDigit(g[0])
    ensures var s := if neg then "$(" + g + ")" else "$" + g;
      && (neg ==> s[2..|s| - 1] == g && s[1] == '(')
      && (!neg ==> s[1..] == g && s[1] == g[0])
      && ReadCurrency(s) == (if neg then -1.0 else 1.0) * DecimalValue(RemoveCommas(g)) as real
  {
    var s := if neg then "$(" + g + ")" else "$" + g;
    if neg {
      assert s[2..|s| - 1] == g;
    } else {
      assert s[1..] == g;
      assert s[1] == g[0];
    }
  }

  /** For a positive amount, the negative amount's text is the positive one's digits
      wrapped in parentheses. */
  lemma CurrencyMirror(metric: string, value: real)
    requires !IsPercentMetric(metric) && value > 0.0
    ensures HandleRowFormat(metric, -value) == "$(" + HandleRowFormat(metric, value)[1..] + ")"
  {
    assert ("$" + FormatThousands(value))[1..] == FormatThousands(value);
  }

  /** The row shown for a column: its label, and its value formatted by that label. */
  function RowOf(name: string, value: real): Row
  {
    var metric := Label(name);
    Row(metric, HandleRowFormat(metric, value))
  }

  /** The processed table: one row per column, in column order, the metric being the
      column's label and the value its formatted value. */
  function ProcessReportTable(table: Frame): seq<Row>
  {
    seq(|table|, i requires 0 <= i < |table| => RowOf(table[i].0, table[i].1))
  }

  /** The metric column of a processed table names its columns back, in order, when the
      column names are snake case. */
  lemma ProcessedMetrics(table: Frame)
    requires forall i :: 0 <= i < |table| ==> IsSnakeCase(table[i].0)
    ensures |ProcessReportTable(table)| == |table|
    ensures forall i :: 0 <= i < |table| ==> Unlabel(ProcessReportTable(table)[i].metric) == table[i].0
  {
    forall i | 0 <= i < |table| ensures Unlabel(ProcessReportTable(table)[i].metric) == table[i].0 {
      LabelRoundTrip(table[i].0);
    }
  }

  /** Every table processed in turn. */
  function ProcessAll(tables: seq<Frame>): seq<seq<Row>>
  {
    seq(|tables|, k requires 0 <= k < |tables| => ProcessReportTable(tables[k]))
  }

  // ---------------------------------------------------------------------------
  // The report of one deal

  /** The tables shown for a deal: its record dumped to one row, split, each table processed. */
  function ShowReport(r: RentalModel.Rental, pmt: RentalModel.Pmt): Result<seq<seq<Row>>>
  {
    ReportTables(RentalModel.Dump(r, pmt))
  }

  /** A frame split into the five tables, each processed. */
  function ReportTables(df: Frame): Result<seq<seq<Row>>>
  {
    ReportOf(df, ReportGroups)
  }

  /** A frame split into the given groups of columns, each processed. */
  function ReportOf(df: Frame, groups: seq<seq<string>>): Result<seq<seq<Row>>>
  {
    match SelectEach(df, groups)
    case KeyError(ms) => KeyError(ms)
    case Ok(ts) => Ok(ProcessAll(ts))
  }

  /** The value in the first column called `name`. */
  function ValueOf(df: Frame, name: string): real
    requires ColumnsNamed(df, name) != []
  {
    ColumnsNamed(df, name)[0].1
  }

  /** When every requested name names exactly one column, processing the selected
      tables gives one table per group and one row per name, row i of table k showing
      the column named by the i-th name of group k. */
  lemma {:induction false} ProcessedSelection(df: Frame, groups: seq<seq<string>>)
    requires forall k, n :: 0 <= k < |groups| && n in groups[k] ==> |ColumnsNamed(df, n)| == 1
    ensures ReportOf(df, groups).Ok?
    ensures var tables := ReportOf(df, groups).value;
      && |tables| == |groups|
      && forall k :: 0 <= k < |tables| ==>
           && |tables[k]| == |groups[k]|
           && forall i :: 0 <= i < |tables[k]| ==>
                tables[k][i] == RowOf(groups[k][i], ValueOf(df, groups[k][i]))
  {
    SelectEachUnique(df, groups);
  }

  /** Every name of every group names exactly one column of the frame. */
  predicate GroupedNamesUnique(df: Frame)
  {
    forall k, n :: 0 <= k < |ReportGroups| && n in ReportGroups[k] ==> |ColumnsNamed(df, n)| == 1
  }

  /** Every grouped name is a field of the record. */
  lemma ShownNamesAreFields()
    ensures forall n :: n in ShownNames ==> n in RentalModel.FieldNames
  {
  }

  /** Four fields of the record appear in no table: the HOA fee as entered, the horizon,
      the appreciation rate and the mortgage principal. */
  lemma FieldsNotShown()
    ensures forall n :: n in RentalModel.FieldNames && n !in ShownNames <==>
      n in ["annual_hoa_fees", "horizon", "annualized_appreciation", "mortgage_principal"]
  {
  }

  /** A field's name names exactly one column of a deal's record, the one holding that
      field's value. */
  lemma DumpValue(r: RentalModel.Rental, pmt: RentalModel.Pmt, n: string)
    requires n in RentalModel.FieldNames
    ensures |ColumnsNamed(RentalModel.Dump(r, pmt), n)| == 1
    ensures ValueOf(RentalModel.Dump(r, pmt), n) == RentalModel.FieldValue(r, pmt, n)
  {
    var df := RentalModel.Dump(r, pmt);
    RentalModel.DumpColumns(r, pmt);
    RentalModel.FieldNamesDistinct();
    assert UniqueColumns(df);
    var j :| 0 <= j < |RentalModel.FieldNames| && RentalModel.FieldNames[j] == n;
    ColumnOfUniqueFrame(df, j);
  }

  /** Each grouped name names exactly one column of a deal's record. */
  lemma DumpColumnsUnique(r: RentalModel.Rental, pmt: RentalModel.Pmt)
    ensures forall n :: n in ShownNames ==> |ColumnsNamed(RentalModel.Dump(r, pmt), n)| == 1
  {
    ShownNamesAreFields();
    forall n | n in ShownNames ensures |ColumnsNamed(RentalModel.Dump(r, pmt), n)| == 1 {
      DumpValue(r, pmt, n);
    }
  }

  /** The same, group by group. */
  lemma DumpGroupColumns(r: RentalModel.Rental, pmt: RentalModel.Pmt)
    ensures GroupedNamesUnique(RentalModel.Dump(r, pmt))
  {
    GroupSizes();
    DumpColumnsUnique(r, pmt);
  }

  /** A deal's report never fails: it has one table per group and one row per name of
      the group, row i of table k showing the i-th name of group k with that field's
      value. */
  lemma ShowReportShape(r: RentalModel.Rental, pmt: RentalModel.Pmt)
    ensures ShowReport(r, pmt).Ok?
    ensures var tables := ShowReport(r, pmt).value;
      && |tables| == |ReportGroups|
      && forall k :: 0 <= k < |tables| ==>
           && |tables[k]| == |ReportGroups[k]|
           && forall i :: 0 <= i < |tables[k]| ==>
                && ReportGroups[k][i] in RentalModel.FieldNames
                && tables[k][i] == RowOf(ReportGroups[k][i], RentalModel.FieldValue(r, pmt, ReportGroups[k][i]))
  {
    var df := RentalModel.Dump(r, pmt);
    DumpGroupColumns(r, pmt);
    ProcessedSelection(df, ReportGroups);
    assert ShowReport(r, pmt) == ReportOf(df, ReportGroups);
    GroupSizes();
    ShownNamesAreFields();
    var tables := ReportTables(df).value;
    forall k, i | 0 <= k < |tables| && 0 <= i < |tables[k]|
      ensures ReportGroups[k][i] in RentalModel.FieldNames
      ensures tables[k][i] == RowOf(ReportGroups[k][i], RentalModel.FieldValue(r, pmt, ReportGroups[k][i]))
    {
      var g := ReportGroups[k][i];
      assert g in ReportGroups[k];
      assert g in ShownNames;
      DumpValue(r, pmt, g);
    }
  }

  /** A deal's report has five tables, of 8, 3, 5, 6 and 3 rows. */
  lemma ShowReportSizes(r: RentalModel.Rental, pmt: RentalModel.Pmt)
    ensures ShowReport(r, pmt).Ok?
    ensures var tables := ShowReport(r, pmt).value;
      && |tables| == 5
      && |tables[0]| == 8 && |tables[1]| == 3 && |tables[2]| == 5 && |tables[3]| == 6 && |tables[4]| == 3
  {
    DumpColumnsUnique(r, pmt);
    SplitShape(RentalModel.Dump(r, pmt));
    GroupSizes();
  }
}

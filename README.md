# Rental calculator: deal model and report tables

This project models the computing core of a small rental-property calculator.

- **The deal record** (`model.py`). A `Rental` holds seventeen inputs: price, down-payment percentage, mortgage rate and term, closing costs, PMI and property-tax rates, insurance and HOA fees, repairs, rent, vacancy rate, maintenance, capex, management fees, horizon and appreciation. It derives twelve monthly figures from them. The figures are down payment, mortgage principal, total upfront costs, mortgage payment, PMI, property tax, insurance, HOA, vacancy cost, variable expenses, monthly expenses and monthly cash flow.
- **The report tables** (`process.py`, composed as in `app.py`). The record is dumped to a one-row frame. The frame is cut into five fixed, ordered groups of columns. Each group becomes a two-column table of rows: the `Metric` is the field name with underscores turned into spaces and then `capitalize()`d. The `Value` is a two-decimal percentage when the lower-cased label mentions "rate" or "percent". Otherwise it is whole-currency `$1,234`, or `$(1,234)` when negative.

The Dafny is split into three modules.

- `rental.dfy` (`RentalModel`):
  - the `Rental` datatype, with `int` fields where the record declares `int` and `real` fields where it declares `float`;
  - one function per computed field;
  - the `Metrics` record;
  - the dumped record (`FieldNames`, `FieldValue`, `Dump`).
- `process.dfy` (`Process`):
  - column selection `df[[names]]`, which can fail with a KeyError;
  - the five groups and the split;
  - the label transform;
  - the row formatting rule;
  - the processed tables;
  - `ShowReport`, the whole path from a deal to its tables.
- `pystr.dfy` (`PyStr`): the Python string behaviour the formatter relies on:
  - `replace`, `lower`, `capitalize` and the `in` substring test;
  - `'{:,.0f}'` and `'{:.2%}'`, with round-half-even on exact values;
  - read-back functions used to state what a formatted text means.

The library call `numpy_financial.pmt` is the function-valued parameter `pmt` of type `Pmt`. Every statement about the mortgage payment holds for any such function.

Points of the code worth knowing when reading the model:

- The second group lists `upfront_repairs, down_payment, total_upfront_costs` (process.py:20-24); `mortgage_principal` is in no group.
- The fourth group puts `capex` before `monthly_management_fees` (process.py:40-41).
- A zero mortgage rate has no branch of its own: it is handled inside `numpy_financial.pmt` (model.py:42-46), so `ZeroRateMortgage` takes the library's zero-rate behaviour as a hypothesis.
- The choice between a percentage and a currency amount is made on the transformed label (process.py:53), not on the field name. `PercentByName` proves the two agree for snake-case names.

## Model

| member | source | states |
|---|---|---|
| RentalModel.ComputeIsBalanced | model.py:24-106 | The twelve computed fields satisfy the deal's accounting identities: the down payment share, principal = price − down payment, upfront = down payment + closing + repairs, the PMI rule, the monthly tax, insurance and HOA amounts, vacancy, variable and total expenses, and cash flow. The identities determine the record once the mortgage payment is fixed. |
| RentalModel.DownPaymentShare | model.py:26-32 | The down payment is the stated percentage of the price. With a percentage in [0,100] and a non-negative price, both the down payment and the principal lie in [0, price]. |
| RentalModel.PrincipalPlusDownPayment | model.py:29-32 | Mortgage principal plus down payment equals the sale price. |
| RentalModel.UpfrontCostsAndLoan | model.py:26-37 | The cash paid up front plus the loan covers exactly the price, the closing costs and the repairs. With non-negative closing costs and repairs, the up-front cash is at least the down payment. |
| RentalModel.MortgagePaymentInputs | model.py:39-46 | Two deals that agree on the mortgage rate, the term, the price and the down-payment percentage have the same mortgage payment, for every library payment function. |
| RentalModel.ZeroRateMortgage | model.py:42-46 | At a zero rate, if the library spreads the loan evenly, the payment is principal / (12·years). |
| RentalModel.PmiRule | model.py:48-53 | PMI is 0 at a down payment of 20% or more. Otherwise it is principal·pmi_rate/1200. It is zero exactly when the down payment is ≥ 20% or the principal or the rate is 0. It is non-negative for a non-negative principal and rate. |
| RentalModel.VariableExpensesFloor | model.py:71-85 | With non-negative vacancy rate and rent, variable expenses are at least maintenance + capex + management. At a vacancy rate ≤ 100% the vacancy cost is between 0 and the rent. |
| RentalModel.CashflowPerCost | model.py:60-106 | Each monthly cost passes straight through to cash flow: e more a month of maintenance, capex or management fees, or 12·e more a year of insurance or HOA fees, lowers monthly cash flow by exactly e. |
| RentalModel.CashflowPerRent | model.py:71-106 | Raising the rent by e changes cash flow by e·(1 − vacancy/100). |
| RentalModel.IgnoresHorizonAndAppreciation | model.py:21-106 | Changing horizon and annualized appreciation leaves every computed field unchanged. |
| RentalModel.ExampleDeal | model.py:24-106 | The worked deal ($300,000, 20% down, 6%, 30 years, rent $2,200) gives: down payment 60,000; principal 240,000; upfront 67,000; PMI 0; monthly rate 0.005; 360 periods; tax 300; vacancy 110; variable 410; cash flow 1,390 − mortgage payment. |
| RentalModel.FieldNamesDistinct | model.py:5-106 | The 29 column names of the dumped record are pairwise distinct. |
| Process.SelectFails | process.py:8-17 | `df[[names]]` fails exactly when some requested name has no column. The error is non-empty and lists only absent requested names. |
| Process.SelectUnique | process.py:8-17 | When each requested name names exactly one column, the selection succeeds. It has one column per name, in request order, each being the frame's column of that name. |
| Process.ColumnsNamedExactly | process.py:8-17 | The columns a name selects are exactly the frame's columns carrying that name. |
| Process.GroupSizes | process.py:5-50 | There are five groups with 8, 3, 5, 6 and 3 names, 25 in all, and every grouped name is among the shown names. |
| Process.SplitShape | process.py:5-50 | If every grouped name names exactly one column, the split succeeds. It gives one table per group; column i of table k is the frame's column named by the i-th name of group k. |
| Process.SplitFails | process.py:5-50 | The split fails with a KeyError exactly when some grouped name has no column, whether or not other names are repeated. |
| Process.ShownNamesAreFields | process.py:5-50 | Every grouped name is a field of the deal record. |
| Process.FieldsNotShown | process.py:5-50 | Exactly four fields appear in no table: annual_hoa_fees, horizon, annualized_appreciation and mortgage_principal. |
| Process.LabelShape | process.py:65-67 | The label keeps the name's length and has no underscore. Its first character is not lower-case and no later character is upper-case. Each character matches the name's, case aside, with spaces for underscores. |
| Process.LabelIdempotent | process.py:65-67 | Transforming a label again leaves it unchanged. |
| Process.LabelRoundTrip | process.py:65-67 | A snake-case name is recovered from its label: spaces back to underscores, then lower-cased. |
| Process.LowerLabel | process.py:53-67 | For a snake-case name, the lower-cased label is the name with spaces for underscores. |
| Process.PercentByName | process.py:53-67 | For a snake-case field name, the label-based dispatch chooses a percentage exactly when the name contains "rate" or "percent". |
| Process.PercentRow | process.py:52-54 | A rate/percent metric's text is `[-]digits.dd%`: an optional '-', digits with no leading zero unless the whole part is 0, a '.', two digits and a final '%'. It is negative exactly when the value is, and reads back within 0.005 of the value. |
| Process.CurrencyRowNonNegative | process.py:56-57 | A non-negative amount of another metric shows `$` plus the comma-grouped rounded amount, starting with a digit. Without the commas it is the rounded value's decimal digits. It reads back within 0.5 of the value. |
| Process.CurrencyRowNegative | process.py:59 | A negative amount shows `$(` + grouped rounded magnitude + `)`. Without the commas the inner text is the magnitude's digits. It reads back within 0.5 of the value. |
| Process.CurrencyMirror | process.py:56-59 | For v > 0, the text for −v is the text for v without its `$`, wrapped in `$(` … `)`. |
| Process.RowExamples | process.py:52-59 | Worked rows: a rate or percent metric of 6 shows `6.00%`. Any other metric shows 2,200 as `$2,200`, −150 as `$(150)` and −1,234.4 as `$(1,234)`. |
| Process.ProcessedMetrics | process.py:61-67 | A processed table has one row per column, in order, and the metric of row i names column i back when the names are snake case. |
| Process.ProcessedSelection | process.py:61-69 | Processing the selected groups gives one table per group and one row per name. Row i of table k is the label and formatted value of the column named by the i-th name of group k. |
| Process.DumpValue | app.py:79 | In a deal's dumped record, each field name names exactly one column, and that column holds the field's value. |
| Process.DumpColumnsUnique | app.py:79-80 | Each grouped name names exactly one column of a deal's dumped record. |
| Process.ShowReportShape | app.py:79-81 | A deal's report never fails. Row i of table k is `RowOf` applied to the i-th name of group k and that field's value. |
| Process.ShowReportSizes | app.py:79-81 | A deal's report has five tables of 8, 3, 5, 6 and 3 rows. |
| PyStr.CapitalizeShape | process.py:66 | `capitalize()` keeps the length, upper-cases the first character and lower-cases every later one. |
| PyStr.LowerStrIdempotent | process.py:53 | Lower-casing twice is lower-casing once. |
| PyStr.ContainsIsSubstring | process.py:53 | The `in` scan holds exactly when the text occurs at some position. |
| PyStr.ContainsReplaced | process.py:53-66 | Turning underscores into spaces does not change whether a text free of both occurs. |
| PyStr.DigitsRoundTrip | process.py:57 | The decimal digits of n read back as n, and start with '0' only for n = 0. |
| PyStr.GroupedUngroup | process.py:57 | Removing the commas from the thousands-grouped text gives the plain decimal digits. |
| PyStr.GroupedShape | process.py:57 | The grouped text holds only digits and commas, with a comma exactly every fourth position from the right. It starts with the same digit as the plain digits. |
| PyStr.RoundHalfEven | process.py:54-57 | The rounded integer is within 1/2 of the value, and non-negative for a non-negative value. |
| PyStr.RoundHalfEvenTies | process.py:54-57 | Rounding returns the value itself exactly on whole numbers, and an even number on exact halves. |
| PyStr.FormatPercentShape | process.py:54 | `'{:.2%}'` text is an optional '-', digits with no leading zero unless the whole part is 0, a '.', two digits and a final '%'. It is negative exactly when the value is. |
| PyStr.PercentOfFraction | process.py:54 | A number of percent v, formatted as `'{:.2%}'` of v/100, is a percentage text, negative exactly when v is, and reads back within 0.005 of v. |
| PyStr.FormatExamples | process.py:54 | A 6% rate, passed as the fraction 0.06, is written `6.00%`. |
| PyStr.FormatPercentReadBack | process.py:54 | `'{:.2%}'` text reads back within half a hundredth of 100·x. |

## Left out

- Flask routes, templates and HTTP handling (app.py). Persistence, metadata and report files. The form-key normalisation and `_map_types`. These are I/O plumbing around the core. `ShowReport` starts from an already built `Rental`.
- `test.py`: a script with no checks.
- `numpy_financial.pmt`: a parameter `pmt`, not a definition. Nothing is assumed about it beyond what a lemma states as a hypothesis.
- Pydantic validation and coercion of form strings. Values arrive already typed.
- Floating point: all arithmetic is on exact reals. Python's `/` on ints gives a float; here it is exact division. Binary rounding error, infinities and NaN are not modelled. The format specifications round the exact value half to even, while CPython works on binary values, so the texts can differ near rounding ties. On the percent path this includes ties that binary represents exactly: the value is divided by 100 and `{:.2%}` multiplies by 100 again in binary. For example 13.625 becomes 13.625000000000002 and shows as 13.63%, where `FormatPercent` gives 13.62%.
- Dafny's `/` on reals is undefined at zero, like Python's. The model divides only by non-zero constants (100, 12), so no such case arises.
- pandas mechanics: `.T`, `reset_index` and column renaming are modelled as a map from columns to rows. A frame is its one row. Frames with several rows are not modelled, since the report always builds a one-row frame.
- Case mapping covers ASCII only. Python's `lower()` and `capitalize()` also map non-ASCII letters. Field names and labels are ASCII.
- `ProcessReportTable` and `ProcessAll` carry no contract of their own. They are row-wise maps. Their meaning is stated by `ProcessedMetrics`, `ProcessedSelection` and `ShowReportShape`.
- Concrete texts of whole rows, with the label computed from a literal field name, are not stated as lemmas. `RowExamples` states worked value texts for any metric on each side of the percent test; the label part is covered by `LabelShape` and `LabelRoundTrip`.
- Plotly is imported by process.py but unused.

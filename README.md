# Health dashboard data pipeline, in Dafny

This project models the data-reshaping core of a public-health dashboard:
the page component of `src/app/page.tsx` loads two CSV files and turns their
parsed rows into year-aligned series for charting. The model covers:

- **The year index** `YEARS`. It lists eighteen year labels, 2005 to 2022, and
  every output series is aligned to it (`YearIndex`).
- **The mortality aggregator**, the `complete` callback of the first parse
  (`Mortality`). It starts from one all-zero record per year and skips rows
  without an `ID`. Each remaining row goes through four (group, subgroup, sex)
  filters. A matching row overwrites one rate in every year slot with
  `parseFloat(cell) || 0`.
- **The morbidity aggregator**, the `complete` callback of the second parse
  (`Morbidity`, `RangeCode`). It finds the leftmost `J<digits>-J<digits>`
  range in the row's `Subgrupo de Causa` label and names a field after it,
  with `-` turned into `_`. For the years 2015 to 2022 it then writes the
  cell, with its first comma turned into a decimal point, under that field.
- **The selected-year lookup** `yearData` (`Selection`). It returns the mortality
  record of the selected year, or an all-zero record for that year.

The callbacks mutate arrays in place in nested loops. They are modelled as
methods over `array`s (`Mortality.AggregateMortality`,
`Morbidity.AggregateMorbidity`), with the same loops and branches. Each method
is proved equal to a pure function of its input rows (`Mortality.Aggregate`,
`Morbidity.Aggregate`), and the lemmas state what the source promises about
those functions. `parseFloat` is a parameter `parse: string -> Number`, where
`Number` is NaN or a finite real, so every property holds whatever
`parseFloat` returns. `x || 0` is `JsNumber.OrZero`.

The model follows the code as written, including where the code does not do
what it evidently intends:

- In the morbidity callback, the `if (!isNaN(value))` guard at
  src/app/page.tsx:204 shows that a cell failing to parse was meant to be
  skipped. But `parseFloat(...) || 0` at line 203 has already turned NaN into
  0, so the guard never rejects and 0 is written. `JsNumber.OrZero` proves
  that the result is never NaN, and `Morbidity.FailedParseWritesZero` proves
  that the 0 replaces any earlier value.

Running an aggregator twice on the same rows gives the same records. This
needs no separate lemma: each method's result equals a function of its input.

## Model

| member | source | states |
|---|---|---|
| `YearIndex.YearsAreConsecutive` | src/app/page.tsx:52-71 | `YEARS` has 18 four-digit labels. Label `i` denotes year 2005 + i, so no label occurs twice |
| `YearIndex.YearPosition` | src/app/page.tsx:127-128 | `YEARS.indexOf(year)` inside `YEARS.forEach` gives the position of the current year |
| `YearIndex.LookupYear` | src/app/page.tsx:128 | the `indexOf` lookup gives -1 for an unknown label. For a label in `YEARS` it gives the label's own unique position |
| `YearIndex.CoverageIsTail` | src/app/page.tsx:190-199 | the morbidity years 2015-2022 are the last eight entries of `YEARS`. A slot is covered exactly when its position is at least 10 |
| `YearIndex.CoveragePosition` | src/app/page.tsx:199-201 | for every covered year `indexOf` finds its slot, so the `yearIndex !== -1` test always passes |
| `Text.IndexOf` | src/app/page.tsx:128 | `indexOf` gives -1 exactly when the element is absent. Otherwise it gives a position holding the element, with no earlier occurrence |
| `Text.IndexOfIs` | src/app/page.tsx:128 | the first occurrence of an element is the position `indexOf` reports |
| `Text.ReplaceFirst` | src/app/page.tsx:203 | `replace(",", ".")` keeps the length. It changes only the character at the first occurrence, the position `IndexOf` finds |
| `Text.ReplaceFirstAbsent` | src/app/page.tsx:203 | a cell without a comma is left unchanged |
| `Text.ReplaceFirstAt` | src/app/page.tsx:203 | if the first occurrence is at `m`, the result is the string cut at `m` with the replacement character in between |
| `Text.ReplaceFirstRoundTrip` | src/app/page.tsx:188 | replacing back undoes the replacement when the new character does not occur before the first old one |
| `JsNumber.OrZero` | src/app/page.tsx:203-205 | the coercion `parseFloat(...) or 0` is never NaN. It is 0 exactly for NaN and 0, and keeps every other number |
| `RangeCode.DigitRun` | src/app/page.tsx:185 | the `\d+` run starting at a position is all digits and maximal |
| `RangeCode.MatchAt` | src/app/page.tsx:185 | a match of `J\d+-J\d+` at `i` ends at least five characters later, inside the label |
| `RangeCode.MatchAtIsLongestToken` | src/app/page.tsx:185 | the match at `i` is a range token, and no longer token starts at `i`. When there is no match, no range token starts at `i` |
| `RangeCode.DashIsAfterDigitRun` | src/app/page.tsx:185 | the dash of any range token sits right after the first maximal digit run, as greedy `\d+` requires |
| `RangeCode.FindFrom` | src/app/page.tsx:185 | the search returns the first position with a match, or none when no position has one |
| `RangeCode.ExtractRangeIsLeftmostLongest` | src/app/page.tsx:184-186 | `match(/(J\d+-J\d+)/)` finds nothing exactly when the label has no range token. Otherwise it returns the leftmost token, taken as long as it goes |
| `RangeCode.RangeTokenChars` | src/app/page.tsx:185 | apart from its dash, a range token holds only `J` and digits, so in particular no `-` and no `_` |
| `RangeCode.KeyOfRangeToken` | src/app/page.tsx:187-188 | `code.replace("-", "_")` turns the token's one dash into `_` and leaves no dash |
| `RangeCode.KeyOfRoundTrip` | src/app/page.tsx:188 | turning the field name's `_` back into `-` gives the token again, so different ranges get different fields |
| `RangeCode.AcuteInfectionsRange` | src/app/page.tsx:184-187 | the label "J00-J06 INFECCIONES AGUDAS" yields the range `J00-J06` |
| `RangeCode.AcuteInfectionsKey` | src/app/page.tsx:188 | the range `J00-J06` is stored under `J00_J06` |
| `Mortality.FirstMatch` | src/app/page.tsx:129-154 | the metric of a matching filter with no earlier filter matching is returned, i.e. the first match. None is returned exactly when no filter matches |
| `Mortality.TargetIsDecisionTable` | src/app/page.tsx:129-154 | the nested filter branches are the four-entry decision table read top to bottom, so a row writes at most one metric |
| `Mortality.TargetCases` | src/app/page.tsx:129-154 | each metric is reached by exactly one (group, subgroup, sex) triple. MASCULINO gives `male`, FEMENINO gives `female`, TOTAL gives `respiratory`, and only ischaemic-heart TOTAL rows give `cardiovascular` |
| `Mortality.InitialMortality` | src/app/page.tsx:116-122 | one record per year in `YEARS` order, with every rate at 0 |
| `Mortality.ApplyRowAt` | src/app/page.tsx:127-154 | for a row with an `ID`, slot `y` gets the row's metric set to its coerced cell for `YEARS[y]`, or stays unchanged when no filter matches |
| `Mortality.Aggregate` | src/app/page.tsx:116-156 | after any input, record `i` has year `YEARS[i]`, one record per year |
| `Mortality.RowEffect` | src/app/page.tsx:127-154 | one more row changes only the metric it writes, in every year slot, to its coerced cell (0 when absent or unparseable). The year and the other metrics stay |
| `Mortality.InertRowIgnored` | src/app/page.tsx:124-154 | a row with an empty or absent `ID`, or one matching no filter, leaves the result as if it were not in the input, wherever it stands |
| `Mortality.LastWriteWins` | src/app/page.tsx:135-153 | the final value of a metric in a year slot is the coerced cell of the last row writing that metric. Values are overwritten, not summed |
| `Mortality.NeverWrittenStaysZero` | src/app/page.tsx:116-153 | a metric that no row writes stays 0 in every year slot. In particular, `cardiovascular` stays 0 without an ischaemic-heart TOTAL row |
| `Mortality.MaleRespiratoryExample` | src/app/page.tsx:129-135 | a male acute-respiratory row with 2020 cell "12.5" sets the 2020 `male` rate to 12.5. The other 2020 rates stay as they were |
| `Mortality.AggregateMortality` | src/app/page.tsx:116-158 | the loops over rows and `YEARS` produce a freshly allocated array of exactly eighteen records, one per year, equal to `Aggregate(rows)` |
| `Mortality.ApplyRowInPlace` | src/app/page.tsx:127-155 | the inner `YEARS.forEach` applies one row in place: the array becomes `ApplyRow` of its old contents |
| `Morbidity.BaselineFields` | src/app/page.tsx:172-179 | the eight baseline range fields, `J00_J06` to `J85_J86`, each at 0 and no other field |
| `Morbidity.InitialMorbidity` | src/app/page.tsx:166-181 | one record per year in `YEARS` order. Counts are 0, there are no subgroups, and the range fields are the baseline at 0 |
| `Morbidity.Aggregate` | src/app/page.tsx:166-210 | after any input, record `i` has year `YEARS[i]`, one record per year |
| `Morbidity.RowEffect` | src/app/page.tsx:183-209 | one more row changes only covered year slots, and there only its own field, set to its coerced cell. A row without a range changes nothing |
| `Morbidity.UncoveredYearUntouched` | src/app/page.tsx:190-201 | a year slot outside 2015-2022 keeps its initial record, with every baseline field at 0, whatever the input |
| `Morbidity.RangelessRowIgnored` | src/app/page.tsx:184-186 | a row whose label is absent or has no range token leaves the result as if it were not in the input |
| `Morbidity.LastWriteWins` | src/app/page.tsx:199-205 | in a covered year, a field holds the coerced cell of the last row whose label names it |
| `Morbidity.UnnamedFieldIsBaseline` | src/app/page.tsx:166-210 | a field that no row names exists only as a baseline field, and then it is 0. The aggregator adds no other fields |
| `Morbidity.FixedFieldsUntouched` | src/app/page.tsx:166-210 | whatever the input, every record's respiratory and cardiovascular case counts stay 0 and its subgroup list stays empty, since no row writes them |
| `Morbidity.FailedParseWritesZero` | src/app/page.tsx:202-205 | an absent or unparseable cell still writes 0 under the row's field, replacing any earlier value (the `isNaN` guard never rejects) |
| `Morbidity.CoveredWrite` | src/app/page.tsx:199-205 | a row naming `key` whose coerced cell for a covered year is `v` leaves `v` under `key` in that year |
| `Morbidity.ExampleRowKey` | src/app/page.tsx:184-188 | a row labelled "J00-J06 INFECCIONES AGUDAS" writes the field `J00_J06` |
| `Morbidity.ExampleCell` | src/app/page.tsx:203 | the cell "1234,5" is read as "1234.5" |
| `Morbidity.AcuteInfectionsExample` | src/app/page.tsx:184-205 | a "J00-J06 INFECCIONES AGUDAS" row with 2018 cell "1234,5" gives `J00_J06` = 1234.5 in the 2018 record |
| `Morbidity.AggregateMorbidity` | src/app/page.tsx:166-212 | the loop over rows produces a freshly allocated array of exactly eighteen records, one per year, equal to `Aggregate(rows)` |
| `Morbidity.WriteCoveredYears` | src/app/page.tsx:190-208 | the loop over 2015-2022 applies one row in place: the array becomes `ApplyRow` of its old contents |
| `Selection.Find` | src/app/page.tsx:223 | `data.find` gives nothing exactly when no record has the year. Otherwise it gives the first record that has it |
| `Selection.YearData` | src/app/page.tsx:223-229 | the result always has the selected year. It is the first record of that year, or has all four rates at 0 when there is none |
| `Selection.SelectAggregated` | src/app/page.tsx:223-229 | on the mortality series, a year of `YEARS` selects its own slot. Any other label selects the zero record |

## Left out

- Network loading is not modelled: the `fetch` calls, `response.text()` and the `try`/`catch` with `console.error` (src/app/page.tsx:102-110, 215-217). Both aggregators take the parsed rows as input.
- The CSV parser (`Papa.parse`, src/app/page.tsx:113, 163) is a foreign library. A row is given as a map from column header to cell text, and a missing column is an absent key.
- React state and effects are UI plumbing: `useState`, `useEffect`, `setData`, `setMorbidityData` and the call to `loadData` (src/app/page.tsx:97-101, 158, 212, 220). The selected year is a parameter of `Selection.YearData`. The two loads run asynchronously, which is concurrency and is not modelled.
- All rendering is presentation and is not modelled: charts, the select control, cards, and the `parseInt(d.year) >= 2015` filter (src/app/page.tsx:231-360).
- `parseFloat` is a parameter rather than a model of IEEE parsing. Prefix parsing such as "12abc" and precision are whatever the parameter returns. The result type has only NaN and finite reals, so a parse yielding Infinity cannot be expressed.
- Numbers are exact reals, not 64-bit floats. Rounding is not modelled.
- In the source, a morbidity record is one object holding both the fixed fields and the range fields. The model keeps the range fields in a map beside the fixed fields. A range field name starts with `J` and contains `_`, so it can never collide with `year`, `respiratoryCases`, `cardiovascularCases` or `respiratorySubgroups`.

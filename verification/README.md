# Tradinizer core in Dafny

Tradinizer is a personal finance tracker. For each user and calendar year it
stores two kinds of record:

- the money invested (`Investment`: date, amount, type, name);
- liquidity observations (`LiquidityData`: date, amount).

Each year also keeps two running totals, `ExitInvestment` and `ExitLiquidity`.
A chart endpoint turns one year, or one month of it, into a report:

- the observed value minus what was invested so far;
- the organic day-over-day growth;
- the mean growth rate, rounded to cents;
- projections over a week, a month and a year.

This project models that core as immutable values and pure functions, and
proves what the controllers promise about it.

| file | module | models |
|---|---|---|
| `results.dfy` | `Results` | `Option`, `Result`, the HTTP replies (`Reply`, `Status`), and a store paired with a reply (`Response`) |
| `text.dfy` | `Text` | digits, `int.ToString()` and reading it back, `String.split`, ordinal string order, sorting distinct strings |
| `calendar.dfy` | `Calendar` | `DateOnly` (valid Gregorian dates 0001..9999), `AddMonths`, `AddDays(-1)`, `ToString("yyyy-MM-dd")` |
| `money.dfy` | `Money` | decimal sums and `Math.Round(x, 2)` with ties to even |
| `records.dfy` | `Records` | investments, liquidity observations, their totals, `FirstOrDefault` and `Remove` on lists |
| `store.dfy` | `Store` | the `YearData` table as a value: rows in table order, the next key, per-user lookups |
| `ids.dfy` | `Ids` | the two id policies: smallest unused id, and largest id + 1 in 32-bit arithmetic |
| `charts.dfy` | `Charts` | `ChartDataController.GetChartData` and `LoadAllYearExitInvestment` |
| `investment_api.dfy` | `InvestmentApi` | `InvestmentController` |
| `liquidity_api.dfy` | `LiquidityApi` | `LiquidityController` |
| `year_api.dfy` | `YearApi` | `YearController` |
| `years_legacy.dfy` | `YearsLegacy` | the older `YearsController` |
| `investments_legacy.dfy` | `InvestmentsLegacy` | the older file-backed `InvestmentsController` |
| `financial_chart.dfy` | `FinancialChart` | the helpers of the `FinancialChart` client component |

**The database.** It is a value `Db(rows, nextId)`. A query is a lookup that
returns the first matching row, as `FirstOrDefaultAsync` does. A write returns
the updated value together with the reply.

**The legacy data directory.** It is a map from year to the record in that
year's file. Its file listing is a parameter.

**Authentication.** The caller's user id is an `Option<UserId>`. `None` stands
for a request without an identity.

**Amounts.** They are exact `real`s.

**The client.** Its helpers work on `string`. JavaScript's `NaN` and
`undefined` are values of their own, so no result is left unspecified.

## Model

| member | source | states |
|---|---|---|
| Calendar.AddMonths | Tradinizer.Server/Controllers/ChartDataController.cs:53 | moves by whole months and keeps the day unless the target month is shorter, in which case the day becomes that month's last; fails exactly when the result leaves years 1..9999 |
| Calendar.DayBefore | Tradinizer.Server/Controllers/ChartDataController.cs:53 | the result is the immediate predecessor: it is before `d`, and nothing lies strictly between them; fails only on 0001-01-01 |
| Calendar.EndOfMonth | Tradinizer.Server/Controllers/ChartDataController.cs:52-53 | the 1st plus one month minus one day is the month's last day, for every month except December 9999, which has no successor |
| Calendar.InMonthRange | Tradinizer.Server/Controllers/ChartDataController.cs:52-53 | the dates from the 1st to the last day of a month are exactly the dates of that month |
| Calendar.InYearRange | Tradinizer.Server/Controllers/ChartDataController.cs:47-48 | the dates from January 1 to December 31 are exactly the dates of that year |
| Calendar.IsoString | Tradinizer.Server/Controllers/ChartDataController.cs:85 | ten characters with `-` at positions 4 and 7, and the year, month and day written in digits at their places |
| Calendar.IsoStringInjective | Tradinizer.Server/Controllers/ChartDataController.cs:85 | two labels are equal exactly when their dates are |
| Money.Round2 | Tradinizer.Server/Controllers/ChartDataController.cs:110 | the result is a whole number of hundredths within half a hundredth of the input, and a tie goes to the even hundredth |
| Money.Round2Unique | Tradinizer.Server/Controllers/ChartDataController.cs:110 | those three facts determine the result: any value that satisfies them is `Round2(x)` |
| Money.Round2OfCents | Tradinizer.Server/Controllers/ChartDataController.cs:110 | rounding leaves an amount that already has two decimals unchanged |
| Charts.ChartRange | Tradinizer.Server/Controllers/ChartDataController.cs:44-54 | month 0 gives January 1..December 31; months 1..12 give the 1st..last day of the month; it fails exactly for the years and months `DateOnly` cannot build, and for December 9999 |
| Charts.ChartRangeSelects | Tradinizer.Server/Controllers/ChartDataController.cs:44-54 | a date lies in the range exactly when it is in the requested year, and, unless month is 0, in the requested month |
| Charts.InRange | Tradinizer.Server/Controllers/ChartDataController.cs:69-70 | keeps each record with a date inside the range as often as it occurs, and no other record |
| Charts.SortByDate | Tradinizer.Server/Controllers/ChartDataController.cs:71 | the result is ordered by date and is a permutation of the input; the sort is stable, so the records of each date keep their input order |
| Charts.Observations | Tradinizer.Server/Controllers/ChartDataController.cs:69-72 | the selected observations are ordered by date and are exactly the in-range records, with multiplicity |
| Charts.ObservationsKeepOrder | Tradinizer.Server/Controllers/ChartDataController.cs:69-72 | for a date in range, the selected observations on that date are the stored ones in their stored order; for a date outside it there are none |
| Charts.InvestedWherePermutation | Tradinizer.Server/Controllers/ChartDataController.cs:74-76 | a group sum of investments does not depend on the order of the list |
| Charts.Scan | Tradinizer.Server/Controllers/ChartDataController.cs:78-98 | after `n` iterations the scan holds `n` dates, differences and percentage steps, none dividing by 0, and carries the last amount seen; its only failure is a division by zero |
| Charts.ScanFails | Tradinizer.Server/Controllers/ChartDataController.cs:89-97 | the scan fails exactly when an observation other than the last has amount 0 |
| Charts.ScanEntries | Tradinizer.Server/Controllers/ChartDataController.cs:78-98 | the running total is the baseline plus the per-date totals of the dates seen; for each index, the date, the difference and the step are given directly by the observations |
| Charts.ScanSameTotals | Tradinizer.Server/Controllers/ChartDataController.cs:82-83 | the scan reads the investments only through the per-date totals of the observed dates |
| Charts.ChartReport | Tradinizer.Server/Controllers/ChartDataController.cs:40-128 | an unbuildable range gives `DateOutOfRange`; a report has one label, one difference and one percentage per liquidity record in range |
| Charts.ReportFromScan | Tradinizer.Server/Controllers/ChartDataController.cs:78-128 | a report is the assembled result of a successful scan of the selected observations from the baseline |
| Charts.SelectedMeaning | Tradinizer.Server/Controllers/ChartDataController.cs:69-72 | the selected observations are ordered by date and are exactly the stored records of the requested year or month, with multiplicity; observations sharing a date keep their stored order |
| Charts.ReportLabels | Tradinizer.Server/Controllers/ChartDataController.cs:85 | label `i` is the `yyyy-MM-dd` date of selected observation `i` |
| Charts.ReportDifferences | Tradinizer.Server/Controllers/ChartDataController.cs:60-86 | difference `i` is amount `i` minus the baseline and the per-date investment totals of observations 0..i |
| Charts.ReportPercentages | Tradinizer.Server/Controllers/ChartDataController.cs:88-97 | percentage 0 is 0; every previous amount is non-zero; percentage `i` is (amount_i − (amount_{i−1} + invested on date_i)) / amount_{i−1} · 100 |
| Charts.ReportSteps | Tradinizer.Server/Controllers/ChartDataController.cs:88-97 | the report's percentages are those of the scan's steps, and each step is computed from its own observation and the previous one |
| Charts.ReportScalars | Tradinizer.Server/Controllers/ChartDataController.cs:101-128 | an empty selection gives exactly `new ChartData()`; otherwise the rate is the mean percentage rounded to cents, and the projections are the last amount plus 7, 30 and 365 times the rate |
| Charts.ReportFails | Tradinizer.Server/Controllers/ChartDataController.cs:88-94 | for a buildable range the report fails, always with `DivideByZero`, exactly when a selected observation other than the last has amount 0 |
| Charts.FirstOfMonthCountedTwice | Tradinizer.Server/Controllers/ChartDataController.cs:60-86 | in month mode an observation on the 1st subtracts that day's investments twice: once in the baseline and once in the scan |
| Charts.UnobservedInvestmentIgnored | Tradinizer.Server/Controllers/ChartDataController.cs:74-83 | an investment on a date without an observation leaves the report unchanged, unless month mode folds it into the baseline |
| Charts.ReportIgnoresStorageOrder | Tradinizer.Server/Controllers/ChartDataController.cs:69-76 | with no two observations on one date, the report does not depend on the order the records are stored in |
| Charts.SelectedIgnoresStorageOrder | Tradinizer.Server/Controllers/ChartDataController.cs:69-72 | with distinct dates, the date order of the selection is unique |
| Charts.PriorExitInvestment | Tradinizer.Server/Controllers/ChartDataController.cs:151-166 | the sum of `ExitInvestment` over the caller's rows for years before `year`; 0 when the caller has no such row |
| Charts.PriorExitConcat | Tradinizer.Server/Controllers/ChartDataController.cs:151-166 | the earlier-years total of two lists of rows together is the sum of their totals |
| Charts.PriorExitRemoveAt | Tradinizer.Server/Controllers/ChartDataController.cs:151-166 | taking out one row lowers the total by its `ExitInvestment` when it is the caller's and for an earlier year, and by nothing otherwise |
| Charts.PriorExitPermutation | Tradinizer.Server/Controllers/ChartDataController.cs:151-166 | the total does not depend on the order the query returns the rows in |
| Charts.PriorExitAfterUpdate | Tradinizer.Server/Controllers/ChartDataController.cs:151-166 | changing one row's `ExitInvestment` moves the earlier-years total of every later year of its owner by the change, and of no other year or user |
| Charts.PriorExitAppend | Tradinizer.Server/Controllers/ChartDataController.cs:151-166 | a new row adds its `ExitInvestment` to the earlier-years total exactly when it is the caller's and for an earlier year |
| Charts.GetChartData | Tradinizer.Server/Controllers/ChartDataController.cs:28-38 | a null user gives Unauthorized; no row for the year gives YearNotFound; otherwise, the report of the caller's first row for the year, with the earlier years' exit total as baseline |
| Records.InvestmentWithId | Tradinizer.Server/Controllers/InvestmentController.cs:107 | the position of the first investment with that id; `None` exactly when no investment has it |
| Records.LiquidityWithId | Tradinizer.Server/Controllers/InvestmentsController.cs:127 | the position of the first observation with that id; `None` exactly when no observation has it |
| Records.LiquidityOn | Tradinizer.Server/Controllers/LiquidityController.cs:70 | the position of the first observation on that date; `None` exactly when there is none |
| Store.FindYear | Tradinizer.Server/Controllers/InvestmentController.cs:31 | the first row of the caller for that year; `None` exactly when there is none, and always `None` for a missing user |
| Store.FindById | Tradinizer.Server/Controllers/YearController.cs:92 | a row with that key which the caller owns; `None` exactly when there is none |
| Store.YearLabelsMeaning | Tradinizer.Server/Controllers/YearController.cs:29-33 | every label reads back as a number, the numbers ascend, and they are exactly the years of the caller's rows, with repetitions |
| Ids.SmallestUnused | Tradinizer.Server/Controllers/InvestmentController.cs:71-79 | the result is unused, every smaller non-negative id is used, and it is at most the number of records |
| Ids.NextAfterMax | Tradinizer.Server/Controllers/InvestmentsController.cs:45 | 1 for an empty list; otherwise one more than the largest id, above every id; when the largest is the maximal 32-bit `int`, the result wraps to the minimal one |
| InvestmentApi.GetInvestment | Tradinizer.Server/Controllers/InvestmentController.cs:24-37 | NotFound exactly when the caller has no row for the year; otherwise the investments of one of the caller's rows for that year |
| InvestmentApi.GetInvestmentUnique | Tradinizer.Server/Controllers/InvestmentController.cs:29-36 | with one row per user and year, the reply is that row's investments |
| InvestmentApi.PostInvestment | Tradinizer.Server/Controllers/InvestmentController.cs:39-92 | missing body → BadRequest; null user → Unauthorized; no row for the date's year → BadRequest; none of these changes the store. On success only that row changes: the record is the body with the smallest unused id, appended in arrival order, and `ExitInvestment` rises by its amount |
| InvestmentApi.DeleteInvestment | Tradinizer.Server/Controllers/InvestmentController.cs:94-115 | NotFound, with nothing changed, when the year or the id is absent; otherwise the first record with that id is removed and answered, `ExitInvestment` falls by its amount, and nothing else changes |
| InvestmentApi.PostKeepsExitInvestment | Tradinizer.Server/Controllers/InvestmentController.cs:82-84 | a post keeps every `ExitInvestment` equal to its year's investment total |
| InvestmentApi.DeleteKeepsExitInvestment | Tradinizer.Server/Controllers/InvestmentController.cs:110-111 | a delete keeps every `ExitInvestment` equal to its year's investment total |
| InvestmentApi.PostKeepsIdsUnique | Tradinizer.Server/Controllers/InvestmentController.cs:71-82 | the smallest-unused id keeps each year's investment ids distinct |
| InvestmentApi.DeleteKeepsIdsUnique | Tradinizer.Server/Controllers/InvestmentController.cs:107-110 | a delete keeps each year's investment ids distinct |
| InvestmentApi.PostThenDelete | Tradinizer.Server/Controllers/InvestmentController.cs:39-115 | deleting the just-posted investment by its returned id answers it and restores the store exactly |
| InvestmentApi.PostShiftsLaterBaselines | Tradinizer.Server/Controllers/InvestmentController.cs:84 | a post moves the whole-year chart baseline of every later year of the same user by the amount, and no other baseline |
| LiquidityApi.GetLiquidity | Tradinizer.Server/Controllers/LiquidityController.cs:24-37 | NotFound exactly when the caller has no row for the year; otherwise the observations of one of the caller's rows for that year |
| LiquidityApi.WithoutFirstOn | Tradinizer.Server/Controllers/LiquidityController.cs:68-76 | one observation fewer on the date when there was one, and the observations on other dates kept in order |
| LiquidityApi.ReplacedAmount | Tradinizer.Server/Controllers/LiquidityController.cs:70-75 | the liquidity total falls by exactly this amount when the same-date observation is dropped |
| LiquidityApi.PostLiquidity | Tradinizer.Server/Controllers/LiquidityController.cs:39-99 | missing body, null user or missing year → error with the store unchanged. On success only that row changes: the first same-date observation is dropped and the new one appended, with the smallest id unused after the removal, and `ExitLiquidity` changes by new − replaced |
| LiquidityApi.UpsertOnDate | Tradinizer.Server/Controllers/LiquidityController.cs:68-89 | after drop-and-append the date holds one observation if it held none, otherwise as many as before; the other dates are untouched |
| LiquidityApi.PostLiquidityCount | Tradinizer.Server/Controllers/LiquidityController.cs:68-89 | after a post the year holds exactly one observation on the date whenever it held at most one |
| LiquidityApi.PostLiquidityOthersUntouched | Tradinizer.Server/Controllers/LiquidityController.cs:68-89 | observations on other dates are kept, in their order |
| LiquidityApi.PostKeepsExitLiquidity | Tradinizer.Server/Controllers/LiquidityController.cs:70-91 | a post keeps every `ExitLiquidity` equal to its year's liquidity total |
| LiquidityApi.DistinctDatesRemoveAt | Tradinizer.Server/Controllers/LiquidityController.cs:74 | removing an observation keeps dates distinct |
| LiquidityApi.PostKeepsDatesDistinct | Tradinizer.Server/Controllers/LiquidityController.cs:68-89 | a post keeps every year at one observation per date |
| LiquidityApi.PostLiquidityIdempotent | Tradinizer.Server/Controllers/LiquidityController.cs:39-99 | posting the same observation twice gives the same store and reply as posting it once, when the date held at most one |
| LiquidityApi.PostReusesReplacedId | Tradinizer.Server/Controllers/LiquidityController.cs:78-86 | replacing a year's only observation gives the new one id 0, whatever the old id was |
| YearApi.InitialInvestments | Tradinizer.Server/Controllers/YearController.cs:56-74 | one investment per body entry, with the same fields, or none when the list is missing |
| YearApi.InitialLiquidities | Tradinizer.Server/Controllers/YearController.cs:56-74 | one observation per body entry, with the same fields, or none when the list is missing |
| YearApi.NewYear | Tradinizer.Server/Controllers/YearController.cs:56-74 | the new row takes the next key, the caller, the body's year and records, and the body's exit totals as given |
| YearApi.GetAllYears | Tradinizer.Server/Controllers/YearController.cs:25-36 | always Ok, one label per row of the caller, and nothing for a missing user |
| YearApi.GetAllYearsMeaning | Tradinizer.Server/Controllers/YearController.cs:29-33 | the labels read back as ascending numbers that are exactly the caller's years |
| YearApi.AddYear | Tradinizer.Server/Controllers/YearController.cs:39-83 | missing body → BadRequest; null user → Unauthorized; a year the caller already has → BadRequest; none of these changes the store. Otherwise Created, and the new row is appended under the next key |
| YearApi.AddYearKeepsOneRowPerYear | Tradinizer.Server/Controllers/YearController.cs:52-54 | the duplicate check keeps each user at one row per year |
| YearApi.AddYearPerUser | Tradinizer.Server/Controllers/YearController.cs:52-54 | a year held only by other users is accepted, and the caller then holds exactly one row for it |
| YearApi.AddYearMayStoreInconsistentTotals | Tradinizer.Server/Controllers/YearController.cs:56-74 | the exit totals are taken from the body and not recomputed, so a created row can disagree with its records |
| YearApi.GetYear | Tradinizer.Server/Controllers/YearController.cs:85-98 | NotFound exactly when no row both has the key and belongs to the caller; otherwise such a row |
| YearApi.DeleteYear | Tradinizer.Server/Controllers/YearController.cs:100-115 | NotFound, with nothing changed, exactly when the caller has no row for the year; otherwise one such row is removed and no row is added |
| YearApi.DeleteYearOnlyCaller | Tradinizer.Server/Controllers/YearController.cs:104-111 | deleting leaves the row counts of every other user and year unchanged |
| YearApi.AddThenDeleteYear | Tradinizer.Server/Controllers/YearController.cs:39-115 | creating a year and deleting it restores the rows; only the key counter has moved on |
| YearsLegacy.AddYear | Tradinizer.Server/Controllers/YearsController.cs:52-86 | missing body → BadRequest; unknown user → Unauthorized; neither changes anything. Otherwise the row is appended with no duplicate check |
| YearsLegacy.AddYearDuplicates | Tradinizer.Server/Controllers/YearsController.cs:63-83 | adding a year the caller already holds gives the caller one more row for it |
| YearsLegacy.AddYearTwiceBreaksOneRowPerYear | Tradinizer.Server/Controllers/YearsController.cs:63-83 | adding the same year twice leaves two rows for it |
| YearsLegacy.GetYear | Tradinizer.Server/Controllers/YearsController.cs:88-101 | NotFound exactly when no row both has the key and belongs to the caller |
| YearsLegacy.GetAllYears | Tradinizer.Server/Controllers/YearsController.cs:104-115 | the labels read back as ascending numbers that are exactly the caller's years |
| InvestmentsLegacy.LoadYearTrading | Tradinizer.Server/Controllers/InvestmentsController.cs:150-158 | a year without a file reads as an empty record carrying that year; otherwise the stored record |
| InvestmentsLegacy.Save | Tradinizer.Server/Controllers/InvestmentsController.cs:160-165 | writes the record under its own year and leaves every other file as it was |
| InvestmentsLegacy.LoadYears | Tradinizer.Server/Controllers/InvestmentsController.cs:167-183 | the listed years' names, each once, in ascending string order |
| InvestmentsLegacy.ListedName | Tradinizer.Server/Controllers/InvestmentsController.cs:26 | a year's name is listed exactly when the year is |
| InvestmentsLegacy.GetYears | Tradinizer.Server/Controllers/InvestmentsController.cs:11-19 | ascending as strings, and a year's name appears exactly when the year is listed |
| InvestmentsLegacy.GetYearsIsLoadYears | Tradinizer.Server/Controllers/InvestmentsController.cs:16 | the second sort changes nothing |
| InvestmentsLegacy.YearsOrderedAsStrings | Tradinizer.Server/Controllers/InvestmentsController.cs:16 | the order is that of strings: for the years 999 and 1000 the answer is `["1000", "999"]` |
| InvestmentsLegacy.SetYears | Tradinizer.Server/Controllers/InvestmentsController.cs:21-37 | Conflict, with nothing written, exactly when the year has a file; otherwise an empty record for it is stored and answered |
| InvestmentsLegacy.PostInvestment | Tradinizer.Server/Controllers/InvestmentsController.cs:39-56 | the investment, with id 1 or one more than the year's largest, is appended to the year of its date, and `ExitInvestment` rises by its amount |
| InvestmentsLegacy.GetInvestment | Tradinizer.Server/Controllers/InvestmentsController.cs:58-63 | the stored investments, or none for a year without a file |
| InvestmentsLegacy.DeleteInvestment | Tradinizer.Server/Controllers/InvestmentsController.cs:65-79 | NotFound, with nothing written, exactly when no investment has the id; otherwise the first one with it is removed and answered, and `ExitInvestment` falls by its amount |
| InvestmentsLegacy.PostLiquidity | Tradinizer.Server/Controllers/InvestmentsController.cs:81-112 | the first same-date observation is dropped and the new one appended, with id 1 or one more than the largest remaining, and `ExitLiquidity` changes by new − replaced |
| InvestmentsLegacy.GetLiquidity | Tradinizer.Server/Controllers/InvestmentsController.cs:114-119 | the stored observations, or none for a year without a file |
| InvestmentsLegacy.DeleteLiquidity | Tradinizer.Server/Controllers/InvestmentsController.cs:121-135 | NotFound, with nothing written, exactly when no observation has the id; otherwise the first one with it is removed and answered, and `ExitLiquidity` falls by its amount |
| InvestmentsLegacy.LoadConsistent | Tradinizer.Server/Controllers/InvestmentsController.cs:153-154 | a year without a file reads with zero totals that match its empty records |
| InvestmentsLegacy.PostInvestmentKeepsConsistent | Tradinizer.Server/Controllers/InvestmentsController.cs:48-50 | an investment post keeps every file's totals equal to its records' sums |
| InvestmentsLegacy.DeleteInvestmentKeepsConsistent | Tradinizer.Server/Controllers/InvestmentsController.cs:74-75 | an investment delete keeps every file's totals equal to its records' sums |
| InvestmentsLegacy.PostLiquidityKeepsConsistent | Tradinizer.Server/Controllers/InvestmentsController.cs:88-105 | a liquidity post keeps every file's totals equal to its records' sums |
| InvestmentsLegacy.DeleteLiquidityKeepsConsistent | Tradinizer.Server/Controllers/InvestmentsController.cs:130-131 | a liquidity delete keeps every file's totals equal to its records' sums |
| InvestmentsLegacy.PostThenDelete | Tradinizer.Server/Controllers/InvestmentsController.cs:39-79 | for a year that already has a file, deleting the just-posted investment by its id answers it and restores every file, while the year's ids are below the 32-bit maximum |
| InvestmentsLegacy.PostThenDeleteNewYear | Tradinizer.Server/Controllers/InvestmentsController.cs:39-79 | for a year with no file, the post creates the file and the delete leaves the empty record of that year behind; every other file is unchanged |
| InvestmentsLegacy.PostKeepsIdsUnique | Tradinizer.Server/Controllers/InvestmentsController.cs:45-48 | largest + 1 keeps the year's ids distinct, as long as none has reached the 32-bit maximum |
| InvestmentsLegacy.PostLiquidityOnDate | Tradinizer.Server/Controllers/InvestmentsController.cs:88-103 | a liquidity post leaves exactly one observation on the date when there was at most one, and keeps the other dates in order |
| FinancialChart.ParseIntJs | tradinizer.client/src/Components/FinancialChart.tsx:39 | `parseInt` gives a number or `NaN`, never `undefined` |
| FinancialChart.ParseIntJsDigits | tradinizer.client/src/Components/FinancialChart.tsx:39 | `parseInt` of a string of digits is its value |
| FinancialChart.NumberJs | tradinizer.client/src/Components/FinancialChart.tsx:47 | `Number` gives a number or `NaN`; a string of digits gives its value |
| FinancialChart.SecondPiece | tradinizer.client/src/Components/FinancialChart.tsx:38 | the second piece exists exactly when the string contains `-` |
| FinancialChart.FormatMonthYear | tradinizer.client/src/Components/FinancialChart.tsx:37-41 | the label is a month name or "undefined", and it is a month name exactly when the part after the first `-` parses to 1..12 |
| FinancialChart.SpaceBeforeMonth | tradinizer.client/src/Components/FinancialChart.tsx:37-41 | white space that `parseInt` skips, such as a no-break space, in front of the month's digits does not change the label |
| FinancialChart.ParseIntJsAfterSpace | tradinizer.client/src/Components/FinancialChart.tsx:39 | `parseInt` skips a leading white-space character, including the Unicode spaces and line terminators, before digits |
| FinancialChart.FormatMonthKey | tradinizer.client/src/Components/FinancialChart.tsx:37-41 | the option of a date is labelled with the name of that date's month; the year is dropped |
| FinancialChart.ExtractMonth | tradinizer.client/src/Components/FinancialChart.tsx:43-49 | the empty selection gives month 0; a selection without `-` gives `undefined` |
| FinancialChart.ExtractMonthOfKey | tradinizer.client/src/Components/FinancialChart.tsx:43-49 | choosing the `yyyy-MM` option of a date sends that date's month |
| FinancialChart.MonthKey | tradinizer.client/src/Components/FinancialChart.tsx:100 | the option of a server date is seven characters: the year in digits, `-`, then the month in digits |
| FinancialChart.MonthOptions | tradinizer.client/src/Components/FinancialChart.tsx:100 | strictly ascending, and exactly the 7-character prefixes of the observation dates |
| FinancialChart.MonthOptionsDetermined | tradinizer.client/src/Components/FinancialChart.tsx:100 | any strictly ascending list of the distinct prefixes is the option list |
| FinancialChart.MonthOptionsSelectable | tradinizer.client/src/Components/FinancialChart.tsx:100-102 | for dates as the server sends them, every option is the month of some observation: it sends that month and shows its name |
| FinancialChart.InvestmentMap | tradinizer.client/src/Components/FinancialChart.tsx:77-80 | the map has an entry exactly for the dates some investment carries |
| FinancialChart.InvestmentMapSums | tradinizer.client/src/Components/FinancialChart.tsx:77-80 | each entry is the total of the investments on its date |
| FinancialChart.LastAmountOn | tradinizer.client/src/Components/FinancialChart.tsx:83-86 | the amount of an observation on the date with no later one on that date; `None` exactly when no observation is on it |
| FinancialChart.LiquidityMap | tradinizer.client/src/Components/FinancialChart.tsx:83-86 | the map has an entry exactly for the dates some observation carries |
| FinancialChart.LiquidityMapKeepsLast | tradinizer.client/src/Components/FinancialChart.tsx:83-86 | each entry is the amount of the last observation on its date |
| Text.SortDistinct | tradinizer.client/src/Components/FinancialChart.tsx:100 | strictly ascending, with exactly the input's strings |
| Text.AscendingUnique | tradinizer.client/src/Components/FinancialChart.tsx:100 | two strictly ascending lists with the same strings are equal, so the sorted result does not depend on the algorithm |
| Text.Split | tradinizer.client/src/Components/FinancialChart.tsx:38 | the pieces contain no separator, and joining them with it gives back the string |
| Text.ParseIntToString | Tradinizer.Server/Controllers/YearController.cs:32 | a year label reads back as the year |

## Behaviour worth knowing

- **Month mode counts an investment on the 1st twice.** The baseline of a
  month report already counts investments dated on or before the 1st. An
  observation on the 1st then adds that day's investments again (see
  `Charts.FirstOfMonthCountedTwice`).
- **Rounding.** The growth rate uses .NET's default `Math.Round`, which sends
  a tie to the even cent.
- **A previous observation of 0 is an error.** Decimal division by it throws,
  so the report fails with `DivideByZero`; nothing is skipped.
- **Two observations on one date.** The SQL and legacy liquidity posts drop
  only the first observation on the date, so a post leaves exactly one
  observation on that date only when the year held at most one before. A
  year can hold two through a year body or a legacy file. The chart then
  reports them in their stored order, because `OrderBy` is a stable sort
  (`Charts.ObservationsKeepOrder`).
- **No year row.** A missing row for the user makes `GetChartData` throw
  (`KeyNotFoundException`). The model answers with the error result
  `YearNotFound`.

## Left out

- **I/O.** Entity Framework queries and `SaveChangesAsync` become lookups and
  returned values. File reads and writes and JSON (de)serialisation in the
  legacy controller do too. Authentication and the identity framework are
  reduced to an optional user id.
- **Database keys of child records.** New `Investment` and `LiquidityData`
  rows in the SQL database get their key from an autoincrement column. The
  model stores the id the controller computes. `YearApi.InitialInvestments`
  and `YearApi.InitialLiquidities` leave it at 0, its value before insertion.
- **Database constraint failures.** Primary-key conflicts and concurrent
  writes are not modelled.
- **Legacy files.** A file holding the JSON `null` deserialises to a record
  of year 0; this is not modelled. Data files whose names are not years are
  left out, because the listing is a list of years.
- InvestmentsLegacy.LoadYears: treats the directory listing as a set of
  years. Two files whose names share the part before the first dot (such as
  `2024.json` and `2024.old.json`) would list a year twice in the source.
  The names are sorted in ordinal code-point order, while the source's
  `OrderBy(y => y)` uses the culture-aware comparer. `SetYears` accepts a
  negative year, whose file name starts with `-`. A culture-aware comparer
  may weigh the `-` differently, so where such names are listed the model's
  order is not established to be the source's. The model states the
  ordinal order for every name, including the digit-only names of
  non-negative years.
- **Legacy request bodies.** A missing body for the legacy investment and
  liquidity posts is answered by the framework before the action runs, so
  those bodies are plain values here.
- **`userExists`.** Its result is never used, so the query in
  `GetChartData` is left out.
- **Decimal limits.** The 28-digit precision of `decimal`, its overflow, and
  the floating point of JavaScript numbers are out of scope: amounts are
  exact reals.
- **String order.** C# `OrderBy` on strings and JavaScript `sort()` are
  modelled as ordinal code-point order. JavaScript's `sort()` compares UTF-16
  code units, which agree with code points on the `yyyy-MM` options the
  client sorts. C# `OrderBy` uses the culture-aware comparer; the model
  does not reproduce that comparer.
- FinancialChart.Slice7: counts characters as code points, while JavaScript's
  `slice(0, 7)` counts UTF-16 code units. They differ only when a character
  outside the Basic Multilingual Plane comes within the first seven. The
  dates the server sends are ASCII.
- FinancialChart.NumberJs: covers decimal integers only. Fractions, exponents,
  hexadecimal and `Infinity` are `NaN` here, although JavaScript's `Number`
  reads them. The month pieces the component produces are integers.
- FinancialChart.InvestmentMap: treats `get(date) || 0` as "the entry, or 0".
  The two differ only for a `NaN` entry, and exact reals have none.
- **Client-side fetching and rendering.** The retry loop, the `useEffect`
  wiring and the rendering of `FinancialChart` are UI plumbing.

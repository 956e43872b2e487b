# Rule-based HR query dispatcher, modelled in Dafny

This project models `handle_rule_based_query` (`helpers/query_handler.py`),
the part of the HR assistant that answers a free-text question about an
employee table without the language model. The table has the columns `Name`,
`Department`, `Join Date`, `Exit Date` (absent while the employee is active)
and `Salary` (possibly absent). The handler lower-cases the question and tries
twelve recognisers in a fixed order. The first one whose literal phrase or
regular expression matches decides the answer:

- average salary, overall or for one department;
- employees who joined before, between or after dates;
- employees who joined in a year;
- exits in the last twelve months;
- the active headcount, and the active listing;
- the count by department;
- the exit count for a year;
- departments with more than N employees, and the top N departments.

When nothing matches, the handler returns `None`, and the caller hands the
question to the language model.

Files and modules:

- `options.dfy`, module `Options`: the `Option` type.
- `text.dfy`, module `Text`: ASCII `lower`/`capitalize`, literal search (`in`),
  greedy character runs, `strip(" ?“”\"'")`, digit strings, and a leftmost
  search over positions (`First`). Both `re.search` and the if-chain over the
  recognisers are that search.
- `records.dfy`, module `Records`:
  - the employee row;
  - dates as day numbers, and instants in microseconds;
  - the calendar year of a day, checked against a count of whole years and
    leap days from 1970;
  - boolean-mask selection `df[mask]` (`Filter`) with an independent
    characterisation (`Selects`);
  - the day-level meaning of comparing a date column with an instant;
  - `Series.mean()` with missing values skipped.
- `departments.dfy`:
  - module `Departments`: per-department counts, first-appearance department
    list, and a stable sort by count, largest first;
  - module `DepartmentTables`: `value_counts()`, the threshold table and the
    top-N table.
- `patterns.dfy`, module `Patterns`: `re.search` as a left-to-right scan,
  each recogniser as an explicit matcher on the lowered query, the ordered
  catalogue, and first-match classification.
- `query_handler.dfy`, module `QueryHandler`: the answers, the branch bodies
  (`Respond`), the whole handler (`Dispatch`), and one specification lemma per
  branch.

The handler has three inputs from outside:

- The clock (`datetime.today()`) is the parameter `now`, an instant with a
  time of day.
- The date parser (`dateutil.parser.parse(..., fuzzy=True, dayfirst=True)`)
  is the parameter `parse: string -> Option<Instant>`. It is applied to the
  stripped phrase. `None` stands for any exception the branch's inner
  `try` catches: the parser's own error, or a parsed date that cannot be
  compared with the Join Date column.
- The table is a `seq<Employee>` in file order.

Answers carry the selected rows, counts or tables, not the rendered messages.
An empty listing stands for the corresponding "No employees ..." or "There
are no currently active employees" message.

Two behaviours of the code are easy to misread:

- Count by department is sorted by count, largest first, as `value_counts()`
  does. It is not sorted by department label.
- The twelve-month window compares each exit date's midnight with
  `today - 365 days` and `today`, both at the current time of day. So the day
  365 days back is included only when the clock reads exactly midnight, and
  today is always included. It is not a plain inclusive range of days.

## Model

| member | source | states |
|---|---|---|
| `Text.Lower` | helpers/query_handler.py:7 | the lowered query has the same length; each upper-case letter becomes its own lower-case letter and every other character is kept, so no upper-case letter is left |
| `Text.LowerCapitalize` | helpers/query_handler.py:15-16 | `capitalize()` never changes the lower-cased name, so the department filter compares against the name as the query spelled it |
| `Text.Strip` | helpers/query_handler.py:29 | the stripped phrase is a contiguous slice of the input; everything cut from either end is one of ` ?“”"'`; it neither starts nor ends with one of them |
| `Text.StripStart` | helpers/query_handler.py:29 | the leading cut stops at the first character that is not one of ` ?“”"'`, and everything before it is one |
| `Text.StripEnd` | helpers/query_handler.py:29 | the trailing cut stops after the last character that is not one of ` ?“”"'`, and everything after it is one |
| `Text.TakeWhile` | helpers/query_handler.py:11 | a greedy repetition takes the longest prefix whose characters all belong to the class, and stops only at a character outside it |
| `Text.FirstSpec` | helpers/query_handler.py:11-171 | the leftmost position in a range where a matcher succeeds, and nothing exactly when it succeeds nowhere |
| `Text.ContainsInside` | helpers/query_handler.py:97-106 | containing a phrase means containing every phrase inside it |
| `Patterns.SearchSpec` | helpers/query_handler.py:11 | `re.search` finds nothing exactly when the pattern matches at no position; otherwise the groups come from the leftmost match |
| `Patterns.FirstFourDigits` | helpers/query_handler.py:146 | `(\d{4})` yields the first four-digit run anywhere in the query, and nothing exactly when there is none |
| `Patterns.Recognise` | helpers/query_handler.py:11-164 | each recogniser, when it fires, yields a request of its own kind |
| `Patterns.Classify` | helpers/query_handler.py:11-171 | the request comes from the first recogniser in source order that fires; every earlier one did not fire; there is no request exactly when none fires |
| `Patterns.ChosenNoLaterThan` | helpers/query_handler.py:11-171 | any recogniser that fires shadows all later ones |
| `Patterns.ChosenAt` | helpers/query_handler.py:11-171 | a recogniser that fires after all earlier ones failed is the one chosen |
| `Records.Filter` | helpers/query_handler.py:122 | `df[mask]` keeps only rows satisfying the mask, keeps every such row, and keeps table order |
| `Records.FilterSelects` | helpers/query_handler.py:36-39 | a mask selection keeps the table order and each matching row exactly as often as the table has it |
| `Records.SelectsIsFilter` | helpers/query_handler.py:36-39 | the ordered, multiplicity-exact selection is unique: it is the mask result |
| `Records.SelectsMembers` | helpers/query_handler.py:32 | a row is selected iff it is in the table and satisfies the mask |
| `Records.FilterPartition` | helpers/query_handler.py:122 | a mask and its negation split the table between them |
| `Records.FilterImplies` | helpers/query_handler.py:149 | a stricter mask selects no more rows |
| `Records.MeanSalary` | helpers/query_handler.py:18 | the mean is undefined (NaN) exactly when no row has a salary |
| `Records.YearOfDaySpec` | helpers/query_handler.py:86 | `.dt.year` gives a year whose 1 January is on or before the day and whose next 1 January is after it |
| `Records.YearOfDaySpan` | helpers/query_handler.py:149 | `.dt.year == y` holds exactly for the days from 1 January of `y` to the day before 1 January of `y + 1` |
| `Records.YearLength` | helpers/query_handler.py:86 | the reference calendar gives a year 366 days exactly when it is a Gregorian leap year (divisible by 4, and by 400 if by 100), otherwise 365 |
| `Records.MidnightBefore` | helpers/query_handler.py:32 | a join date's midnight is before an instant iff the day is earlier, or the same day and the instant is past midnight |
| `Records.MidnightAfter` | helpers/query_handler.py:70 | a join date's midnight is after an instant iff the day is later |
| `Records.DayShift` | helpers/query_handler.py:108 | subtracting whole days moves the day and keeps the time of day |
| `Records.LastYearWindow` | helpers/query_handler.py:107-109 | an exit date's midnight is in `[now - 365 days, now]` iff it is among the 365 days ending today, or it is the day 365 days back and `now` is a midnight |
| `Departments.CountPositive` | helpers/query_handler.py:140 | a department has a positive count iff it occurs in the table |
| `Departments.DepartmentsSpec` | helpers/query_handler.py:140 | the counting step lists each department of the table exactly once |
| `Departments.SortByCountSpec` | helpers/query_handler.py:140 | sorting by count is a permutation with counts non-increasing |
| `DepartmentTables.TallySpec` | helpers/query_handler.py:140 | before sorting, every department appears once with its true positive count |
| `DepartmentTables.ValueCountsSpec` | helpers/query_handler.py:139-142 | the count table lists every department exactly once with its true positive count, largest first, and has one row per department |
| `DepartmentTables.MoreThanSpec` | helpers/query_handler.py:155-161 | a department is in the threshold table iff its count is strictly above N; each once, with its true count, largest first |
| `DepartmentTables.TopSpec` | helpers/query_handler.py:164-169 | the top-N table has min(N, number of departments) rows, with true counts, largest first; no omitted department outranks a listed one |
| `QueryHandler.Respond` | helpers/query_handler.py:12-169 | every branch answers; table answers come exactly from the three table branches; an exit count or "couldn't identify the year" comes exactly from the exit-year branch; date-parsing errors come only from the three date branches |
| `QueryHandler.Dispatch` | helpers/query_handler.py:6-171 | the answer is `Unhandled` (`None`) exactly when no recogniser fires on the lowered query; otherwise it is the branch answer of the first recogniser that fires |
| `QueryHandler.LastTwelveMonthsShadowsExitCount` | helpers/query_handler.py:97-152 | a query containing "how many employees left in the last 12 months" fires both the twelve-month and the exit-year triggers, is answered, and never gets an exit count or the year warning |
| `QueryHandler.ExitCountDispatch` | helpers/query_handler.py:145-152 | an exit-count question no earlier branch catches is answered for the first four-digit run anywhere in the query |
| `QueryHandler.AverageSalaryOverallSpec` | helpers/query_handler.py:22-24 | the overall mean is over the rows with a salary, and is NaN exactly when none has one |
| `QueryHandler.SalaryValuesFilter` | helpers/query_handler.py:23 | rows without a salary contribute nothing to the mean |
| `QueryHandler.AverageSalaryDepartmentSpec` | helpers/query_handler.py:13-21 | the department average is over exactly the rows whose department equals the requested name case-insensitively and that have a salary; it is "no salary data" for the capitalised name exactly when there is no such row |
| `QueryHandler.JoinedBeforeSpec` | helpers/query_handler.py:27-42 | a parse failure reports the stripped phrase; otherwise the listing selects, in table order, the rows joined on an earlier day, or on that day when the parsed instant is past midnight |
| `QueryHandler.JoinedBetweenSpec` | helpers/query_handler.py:44-62 | the start phrase is parsed and reported first; both bounds are inclusive, with no reordering, and a start after the end selects no one |
| `QueryHandler.JoinedAfterSpec` | helpers/query_handler.py:64-80 | a parse failure reports the stripped phrase; otherwise the listing selects exactly the rows joined on a later day |
| `QueryHandler.JoinedInYearSpec` | helpers/query_handler.py:82-94 | the listing selects exactly the rows whose join day falls in the requested calendar year |
| `QueryHandler.ExitedLastYearSpec` | helpers/query_handler.py:96-118 | rows without an exit date are never selected; the listing selects the day-level window; the answer is the integer-conversion error exactly when a selected row has no salary |
| `QueryHandler.ActiveSpec` | helpers/query_handler.py:120-136 | the listing selects exactly the rows without an exit date; the headcount is its length; active and exited rows together make up the table |
| `QueryHandler.ExitedInYearSpec` | helpers/query_handler.py:144-152 | without a year, the answer is the year warning; otherwise it counts exactly the rows whose exit date falls in that year, which is no more than the exited rows |

## Left out

- The Streamlit UI, CSV upload, chart and download, and the language-model fallback, are outside the handler.
- The date parser is a parameter. Its fuzzy, day-first parsing rules and its error texts are not modelled. A failure is `DateParseError` carrying the phrase it was given.
- Message wording, `strftime`/`date()` formatting, `round(..., 2)` and currency formatting are not modelled. The mean is an exact real, not a float.
- Patterns.Recognise: its contract states only which kind of request each recogniser yields. What each trigger accepts is written out in the recogniser bodies.
- Lower-casing, letters and digits are ASCII only. Python's `str.lower` and `\d` also cover other Unicode characters.
- Missing departments and missing join dates are not modelled. A department or a join date is always present; only exit date and salary may be absent.
- The order `value_counts()` gives to departments with equal counts is not specified by the source. The model lists ties in order of first appearance, and no proved property depends on that order.
- In the three date branches (lines 32, 52 and 70) the inner `except Exception` (lines 41-42, 61-62, 79-80) also turns a failed comparison after a successful parse into the date-parsing error: a time-zone-aware parsed date, or a Join Date column that does not hold dates. The model gives `DateParseError` only when `parse` returns `None`, so `parse` is to return `None` for such a date. A Join Date column that does not hold dates is not modelled: every join date is a day.
- Of the exceptions caught by the outer handler in the other branches, only `int()` of a missing salary in the twelve-month listing is modelled, as `SalaryNotInteger`. Others are not: Join Date or Exit Date columns that do not hold dates, and Python's limit on very long integer strings.
- Table answers carry exactly the two columns `Department` and `Employee Count` (the `DepartmentCount` pair). Renaming the columns of the derived frames is not modelled separately.

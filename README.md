# New-employee report: a Dafny model

`new-employee-select.py` is a one-page Streamlit tool. It takes the roster sheet "花名册" and a target year and month, and reports which formal employees (正式员工) joined in that month. Two groups are left out of the report:

- employees of the department 证照支持部;
- two special employee ids, which are named in a warning for manual review instead.

It produces two tables. The detail table holds the kept employees, sorted by level-3 org descending and then by join date ascending, with a synthesized "姓名（花名）" field. The summary table has one row per level-3 org, in ascending org order (`groupby`'s default), with that org's display names joined by "、".

This project models that pipeline as pure functions over sequences of rows and proves what each step promises. The modules are:

- `Dates` (`dates.dfy`): calendar dates in Python's `datetime` range (years 1 to 9999) and leap-year-aware month lengths. `get_month_range` is `MonthRange`; `- pd.Timedelta(days=1)` is `PrevDay`. Both are checked against a day number (`Ordinal`, Python's `toordinal`). `Stamp` is a parsed join-date cell: a `Day`, or `NaT` for an empty cell.
- `Text` (`text.dfy`): Python's code-point order on `str`, `sep.join`, splitting at a separator, and `str(n)` for integer ids.
- `Roster` (`roster.dfy`): the column names, the row record, the sheet, and `validate_data` (`Validate`, `Message`). It also holds the conversion of the join-date column at line 90 (`ParseJoinDates`).
- `Eligibility` (`eligibility.dfy`): the configuration constants (`DEFAULT_CONFIG` holds `SPECIAL_IDS`, `EXCLUDE_DEPT` and the category literal), the four-part mask (`Eligible`, `Kept`) and the excluded-special list (`ExcludedRows`, `ExcludedNames`, `ExclusionNotice`).
- `ReportBuilder` (`report.dfy`): projection to six columns, the two-key sort, the display name, and the `groupby(...).agg("、".join)` summary.
- `Pipeline` (`pipeline.dfy`): the whole run (`Analyze`) and the end-to-end lemmas.
- `Scenarios` (`scenarios.dfy`): one-row rosters for March 2025, computed through the whole run.

`pd.to_datetime` is a parameter `parse` of type `ColumnParser`. It converts the whole join-date column (`JoinColumn`) in one call, because pandas does: the format it infers from one cell decides how the other cells are read. The result is:

- `None`: the call raises, for the column as a whole;
- `Some(stamps)`: one stamp per cell, in order, each either `NaT` (an empty cell) or a valid calendar date (`ValidStamp`).

The validation check at line 29 and the conversion at line 90 apply the same parser to the same column, as the source does.

## Model

| member | source | states |
|---|---|---|
| Roster.Validate | new-employee-select.py:22-32 | It fails with the missing columns exactly when some required column is absent, and the reported set is the required columns minus the present ones, never empty. It fails with the date error exactly when all columns are present and converting the join-date column fails. It succeeds exactly when all seven columns are present and the column converts. |
| Roster.Message | new-employee-select.py:25-32 | The message is empty exactly on success. Otherwise it is "缺失必要字段：" followed by a listing of the missing columns joined by ", " (each column once), or "入职日期格式异常". |
| Roster.JoinColumn | new-employee-select.py:29 | The column handed to `pd.to_datetime` has one cell per row: that row's join-date text, in row order. |
| Roster.ParseJoinDates | new-employee-select.py:90 | Each row keeps its position and its other cells, and its join-date cell is replaced by the stamp the column conversion gives at that position. Every resulting stamp is NaT or a valid date. |
| Roster.IdString | new-employee-select.py:98 | `astype(str)` keeps a text id as it is. A non-negative number becomes decimal digits with no leading zero whose value is the number. A negative number becomes "-" followed by the digits of its absolute value. |
| Roster.IdStringComparesDigits | new-employee-select.py:98 | `astype(str)` of a numeric id equals the text of its digits, and two numeric ids have equal strings exactly when the numbers are equal. |
| Text.DecimalRoundTrip | new-employee-select.py:98 | Reading the decimal text of a number back gives the number. |
| Text.IntToDecimalInjective | new-employee-select.py:98 | Different integers have different `str` texts, minus sign included. |
| Dates.PrevDay | new-employee-select.py:40 | One day earlier is a valid date whose day number is one less. |
| Dates.MonthRange | new-employee-select.py:34-40 | Both branches return valid dates. The start is the 1st of the month and the end is the last calendar day of that month (leap-year aware). |
| Dates.UniformRuleAgrees | new-employee-select.py:36-40 | "First of next month minus one day" gives the same end as MonthRange for every month, December included, whenever the next January 1st is a valid datetime. |
| Dates.MonthRangeSpansMonth | new-employee-select.py:34-40 | Start ≤ end, both lie in the requested year and month, and the range covers exactly as many days as that month has. |
| Dates.InMonthRangeIffSameMonth | new-employee-select.py:91-95 | A valid date lies between start and end inclusive exactly when it is in the target year and month. |
| Dates.MonthEndExamples | new-employee-select.py:36-40 | February ends on the 29th in 2024 and 2000 and on the 28th in 2023 and 1900. December ends on the 31st in every year. |
| Dates.DateLeIsChronological | new-employee-select.py:95 | The year-month-day comparison used by `between` and by the sort agrees with the order of day numbers. |
| Dates.StampLeTotalPreorder | new-employee-select.py:104 | The join-date sort key is reflexive, total and transitive, with NaT after every date. |
| Eligibility.IsSpecial | new-employee-select.py:98 | A text id is special exactly when it is in the list. A non-negative numeric id is special exactly when its decimal spelling is in the list. |
| Eligibility.InRange | new-employee-select.py:95 | `between` never holds for NaT. For valid dates it holds exactly when the date's day number lies between those of the two ends, both ends included. |
| Eligibility.Eligible | new-employee-select.py:94-99 | An eligible row has a join date. For a valid range and a converted stamp, a row is eligible exactly when all four conditions hold: join day number within the range, the required category, a level-4 org other than the excluded one, and an id string that is not special. |
| Eligibility.Kept | new-employee-select.py:94-102 | A row is kept exactly when it is an input row and its join date is in the range, its category is the required one, its level-4 org is not the excluded one, and its id string is not special. The kept rows are never more than the input rows. |
| Eligibility.KeptMultiplicity | new-employee-select.py:102 | An eligible row occurs in the kept rows as often as in the input; an ineligible row does not occur at all. |
| Eligibility.ExcludedRows | new-employee-select.py:152 | The rows selected by `~mask & isin(SPECIAL_IDS)` are exactly the input rows with a special id. |
| Eligibility.ExcludedAreSpecial | new-employee-select.py:98-152 | The `~mask` part is redundant: the selection equals the special-id rows in input order, for every range and every content of the other cells. |
| Eligibility.ExcludedDisjointFromKept | new-employee-select.py:94-102 | No excluded row is a kept row. |
| Eligibility.ExcludedNames | new-employee-select.py:152-154 | One legal name per excluded row, in the same order. |
| Eligibility.ExclusionNotice | new-employee-select.py:152-154 | A warning is produced exactly when some input row has a special id, and it reads "已排除特殊人员：" followed by the names joined by ", ". |
| ReportBuilder.Project | new-employee-select.py:103 | The detail row carries the six reported cells of the roster row unchanged. |
| ReportBuilder.ProjectAll | new-employee-select.py:103 | Projection is applied row by row and keeps the order and length. |
| ReportBuilder.ReportLe | new-employee-select.py:104 | Rows of different orgs are ordered with the larger org first. Rows of the same org are ordered by join date, and NaT goes after every row of that org. A row never precedes one with a larger org. |
| ReportBuilder.ReportLeTotal | new-employee-select.py:104 | Any two detail rows are comparable under the sort order. |
| ReportBuilder.ReportLeTransitive | new-employee-select.py:104 | The sort order is transitive. |
| ReportBuilder.ReportOrderMeaning | new-employee-select.py:104 | Among rows in report order, level-3 orgs never increase, and within one org the join dates never decrease. |
| ReportBuilder.Insert | new-employee-select.py:104 | Adding one row to a sorted table gives a sorted table with exactly that row added. |
| ReportBuilder.SortForReport | new-employee-select.py:104 | The result is a permutation of the input (multisets equal) and is in report order: org descending, then join date ascending. |
| ReportBuilder.DisplayName | new-employee-select.py:111-114 | The display name starts with the legal name. It has exactly the legal name's length when the preferred name is null, and is longer by the preferred name plus two brackets otherwise. |
| ReportBuilder.DisplayNameRoundTrip | new-employee-select.py:111-114 | The preferred name, null or not, can be recovered from the display name and the legal name. When it is present (even as ""), the display name is legal name + "（" + preferred name + "）". |
| ReportBuilder.Annotate | new-employee-select.py:111-114 | Every detail row gets its own display name; rows and order stay as they were. |
| ReportBuilder.InsertKey | new-employee-select.py:117 | Adding an org to an ascending list of distinct orgs keeps it ascending and distinct, with that org added. |
| ReportBuilder.GroupKeys | new-employee-select.py:117 | The group keys are exactly the level-3 orgs that occur, each once, in ascending order (groupby's default sort). |
| ReportBuilder.GroupIndices | new-employee-select.py:117 | The positions of an org's rows: strictly ascending, each holding a row of that org, and including every such row. |
| ReportBuilder.GroupNames | new-employee-select.py:117-118 | An org's names are the display names at that org's positions, one per row and in detail-table order, so repeated names are kept. Every name comes from a row of that org, and every row of that org contributes its name. |
| ReportBuilder.Summarize | new-employee-select.py:117-119 | There is one summary row per org that occurs in the detail table, with orgs strictly ascending. Each joined string is that org's display names joined by "、". An empty detail table gives an empty summary. |
| ReportBuilder.RowInExactlyOneGroup | new-employee-select.py:117-119 | Every detail row has exactly one summary row for its org, and that row's names include the detail row's display name. |
| ReportBuilder.SummaryDecodes | new-employee-select.py:117-119 | When no display name contains "、", splitting a joined string at "、" gives back exactly that org's display names in detail order. |
| ReportBuilder.GroupsPartitionRows | new-employee-select.py:117-119 | The group sizes add up to the number of detail rows, so grouping neither loses nor repeats a name. |
| Text.Join | new-employee-select.py:118 | Joining no pieces gives "". Otherwise the result starts with the first piece, and its length is the total length of the pieces plus one separator between each two. |
| Text.SplitJoin | new-employee-select.py:118 | Splitting a join at a one-character separator returns the pieces, when there is at least one piece and none contains the separator. |
| Text.LexLeTotal | new-employee-select.py:104 | Python's string order is total. |
| Text.LexLeAntisymmetric | new-employee-select.py:104 | Python's string order is antisymmetric. |
| Text.LexLeTransitive | new-employee-select.py:104 | Python's string order is transitive. |
| Pipeline.Analyze | new-employee-select.py:76-119 | The run fails exactly when validation fails, and carries the verdict. On success, the detail table is built from the parsed rows and the month range, the count is the detail table's length, the summary is the detail table's grouping, and the excluded names come from the parsed rows. |
| Pipeline.BuildDetail | new-employee-select.py:102-114 | The detail table has one row per kept row. Its rows are in report order, and each carries its own display name. |
| Pipeline.DetailIsSortedKept | new-employee-select.py:102-142 | The detail rows are, as a multiset, the projected kept rows, and they are in report order. Their number is the number of kept rows. Every detail row carries its display name. |
| Pipeline.DetailIsExactlyEligible | new-employee-select.py:94-103 | A detail row occurs exactly when it is the projection of some input row that passes all four conditions. |
| Pipeline.DetailRowsQualify | new-employee-select.py:94-103 | Every detail row has the required category, a non-special id and a join date that is not NaT, lies in the range, and so lies in the target year and month. This holds for rows the join-date conversion produces. |
| Pipeline.ExcludedNamesAreSpecial | new-employee-select.py:152-154 | The excluded names are, in input order, the legal names of the special-id rows, and none of those rows reaches the detail table. |
| Pipeline.EmptySelectionEmptyReport | new-employee-select.py:102-119 | When no row is kept, the detail table and the summary are both empty. |
| Scenarios.EligibleRowIsReported | new-employee-select.py:94-119 | A formal employee in A部 who joined on 2025-03-15 is reported for March 2025 as 张三, in the summary row ("A部", "张三"), with nobody excluded. |
| Scenarios.SpecialRowIsListed | new-employee-select.py:98-154 | The same row with id 31049588, as text or as a number, gives empty tables and the excluded list ["张三"]. |
| Scenarios.ExcludedDeptIsSilent | new-employee-select.py:97-152 | The same row in 证照支持部 gives empty tables and no excluded names. |
| Scenarios.EmptyJoinDateIsNotReported | new-employee-select.py:90-95 | A row with an empty join-date cell passes validation but is not reported. |
| Scenarios.ValidationFailures | new-employee-select.py:22-32 | A sheet without 花名 fails naming exactly that column. An unparseable join date fails with the date error. |

## Left out

- The Streamlit page: page setup, file uploader, year and month select boxes, buttons, progress bar, metric, markdown and warnings as widgets, and download buttons. This is presentation only. The year select box offers 2020 to 2030 and the month select box 1 to 12. The model accepts any year that `datetime` accepts (1 to 9999) and months 1 to 12, which is what `datetime(year, month, 1)` requires.
- `pd.read_excel` and `to_excel` into `BytesIO`, with their read and encoding errors: spreadsheet I/O through libraries outside this repository.
- The download file names stamped with `datetime.now()`: they depend on the wall clock.
- The inside of `pd.to_datetime`: format inference, the accepted spellings, and which columns it rejects. It is the `parse` parameter. The model states only what any successful conversion gives (one stamp per cell, NaT or a valid date). Join dates are days without a time of day. A timestamp with a time part on the last day of the month is after the midnight end bound in pandas, so pandas would leave it out.
- Null cells other than 花名 and the join date. The model takes 三级组织, 姓名, 员工二级类别 and 四级组织 to be strings and 员工系统号 to be text or an integer. pandas would treat a NaN there specially: groupby drops NaN orgs, NaN sorts last, and a float id column renders as "31049588.0".
- Ties in the sort. Rows with the same org and the same join date may come out in any order. `SortForReport` happens to keep input order, but no contract says so, as pandas does not promise it either.
- Message: the missing columns are listed in Python's set-iteration order, which is unspecified. The model takes the listing as a parameter and requires only that it names each missing column once.
- December: compared with rolling over to the next January 1st and stepping back one day, the special case at lines 36-37 differs only in year 9999, where `datetime(10000, 1, 1)` does not exist. `UniformRuleAgrees` shows the two rules agree in every other year.

# Leave and overtime calculations of izin-yonetim-sistemi, in Dafny

This project models the calculation core of an HR leave and overtime system:

- the working-day calendar: weekends and official holidays, the working-day count of an interval, and the end-date walk that consumes a number of working days;
- the annual-leave entitlement by years of service, and an employee's remaining balance for a year;
- the 25th-to-24th overtime pay periods and the per-employee overtime summary by reason;
- the two leave reports: the yearly summary of active employees and the monthly pivot of leave days by leave type.

The database tables the source queries are parameters of the model:

- official holidays (`resmiTatil`);
- employees (`personel`);
- leave records (`izinKaydi`);
- overtime records (`mesaiKaydi`).

Dates are proleptic Gregorian calendar days (`Calendar.Date`). Their day number plays the part of the JavaScript timestamp. Hours and day counts are `real`.

Files:

- `calendar.dfy` (module `Calendar`): the date arithmetic the source takes from `Date` and date-fns.
- `leave.dfy` (module `LeaveCalculation`): `backend/src/services/izinHesaplama.ts`.
- `overtime.dfy` (module `OvertimeCalculation`): `backend/src/services/mesaiHesaplama.ts`.
- `reports.dfy` (module `Reports`): `backend/src/routes/rapor.ts`, lines 10-37 and 40-71.
- `wrappers.dfy` (module `Wrappers`): `Option` for nullable columns and lookups that may fail.

The loops of the source are methods with loop invariants, each proved against a reference function:

- `CountWorkingDays` against `WorkingDaysIn`;
- `EndDate` against `WorkingDaysIn`;
- `GroupByEmployee` against `FirstSeenIds` and `Accumulated` (the predicate `GroupedAs`);
- `AddComposites` against `Summaries`;
- `AccumulatePivot` against `CellTotal` (the predicate `PivotOf`).

The lemmas then state the source's promises about those reference functions.

In two places the code computes another figure than the seed data or the cited law would suggest; the model follows the code:

- The seed's employee 1002 stores `hizmetSuresi` 6 and started on 2019-06-01 (backend/prisma/seed.ts:68-71), but `differenceInYears` gives 5 whole years on 2025-01-01, so the entitlement for 2025 is 14 days, not 20 (`BalanceExample`).
- Exactly 15 years of service gives 20 days: the test at izinHesaplama.ts:84 is `<= 15`. Article 53 of the Turkish Labour Law No. 4857, which the comment at line 80 cites, gives 26 days from 15 years on. The model keeps the code's 20, as `EntitlementBoundaries` states.

## Model

| member | source | states |
|---|---|---|
| Calendar.Next | backend/src/services/izinHesaplama.ts:73 | `addDays(d, 1)` is the next calendar day, exactly one day number later |
| Calendar.WeekdayNext | backend/src/services/izinHesaplama.ts:26 | the weekday advances by one from one day to the next, Saturday (6) wrapping to Sunday (0) |
| Calendar.DayNumberOrder | backend/src/services/izinHesaplama.ts:16-19 | comparing dates by timestamp (`gte`/`lte`) is the year-month-day lexicographic order |
| Calendar.DayNumberInjective | backend/src/services/izinHesaplama.ts:27 | two dates with the same timestamp are the same calendar day (`isSameDay`) |
| Calendar.WithinYear | backend/src/services/izinHesaplama.ts:15-20 | a date lies in [yil-01-01, yil-12-31] exactly when its year is yil |
| Calendar.YearsBetween | backend/src/services/izinHesaplama.ts:39-41 | every day between two dates has a year between their years |
| Calendar.NewYear2025 | backend/src/services/izinHesaplama.ts:26 | 1 January 2025 falls on a Wednesday (weekday 3) |
| Calendar.MonthLength | backend/src/services/mesaiHesaplama.ts:23-31 | the first day of the next month (January of the next year after December) is DaysInMonth(y, m) days after the first day of month m |
| LeaveCalculation.IsNonWorkingDay | backend/src/services/izinHesaplama.ts:25-28 | a day is non-working exactly when it is a Saturday, a Sunday, or one of the holidays |
| LeaveCalculation.HolidaysOfYear | backend/src/services/izinHesaplama.ts:13-23 | the year query returns exactly the holidays whose year is yil |
| LeaveCalculation.WorkingDaysIn | backend/src/services/izinHesaplama.ts:43-52 | the working-day count of [s, e] is at most e - s + 1, and 0 when e precedes s |
| LeaveCalculation.WorkingDaysInOneDay | backend/src/services/izinHesaplama.ts:46-50 | a one-day interval counts 1 exactly when the day is a working day, otherwise 0 |
| LeaveCalculation.WorkingDaysSplit | backend/src/services/izinHesaplama.ts:43-52 | the count is additive: count(s, e) = count(s, m) + count(m + 1, e) for s <= m <= e |
| LeaveCalculation.WorkingDaysAgree | backend/src/services/izinHesaplama.ts:39-41 | holiday lists that agree on every day of the interval give the same count |
| LeaveCalculation.EndsOnWorkingDay | backend/src/services/izinHesaplama.ts:46-50 | an interval ending on a working day holds at least one working day |
| LeaveCalculation.NewYearExample | backend/src/services/izinHesaplama.ts:25-52 | with 1 January 2025 a holiday, 1-3 January 2025 holds 2 working days |
| LeaveCalculation.CountWorkingDays | backend/src/services/izinHesaplama.ts:31-53 | the two loops return the working-day count of [baslangic, bitis] against the whole holiday table: loading the holidays of every year from the start's to the end's misses none |
| LeaveCalculation.WalkHolidays | backend/src/services/izinHesaplama.ts:60-63 | the walk's holiday list is exactly the holidays of the start's year and of the next year |
| LeaveCalculation.SkipMakesProgress | backend/src/services/izinHesaplama.ts:68-75 | stepping over a non-working day passes a holiday or comes closer to Monday, so the walk terminates |
| LeaveCalculation.EndDate | backend/src/services/izinHesaplama.ts:56-78 | for n <= 0 the start is returned unchanged; for n >= 1 the result D is on or after the start, is a working day, and [start, D] holds exactly n working days (holidays of the two loaded years) |
| LeaveCalculation.EndDateUnique | backend/src/services/izinHesaplama.ts:68-75 | at most one date meets the walk's three conditions, so the walk's result is determined |
| LeaveCalculation.CountOfEndDate | backend/src/services/izinHesaplama.ts:31-77 | round trip: when no table holiday between the start and the walk's result lies after the start's next year, counting working days from the start to the result against the whole table gives back n, and the result is a working day against the whole table |
| LeaveCalculation.LaterYearsIgnored | backend/src/services/izinHesaplama.ts:60-63 | from two years after the start's year on, the walk treats holidays as working days: only weekends stop it |
| LeaveCalculation.AnnualEntitlement | backend/src/services/izinHesaplama.ts:81-86 | the entitlement is one of 0, 14, 20, 26, and it is 0 exactly below one year |
| LeaveCalculation.EntitlementMonotone | backend/src/services/izinHesaplama.ts:81-86 | more years of service never give fewer days |
| LeaveCalculation.EntitlementBoundaries | backend/src/services/izinHesaplama.ts:81-86 | 0 → 0, 1 → 14, 5 → 14, 6 → 20, 15 → 20, 16 → 26 |
| LeaveCalculation.YearsOfService | backend/src/services/izinHesaplama.ts:101-104 | `differenceInYears(yil-01-01, start)` counts whole years: it is at least 1 exactly when the start is on or before (yil - 1)-01-01, and a result n >= 1 means the start lies after (yil - n - 1)-01-01 and on or before (yil - n)-01-01 |
| LeaveCalculation.YearsOfServiceAtLeast | backend/src/services/izinHesaplama.ts:101-104 | at least k whole years on yil-01-01 exactly when service started on or before (yil - k)-01-01 |
| LeaveCalculation.FindPersonel | backend/src/services/izinHesaplama.ts:93-95 | the lookup finds an employee with that id, and finds none exactly when no employee has it |
| LeaveCalculation.CountsAsAnnualLeaveYear | backend/src/services/izinHesaplama.ts:108-118 | the aggregate admits exactly the employee's records of leave type 1 that start in calendar year yil |
| LeaveCalculation.UsedAnnualLeave | backend/src/services/izinHesaplama.ts:108-120 | the aggregate's `_sum.gunSayisi \|\| 0` over the admitted records is not negative when their day counts are not |
| LeaveCalculation.UsedAnnualLeaveAppend | backend/src/services/izinHesaplama.ts:108-120 | the used leave of two batches of records is the sum of each batch's |
| LeaveCalculation.NoAnnualLeaveUsed | backend/src/services/izinHesaplama.ts:120 | without a qualifying record the used leave is 0 |
| LeaveCalculation.UsedAnnualLeaveIgnores | backend/src/services/izinHesaplama.ts:108-118 | a record of another employee, another leave type or another year does not change the used leave |
| LeaveCalculation.RemainingLeave | backend/src/services/izinHesaplama.ts:89-122 | an unknown employee or one without a start date gets {0, 0, 0}; otherwise kalan = toplam - kullanilan, not clamped, and toplam is one of the four tiers |
| LeaveCalculation.RemainingLeaveOfKnownEmployee | backend/src/services/izinHesaplama.ts:97-121 | for a known employee with a start date, toplam is the entitlement of the years of service, kullanilan the year's annual leave, and toplam > 0 exactly when service started on or before January 1 of the previous year |
| LeaveCalculation.BalanceExample | backend/src/services/izinHesaplama.ts:97-121 | a start of 2019-06-01 gives 5 years for 2025; with 8 days taken the balance is {14, 8, 6} |
| OvertimeCalculation.MonthNamesDistinct | backend/src/services/mesaiHesaplama.ts:13-16 | the twelve month names are distinct and hold no space |
| OvertimeCalculation.IntToDecimal | backend/src/services/mesaiHesaplama.ts:36 | `${yil}` is a string without spaces that starts with '-' exactly for negative years |
| OvertimeCalculation.IntToDecimalInjective | backend/src/services/mesaiHesaplama.ts:36 | different years print differently |
| OvertimeCalculation.SplitAtSpace | backend/src/services/mesaiHesaplama.ts:36 | a label "name year" with a space-free name splits back into that name and that year text |
| OvertimeCalculation.FollowingMonth | backend/src/services/mesaiHesaplama.ts:24-29 | the rollback to the preceding month inverts stepping to the following month |
| OvertimeCalculation.PayPeriod | backend/src/services/mesaiHesaplama.ts:23-38 | the period of (yil, ay) starts on the 25th of the preceding month (25 December of yil - 1 for January) and ends on the 24th of ay in yil; it spans as many days as the preceding month has; its label is the name of month ay, a space and the year |
| OvertimeCalculation.PeriodsAdjacent | backend/src/services/mesaiHesaplama.ts:18-38 | the day after a period's end is the next period's start, December leading to January of the next year |
| OvertimeCalculation.ExactlyOnePeriod | backend/src/services/mesaiHesaplama.ts:18-38 | every date lies in exactly one period: its own month's up to the 24th, the next month's from the 25th |
| OvertimeCalculation.LabelsDistinct | backend/src/services/mesaiHesaplama.ts:13-16 | two periods with the same label are the same period |
| OvertimeCalculation.YearPeriods | backend/src/services/mesaiHesaplama.ts:41-43 | the yearly list has 12 periods, element i being the period of month i + 1 |
| OvertimeCalculation.YearPeriodsCover | backend/src/services/mesaiHesaplama.ts:41-43 | the year's periods run without gap from 25 December of yil - 1 to 24 December of yil, and each date there is in the period its day and month name |
| OvertimeCalculation.OvertimeQuery | backend/src/services/mesaiHesaplama.ts:71-89 | the query returns exactly the records dated in the period with more than 0 hours and, when a non-zero employee id is given, of that employee |
| OvertimeCalculation.OvertimeQueryCount | backend/src/services/mesaiHesaplama.ts:71-89 | every admitted record appears in the result as often as in the table, every rejected one not at all |
| OvertimeCalculation.FirstSeenIds | backend/src/services/mesaiHesaplama.ts:91-108 | the map's keys: each employee of the records once, and no other |
| OvertimeCalculation.FirstSeenOrder | backend/src/services/mesaiHesaplama.ts:93-108 | the keys are in insertion order: of two keys, the earlier one's first record precedes the later one's first record |
| OvertimeCalculation.FirstRecord | backend/src/services/mesaiHesaplama.ts:95-108 | the record a summary's identity columns come from is one of the employee's records |
| OvertimeCalculation.ReasonHoursAppend | backend/src/services/mesaiHesaplama.ts:114-127 | a record adds its hours to its own employee's total for its own reason, and to no other |
| OvertimeCalculation.FirstRecordAppend | backend/src/services/mesaiHesaplama.ts:95-108 | a later record never replaces the identity columns of an employee already seen |
| OvertimeCalculation.AccumulatedAppend | backend/src/services/mesaiHesaplama.ts:93-128 | one loop step: the record's employee gets a zeroed summary when new and the hours go to the total its reason names; other employees' summaries do not change |
| OvertimeCalculation.NewSummary | backend/src/services/mesaiHesaplama.ts:95-108 | a new employee's summary carries the record's employee id and starts the four totals at 0 |
| OvertimeCalculation.AddHours | backend/src/services/mesaiHesaplama.ts:114-127 | for one of the four reasons the four totals together grow by exactly the record's hours; any other reason leaves the summary unchanged; the identity columns and composites are never touched |
| OvertimeCalculation.ReasonsDistinct | backend/src/services/mesaiHesaplama.ts:114-127 | the four case labels of the switch are four different names |
| OvertimeCalculation.GroupStepEntry | backend/src/services/mesaiHesaplama.ts:93-128 | after one step every employee of the records seen has a map entry equal to that employee's reference totals |
| OvertimeCalculation.GroupStep | backend/src/services/mesaiHesaplama.ts:93-128 | one step of the first loop keeps the map grouped: keys in first-seen order, each value the employee's reference totals |
| OvertimeCalculation.NoRecordNoHours | backend/src/services/mesaiHesaplama.ts:101-104 | an employee without records has no hours, the totals starting at 0 |
| OvertimeCalculation.WithComposites | backend/src/services/mesaiHesaplama.ts:130-133 | the combined figure is overtime plus shuttle, the grand total the sum of the four totals, and nothing else changes |
| OvertimeCalculation.Summaries | backend/src/services/mesaiHesaplama.ts:91-135 | exactly one summary per employee of the admitted records, with distinct ids, entry i belonging to the i-th employee in first-seen order, each that employee's summary |
| OvertimeCalculation.GroupByEmployee | backend/src/services/mesaiHesaplama.ts:91-128 | the first loop builds the insertion-ordered map: keys in first-seen order, each value the employee's four totals |
| OvertimeCalculation.CompleteStep | backend/src/services/mesaiHesaplama.ts:130-133 | completing the next entry leaves the entries before it complete and those after it untouched |
| OvertimeCalculation.ValuesInInsertionOrder | backend/src/services/mesaiHesaplama.ts:135 | the completed map's values read in insertion order are the reference summaries |
| OvertimeCalculation.AddComposites | backend/src/services/mesaiHesaplama.ts:130-135 | the second loop completes each summary and returns the map's values in insertion order |
| OvertimeCalculation.OvertimeSummary | backend/src/services/mesaiHesaplama.ts:64-136 | the result is the reference summaries of the records the period's query admits |
| OvertimeCalculation.FourTotalsCoverTotalled | backend/src/services/mesaiHesaplama.ts:114-127 | the four totals together hold the hours of every record whose reason is one of the four names |
| OvertimeCalculation.GrandTotal | backend/src/services/mesaiHesaplama.ts:130-133 | the grand total equals the hours of the employee's records in the four reasons; the combined figure is overtime plus shuttle hours |
| OvertimeCalculation.OtherReasonIgnored | backend/src/services/mesaiHesaplama.ts:114-127 | a record of any other reason changes no total; it only creates a zero row for an employee not yet seen |
| OvertimeCalculation.EmployeeFilter | backend/src/services/mesaiHesaplama.ts:79-81 | with a non-zero employee id there is at most one summary, and it is that employee's |
| OvertimeCalculation.JanuaryQuery | backend/src/services/mesaiHesaplama.ts:71-89 | in the January 2025 period the 0-hour record is not admitted |
| OvertimeCalculation.JanuaryEmployee | backend/src/services/mesaiHesaplama.ts:93-108 | the two admitted January records give one key, employee 7, whose identity columns come from the first record |
| OvertimeCalculation.JanuaryHours | backend/src/services/mesaiHesaplama.ts:114-127 | 2 h overtime and 1.5 h Sunday work add up by reason |
| OvertimeCalculation.JanuaryExample | backend/src/services/mesaiHesaplama.ts:64-136 | the example summary is {2, 1.5, 0, 0, combined 2, total 3.5} |
| Reports.StrLeTotal | backend/src/routes/rapor.ts:16 | any two registry numbers are ordered one way or the other |
| Reports.StrLeTransitive | backend/src/routes/rapor.ts:16 | the registry-number order is transitive |
| Reports.PrependSorted | backend/src/routes/rapor.ts:16 | an employee whose registry number precedes every number of a sorted list can be put at its front |
| Reports.ActiveEmployees | backend/src/routes/rapor.ts:13-15 | the query returns exactly the active employees, each at most as often as in the table |
| Reports.InsertBySicilNo | backend/src/routes/rapor.ts:16 | inserting into a sorted list keeps it sorted and adds exactly that employee |
| Reports.SortBySicilNo | backend/src/routes/rapor.ts:16 | ordering by sicilNo gives a sorted permutation of its input |
| Reports.SortedActive | backend/src/routes/rapor.ts:13-17 | the employees of the report are the active ones, sorted by registry number |
| Reports.ActiveCount | backend/src/routes/rapor.ts:14 | each active employee keeps its multiplicity, inactive ones are dropped |
| Reports.SummaryCoversActive | backend/src/routes/rapor.ts:13-17 | the report has one row per active employee and none for an inactive one |
| Reports.YearlyLeaveSummary | backend/src/routes/rapor.ts:19-31 | one row per sorted active employee, in registry-number order, carrying that employee's sicilNo, `ad soyad` and unit name (or ''); each row carries kalanIzinGunuHesapla's toplam and kullanilan unchanged, kalan = toplam - kullanilan, and hizmetSuresi defaulting to 0 |
| Reports.MonthListsAgree | backend/src/routes/rapor.ts:55-58 | the pivot's month list is the pay-period month list without its empty entry, twelve distinct names |
| Reports.MonthNameListed | backend/src/routes/rapor.ts:61 | every record's month name is one of the twelve columns |
| Reports.YearRecords | backend/src/routes/rapor.ts:43-51 | only records starting in [yil-01-01, yil-12-31], that is in calendar year yil, enter the pivot |
| Reports.YearRecordsCount | backend/src/routes/rapor.ts:43-51 | every record of year yil appears as often as in the table, records of other years not at all |
| Reports.CellTotalAppend | backend/src/routes/rapor.ts:60-65 | a record adds its days to exactly its (type, month) cell; every other cell keeps its value |
| Reports.HasCellAppend | backend/src/routes/rapor.ts:62-64 | a record creates its type's row and its month's cell when missing, and no other |
| Reports.AbsentCellZero | backend/src/routes/rapor.ts:64 | a missing cell counts as 0 (`pivot[tur][ay] \|\| 0`) |
| Reports.PivotStep | backend/src/routes/rapor.ts:60-65 | one loop step keeps the pivot equal to the reference over the records seen |
| Reports.AccumulatePivot | backend/src/routes/rapor.ts:60-65 | the loop over the year's records builds exactly the reference pivot of those records |
| Reports.LeavePivot | backend/src/routes/rapor.ts:40-67 | `aylar` is the fixed month list; the pivot satisfies PivotOf for the year's records: rows exist exactly for the types seen, cells exactly for the (type, month) pairs seen, and each cell holds the days of its records |
| Reports.FirstSeenTypes | backend/src/routes/rapor.ts:62-63 | the pivot's rows: each leave type name of the records once, types with the same name merging |
| Reports.RowTotalAppend | backend/src/routes/rapor.ts:60-65 | a record adds its days to its type's row sum once |
| Reports.TypesTotalAppend | backend/src/routes/rapor.ts:60-65 | a record adds its days to the sum over the rows once |
| Reports.AbsentTypeEmptyRow | backend/src/routes/rapor.ts:63 | a type without records has an empty row |
| Reports.PivotTotal | backend/src/routes/rapor.ts:60-65 | the cells of all rows add up to the days of all records |
| Reports.PivotSumsToYearDays | backend/src/routes/rapor.ts:43-65 | the pivot's cells add up to the leave days of the year's records |

## Left out

- Database access (Prisma `findMany`, `findUnique`, `aggregate`): the tables are sequences passed in, and a query is a filter over them in table order.
- The HTTP handlers, their `try`/`catch` 500 responses, and `parseInt(req.query.yil)` with its default to the current year: request plumbing, not calculation.
- Time zones: `new Date('yil-01-01')` is UTC midnight, while `new Date(y, m, d)` and `getMonth()` use local time. A date here is a calendar day, so a shift across midnight that moves a date to another day is not modelled.
- PayPeriod: JavaScript's `new Date(y, m, d)` maps a year from 0 to 99 to 1900-1999, so the source's window for such a year lies in the 20th century while its label keeps the year as given. The model takes every year as a proleptic Gregorian year and does not model this mapping.
- `eachDayOfInterval` with the end before the start throws or walks backwards depending on the date-fns version, so `CountWorkingDays` requires start <= end.
- Month numbers outside 1..12 roll over in `new Date(y, m, d)`; `PayPeriod` and `OvertimeSummary` require 1 <= ay <= 12.
- Floating point: hours and day counts are `real`; the user interface limits them to multiples of 0.5.
- `Promise.all` over the employees in the yearly summary is a sequential map; the rows do not depend on one another.
- SortBySicilNo: sorts by code-point order; the database's collation for `orderBy: { sicilNo: 'asc' }` may order differently, and rows with equal registry numbers keep no particular order.
- LeavePivot: the JSON object's key order (rows and cells in insertion order) is not stated, only which keys exist and their values. JavaScript's inherited object properties (a type named `constructor`, say) are not modelled.
- OvertimeSummary: the summary objects mutated through the map are modelled as values written back into the map; the map's insertion order is the `ids` sequence.
- CountOfEndDate: the round trip is stated only when no table holiday between the start and the result lies two or more years after the start's year, because the walk consults only the holidays of the start's year and the next year, as the source does (`LaterYearsIgnored`: a later holiday is treated as a working day, so the two counts can differ).
- The employee's stored `hizmetSuresi` is only copied into the yearly summary; the entitlement uses the service start date, as the source does.
- The frontend, the Excel export and the other route handlers are not part of this model.

# Cashly: receipt upload, date ranges and the expense schema

Cashly is a Next.js expense tracker. The user photographs a receipt, a
server endpoint extracts its expenses, and an analysis page charts the
spending. This project models three parts of it and proves properties of
each:

- **The bottom navigation bar** (`Upload`, upload.dfy). This is the handler
  behind the hidden file input. It first checks the file: a missing file
  ends the handler, a disallowed MIME type is refused, and anything over
  10 MiB is refused. The allowed types are `image/jpeg`, `image/jpg`,
  `image/png` and `image/webp`. An accepted file is sent once, with the `isUploading`
  flag set for the duration. The handler then shows the toasts, clears the
  input and navigates to `/receipts` on success. The class `BottomNavbar`
  holds the component state. The module also models the three navigation
  entries and the `disabled` wiring of the input and the Add Receipt
  button.
- **The analysis page** (`Analysis`, analysis.dfy). `getDateRange` turns the
  `range` search parameter into an optional `{ from, to }` pair. The same
  pair goes to the three aggregation queries. A zero count shows the
  "No Data Yet" view.
- **The Date arithmetic behind it** (`Calendar`, calendar.dfy). This is the
  ECMAScript day, year and month arithmetic of ECMA-262 section 21.4.1,
  with `Date.prototype.setDate` (section 21.4.4.20) and
  `Date.prototype.setFullYear` (section 21.4.4.21).
- **The database schema** (`Schema`, schema.dfy, and `Numeric`,
  numeric.dfy). It covers:
  - the `receipts` and `expenses` tables, with their status and category
    enumerations;
  - the defaults and the not-null columns (`currency` is plain text with
    the default `INR`);
  - the `numeric(10, 2)` and `numeric(5, 2)` columns, with PostgreSQL's
    rounding and overflow rules;
  - the foreign key and the one-to-many relation;
  - a `Store` class that inserts rows with `serial` ids and keeps the
    constraints as an invariant.

The wall clock, the analysis endpoint's reply and the three aggregation
queries are parameters. Time values are milliseconds since the epoch, and
local time is taken to be UTC. Money and confidence values are stored as
integers in hundredths, which is the unscaled value of their scale-2
columns.

## Model

| member | source | states |
|---|---|---|
| Analysis.GetDateRange | cashly/cashly/app/analysis/page.tsx:19-43 | a range is returned exactly for the tokens 7d, 30d, 90d and 1y; no parameter, the empty string, "all" and every other token give none; `to` is always the current time |
| Analysis.AllAndAbsentAreUnbounded | cashly/cashly/app/analysis/page.tsx:20 | an absent range and "all" both leave the queries unfiltered |
| Analysis.DayTokenGoesBackWholeDays | cashly/cashly/app/analysis/page.tsx:25-34 | 7d, 30d and 90d put `from` exactly 7, 30 or 90 days of milliseconds before `now`, across month and year boundaries |
| Analysis.YearTokenSameMonthAndDate | cashly/cashly/app/analysis/page.tsx:35-37 | 1y puts `from` in the previous year on the same month, date and time of day; 29 February becomes 1 March when the previous year is common |
| Analysis.RangeSpan | cashly/cashly/app/analysis/page.tsx:25-37 | every resolved range is a whole number of days long: the token's days, or 365 or 366 for 1y |
| Analysis.FromBeforeTo | cashly/cashly/app/analysis/page.tsx:19-43 | every resolved range starts strictly before it ends |
| Analysis.AnalyticsContent | cashly/cashly/app/analysis/page.tsx:45-86 | the three queries receive the same resolved range; the No Data Yet view is shown exactly when the count is zero; otherwise the totals and both charts are those the queries returned |
| Calendar.SetDateShift | cashly/cashly/app/analysis/page.tsx:27 | setDate(getDate() − k) moves a time value back by exactly k days |
| Calendar.SetFullYearPrevious | cashly/cashly/app/analysis/page.tsx:36 | setFullYear(getFullYear() − 1) keeps month, date and time of day, except that 29 February of a leap year becomes 1 March |
| Calendar.SetFullYearPreviousSpan | cashly/cashly/app/analysis/page.tsx:36 | setFullYear(getFullYear() − 1) moves a time value back by 366 days exactly when a 29 February lies in between, and by 365 otherwise |
| Calendar.SetDate | cashly/cashly/app/analysis/page.tsx:27 | setDate keeps the time of day, and a date that exists in the month is set as given in the same year and month |
| Calendar.SetFullYear | cashly/cashly/app/analysis/page.tsx:36 | setFullYear keeps the time of day, and when the month and date exist in the new year the result is that day of that year |
| Calendar.MakeDay | cashly/cashly/app/analysis/page.tsx:27 | for a month in 0..11, the day is counted from the first day of the year through the first day of the month |
| Calendar.MakeDayCarries | cashly/cashly/app/analysis/page.tsx:27 | twelve months more is one year more, and one date more is one day more, so out-of-range dates and months roll over |
| Calendar.DayFromYearClosedForm | cashly/cashly/app/analysis/page.tsx:36 | the year-by-year count of days from 1970 agrees with the closed form of DayFromYear in ECMA-262 section 21.4.1.3 |
| Calendar.YearFromDay | cashly/cashly/app/analysis/page.tsx:36 | getFullYear's year is the one whose first day is not after the given day and whose successor's first day is after it |
| Calendar.YearFromDayUnique | cashly/cashly/app/analysis/page.tsx:36 | only one year contains a given day |
| Calendar.CivilFromDay | cashly/cashly/app/analysis/page.tsx:27 | getMonth and getDate always name an existing day of the year |
| Calendar.CivilRoundTrip | cashly/cashly/app/analysis/page.tsx:27 | MakeDay of a day's own year, month and date is that day |
| Calendar.DayRoundTrip | cashly/cashly/app/analysis/page.tsx:36 | an existing year, month and date reassembled by MakeDay decompose back to themselves |
| Calendar.DaysInMonth | cashly/cashly/app/analysis/page.tsx:36 | months have 28 to 31 days, and February has 29 exactly in leap years |
| Upload.Screen | cashly/cashly/components/ui/bottom-navbar.tsx:71-89 | no file gives NoFile; a disallowed type gives InvalidType, whatever the size; an allowed type above 10 MiB gives TooLarge; otherwise the first file is accepted |
| Upload.TooLargeAllSizes | cashly/cashly/components/ui/bottom-navbar.tsx:84-89 | every file of an allowed type above 10485760 bytes is refused as too large |
| Upload.AcceptedExactly | cashly/cashly/components/ui/bottom-navbar.tsx:76-89 | a file is accepted if and only if its type is one of the four allowed and its size is at most 10485760 bytes |
| Upload.TypeCheckedBeforeSize | cashly/cashly/components/ui/bottom-navbar.tsx:75-89 | a file with a disallowed type is reported as an invalid type whatever its size |
| Upload.SizeLimitInclusive | cashly/cashly/components/ui/bottom-navbar.tsx:84-89 | 10485760 bytes pass and 10485761 bytes are refused as too large |
| Upload.FailureMessage | cashly/cashly/components/ui/bottom-navbar.tsx:103-125 | the error toast shows the server's non-empty `error`, the fallback message when it is absent or empty, and a thrown Error's own message |
| Upload.UploadToasts | cashly/cashly/components/ui/bottom-navbar.tsx:71-125 | no toast for no file; one error toast for each refused file; loading, dismiss and one outcome toast for an accepted file |
| Upload.AcceptedUploadOutcome | cashly/cashly/components/ui/bottom-navbar.tsx:91-125 | an accepted upload ends in success with the expense count exactly when the reply is a success, and otherwise in the failure message |
| Upload.RenderEntry | cashly/cashly/components/ui/bottom-navbar.tsx:164-196 | an entry with a non-empty href is a link, any other entry is the button; the label is kept |
| Upload.View | cashly/cashly/components/ui/bottom-navbar.tsx:131-197 | the bar renders the Analysis link, the Add Receipt button and the Receipts link, in that order; each link is active when its href is the current path; the button and the file input are disabled while uploading |
| Upload.RenderNav | cashly/cashly/components/ui/bottom-navbar.tsx:164-197 | the entries are rendered one for one, in order |
| Upload.UploadingDisablesControls | cashly/cashly/components/ui/bottom-navbar.tsx:152-189 | the file input and the Add Receipt button are disabled exactly while an upload is in progress |
| Upload.ActiveLinkIsCurrentPath | cashly/cashly/components/ui/bottom-navbar.tsx:164-173 | a link is highlighted exactly when its href is the current path, so at most one link is highlighted |
| Upload.BottomNavbar.constructor | cashly/cashly/components/ui/bottom-navbar.tsx:61-65 | a mounted bar is not uploading and has shown and sent nothing |
| Upload.BottomNavbar.Rendered | cashly/cashly/components/ui/bottom-navbar.tsx:150-159 | the rendered file input is disabled exactly while uploading |
| Upload.BottomNavbar.BeginUpload | cashly/cashly/components/ui/bottom-navbar.tsx:91-101 | sets the flag, shows the loading toast and sends the file once; nothing else changes |
| Upload.BottomNavbar.FinishUpload | cashly/cashly/components/ui/bottom-navbar.tsx:103-128 | dismisses the loading toast and shows the outcome; on success clears the attached input and goes to /receipts; always clears the flag |
| Upload.BottomNavbar.HandleImageUpload | cashly/cashly/components/ui/bottom-navbar.tsx:71-129 | refused files add only their error toast and leave the flag and the request log alone; an accepted file is sent exactly once, and the handler ends with the flag cleared |
| Numeric.RoundMagnitude | cashly/cashly/lib/db/schema.ts:16 | dropping digits rounds to within half a unit, with ties going up |
| Numeric.Rescale | cashly/cashly/lib/db/schema.ts:16 | rounding to the column's scale never changes the sign of a value |
| Numeric.Coerce | cashly/cashly/lib/db/schema.ts:16 | a value is stored exactly when its rounding fits the column's precision, and is then stored as that rounding |
| Numeric.RescaleExact | cashly/cashly/lib/db/schema.ts:16 | a value with no more fractional digits than the column's scale is stored without change |
| Numeric.RescaleError | cashly/cashly/lib/db/schema.ts:16 | a value with more fractional digits is stored within half a unit of the last kept digit |
| Numeric.RescaleNegate | cashly/cashly/lib/db/schema.ts:16 | rounding is symmetric about zero |
| Numeric.CoerceStoredValue | cashly/cashly/lib/db/schema.ts:33 | a value already at the column's scale is stored unchanged, or refused when it has too many digits |
| Schema.ParseStatus | cashly/cashly/lib/db/schema.ts:9 | exactly the three status names are recognised |
| Schema.StatusTextRoundTrip | cashly/cashly/lib/db/schema.ts:9 | status names and statuses correspond one to one |
| Schema.CategoryText | cashly/cashly/lib/db/schema.ts:18-30 | every category is stored as one of the nine listed names |
| Schema.ParseCategory | cashly/cashly/lib/db/schema.ts:18-30 | exactly the nine category names are recognised |
| Schema.CategoryTextRoundTrip | cashly/cashly/lib/db/schema.ts:18-30 | category names and categories correspond one to one |
| Schema.WithDefault | cashly/cashly/lib/db/schema.ts:7 | a column with a default is null only when null is given explicitly |
| Schema.ReceiptRow | cashly/cashly/lib/db/schema.ts:4-10 | a receipt row is built exactly when neither uploaded_at nor status is given as null; status defaults to pending and uploaded_at to the insertion time; the other columns are kept as given |
| Schema.ConversionError | cashly/cashly/lib/db/schema.ts:12-33 | the values are refused exactly when receipt_id lies outside the `integer` range or a rounded amount or confidence has more than 10 or 5 digits; an out-of-range receipt_id is reported first |
| Schema.CoerceOptional | cashly/cashly/lib/db/schema.ts:33 | a null decimal stays null; a given one is stored as its rounding when that fits |
| Schema.ExpenseRow | cashly/cashly/lib/db/schema.ts:12-35 | an expense row is built exactly when every value converts and none of receipt_id, amount, currency, category and created_at is null; the decimals are rounded to two digits and fit their columns; currency defaults to INR and created_at to the insertion time; the other columns are kept as given |
| Schema.AmountRounded | cashly/cashly/lib/db/schema.ts:16 | an amount given with more than two fractional digits is stored within half a cent |
| Schema.ExpensesOf | cashly/cashly/lib/db/schema.ts:38-40 | a receipt's expenses are rows of expenses that reference it, and no more of them than the table has |
| Schema.ExpensesOfMembers | cashly/cashly/lib/db/schema.ts:38-40 | a receipt's expenses are exactly the rows of expenses that reference it |
| Schema.ReceiptOf | cashly/cashly/lib/db/schema.ts:42-47 | an expense's receipt is a stored receipt with its receipt_id, and there is none exactly when no receipt has that id |
| Schema.ExactlyOneReceipt | cashly/cashly/lib/db/schema.ts:5 | with unique ids, an existing id belongs to exactly one receipt |
| Schema.EachExpenseHasOneReceipt | cashly/cashly/lib/db/schema.ts:14 | in a store that meets the constraints, each expense references exactly one receipt and the relation finds it |
| Schema.RelationPartitionsExpenses | cashly/cashly/lib/db/schema.ts:38-47 | with unique receipt ids and the foreign key, the expenses of all receipts together are the rows of expenses as a multiset, each listed once |
| Schema.GroupedCons | cashly/cashly/lib/db/schema.ts:38-47 | a new expense is listed once among the receipts' expenses when its receipt is present, and not at all otherwise |
| Schema.ExpenseAppendWellFormed | cashly/cashly/lib/db/schema.ts:12-35 | adding an expense with an existing receipt, fitting decimals and a new highest id keeps the primary keys, the foreign key and the column bounds |
| Schema.ExpensesOfAppend | cashly/cashly/lib/db/schema.ts:38-40 | a new expense is added to its own receipt's expenses, after the existing ones in the model's row order, and every other receipt's expenses stay the same |
| Schema.Store.constructor | cashly/cashly/lib/db/schema.ts:4-35 | empty tables and unused sequences meet the constraints |
| Schema.Store.InsertReceipt | cashly/cashly/lib/db/schema.ts:4-10 | takes the next serial id, or fails once the sequence is exhausted; stores the row built with the defaults under a fresh id; keeps the constraints |
| Schema.Store.InsertExpense | cashly/cashly/lib/db/schema.ts:12-35 | refuses values that do not convert without using an id; otherwise takes the next serial id, or fails once the sequence is exhausted; stores the built row only when its receipt exists, under a fresh id, adding it to that receipt's expenses only; keeps the constraints |

## Left out

- The time zone. Local time is taken to be UTC, so daylight-saving shifts
  do not appear. TimeClip, and the NaN time values it produces outside
  ±8.64 × 10^15 ms, are not modelled.
- The two `new Date()` calls of getDateRange are one value `now`. The
  milliseconds that may pass between them are not modelled.
- The request itself: FormData, `fetch` and JSON parsing are not modelled.
  Its outcome is the parameter `reply`. A non-string `error` field, which
  JavaScript would turn into a string, is not modelled.
- Toasts and `router.push` are recorded as state, not performed. The
  loading toast's id is not modelled.
- `handlePlusClick` is not modelled. It only forwards a click to the hidden
  input, through the browser.
- Concurrency: the three queries run through `Promise.all` and the upload
  handler is asynchronous. Both are modelled as running in sequence. The
  disabled input and button are what keep a second upload from starting
  while one runs.
- JSX markup, styling, icons, metadata, the loading skeleton and the
  Suspense boundary are not modelled.
- The aggregation queries module is not part of this model. The queries
  are abstract functions of the resolved range.
- The receipt-analysis endpoint and the ingestion of its result are not
  part of this model. Nothing here groups the inserts of a receipt's
  expenses into one transaction: the schema accepts them one row at a time
  (`Schema.Store.InsertExpense`), so any subset of a batch can be stored.
- The status and category enumerations are typed in TypeScript only. The
  database declares no CHECK constraint for them, so a raw insert could
  store another text. The model stores only the declared values.
- Nothing in the modelled code deletes rows or changes a receipt's status,
  and the schema declares no ON DELETE action. Deletion and status changes
  are not modelled.
- Schema.Store.InsertExpense: values are converted to the column types
  before the serial id is taken, as for literals and for parameters in a
  custom plan. Under a generic plan PostgreSQL may round a decimal after
  `nextval` has run, so an overflowing amount would then use up an id; the
  model does not capture that case. Among the errors after the id is
  taken, the not-null checks come in column order and the foreign key
  last.
- The order of rows: `receiptsRelations` and the tables have no declared
  order, and the database may return rows in any order. The model keeps
  rows in insertion order, so "after the existing ones" in
  `Schema.ExpensesOfAppend` describes the model, not an order the
  database guarantees.
- Timestamp precision and the time zones of the `timestamp` columns are
  not modelled.

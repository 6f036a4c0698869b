# Vacation dashboard: a verified model of the vacation ledger

The vacation dashboard is a small Dash/Flask application for HR staff, managers and employees. It keeps two SQLite tables:

- `staff`: fio, a unique ipn (the tax number, which also serves as the login), role, manager_fio, the yearly allowance and the remaining balance;
- `vacations`: staff_id, start and end dates, and total_days.

HR adds employees, books vacations, edits an employee together with their "most relevant" booking, and deletes employees. Managers see their direct reports' bookings. Everyone sees their own balance.

This project models that core in Dafny:

- **Text** (`text.dfy`): decimal digits, Python's `str(n)`, ASCII lower-casing, and the code-point order of strings (Python `<`, SQLite BINARY).
- **Dates** (`date_utils.dfy`): the Gregorian calendar, `datetime.strptime(s, '%Y-%m-%d')`, and `calculate_days`, the inclusive day count.
- **Security** (`security.dfy`): `validate_ipn`, `validate_date_format`, `validate_file_upload`.
- **Tables** (`tables.dfy`): what the SQL asks of SQLite:
  - a table scan in rowid order;
  - `ORDER BY` as a stable insertion sort over an ordering relation;
  - `ORDER BY key LIMIT 1`.
- **DbOperations** (`db_operations.dfy`):
  - the ledger, as a class `Ledger` over two id-keyed maps. Its four mutators are methods, each one atomic step; every failure leaves both tables unchanged, as the source's rollbacks do. The edit's reads and checks are a separate method, `PlanEdit`, that changes nothing;
  - the read queries, as functions of the two maps. "Today" is a parameter.
- **App** (`app.dfy`):
  - the page router and the login callback, as methods of a class `WebApp` whose field is the Flask session;
  - the two live previews and the gates of the four form handlers, as functions;
  - the handlers, as methods that pass a gate's decision to the ledger.

The ledger's invariant is `annual − remaining == Σ total_days` of the employee's bookings (`Balanced`, with the ghost sum `Booked`). The source never states it, but every mutator is written to keep it:

- every mutator keeps each employee's `Drift` (annual − remaining − booked) as it was;
- `add_employee` starts a new employee with drift `annual − remaining`, which is 0 when the balance is defaulted or set to the allowance, as the HR form does;
- the HR add-vacation form passes the exact inclusive span, so the form also keeps every booking's `total_days` equal to its period (`SpansExact`). The update path recomputes the span itself.

Behaviour of the code that a reader might not expect, and that the model follows:

- `add_employee` does not validate the ipn; only the UNIQUE constraint refuses a duplicate.
- `delete_employee` has no check for non-positive ids; an unknown id is simply "not found".
- `delete_employee` sets manager_fio to NULL on every row that names the deleted employee's fio. If two employees share a fio, the reports of the one that remains lose their manager too.
- `get_vacation_history(year)` compares SQLite's four-digit `strftime('%Y')` with Python's `str(year)`. Years before 1000 therefore never match (`HistoryByYear`).
- The HR add-employee form treats a yearly allowance of 0 as a missing field, but accepts a negative one. The edit form refuses negative allowances and accepts 0.
- The remaining-days preview does not flag a balance that would go negative. `add_vacation` refuses such a booking.
- `strptime` accepts unpadded fields (`2024-1-5`), which `validate_date_format` refuses (`FormatCheckStricterThanParser`).

## Model

| member | source | states |
|---|---|---|
| Dates.CalculateDays | utils/date_utils.py:3-6 | Some exactly when both texts parse as calendar dates (strptime refuses month 13, Feb 29 of a common year, year 0); the value is the inclusive span; it is ≥ 1 exactly when the end does not precede the start, and 1 exactly for equal dates |
| Dates.SpanPositive | utils/date_utils.py:6 | the inclusive span is ≥ 1 iff the end does not precede the start, and is 1 iff the dates are equal |
| Dates.SpansCompose | utils/date_utils.py:6 | `calculate_days(a,b) + calculate_days(b,c) == calculate_days(a,c) + 1` for any three parseable dates |
| Dates.SpanOfNextDay | utils/date_utils.py:6 | a date and the next one span two days |
| Dates.TenDaysInJanuary | scripts/test_app.py:53-54 | `calculate_days('2024-01-01','2024-01-10') == 10` |
| Dates.OrdinalOrder | utils/date_utils.py:6 | the day number orders dates chronologically and tells them apart |
| Dates.OrdinalNextDay | utils/date_utils.py:6 | the next calendar day has the next day number |
| Dates.ParseDate | utils/date_utils.py:4-5 | a parsed date has a four-digit year ≥ 1 and a `-` after it; the month is what `%m` reads up to the second `-`, the day is what `%d` reads from the rest, and the day exists in that month |
| Dates.ParseIsoFormat | utils/date_utils.py:4-5 | strptime reads back the ISO text of every date |
| Dates.MonthFieldPadded | utils/date_utils.py:4-5 | `%m` reads a zero-padded month back as that month |
| Dates.DayFieldPadded | utils/date_utils.py:4-5 | `%d` reads a zero-padded day back as that day |
| Dates.IsoFormatOrder | data/db_operations.py:157 | ISO texts compare as strings exactly as their dates compare on the calendar |
| Dates.ParseUnpadded | utils/date_utils.py:4 | strptime accepts the unpadded `2024-1-5` |
| Dates.LeapDayAccepted | utils/date_utils.py:4 | `2024-02-29` parses |
| Dates.LeapDayRejectedInCommonYear | utils/date_utils.py:4 | `2023-02-29` raises ValueError (None) |
| Dates.MonthThirteenRejected | utils/date_utils.py:4 | month 13 raises ValueError (None) |
| Dates.DayThirtyTwoRejected | utils/date_utils.py:4 | day 32 raises ValueError (None) |
| Dates.YearZeroRejected | utils/date_utils.py:4 | year 0 raises ValueError (None) |
| Security.ValidateIpn | utils/security.py:8-26 | non-strings and empty text are refused; text is accepted iff exactly ten digits remain once every non-digit is dropped |
| Text.DigitsOf | utils/security.py:14 | `re.sub(r'\D', '', s)` keeps exactly the digits of the text: the result is all digits, no longer than the text, and holds a character iff the text holds it and it is a digit |
| Security.IpnDependsOnDigitsOnly | utils/security.py:14 | the verdict on a text equals the verdict on its digits alone |
| Security.IpnToleratesSeparators | utils/security.py:14-18 | inserting a non-digit anywhere does not change the verdict |
| Security.IpnOfDigits | utils/security.py:14-24 | a text of digits only passes iff it has exactly ten |
| Security.IpnEmptyExamples | utils/security.py:10-11 | empty text and non-strings are refused |
| Security.ValidateDateFormat | utils/security.py:45-51 | None and empty text are refused; otherwise accepted iff the text is `dddd-dd-dd`, optionally followed by one newline |
| Security.IsoFormatPassesFormatCheck | utils/security.py:49-51 | the ISO text of every calendar date passes |
| Security.ShapeAndParseMeanIsoFormat | utils/security.py:49-51 | shape-valid text that strptime accepts is the ISO text of the date it denotes |
| Security.FormatCheckIgnoresCalendar | utils/security.py:49-51 | `2024-13-45` passes the shape check though strptime refuses it |
| Security.FormatCheckStricterThanParser | utils/security.py:47-51 | `2024-1-5` fails the shape but parses; a single trailing newline passes; empty text fails |
| Security.ValidateFileUpload | utils/security.py:86-94 | an accepted name is given and holds a dot |
| Security.AfterLastDot | utils/security.py:92 | the extension holds no dot, is a suffix of the name, and follows the last dot |
| Security.FileUploadByExtension | utils/security.py:86-94 | a name with a dot is accepted iff the text after its last dot, lower-cased, is csv, xlsx or xls |
| Security.FileUploadIgnoresCase | utils/security.py:92-94 | lower-casing the extension never changes the verdict (`a.CSV` is treated as `a.csv`) |
| Text.LowerAsciiIdempotent | utils/security.py:92 | lower-casing twice is lower-casing once |
| Security.FileUploadNoExtensionExamples | utils/security.py:92-94 | a name without a dot, or ending in a dot, is refused |
| Tables.ScanRows | data/db_operations.py:106-111 | a scan yields one row per id and nothing else: each row appears exactly as many times as ids project onto it |
| Tables.OrderedScan | data/db_operations.py:106-111 | `SELECT … ORDER BY`: one row per id and nothing else, each row as many times as ids project onto it, each ordered before the next |
| Tables.SortBy | data/db_operations.py:109 | `ORDER BY` rearranges the rows (same multiset) so that each is ordered before the next |
| Tables.FirstLeast | data/db_operations.py:233-238 | `LIMIT 1` after `ORDER BY key`: None iff there are no rows, else a row whose key is least |
| Text.LexLeTotalOrder | data/db_operations.py:109 | the string order used by `ORDER BY fio` is total, transitive and antisymmetric |
| Text.PaddedOrder | data/db_operations.py:157 | zero-padded numbers of one width sort as strings as they do as numbers |
| DbOperations.Ledger.constructor | data/db_operations.py:24-45 | the empty tables satisfy the key constraints, the balance invariant and exact spans |
| DbOperations.Ledger.AddEmployee | data/db_operations.py:73-94 | the balance defaults to the allowance; a taken ipn gives None and inserts nothing; otherwise exactly one row under a fresh id; no drift changes, and the ledger stays balanced when the balance equals the allowance |
| DbOperations.Ledger.AddVacation | data/db_operations.py:113-146 | refused with no change iff the employee is missing or has fewer remaining days than total_days; otherwise exactly one booking with the given total_days and that employee's balance lowered by it; all other staff untouched; balance kept |
| DbOperations.Ledger.PlanEdit | data/db_operations.py:264-309 | the four failures arise exactly under their conditions (missing employee; an owned target whose dates do not parse or span ≤ 0 days; an ipn held by someone else); on success the new row carries the submitted details and a balance moved by the change in allowance less the change in booked days, no one else's booked days move, the owned target is re-dated with its exact span, and the planned tables keep the key constraints, every drift and exact spans |
| DbOperations.KeyedAfterEdit | data/db_operations.py:296-299 | overwriting one row with an ipn nobody else holds, and re-dating bookings in place, keeps ipn uniqueness and the foreign key |
| DbOperations.DriftAfterEdit | data/db_operations.py:300-303 | rebuilding the balance as `annual_new − booked` keeps every employee's drift |
| DbOperations.SpansExactAfterRedate | data/db_operations.py:287-291 | re-dating a booking with its exact span keeps every span exact |
| DbOperations.Ledger.UpdateEmployeeDataAndVacation | data/db_operations.py:254-315 | not found, a date that does not parse, a non-positive new span, and an ipn held by someone else each fail with both tables unchanged; a target not owned by the employee is ignored; otherwise the details are overwritten, the owned target is re-dated with its exact span, and the balance is rebuilt so that every drift is unchanged |
| DbOperations.Ledger.DeleteEmployee | data/db_operations.py:341-374 | an unknown id fails with no change; otherwise every manager_fio naming the fio becomes NULL, the employee's bookings and row go, and nothing else changes; the balance is kept |
| DbOperations.BookedReplace | data/db_operations.py:293 | re-dating one booking changes the booked sum by new − old total |
| DbOperations.BookedInsert | data/db_operations.py:126-137 | a new booking adds its total to its owner's booked sum only |
| DbOperations.BookedWithout | data/db_operations.py:362 | removing one employee's bookings leaves every other employee's booked sum |
| DbOperations.EmployeeById | data/db_operations.py:66-71 | the row exists iff the id is a key |
| DbOperations.EmployeeByIpn | data/db_operations.py:96-104 | None iff no row has the ipn; otherwise a row with exactly that ipn |
| DbOperations.EmployeeByIpnFindsOwner | data/db_operations.py:28 | with ipn UNIQUE, looking up an employee's ipn finds that employee |
| DbOperations.Managers | data/db_operations.py:106-111 | one fio per row with role Manager, nothing else, each fio as many times as Managers bear it, sorted by fio |
| DbOperations.YearIsMeaning | data/db_operations.py:157-160 | `strftime('%Y', d) = str(year)` holds iff the date's year is `year` and `year` ≥ 1000 |
| DbOperations.VacationHistory | data/db_operations.py:148-161 | one row per booking of a listed employee that starts or ends in the year, nothing else, each row as many times as such bookings give it, latest start first |
| DbOperations.HistoryByYear | data/db_operations.py:157 | a booking is in the year's history iff its start year or end year is that year (years ≥ 1000) |
| DbOperations.SubordinatesVacationDetails | data/db_operations.py:317-339 | one row per booking of an employee whose manager_fio is the given text (direct reports only), each row as many times as such bookings give it, sorted by fio then start |
| DbOperations.LeastBooking | data/db_operations.py:233-238 | `ORDER BY key LIMIT 1` over bookings: None iff none qualify, else a qualifying booking with the least key |
| DbOperations.LatestEnding | data/db_operations.py:177-181 | None iff the employee has no booking ending within the window; otherwise one of those with the latest end |
| DbOperations.WiderWindowSameLatest | data/db_operations.py:180 | once the 30-day window holds a booking, the 90-day window finds the same latest end date |
| DbOperations.EmployeesForHrTable | data/db_operations.py:163-188 | one row per employee with its latest booking ending no earlier than 30 days ago, sorted by fio |
| DbOperations.EmployeeVacationSummaryByIpn | data/db_operations.py:190-211 | None iff no employee has the ipn; otherwise that employee's row with a 90-day window |
| DbOperations.EmployeeDetailsForEdit | data/db_operations.py:213-252 | None iff the id is unknown; otherwise the row with the upcoming booking that starts first, else the past one that ended last, else none; a booking under way today is never chosen |
| App.RolePathsOneToOne | app.py:37-41 | no two roles share a dashboard path |
| App.Route | app.py:106-133 | `/logout` clears the session and goes to `/login`; a logged-in user gets a dashboard only on their own role path and is redirected there from `/`, `/login`, other roles' paths and unknown paths; without a session `/login` stays and everything else goes to `/login` |
| App.RouteSettles | app.py:106-133 | following one redirect lands on a page that stays put (visitors, and users whose role has a path) |
| App.WebApp.constructor | app.py:106-133 | a fresh app has no session, in which no one is logged in |
| App.WebApp.DisplayPageContent | app.py:106-133 | the page, URL and session follow `Route`; only `/logout` changes the session; a redirect lands on a path where the URL then stays put; a logged-in session keeps a role with a dashboard |
| App.WebApp.ProcessLogin | app.py:78-96 | an empty or unknown ipn leaves the session as it was; a known one stores that employee's ipn, role and fio and lands on their dashboard, or clears the session when the role has no path, so a logged-in session always has a role with a dashboard |
| App.TotalDaysPreview | app.py:214-221 | nothing without both dates; an error iff a date does not parse; the day count only for a positive span, and it is the inclusive span |
| App.RemainingPreview | app.py:229-246 | no employee, failed load, or the current balance, less the period's days exactly when the total-days preview shows a count |
| App.AddVacationGate | app.py:257-268 | the ledger is reached only with a chosen employee and two parsed dates whose inclusive span is ≥ 1, passed as total_days; the gate agrees with the total-days preview |
| App.HandleAddVacation | app.py:257-274 | the ledger is reached iff the gate passes, and then books iff the employee exists with enough days left; a booking adds exactly that vacation under the next id and lowers only that employee's balance, by total_days, to what the remaining-days preview showed; otherwise both tables are unchanged; balance and exact spans are kept |
| App.PreviewOfBooking | app.py:238-243 | for a request the add-vacation gate lets through, the remaining-days preview shows the current balance less that request's total_days |
| App.AddEmployeeGate | app.py:181-189 | fio, ipn, role and a non-zero allowance must all be given |
| App.HandleAddEmployee | app.py:181-196 | the new employee's balance is the allowance, so a balanced ledger stays balanced |
| App.ParseInt | app.py:315 | `int(t)` succeeds only on an optional sign followed by digits, and on plain digits it is their decimal value |
| App.ParseIntText | app.py:314-317 | `int(str(n)) == n` |
| App.ParseIntNegative | app.py:314-317 | `int("-" + digits)` is minus the digits' value |
| App.DeleteGate | app.py:305-317 | nothing happens with no selection; more than one row is refused; otherwise the single row id must read as an integer, and that integer is deleted |
| App.HandleDeleteEmployee | app.py:305-327 | a deletion happens iff the gate yields an id that exists, with `delete_employee`'s effect; balance and exact spans are kept |
| App.SaveGate | app.py:426-463 | an edit passes iff the employee exists, ipn and role are given, the allowance is given and not negative, both dates or neither are given, and the end text does not sort before the start; the updates keep the stored fio |
| App.SaveGateIsCalendarOrder | app.py:451-452 | for ISO dates the text test is the calendar test, and an edit that passes never meets the ledger's invalid-period check |
| App.HandleSaveEmployeeData | app.py:426-470 | the ledger is called iff the gate passes and never finds the employee missing; a date error, an invalid period and a duplicate ipn are reported exactly under their conditions; on success an owned target is re-dated with its exact span and otherwise the bookings are unchanged; the fio is kept, and every drift, the balance and exact spans are kept whatever the ledger answers |

## Left out

- Storage: dates are stored as parsed calendar dates, not as the text the source writes. Non-canonical text that strptime accepts (`2024-1-5`) but SQLite's `date()` does not understand is therefore not modelled in the queries.
- Character classes: digits are the ASCII digits. Python's `\d`, `\D` and `int()` also accept other Unicode decimal digits, and `str.lower()` folds more than A–Z.
- `int()`: the model accepts an optional sign and ASCII digits. Surrounding whitespace, underscores and float truncation of numeric form values are not modelled.
- Form values: the numeric form values are taken as integers or None.
- The clock: `date('now')` (UTC) and `date.today()` are the `today` parameter. `datetime.now().year` in the history callback is the `year` parameter.
- Concurrency: each ledger call opens its own connection with no locking. The model treats each call as one atomic step, with no interleavings.
- NOT NULL constraints: they cannot fail in the model, because the fields are non-optional values.
- SQLite plumbing and the literal SQL: `get_db_connection`, `_ensure_tables_exist`, `_init_db`, commit and rollback. Rollback appears only as "both tables unchanged".
- `get_all_employees`, `update_user_header` and the dropdown and table-filling callbacks only read or render data.
- Dash alerts, layouts and messages: they are reduced to tagged outcomes.
- utils/security.py helpers that call outside code are not part of this model: `sanitize_input` (bleach), the CSRF helpers (secrets), `require_auth`/`require_role` (Flask), `hash_sensitive_data` (SHA-256), and `rate_limit_check` (wall-clock time and a process-global dict).
- There is no transitive subordinate closure and no bulk import: neither has code in the repository.
- DbOperations.Managers: returns the fio texts, not the `{'label', 'value'}` dicts built from them.
- DbOperations.EmployeesForHrTable: states one row per employee through count and membership, not by naming each employee's position.
- Tables.FirstLeast: SQLite does not fix which row wins a tie under `ORDER BY … LIMIT 1`. The model takes the first in rowid order and its contract does not commit to either.

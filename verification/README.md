# Check-up reminder job, modelled in Dafny

The job reads a table of patients (Patient ID, Name, Last Check-up Date).
Against one `today` instant, it selects the patients whose last check-up is
more than 365 days back. For each of them, in row order, it builds a plain-text
reminder email and hands it to an SMTP relay. This project models three parts
of the job. The first is the due rule, over integer microseconds and
proleptic Gregorian day ordinals. The second is the loop over the rows, as a
pure function over `seq<Record>`. The third is the construction of the
address and the message, as pure string functions. The SMTP session is an
oracle that supplies the outcome of each send attempt.

Modules, one file each:

- `Wrappers` (`wrappers.dfy`): `Option`.
- `Calendar` (`calendar.dfy`): dates, Python's day ordinal (0001-01-01 is day 1), and instants in microseconds.
- `DueCheck` (`due_check.dfy`): `CHECK_UP_INTERVAL` and the predicate `IsDue`.
- `Messages` (`messages.dfy`): the constants, the address `<Patient ID>@example.com`, the body template, and the email.
- `Dispatch` (`dispatch.dfy`): rows, transport outcomes, the batch loop `Run`, and the printed log line.

The behaviour of the SMTP session comes from an oracle `nat -> TransportOutcome`.
The oracle is keyed by attempt number, and it gives one of three outcomes.
`ConnectFails` means the `smtplib.SMTP(...)` constructor raised.
`SessionFails` means starttls, login, serialisation or sendmail raised.
`Delivered` means sendmail returned. The last two also record whether
`server.quit()` raised in the `finally` clause. An exception from that clause
escapes `send_email` and ends the whole run. The constructor case is one
example: `server` was never bound, so the clause itself raises.
Each attempt records the row it was made for and the outcome. Its message is
`EmailFor` of that row (`Attempt.Message`).

Behaviours of the code worth knowing:

- An empty date cell, or one holding a missing-value marker that `read_csv`
  recognises by default (`N/A`, `NA`, `null`, `NaN` and the like), becomes
  NaN and then, at line 21, pandas' NaT. `>` against NaT is false, so such a
  row is silently not due. No error is reported for it.
- A date string that cannot be parsed makes `pd.to_datetime` raise for the
  whole column. That happens before any row is looked at, so it is not a
  per-record failure.
- A failure to open the connection is not isolated: it ends the run (see
  Findings).
- The interval is 365 days, not one calendar year. 2023-06-15 and 2024-06-15
  are 366 days apart because of 2024-02-29, so a check-up on 2023-06-15 is
  already due at midnight on 2024-06-15.
  `DueCheck.CalendarYearAcrossLeapDay` proves this.

## Model

| member | source | states |
|---|---|---|
| Calendar.Instant | email_reminder_automation.py:21-27 | an instant splits back into its day ordinal (quotient by a day) and its microsecond of day (remainder), so naive datetimes are exact integers |
| Calendar.NextDay | email_reminder_automation.py:57 | the next calendar date is a valid date, one day later in the ordinal that date subtraction uses, across month, year and leap-year ends |
| Calendar.OrdinalOrder | email_reminder_automation.py:57 | the day ordinal orders dates chronologically and is injective, so subtracting two dates measures their distance in days |
| Calendar.Midnight | email_reminder_automation.py:21 | a date-only cell parses to an instant with no time of day (remainder 0 by a day) on that date's ordinal |
| Calendar.YearLength | email_reminder_automation.py:57 | the day count of a year is 366 exactly in Gregorian leap years, else 365 |
| DueCheck.IsDue | email_reminder_automation.py:57 | the due test `today - last_checkup_date > CHECK_UP_INTERVAL`; its contract says a due check-up is a date strictly before `today`, and MidnightCheckup characterises it in calendar days |
| DueCheck.ExactIntervalNotDue | email_reminder_automation.py:24-57 | the comparison is strict: an elapsed time of exactly 365 days is not due, and 365 days plus one microsecond is due |
| DueCheck.FutureNeverDue | email_reminder_automation.py:57 | a check-up later than `today` is never due |
| DueCheck.MissingDateNeverDue | email_reminder_automation.py:21-57 | a row whose date is NaT is never due |
| DueCheck.DueMonotone | email_reminder_automation.py:57 | if a check-up is due, every earlier check-up is due against the same `today` |
| DueCheck.DueStaysDue | email_reminder_automation.py:27-57 | a check-up due at some `today` stays due at any later `today` |
| DueCheck.MidnightCheckup | email_reminder_automation.py:21-57 | for a date-only check-up, due iff more than 365 calendar days have passed, or exactly 365 and `today` is past midnight |
| DueCheck.CalendarYearAcrossLeapDay | email_reminder_automation.py:21-57 | one calendar year across 2024-02-29 is 366 days and due at midnight; 365 days back is not due at midnight but due one microsecond later; a future date is not due |
| Messages.FormatInt | email_reminder_automation.py:55 | Python's `str()` of a numeric Patient ID: a minus sign exactly for negative IDs, no leading zero, and the text parses back to that ID, for every integer |
| Messages.Address | email_reminder_automation.py:55 | the recipient address: stripping `@example.com` from it recovers exactly the Patient ID's text |
| Messages.NumericAddressInjective | email_reminder_automation.py:55 | two numeric Patient IDs give the same address iff they are equal |
| Messages.Body | email_reminder_automation.py:36 | the body starts with `Dear `, ends with the fixed closing text of line 36, and the name between them is recoverable |
| Messages.BodyInjective | email_reminder_automation.py:36 | two bodies are equal iff the names are, so only the name varies between reminders |
| Messages.Compose | email_reminder_automation.py:30-36 | the message has From = FROM_EMAIL, To = the given address, Subject = SUBJECT, and a body that greets the given name |
| Dispatch.DueRows | email_reminder_automation.py:52-57 | the selected rows are no more than the input rows, and each is an input row that is due |
| Dispatch.DueRowsAppend | email_reminder_automation.py:52-57 | selecting due rows commutes with concatenation, so input order is kept |
| Dispatch.DueRowsCount | email_reminder_automation.py:52-58 | a due row is selected as many times as it occurs (no deduplication); a row that is not due, never |
| Dispatch.EmailFor | email_reminder_automation.py:53-58 | the message for a row has From = FROM_EMAIL and Subject = SUBJECT, is addressed to the row's Patient ID at `@example.com`, and greets the row's name |
| Dispatch.Escape | email_reminder_automation.py:39-49 | the exception leaving `send_email`: the unbound-`server` error exactly for a failed connection as written; a starttls, login, serialisation or sendmail failure is caught, so only a raising `quit()` escapes it |
| Dispatch.RunFrom | email_reminder_automation.py:52-58 | the loop from attempt n on: the i-th due row gets the i-th attempt with outcome oracle(n + i); the run stops right after the first escaping outcome, else attempts every due row (SendsInOrder) |
| Dispatch.Run | email_reminder_automation.py:27-58 | the whole run against the one `today`: exactly the due rows, in order, until an exception escapes `send_email` |
| Dispatch.BatchCompletes | email_reminder_automation.py:52-58 | if no outcome escapes, the run ends normally with one attempt per due row, the i-th for the i-th due row |
| Dispatch.FirstEscapeEndsRun | email_reminder_automation.py:39-58 | the first attempt whose outcome escapes is the last attempt, and its exception ends the run |
| Dispatch.CaughtFailureContinues | email_reminder_automation.py:39-58 | a starttls, login or sendmail failure that is caught does not stop the next due row's attempt |
| Dispatch.ConnectFailureEndsBatch | email_reminder_automation.py:39-49 | as written, a failing `smtplib.SMTP(...)` ends the run with the unbound-`server` error, and no later row is attempted |
| Dispatch.GuardedBatchCompletes | email_reminder_automation.py:39-49 | with `quit()` guarded by a bound `server`, every due row is attempted unless `quit()` itself raises |
| Dispatch.OnlyEscapesSteer | email_reminder_automation.py:39-58 | which rows are sent to, and so which messages, depends on the transport only through which outcomes escape |
| Dispatch.ConnectFailureCounterexample | email_reminder_automation.py:39-58 | two due rows whose first connection fails: as written, one attempt and an abort; guarded, both rows attempted |
| Dispatch.RepeatedRowRemindedTwice | email_reminder_automation.py:52-58 | a due row listed twice gets two attempts, both for that row and so with the same message |
| Dispatch.LogLine | email_reminder_automation.py:45-47 | the printed line starts with `Email sent to ` iff the send succeeded; a success line is that prefix and the recipient; a failure line is `Failed to send email to `, the recipient, `. Error: ` and the error text |

## Left out

- CSV loading (`pd.read_csv`) and date parsing (`pd.to_datetime`, line 21) are library calls. The model takes rows that are already parsed. A malformed date string makes the whole run fail before the loop starts.
- The SMTP connection, STARTTLS, authentication and MIME serialisation (lines 37, 40-44) are network I/O. They are replaced by the outcome oracle, and the error text is an opaque string.
- `print` (lines 45, 47) is not modelled as output. Only the text of the line is modelled, in `LogLine`.
- SMTP_SERVER, SMTP_PORT and PASSWORD (lines 10-13) are configuration with no behaviour of their own.
- `datetime.now()` (line 27) is the `today` parameter.
- pandas `Timestamp` has nanosecond resolution and covers only the years 1677 to 2262. Dates are modelled in years 1 to 9999 at microsecond resolution. The two agree for midnight dates inside the pandas range.
- A Patient ID column with blank cells or fractional numbers is read as floats (`1.0@example.com`), and a non-text name is formatted by `str()`. Neither is modelled. IDs are integers or text, and names are text.

## Findings

| source | as written | input that shows it | evidently intended | confidence | as-written member | corrected member |
|---|---|---|---|---|---|---|
| email_reminder_automation.py:39-49 | `finally: server.quit()` also runs when `smtplib.SMTP(...)` raised, so `server` is unbound, and the resulting UnboundLocalError escapes `send_email` and ends the loop | two due rows, where opening the first connection is refused: the failure is printed for the first patient, then the run dies and the second patient gets no attempt | a connection failure is logged like any other send failure, and the loop goes on to the next due row | high; not executed | Dispatch.ConnectFailureCounterexample | Dispatch.GuardedBatchCompletes |

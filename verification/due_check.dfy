/**
  The rule that decides whether a patient is due for a check-up: the time
  elapsed from the last check-up to "now" must strictly exceed 365 days.
 */
module DueCheck {
  import opened Calendar

  /** CHECK_UP_INTERVAL, in days and in microseconds. */
  const IntervalDays: int := 365
  const Interval: int := IntervalDays * MicrosPerDay

  /**
    A parsed "Last Check-up Date" cell: an instant in microseconds, or pandas'
    not-a-time marker for an empty or missing-value cell.
   */
  datatype CheckupTime = NaT | At(micros: int)

  /**
    `today - last_checkup_date > CHECK_UP_INTERVAL`. `>` against NaT is false
    in pandas, so a row without a date is never due.
   */
  predicate IsDue(today: int, last: CheckupTime): (due: bool)
    ensures due ==> last.At? && last.micros < today
  {
    match last
    case NaT => false
    case At(t) => today - t > Interval
  }

  /** The comparison is strict: exactly 365 days is not due, one microsecond more is. */
  lemma ExactIntervalNotDue(today: int)
    ensures !IsDue(today, At(today - Interval))
    ensures IsDue(today, At(today - Interval - 1))
  {
  }

  /** A check-up after `today` gives a negative elapsed time and is never due. */
  lemma FutureNeverDue(today: int, t: int)
    requires t > today
    ensures !IsDue(today, At(t))
  {
  }

  /** A row whose date cell is empty is never due. */
  lemma MissingDateNeverDue(today: int)
    ensures !IsDue(today, NaT)
  {
  }

  /** Earlier check-ups are due whenever a later one is, against the same `today`. */
  lemma DueMonotone(today: int, earlier: int, later: int)
    requires earlier <= later
    ensures IsDue(today, At(later)) ==> IsDue(today, At(earlier))
  {
  }

  /** A later `today` keeps a due check-up due. */
  lemma DueStaysDue(today: int, later: int, last: CheckupTime)
    requires today <= later
    ensures IsDue(today, last) ==> IsDue(later, last)
  {
  }

  /**
    With a date-only check-up (midnight) and `today` at `microOfDay` past
    midnight, the row is due iff more than 365 calendar days have passed, or
    exactly 365 have and the clock is past midnight.
   */
  lemma MidnightCheckup(today: Date, microOfDay: int, last: Date)
    requires ValidDate(today) && ValidDate(last) && 0 <= microOfDay < MicrosPerDay
    ensures IsDue(Instant(today, microOfDay), At(Midnight(last)))
        <==> (|| Ordinal(today) - Ordinal(last) > IntervalDays
              || (Ordinal(today) - Ordinal(last) == IntervalDays && microOfDay > 0))
  {
  }

  /**
    The interval is 365 days, not one calendar year: across 2024-02-29 the
    same date a year earlier is 366 days back and already due at midnight,
    while a check-up 365 days back becomes due one microsecond after midnight.
   */
  lemma CalendarYearAcrossLeapDay()
    ensures Ordinal(Date(2024, 6, 15)) - Ordinal(Date(2023, 6, 15)) == 366
    ensures IsDue(Midnight(Date(2024, 6, 15)), At(Midnight(Date(2023, 6, 15))))
    ensures Ordinal(Date(2024, 6, 15)) - Ordinal(Date(2023, 6, 16)) == 365
    ensures !IsDue(Midnight(Date(2024, 6, 15)), At(Midnight(Date(2023, 6, 16))))
    ensures IsDue(Instant(Date(2024, 6, 15), 1), At(Midnight(Date(2023, 6, 16))))
    ensures !IsDue(Instant(Date(2024, 6, 15), 1), At(Midnight(Date(2024, 7, 1))))
  {
  }
}

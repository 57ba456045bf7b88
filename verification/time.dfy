/** Calendar values as plain integer tuples. Calendar validity and arithmetic
    (`LocalDate.of` range checks, `minusDays`, `getDayOfWeek`) are not
    modelled; callers supply such values. */
module Time {
  import opened Decimal

  /** A `LocalDate`. */
  datatype Date = Date(year: Int32, month: Int32, day: Int32)

  /** A `LocalDateTime` to the minute. */
  datatype DateTime = DateTime(date: Date, hour: Int32, minute: Int32)

  /** `a.isBefore(b)` on dates: lexicographic on (year, month, day). */
  predicate DateBefore(a: Date, b: Date) {
    || a.year < b.year
    || (a.year == b.year && a.month < b.month)
    || (a.year == b.year && a.month == b.month && a.day < b.day)
  }

  /** `a.isBefore(b)` on date-times: by date, then hour, then minute. */
  predicate DateTimeBefore(a: DateTime, b: DateTime) {
    || DateBefore(a.date, b.date)
    || (a.date == b.date && a.hour < b.hour)
    || (a.date == b.date && a.hour == b.hour && a.minute < b.minute)
  }

  /** `LocalDateTime.now()`: the current minute and the nanoseconds (seconds
      included) elapsed within it. */
  datatype Instant = Instant(at: DateTime, nanos: nat)

  /** `d.isBefore(now)` for a date-time with no seconds: an earlier minute,
      or the current minute once any time has passed in it. */
  predicate BeforeNow(d: DateTime, now: Instant) {
    DateTimeBefore(d, now.at) || (d == now.at && now.nanos > 0)
  }

  /** `d.isAfter(now)` for a date-time with no seconds: a later minute. */
  predicate AfterNow(d: DateTime, now: Instant) {
    DateTimeBefore(now.at, d)
  }

  /** Against the clock a date-time is either before now, after now, or
      now itself to the nanosecond, and exactly one of these. */
  lemma NowTrichotomy(d: DateTime, now: Instant)
    ensures BeforeNow(d, now) || AfterNow(d, now) || (d == now.at && now.nanos == 0)
    ensures !(BeforeNow(d, now) && AfterNow(d, now))
    ensures d == now.at && now.nanos == 0 ==> !BeforeNow(d, now) && !AfterNow(d, now)
    ensures d == now.at && now.nanos > 0 ==> BeforeNow(d, now)
  {
    DateTimeTrichotomy(d, now.at);
  }

  /** Exactly one of before, equal, after holds, so "not before now" means
      "now or later". */
  lemma DateTimeTrichotomy(a: DateTime, b: DateTime)
    ensures DateTimeBefore(a, b) || a == b || DateTimeBefore(b, a)
    ensures !(DateTimeBefore(a, b) && DateTimeBefore(b, a))
    ensures !DateTimeBefore(a, a)
  {
  }
}

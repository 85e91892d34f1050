/** The reminder record as the reminder file stores it, and the clock the
    evaluator reads. */
module Reminders {

  /** A moment of local wall-clock time, in microseconds since the epoch
      (the precision of the ISO timestamps the program writes). */
  type Instant = int

  const MicrosPerMinute: int := 60_000_000
  const MicrosPerHour: int := 60 * MicrosPerMinute
  const MicrosPerDay: int := 24 * MicrosPerHour

  /** The calendar day of `now`, as a day ordinal. */
  function TodayOf(now: Instant): (day: int)
    ensures day * MicrosPerDay <= now < (day + 1) * MicrosPerDay
  {
    now / MicrosPerDay
  }

  /**
   * The hour of the day of `now`, as `datetime.hour` reports it: the one-hour
   * span of `now`'s day that contains `now` (the literals below are
   * `MicrosPerDay` and `MicrosPerHour` written out).
   */
  function HourOf(now: Instant): (h: int)
    ensures 0 <= h < 24
    ensures TodayOf(now) * 86_400_000_000 + h * 3_600_000_000 <= now < TodayOf(now) * 86_400_000_000 + (h + 1) * 3_600_000_000
  {
    (now % MicrosPerDay) / MicrosPerHour
  }

  /** A stored timestamp field: unset (null, missing or empty), a timestamp
      that parses, or text that does not parse as one. */
  datatype Stamp = Unset | At(instant: Instant) | Unparseable

  /** The stored due date: a calendar day, or text that does not parse as
      YYYY-MM-DD. The ordinal counts days from the same epoch as `Instant`,
      so that `Day(TodayOf(now))` is the local date of `now`. */
  datatype DueDate = Day(ordinal: int) | Malformed

  datatype Reminder = Reminder(
    id: int,
    title: string,
    date: DueDate,
    completed: bool,
    completedAt: Stamp,
    lastHowlTime: Stamp,     // last "due tomorrow" notification
    lastTodayHowl: Stamp,    // last "due today" notification
    lastOverdueHowl: Stamp   // last "overdue" notification
  )

  /** A record is completed exactly when it carries a completion time. */
  predicate CompletionConsistent(r: Reminder) {
    r.completed <==> r.completedAt != Unset
  }

  /** Every record of the list is completion-consistent. */
  predicate AllConsistent(rs: seq<Reminder>) {
    forall r :: r in rs ==> CompletionConsistent(r)
  }

  /** The record the add operation creates. */
  function NewReminder(id: int, title: string, date: DueDate): Reminder {
    Reminder(id, title, date, false, Unset, Unset, Unset, Unset)
  }
}

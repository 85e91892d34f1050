/** The per-reminder decision of the due-reminder evaluator: which category
    a reminder falls in today, whether that category may speak now, and
    what it says. The three near-identical branches of
    `check_due_reminders` are one table here (active hours, cooldown, message template per category). */
module Policy {
  import opened Reminders
  import opened Decimal

  datatype Category = Future | Tomorrow | Today | Overdue(daysLate: nat)

  /** The category of a reminder due on day `due`, seen on day `today`. */
  function Classify(due: int, today: int): (c: Category)
    ensures c == Tomorrow <==> due == today + 1
    ensures c == Today <==> due == today
    ensures c.Overdue? <==> due < today
    ensures c.Overdue? ==> c.daysLate == today - due >= 1
    ensures c == Future <==> due > today + 1
  {
    if due == today + 1 then Tomorrow
    else if due == today then Today
    else if due < today then Overdue(today - due)
    else Future
  }

  /** First and last hour (both inclusive) at which a category may speak. */
  function ActiveHours(c: Category): (int, int)
    requires !c.Future?
  {
    match c
    case Tomorrow => (8, 22)
    case Today => (7, 23)
    case Overdue(_) => (8, 20)
  }

  /** Minutes that must pass between two notifications of one category. */
  function CooldownMinutes(c: Category): int
    requires !c.Future?
  {
    match c
    case Tomorrow => 30
    case Today => 15
    case Overdue(_) => 60
  }

  predicate InWindow(c: Category, hour: int)
    requires !c.Future?
  {
    ActiveHours(c).0 <= hour <= ActiveHours(c).1
  }

  /** The cooldown field a category reads and writes. */
  function StampFor(r: Reminder, c: Category): Stamp
    requires !c.Future?
  {
    match c
    case Tomorrow => r.lastHowlTime
    case Today => r.lastTodayHowl
    case Overdue(_) => r.lastOverdueHowl
  }

  /** `r` with the cooldown field of `c` set to `s`; nothing else changes. */
  function WithStamp(r: Reminder, c: Category, s: Stamp): (r': Reminder)
    requires !c.Future?
    ensures StampFor(r', c) == s
    ensures forall d: Category :: !d.Future? && !SameField(c, d) ==> StampFor(r', d) == StampFor(r, d)
    ensures r'.id == r.id && r'.title == r.title && r'.date == r.date
    ensures r'.completed == r.completed && r'.completedAt == r.completedAt
  {
    match c
    case Tomorrow => r.(lastHowlTime := s)
    case Today => r.(lastTodayHowl := s)
    case Overdue(_) => r.(lastOverdueHowl := s)
  }

  /** Two categories that share a cooldown field (overdue by any number of days). */
  predicate SameField(c: Category, d: Category) {
    c == d || (c.Overdue? && d.Overdue?)
  }

  /** Inside the window, speak when the field is unset, unparseable (fail
      open), or at least the cooldown has passed since it. */
  predicate ShouldHowl(c: Category, hour: int, last: Stamp, now: Instant)
    requires !c.Future?
  {
    InWindow(c, hour) &&
    match last
    case Unset => true
    case Unparseable => true
    case At(t) => now - t >= CooldownMinutes(c) * MicrosPerMinute
  }

  /** The word the message of each category opens with. */
  function Headline(c: Category): string
    requires !c.Future?
  {
    match c
    case Tomorrow => "REMINDER! "
    case Today => "URGENT! "
    case Overdue(_) => "OVERDUE! "
  }

  /** The spoken message opens with the category's headline and then the
      reminder's title, verbatim. */
  function Message(title: string, c: Category): (m: string)
    requires !c.Future?
    ensures |m| > |Headline(c)| + |title|
    ensures m[..|Headline(c)|] == Headline(c)
    ensures m[|Headline(c)|..|Headline(c)| + |title|] == title
  {
    match c
    case Tomorrow => "REMINDER! " + title + " is due TOMORROW!"
    case Today => "URGENT! " + title + " is due TODAY!"
    case Overdue(n) => "OVERDUE! " + title + " was due " + DecimalString(n) + " day" + (if n > 1 then "s" else "") + " ago!"
  }

  datatype Verdict = Silent | Howl(category: Category, message: string)

  /** What one evaluation pass does with one reminder at instant `now`. */
  function Decide(r: Reminder, now: Instant): (v: Verdict)
    ensures r.completed || r.date.Malformed? ==> v == Silent
    ensures v.Howl? ==> r.date.Day? && v.category == Classify(r.date.ordinal, TodayOf(now))
    ensures v.Howl? ==> !v.category.Future? && InWindow(v.category, HourOf(now))
  {
    if r.completed || r.date.Malformed? then Silent
    else
      var c := Classify(r.date.ordinal, TodayOf(now));
      if !c.Future? && ShouldHowl(c, HourOf(now), StampFor(r, c), now) then Howl(c, Message(r.title, c))
      else Silent
  }

  /** The record after the pass: the spoken category's field becomes `now`;
      identity, title, date and completion are never touched. */
  function Updated(r: Reminder, now: Instant): (r': Reminder)
    ensures r'.id == r.id && r'.title == r.title && r'.date == r.date
    ensures r'.completed == r.completed && r'.completedAt == r.completedAt
  {
    match Decide(r, now)
    case Silent => r
    case Howl(c, _) => WithStamp(r, c, At(now))
  }

  // The three branches of `check_due_reminders`, each with its own constants.

  lemma TomorrowRule(r: Reminder, now: Instant)
    requires !r.completed && r.date == Day(TodayOf(now) + 1)
    ensures Decide(r, now).Howl? <==>
      8 <= HourOf(now) <= 22 && (r.lastHowlTime.At? ==> now - r.lastHowlTime.instant >= 30 * MicrosPerMinute)
    ensures Decide(r, now).Howl? ==> Decide(r, now).message == "REMINDER! " + r.title + " is due TOMORROW!"
    ensures Decide(r, now).Howl? ==> Updated(r, now) == r.(lastHowlTime := At(now))
  {
  }

  lemma TodayRule(r: Reminder, now: Instant)
    requires !r.completed && r.date == Day(TodayOf(now))
    ensures Decide(r, now).Howl? <==>
      7 <= HourOf(now) <= 23 && (r.lastTodayHowl.At? ==> now - r.lastTodayHowl.instant >= 15 * MicrosPerMinute)
    ensures Decide(r, now).Howl? ==> Decide(r, now).message == "URGENT! " + r.title + " is due TODAY!"
    ensures Decide(r, now).Howl? ==> Updated(r, now) == r.(lastTodayHowl := At(now))
  {
  }

  lemma OverdueRule(r: Reminder, now: Instant)
    requires !r.completed && r.date.Day? && r.date.ordinal < TodayOf(now)
    ensures Decide(r, now).Howl? <==>
      8 <= HourOf(now) <= 20 && (r.lastOverdueHowl.At? ==> now - r.lastOverdueHowl.instant >= 60 * MicrosPerMinute)
    ensures var n := TodayOf(now) - r.date.ordinal;
      Decide(r, now).Howl? ==>
        Decide(r, now).message ==
          "OVERDUE! " + r.title + " was due " + DecimalString(n) + (if n > 1 then " days" else " day") + " ago!"
    ensures Decide(r, now).Howl? ==> Updated(r, now) == r.(lastOverdueHowl := At(now))
  {
    var n := TodayOf(now) - r.date.ordinal;
    if Decide(r, now).Howl? {
      assert " day" + (if n > 1 then "s" else "") + " ago!" == (if n > 1 then " days" else " day") + " ago!";
    }
  }

  /** A reminder due after tomorrow is left alone. */
  lemma FutureRule(r: Reminder, now: Instant)
    requires r.date.Day? && r.date.ordinal > TodayOf(now) + 1
    ensures Decide(r, now) == Silent && Updated(r, now) == r
  {
  }

  /** A completed reminder is never spoken and never changed. */
  lemma CompletedRule(r: Reminder, now: Instant)
    requires r.completed
    ensures Decide(r, now) == Silent && Updated(r, now) == r
  {
  }

  /** A reminder whose date does not parse is skipped. */
  lemma MalformedDateRule(r: Reminder, now: Instant)
    requires r.date.Malformed?
    ensures Decide(r, now) == Silent && Updated(r, now) == r
  {
  }

  /** Outside its category's window nothing is spoken and no field moves,
      however long ago the last notification was. */
  lemma OutsideWindowRule(r: Reminder, now: Instant)
    requires !r.completed && r.date.Day?
    requires var c := Classify(r.date.ordinal, TodayOf(now)); !c.Future? && !InWindow(c, HourOf(now))
    ensures Decide(r, now) == Silent && Updated(r, now) == r
  {
  }

  /** A pass changes at most the cooldown field of the reminder's category
      (the other fields are kept by `Updated`'s contract), and that field
      changes exactly when it speaks, to the pass's instant. */
  lemma OnlyMatchingFieldChanges(r: Reminder, now: Instant)
    ensures var v := Decide(r, now);
      v.Silent? ==> Updated(r, now) == r
    ensures var v := Decide(r, now);
      v.Howl? ==>
        (StampFor(Updated(r, now), v.category) == At(now) &&
         forall d: Category :: !d.Future? && !SameField(v.category, d) ==> StampFor(Updated(r, now), d) == StampFor(r, d))
  {
  }

  /** A cooldown field never moves backwards: it is overwritten only once
      the cooldown since its old value has fully passed. */
  lemma StampAdvances(r: Reminder, now: Instant, c: Category)
    requires !c.Future?
    requires StampFor(r, c).At? && StampFor(Updated(r, now), c) != StampFor(r, c)
    ensures StampFor(Updated(r, now), c) == At(now)
    ensures now >= StampFor(r, c).instant + CooldownMinutes(c) * MicrosPerMinute
  {
    var v := Decide(r, now);
    assert v.Howl?;
    assert SameField(v.category, c);
  }

  /** Right after speaking at `t1`, a pass at `t2` on the same day that
      comes before the cooldown is over stays silent. */
  lemma CooldownSuppressesRepeat(r: Reminder, t1: Instant, t2: Instant)
    requires Decide(r, t1).Howl?
    requires TodayOf(t2) == TodayOf(t1)
    requires t1 <= t2 < t1 + CooldownMinutes(Decide(r, t1).category) * MicrosPerMinute
    ensures Decide(Updated(r, t1), t2) == Silent
  {
  }

  /** Once the cooldown is over, the next pass on the same day inside the
      window speaks again, with the same message. */
  lemma CooldownAllowsRepeat(r: Reminder, t1: Instant, t2: Instant)
    requires Decide(r, t1).Howl?
    requires TodayOf(t2) == TodayOf(t1)
    requires t2 >= t1 + CooldownMinutes(Decide(r, t1).category) * MicrosPerMinute
    requires InWindow(Decide(r, t1).category, HourOf(t2))
    ensures Decide(Updated(r, t1), t2) == Decide(r, t1)
  {
  }

  /** The three categories speak distinguishable messages: the first
      character of the headline already tells them apart. */
  lemma MessageNamesCategory(t1: string, c1: Category, t2: string, c2: Category)
    requires !c1.Future? && !c2.Future?
    requires Message(t1, c1) == Message(t2, c2)
    ensures SameField(c1, c2)
  {
    var m := Message(t1, c1);
    assert m[0] == Headline(c1)[0] && m[0] == Headline(c2)[0];
  }

  /** A freshly added reminder that is due tomorrow, today or earlier is
      spoken at the first pass inside its window (the first alert). */
  lemma FirstAlert(id: int, title: string, due: int, now: Instant)
    requires var c := Classify(due, TodayOf(now)); !c.Future? && InWindow(c, HourOf(now))
    ensures Decide(NewReminder(id, title, Day(due)), now) ==
      Howl(Classify(due, TodayOf(now)), Message(title, Classify(due, TodayOf(now))))
  {
  }
}

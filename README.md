# Howler reminder core, in Dafny

A model of the in-memory reminder logic of the Howler desktop reminder
app (`HowlerAPI` in `howler.py`): the list operations the GUI calls (add,
complete, uncomplete, clear completed, delete, get) and the due-reminder
evaluator that runs once a minute. The evaluator puts every open reminder
in exactly one category by due date: due tomorrow, due today, overdue, or
future. For a category that is due, it speaks a templated message when the
current hour is inside that category's active hours and its cooldown has
passed. The active hours (inclusive) are 8–22, 7–23 and 8–20; the
cooldowns are 30, 15 and 60 minutes. It then stamps that category's
cooldown field with the pass's instant. The list is written back only if
something was spoken.

Files and modules:

- `reminders.dfy` (`Reminders`): the reminder record, timestamps
  (`Unset | At(instant) | Unparseable`), due dates (`Day(ordinal) | Malformed`),
  and the clock. An instant is an integer count of microseconds of local time.
  Today's day and the current hour are both derived from that one instant.
- `policy.dfy` (`Policy`): classification, the per-category table (active hours,
  cooldown, cooldown field, message template), and the per-reminder decision
  `Decide`/`Updated`. It also has lemmas that restate each of the three branches of
  `check_due_reminders` with its own constants.
- `decimal.dfy` (`Decimal`): the decimal numeral of the overdue day count.
- `reminder_list.dfy` (`ReminderList`): the list comprehensions behind
  clear-completed and delete, and first-match completion, as functions with
  lemmas.
- `evaluation.dfy` (`Evaluation`): one evaluator pass as values. `Evaluated`
  gives the records it leaves behind and `Announcements` the messages it speaks,
  in order.
- `howler.dfy` (`Howler`): class `HowlerApi`. `stored` is the reminder file.
  A ghost `saves` counts the writes and a ghost `spoken` logs every message
  handed to the speech engine. The methods load, loop and save as the code
  does, and each is proved against the functions above.

Two behaviours of the code worth knowing:

- Deleting removes every record with the id, not just one.
- Completing or uncompleting an unknown id is not an error: the unchanged
  list is written back and success is returned.

## Model

| member | source | states |
|---|---|---|
| Reminders.HourOf | howler.py:137-139 | the hour read from the captured instant is in 0..23 and is the one whose hour-long span of the local day contains the instant |
| Reminders.TodayOf | howler.py:137 | today is the day whose span of local time contains the captured instant |
| Reminders.NewReminder | howler.py:61-70 | the record add creates: open, completedAt unset and all three cooldown fields unset; FirstAlert and DeleteUndoesAdd state what that means |
| Decimal.DecimalString | howler.py:257-258 | the day count is written as a non-empty string of digits with no leading zero ("0" only for zero) |
| Decimal.DecimalRoundTrip | howler.py:257-258 | reading the written day count back gives the number it was written from |
| Decimal.DecimalInjective | howler.py:257-258 | different day counts give different numerals |
| Policy.Classify | howler.py:153-271 | exactly one of tomorrow (due == today+1), today (due == today), overdue (due < today, with today-due >= 1 days late) or future (due > today+1) holds, in both directions |
| Policy.ShouldHowl | howler.py:160-177 | inside the inclusive window, speak when the field is unset, unparseable (fail open) or at least the cooldown old; outside it, never; TomorrowRule, TodayRule, OverdueRule and OutsideWindowRule state it per category |
| Policy.Message | howler.py:181 | every message opens with its category's headline ("REMINDER! ", "URGENT! ", "OVERDUE! ") followed by the title verbatim; the full templates, including lines 219 and 257-258, are stated by the three Rule lemmas |
| Policy.MessageNamesCategory | howler.py:181 | equal messages come from the same category, since the headlines differ |
| Policy.WithStamp | howler.py:186 | writing a category's cooldown field sets that field and leaves every other field of the record, including the other categories' fields, unchanged |
| Policy.Decide | howler.py:149-275 | completed records and records whose date does not parse are never spoken; a spoken record is due tomorrow, today or earlier, in its category's window |
| Policy.Updated | howler.py:184-187 | a pass never changes a record's id, title, date, completed or completedAt; OnlyMatchingFieldChanges and StampAdvances state what happens to the cooldown fields |
| Policy.TomorrowRule | howler.py:155-192 | due tomorrow: spoken iff 8 <= hour <= 22 and the field is unset, unparseable or at least 30 minutes old; message "REMINDER! {title} is due TOMORROW!"; only last_howl_time becomes now |
| Policy.TodayRule | howler.py:193-230 | due today: spoken iff 7 <= hour <= 23 and the field is unset, unparseable or at least 15 minutes old; message "URGENT! {title} is due TODAY!"; only last_today_howl becomes now |
| Policy.OverdueRule | howler.py:231-269 | overdue: spoken iff 8 <= hour <= 20 and the field is unset, unparseable or at least 60 minutes old; message "OVERDUE! {title} was due {N} day(s) ago!" with "days" iff N > 1; only last_overdue_howl becomes now |
| Policy.FutureRule | howler.py:270-271 | a reminder due after tomorrow is neither spoken nor changed |
| Policy.CompletedRule | howler.py:149-151 | a completed reminder is neither spoken nor changed |
| Policy.MalformedDateRule | howler.py:272-275 | a reminder whose date does not parse is skipped: neither spoken nor changed |
| Policy.OutsideWindowRule | howler.py:178-179 | outside the category's active hours nothing is spoken and the cooldown field stays, however old it is |
| Policy.OnlyMatchingFieldChanges | howler.py:184-187 | a silent record is unchanged; a spoken one gets exactly its category's cooldown field set to now, and the other categories' fields are kept |
| Policy.StampAdvances | howler.py:166-177 | a set cooldown field is overwritten only once its cooldown has fully elapsed, so it never moves backwards |
| Policy.CooldownSuppressesRepeat | howler.py:166-174 | after speaking at t1, a pass on the same day before the cooldown ends stays silent |
| Policy.CooldownAllowsRepeat | howler.py:166-172 | once the cooldown has elapsed, a same-day pass inside the window speaks the same message again |
| Policy.FirstAlert | howler.py:162-164 | a freshly added reminder due tomorrow, today or earlier is spoken at the first pass inside its window |
| ReminderList.Filter | howler.py:109 | the filtered list is no longer than the original and holds exactly the accepted elements of it |
| ReminderList.Active | howler.py:109 | clearing keeps a record iff it is in the list and not completed; ClearKeepsExactlyOpen adds multiplicity and order |
| ReminderList.Without | howler.py:122 | deleting keeps a record iff it is in the list with another id; DeleteRemovesEveryMatch adds multiplicity and the length test |
| ReminderList.FilterAppend | howler.py:122 | filtering keeps the original order: filtering a concatenation filters each part |
| ReminderList.FilterCount | howler.py:122 | each accepted record occurs as often as before, each rejected one not at all |
| ReminderList.FilterShrinks | howler.py:121-123 | the filtered list is shorter exactly when some record is rejected, and equals the original otherwise |
| ReminderList.ClearKeepsExactlyOpen | howler.py:106-110 | clearing keeps exactly the open records, each as often as before, in their original order |
| ReminderList.DeleteRemovesEveryMatch | howler.py:118-123 | delete removes every record with the id, keeps all others with their multiplicity, and shortens the list iff the id occurs |
| ReminderList.DeleteUndoesAdd | howler.py:58-75 | deleting a just-added reminder whose id was new restores the original list |
| ReminderList.FirstMatch | howler.py:83-87 | the first position holding the id, or none exactly when no record has it |
| ReminderList.WithCompletion | howler.py:83-87 | the list keeps its length and every record keeps its id, title and date; CompletionTouchesFirstMatchOnly says exactly which record changes |
| ReminderList.Completed | howler.py:83-87 | the first record with the id ends up completed, with completedAt the given instant; the length is kept |
| ReminderList.Uncompleted | howler.py:96-100 | the first record with the id ends up open, with completedAt unset; the length is kept |
| ReminderList.CompletionTouchesFirstMatchOnly | howler.py:80-104 | (un)completing changes completed/completedAt of the first record with the id only; an unknown id leaves the list as it was |
| ReminderList.UncompleteUndoesComplete | howler.py:93-101 | uncompleting after completing restores a record that was open with no completion time |
| ReminderList.CompletionKeepsConsistency | howler.py:80-99 | completing (flag set, time stamped) and uncompleting (flag cleared, time cleared) keep every record's completed flag true exactly when it has a completion time |
| ReminderList.FilteringKeepsConsistency | howler.py:61-70 | adding a fresh record (open, no completion time), clearing and deleting keep every record's completed flag true exactly when it has a completion time |
| Evaluation.Evaluated | howler.py:144-275 | a pass keeps the list's length and never changes any record's id or completion; PassKeepsCompleted, QuietPassChangesNothing and RepeatPassIsQuiet state more |
| Evaluation.Announcements | howler.py:144-275 | a pass speaks at most one message per record; AnnouncementsAppend gives their order and SilentPassIff when there are none |
| Evaluation.EvaluatedStep | howler.py:144-187 | handling the next record of a partly handled list replaces just that record by its evaluation |
| Evaluation.Progress | howler.py:144-275 | handling the first i records one at a time keeps the list's length; ProgressIsPass ties its state to Evaluated and Announcements |
| Evaluation.ProgressIsPass | howler.py:144-275 | handling the records one at a time, accumulating messages in list order, leaves the evaluated prefix followed by the untouched rest, and exactly the announcements of that prefix |
| Evaluation.AnnouncementsAppend | howler.py:144-275 | messages are spoken in list order: the announcements of a concatenation are those of each part, one after the other |
| Evaluation.SilentPassIff | howler.py:276-281 | a pass speaks nothing iff every record's decision is silent |
| Evaluation.QuietPassChangesNothing | howler.py:276-281 | a pass that speaks nothing changes no record, so skipping the write loses nothing |
| Evaluation.PassKeepsCompleted | howler.py:149-151 | a completed record leaves the pass unchanged and contributes no message |
| Evaluation.RepeatPassIsQuiet | howler.py:166-177 | a second pass at the same instant speaks nothing and changes nothing |
| Evaluation.CompletedIsSilenced | howler.py:84-86 | once completed, a reminder is silent in every later pass |
| Evaluation.PassKeepsConsistency | howler.py:144-275 | a pass never breaks the rule that a record is completed exactly when it has a completion time |
| Howler.HowlerApi.constructor | howler.py:10-13 | the facade starts over the given file contents with no writes and nothing spoken |
| Howler.HowlerApi.SendHowler | howler.py:25-37 | speaking appends the message to the spoken log and changes nothing else |
| Howler.HowlerApi.LoadReminders | howler.py:39-47 | loading returns the stored list |
| Howler.HowlerApi.SaveReminders | howler.py:49-56 | saving replaces the stored list, counts one write and reports success |
| Howler.HowlerApi.GetReminders | howler.py:115-116 | returns the stored list |
| Howler.HowlerApi.AddReminder | howler.py:58-75 | appends exactly one open record with every timestamp unset, writes once and returns it |
| Howler.HowlerApi.SetCompletion | howler.py:83-88 | the loop sets the completion state of the first record with the id and stops; the list is written back in every case |
| Howler.HowlerApi.CompleteReminder | howler.py:80-88 | the stored list becomes the list with the first matching record completed at now; written once |
| Howler.HowlerApi.UncompleteReminder | howler.py:93-101 | the stored list becomes the list with the first matching record open and completedAt unset; written once |
| Howler.HowlerApi.ClearCompletedReminders | howler.py:106-110 | the stored list becomes its open records; written once |
| Howler.HowlerApi.DeleteReminder | howler.py:118-129 | with a matching id: every match removed, one write, "deleted"; otherwise "Reminder not found" and no write |
| Howler.HowlerApi.EvaluateReminder | howler.py:149-275 | one record's handling returns its evaluated record, reports whether it spoke, and speaks exactly its message if any |
| Howler.HowlerApi.CheckDueReminders | howler.py:134-281 | the pass speaks exactly the announcements in list order, leaves exactly the evaluated records, and writes once iff something was spoken, never otherwise |

## Left out

- Speech: the pyttsx3 engine set-up, voice, rate and volume, `get_available_voices`, and manual sends. Speaking is modelled only as appending the message to a log.
- File I/O and JSON: the file is an in-memory list. Load never fails. Save always succeeds, so the I/O error results of add, complete, uncomplete, clear and delete are not modelled.
- Missing fields are not modelled: every record has all its fields. Missing `completed` or cooldown fields are read as false or unset, as the code does. A record missing `title` or `date` would abort the whole pass in the code, because that read sits outside the per-record error handler. The model does not represent such records.
- Date and timestamp text: parsing `YYYY-MM-DD` and ISO timestamps is abstracted to `Day(ordinal) | Malformed` and `Unset | At(instant) | Unparseable`.
- Timezone-aware stored timestamps are not modelled. They parse, but then cannot be subtracted from the naive clock, so the code skips the whole record.
- Clock: local time is an integer count of microseconds, and daylight-saving shifts are ignored. The code's two reads of the clock are one captured instant, passed in as a parameter. The current time for `completedAt` and the id for a new record are parameters too.
- Elapsed-minutes comparison: the code's floating-point `total_seconds() / 60 >= N` is the exact integer comparison `elapsed_microseconds >= N * 60000000`. Rounding at the last bit of a double is not modelled.
- The background thread that runs the pass every 60 seconds, the webview window, `main`, and all logging.
- Concurrency between the GUI and the background pass (a lost update under overlap) is not modelled. Each operation is one atomic load-modify-save.

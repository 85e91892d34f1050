/** The reminder facade: the operations the GUI calls and the due-reminder
    evaluator, over the stored reminder list. Each operation loads the
    whole list, changes it, and writes the whole list back. */
module Howler {
  import opened Reminders
  import opened Policy
  import opened ReminderList
  import opened Evaluation

  const NotFound: string := "Reminder not found"

  /** The result dictionaries the facade hands back to the GUI. */
  datatype Response =
    | Success                    // {"status": "success"}
    | Created(reminder: Reminder) // {"status": "success", "reminder": ...}
    | Deleted                    // {"status": "success", "message": "Reminder deleted"}
    | Error(message: string)     // {"status": "error", "message": ...}

  class HowlerApi {
    /** The contents of the reminder file. */
    var stored: seq<Reminder>
    /** How many times the reminder file has been written. */
    ghost var saves: nat
    /** Every message handed to the speech engine, in order. */
    ghost var spoken: seq<string>

    constructor (initial: seq<Reminder>)
      ensures stored == initial && saves == 0 && spoken == []
    {
      stored, saves, spoken := initial, 0, [];
    }

    /** Speaks a message. The engine reports failure as a result and never
        raises, so the caller always goes on as if it had spoken. */
    method SendHowler(message: string)
      modifies this
      ensures spoken == old(spoken) + [message]
      ensures stored == old(stored) && saves == old(saves)
    {
      spoken := spoken + [message];
    }

    method LoadReminders() returns (rs: seq<Reminder>)
      ensures rs == stored
    {
      rs := stored;
    }

    method SaveReminders(rs: seq<Reminder>) returns (res: Response)
      modifies this
      ensures res == Success
      ensures stored == rs && saves == old(saves) + 1 && spoken == old(spoken)
    {
      stored, saves := rs, saves + 1;
      res := Success;
    }

    method GetReminders() returns (rs: seq<Reminder>)
      ensures rs == stored
    {
      rs := LoadReminders();
    }

    /** Appends one fresh, open record with every timestamp unset. */
    method AddReminder(id: int, title: string, date: DueDate) returns (res: Response)
      modifies this
      ensures res == Created(NewReminder(id, title, date))
      ensures stored == old(stored) + [NewReminder(id, title, date)]
      ensures !stored[|stored| - 1].completed && stored[|stored| - 1].completedAt == Unset
      ensures saves == old(saves) + 1 && spoken == old(spoken)
    {
      var rs := LoadReminders();
      var reminder := NewReminder(id, title, date);
      rs := rs + [reminder];
      res := SaveReminders(rs);
      res := Created(reminder);
    }

    /** Sets the completion state of the first record with the id, then
        writes the list back whether or not a record had the id. */
    method SetCompletion(id: int, completed: bool, completedAt: Stamp) returns (res: Response)
      modifies this
      ensures res == Success
      ensures stored == WithCompletion(old(stored), id, completed, completedAt)
      ensures saves == old(saves) + 1 && spoken == old(spoken)
    {
      var rs := LoadReminders();
      ghost var loaded := rs;
      var i := 0;
      while i < |rs|
        invariant 0 <= i <= |rs|
        invariant rs == loaded == stored && saves == old(saves) && spoken == old(spoken)
        invariant forall j :: 0 <= j < i ==> rs[j].id != id
      {
        if rs[i].id == id {
          rs := rs[i := rs[i].(completed := completed, completedAt := completedAt)];
          assert FirstMatch(loaded, id) == Some(i);
          break;
        }
        i := i + 1;
      }
      res := SaveReminders(rs);
    }

    method CompleteReminder(id: int, now: Instant) returns (res: Response)
      modifies this
      ensures res == Success
      ensures stored == Completed(old(stored), id, now)
      ensures saves == old(saves) + 1 && spoken == old(spoken)
    {
      res := SetCompletion(id, true, At(now));
    }

    method UncompleteReminder(id: int) returns (res: Response)
      modifies this
      ensures res == Success
      ensures stored == Uncompleted(old(stored), id)
      ensures saves == old(saves) + 1 && spoken == old(spoken)
    {
      res := SetCompletion(id, false, Unset);
    }

    method ClearCompletedReminders() returns (res: Response)
      modifies this
      ensures res == Success
      ensures stored == Active(old(stored))
      ensures saves == old(saves) + 1 && spoken == old(spoken)
    {
      var rs := LoadReminders();
      res := SaveReminders(Active(rs));
    }

    /** Removes every record with the id and writes; when none has it,
        reports "Reminder not found" and writes nothing. */
    method DeleteReminder(id: int) returns (res: Response)
      modifies this
      ensures (exists i :: 0 <= i < |old(stored)| && old(stored)[i].id == id) ==>
        res == Deleted && stored == Without(old(stored), id) && saves == old(saves) + 1
      ensures (forall i :: 0 <= i < |old(stored)| ==> old(stored)[i].id != id) ==>
        res == Error(NotFound) && stored == old(stored) && saves == old(saves)
      ensures spoken == old(spoken)
    {
      var rs := LoadReminders();
      var originalCount := |rs|;
      DeleteRemovesEveryMatch(rs, id);
      rs := Without(rs, id);
      if |rs| < originalCount {
        res := SaveReminders(rs);
        res := Deleted;
      } else {
        res := Error(NotFound);
      }
    }

    /** The handling of one record within a pass: skip it if completed or
        if its date does not parse; otherwise classify it and, when its
        category's window is open and cooldown over, speak and stamp it. */
    method EvaluateReminder(reminder: Reminder, now: Instant) returns (updated: Reminder, sent: bool)
      modifies this
      ensures sent == Decide(reminder, now).Howl?
      ensures updated == Updated(reminder, now)
      ensures spoken == old(spoken) + SpokenBy(Decide(reminder, now))
      ensures stored == old(stored) && saves == old(saves)
    {
      updated, sent := reminder, false;
      if !reminder.completed && reminder.date.Day? {
        var category := Classify(reminder.date.ordinal, TodayOf(now));
        if !category.Future? && ShouldHowl(category, HourOf(now), StampFor(reminder, category), now) {
          var message := Message(reminder.title, category);
          SendHowler(message);
          updated, sent := WithStamp(reminder, category, At(now)), true;
        }
      }
    }

    /** One evaluation pass at the captured instant `now`: handles every
        record in list order, and writes the list back only if something
        was spoken. */
    method CheckDueReminders(now: Instant)
      modifies this
      ensures spoken == old(spoken) + Announcements(old(stored), now)
      ensures stored == Evaluated(old(stored), now)
      ensures saves == old(saves) + (if Announcements(old(stored), now) == [] then 0 else 1)
    {
      var rs := LoadReminders();
      ghost var loaded := rs;
      ghost var said: seq<string> := [];
      var toUpdate: seq<nat> := [];
      var i := 0;
      while i < |rs|
        invariant 0 <= i <= |rs| == |loaded|
        invariant (rs, said) == Progress(loaded, i, now)
        invariant forall j :: i <= j < |rs| ==> rs[j] == loaded[j]
        invariant spoken == old(spoken) + said
        invariant (toUpdate == []) == (said == [])
        invariant stored == loaded && saves == old(saves)
      {
        ghost var own := SpokenBy(Decide(loaded[i], now));
        var updated, sent := EvaluateReminder(rs[i], now);
        if sent {
          rs := rs[i := updated];
          toUpdate := toUpdate + [i];
        } else {
          assert rs[i := updated] == rs;
        }
        said := said + own;
        i := i + 1;
      }
      ProgressIsPass(loaded, i, now);
      assert loaded[..i] == loaded;
      if toUpdate != [] {
        var _ := SaveReminders(rs);
      } else {
        QuietPassChangesNothing(loaded, now);
      }
    }
  }
}

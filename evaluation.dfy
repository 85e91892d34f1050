/** One pass of the due-reminder evaluator over the whole list, as values:
    the list it leaves behind and the messages it speaks, in order. */
module Evaluation {
  import opened Reminders
  import opened Policy
  import opened ReminderList

  /** Every record after a pass at `now`. */
  function Evaluated(rs: seq<Reminder>, now: Instant): (rs': seq<Reminder>)
    ensures |rs'| == |rs|
    ensures forall i :: 0 <= i < |rs| ==> rs'[i].id == rs[i].id && rs'[i].completed == rs[i].completed
  {
    seq(|rs|, i requires 0 <= i < |rs| => Updated(rs[i], now))
  }

  /** Handling record `i` of a partly evaluated list extends the evaluated
      prefix by one. */
  lemma EvaluatedStep(rs: seq<Reminder>, i: int, now: Instant)
    requires 0 <= i < |rs|
    ensures (Evaluated(rs[..i], now) + rs[i..])[i := Updated(rs[i], now)] == Evaluated(rs[..i + 1], now) + rs[i + 1..]
  {
  }

  function SpokenBy(v: Verdict): seq<string> {
    if v.Howl? then [v.message] else []
  }

  /** The messages a pass at `now` speaks, in list order: at most one per
      record. */
  function Announcements(rs: seq<Reminder>, now: Instant): (said: seq<string>)
    ensures |said| <= |rs|
    decreases |rs|
  {
    if rs == [] then [] else Announcements(rs[..|rs| - 1], now) + SpokenBy(Decide(rs[|rs| - 1], now))
  }

  /** The announcements of one more record are those before it followed
      by its own. */
  lemma AnnouncementsStep(rs: seq<Reminder>, i: int, now: Instant)
    requires 0 <= i < |rs|
    ensures Announcements(rs[..i + 1], now) == Announcements(rs[..i], now) + SpokenBy(Decide(rs[i], now))
  {
    assert rs[..i + 1][..i] == rs[..i];
  }

  /** The records and the messages after the first `i` records of `rs`
      have been handled, one at a time, in list order. */
  function Progress(rs: seq<Reminder>, i: nat, now: Instant): (p: (seq<Reminder>, seq<string>))
    requires i <= |rs|
    ensures |p.0| == |rs|
    decreases i
  {
    if i == 0 then (rs, [])
    else
      var (done, said) := Progress(rs, i - 1, now);
      (done[i - 1 := Updated(rs[i - 1], now)], said + SpokenBy(Decide(rs[i - 1], now)))
  }

  /** Handling the records one at a time gives the whole pass. */
  lemma {:induction false} ProgressIsPass(rs: seq<Reminder>, i: nat, now: Instant)
    requires i <= |rs|
    ensures Progress(rs, i, now).0 == Evaluated(rs[..i], now) + rs[i..]
    ensures Progress(rs, i, now).1 == Announcements(rs[..i], now)
    decreases i
  {
    if i > 0 {
      ProgressIsPass(rs, i - 1, now);
      EvaluatedStep(rs, i - 1, now);
      AnnouncementsStep(rs, i - 1, now);
    }
  }

  /** Announcements follow the list: those of a concatenation are those of
      each part, one after the other. */
  lemma {:induction false} AnnouncementsAppend(a: seq<Reminder>, b: seq<Reminder>, now: Instant)
    ensures Announcements(a + b, now) == Announcements(a, now) + Announcements(b, now)
    decreases |b|
  {
    if b == [] {
      assert a + b == a;
    } else {
      var b' := b[..|b| - 1];
      assert (a + b)[..|a + b| - 1] == a + b';
      assert (a + b)[|a + b| - 1] == b[|b| - 1];
      AnnouncementsAppend(a, b', now);
    }
  }

  /** A pass speaks nothing exactly when every record is silent. */
  lemma {:induction false} SilentPassIff(rs: seq<Reminder>, now: Instant)
    ensures Announcements(rs, now) == [] <==> forall i :: 0 <= i < |rs| ==> Decide(rs[i], now) == Silent
    decreases |rs|
  {
    if rs != [] {
      var init := rs[..|rs| - 1];
      SilentPassIff(init, now);
      if Announcements(rs, now) == [] {
        forall i | 0 <= i < |rs| ensures Decide(rs[i], now) == Silent {
          if i < |rs| - 1 { assert rs[i] == init[i]; }
        }
      } else if Decide(rs[|rs| - 1], now) == Silent {
        var i :| 0 <= i < |init| && Decide(init[i], now) != Silent;
        assert rs[i] == init[i];
      }
    }
  }

  /** A pass that speaks nothing changes nothing, so skipping the write
      loses nothing. */
  lemma QuietPassChangesNothing(rs: seq<Reminder>, now: Instant)
    requires Announcements(rs, now) == []
    ensures Evaluated(rs, now) == rs
  {
    SilentPassIff(rs, now);
  }

  /** Completed records come out of a pass exactly as they went in. */
  lemma PassKeepsCompleted(rs: seq<Reminder>, now: Instant, i: int)
    requires 0 <= i < |rs| && rs[i].completed
    ensures Evaluated(rs, now)[i] == rs[i]
    ensures Announcements(rs, now) == Announcements(rs[..i], now) + Announcements(rs[i + 1..], now)
  {
    CompletedRule(rs[i], now);
    var front, back := rs[..i + 1], rs[i + 1..];
    assert Announcements(front, now) == Announcements(rs[..i], now) by {
      AnnouncementsStep(rs, i, now);
    }
    assert front + back == rs;
    AnnouncementsAppend(front, back, now);
  }

  /** A second pass at the same instant speaks nothing and changes nothing:
      every cooldown just written is still running. */
  lemma {:induction false} RepeatPassIsQuiet(rs: seq<Reminder>, now: Instant)
    ensures Announcements(Evaluated(rs, now), now) == []
    ensures Evaluated(Evaluated(rs, now), now) == Evaluated(rs, now)
  {
    var once := Evaluated(rs, now);
    forall i | 0 <= i < |once| ensures Decide(once[i], now) == Silent {
      if Decide(rs[i], now).Howl? {
        CooldownSuppressesRepeat(rs[i], now, now);
      }
    }
    SilentPassIff(once, now);
    QuietPassChangesNothing(once, now);
  }

  /** A pass keeps every record completion-consistent. */
  lemma PassKeepsConsistency(rs: seq<Reminder>, now: Instant)
    requires AllConsistent(rs)
    ensures AllConsistent(Evaluated(rs, now))
  {
    forall r | r in Evaluated(rs, now) ensures CompletionConsistent(r) {
      var i :| 0 <= i < |rs| && Evaluated(rs, now)[i] == r;
      assert rs[i] in rs;
    }
  }

  /** Completing a reminder silences it for every later pass. */
  lemma CompletedIsSilenced(rs: seq<Reminder>, id: int, at: Instant, now: Instant, j: int)
    requires 0 <= j < |rs| && rs[j].id == id
    requires forall i :: 0 <= i < j ==> rs[i].id != id
    ensures Decide(Completed(rs, id, at)[j], now) == Silent
  {
    CompletionTouchesFirstMatchOnly(rs, id, true, At(at), j);
  }
}

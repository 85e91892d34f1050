/** The list operations behind the GUI calls, as functions of the stored
    list: clearing completed reminders, deleting by id, and marking the
    first reminder with an id completed or not completed. */
module ReminderList {
  import opened Reminders

  datatype Option<T> = None | Some(value: T)

  /** The elements of `s` that `keep` accepts, in their original order
      (a list comprehension with a condition). */
  function Filter(s: seq<Reminder>, keep: Reminder -> bool): (r: seq<Reminder>)
    ensures |r| <= |s|
    ensures forall x :: x in r <==> x in s && keep(x)
    decreases |s|
  {
    if s == [] then [] else (if keep(s[0]) then [s[0]] else []) + Filter(s[1..], keep)
  }

  /** Filtering a concatenation filters each part: order is kept. */
  lemma {:induction false} FilterAppend(a: seq<Reminder>, b: seq<Reminder>, keep: Reminder -> bool)
    ensures Filter(a + b, keep) == Filter(a, keep) + Filter(b, keep)
    decreases |a|
  {
    if a == [] {
      assert a + b == b;
    } else {
      assert (a + b)[0] == a[0] && (a + b)[1..] == a[1..] + b;
      FilterAppend(a[1..], b, keep);
    }
  }

  /** An accepted value occurs as often as before, a rejected one not at all. */
  lemma {:induction false} FilterCount(s: seq<Reminder>, keep: Reminder -> bool, x: Reminder)
    ensures multiset(Filter(s, keep))[x] == if keep(x) then multiset(s)[x] else 0
    decreases |s|
  {
    if s != [] {
      FilterCount(s[1..], keep, x);
      assert s == [s[0]] + s[1..];
    }
  }

  /** Filtering shortens the list exactly when some element is rejected. */
  lemma {:induction false} FilterShrinks(s: seq<Reminder>, keep: Reminder -> bool)
    ensures |Filter(s, keep)| < |s| <==> exists i :: 0 <= i < |s| && !keep(s[i])
    ensures |Filter(s, keep)| == |s| ==> Filter(s, keep) == s
    decreases |s|
  {
    if s != [] {
      FilterShrinks(s[1..], keep);
      if !keep(s[0]) {
        assert !keep(s[0 + 0]);
      } else if exists i :: 0 <= i < |s[1..]| && !keep(s[1..][i]) {
        var i :| 0 <= i < |s[1..]| && !keep(s[1..][i]);
        assert !keep(s[i + 1]);
      } else {
        forall i | 0 <= i < |s| ensures keep(s[i]) {
          if i > 0 { assert s[i] == s[1..][i - 1]; }
        }
      }
    }
  }

  /** What clearing completed reminders keeps. */
  function Active(rs: seq<Reminder>): (kept: seq<Reminder>)
    ensures forall r :: r in kept <==> r in rs && !r.completed
  {
    Filter(rs, (r: Reminder) => !r.completed)
  }

  /** What deleting by id keeps: every record with another id. */
  function Without(rs: seq<Reminder>, id: int): (kept: seq<Reminder>)
    ensures forall r :: r in kept <==> r in rs && r.id != id
  {
    Filter(rs, (r: Reminder) => r.id != id)
  }

  /** Clearing keeps exactly the open reminders, each as often as before,
      and in their original order. */
  lemma ClearKeepsExactlyOpen(rs: seq<Reminder>, more: seq<Reminder>, x: Reminder)
    ensures multiset(Active(rs))[x] == if x.completed then 0 else multiset(rs)[x]
    ensures Active(rs + more) == Active(rs) + Active(more)
    ensures forall r :: r in Active(rs) ==> !r.completed
  {
    FilterCount(rs, (r: Reminder) => !r.completed, x);
    FilterAppend(rs, more, (r: Reminder) => !r.completed);
  }

  /** Deleting removes every record with the id, keeps every other record
      as often as before, and shortens the list exactly when the id occurs. */
  lemma DeleteRemovesEveryMatch(rs: seq<Reminder>, id: int)
    ensures forall r :: r in Without(rs, id) ==> r.id != id
    ensures forall x: Reminder :: x.id != id ==> multiset(Without(rs, id))[x] == multiset(rs)[x]
    ensures |Without(rs, id)| < |rs| <==> exists i :: 0 <= i < |rs| && rs[i].id == id
    ensures |Without(rs, id)| == |rs| ==> Without(rs, id) == rs
  {
    forall x: Reminder | x.id != id ensures multiset(Without(rs, id))[x] == multiset(rs)[x] {
      FilterCount(rs, (r: Reminder) => r.id != id, x);
    }
    FilterShrinks(rs, (r: Reminder) => r.id != id);
  }

  /** Deleting a just-added reminder whose id was new restores the list. */
  lemma DeleteUndoesAdd(rs: seq<Reminder>, id: int, title: string, date: DueDate)
    requires forall i :: 0 <= i < |rs| ==> rs[i].id != id
    ensures Without(rs + [NewReminder(id, title, date)], id) == rs
  {
    var keep := (r: Reminder) => r.id != id;
    FilterAppend(rs, [NewReminder(id, title, date)], keep);
    FilterShrinks(rs, keep);
  }

  /** The position of the first record with the id, if any. */
  function FirstMatch(rs: seq<Reminder>, id: int): (k: Option<nat>)
    ensures k.Some? ==> k.value < |rs| && rs[k.value].id == id
    ensures k.Some? ==> forall j :: 0 <= j < k.value ==> rs[j].id != id
    ensures k.None? <==> forall j :: 0 <= j < |rs| ==> rs[j].id != id
    decreases |rs|
  {
    if rs == [] then None
    else if rs[0].id == id then Some(0)
    else match FirstMatch(rs[1..], id)
      case None => None
      case Some(k) => Some(k + 1)
  }

  /** The list with the first record with the id set to the given
      completion state; the list itself when no record has the id. */
  function WithCompletion(rs: seq<Reminder>, id: int, completed: bool, completedAt: Stamp): (rs': seq<Reminder>)
    ensures |rs'| == |rs|
    ensures forall j :: 0 <= j < |rs| ==> rs'[j].id == rs[j].id && rs'[j].title == rs[j].title && rs'[j].date == rs[j].date
  {
    match FirstMatch(rs, id)
    case None => rs
    case Some(k) => rs[k := rs[k].(completed := completed, completedAt := completedAt)]
  }

  /** The list after completing the reminder `id` at instant `now`. */
  function Completed(rs: seq<Reminder>, id: int, now: Instant): (rs': seq<Reminder>)
    ensures |rs'| == |rs|
    ensures forall j :: 0 <= j < |rs| && rs[j].id == id && (forall i :: 0 <= i < j ==> rs[i].id != id) ==>
      rs'[j].completed && rs'[j].completedAt == At(now)
  {
    WithCompletion(rs, id, true, At(now))
  }

  /** The list after marking the reminder `id` not completed. */
  function Uncompleted(rs: seq<Reminder>, id: int): (rs': seq<Reminder>)
    ensures |rs'| == |rs|
    ensures forall j :: 0 <= j < |rs| && rs[j].id == id && (forall i :: 0 <= i < j ==> rs[i].id != id) ==>
      !rs'[j].completed && rs'[j].completedAt == Unset
  {
    WithCompletion(rs, id, false, Unset)
  }

  /** Completion touches only `completed` and `completedAt` of the first
      record with the id; an unknown id leaves the list as it was. */
  lemma CompletionTouchesFirstMatchOnly(rs: seq<Reminder>, id: int, completed: bool, completedAt: Stamp, j: int)
    requires 0 <= j < |rs|
    ensures |WithCompletion(rs, id, completed, completedAt)| == |rs|
    ensures var r' := WithCompletion(rs, id, completed, completedAt)[j];
      if rs[j].id == id && forall i :: 0 <= i < j ==> rs[i].id != id
      then r' == rs[j].(completed := completed, completedAt := completedAt)
      else r' == rs[j]
    ensures (forall i :: 0 <= i < |rs| ==> rs[i].id != id) ==> WithCompletion(rs, id, completed, completedAt) == rs
  {
  }

  /** Completing and uncompleting keep every record completion-consistent. */
  lemma CompletionKeepsConsistency(rs: seq<Reminder>, id: int, now: Instant)
    requires AllConsistent(rs)
    ensures AllConsistent(Completed(rs, id, now))
    ensures AllConsistent(Uncompleted(rs, id))
  {
    forall j | 0 <= j < |rs| ensures CompletionConsistent(Completed(rs, id, now)[j]) && CompletionConsistent(Uncompleted(rs, id)[j]) {
      CompletionTouchesFirstMatchOnly(rs, id, true, At(now), j);
      CompletionTouchesFirstMatchOnly(rs, id, false, Unset, j);
    }
  }

  /** Clearing and deleting keep every record completion-consistent, and a
      new record is consistent. */
  lemma FilteringKeepsConsistency(rs: seq<Reminder>, id: int, title: string, date: DueDate)
    requires AllConsistent(rs)
    ensures AllConsistent(Active(rs)) && AllConsistent(Without(rs, id))
    ensures AllConsistent(rs + [NewReminder(id, title, date)])
  {
  }

  /** Marking a record not completed after completing it restores the
      list, when that record was open with no completion time before. */
  lemma UncompleteUndoesComplete(rs: seq<Reminder>, id: int, now: Instant)
    requires forall i :: 0 <= i < |rs| && rs[i].id == id ==> !rs[i].completed && rs[i].completedAt == Unset
    ensures Uncompleted(Completed(rs, id, now), id) == rs
  {
    var done := Completed(rs, id, now);
    match FirstMatch(rs, id)
    case None =>
    case Some(k) =>
      assert forall i :: 0 <= i < |rs| ==> done[i].id == rs[i].id;
      assert FirstMatch(done, id) == Some(k);
  }
}

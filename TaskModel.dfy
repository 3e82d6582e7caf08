/**
 * The values the task store works with and the pure functions that specify
 * its operations: the array methods filter and find that the handlers call,
 * the toggle of one record, and the done count.
 */
module TaskModel {
  import opened JsString

  datatype Option<T> = None | Some(value: T)

  /** One to-do item: an opaque id, its text and whether it is done. */
  datatype Task = Task(id: string, text: string, done: bool)

  /** One rendered list item: the id stored on it as `data-id`, the text of
      its span, and whether it carries the `done` class. */
  datatype Row = Row(dataId: string, text: string, hasDoneClass: bool)

  /** The messages the handlers put in the status line. */
  datatype Status =
    | EmptyInput
    | TaskAdded
    | TaskDeleted
    | MarkedComplete
    | MarkedActive
    | NothingToClear
    | ClearedCompleted

  /** The text each status puts in the status line; every one is a sentence
      ending in a full stop. */
  function Message(s: Status): (m: string)
    ensures m != [] && m[|m| - 1] == '.'
  {
    match s
    case EmptyInput => "Type a task first."
    case TaskAdded => "Task added."
    case TaskDeleted => "Task deleted."
    case MarkedComplete => "Marked complete."
    case MarkedActive => "Marked active."
    case NothingToClear => "No completed tasks to clear."
    case ClearedCompleted => "Cleared completed tasks."
  }

  /** Different outcomes show different messages. */
  lemma MessagesDistinct(s: Status, t: Status)
    requires s != t
    ensures Message(s) != Message(t)
  {
    match s
    case EmptyInput => assert |Message(s)| == 18;
    case TaskAdded => assert |Message(s)| == 11;
    case TaskDeleted => assert |Message(s)| == 13;
    case MarkedComplete => assert |Message(s)| == 16;
    case MarkedActive => assert |Message(s)| == 14;
    case NothingToClear => assert |Message(s)| == 28;
    case ClearedCompleted => assert |Message(s)| == 24;
  }

  predicate HasId(ts: seq<Task>, id: string) {
    exists i :: 0 <= i < |ts| && ts[i].id == id
  }

  /** No two records share an id. */
  predicate DistinctIds(ts: seq<Task>) {
    forall i, j :: 0 <= i < j < |ts| ==> ts[i].id != ts[j].id
  }

  /** Every text is non-empty and has no surrounding white space. */
  predicate TextsTrimmed(ts: seq<Task>) {
    forall i :: 0 <= i < |ts| ==> ts[i].text != [] && IsTrimmed(ts[i].text)
  }

  /** Appending a record with a fresh id and a trimmed non-empty text keeps
      ids distinct and texts trimmed. */
  lemma AppendFresh(ts: seq<Task>, t: Task)
    requires DistinctIds(ts) && TextsTrimmed(ts)
    requires !HasId(ts, t.id) && t.text != [] && IsTrimmed(t.text)
    ensures DistinctIds(ts + [t]) && TextsTrimmed(ts + [t])
  {
    var r := ts + [t];
    forall i, j | 0 <= i < j < |r| ensures r[i].id != r[j].id {
      if j == |ts| {
        assert r[i] == ts[i];
      }
    }
  }

  // ---------------------------------------------------------------------
  // Array.prototype.filter

  /** The elements of `s` that `keep` accepts, in their order in `s`. */
  function Filter<T>(s: seq<T>, keep: T -> bool): (r: seq<T>)
    ensures |r| <= |s|
    ensures forall x :: x in r ==> x in s && keep(x)
  {
    if s == [] then []
    else (if keep(s[0]) then [s[0]] else []) + Filter(s[1..], keep)
  }

  /** Filtering distributes over concatenation: the kept elements of a
      sequence come in the order the sequence has them. */
  lemma {:induction false} FilterAppend<T>(a: seq<T>, b: seq<T>, keep: T -> bool)
    ensures Filter(a + b, keep) == Filter(a, keep) + Filter(b, keep)
  {
    if a == [] {
      assert a + b == b;
    } else {
      assert (a + b)[0] == a[0];
      assert (a + b)[1..] == a[1..] + b;
      FilterAppend(a[1..], b, keep);
    }
  }

  /** Every accepted element survives the filter. */
  lemma {:induction false} FilterKeeps<T>(s: seq<T>, keep: T -> bool, x: T)
    requires x in s && keep(x)
    ensures x in Filter(s, keep)
  {
    if s[0] != x {
      FilterKeeps(s[1..], keep, x);
    }
  }

  /** When every element is accepted, the filter returns its input. */
  lemma {:induction false} FilterAllAccepted<T>(s: seq<T>, keep: T -> bool)
    requires forall i :: 0 <= i < |s| ==> keep(s[i])
    ensures Filter(s, keep) == s
  {
    if s != [] {
      var tail := s[1..];
      assert forall i :: 0 <= i < |tail| ==> tail[i] == s[i + 1];
      FilterAllAccepted(tail, keep);
      assert s == [s[0]] + tail;
    }
  }

  /** A filter that keeps the length has accepted every element. */
  lemma {:induction false} FilterSameLength<T>(s: seq<T>, keep: T -> bool)
    requires |Filter(s, keep)| == |s|
    ensures forall i :: 0 <= i < |s| ==> keep(s[i])
  {
    if s != [] {
      var tail := s[1..];
      assert |Filter(tail, keep)| <= |tail|;
      assert keep(s[0]);
      FilterSameLength(tail, keep);
      forall i | 1 <= i < |s| ensures keep(s[i]) {
        assert s[i] == tail[i - 1];
      }
    }
  }

  /** The filter drops nothing exactly when every element is accepted, and
      then it returns its input. */
  lemma FilterKeepsAll<T>(s: seq<T>, keep: T -> bool)
    ensures |Filter(s, keep)| == |s| <==> forall i :: 0 <= i < |s| ==> keep(s[i])
    ensures (forall i :: 0 <= i < |s| ==> keep(s[i])) ==> Filter(s, keep) == s
  {
    if forall i :: 0 <= i < |s| ==> keep(s[i]) {
      FilterAllAccepted(s, keep);
    }
    if |Filter(s, keep)| == |s| {
      FilterSameLength(s, keep);
    }
  }

  /** Filtering twice with the same test is filtering once. */
  lemma {:induction false} FilterIdempotent<T>(s: seq<T>, keep: T -> bool)
    ensures Filter(Filter(s, keep), keep) == Filter(s, keep)
  {
    var r := Filter(s, keep);
    forall i | 0 <= i < |r| ensures keep(r[i]) {
      assert r[i] in r;
    }
    FilterKeepsAll(r, keep);
  }

  /** Filtering keeps ids distinct. */
  lemma {:induction false} FilterDistinct(ts: seq<Task>, keep: Task -> bool)
    requires DistinctIds(ts)
    ensures DistinctIds(Filter(ts, keep))
  {
    if ts != [] {
      var tail := Filter(ts[1..], keep);
      FilterDistinct(ts[1..], keep);
      if keep(ts[0]) {
        var r := [ts[0]] + tail;
        forall j | 0 < j < |r| ensures r[0].id != r[j].id {
          assert r[j] in ts[1..];
        }
      }
    }
  }

  /** Filtering keeps every text trimmed and non-empty. */
  lemma FilterTexts(ts: seq<Task>, keep: Task -> bool)
    requires TextsTrimmed(ts)
    ensures TextsTrimmed(Filter(ts, keep))
  {
    var r := Filter(ts, keep);
    forall i | 0 <= i < |r| ensures r[i].text != [] && IsTrimmed(r[i].text) {
      assert r[i] in ts;
    }
  }

  // ---------------------------------------------------------------------
  // Delete: tasks.filter((t) => t.id !== id)

  function OtherId(id: string): Task -> bool {
    (t: Task) => t.id != id
  }

  /** The records left by a delete: those with another id. */
  function WithoutId(ts: seq<Task>, id: string): (r: seq<Task>)
    ensures |r| <= |ts|
    ensures forall t :: t in r ==> t in ts && t.id != id
  {
    Filter(ts, OtherId(id))
  }

  /** After a delete no record has the id, and every other record is kept. */
  lemma WithoutIdMembers(ts: seq<Task>, id: string, t: Task)
    ensures !HasId(WithoutId(ts, id), id)
    ensures t in WithoutId(ts, id) <==> t in ts && t.id != id
  {
    var r := WithoutId(ts, id);
    forall i | 0 <= i < |r| ensures r[i].id != id {
      assert r[i] in r;
    }
    if t in ts && t.id != id {
      FilterKeeps(ts, OtherId(id), t);
    }
  }

  /** Deleting an id that no record has changes nothing. */
  lemma WithoutAbsentId(ts: seq<Task>, id: string)
    requires !HasId(ts, id)
    ensures WithoutId(ts, id) == ts
  {
    FilterKeepsAll(ts, OtherId(id));
  }

  /** With distinct ids, a delete removes exactly one record when the id is
      present and none when it is absent. */
  lemma {:induction false} WithoutIdLength(ts: seq<Task>, id: string)
    requires DistinctIds(ts)
    ensures |WithoutId(ts, id)| == |ts| - (if HasId(ts, id) then 1 else 0)
  {
    if ts != [] {
      var tail := ts[1..];
      WithoutIdLength(tail, id);
      if ts[0].id == id {
        assert !HasId(tail, id);
        assert WithoutId(ts, id) == WithoutId(tail, id);
      } else {
        assert HasId(ts, id) <==> HasId(tail, id) by {
          if HasId(ts, id) {
            var i :| 0 <= i < |ts| && ts[i].id == id;
            assert tail[i - 1].id == id;
          }
          if HasId(tail, id) {
            var i :| 0 <= i < |tail| && tail[i].id == id;
            assert ts[i + 1].id == id;
          }
        }
      }
    }
  }

  // ---------------------------------------------------------------------
  // Clear completed: tasks.filter((t) => !t.done)

  /** The test clear-completed keeps a record by. */
  const NotDone: Task -> bool := (t: Task) => !t.done

  /** The records left by clear-completed: those not done. */
  function Active(ts: seq<Task>): (r: seq<Task>)
    ensures |r| <= |ts|
    ensures forall t :: t in r ==> t in ts && !t.done
  {
    Filter(ts, NotDone)
  }

  /** The number of records that are done. */
  function DoneCount(ts: seq<Task>): (n: nat)
    ensures n <= |ts|
    ensures n == 0 <==> forall i :: 0 <= i < |ts| ==> !ts[i].done
  {
    if ts == [] then 0
    else
      var init := ts[..|ts| - 1];
      assert forall i :: 0 <= i < |init| ==> init[i] == ts[i];
      DoneCount(init) + (if ts[|ts| - 1].done then 1 else 0)
  }

  /** After clear-completed no record is done. */
  lemma ActiveNoneDone(ts: seq<Task>)
    ensures forall i :: 0 <= i < |Active(ts)| ==> !Active(ts)[i].done
  {
    var r := Active(ts);
    forall i | 0 <= i < |r| ensures !r[i].done {
      assert r[i] in r;
    }
  }

  /** A record is kept by clear-completed exactly when it was there before and
      is not done. */
  lemma ActiveMembers(ts: seq<Task>, t: Task)
    ensures t in Active(ts) <==> t in ts && !t.done
  {
    if t in ts && !t.done {
      FilterKeeps(ts, NotDone, t);
    }
  }

  /** Clear-completed removes exactly the done records: what remains plus the
      done count is the old length. */
  lemma {:induction false} ActiveLength(ts: seq<Task>)
    ensures |Active(ts)| + DoneCount(ts) == |ts|
  {
    if ts != [] {
      var init := ts[..|ts| - 1];
      var last := ts[|ts| - 1];
      assert ts == init + [last];
      FilterAppend(init, [last], NotDone);
      ActiveLength(init);
      assert [last][1..] == [];
    }
  }

  /** Clear-completed removes nothing exactly when no record is done, and then
      it leaves the list as it was. */
  lemma ActiveUnchanged(ts: seq<Task>)
    ensures |Active(ts)| == |ts| <==> DoneCount(ts) == 0
    ensures DoneCount(ts) == 0 ==> Active(ts) == ts
  {
    ActiveLength(ts);
    FilterKeepsAll(ts, NotDone);
  }

  /** A second clear-completed changes nothing. */
  lemma ActiveIdempotent(ts: seq<Task>)
    ensures Active(Active(ts)) == Active(ts)
  {
    FilterIdempotent(ts, NotDone);
  }

  // ---------------------------------------------------------------------
  // Toggle: tasks.find((t) => t.id === id), then task.done = !task.done

  /** The position of the record that find returns: the first with the id. */
  function FirstIndex(ts: seq<Task>, id: string): (r: Option<nat>)
    ensures r.Some? ==> r.value < |ts| && ts[r.value].id == id
                        && forall j :: 0 <= j < r.value ==> ts[j].id != id
    ensures r.None? <==> !HasId(ts, id)
  {
    if ts == [] then None
    else if ts[0].id == id then Some(0)
    else match FirstIndex(ts[1..], id)
      case None =>
        assert forall i :: 1 <= i < |ts| ==> ts[i] == ts[1..][i - 1];
        None
      case Some(i) => Some(i + 1)
  }

  /** The records after a toggle: the done flag of the first record with the
      id is flipped, and the rest is as before. */
  function Toggled(ts: seq<Task>, id: string): (r: seq<Task>)
    ensures |r| == |ts|
    ensures forall i :: 0 <= i < |ts| ==> r[i].id == ts[i].id && r[i].text == ts[i].text
    ensures forall i :: 0 <= i < |ts| ==>
              (r[i].done != ts[i].done <==> ts[i].id == id && forall j :: 0 <= j < i ==> ts[j].id != id)
  {
    match FirstIndex(ts, id)
    case None => ts
    case Some(i) => ts[i := ts[i].(done := !ts[i].done)]
  }

  /** Toggling an id no record has changes nothing. */
  lemma ToggleAbsentId(ts: seq<Task>, id: string)
    requires !HasId(ts, id)
    ensures Toggled(ts, id) == ts
  {
    var r := Toggled(ts, id);
    forall i | 0 <= i < |ts| ensures r[i] == ts[i] {
      assert r[i].done == ts[i].done;
    }
  }

  /** find depends only on the ids, so it finds the same position in records
      that differ only in their done flags. */
  lemma {:induction false} FirstIndexSameIds(ts: seq<Task>, us: seq<Task>, id: string)
    requires |ts| == |us|
    requires forall i :: 0 <= i < |ts| ==> ts[i].id == us[i].id
    ensures FirstIndex(ts, id) == FirstIndex(us, id)
  {
    if ts != [] && ts[0].id != id {
      FirstIndexSameIds(ts[1..], us[1..], id);
    }
  }

  /** Toggling the same id twice restores the records. */
  lemma ToggleTwice(ts: seq<Task>, id: string)
    ensures Toggled(Toggled(ts, id), id) == ts
  {
    FirstIndexSameIds(ts, Toggled(ts, id), id);
  }

  /** With distinct ids, a toggle flips the record with the id and no other,
      and keeps ids distinct and texts as they were. */
  lemma ToggleDistinct(ts: seq<Task>, id: string)
    requires DistinctIds(ts)
    ensures forall i :: 0 <= i < |ts| ==>
              Toggled(ts, id)[i] == (if ts[i].id == id then ts[i].(done := !ts[i].done) else ts[i])
    ensures DistinctIds(Toggled(ts, id))
    ensures TextsTrimmed(ts) ==> TextsTrimmed(Toggled(ts, id))
  {
    var r := Toggled(ts, id);
    forall i | 0 <= i < |ts|
      ensures r[i] == (if ts[i].id == id then ts[i].(done := !ts[i].done) else ts[i])
    {
      if ts[i].id == id {
        assert forall j :: 0 <= j < i ==> ts[j].id != id;
      }
    }
  }

  /** Replacing one record changes the done count by the difference in its
      done flag. */
  lemma {:induction false} DoneCountUpdate(ts: seq<Task>, i: nat, t: Task)
    requires i < |ts|
    ensures DoneCount(ts[i := t]) + (if ts[i].done then 1 else 0)
            == DoneCount(ts) + (if t.done then 1 else 0)
  {
    var us := ts[i := t];
    var n := |ts| - 1;
    assert us[..n] == if i == n then ts[..n] else ts[..n][i := t];
    if i < n {
      DoneCountUpdate(ts[..n], i, t);
    }
  }

  /** A toggle that finds its record changes the done count by one: up when
      the record becomes done, down when it becomes active. */
  lemma ToggleDoneCount(ts: seq<Task>, id: string)
    requires HasId(ts, id)
    ensures var i := FirstIndex(ts, id).value;
            DoneCount(Toggled(ts, id)) == if ts[i].done then DoneCount(ts) - 1 else DoneCount(ts) + 1
  {
    var i := FirstIndex(ts, id).value;
    DoneCountUpdate(ts, i, ts[i].(done := !ts[i].done));
  }
}

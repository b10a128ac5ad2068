/**
 * The todo list behind the screen: `TodoTask` records and the three
 * whole-list transitions the screen's callbacks perform (toggle with `map`,
 * delete with `filter`, add with `+`), together with the add dialog's
 * blank-title guard and trimming.
 */
module Todo {
  import opened Text

  /** Kotlin's `data class TodoTask`; `isCompleted` defaults to false when a
      task is built. The id is a `UUID.randomUUID()` string in the app; here it
      is whatever the caller supplies. */
  datatype TodoTask = TodoTask(id: string, title: string, description: string, isCompleted: bool)

  /** The ids present in a list. */
  function Ids(tasks: seq<TodoTask>): set<string> {
    if tasks == [] then {} else {tasks[0].id} + Ids(tasks[1..])
  }

  /** No two tasks share an id (what random UUIDs give the app in practice). */
  predicate UniqueIds(tasks: seq<TodoTask>) {
    forall i, j :: 0 <= i < j < |tasks| ==> tasks[i].id != tasks[j].id
  }

  /** An id is in `Ids(tasks)` exactly when some position carries it. */
  lemma {:induction false} IdsAt(tasks: seq<TodoTask>)
    ensures forall i :: 0 <= i < |tasks| ==> tasks[i].id in Ids(tasks)
    ensures forall x :: x in Ids(tasks) ==> exists i :: 0 <= i < |tasks| && tasks[i].id == x
  {
    if tasks != [] {
      IdsAt(tasks[1..]);
      forall i | 1 <= i < |tasks| ensures tasks[i].id in Ids(tasks) {
        assert tasks[i] == tasks[1..][i - 1];
      }
      forall x | x in Ids(tasks[1..]) ensures exists i :: 0 <= i < |tasks| && tasks[i].id == x {
        var k :| 0 <= k < |tasks[1..]| && tasks[1..][k].id == x;
        assert tasks[k + 1].id == x;
      }
    }
  }

  /** The ids of a concatenation are the ids of its two parts. */
  lemma {:induction false} IdsConcat(a: seq<TodoTask>, b: seq<TodoTask>)
    ensures Ids(a + b) == Ids(a) + Ids(b)
  {
    if a == [] {
      assert a + b == b;
    } else {
      IdsConcat(a[1..], b);
      assert (a + b)[1..] == a[1..] + b;
    }
  }

  /** A list has unique ids exactly when its head's id does not occur in its
      tail and the tail has unique ids. */
  lemma UniqueCons(t: TodoTask, rest: seq<TodoTask>)
    ensures UniqueIds([t] + rest) <==> t.id !in Ids(rest) && UniqueIds(rest)
  {
    IdsAt(rest);
    var s := [t] + rest;
    if UniqueIds(s) {
      forall k | 0 <= k < |rest| ensures rest[k].id != t.id {
        assert s[0] == t && s[k + 1] == rest[k];
      }
      forall i, j | 0 <= i < j < |rest| ensures rest[i].id != rest[j].id {
        assert s[i + 1] == rest[i] && s[j + 1] == rest[j];
      }
    }
    if t.id !in Ids(rest) && UniqueIds(rest) {
      forall i, j | 0 <= i < j < |s| ensures s[i].id != s[j].id {
        assert s[j] == rest[j - 1];
        if i > 0 {
          assert s[i] == rest[i - 1];
        } else {
          assert s[i] == t && rest[j - 1].id in Ids(rest);
        }
      }
    }
  }

  /** How many tasks carry the id `taskId`. */
  function CountId(tasks: seq<TodoTask>, taskId: string): (n: nat)
    ensures n <= |tasks|
  {
    if tasks == [] then 0
    else (if tasks[0].id == taskId then 1 else 0) + CountId(tasks[1..], taskId)
  }

  /** No task carries the id exactly when the id is not among the list's ids. */
  lemma {:induction false} CountIdZero(tasks: seq<TodoTask>, taskId: string)
    ensures CountId(tasks, taskId) == 0 <==> taskId !in Ids(tasks)
  {
    if tasks != [] {
      CountIdZero(tasks[1..], taskId);
    }
  }

  /** What a stored task looks like after the dialog's guard and trimming: a
      title that is neither blank nor padded with whitespace, and a trimmed
      description. */
  predicate WellFormed(t: TodoTask) {
    IsNotBlank(t.title) && IsTrimmed(t.title) && IsTrimmed(t.description)
  }

  predicate AllWellFormed(tasks: seq<TodoTask>) {
    forall t :: t in tasks ==> WellFormed(t)
  }

  // ---------------------------------------------------------------- toggle

  /** The lambda passed to `map` by the toggle callback: the task with the
      matching id is copied with its completion flag negated, any other task
      is returned as it is. */
  function ToggleIfMatch(t: TodoTask, taskId: string): (r: TodoTask)
    ensures r.id == t.id && r.title == t.title && r.description == t.description
    ensures r.isCompleted == (if t.id == taskId then !t.isCompleted else t.isCompleted)
  {
    if t.id == taskId then t.(isCompleted := !t.isCompleted) else t
  }

  /** The toggle callback: every task of the list is passed through
      `ToggleIfMatch`, in order. The list keeps its length; `ToggleOnlyMatching` says what happens at
      each position. */
  function Toggle(tasks: seq<TodoTask>, taskId: string): (r: seq<TodoTask>)
    ensures |r| == |tasks|
  {
    if tasks == [] then [] else [ToggleIfMatch(tasks[0], taskId)] + Toggle(tasks[1..], taskId)
  }

  /** Position `i` of the toggled list is the task at position `i`, run through
      the `map` lambda. */
  lemma {:induction false} ToggleAt(tasks: seq<TodoTask>, taskId: string, i: nat)
    requires i < |tasks|
    ensures Toggle(tasks, taskId)[i] == ToggleIfMatch(tasks[i], taskId)
  {
    if i > 0 {
      ToggleAt(tasks[1..], taskId, i - 1);
    }
  }

  /** Toggle leaves the list in place: a task with another id comes back
      identical in the same position, and a task with the id keeps its id,
      title and description and has its completion flag flipped. */
  lemma {:induction false} ToggleOnlyMatching(tasks: seq<TodoTask>, taskId: string)
    ensures |Toggle(tasks, taskId)| == |tasks|
    ensures forall i :: 0 <= i < |tasks| && tasks[i].id != taskId ==> Toggle(tasks, taskId)[i] == tasks[i]
    ensures forall i :: 0 <= i < |tasks| && tasks[i].id == taskId ==>
      && Toggle(tasks, taskId)[i].id == tasks[i].id
      && Toggle(tasks, taskId)[i].title == tasks[i].title
      && Toggle(tasks, taskId)[i].description == tasks[i].description
      && Toggle(tasks, taskId)[i].isCompleted == !tasks[i].isCompleted
  {
    forall i | 0 <= i < |tasks| ensures Toggle(tasks, taskId)[i] == ToggleIfMatch(tasks[i], taskId) {
      ToggleAt(tasks, taskId, i);
    }
  }

  /** Toggling the same task twice gives back the original list. */
  lemma {:induction false} ToggleInvolution(tasks: seq<TodoTask>, taskId: string)
    ensures Toggle(Toggle(tasks, taskId), taskId) == tasks
  {
    if tasks != [] {
      ToggleInvolution(tasks[1..], taskId);
      assert Toggle(tasks, taskId)[1..] == Toggle(tasks[1..], taskId);
    }
  }

  /** Toggling acts element by element, so it distributes over concatenation:
      the order of the list is never disturbed. */
  lemma {:induction false} ToggleDistributes(a: seq<TodoTask>, b: seq<TodoTask>, taskId: string)
    ensures Toggle(a + b, taskId) == Toggle(a, taskId) + Toggle(b, taskId)
  {
    if a != [] {
      ToggleDistributes(a[1..], b, taskId);
      calc {
        Toggle(a + b, taskId);
        [ToggleIfMatch(a[0], taskId)] + Toggle((a + b)[1..], taskId);
        { assert (a + b)[1..] == a[1..] + b; }
        [ToggleIfMatch(a[0], taskId)] + (Toggle(a[1..], taskId) + Toggle(b, taskId));
        Toggle(a, taskId) + Toggle(b, taskId);
      }
    } else {
      assert a + b == b;
    }
  }

  /** Toggles of two tasks may be done in either order. */
  lemma {:induction false} ToggleCommutes(tasks: seq<TodoTask>, id1: string, id2: string)
    ensures Toggle(Toggle(tasks, id1), id2) == Toggle(Toggle(tasks, id2), id1)
  {
    if tasks != [] {
      ToggleCommutes(tasks[1..], id1, id2);
      assert Toggle(tasks, id1)[1..] == Toggle(tasks[1..], id1);
      assert Toggle(tasks, id2)[1..] == Toggle(tasks[1..], id2);
    }
  }

  /** Toggling changes no id, so it keeps the set of ids and their uniqueness,
      and it touches no title or description, so stored tasks stay well formed. */
  lemma {:induction false} ToggleKeepsInvariant(tasks: seq<TodoTask>, taskId: string)
    requires UniqueIds(tasks) && AllWellFormed(tasks)
    ensures Ids(Toggle(tasks, taskId)) == Ids(tasks)
    ensures UniqueIds(Toggle(tasks, taskId)) && AllWellFormed(Toggle(tasks, taskId))
  {
    if tasks != [] {
      var rest := tasks[1..];
      ToggleKeepsInvariant(rest, taskId);
      assert tasks == [tasks[0]] + rest;
      UniqueCons(tasks[0], rest);
      UniqueCons(ToggleIfMatch(tasks[0], taskId), Toggle(rest, taskId));
      assert Toggle(tasks, taskId) == [ToggleIfMatch(tasks[0], taskId)] + Toggle(rest, taskId);
      assert tasks[0] in tasks;
      assert WellFormed(ToggleIfMatch(tasks[0], taskId));
    }
  }

  // ---------------------------------------------------------------- delete

  /** The delete callback: keeps, in order, the tasks whose id differs from
      `taskId`. The list shrinks by the number of
      tasks that had the id (`DeleteOnlyMatching` says which tasks stay). */
  function Delete(tasks: seq<TodoTask>, taskId: string): (r: seq<TodoTask>)
    ensures |r| == |tasks| - CountId(tasks, taskId)
  {
    if tasks == [] then []
    else if tasks[0].id != taskId then [tasks[0]] + Delete(tasks[1..], taskId)
    else Delete(tasks[1..], taskId)
  }

  /** After a delete no task with the id remains, every task left comes from
      the input, and every task with another id is still there. */
  lemma {:induction false} DeleteOnlyMatching(tasks: seq<TodoTask>, taskId: string)
    ensures forall i :: 0 <= i < |Delete(tasks, taskId)| ==> Delete(tasks, taskId)[i].id != taskId
    ensures forall t :: t in Delete(tasks, taskId) ==> t in tasks
    ensures forall t :: t in tasks && t.id != taskId ==> t in Delete(tasks, taskId)
  {
    if tasks != [] {
      DeleteOnlyMatching(tasks[1..], taskId);
      assert tasks == [tasks[0]] + tasks[1..];
    }
  }

  /** Deleting distributes over concatenation: the tasks that stay keep their
      relative order. */
  lemma {:induction false} DeleteDistributes(a: seq<TodoTask>, b: seq<TodoTask>, taskId: string)
    ensures Delete(a + b, taskId) == Delete(a, taskId) + Delete(b, taskId)
  {
    if a == [] {
      assert a + b == b;
    } else {
      var ab := a + b;
      assert ab[0] == a[0] && ab[1..] == a[1..] + b;
      DeleteDistributes(a[1..], b, taskId);
      if a[0].id != taskId {
        assert Delete(ab, taskId) == [a[0]] + Delete(a[1..] + b, taskId);
        assert Delete(a, taskId) == [a[0]] + Delete(a[1..], taskId);
      } else {
        assert Delete(ab, taskId) == Delete(a[1..] + b, taskId);
        assert Delete(a, taskId) == Delete(a[1..], taskId);
      }
    }
  }

  /** Deleting an id that no task carries leaves the list unchanged. */
  lemma {:induction false} DeleteAbsent(tasks: seq<TodoTask>, taskId: string)
    requires taskId !in Ids(tasks)
    ensures Delete(tasks, taskId) == tasks
  {
    if tasks != [] {
      DeleteAbsent(tasks[1..], taskId);
    }
  }

  /** With unique ids an id is carried by at most one task. */
  lemma {:induction false} CountUnique(tasks: seq<TodoTask>, taskId: string)
    requires UniqueIds(tasks)
    ensures CountId(tasks, taskId) <= 1
  {
    if tasks != [] {
      assert tasks == [tasks[0]] + tasks[1..];
      UniqueCons(tasks[0], tasks[1..]);
      CountUnique(tasks[1..], taskId);
      CountIdZero(tasks[1..], taskId);
    }
  }

  /** With unique ids, deleting a present id removes exactly one task. */
  lemma DeleteRemovesOne(tasks: seq<TodoTask>, taskId: string)
    requires UniqueIds(tasks) && taskId in Ids(tasks)
    ensures |Delete(tasks, taskId)| == |tasks| - 1
  {
    CountUnique(tasks, taskId);
    CountIdZero(tasks, taskId);
  }

  /** Deleting keeps a subsequence of the list, so unique ids stay unique and
      stored tasks stay well formed; only the deleted id leaves the set of ids. */
  lemma {:induction false} DeleteKeepsInvariant(tasks: seq<TodoTask>, taskId: string)
    requires UniqueIds(tasks) && AllWellFormed(tasks)
    ensures Ids(Delete(tasks, taskId)) == Ids(tasks) - {taskId}
    ensures UniqueIds(Delete(tasks, taskId)) && AllWellFormed(Delete(tasks, taskId))
  {
    if tasks != [] {
      var rest := tasks[1..];
      assert tasks == [tasks[0]] + rest;
      UniqueCons(tasks[0], rest);
      DeleteKeepsInvariant(rest, taskId);
      if tasks[0].id != taskId {
        UniqueCons(tasks[0], Delete(rest, taskId));
      }
    }
  }

  /** Deleting a task after toggling it is the same as deleting it outright. */
  lemma {:induction false} DeleteAfterToggle(tasks: seq<TodoTask>, taskId: string)
    ensures Delete(Toggle(tasks, taskId), taskId) == Delete(tasks, taskId)
  {
    if tasks != [] {
      DeleteAfterToggle(tasks[1..], taskId);
      assert Toggle(tasks, taskId)[1..] == Toggle(tasks[1..], taskId);
    }
  }

  // ------------------------------------------------------------------- add

  /** The confirm callback's update: a new task built from the title and the
      description is appended to the list. Exactly
      one task is appended at the end, behind the old list left untouched, and
      it starts out not completed. */
  function Add(tasks: seq<TodoTask>, id: string, title: string, description: string): (r: seq<TodoTask>)
    ensures |r| == |tasks| + 1 && r[..|tasks|] == tasks
    ensures r[|tasks|].id == id && r[|tasks|].title == title
    ensures r[|tasks|].description == description && !r[|tasks|].isCompleted
  {
    tasks + [TodoTask(id, title, description, false)]
  }

  /** Deleting the task just added, when its id was fresh, restores the list. */
  lemma AddThenDelete(tasks: seq<TodoTask>, id: string, title: string, description: string)
    requires id !in Ids(tasks)
    ensures Delete(Add(tasks, id, title, description), id) == tasks
  {
    DeleteDistributes(tasks, [TodoTask(id, title, description, false)], id);
    DeleteAbsent(tasks, id);
  }

  /** The confirm button: only when the typed title is not blank is
      confirm callback called, with the trimmed title and description; it appends the
      new task; otherwise the list stays as it is. A task that gets stored
      has a non-blank, trimmed title and a trimmed description. */
  function ConfirmAdd(tasks: seq<TodoTask>, id: string, title: string, description: string): (r: seq<TodoTask>)
    ensures IsBlank(title) ==> r == tasks
    ensures !IsBlank(title) ==>
      && |r| == |tasks| + 1 && r[..|tasks|] == tasks
      && r[|tasks|].id == id && !r[|tasks|].isCompleted
      && r[|tasks|].title == Trim(title) && r[|tasks|].description == Trim(description)
      && WellFormed(r[|tasks|])
  {
    if IsNotBlank(title) then Add(tasks, id, Trim(title), Trim(description)) else tasks
  }

  /** Appending a well-formed task with a fresh id keeps the list's ids
      unique and its tasks well formed, and adds exactly that id. */
  lemma AppendKeepsInvariant(tasks: seq<TodoTask>, t: TodoTask)
    requires UniqueIds(tasks) && AllWellFormed(tasks)
    requires t.id !in Ids(tasks) && WellFormed(t)
    ensures Ids(tasks + [t]) == Ids(tasks) + {t.id}
    ensures UniqueIds(tasks + [t]) && AllWellFormed(tasks + [t])
  {
    var r := tasks + [t];
    IdsConcat(tasks, [t]);
    assert Ids([t]) == {t.id};
    IdsAt(tasks);
    forall i, j | 0 <= i < j < |r| ensures r[i].id != r[j].id {
      assert r[i] == tasks[i];
      if j < |tasks| {
        assert r[j] == tasks[j];
      }
    }
  }

  /** Confirming with a fresh id keeps ids unique and every stored task well
      formed: no blank or padded title ever reaches the list. */
  lemma ConfirmAddKeepsInvariant(tasks: seq<TodoTask>, id: string, title: string, description: string)
    requires UniqueIds(tasks) && AllWellFormed(tasks)
    requires id !in Ids(tasks)
    ensures Ids(ConfirmAdd(tasks, id, title, description)) == Ids(tasks) + (if IsBlank(title) then {} else {id})
    ensures UniqueIds(ConfirmAdd(tasks, id, title, description))
    ensures AllWellFormed(ConfirmAdd(tasks, id, title, description))
  {
    if !IsBlank(title) {
      var t := TodoTask(id, Trim(title), Trim(description), false);
      assert ConfirmAdd(tasks, id, title, description) == tasks + [t];
      AppendKeepsInvariant(tasks, t);
    }
  }
}

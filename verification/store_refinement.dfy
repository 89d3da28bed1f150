/** The in-memory store implements the SQL contract. A list of tasks is read
    as a table by `Abs`, where the first record with an id supplies that id's
    row; each in-memory operation then does to `Abs(s)` what the matching SQL
    statement does to the table. The queries agree only while ids are unique,
    which the table's primary key guarantees and the list must be kept to. */
module StoreRefinement {
  import opened Tasks
  import opened Text
  import Fake = FakeTaskDao
  import Dao = TaskDao

  /** The table a list of tasks stands for. */
  function Abs(s: seq<Task>): (table: Dao.Table)
    ensures forall k :: k in table <==> HasId(s, k)
  {
    if s == [] then map[]
    else
      var rest := Abs(s[1..]);
      assert forall k :: HasId(s, k) <==> s[0].id == k || HasId(s[1..], k) by {
        assert forall i :: 1 <= i < |s| ==> s[i] == s[1..][i - 1];
      }
      rest[s[0].id := Dao.RowOf(s[0])]
  }

  /** The row stored under an id is the first record carrying that id. */
  lemma {:induction false} AbsFirst(s: seq<Task>, j: int, k: int)
    requires IsFirstWithId(s, j, k)
    ensures k in Abs(s) && Abs(s)[k] == Dao.RowOf(s[j])
    decreases |s|
  {
    if j > 0 {
      assert IsFirstWithId(s[1..], j - 1, k) by {
        assert forall i :: 0 <= i < j - 1 ==> s[1..][i] == s[i + 1];
      }
      AbsFirst(s[1..], j - 1, k);
    }
  }

  /** With unique ids, the table's rows are exactly the list's records. */
  lemma AbsRows(s: seq<Task>)
    requires UniqueIds(s)
    ensures forall t :: t in Dao.Rows(Abs(s)) <==> t in s
  {
    forall t ensures t in Dao.Rows(Abs(s)) <==> t in s {
      if t in s {
        var i :| 0 <= i < |s| && s[i] == t;
        AbsFirst(s, i, t.id);
      }
      if t in Dao.Rows(Abs(s)) {
        var f := IndexOfFirst(s, t.id);
        AbsFirst(s, f, t.id);
        assert s[f] == t;
      }
    }
  }

  /** Records with pairwise different ids are pairwise different records. */
  lemma UniqueIdsDistinct(s: seq<Task>)
    requires UniqueIds(s)
    ensures forall i, j :: 0 <= i < j < |s| ==> s[i] != s[j]
  {
  }

  /** `getAllTasks()` returns what `SELECT * FROM tasks` returns. */
  lemma GetAllTasksRefines(s: seq<Task>)
    requires UniqueIds(s)
    ensures Dao.IsAllTasks(Abs(s), Fake.GetAllTasks(s))
  {
    AbsRows(s);
    UniqueIdsDistinct(s);
  }

  /** `getTasksByCompletionStatus(b)` returns what the `WHERE is_completed = b`
      query returns. */
  lemma GetTasksByCompletionStatusRefines(s: seq<Task>, isCompleted: bool)
    requires UniqueIds(s)
    ensures Dao.IsTasksByCompletionStatus(Abs(s), isCompleted, Fake.GetTasksByCompletionStatus(s, isCompleted))
  {
    var r := Fake.GetTasksByCompletionStatus(s, isCompleted);
    AbsRows(s);
    SubseqUniqueIds(r, s);
    UniqueIdsDistinct(r);
  }

  /** For a query free of LIKE wildcards, `searchTasks(q)` returns what the
      `LIKE '%' || q || '%'` query returns. */
  lemma SearchTasksRefines(s: seq<Task>, query: string)
    requires UniqueIds(s)
    requires NoWildcards(query)
    ensures Dao.IsSearchResult(Abs(s), query, Fake.SearchTasks(s, query))
  {
    var r := Fake.SearchTasks(s, query);
    AbsRows(s);
    SubseqUniqueIds(r, s);
    UniqueIdsDistinct(r);
    forall t: Task ensures Like(t.description, "%" + query + "%") <==> ContainsIgnoreCase(t.description, query) {
      LikeIsContains(t.description, query);
    }
  }

  /** Appending a record under a fresh id adds exactly its row. */
  lemma {:induction false} AbsAppend(s: seq<Task>, task: Task)
    requires !HasId(s, task.id)
    ensures Abs(s + [task]) == Abs(s)[task.id := Dao.RowOf(task)]
    decreases |s|
  {
    if s == [] {
      assert [] + [task] == [task];
    } else {
      var s' := s + [task];
      assert s'[0] == s[0] && s'[1..] == s[1..] + [task];
      assert !HasId(s[1..], task.id) by {
        assert forall i :: 0 <= i < |s[1..]| ==> s[1..][i] == s[i + 1];
      }
      AbsAppend(s[1..], task);
      assert s[0].id != task.id;
      MapUpdatesCommute(Abs(s[1..]), task.id, Dao.RowOf(task), s[0].id, Dao.RowOf(s[0]));
    }
  }

  /** Writing two different keys of a map in either order gives the same map. */
  lemma MapUpdatesCommute(m: Dao.Table, a: int, x: Dao.Row, b: int, y: Dao.Row)
    requires a != b
    ensures m[a := x][b := y] == m[b := y][a := x]
  {
  }

  /** Writing a key and then deleting it is deleting it; writing any other
      key commutes with the deletion. */
  lemma MapUpdateRemove(m: Dao.Table, a: int, x: Dao.Row, k: int)
    ensures a == k ==> m[a := x] - {k} == m - {k}
    ensures a != k ==> m[a := x] - {k} == (m - {k})[a := x]
  {
  }

  /** `insertTask(t)` behaves as `@Insert` when `t`'s id is new, keeping ids
      unique; when the id is taken, the SQL insert fails while the list gains
      a second record with that id. */
  lemma InsertTaskRefines(s: seq<Task>, task: Task)
    requires UniqueIds(s)
    ensures !HasId(s, task.id) ==>
      && Dao.InsertTask(Abs(s), task) == Dao.Inserted(Abs(Fake.InsertTask(s, task)))
      && UniqueIds(Fake.InsertTask(s, task))
    ensures HasId(s, task.id) ==>
      && Dao.InsertTask(Abs(s), task) == Dao.UniqueConstraintFailed
      && !UniqueIds(Fake.InsertTask(s, task))
  {
    var s' := Fake.InsertTask(s, task);
    if !HasId(s, task.id) {
      AbsAppend(s, task);
    } else {
      var i :| 0 <= i < |s| && s[i].id == task.id;
      assert s'[i].id == s'[|s|].id;
    }
  }

  /** Replacing the first record with an id by another record with that id
      rewrites exactly that id's row. */
  lemma {:induction false} AbsReplaceFirst(s: seq<Task>, i: int, x: Task)
    requires IsFirstWithId(s, i, x.id)
    ensures Abs(s[i := x]) == Abs(s)[x.id := Dao.RowOf(x)]
    decreases |s|
  {
    var s' := s[i := x];
    if i == 0 {
      assert s'[1..] == s[1..];
      assert Abs(s) == Abs(s[1..])[x.id := Dao.RowOf(s[0])];
      assert Abs(s') == Abs(s[1..])[x.id := Dao.RowOf(x)];
    } else {
      assert s'[0] == s[0] && s'[1..] == s[1..][i - 1 := x];
      assert IsFirstWithId(s[1..], i - 1, x.id) by {
        assert forall j :: 0 <= j < i - 1 ==> s[1..][j] == s[j + 1];
      }
      AbsReplaceFirst(s[1..], i - 1, x);
      MapUpdatesCommute(Abs(s[1..]), x.id, Dao.RowOf(x), s[0].id, Dao.RowOf(s[0]));
    }
  }

  /** Rewriting records in place keeps the ids where they were. */
  lemma SameIdsUnique(s: seq<Task>, s': seq<Task>)
    requires |s'| == |s|
    requires forall j :: 0 <= j < |s| ==> s'[j].id == s[j].id
    requires UniqueIds(s)
    ensures UniqueIds(s')
  {
  }

  /** `updateTask(t)` is `@Update`, with or without duplicate ids, and keeps
      ids unique. */
  lemma UpdateTaskRefines(s: seq<Task>, task: Task)
    ensures Abs(Fake.UpdateTask(s, task)) == Dao.UpdateTask(Abs(s), task)
    ensures UniqueIds(s) ==> UniqueIds(Fake.UpdateTask(s, task))
  {
    var i := IndexOfFirst(s, task.id);
    if i != -1 {
      AbsReplaceFirst(s, i, task);
      if UniqueIds(s) {
        SameIdsUnique(s, Fake.UpdateTask(s, task));
      }
    }
  }

  /** `updateTaskDescription(k, d)` is
      `UPDATE tasks SET description = d WHERE id = k`, and keeps ids unique. */
  lemma UpdateTaskDescriptionRefines(s: seq<Task>, taskId: int, newDescription: string)
    ensures Abs(Fake.UpdateTaskDescription(s, taskId, newDescription))
         == Dao.UpdateTaskDescription(Abs(s), taskId, newDescription)
    ensures UniqueIds(s) ==> UniqueIds(Fake.UpdateTaskDescription(s, taskId, newDescription))
  {
    var i := IndexOfFirst(s, taskId);
    if i != -1 {
      var x := s[i].(description := newDescription);
      AbsFirst(s, i, taskId);
      AbsReplaceFirst(s, i, x);
      assert Fake.UpdateTaskDescription(s, taskId, newDescription) == s[i := x];
      if UniqueIds(s) {
        SameIdsUnique(s, s[i := x]);
      }
    }
  }

  /** `deleteTaskById(k)` is `DELETE FROM tasks WHERE id = k`, with or without
      duplicate ids, and keeps ids unique. */
  lemma {:induction false} DeleteTaskByIdRefines(s: seq<Task>, taskId: int)
    ensures Abs(Fake.DeleteTaskById(s, taskId)) == Dao.DeleteTaskById(Abs(s), taskId)
    ensures UniqueIds(s) ==> UniqueIds(Fake.DeleteTaskById(s, taskId))
    decreases |s|
  {
    var r := Fake.DeleteTaskById(s, taskId);
    if UniqueIds(s) {
      SubseqUniqueIds(r, s);
    }
    if s != [] {
      var rest := Fake.DeleteTaskById(s[1..], taskId);
      DeleteTaskByIdRefines(s[1..], taskId);
      assert Abs(s) == Abs(s[1..])[s[0].id := Dao.RowOf(s[0])];
      MapUpdateRemove(Abs(s[1..]), s[0].id, Dao.RowOf(s[0]), taskId);
      if s[0].id == taskId {
        assert r == rest;
      } else {
        assert r == [s[0]] + rest;
        assert r[1..] == rest;
        assert Abs(r) == Abs(rest)[s[0].id := Dao.RowOf(s[0])];
      }
    }
  }

  /** `deleteAllTasks()` is `DELETE FROM tasks`. */
  lemma DeleteAllTasksRefines(s: seq<Task>)
    ensures Abs(Fake.DeleteAllTasks(s)) == Dao.DeleteAllTasks(Abs(s))
    ensures Dao.Rows(Abs(Fake.DeleteAllTasks(s))) == {}
  {
  }

  /** Why the queries need unique ids: a list holding two records with one id
      stands for a one-row table, yet `getAllTasks()` returns both records. */
  lemma DuplicateIdsBreakGetAll()
    ensures !Dao.IsAllTasks(Abs([Task(1, "a", false), Task(1, "b", false)]),
                            Fake.GetAllTasks([Task(1, "a", false), Task(1, "b", false)]))
  {
    var s := [Task(1, "a", false), Task(1, "b", false)];
    AbsFirst(s, 0, 1);
    assert Task(1, "b", false) in s;
    assert Task(1, "b", false) !in Dao.Rows(Abs(s));
  }
}

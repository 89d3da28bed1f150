/** The in-memory store `FakeTaskDao`: a mutable list of tasks, here an
    immutable sequence `s` and one pure function per DAO method that returns
    either the query result or the list after the change. */
module FakeTaskDao {
  import opened Tasks
  import opened Text

  /** The three records the store is created with. */
  const InitialTasks: seq<Task> := [
    Task(1, "Tarea 1", false),
    Task(2, "Tarea 2", true),
    Task(3, "Tarea 3", false)
  ]

  /** The seeded records have distinct ids, one of them completed. */
  lemma InitialTasksWellFormed()
    ensures UniqueIds(InitialTasks)
    ensures GetTasksByCompletionStatus(InitialTasks, true) == [Task(2, "Tarea 2", true)]
  {
  }

  /** `getAllTasks()`: the list itself, in insertion order. */
  function GetAllTasks(s: seq<Task>): seq<Task> {
    s
  }

  /** `getTasksByCompletionStatus(b)`: exactly the tasks whose flag equals `b`,
      each as often as in the store, in store order. */
  function GetTasksByCompletionStatus(s: seq<Task>, isCompleted: bool): (r: seq<Task>)
    ensures forall t :: t in r <==> t in s && t.isCompleted == isCompleted
    ensures forall t :: multiset(r)[t] == if t.isCompleted == isCompleted then multiset(s)[t] else 0
    ensures Subseq(r, s)
  {
    Filter(s, (t: Task) => t.isCompleted == isCompleted)
  }

  /** `insertTask(t)`: appends `t` as given; no id is assigned. */
  function InsertTask(s: seq<Task>, task: Task): (r: seq<Task>)
    ensures |r| == |s| + 1
    ensures r[..|s|] == s && r[|s|] == task
  {
    s + [task]
  }

  /** `updateTask(t)`: the first record with `t`'s id becomes `t`; every other
      position is unchanged, and with no such record nothing changes. */
  function UpdateTask(s: seq<Task>, task: Task): (r: seq<Task>)
    ensures |r| == |s|
    ensures forall j :: 0 <= j < |s| ==> r[j] == if IsFirstWithId(s, j, task.id) then task else s[j]
    ensures !HasId(s, task.id) ==> r == s
  {
    var index := IndexOfFirst(s, task.id);
    if index != -1 then s[index := task] else s
  }

  /** `deleteTaskById(k)`: no record with id `k` is left; every other record
      stays, as often as before and in the same relative order. */
  function DeleteTaskById(s: seq<Task>, taskId: int): (r: seq<Task>)
    ensures !HasId(r, taskId)
    ensures forall t: Task :: t.id != taskId ==> multiset(r)[t] == multiset(s)[t]
    ensures Subseq(r, s)
  {
    var r := Filter(s, (t: Task) => !(t.id == taskId));
    assert forall i :: 0 <= i < |r| ==> r[i] in r;
    r
  }

  /** `deleteAllTasks()`: the list is cleared. */
  function DeleteAllTasks(s: seq<Task>): seq<Task> {
    []
  }

  /** `updateTaskDescription(k, d)`: only the description of the first record
      with id `k` changes, to `d`, keeping its id and completion flag; with no
      such record nothing changes. */
  function UpdateTaskDescription(s: seq<Task>, taskId: int, newDescription: string): (r: seq<Task>)
    ensures |r| == |s|
    ensures forall j :: 0 <= j < |s| ==>
      r[j] == if IsFirstWithId(s, j, taskId)
              then Task(s[j].id, newDescription, s[j].isCompleted)
              else s[j]
    ensures !HasId(s, taskId) ==> r == s
  {
    var index := IndexOfFirst(s, taskId);
    if index != -1 then s[index := s[index].(description := newDescription)] else s
  }

  /** `searchTasks(q)`: the tasks whose description contains `q` ignoring case,
      in store order; the empty query returns the whole store. */
  function SearchTasks(s: seq<Task>, query: string): (r: seq<Task>)
    ensures forall t :: t in r <==> t in s && ContainsIgnoreCase(t.description, query)
    ensures forall t :: multiset(r)[t] == if ContainsIgnoreCase(t.description, query) then multiset(s)[t] else 0
    ensures Subseq(r, s)
    ensures query == [] ==> r == s
  {
    var r := Filter(s, (t: Task) => Contains(t.description, query));
    assert query == [] ==> r == s by {
      if query == [] {
        forall t | t in s ensures Contains(t.description, query) {
          assert StartsWithIgnoreCase(t.description[0..], query);
        }
        FilterKeepAll(s, (t: Task) => Contains(t.description, query));
      }
    }
    r
  }

  /** The two completion filters split the store: every task lands in exactly
      one of them, and together they hold each task as often as the store does. */
  lemma CompletionPartition(s: seq<Task>)
    ensures forall t :: t in s <==> t in GetTasksByCompletionStatus(s, true) || t in GetTasksByCompletionStatus(s, false)
    ensures forall t :: !(t in GetTasksByCompletionStatus(s, true) && t in GetTasksByCompletionStatus(s, false))
    ensures multiset(GetTasksByCompletionStatus(s, true)) + multiset(GetTasksByCompletionStatus(s, false)) == multiset(s)
    ensures |GetTasksByCompletionStatus(s, true)| + |GetTasksByCompletionStatus(s, false)| == |s|
  {
    var done, pending := GetTasksByCompletionStatus(s, true), GetTasksByCompletionStatus(s, false);
    assert multiset(done) + multiset(pending) == multiset(s) by {
      forall t ensures (multiset(done) + multiset(pending))[t] == multiset(s)[t] {
      }
    }
    assert |multiset(done) + multiset(pending)| == |multiset(s)|;
  }

  /** Updating the same id twice leaves only the second update's effect. */
  lemma {:induction false} UpdateTaskTwice(s: seq<Task>, a: Task, b: Task)
    requires a.id == b.id
    ensures UpdateTask(UpdateTask(s, a), b) == UpdateTask(s, b)
  {
    var s1 := UpdateTask(s, a);
    forall j | 0 <= j < |s| ensures IsFirstWithId(s1, j, b.id) <==> IsFirstWithId(s, j, b.id) {
      assert forall i :: 0 <= i < |s| ==> s1[i].id == s[i].id;
    }
  }

  /** Writing back a record exactly as it is stored changes nothing, provided
      ids are unique (otherwise the first record with that id may differ). */
  lemma {:induction false} UpdateTaskWithStored(s: seq<Task>, task: Task)
    requires UniqueIds(s)
    requires task in s
    ensures UpdateTask(s, task) == s
  {
    var i :| 0 <= i < |s| && s[i] == task;
    assert IsFirstWithId(s, i, task.id);
    forall j | 0 <= j < |s| && IsFirstWithId(s, j, task.id) ensures j == i {
    }
  }
}

# lab08 task store and view model, in Dafny

The lab08 app is a one-screen Android to-do list. This project models its
logic, which has three parts:

- **`FakeTaskDao`** is the in-memory store used by the screen preview. It
  keeps an ordered list of `Task(id, description, isCompleted)` records and
  offers these operations: filter by completion flag, append, replace the
  first record with an id, remove every record with an id, clear, rewrite the
  description of the first record with an id, and case-insensitive substring
  search. Module `FakeTaskDao` (`fake_task_dao.dfy`) has one pure function
  per method over an immutable `seq<Task>`.
- **`TaskDao`** is the Room interface. The SQL on each method defines what it
  means. Module `TaskDao` (`task_dao.dfy`) models the table
  `tasks(id PRIMARY KEY, description, is_completed)` as a map from primary key
  to row. Each query is a predicate on the returned list: the right rows, each
  exactly once, in any order. Each statement is a function from the old table
  to the new one. `@Insert` reports a primary-key violation when the id is
  already present.
- **`TaskViewModel`** holds the published list `tasks`. Each intent method
  launches one coroutine that calls the store and then publishes a list. Module
  `TaskViewModel` (`task_view_model.dfy`) takes the state to be the pair
  (store contents, published list). Each intent is one atomic step between
  states. The store in that pair is the in-memory store: every intent calls
  the `FakeTaskDao` functions. `PublishedListsMatchTable` then carries the
  results over to the SQL contract while ids are unique.

Module `StoreRefinement` (`store_refinement.dfy`) connects the two stores.
`Abs` reads a list as a table, with the first record carrying an id supplying
that id's row. Each write of the in-memory store then does to `Abs(s)` exactly
what its SQL statement does to the table. This holds for
update-by-id, update-description and delete-by-id even when ids repeat. It
holds for insert only when the id is new. Each query returns what its SELECT
returns, provided ids are unique. `DuplicateIdsBreakGetAll` shows that this
proviso cannot be dropped. The in-memory `insertTask` never assigns an id, so
two tasks added with the same default id share it. After that, toggling the
second overwrites the first with the toggled copy of the second, and deleting
the second deletes both (`SharedDefaultIdExample`).

Text matching lives in module `Text` (`text.dfy`). `Contains` models Kotlin's
`contains(q, ignoreCase = true)`. `Like` models SQLite's `LIKE` with its `%`
and `_` wildcards. `LikeIsContains` proves that for a query with no wildcards,
the pattern `'%' || q || '%'` matches exactly the descriptions that contain
`q`. In particular, the empty query matches every description. Shared list
vocabulary lives in module `Tasks` (`tasks.dfy`): `indexOfFirst`,
order-preserving `filter`, sub-sequences and unique ids.

`addTask` builds `Task(description = d)` and inserts it with no emptiness
check; the only guard is in the screen (`MainActivity.kt:75`). The in-memory
`insertTask` assigns no id.

## Model

| member | source | states |
|---|---|---|
| Tasks.IndexOfFirst | app/src/main/java/com/example/lab08/MainActivity.kt:201 | `indexOfFirst` returns -1 exactly when no record has the id; otherwise it returns the first position holding that id |
| Tasks.Filter | app/src/main/java/com/example/lab08/MainActivity.kt:193-194 | `filter` keeps exactly the elements that satisfy the predicate, each as often as before and in their original order |
| Text.Contains | app/src/main/java/com/example/lab08/MainActivity.kt:223 | the left-to-right scan is true exactly when the query occurs at some position of the text, ignoring case |
| Text.LikeIsContains | app/src/main/java/com/example/lab08/TaskDao.kt:41-42 | for a query without `%` or `_`, the pattern built as percent, query, percent matches a description exactly when the description contains `q` ignoring case; the empty query matches everything |
| FakeTaskDao.InitialTasksWellFormed | app/src/main/java/com/example/lab08/MainActivity.kt:185-189 | the three seeded records have distinct ids, and only task 2 is completed |
| FakeTaskDao.GetTasksByCompletionStatus | app/src/main/java/com/example/lab08/MainActivity.kt:193-194 | the result holds exactly the tasks whose flag equals the argument, each as often as in the store, in store order |
| FakeTaskDao.CompletionPartition | app/src/main/java/com/example/lab08/MainActivity.kt:191-194 | the `true` and `false` filters split the full list: every task is in exactly one of them, and together they hold the store's multiset |
| FakeTaskDao.InsertTask | app/src/main/java/com/example/lab08/MainActivity.kt:196-198 | the list grows by one, the new record is last, and all earlier records are unchanged |
| FakeTaskDao.UpdateTask | app/src/main/java/com/example/lab08/MainActivity.kt:200-205 | the first record with the argument's id becomes the argument and every other position is unchanged; with no such id, nothing changes |
| FakeTaskDao.UpdateTaskTwice | app/src/main/java/com/example/lab08/MainActivity.kt:200-205 | two updates with the same id leave only the second one's effect |
| FakeTaskDao.UpdateTaskWithStored | app/src/main/java/com/example/lab08/MainActivity.kt:200-205 | when ids are unique, writing back a stored record unchanged leaves the list unchanged |
| FakeTaskDao.DeleteTaskById | app/src/main/java/com/example/lab08/MainActivity.kt:207-209 | no record with the id remains; every other record is kept, as often as before and in the same relative order |
| FakeTaskDao.UpdateTaskDescription | app/src/main/java/com/example/lab08/MainActivity.kt:215-220 | only the first record with the id changes, and only its description; its id and flag are kept; with no such id, nothing changes |
| FakeTaskDao.SearchTasks | app/src/main/java/com/example/lab08/MainActivity.kt:222-223 | the result holds exactly the tasks whose description contains the query ignoring case, in store order; the empty query returns the whole store |
| StoreRefinement.GetAllTasksRefines | app/src/main/java/com/example/lab08/TaskDao.kt:14-15 | when ids are unique, the in-memory list is a valid `SELECT * FROM tasks` result for the table it stands for: every row exactly once |
| StoreRefinement.GetTasksByCompletionStatusRefines | app/src/main/java/com/example/lab08/TaskDao.kt:38-39 | when ids are unique, the in-memory filter returns exactly the rows with `is_completed = b`, each exactly once |
| StoreRefinement.SearchTasksRefines | app/src/main/java/com/example/lab08/TaskDao.kt:41-42 | when ids are unique and the query has no wildcards, the in-memory search returns exactly the rows that the `LIKE` query selects |
| StoreRefinement.InsertTaskRefines | app/src/main/java/com/example/lab08/TaskDao.kt:19-20 | with a new id, append is `@Insert` and keeps ids unique; with an id already present, `@Insert` fails but the list gets a duplicate id |
| StoreRefinement.UpdateTaskRefines | app/src/main/java/com/example/lab08/TaskDao.kt:24-25 | replacing the first match is `@Update` by primary key, with no effect on an absent id, and ids stay unique |
| StoreRefinement.DeleteAllTasksRefines | app/src/main/java/com/example/lab08/TaskDao.kt:29-30 | clearing the list is `DELETE FROM tasks`: no rows remain |
| StoreRefinement.UpdateTaskDescriptionRefines | app/src/main/java/com/example/lab08/TaskDao.kt:32-33 | rewriting the first match's description is `UPDATE tasks SET description = d WHERE id = k`: nothing else changes, an absent id is a no-op, and ids stay unique |
| StoreRefinement.DeleteTaskByIdRefines | app/src/main/java/com/example/lab08/TaskDao.kt:35-36 | removing every match is `DELETE FROM tasks WHERE id = k`: exactly that row goes and every other row is untouched |
| StoreRefinement.DuplicateIdsBreakGetAll | app/src/main/java/com/example/lab08/MainActivity.kt:196-198 | the list that appending without id assignment can produce (two records sharing one id) is not a valid `SELECT *` result for the table it stands for |
| TaskViewModel.Toggled | app/src/main/java/com/example/lab08/TaskViewModel.kt:39 | `copy(isCompleted = !isCompleted)` keeps the id and description and flips the flag |
| TaskViewModel.Create | app/src/main/java/com/example/lab08/TaskViewModel.kt:14-15 | before the initial load finishes, the published list is empty |
| TaskViewModel.InitialLoad | app/src/main/java/com/example/lab08/TaskViewModel.kt:18-23 | after the `init` load, the published list is the store's full list and the store is unchanged |
| TaskViewModel.AddTask | app/src/main/java/com/example/lab08/TaskViewModel.kt:27-33 | exactly one record with the given description is appended after the untouched existing ones, with no emptiness check; then the full list is published |
| TaskViewModel.ToggleTaskCompletion | app/src/main/java/com/example/lab08/TaskViewModel.kt:37-43 | the stored record with the task's id becomes the task with only its flag negated, nothing else changes, and the full list is published |
| TaskViewModel.ToggleTwiceRestores | app/src/main/java/com/example/lab08/TaskViewModel.kt:37-43 | when ids are unique, toggling a shown task and then toggling the record shown in its place restores both the store and the published list |
| TaskViewModel.DeleteAllTasks | app/src/main/java/com/example/lab08/TaskViewModel.kt:47-52 | both the store and the published list are empty afterwards |
| TaskViewModel.EditTaskDescription | app/src/main/java/com/example/lab08/TaskViewModel.kt:54-59 | only the description of the record with the id changes; then the full list is published |
| TaskViewModel.EditTask | app/src/main/java/com/example/lab08/TaskViewModel.kt:61-66 | the stored record with the task's id becomes the task, others are unchanged, and the full list is published |
| TaskViewModel.DeleteTask | app/src/main/java/com/example/lab08/TaskViewModel.kt:68-73 | no task with the id is published, the other records stay in order, and the published list is the full store |
| TaskViewModel.GetCompletedTasks | app/src/main/java/com/example/lab08/TaskViewModel.kt:76-80 | exactly the completed tasks are published, each as often as it is stored, in store order, and the store is unchanged |
| TaskViewModel.GetPendingTasks | app/src/main/java/com/example/lab08/TaskViewModel.kt:83-87 | exactly the pending tasks are published, each as often as it is stored, in store order, and the store is unchanged |
| TaskViewModel.GetAllTasks | app/src/main/java/com/example/lab08/TaskViewModel.kt:90-94 | any filter is dropped: the full store is published and the store is unchanged |
| TaskViewModel.LastFilterWins | app/src/main/java/com/example/lab08/TaskViewModel.kt:76-94 | the three view intents do not remember earlier filters: the last one called decides the published list |
| TaskViewModel.StepsKeepIdsUnique | app/src/main/java/com/example/lab08/TaskViewModel.kt:27-73 | every write intent keeps ids unique; `addTask` does so only when its default id is not already stored |
| TaskViewModel.PublishedListsMatchTable | app/src/main/java/com/example/lab08/TaskViewModel.kt:18-94 | when ids are unique, each published list is what the corresponding SQL query returns on the table the store stands for, including after `addTask` when its default id is not yet stored |
| TaskViewModel.SharedDefaultIdExample | app/src/main/java/com/example/lab08/TaskViewModel.kt:27-73 | two tasks added under one default id share it; toggling the second overwrites the first, and deleting the second deletes both |
| TaskViewModel.AddToggleFilterExample | app/src/main/java/com/example/lab08/TaskViewModel.kt:27-80 | after adding "Buy milk" and "Call Bob", toggling the first and choosing the completed view, exactly the toggled "Buy milk" is shown |

## Left out

- The Compose screen, its preview and the activity (`MainActivity.kt:17-181`) are rendering and wiring. The emptiness guard at `MainActivity.kt:75` is part of them.
- `TaskViewModel` is modelled over the in-memory store, while the app wires it to Room (`MainActivity.kt:22-29`). Published lists are therefore in store order, whereas Room's `SELECT` without `ORDER BY` fixes no order; `PublishedListsMatchTable` states only the order-free agreement. Whether `addTask` gets a fresh id under Room is unknown, because the `Task` entity is not part of this model.
- Coroutines and `MutableStateFlow` are not modelled. Each intent is one atomic step, so interleavings of launched coroutines are not considered.
- The in-memory `getAllTasks()` returns its live mutable list, so a published list can alias the store. The model publishes a snapshot, which is what the Room implementation returns.
- Room internals are not modelled: the storage engine, I/O failures, and id auto-generation by `@Insert`. The `Task` entity class is not part of this model, so `TaskViewModel.AddTask` takes the defaulted id and completion flag as a `TaskDefaults` parameter. `TaskDao.InsertTask` stores the record under the id it carries.
- Text.Contains: folds ASCII letters only. Kotlin's `ignoreCase` also folds non-ASCII letters, while SQLite's `LIKE` does not.
- StoreRefinement.SearchTasksRefines: requires a query without `%` or `_`. With those characters the SQL query treats them as wildcards, while the in-memory search matches them literally.
- Kotlin `Int` ids are 32-bit. Ids are only compared for equality, so the model uses unbounded integers.
- FakeTaskDao.GetAllTasks and FakeTaskDao.DeleteAllTasks have no contract of their own (one returns the list, the other the empty list). Their meaning is stated by `StoreRefinement.GetAllTasksRefines` and `StoreRefinement.DeleteAllTasksRefines`.
- `searchTasks`, `sortTasksByName` and `sortTasksByDate` on the view model are called by the screen (`MainActivity.kt:58`, `118`, `121`) but are not defined in `TaskViewModel.kt`, so they are not modelled.

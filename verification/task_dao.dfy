/** The store contract `TaskDao`, read off its SQL: the table
    `tasks(id INTEGER PRIMARY KEY, description TEXT, is_completed BOOLEAN)` is a
    finite map from primary key to the remaining columns. Queries are stated as
    predicates on a returned list (SQL fixes which rows come back, not their
    order); statements are functions from the table before to the table after. */
module TaskDao {
  import opened Tasks
  import opened Text

  /** The non-key columns of one row. */
  datatype Row = Row(description: string, isCompleted: bool)

  /** The table `tasks`, keyed by `id`. */
  type Table = map<int, Row>

  /** What an `@Insert` leaves behind: the new table, or the primary-key
      violation that aborts the statement (Room's default conflict strategy). */
  datatype InsertOutcome = Inserted(table: Table) | UniqueConstraintFailed

  /** The row a Task record is stored as. */
  function RowOf(t: Task): Row {
    Row(t.description, t.isCompleted)
  }

  /** The table's rows, read back as Task records. */
  function Rows(table: Table): (rows: set<Task>)
    ensures forall t :: t in rows <==> t.id in table && table[t.id] == RowOf(t)
  {
    set k | k in table :: Task(k, table[k].description, table[k].isCompleted)
  }

  /** `r` is a SELECT result over `rows`: every such row exactly once, in some
      order, and nothing else. */
  ghost predicate Lists(r: seq<Task>, rows: set<Task>) {
    && (forall i, j :: 0 <= i < j < |r| ==> r[i] != r[j])
    && (forall t :: t in r <==> t in rows)
  }

  /** `SELECT * FROM tasks` */
  ghost predicate IsAllTasks(table: Table, r: seq<Task>) {
    Lists(r, Rows(table))
  }

  /** `SELECT * FROM tasks WHERE is_completed = :isCompleted` */
  ghost predicate IsTasksByCompletionStatus(table: Table, isCompleted: bool, r: seq<Task>) {
    Lists(r, set t | t in Rows(table) && t.isCompleted == isCompleted)
  }

  /** `SELECT * FROM tasks WHERE description LIKE '%' || :query || '%'` */
  ghost predicate IsSearchResult(table: Table, query: string, r: seq<Task>) {
    Lists(r, set t | t in Rows(table) && Like(t.description, "%" + query + "%"))
  }

  /** `@Insert`: adds the record under its own id; an id already present
      violates the primary key and the table is left as it was. */
  function InsertTask(table: Table, task: Task): InsertOutcome {
    if task.id in table then UniqueConstraintFailed else Inserted(table[task.id := RowOf(task)])
  }

  /** `@Update`: rewrites the row whose primary key is the record's id; no
      such row, no change. */
  function UpdateTask(table: Table, task: Task): Table {
    if task.id in table then table[task.id := RowOf(task)] else table
  }

  /** `DELETE FROM tasks` */
  function DeleteAllTasks(table: Table): Table {
    map[]
  }

  /** `UPDATE tasks SET description = :newDescription WHERE id = :taskId` */
  function UpdateTaskDescription(table: Table, taskId: int, newDescription: string): Table {
    if taskId in table then table[taskId := table[taskId].(description := newDescription)] else table
  }

  /** `DELETE FROM tasks WHERE id = :taskId` */
  function DeleteTaskById(table: Table, taskId: int): Table {
    table - {taskId}
  }
}

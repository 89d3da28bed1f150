/** `TaskViewModel`: the state is the store's contents together with the list
    published to the screen (`tasks`). Each intent method launches one
    coroutine that performs a store operation and then republishes the full
    list, a filtered list or the empty list; each is modelled as one atomic
    step from state to state. */
module TaskViewModel {
  import opened Tasks
  import Store = FakeTaskDao
  import Dao = TaskDao
  import StoreRefinement

  /** The id and completion flag that `Task(description = d)` takes from the
      entity's default arguments; the entity class is not part of this model,
      so they are supplied by the caller. */
  datatype TaskDefaults = TaskDefaults(id: int, isCompleted: bool)

  /** The store's records and the published list of tasks. */
  datatype ViewModel = ViewModel(store: seq<Task>, tasks: seq<Task>)

  /** The record `task.copy(isCompleted = !task.isCompleted)`. */
  function Toggled(task: Task): (r: Task)
    ensures r.id == task.id && r.description == task.description
    ensures r.isCompleted != task.isCompleted
  {
    task.(isCompleted := !task.isCompleted)
  }

  /** Construction: the published list starts empty; the initial load is a
      separate step. */
  function Create(store: seq<Task>): (vm: ViewModel)
    ensures vm.store == store && |vm.tasks| == 0
  {
    ViewModel(store, [])
  }

  /** The coroutine launched by `init`: publish every stored task. */
  function InitialLoad(vm: ViewModel): (r: ViewModel)
    ensures r.store == vm.store
    ensures r.tasks == vm.store
  {
    vm.(tasks := Store.GetAllTasks(vm.store))
  }

  /** `addTask(d)`: one record with description `d` is inserted after all the
      others, which are untouched; then the whole store is published. There is
      no emptiness check here. */
  function AddTask(vm: ViewModel, description: string, defaults: TaskDefaults): (r: ViewModel)
    ensures |r.store| == |vm.store| + 1
    ensures r.store[..|vm.store|] == vm.store
    ensures r.store[|vm.store|] == Task(defaults.id, description, defaults.isCompleted)
    ensures r.tasks == r.store
  {
    var store := Store.InsertTask(vm.store, Task(defaults.id, description, defaults.isCompleted));
    ViewModel(store, Store.GetAllTasks(store))
  }

  /** `toggleTaskCompletion(t)`: the stored record with `t`'s id becomes `t`
      with only its flag flipped; then the whole store is published. */
  function ToggleTaskCompletion(vm: ViewModel, task: Task): (r: ViewModel)
    ensures |r.store| == |vm.store|
    ensures forall j :: 0 <= j < |vm.store| ==>
      r.store[j] == if IsFirstWithId(vm.store, j, task.id)
                    then Task(task.id, task.description, !task.isCompleted)
                    else vm.store[j]
    ensures r.tasks == r.store
  {
    var store := Store.UpdateTask(vm.store, Toggled(task));
    ViewModel(store, Store.GetAllTasks(store))
  }

  /** `deleteAllTasks()`: the store is cleared and the empty list published. */
  function DeleteAllTasks(vm: ViewModel): (r: ViewModel)
    ensures |r.store| == 0 && |r.tasks| == 0
  {
    ViewModel(Store.DeleteAllTasks(vm.store), [])
  }

  /** `editTask(taskId, newDescription)`: only the description of the stored
      record with that id changes; then the whole store is published. */
  function EditTaskDescription(vm: ViewModel, taskId: int, newDescription: string): (r: ViewModel)
    ensures |r.store| == |vm.store|
    ensures forall j :: 0 <= j < |vm.store| ==>
      r.store[j] == if IsFirstWithId(vm.store, j, taskId)
                    then Task(taskId, newDescription, vm.store[j].isCompleted)
                    else vm.store[j]
    ensures r.tasks == r.store
  {
    var store := Store.UpdateTaskDescription(vm.store, taskId, newDescription);
    ViewModel(store, Store.GetAllTasks(store))
  }

  /** `editTask(task)`: the stored record with `task`'s id becomes `task`;
      then the whole store is published. */
  function EditTask(vm: ViewModel, task: Task): (r: ViewModel)
    ensures |r.store| == |vm.store|
    ensures forall j :: 0 <= j < |vm.store| ==>
      r.store[j] == if IsFirstWithId(vm.store, j, task.id) then task else vm.store[j]
    ensures r.tasks == r.store
  {
    var store := Store.UpdateTask(vm.store, task);
    ViewModel(store, Store.GetAllTasks(store))
  }

  /** `deleteTask(task)`: no record with `task`'s id is left in the store or
      on screen, every other record stays in order; then the whole store is
      published. */
  function DeleteTask(vm: ViewModel, task: Task): (r: ViewModel)
    ensures !HasId(r.tasks, task.id)
    ensures forall t: Task :: t.id != task.id ==> multiset(r.store)[t] == multiset(vm.store)[t]
    ensures Subseq(r.store, vm.store)
    ensures r.tasks == r.store
  {
    var store := Store.DeleteTaskById(vm.store, task.id);
    ViewModel(store, Store.GetAllTasks(store))
  }

  /** `getCompletedTasks()`: publish exactly the completed tasks, each as
      often as it is stored, in store order; the store is untouched. */
  function GetCompletedTasks(vm: ViewModel): (r: ViewModel)
    ensures r.store == vm.store
    ensures forall t :: t in r.tasks <==> t in vm.store && t.isCompleted
    ensures forall t :: multiset(r.tasks)[t] == if t.isCompleted then multiset(vm.store)[t] else 0
    ensures Subseq(r.tasks, vm.store)
  {
    vm.(tasks := Store.GetTasksByCompletionStatus(vm.store, true))
  }

  /** `getPendingTasks()`: publish exactly the pending tasks, each as often
      as it is stored, in store order; the store is untouched. */
  function GetPendingTasks(vm: ViewModel): (r: ViewModel)
    ensures r.store == vm.store
    ensures forall t :: t in r.tasks <==> t in vm.store && !t.isCompleted
    ensures forall t :: multiset(r.tasks)[t] == if !t.isCompleted then multiset(vm.store)[t] else 0
    ensures Subseq(r.tasks, vm.store)
  {
    vm.(tasks := Store.GetTasksByCompletionStatus(vm.store, false))
  }

  /** `getAllTasks()`: drop any filter and publish the whole store, which is
      untouched. */
  function GetAllTasks(vm: ViewModel): (r: ViewModel)
    ensures r.store == vm.store
    ensures r.tasks == vm.store
  {
    vm.(tasks := Store.GetAllTasks(vm.store))
  }

  /** The published list never remembers an earlier filter: whichever view
      was chosen last decides what is shown. */
  lemma LastFilterWins(vm: ViewModel)
    ensures GetCompletedTasks(GetPendingTasks(vm)) == GetCompletedTasks(vm)
    ensures GetPendingTasks(GetCompletedTasks(vm)) == GetPendingTasks(vm)
    ensures GetAllTasks(GetCompletedTasks(vm)) == GetAllTasks(vm)
    ensures GetAllTasks(GetPendingTasks(vm)) == GetAllTasks(vm)
    ensures GetCompletedTasks(GetAllTasks(vm)) == GetCompletedTasks(vm)
    ensures GetPendingTasks(GetAllTasks(vm)) == GetPendingTasks(vm)
  {
  }

  /** Toggling a shown task, then toggling the record shown in its place,
      restores the store: the second toggle's argument is on screen after the
      first, and the two updates cancel out while ids are unique. */
  lemma {:induction false} ToggleTwiceRestores(vm: ViewModel, task: Task)
    requires UniqueIds(vm.store)
    requires task in vm.store
    ensures Toggled(task) in ToggleTaskCompletion(vm, task).tasks
    ensures ToggleTaskCompletion(ToggleTaskCompletion(vm, task), Toggled(task)).store == vm.store
    ensures ToggleTaskCompletion(ToggleTaskCompletion(vm, task), Toggled(task)).tasks == vm.store
  {
    var i :| 0 <= i < |vm.store| && vm.store[i] == task;
    assert IsFirstWithId(vm.store, i, task.id);
    assert ToggleTaskCompletion(vm, task).tasks[i] == Toggled(task);
    assert Toggled(Toggled(task)) == task;
    Store.UpdateTaskTwice(vm.store, Toggled(task), task);
    Store.UpdateTaskWithStored(vm.store, task);
  }

  /** Every step keeps ids unique, `addTask` only when its default id is not
      yet in the store. */
  lemma StepsKeepIdsUnique(vm: ViewModel, description: string, defaults: TaskDefaults, task: Task, taskId: int)
    requires UniqueIds(vm.store)
    ensures !HasId(vm.store, defaults.id) ==> UniqueIds(AddTask(vm, description, defaults).store)
    ensures UniqueIds(ToggleTaskCompletion(vm, task).store)
    ensures UniqueIds(EditTaskDescription(vm, taskId, description).store)
    ensures UniqueIds(EditTask(vm, task).store)
    ensures UniqueIds(DeleteTask(vm, task).store)
    ensures UniqueIds(DeleteAllTasks(vm).store)
  {
    StoreRefinement.InsertTaskRefines(vm.store, Task(defaults.id, description, defaults.isCompleted));
    StoreRefinement.UpdateTaskRefines(vm.store, Toggled(task));
    StoreRefinement.UpdateTaskDescriptionRefines(vm.store, taskId, description);
    StoreRefinement.UpdateTaskRefines(vm.store, task);
    StoreRefinement.DeleteTaskByIdRefines(vm.store, task.id);
  }

  /** While ids are unique, what each step publishes is what the SQL queries
      return on the table the store stands for: the whole table after every
      write (after `addTask` when its default id is new), the matching rows after a filter, nothing after `deleteAllTasks`. */
  lemma PublishedListsMatchTable(vm: ViewModel, task: Task, taskId: int, description: string, defaults: TaskDefaults)
    requires UniqueIds(vm.store)
    ensures !HasId(vm.store, defaults.id) ==>
      Dao.IsAllTasks(StoreRefinement.Abs(AddTask(vm, description, defaults).store), AddTask(vm, description, defaults).tasks)
    ensures Dao.IsAllTasks(StoreRefinement.Abs(vm.store), InitialLoad(vm).tasks)
    ensures Dao.IsAllTasks(StoreRefinement.Abs(vm.store), GetAllTasks(vm).tasks)
    ensures Dao.IsTasksByCompletionStatus(StoreRefinement.Abs(vm.store), true, GetCompletedTasks(vm).tasks)
    ensures Dao.IsTasksByCompletionStatus(StoreRefinement.Abs(vm.store), false, GetPendingTasks(vm).tasks)
    ensures Dao.IsAllTasks(StoreRefinement.Abs(ToggleTaskCompletion(vm, task).store), ToggleTaskCompletion(vm, task).tasks)
    ensures Dao.IsAllTasks(StoreRefinement.Abs(EditTask(vm, task).store), EditTask(vm, task).tasks)
    ensures Dao.IsAllTasks(StoreRefinement.Abs(EditTaskDescription(vm, taskId, description).store),
                           EditTaskDescription(vm, taskId, description).tasks)
    ensures Dao.IsAllTasks(StoreRefinement.Abs(DeleteTask(vm, task).store), DeleteTask(vm, task).tasks)
    ensures Dao.IsAllTasks(StoreRefinement.Abs(DeleteAllTasks(vm).store), DeleteAllTasks(vm).tasks)
  {
    StepsKeepIdsUnique(vm, description, defaults, task, taskId);
    if !HasId(vm.store, defaults.id) {
      StoreRefinement.GetAllTasksRefines(AddTask(vm, description, defaults).store);
    }
    StoreRefinement.GetAllTasksRefines(vm.store);
    StoreRefinement.GetTasksByCompletionStatusRefines(vm.store, true);
    StoreRefinement.GetTasksByCompletionStatusRefines(vm.store, false);
    StoreRefinement.GetAllTasksRefines(ToggleTaskCompletion(vm, task).store);
    StoreRefinement.GetAllTasksRefines(EditTask(vm, task).store);
    StoreRefinement.GetAllTasksRefines(EditTaskDescription(vm, taskId, description).store);
    StoreRefinement.GetAllTasksRefines(DeleteTask(vm, task).store);
  }

  /** Two tasks added to an empty store, the first one toggled, then the
      completed view chosen: exactly the toggled task is shown. */
  lemma AddToggleFilterExample()
    ensures
      var vm0 := InitialLoad(Create([]));
      var vm1 := AddTask(vm0, "Buy milk", TaskDefaults(1, false));
      var vm2 := AddTask(vm1, "Call Bob", TaskDefaults(2, false));
      var vm3 := ToggleTaskCompletion(vm2, vm2.tasks[0]);
      GetCompletedTasks(vm3).tasks == [Task(1, "Buy milk", true)]
  {
    var vm0 := InitialLoad(Create([]));
    var vm1 := AddTask(vm0, "Buy milk", TaskDefaults(1, false));
    var vm2 := AddTask(vm1, "Call Bob", TaskDefaults(2, false));
    assert vm2.store == [Task(1, "Buy milk", false), Task(2, "Call Bob", false)];
    var vm3 := ToggleTaskCompletion(vm2, vm2.tasks[0]);
    assert IsFirstWithId(vm2.store, 0, 1);
    assert !IsFirstWithId(vm2.store, 1, 1);
    assert vm3.store == [Task(1, "Buy milk", true), Task(2, "Call Bob", false)];
  }

  /** The in-memory store assigns no ids, so two tasks added with the same
      default id share it. Toggling the second then overwrites the first with
      the toggled copy of the second, and deleting the second deletes both. */
  lemma SharedDefaultIdExample()
    ensures
      var vm := AddTask(AddTask(Create([]), "a", TaskDefaults(0, false)), "b", TaskDefaults(0, false));
      && vm.tasks == [Task(0, "a", false), Task(0, "b", false)]
      && ToggleTaskCompletion(vm, vm.tasks[1]).tasks == [Task(0, "b", true), Task(0, "b", false)]
      && DeleteTask(vm, vm.tasks[1]).tasks == []
  {
    var vm := AddTask(AddTask(Create([]), "a", TaskDefaults(0, false)), "b", TaskDefaults(0, false));
    assert vm.store == [Task(0, "a", false), Task(0, "b", false)];
    assert IsFirstWithId(vm.store, 0, 0);
    assert !IsFirstWithId(vm.store, 1, 0);
  }
}

/** `TaskController`: the layer between `TaskStore` and the views. It rejects
    blank task text, delegates changes to the store, asks for confirmation
    before clearing, and tells its listeners after every successful add,
    every toggle of an existing id, every confirmed clear and every delete. */
module TaskControl {
  import opened Text
  import opened Seqs
  import opened Tasks
  import opened Notify

  /** The figures `getTaskStats` reports. */
  datatype TaskStats = TaskStats(total: nat, completed: nat, remaining: nat)

  class TaskController {
    const taskStore: TaskStore
    const listeners: Listeners

    ghost predicate Valid()
      reads this, taskStore
    {
      taskStore.Valid()
    }

    constructor (store: TaskStore)
      ensures taskStore == store && fresh(listeners)
      ensures listeners.registered == [] && listeners.calls == [] && listeners.rounds == 0
    {
      taskStore := store;
      listeners := new Listeners();
    }

    /** Blank text (empty or only whitespace) is refused with no change and no
        notification; any other text becomes a new task, and listeners hear
        of it once. */
    method HandleAddTask(text: string) returns (t: Task?)
      requires Valid()
      modifies taskStore, listeners
      ensures Valid()
      ensures IsBlank(text) ==> t == null && taskStore.tasks == old(taskStore.tasks) && unchanged(listeners)
      ensures !IsBlank(text) ==>
        && t != null && fresh(t)
        && t.Info() == TaskInfo(old(taskStore.NextId()), text, false)
        && taskStore.tasks == old(taskStore.tasks) + [t]
        && NotifiedOnce(listeners)
    {
      if IsBlank(text) {
        return null;
      }
      t := taskStore.AddTask(text);
      listeners.NotifyAll();
    }

    /** Removes every task with the id and notifies, whether or not one was removed. */
    method HandleDeleteTask(id: int)
      requires Valid()
      modifies taskStore, listeners
      ensures Valid()
      ensures taskStore.tasks == WithoutId(old(taskStore.tasks), id)
      ensures NotifiedOnce(listeners)
    {
      taskStore.RemoveTask(id);
      listeners.NotifyAll();
    }

    /** Flips the task with the id, in place, and notifies; a missing id
        changes nothing and notifies nobody. */
    method HandleToggleTask(id: int)
      requires Valid()
      modifies listeners, taskStore.tasks
      ensures Valid()
      ensures taskStore.tasks == old(taskStore.tasks)
      ensures taskStore.Rows() == ToggleById(old(taskStore.Rows()), id)
      ensures id in IdsOf(taskStore.tasks) ==> NotifiedOnce(listeners)
      ensures id !in IdsOf(taskStore.tasks) ==> unchanged(listeners)
    {
      var t := taskStore.GetTask(id);
      ghost var tasks := taskStore.tasks;
      ghost var rows := taskStore.Rows();
      if t != null {
        ghost var k := FirstIndex(IdsOf(tasks), id);
        FirstHolder(tasks, id, k);
        t.ToggleDone();
        InfosAfterOneChange(tasks, k, rows);
        ToggleByIdAt(rows, id, k);
        listeners.NotifyAll();
      } else {
        forall i | 0 <= i < |rows| ensures rows[i].id != id {
          assert IdsOf(tasks)[i] == rows[i].id;
        }
        ToggleByIdAt(rows, id, |rows|);
      }
    }

    /** The store's total, completed and remaining counts; the last two add up to the first. */
    function GetTaskStats(): (s: TaskStats)
      reads this, taskStore, taskStore.tasks
      ensures s.total == |taskStore.tasks|
      ensures s.completed == |Completed(taskStore.tasks)|
      ensures s.remaining == |Active(taskStore.tasks)|
      ensures s.completed + s.remaining == s.total
    {
      TaskStats(taskStore.TotalCount(), taskStore.CompletedCount(), taskStore.RemainingCount())
    }

    /** Clears the store and notifies when the user confirms; otherwise does nothing.
        The answer of the confirmation prompt is the parameter `confirmed`. */
    method HandleClearAllTasks(confirmed: bool) returns (cleared: bool)
      requires Valid()
      modifies taskStore, listeners
      ensures Valid()
      ensures cleared == confirmed
      ensures confirmed ==> taskStore.tasks == [] && NotifiedOnce(listeners)
      ensures !confirmed ==> taskStore.tasks == old(taskStore.tasks) && unchanged(listeners)
    {
      if confirmed {
        taskStore.ClearAll();
        listeners.NotifyAll();
        return true;
      }
      return false;
    }

    /** `"active"` keeps the tasks not done and `"completed"` the tasks done,
        each in their order; any other filter value keeps every task. */
    function GetFilteredTasks(filter: string): (r: seq<Task>)
      reads this, taskStore, taskStore.tasks
      ensures IsSubseq(r, taskStore.tasks)
      ensures filter == "active" ==>
        (forall t | t in r :: !t.done) && (forall t | t in taskStore.tasks && !t.done :: t in r)
      ensures filter == "completed" ==>
        (forall t | t in r :: t.done) && (forall t | t in taskStore.tasks && t.done :: t in r)
      ensures filter != "active" && filter != "completed" ==> r == taskStore.tasks
    {
      var tasks := taskStore.GetAllTasks();
      if filter == "active" then Active(tasks)
      else if filter == "completed" then Completed(tasks)
      else
        SubseqOfItself(tasks);
        tasks
    }
  }

  /** The `"active"` and `"completed"` views split the task list: together
      they hold every task exactly as often as the list does. */
  lemma FilteredPartition(c: TaskController)
    ensures multiset(c.GetFilteredTasks("active")) + multiset(c.GetFilteredTasks("completed"))
      == multiset(c.taskStore.GetAllTasks())
    ensures |c.GetFilteredTasks("active")| + |c.GetFilteredTasks("completed")| == |c.taskStore.GetAllTasks()|
  {
    ActiveCompletedPartition(c.taskStore.tasks);
  }

  /** The scenario of adding "Buy milk" to an empty store, toggling it and
      deleting it, with the statistics after each step. */
  method BuyMilk() returns (afterAdd: TaskStats, afterToggle: TaskStats, afterDelete: TaskStats)
    ensures afterAdd == TaskStats(1, 0, 1)
    ensures afterToggle == TaskStats(1, 1, 0)
    ensures afterDelete == TaskStats(0, 0, 0)
  {
    var store := new TaskStore();
    var c := new TaskController(store);
    assert !IsSpace("Buy milk"[0]);
    var t := c.HandleAddTask("Buy milk");
    afterAdd := c.GetTaskStats();
    c.HandleToggleTask(1);
    afterToggle := c.GetTaskStats();
    c.HandleDeleteTask(1);
    afterDelete := c.GetTaskStats();
  }
}

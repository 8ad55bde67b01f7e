/** The task entity and `TaskStore`. The store's own source is not part of
    this model: what it does is an assumed contract, the one the task
    controller relies on — an ordered collection of tasks with unique ids,
    where a new task gets the largest id plus one (1 when empty) and starts
    not done, removal keeps the other tasks in order, lookup finds the task
    with an id, and the counts are taken over the `done` flag. */
module Tasks {
  import opened Seqs

  /** What a task holds at one moment (the creation timestamp is not modelled). */
  datatype TaskInfo = TaskInfo(id: int, text: string, done: bool)

  class Task {
    const id: int
    const text: string
    var done: bool

    /** A new task is not done. */
    constructor (id: int, text: string)
      ensures Info() == TaskInfo(id, text, false)
    {
      this.id := id;
      this.text := text;
      this.done := false;
    }

    function Info(): TaskInfo
      reads this
    {
      TaskInfo(id, text, done)
    }

    /** Flips the completion flag; id and text stay. */
    method ToggleDone()
      modifies this
      ensures Info() == Toggled(old(Info()))
    {
      done := !done;
    }
  }

  /** A record with its completion flag flipped. */
  function Toggled(t: TaskInfo): (r: TaskInfo)
    ensures r.id == t.id && r.text == t.text && r.done != t.done
  {
    t.(done := !t.done)
  }

  function TaskId(t: Task): int {
    t.id
  }

  function IdsOf(ts: seq<Task>): seq<int> {
    seq(|ts|, i requires 0 <= i < |ts| => ts[i].id)
  }

  /** The records of a list of tasks, position by position. */
  function InfosOf(ts: seq<Task>): (r: seq<TaskInfo>)
    reads ts
    ensures |r| == |ts| && forall i | 0 <= i < |ts| :: r[i] == ts[i].Info()
  {
    if ts == [] then [] else [ts[0].Info()] + InfosOf(ts[1..])
  }

  /** No two tasks share an identifier. */
  ghost predicate UniqueIds(ts: seq<Task>) {
    DistinctKeys(ts, TaskId)
  }

  /** The tasks whose id differs, in their order. */
  function WithoutId(ts: seq<Task>, id: int): (r: seq<Task>)
    ensures IsSubseq(r, ts)
    ensures forall t | t in r :: t in ts && t.id != id
    ensures forall t | t in ts && t.id != id :: t in r
    ensures (forall t | t in ts :: t.id != id) ==> r == ts
  {
    Filter(ts, (t: Task) => t.id != id)
  }

  /** Removal by id keeps every occurrence of a task with another id and none with the id. */
  lemma WithoutIdCounts(ts: seq<Task>, id: int, t: Task)
    ensures multiset(WithoutId(ts, id))[t] == if t.id != id then multiset(ts)[t] else 0
  {
    FilterCounts(ts, (v: Task) => v.id != id, t);
  }

  /** `tasks.filter(task => !task.done)` */
  function Active(ts: seq<Task>): (r: seq<Task>)
    reads ts
    ensures IsSubseq(r, ts)
    ensures forall t | t in r :: t in ts && !t.done
    ensures forall t | t in ts && !t.done :: t in r
  {
    if ts == [] then []
    else if !ts[0].done then [ts[0]] + Active(ts[1..])
    else Active(ts[1..])
  }

  /** `tasks.filter(task => task.done)` */
  function Completed(ts: seq<Task>): (r: seq<Task>)
    reads ts
    ensures IsSubseq(r, ts)
    ensures forall t | t in r :: t in ts && t.done
    ensures forall t | t in ts && t.done :: t in r
  {
    if ts == [] then []
    else if ts[0].done then [ts[0]] + Completed(ts[1..])
    else Completed(ts[1..])
  }

  /** The active and the completed tasks together are all the tasks, each
      exactly as often as in the list, so the two counts add up to the total. */
  lemma {:induction false} ActiveCompletedPartition(ts: seq<Task>)
    ensures multiset(Active(ts)) + multiset(Completed(ts)) == multiset(ts)
    ensures |Active(ts)| + |Completed(ts)| == |ts|
  {
    if ts != [] {
      ActiveCompletedPartition(ts[1..]);
      assert ts == [ts[0]] + ts[1..];
    }
  }

  /** `toggleDone` applied, through a lookup by id, to the first record with that id. */
  function ToggleById(rows: seq<TaskInfo>, id: int): (r: seq<TaskInfo>)
    ensures |r| == |rows|
    ensures forall i | 0 <= i < |rows| :: r[i].id == rows[i].id && r[i].text == rows[i].text
    ensures forall i | 0 <= i < |rows| && rows[i].id != id :: r[i] == rows[i]
  {
    if rows == [] then []
    else if rows[0].id == id then [Toggled(rows[0])] + rows[1..]
    else [rows[0]] + ToggleById(rows[1..], id)
  }

  /** The record flipped is the one at the first position holding the id;
      nothing changes when no record holds it. */
  lemma {:induction false} ToggleByIdAt(rows: seq<TaskInfo>, id: int, k: nat)
    requires k <= |rows| && forall i | 0 <= i < k :: rows[i].id != id
    requires k < |rows| ==> rows[k].id == id
    ensures k < |rows| ==> ToggleById(rows, id) == rows[k := Toggled(rows[k])]
    ensures k == |rows| ==> ToggleById(rows, id) == rows
  {
    if rows == [] {
    } else if rows[0].id == id {
      assert k == 0;
      ReplaceHead(rows, Toggled(rows[0]));
    } else {
      var tail := rows[1..];
      ToggleByIdAt(tail, id, k - 1);
      if k < |rows| {
        ReplaceAfterHead(rows, k, Toggled(rows[k]));
      } else {
        assert [rows[0]] + tail == rows;
      }
    }
  }

  /** Toggling the same id twice restores every record. */
  lemma {:induction false} ToggleByIdTwice(rows: seq<TaskInfo>, id: int)
    ensures ToggleById(ToggleById(rows, id), id) == rows
  {
    if rows == [] {
    } else if rows[0].id == id {
      assert ToggleById(rows, id)[1..] == rows[1..];
      assert [Toggled(Toggled(rows[0]))] + rows[1..] == rows;
    } else {
      ToggleByIdTwice(rows[1..], id);
      assert [rows[0]] + rows[1..] == rows;
    }
  }

  /** When only the task at position `k` changed, the records differ from the
      earlier ones `before` at that position only. */
  lemma InfosAfterOneChange(ts: seq<Task>, k: nat, before: seq<TaskInfo>)
    requires k < |ts| == |before|
    requires forall j | 0 <= j < |ts| && j != k :: ts[j].Info() == before[j]
    ensures InfosOf(ts) == before[k := ts[k].Info()]
  {
  }

  /** In a list with unique ids, the first task holding an id is the only
      one: no earlier record has the id and every other position holds a
      different object. */
  lemma FirstHolder(ts: seq<Task>, id: int, k: nat)
    requires UniqueIds(ts) && k == FirstIndex(IdsOf(ts), id) && k < |ts|
    ensures forall i | 0 <= i < k :: InfosOf(ts)[i].id != id
    ensures forall j | 0 <= j < |ts| && j != k :: ts[j] != ts[k]
  {
    forall i | 0 <= i < k ensures InfosOf(ts)[i].id != id {
      assert IdsOf(ts)[i] == ts[i].id;
    }
    forall j | 0 <= j < |ts| && j != k ensures ts[j] != ts[k] {
      assert TaskId(ts[j]) != TaskId(ts[k]);
    }
  }

  class TaskStore {
    var tasks: seq<Task>

    /** Identifiers stay unique. */
    ghost predicate Valid()
      reads this
    {
      UniqueIds(tasks)
    }

    /** The stored records, in insertion order. */
    function Rows(): seq<TaskInfo>
      reads this, tasks
    {
      InfosOf(tasks)
    }

    /** A store with nothing saved starts empty. */
    constructor ()
      ensures Valid() && tasks == []
    {
      tasks := [];
    }

    /** The largest id plus one, or 1 for an empty store. */
    function NextId(): (id: int)
      reads this
      ensures id >= 1
      ensures forall t | t in tasks :: t.id < id
      ensures tasks == [] ==> id == 1
      ensures id == 1 || id - 1 in IdsOf(tasks)
    {
      var m := MaxOrZero(IdsOf(tasks));
      assert forall t | t in tasks :: t.id in IdsOf(tasks) by {
        forall t | t in tasks ensures t.id in IdsOf(tasks) {
          var i :| 0 <= i < |tasks| && tasks[i] == t;
          assert IdsOf(tasks)[i] == t.id;
        }
      }
      m + 1
    }

    /** Appends a new, not yet done task with the next id. */
    method AddTask(text: string) returns (t: Task)
      requires Valid()
      modifies this
      ensures Valid()
      ensures fresh(t) && t.Info() == TaskInfo(old(NextId()), text, false)
      ensures forall v | v in old(tasks) :: v.id < t.id
      ensures tasks == old(tasks) + [t]
    {
      t := new Task(NextId(), text);
      tasks := tasks + [t];
    }

    /** Keeps exactly the tasks whose id differs, in their order. */
    method RemoveTask(id: int)
      requires Valid()
      modifies this
      ensures Valid()
      ensures tasks == WithoutId(old(tasks), id)
    {
      SubseqKeepsKeysDistinct(WithoutId(tasks, id), tasks, TaskId);
      tasks := WithoutId(tasks, id);
    }

    /** The first task with the id, or none. */
    function GetTask(id: int): (t: Task?)
      reads this
      ensures t == null <==> id !in IdsOf(tasks)
      ensures t != null ==> FirstIndex(IdsOf(tasks), id) < |tasks| && t == tasks[FirstIndex(IdsOf(tasks), id)]
      ensures t != null ==> t in tasks && t.id == id
    {
      var i := FirstIndex(IdsOf(tasks), id);
      if i < |tasks| then tasks[i] else null
    }

    function GetAllTasks(): seq<Task>
      reads this
    {
      tasks
    }

    function TotalCount(): nat
      reads this
    {
      |tasks|
    }

    /** How many tasks are done. */
    function CompletedCount(): (n: nat)
      reads this, tasks
      ensures n == |Completed(tasks)| && n <= TotalCount()
    {
      ActiveCompletedPartition(tasks);
      |Completed(tasks)|
    }

    /** How many tasks are not done: the total less the completed ones. */
    function RemainingCount(): (n: nat)
      reads this, tasks
      ensures n == |Active(tasks)| && n == TotalCount() - CompletedCount()
    {
      ActiveCompletedPartition(tasks);
      |Active(tasks)|
    }

    method ClearAll()
      modifies this
      ensures Valid() && tasks == []
    {
      tasks := [];
    }
  }
}

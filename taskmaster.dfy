/** The task store of the `App` component: the list of active tasks, the list
    of completed tasks and the text of the "new task" input, with the five
    handlers that change them. */
module TaskMaster {
  import opened Splice
  import opened Text
  import opened Tasks

  /** The droppable the active list is rendered in. */
  const ActiveDroppableId: string := "activeTasks"

  /** The two lists a task can be dragged from or dropped into. */
  datatype ListKind = Active | Completed

  /** The drag handler treats the active droppable as the active list and
      every other droppable as the completed list. */
  function KindOf(droppableId: string): (k: ListKind)
    ensures k == Active <==> droppableId == ActiveDroppableId
  {
    if droppableId == ActiveDroppableId then Active else Completed
  }

  /** A drag position as the drag-and-drop library reports it. */
  datatype DraggableLocation = DraggableLocation(droppableId: string, index: nat)

  /** The two task lists of the store. */
  datatype Board = Board(active: seq<Task>, completed: seq<Task>) {

    function List(k: ListKind): seq<Task>
    {
      if k == Active then active else completed
    }

    function WithList(k: ListKind, s: seq<Task>): Board
    {
      if k == Active then this.(active := s) else this.(completed := s)
    }

    /** The number of tasks on the board. */
    function Total(): nat
    {
      |active| + |completed|
    }

    /** Every task on the board, whichever list holds it. */
    function AllTasks(): multiset<Task>
    {
      multiset(active) + multiset(completed)
    }

    function AllIds(): set<string>
    {
      Ids(active) + Ids(completed)
    }
  }

  /** The store invariant: no identifier is duplicated within a list, and none
      is in both lists. */
  predicate Consistent(b: Board)
  {
    DistinctIds(b.active) && DistinctIds(b.completed) && Ids(b.active) !! Ids(b.completed)
  }

  // ---------------------------------------------------------------------
  // addTask, removeTask, editTask, completeTask: new lists from old ones
  // ---------------------------------------------------------------------

  /** addTask: blank input (after trimming) changes nothing; any other input
      becomes a new task, with the untrimmed text, at the end of the active
      list. */
  function WithTaskAdded(b: Board, text: string, freshId: string): (r: Board)
    ensures IsBlank(text) ==> r == b
    ensures !IsBlank(text) ==>
      && |r.active| == |b.active| + 1
      && r.active[..|b.active|] == b.active
      && r.active[|b.active|] == Task(freshId, text)
    ensures r.completed == b.completed
  {
    if Trim(text) == "" then b
    else b.(active := b.active + [Task(freshId, text)])
  }

  /** removeTask: the identifier is gone from both lists, every other task is
      kept in its list and relative order, and an absent identifier changes
      nothing. */
  function WithTaskRemoved(b: Board, id: string): (r: Board)
    ensures id !in r.AllIds()
    ensures r.AllIds() == b.AllIds() - {id}
    ensures forall t :: t in r.active <==> t in b.active && t.id != id
    ensures forall t :: t in r.completed <==> t in b.completed && t.id != id
    ensures IsSubsequence(r.active, b.active) && IsSubsequence(r.completed, b.completed)
    ensures id !in b.AllIds() ==> r == b
  {
    WithoutIds(b.active, id);
    WithoutIds(b.completed, id);
    WithoutMembers(b.active, id);
    WithoutMembers(b.completed, id);
    WithoutIsSubsequence(b.active, id);
    WithoutIsSubsequence(b.completed, id);
    Board(Without(b.active, id), Without(b.completed, id))
  }

  /** editTask: both lists keep their lengths and every identifier stays at its
      position; exactly the tasks with the identifier get the new description,
      whatever it is. */
  function WithTaskEdited(b: Board, id: string, d: string): (r: Board)
    ensures |r.active| == |b.active| && |r.completed| == |b.completed|
    ensures forall i | 0 <= i < |b.active| ::
      r.active[i].id == b.active[i].id &&
      r.active[i].desc == if b.active[i].id == id then d else b.active[i].desc
    ensures forall i | 0 <= i < |b.completed| ::
      r.completed[i].id == b.completed[i].id &&
      r.completed[i].desc == if b.completed[i].id == id then d else b.completed[i].desc
  {
    Board(Edited(b.active, id, d), Edited(b.completed, id, d))
  }

  /** completeTask: when the identifier is in the active list, the first such
      task goes to the end of the completed list and the identifier leaves the
      active list, whose other tasks keep their order; otherwise, even when
      the task is already completed, nothing changes. */
  function WithTaskCompleted(b: Board, id: string): (r: Board)
    ensures id !in Ids(b.active) ==> r == b
    ensures id in Ids(b.active) ==>
      && Find(b.active, id).Some?
      && r.completed == b.completed + [Find(b.active, id).value]
      && Find(b.active, id).value.id == id
      && id !in Ids(r.active)
      && IsSubsequence(r.active, b.active)
      && (forall t :: t in r.active <==> t in b.active && t.id != id)
  {
    WithoutIds(b.active, id);
    WithoutMembers(b.active, id);
    WithoutIsSubsequence(b.active, id);
    match Find(b.active, id)
    case None => b
    case Some(t) => Board(Without(b.active, id), b.completed + [t])
  }

  /** Under the store invariant a new task with a fresh identifier keeps it. */
  lemma AddKeepsConsistent(b: Board, text: string, freshId: string)
    requires Consistent(b) && freshId !in b.AllIds()
    ensures Consistent(WithTaskAdded(b, text, freshId))
    ensures WithTaskAdded(b, text, freshId).Total() == b.Total() + (if IsBlank(text) then 0 else 1)
  {
    var r := WithTaskAdded(b, text, freshId);
    if !IsBlank(text) {
      var t := Task(freshId, text);
      assert r.active == b.active + [t];
      assert Ids(r.active) == Ids(b.active) + {freshId} by {
        assert forall u :: u in r.active <==> u in b.active || u == t;
      }
      forall i, j | 0 <= i < j < |r.active| ensures r.active[i].id != r.active[j].id {
        assert r.active[i] == b.active[i] && r.active[i] in b.active;
        if j < |b.active| {
          assert r.active[j] == b.active[j];
        }
      }
    }
  }

  /** Under the store invariant removing a task keeps it, and removing a task
      that is there lowers the number of tasks by exactly one. */
  lemma RemoveKeepsConsistent(b: Board, id: string)
    requires Consistent(b)
    ensures Consistent(WithTaskRemoved(b, id))
    ensures WithTaskRemoved(b, id).Total() == b.Total() - (if id in b.AllIds() then 1 else 0)
  {
    WithoutKeepsDistinct(b.active, id);
    WithoutKeepsDistinct(b.completed, id);
    CountWhenDistinct(b.active, id);
    CountWhenDistinct(b.completed, id);
  }

  /** Editing keeps the store invariant and every identifier in its list. */
  lemma EditKeepsConsistent(b: Board, id: string, d: string)
    requires Consistent(b)
    ensures Consistent(WithTaskEdited(b, id, d))
    ensures WithTaskEdited(b, id, d).AllIds() == b.AllIds()
  {
    EditedKeepsIds(b.active, id, d);
    EditedKeepsIds(b.completed, id, d);
  }

  /** Under the store invariant completing a task keeps it, and keeps every
      task on the board. */
  lemma CompleteKeepsConsistent(b: Board, id: string)
    requires Consistent(b)
    ensures Consistent(WithTaskCompleted(b, id))
    ensures WithTaskCompleted(b, id).AllTasks() == b.AllTasks()
  {
    if id in Ids(b.active) {
      var k :| 0 <= k < |b.active| && b.active[k].id == id;
      CompleteIsDrop(b, k);
      DropKeepsConsistent(b, Active, k, Completed, |b.completed|);
      DroppedKeepsTasks(b, Active, k, Completed, |b.completed|);
    }
  }

  // ---------------------------------------------------------------------
  // onDragEnd: one removal and one insertion
  // ---------------------------------------------------------------------

  /** The indices under which both splices of the drag handler stay in range:
      the source index inside its list, the destination index at most the
      length of the destination list once the task has left it. */
  predicate InBounds(b: Board, from: ListKind, i: nat, to: ListKind, j: nat)
  {
    i < |b.List(from)| && j <= |b.List(to)| - (if from == to then 1 else 0)
  }

  /** The task at index `i` of list `from` is taken out and inserted into list
      `to`; it lands at index `j`, counted after the removal. */
  function Dropped(b: Board, from: ListKind, i: nat, to: ListKind, j: nat): (r: Board)
    requires InBounds(b, from, i, to, j)
    ensures j < |r.List(to)| && r.List(to)[j] == b.List(from)[i]
  {
    var x := b.List(from)[i];
    var removed := b.WithList(from, RemoveAt(b.List(from), i));
    InsertAtElements(removed.List(to), j, x);
    removed.WithList(to, InsertAt(removed.List(to), j, x))
  }

  /** A drag neither creates nor loses a task: the number of tasks and the
      multiset of tasks are kept. */
  lemma DroppedKeepsTasks(b: Board, from: ListKind, i: nat, to: ListKind, j: nat)
    requires InBounds(b, from, i, to, j)
    ensures Dropped(b, from, i, to, j).Total() == b.Total()
    ensures Dropped(b, from, i, to, j).AllTasks() == b.AllTasks()
  {
    var x := b.List(from)[i];
    var removed := b.WithList(from, RemoveAt(b.List(from), i));
    RemoveAtElements(b.List(from), i);
    LoseTask(b, from, RemoveAt(b.List(from), i), x);
    InsertAtElements(removed.List(to), j, x);
    GainTask(removed, to, InsertAt(removed.List(to), j, x), x);
  }

  /** A list that loses one task loses it from the board. */
  lemma LoseTask(b: Board, k: ListKind, s: seq<Task>, x: Task)
    requires multiset(s) + multiset{x} == multiset(b.List(k))
    ensures b.WithList(k, s).AllTasks() + multiset{x} == b.AllTasks()
    ensures b.WithList(k, s).Total() + 1 == b.Total()
  {
    assert |s| + 1 == |b.List(k)| by {
      assert |multiset(s) + multiset{x}| == |multiset(b.List(k))|;
    }
  }

  /** A list that gains one task adds it to the board. */
  lemma GainTask(b: Board, k: ListKind, s: seq<Task>, x: Task)
    requires multiset(s) == multiset(b.List(k)) + multiset{x}
    ensures b.WithList(k, s).AllTasks() == b.AllTasks() + multiset{x}
    ensures b.WithList(k, s).Total() == b.Total() + 1
  {
    assert |s| == |b.List(k)| + 1 by {
      assert |multiset(s)| == |multiset(b.List(k)) + multiset{x}|;
    }
  }

  /** Every other task keeps its relative order: taking the dragged task back
      out of the destination list gives the destination list as it was after
      the removal (the source list with the task removed for a reorder, the
      untouched destination list for a transfer), and the source list of a
      transfer is the old one without the task. */
  lemma DroppedKeepsOrder(b: Board, from: ListKind, i: nat, to: ListKind, j: nat)
    requires InBounds(b, from, i, to, j)
    ensures j < |Dropped(b, from, i, to, j).List(to)|
    ensures RemoveAt(Dropped(b, from, i, to, j).List(to), j) ==
            if from == to then RemoveAt(b.List(from), i) else b.List(to)
    ensures from != to ==> Dropped(b, from, i, to, j).List(from) == RemoveAt(b.List(from), i)
    ensures from == to ==>
            Dropped(b, from, i, to, j).List(if to == Active then Completed else Active) ==
            b.List(if to == Active then Completed else Active)
  {
    var x := b.List(from)[i];
    var removed := b.WithList(from, RemoveAt(b.List(from), i));
    RemoveAfterInsert(removed.List(to), j, x);
  }

  /** Dropping a task back where it was picked up changes nothing, so the
      handler's early return for that case is only a shortcut. */
  lemma DroppedInPlace(b: Board, k: ListKind, i: nat)
    requires InBounds(b, k, i, k, i)
    ensures Dropped(b, k, i, k, i) == b
  {
    InsertAfterRemove(b.List(k), i);
  }

  /** With distinct identifiers, removing the task at an index removes its
      identifier and nothing else, and keeps the identifiers distinct. */
  lemma RemoveAtIds(s: seq<Task>, i: nat)
    requires DistinctIds(s) && i < |s|
    ensures DistinctIds(RemoveAt(s, i))
    ensures Ids(RemoveAt(s, i)) == Ids(s) - {s[i].id}
  {
    WithoutIsRemoveAt(s, i);
    WithoutIds(s, s[i].id);
    WithoutKeepsDistinct(s, s[i].id);
  }

  /** Inserting a task whose identifier is not yet in the list adds that
      identifier and keeps the identifiers distinct. */
  lemma InsertAtIds(s: seq<Task>, j: nat, x: Task)
    requires DistinctIds(s) && j <= |s| && x.id !in Ids(s)
    ensures DistinctIds(InsertAt(s, j, x))
    ensures Ids(InsertAt(s, j, x)) == Ids(s) + {x.id}
  {
    var r := InsertAt(s, j, x);
    InsertAtElements(s, j, x);
    forall a, c | 0 <= a < c < |r| ensures r[a].id != r[c].id {
      if a == j {
        assert r[c] == s[c - 1] && s[c - 1] in s;
      } else if c == j {
        assert r[a] == s[a] && s[a] in s;
      } else {
        var a', c' := if a < j then a else a - 1, if c < j then c else c - 1;
        assert r[a] == s[a'] && r[c] == s[c'];
      }
    }
    forall y | y in Ids(r) ensures y in Ids(s) + {x.id} {
      var k :| 0 <= k < |r| && r[k].id == y;
      if k < j {
        assert r[k] == s[k] && s[k] in s;
      } else if k > j {
        assert r[k] == s[k - 1] && s[k - 1] in s;
      }
    }
    forall y | y in Ids(s) + {x.id} ensures y in Ids(r) {
      if y == x.id {
        assert r[j] in r;
      } else {
        var k :| 0 <= k < |s| && s[k].id == y;
        if k < j {
          assert r[k] == s[k] && r[k] in r;
        } else {
          assert r[k + 1] == s[k] && r[k + 1] in r;
        }
      }
    }
  }

  /** A drag keeps the store invariant. */
  lemma DropKeepsConsistent(b: Board, from: ListKind, i: nat, to: ListKind, j: nat)
    requires Consistent(b) && InBounds(b, from, i, to, j)
    ensures Consistent(Dropped(b, from, i, to, j))
  {
    var x := b.List(from)[i];
    var removed := b.WithList(from, RemoveAt(b.List(from), i));
    RemoveAtIds(b.List(from), i);
    assert x in b.List(from);
    assert Ids(removed.active) !! Ids(removed.completed);
    assert x.id !in Ids(removed.List(to));
    InsertAtIds(removed.List(to), j, x);
  }

  /** completeTask on a task of the active list is the drag of that task to
      the end of the completed list. */
  lemma CompleteIsDrop(b: Board, k: nat)
    requires Consistent(b) && k < |b.active|
    ensures InBounds(b, Active, k, Completed, |b.completed|)
    ensures WithTaskCompleted(b, b.active[k].id) == Dropped(b, Active, k, Completed, |b.completed|)
  {
    var x, c := b.active[k], b.completed;
    FindWhenDistinct(b.active, k);
    WithoutIsRemoveAt(b.active, k);
    assert WithTaskCompleted(b, x.id) == Board(RemoveAt(b.active, k), c + [x]);
    assert InsertAt(c, |c|, x) == c + [x] by {
      assert c[..|c|] == c && c[|c|..] == [];
    }
    var removed := b.WithList(Active, RemoveAt(b.active, k));
    assert removed == Board(RemoveAt(b.active, k), c);
    assert Dropped(b, Active, k, Completed, |c|) == Board(RemoveAt(b.active, k), InsertAt(c, |c|, x));
  }

  // ---------------------------------------------------------------------
  // The component's state and its handlers
  // ---------------------------------------------------------------------

  /** A drag that changes nothing: dropped outside any list, or dropped on the
      droppable and index it started from. */
  function IsCancelled(source: DraggableLocation, destination: Option<DraggableLocation>): (c: bool)
    ensures c <==> destination.None? || destination.value == source
    ensures c && destination.Some? ==>
      KindOf(destination.value.droppableId) == KindOf(source.droppableId)
  {
    || destination.None?
    || (destination.value.droppableId == source.droppableId && destination.value.index == source.index)
  }

  /** The state of the `App` component and its handlers. */
  class App {
    var tasks: seq<Task>
    var completedTasks: seq<Task>
    var newTaskText: string

    function Lists(): Board
      reads this
    {
      Board(tasks, completedTasks)
    }

    ghost predicate Valid()
      reads this
    {
      Consistent(Lists())
    }

    /** Both lists and the input start empty. */
    constructor ()
      ensures tasks == [] && completedTasks == [] && newTaskText == ""
      ensures Valid()
    {
      tasks, completedTasks, newTaskText := [], [], "";
    }

    /** addTask, with `freshId` standing for the identifier the handler
        generates; the input is cleared only when a task was added. */
    method AddTask(freshId: string)
      requires freshId !in Ids(tasks) && freshId !in Ids(completedTasks)
      modifies this
      ensures Lists() == WithTaskAdded(old(Lists()), old(newTaskText), freshId)
      ensures newTaskText == if IsBlank(old(newTaskText)) then old(newTaskText) else ""
      ensures old(Valid()) ==> Valid()
    {
      if Valid() {
        AddKeepsConsistent(Lists(), newTaskText, freshId);
      }
      if Trim(newTaskText) == "" {
        return;
      }
      var newTask := Task(freshId, newTaskText);
      tasks := tasks + [newTask];
      newTaskText := "";
    }

    /** removeTask: filter the identifier out of both lists. */
    method RemoveTask(taskId: string)
      modifies this
      ensures Lists() == WithTaskRemoved(old(Lists()), taskId)
      ensures newTaskText == old(newTaskText)
      ensures old(Valid()) ==> Valid()
      ensures old(Valid()) ==>
        |tasks| + |completedTasks| == old(|tasks| + |completedTasks|) - (if taskId in old(Lists().AllIds()) then 1 else 0)
    {
      if Valid() {
        RemoveKeepsConsistent(Lists(), taskId);
      }
      tasks := Without(tasks, taskId);
      completedTasks := Without(completedTasks, taskId);
    }

    /** editTask: rewrite the description of the task in either list. */
    method EditTask(taskId: string, newDesc: string)
      modifies this
      ensures Lists() == WithTaskEdited(old(Lists()), taskId, newDesc)
      ensures newTaskText == old(newTaskText)
      ensures old(Valid()) ==> Valid()
    {
      if Valid() {
        EditKeepsConsistent(Lists(), taskId, newDesc);
      }
      tasks := Edited(tasks, taskId, newDesc);
      completedTasks := Edited(completedTasks, taskId, newDesc);
    }

    /** completeTask: move the task found in the active list to the end of the
        completed list. */
    method CompleteTask(taskId: string)
      modifies this
      ensures Lists() == WithTaskCompleted(old(Lists()), taskId)
      ensures newTaskText == old(newTaskText)
      ensures old(Valid()) ==> Valid() && Lists().AllTasks() == old(Lists().AllTasks())
    {
      if Valid() {
        CompleteKeepsConsistent(Lists(), taskId);
      }
      var taskToComplete := Find(tasks, taskId);
      if taskToComplete.Some? {
        completedTasks := completedTasks + [taskToComplete.value];
        tasks := Without(tasks, taskId);
      }
    }

    /** onDragEnd: a cancelled drag changes nothing; otherwise the task is
        spliced out of its source list and into its destination list. */
    method OnDragEnd(source: DraggableLocation, destination: Option<DraggableLocation>)
      requires !IsCancelled(source, destination) ==>
        InBounds(Lists(), KindOf(source.droppableId), source.index,
                 KindOf(destination.value.droppableId), destination.value.index)
      modifies this
      ensures IsCancelled(source, destination) ==> Lists() == old(Lists())
      ensures !IsCancelled(source, destination) ==>
        Lists() == Dropped(old(Lists()), KindOf(source.droppableId), source.index,
                           KindOf(destination.value.droppableId), destination.value.index)
      ensures newTaskText == old(newTaskText)
      ensures old(Valid()) ==> Valid()
      ensures Lists().AllTasks() == old(Lists().AllTasks())
    {
      if destination.None? {
        return;
      }
      var dest := destination.value;
      if dest.droppableId == source.droppableId && dest.index == source.index {
        return;
      }
      ghost var from, to := KindOf(source.droppableId), KindOf(dest.droppableId);
      ghost var before := Lists();
      ghost var after := Dropped(before, from, source.index, to, dest.index);
      assert after.AllTasks() == before.AllTasks() by {
        DroppedKeepsTasks(before, from, source.index, to, dest.index);
      }
      assert Consistent(before) ==> Consistent(after) by {
        if Consistent(before) {
          DropKeepsConsistent(before, from, source.index, to, dest.index);
        }
      }

      var add: Task;
      var active := tasks;
      var complete := completedTasks;
      if source.droppableId == ActiveDroppableId {
        add := active[source.index];
        active := RemoveAt(active, source.index);
      } else {
        add := complete[source.index];
        complete := RemoveAt(complete, source.index);
      }
      ghost var removed := before.WithList(from, RemoveAt(before.List(from), source.index));
      assert add == before.List(from)[source.index];
      assert Board(active, complete) == removed;
      if dest.droppableId == ActiveDroppableId {
        active := InsertAt(active, dest.index, add);
      } else {
        complete := InsertAt(complete, dest.index, add);
      }
      assert Board(active, complete) == after;
      completedTasks := complete;
      tasks := active;
      assert Lists() == after;
    }
  }

  /** The lifecycle of one task: added, completed, edited, removed. */
  method LifecycleScenario()
  {
    var app := new App();
    app.newTaskText := "buy milk";
    app.AddTask("t1");
    assert app.tasks == [Task("t1", "buy milk")] && app.completedTasks == [];
    app.CompleteTask("t1");
    assert app.tasks == [] && app.completedTasks == [Task("t1", "buy milk")];
    app.EditTask("t1", "buy oat milk");
    assert app.completedTasks == [Task("t1", "buy oat milk")];
    app.RemoveTask("t1");
    assert app.tasks == [] && app.completedTasks == [];
  }
}

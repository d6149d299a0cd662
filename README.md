# TaskMaster task store in Dafny

TaskMaster is a single-page task list written with React. Its `App` component
(`src/App.tsx`) holds three pieces of state: the list of active tasks, the
list of completed tasks, and the text of the "new task" input. It has five
handlers that change this state:

- `addTask` appends a task built from the input, unless the trimmed input is empty.
- `removeTask` filters a task identifier out of both lists.
- `editTask` rewrites the description of the tasks that carry an identifier.
- `completeTask` moves the first active task with an identifier to the end of the completed list.
- `onDragEnd` splices a dragged task out of its source list and into its destination list.

This project models that store and proves properties about it. It has four modules:

- `Splice` holds the two uses of `Array.prototype.splice`: removing one element and inserting one.
- `Text` holds `String.prototype.trim`, with the exact set of code points JavaScript strips.
- `Tasks` holds the task record and the `filter`, `map` and `find` calls the handlers build their lists with.
- `TaskMaster` holds the board of two lists, one pure function per list-building handler, and the class `App`.

The four list-building handlers are pure functions over sequences (`WithTaskAdded`,
`WithTaskRemoved`, `WithTaskEdited`, `WithTaskCompleted`). The `App` methods assign
the fields from them, as the React setters do. The drag handler works by splicing in
place, so `App.OnDragEnd` is an imperative method. It is proved against the
specification function `Dropped`.

The store invariant is `Consistent`: no identifier occurs twice within a list, and
none occurs in both lists. Every handler keeps it. The identifier generator
(`uuidv4`) becomes a parameter `freshId` of `App.AddTask`, which must be fresh.

Three details of the code that the model keeps as written:

- `removeTask` and `editTask` act on every record that carries the identifier. `completeTask` appends only the first one it finds. Under the store invariant there is at most one such record.
- On blank input `addTask` returns before clearing the input. The new task keeps the untrimmed text.
- The drag handler compares droppable identifiers as strings. Any droppable other than `"activeTasks"` counts as the completed list.

## Model

| member | source | states |
|---|---|---|
| Splice.RemoveAt | src/App.tsx:72 | `splice(i, 1)` shortens the list by one |
| Splice.RemoveAtElements | src/App.tsx:72 | after `splice(i, 1)`, the elements before `i` stay in place, later ones shift down by one, and one occurrence of the removed element is gone from the multiset |
| Splice.InsertAt | src/App.tsx:79 | `splice(j, 0, x)` lengthens the list by one |
| Splice.InsertAtElements | src/App.tsx:79 | after `splice(j, 0, x)`, `x` is at index `j`, earlier elements stay in place, later ones shift up by one, and the multiset gains `x` |
| Splice.RemoveAfterInsert | src/App.tsx:79 | removing at the index just inserted at restores the list |
| Splice.InsertAfterRemove | src/App.tsx:72 | re-inserting a removed element at its index restores the list |
| Text.Leading | src/App.tsx:13 | counts the run of whitespace and line terminators the string starts with: all of them are trimmable and the next one is not |
| Text.Trailing | src/App.tsx:13 | the same for the run the string ends with |
| Text.Trim | src/App.tsx:13 | `trim()` returns the infix between a trimmable prefix and a trimmable suffix. The infix neither starts nor ends with a trimmable code point, and it is empty iff every code point is trimmable |
| Text.TrimIdempotent | src/App.tsx:13 | trimming twice is trimming once |
| Text.IsBlank | src/App.tsx:13 | `trim() === ""` holds exactly when every code point is trimmable |
| Text.BlankIffAllTrimmable | src/App.tsx:13-15 | the emptiness test rejects exactly the strings made only of whitespace and line terminators |
| Tasks.Without | src/App.tsx:27-29 | `filter` drops one record per record with the identifier, and changes nothing when no record has it |
| Tasks.WithoutMembers | src/App.tsx:27-29 | the filtered list keeps exactly the records whose identifier differs |
| Tasks.WithoutIsSubsequence | src/App.tsx:27-29 | the filtered list keeps the relative order of the records it keeps |
| Tasks.WithoutIds | src/App.tsx:27-29 | the filtered list's identifiers are the old ones minus the removed one |
| Tasks.WithoutKeepsDistinct | src/App.tsx:27-29 | filtering keeps identifiers distinct |
| Tasks.WithoutConcat | src/App.tsx:27-29 | filtering distributes over concatenation |
| Tasks.CountWhenDistinct | src/App.tsx:27-29 | with distinct identifiers, the filter drops at most one record |
| Tasks.WithoutSingle | src/App.tsx:27-29 | filtering out the identifier of a record that occurs once removes just that record |
| Tasks.WithoutIsRemoveAt | src/App.tsx:50 | with distinct identifiers, filtering by the identifier at index `k` is removing index `k` |
| Tasks.Edited | src/App.tsx:34-43 | `map` keeps every position and identifier, and gives the new description to exactly the records with the identifier |
| Tasks.EditedKeepsIds | src/App.tsx:34-43 | the edit keeps the identifier set and distinctness, and is the identity when the identifier is absent |
| Tasks.EditedLastWins | src/App.tsx:34-43 | a second edit of the same identifier overrides the first |
| Tasks.EditedWithoutCommute | src/App.tsx:26-43 | editing one identifier and removing another commute |
| Tasks.Find | src/App.tsx:47 | `find` returns nothing iff no record has the identifier; otherwise it returns a record of the list that has it |
| Tasks.FindFirst | src/App.tsx:47 | `find` returns the first record with the identifier |
| Tasks.FindWhenDistinct | src/App.tsx:47 | with distinct identifiers, `find` returns the record at the index where the identifier occurs |
| TaskMaster.WithTaskAdded | src/App.tsx:12-22 | blank input leaves the board unchanged. Otherwise the active list grows by one, keeps its prefix, and ends with a task holding the fresh id and the untrimmed text. The completed list is untouched |
| TaskMaster.AddKeepsConsistent | src/App.tsx:12-22 | a fresh identifier keeps the invariant, and the task count grows by one exactly when the input is not blank |
| TaskMaster.WithTaskRemoved | src/App.tsx:26-31 | the identifier is gone from both lists, and every other task stays in its list in order. An absent identifier changes nothing |
| TaskMaster.RemoveKeepsConsistent | src/App.tsx:26-31 | removal keeps the invariant and lowers the task count by one exactly when the identifier was present |
| TaskMaster.WithTaskEdited | src/App.tsx:33-44 | both lists keep their length and identifiers at every position. Exactly the tasks with the identifier get the new description |
| TaskMaster.EditKeepsConsistent | src/App.tsx:33-44 | editing keeps the invariant and the identifier set |
| TaskMaster.WithTaskCompleted | src/App.tsx:46-52 | if the identifier is not in the active list (even if it is completed), nothing changes. Otherwise the first matching active task is appended to the completed list and the identifier leaves the active list, whose other tasks keep their order |
| TaskMaster.CompleteKeepsConsistent | src/App.tsx:46-52 | completing keeps the invariant and the multiset of tasks on the board |
| TaskMaster.CompleteIsDrop | src/App.tsx:46-52 | under the invariant, completing the task at index `k` is dragging it to the end of the completed list |
| TaskMaster.KindOf | src/App.tsx:70-78 | `"activeTasks"` is the active list; any other droppable is the completed list |
| TaskMaster.IsCancelled | src/App.tsx:57-64 | a drag is cancelled exactly when it has no destination or ends at the droppable and index it started from; such a drag stays within one list |
| TaskMaster.Dropped | src/App.tsx:66-82 | the task at index `i` of list `from` is spliced out and then spliced into list `to`, where it lands at index `j`, counted after the removal |
| TaskMaster.DroppedKeepsTasks | src/App.tsx:66-82 | a drag keeps the number and the multiset of tasks |
| TaskMaster.LoseTask | src/App.tsx:71-75 | a list losing one task removes that task from the board |
| TaskMaster.GainTask | src/App.tsx:79-81 | a list gaining one task adds that task to the board |
| TaskMaster.DroppedKeepsOrder | src/App.tsx:66-82 | every other task keeps its relative order. For a transfer, the source list loses only the task and the destination list gains only the task. For a reorder, the other list is untouched |
| TaskMaster.DroppedInPlace | src/App.tsx:59-64 | dropping a task where it was picked up changes nothing |
| TaskMaster.RemoveAtIds | src/App.tsx:72-75 | removing at an index keeps identifiers distinct and drops just that identifier |
| TaskMaster.InsertAtIds | src/App.tsx:79-81 | inserting a task with a new identifier keeps identifiers distinct and adds just that identifier |
| TaskMaster.DropKeepsConsistent | src/App.tsx:66-85 | a drag keeps the invariant |
| TaskMaster.App.constructor | src/App.tsx:8-10 | both lists and the input start empty, and the invariant holds |
| TaskMaster.App.AddTask | src/App.tsx:12-24 | the lists become `WithTaskAdded` of the old ones. The input is cleared only when a task was added. The invariant is kept |
| TaskMaster.App.RemoveTask | src/App.tsx:26-31 | the lists become `WithTaskRemoved` of the old ones, the invariant is kept, and the count drops by one when the task was present |
| TaskMaster.App.EditTask | src/App.tsx:33-44 | the lists become `WithTaskEdited` of the old ones, and the invariant is kept |
| TaskMaster.App.CompleteTask | src/App.tsx:46-52 | the lists become `WithTaskCompleted` of the old ones, and the invariant and the multiset of tasks are kept |
| TaskMaster.App.OnDragEnd | src/App.tsx:54-86 | a drop outside a list, or at the position it started from, changes nothing. Otherwise the lists become `Dropped` of the old ones. The input text, the invariant and the multiset of tasks are kept |

## Left out

- Rendering: the JSX of `App` and the whole of `src/TaskList.tsx` (inline editing, buttons, draggable items) only display state and call the handlers. The input's `onChange` wiring is reduced to assigning `App.newTaskText`.
- `uuidv4` is a source of randomness. It becomes the `freshId` parameter of `App.AddTask`, which is required to be in neither list; that is what a version-4 UUID is relied on for.
- The drag-and-drop library: `DropResult` is reduced to its `source` and optional `destination`, each a droppable identifier and an index.
- React's state semantics are not modelled: setter batching, updater functions running later, and `completeTask` reading `tasks` from a possibly stale closure. Each handler runs on the current state and assigns the new lists at once.
- TaskMaster.App.OnDragEnd: in the source, the splices mutate the very arrays held in state, and the setters are handed the same references. The model splices local copies and writes them back, so it captures the new contents but not the aliasing, nor whether React re-renders for an unchanged reference.
- TaskMaster.App.OnDragEnd: requires in-range indices, which the drag library supplies, so two out-of-range cases of the source are not modelled:
  - a source index past the end of its list: `add` is `undefined`, `splice(source.index, 1)` deletes nothing, and the insertion then puts `undefined` into the destination list;
  - a destination index past the end: `splice(destination.index, 0, add)` clamps the index to the list's length and appends the dragged task.

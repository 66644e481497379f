# Kanban board mutation engine, verified in Dafny

This project models the state transitions of a Trello-like board page. A
project holds ordered columns, and a column holds ordered tasks; every
column and task points back at its owner through `projectId` and
`columnId`. The page's handlers turn one user gesture into the next list
of projects:

- the drag-end handler covers four outcomes: released nowhere, dropped on
  the delete zone, reordered within one list, or moved between two columns;
- adding a column and adding a task;
- editing a task;
- deleting a column from its button, and confirming a pending deletion.

The records become datatypes (module `Types`), with the string unions as
enumerations and name/parse round trips. JavaScript's `trim` and `splice`
are modelled exactly (modules `JsString`, `JsArray`). `splice(j, 0, x)`
clamps a start past the end to the length, so a destination index is never
out of range. `findIndex`/`find` take the first match, while
`map(p => p.id === sel ? … : p)` rewrites every match.

The four expression-style handlers are functions over `seq<Project>`
(module `Edits`). The two handlers that copy and splice step by step are
methods of the class `Page.Home`, which holds the page state. Each method
is proved equal to a specification function: `Drag.ApplyDrop` for the
drag-end handler and `Edits.ApplyDelete` for the confirmation.

The board invariant `Board.BoardWellFormed` says:

- project ids are distinct;
- column ids are distinct within a project;
- task ids are distinct within a project, counted as a multiset of ids;
- every column and task carries its owner's id.

Every handler keeps this invariant, given fresh ids for new items and, for
an edit, a task of the selected project. Module `Scenarios` replays gestures
on the board the page starts with.

The selected project must exist wherever a handler indexes it. That is the
page's `find(...)!` and its `findIndex` result, which is used without a
check. A drag's source index must name an item of the list it comes from;
the drag library guarantees this.

## Model

| member | source | states |
|---|---|---|
| Types.ParsePriority | src/types/index.ts:29 | a priority name is accepted exactly when it is `low`, `medium` or `high` |
| Types.PriorityRoundTrip | src/types/index.ts:29 | parsing a string gives priority p exactly when the string is p's name |
| Types.ParseStatus | src/types/index.ts:30 | a status name is accepted exactly when it is `todo`, `in_progress` or `done` |
| Types.StatusRoundTrip | src/types/index.ts:30 | parsing a string gives status s exactly when the string is s's name |
| Types.ParseAttachmentType | src/types/index.ts:11 | an attachment type is accepted exactly when it is `image`, `file` or `link` |
| Types.AttachmentTypeRoundTrip | src/types/index.ts:11 | parsing a string gives attachment type a exactly when the string is a's name |
| JsString.TrimStart | src/app/page.tsx:159 | the result is a suffix of the input that does not start with whitespace, and what it drops is all whitespace |
| JsString.TrimEnd | src/app/page.tsx:159 | the result is a prefix of the input that does not end with whitespace, and what it drops is all whitespace |
| JsString.Trim | src/app/page.tsx:159 | `trim()`: TrimStart then TrimEnd; no contract of its own, its behaviour is stated by TrimIsInfix, TrimHasNoOuterWhitespace, TrimEmptyIffBlank and TrimIdempotent |
| JsString.TrimIsInfix | src/app/page.tsx:162 | the trimmed title is the input minus a blank prefix and a blank suffix |
| JsString.TrimHasNoOuterWhitespace | src/app/page.tsx:162 | the trimmed title starts and ends with a character that is not whitespace |
| JsString.TrimEmptyIffBlank | src/app/page.tsx:159 | the trimmed title is empty (falsy) exactly when every character is whitespace |
| JsString.TrimIdempotent | src/app/page.tsx:162 | trimming an already trimmed title changes nothing |
| JsArray.RemoveAt | src/app/page.tsx:121 | `splice(i, 1)` shortens the list by one and shifts the later items down |
| JsArray.RemoveAtMultiset | src/app/page.tsx:121 | `splice(i, 1)` loses exactly the removed item |
| JsArray.InsertAt | src/app/page.tsx:122 | `splice(j, 0, x)` puts x at j clamped to the length and shifts the later items up |
| JsArray.InsertAtMultiset | src/app/page.tsx:122 | `splice(j, 0, x)` gains exactly x |
| JsArray.Reorder | src/app/page.tsx:120-122 | removing then reinserting keeps the length and the multiset of items, and the moved item lands at the destination index, clamped |
| JsArray.ReorderAt | src/app/page.tsx:121-122 | each position of the reordered list holds the old item at its source position: the moved item, a neighbour shifted by one, or the item already there |
| JsArray.ReorderSourceInjective | src/app/page.tsx:121-122 | different positions draw on different old positions, so no item is duplicated |
| JsArray.ReorderSameIndex | src/app/page.tsx:109-114 | splicing out and back in at the same index gives the list back |
| JsArray.ReorderInverse | src/app/page.tsx:121-122 | dragging the item back from where it landed restores the list |
| JsArray.ReorderRotates | src/app/page.tsx:119-123 | moving index 0 to index 2 of [c1, c2, c3] gives [c2, c3, c1] |
| JsArray.FirstIndex | src/app/page.tsx:117 | `findIndex` gives the first index whose key matches, or -1 when none does |
| Board.ProjectIndex | src/app/page.tsx:117 | the first project with the selected id, or -1 when there is none |
| Board.SelectedProject | src/app/page.tsx:95 | the selected project carries the selected id, is one of the projects, and no earlier project carries that id: it is the first match, as `find` returns |
| Board.ColumnIndex | src/app/page.tsx:125-126 | the first column with a droppable's id, or -1 |
| Board.FindColumn | src/app/page.tsx:125-126 | `find` yields a column exactly when one has the id, and then it is the first such column |
| Board.TaskIdsAround | src/app/page.tsx:135-137 | a board's task ids are those of one column plus those of all the others |
| Board.TaskIdsUpdate | src/app/page.tsx:135-137 | replacing one column swaps that column's task ids for the new column's ids in the project's bag of task ids |
| Board.TaskIdsTransfer | src/app/page.tsx:143-147 | moving one task id from one column's bag to another's keeps the project's bag of task ids |
| Board.IdBagReorder | src/app/page.tsx:130-133 | reordering a column's tasks keeps their ids |
| Board.TaskIdsReorder | src/app/page.tsx:119-123 | reordering a project's columns keeps the ids of its tasks |
| Board.ProjectWellFormedAfter | src/types/index.ts:44-50 | new columns that carry the owner's id, have distinct ids and use no new task ids keep a project well formed |
| Board.BoardWellFormedStep | src/types/index.ts:52-59 | a change that keeps every project id and keeps each project well formed keeps the board well formed |
| Board.ReorderKeepsColumnIdsDistinct | src/app/page.tsx:119-123 | reordering columns keeps their ids distinct |
| Board.ColumnTasksDistinct | src/types/index.ts:44-50 | distinct task ids across a project's columns make each column's task ids distinct |
| Board.FoundColumnIsUnique | src/app/page.tsx:125-126 | with distinct column ids, the found column is the only one with its id |
| Drag.ApplyDrop | src/app/page.tsx:97-152 | the projects after a drop: as many as before, each with its id; the rest is stated by DropChangesOnlySelectedColumns, DropWithoutMoveIsNoop, ColumnDragReorders, SameColumnDragReorders, CrossColumnMove, MissingColumnIsNoop and DropKeepsBoardWellFormed |
| Drag.DropColumns | src/app/page.tsx:119-149 | the selected project's columns after a drop that moves something keep their number; which column changes how is stated by ColumnDragReorders, SameColumnDragReorders, CrossColumnMove and MissingColumnIsNoop |
| Drag.ReplaceColumn | src/app/page.tsx:135-137 | the map-replace by id keeps the number of columns; with distinct ids ReplaceColumnIsUpdate states it is one index update |
| Drag.MovedTask | src/app/page.tsx:142 | `{ ...removed, columnId: destColumn.id }`; no contract of its own, CrossColumnMove and DestColumnStaysWellFormed state what it contributes |
| Drag.MoveTaskColumns | src/app/page.tsx:139-147 | the two-way map keeps the number of columns; MoveTaskColumnsIsUpdate and CrossColumnMove state which columns change |
| Drag.DropChangesOnlySelectedColumns | src/app/page.tsx:116-151 | every drop changes at most the selected project's columns: the other projects and the selected project's other fields stay |
| Drag.DropWithoutMoveIsNoop | src/app/page.tsx:100-114 | no destination, the delete zone, or a drop where the drag started leaves the projects unchanged |
| Drag.InPlaceSpliceIsIdentity | src/app/page.tsx:109-114 | with distinct column ids, the early return for an in-place drop loses nothing: splicing there would also give the same columns (with a duplicated column id the map-replace would overwrite the later column) |
| Drag.ColumnDragReorders | src/app/page.tsx:119-123 | a column drag changes only the selected project's column list; that list keeps its length and multiset, the dragged column lands at the destination, and every other position is a shifted neighbour |
| Drag.ReplaceColumnIsUpdate | src/app/page.tsx:135-137 | with distinct ids, the map-replace by id updates exactly the found column |
| Drag.SameColumnDragReorders | src/app/page.tsx:130-137 | a same-column task drag reorders only that column's tasks; the task list keeps its multiset, the task lands at the destination, and the project's task ids are unchanged |
| Drag.MoveTaskColumnsIsUpdate | src/app/page.tsx:143-147 | with distinct ids, the two-way map rewrites exactly the source and destination columns |
| Drag.CrossColumnMove | src/app/page.tsx:138-147 | the source column loses exactly the task at the source index; the destination gains it at the destination index with columnId set to the destination's id; all other columns are unchanged |
| Drag.CrossColumnMoveKeepsTasks | src/app/page.tsx:138-147 | a move between columns keeps the project's task ids and task count |
| Drag.MissingColumnIsNoop | src/app/page.tsx:125-128 | a task drag naming a column the project lacks changes nothing |
| Drag.ColumnDragKeepsProjectWellFormed | src/app/page.tsx:119-123 | a column drag keeps the project well formed |
| Drag.SameColumnDragKeepsProjectWellFormed | src/app/page.tsx:130-137 | a same-column task drag keeps the project well formed |
| Drag.SourceColumnStaysWellFormed | src/app/page.tsx:139-140 | the source column without the moved task stays well formed |
| Drag.DestColumnStaysWellFormed | src/app/page.tsx:141-142 | the destination column with the re-owned task stays well formed |
| Drag.CrossColumnMoveKeepsProjectWellFormed | src/app/page.tsx:138-147 | a move between columns keeps the project well formed, back-references included |
| Drag.DropKeepsBoardWellFormed | src/app/page.tsx:97-152 | every outcome of the drag-end handler keeps the board well formed |
| Edits.AddNewColumn | src/app/page.tsx:158-175 | a blank title changes nothing; otherwise only projects with the selected id change, and the project ids stay the same |
| Edits.AppendColumn | src/app/page.tsx:167-171 | only projects with the selected id are touched |
| Edits.AddNewColumnAppends | src/app/page.tsx:159-171 | a non-blank title appends exactly one column with the fresh id, the trimmed title, no tasks, the selected project id and order equal to the previous column count |
| Edits.AddNewColumnOrderIsPosition | src/app/page.tsx:165 | on a well-formed board the new column's order is its index |
| Edits.AppendColumnKeepsProjectWellFormed | src/app/page.tsx:160-169 | an empty, owned column with an unused id keeps a project well formed |
| Edits.AddNewColumnKeepsWellFormed | src/app/page.tsx:158-175 | adding a column with an unused id keeps the board well formed |
| Edits.NewTask | src/app/page.tsx:179-194 | the task the form creates; no contract of its own, AddNewTaskAppends states every field of it |
| Edits.AcceptsNewTask | src/app/page.tsx:178 | the form's guard; no contract of its own, AddNewTask states that a rejected form changes nothing and AddNewTaskAppends what an accepted one does |
| Edits.AppendTask | src/app/page.tsx:199-203 | the map-append by column id keeps the number of columns; AppendTaskIsUpdate, AppendTaskAddsOneId and AddNewTaskAppends state what changes |
| Edits.AddNewTask | src/app/page.tsx:177-211 | a blank title or no column chosen changes nothing; otherwise only projects with the selected id change |
| Edits.AddNewTaskAppends | src/app/page.tsx:178-206 | an accepted task goes at the end of each column with the chosen id, with the trimmed title, priority medium, status todo, order 0, empty tags, attachments and comments, no due date or assignee, reporter "Current User", and the given ids and timestamps; other columns are unchanged |
| Edits.AddNewTaskUnknownColumnIsNoop | src/app/page.tsx:199-203 | a chosen column id that matches no column changes nothing |
| Edits.AppendTaskIsUpdate | src/app/page.tsx:199-203 | with distinct column ids, the map-append by id updates exactly the column with that id |
| Edits.TaskIdsAppendOne | src/app/page.tsx:201 | appending a task to one column adds exactly its id to the board's task ids |
| Edits.AppendTaskAddsOneId | src/app/page.tsx:199-203 | appending to the one column with the id adds exactly the new task id and one to the task count |
| Edits.AppendTaskKeepsProjectWellFormed | src/app/page.tsx:179-203 | appending an owned task with an unused id keeps a project well formed |
| Edits.AddNewTaskKeepsWellFormed | src/app/page.tsx:177-211 | adding a task with an id unused in the selected project keeps the board well formed |
| Edits.ReplaceTask | src/app/page.tsx:228 | the map-replace by task id keeps the list's length; ReplaceTaskKeepsIds and UpdateTaskReplacesOnlyMatch state what it replaces |
| Edits.ReplaceTaskKeepsIds | src/app/page.tsx:228 | replacing tasks by id keeps the column's bag of task ids |
| Edits.UpdateTaskInColumns | src/app/page.tsx:226-230 | only the column named by the edited task's column id is searched, and the number of columns is kept; UpdateTaskReplacesOnlyMatch states the rest |
| Edits.UpdateTask | src/app/page.tsx:221-233 | only projects with the selected id change, and the project ids stay the same |
| Edits.UpdateTaskReplacesOnlyMatch | src/app/page.tsx:222-233 | a task is replaced by the edited one exactly when it has the edited id and sits in the selected project's column named by the edited task's columnId; everything else is unchanged |
| Edits.UpdateTaskNoMatchIsNoop | src/app/page.tsx:222-233 | without a matching task nothing changes |
| Edits.UpdateTaskKeepsWellFormed | src/app/page.tsx:221-235 | saving a task of the selected project keeps the board well formed |
| Edits.WithoutColumn | src/app/page.tsx:216 | `filter(col => col.id !== id)`, used also at page.tsx:244; its behaviour is stated by WithoutColumnMembers, WithoutColumnConcat, WithoutColumnRemovesOne and WithoutColumnTaskIds |
| Edits.WithoutColumnMembers | src/app/page.tsx:216 | the filter keeps exactly the columns whose id differs |
| Edits.WithoutColumnConcat | src/app/page.tsx:216 | filtering a concatenation filters each part, so the kept columns stay in their order |
| Edits.WithoutColumnKeepsAll | src/app/page.tsx:216 | a list without a column of that id passes the filter unchanged |
| Edits.WithoutColumnTaskIds | src/app/page.tsx:216 | the filter adds no task id |
| Edits.WithoutColumnKeepsDistinct | src/app/page.tsx:216 | the filter keeps column ids distinct |
| Edits.WithoutTaskId | src/app/page.tsx:248 | the filter keeps exactly the tasks whose id differs; their order is given by WithoutTaskIdConcat and WithoutTaskIdRemovesOne |
| Edits.WithoutTaskIdBag | src/app/page.tsx:248 | the filter removes every copy of the id from the list's ids and keeps every other id as often as before |
| Edits.WithoutTaskIdConcat | src/app/page.tsx:248 | filtering a concatenation filters each part, so the kept tasks stay in their order |
| Edits.WithoutTaskIdKeepsAll | src/app/page.tsx:248 | a list without a task of that id passes the filter unchanged |
| Edits.WithoutTaskIdAround | src/app/page.tsx:248 | filtering out the id that only one task carries removes that task and keeps the rest in order |
| Edits.WithoutTaskIdRemovesOne | src/app/page.tsx:248 | with distinct task ids, filtering out the id of task k gives the list without position k |
| Edits.WithoutTask | src/app/page.tsx:246-249 | every column keeps its fields, and its tasks pass through WithoutTaskId; DeleteTaskRemovesIt and DeleteTaskKeepsOrder state the result |
| Edits.DeleteColumn | src/app/page.tsx:213-219 | only projects with the selected id change, and the project ids stay the same |
| Edits.DeleteColumnRemovesExactly | src/app/page.tsx:214-217 | in each project with the selected id exactly the columns with the deleted id go, and nothing else about the project changes |
| Edits.WithoutColumnAround | src/app/page.tsx:216 | filtering out the id that only one column carries removes that column and keeps the rest in order |
| Edits.WithoutColumnRemovesOne | src/app/page.tsx:216 | with distinct ids, deleting a column's id removes that column alone |
| Edits.WithoutColumnDropsItsTasks | src/app/page.tsx:216 | the deleted column's tasks go with it: exactly their ids leave the project |
| Edits.WithoutColumnLeavesNoOrphan | src/app/page.tsx:216 | in a well-formed project no remaining task points at the deleted column |
| Edits.WithoutColumnKeepsProjectWellFormed | src/app/page.tsx:244 | deleting columns keeps a project well formed |
| Edits.DeleteColumnKeepsWellFormed | src/app/page.tsx:213-219 | the column delete button keeps the board well formed |
| Edits.ApplyDelete | src/app/page.tsx:237-255 | the projects after a confirmed deletion: as many as before, each with its id; what each kind of deletion does is stated by DeleteTaskRemovesIt, DeleteTaskKeepsOrder, DeleteOtherKindIsNoop and ApplyDeleteKeepsWellFormed, and the column filter by the WithoutColumn lemmas |
| Edits.DeleteTaskRemovesIt | src/app/page.tsx:245-250 | a confirmed task deletion removes that id from every column of the selected project and keeps every other task, column and project |
| Edits.DeleteTaskKeepsOrder | src/app/page.tsx:245-250 | on a well-formed board each column of the selected project either loses exactly the position holding the deleted task, keeping the rest in order, or is unchanged when it does not hold it |
| Edits.DeleteOtherKindIsNoop | src/app/page.tsx:243-250 | a pending item of another kind deletes nothing |
| Edits.WithoutTaskKeepsProjectWellFormed | src/app/page.tsx:246-249 | filtering a task id out of every column keeps a project well formed |
| Edits.ApplyDeleteKeepsWellFormed | src/app/page.tsx:237-255 | every confirmed deletion keeps the board well formed |
| Page.Home.constructor | src/app/page.tsx:84-93 | the page starts on its initial projects with the first project selected and nothing pending; a well-formed initial board gives a valid page state |
| Page.Home.HandleDragEnd | src/app/page.tsx:97-152 | the projects become ApplyDrop's result; a delete-zone drop records the kind and draggable id and opens the confirmation, other drops leave those alone; the selected project stays and the invariant is kept |
| Page.Home.HandleDelete | src/app/page.tsx:237-255 | nothing pending is a no-op; otherwise the projects become ApplyDelete's result, the confirmation closes and the pending item is cleared; the invariant is kept |
| Scenarios.InitialProjects | src/app/page.tsx:18-81 | the initial board is one project "1" with three columns |
| Scenarios.InitialProjectsWellFormed | src/app/page.tsx:18-81 | the initial board is well formed and its project exists |
| Scenarios.MoveTask1ToInProgress | src/app/page.tsx:138-147 | dragging task1 to the top of col2 leaves [task2] in col1 and task1, re-owned by col2, in col2 |
| Scenarios.DragFirstColumnToEnd | src/app/page.tsx:119-123 | dragging the first column to index 2 rotates the columns |
| Scenarios.DeleteTask2 | src/app/page.tsx:245-250 | confirming deletion of task2 leaves [task1] in col1 |
| Scenarios.BlankColumnTitleIsIgnored | src/app/page.tsx:159 | a title of spaces adds no column |

## Left out

- React plumbing is not modelled. This covers `useState` setters and re-rendering, the new-column and new-task dialogs and their form fields (which the add handlers clear on success), `selectedTask` (set by the edit handler and by a task click), and project selection. The add, edit and column-delete handlers are modelled by their effect on the projects alone.
- `uuidv4()` and `new Date().toISOString()` are parameters: a fresh id, and one timestamp per clock read. Freshness of an id is an assumption of the well-formedness lemmas only.
- The drag library `@hello-pangea/dnd` is not modelled; its drop result is an input record. Its guarantee that the source index names an existing item is the precondition `Drag.SourceInRange`. `splice` with a destination past the end appends, as JavaScript does, so no destination bound is assumed.
- The delete zone is declared with type `column`, so the library only lets column drags reach it. The model accepts any drop result there, so a pending `task` deletion is still covered by `Edits.ApplyDelete` and `Page.Home.HandleDelete`.
- Shallow-copy aliasing is not modelled. In the task branches of the drag handler and in the delete handler, `newProjects[projectIndex].columns = ...` overwrites a field of the project object shared with the previous state. The model treats projects as values, so that write into the old state is not represented; the new state it produces is the one modelled.
- Page.Home.HandleDragEnd: requires the selected project to exist even for the drops that return before reading it (no destination, the delete zone, in place). The page reads the selected project on every render (src/app/page.tsx:95), so it exists whenever a drag can start.
- Drag.ApplyDrop: requires the selected project to exist for the same drops, for the same reason.
- Edits.AddNewColumn: requires the selected project to exist even for a blank title, which returns before reading it; the render guarantees it exists whenever the dialog is open.
- JavaScript numbers (`order`, `size`, drag indices) are modelled as mathematical integers; indices are natural numbers.
- The handlers do not derive a task's `status` from its column or recompute `order` after a move, and the model does not either. Adding comments has no handler and is not modelled.
- JSX rendering and the presentational components are not part of this model.

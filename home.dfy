/**
 * The board page's state and its two imperative handlers. The drag-end
 * handler copies the project list and the list it reorders, splices the
 * copy, and stores the result; the delete handler does the same with a
 * filter, then clears the pending item. Both are proved against the
 * functions Drag.ApplyDrop and Edits.ApplyDelete, whose properties are
 * proved there.
 */
module Page {
  import opened Types
  import opened JsArray
  import opened Board
  import opened Drag
  import Edits

  class Home {
    /** The projects the board shows. */
    var projects: seq<Project>
    /** The id of the project the board shows; `projects.find(p => p.id === selectedProjectId)!`. */
    var selectedProjectId: string
    /** What a drop on the delete zone asked to delete, until confirmed. */
    var itemToDelete: Option<PendingDelete>
    var isDeleteDialogOpen: bool

    /** The selected project exists and the board is well formed. */
    ghost predicate Valid()
      reads this
    {
      HasProject(projects, selectedProjectId) && BoardWellFormed(projects)
    }

    constructor(initial: seq<Project>)
      requires initial != []
      ensures projects == initial && selectedProjectId == initial[0].id
      ensures itemToDelete == None && !isDeleteDialogOpen
      ensures BoardWellFormed(initial) ==> Valid()
    {
      projects := initial;
      selectedProjectId := initial[0].id;
      itemToDelete := None;
      isDeleteDialogOpen := false;
    }

    /**
     * The drag-end handler. Released nowhere or in place: nothing changes.
     * On the delete zone: the dragged item becomes the pending deletion and
     * the confirmation opens. Otherwise the selected project's columns are
     * spliced as Drag.ApplyDrop says, which keeps the board well formed.
     */
    method HandleDragEnd(result: DropResult)
      requires HasProject(projects, selectedProjectId)
      requires SourceInRange(projects, selectedProjectId, result)
      modifies this
      ensures projects == ApplyDrop(old(projects), old(selectedProjectId), result)
      ensures selectedProjectId == old(selectedProjectId)
      ensures HasProject(projects, selectedProjectId)
      ensures IsDeleteDrop(result) ==>
                itemToDelete == Some(PendingDelete(result.kind, result.draggableId)) && isDeleteDialogOpen
      ensures !IsDeleteDrop(result) ==>
                itemToDelete == old(itemToDelete) && isDeleteDialogOpen == old(isDeleteDialogOpen)
      ensures old(Valid()) ==> Valid()
    {
      if result.destination.None? {
        return;
      }
      var destination := result.destination.value;
      var source := result.source;
      if destination.droppableId == DeleteZoneId {
        itemToDelete := Some(PendingDelete(result.kind, result.draggableId));
        isDeleteDialogOpen := true;
        return;
      }
      if destination.droppableId == source.droppableId && destination.index == source.index {
        return;
      }

      var newProjects := projects;
      var projectIndex := ProjectIndex(newProjects, selectedProjectId);
      var columns := newProjects[projectIndex].columns;

      if result.kind == ColumnType {
        var newColumns := columns;
        var removed := newColumns[source.index];
        newColumns := RemoveAt(newColumns, source.index);
        newColumns := InsertAt(newColumns, destination.index, removed);
        newProjects := newProjects[projectIndex := newProjects[projectIndex].(columns := newColumns)];
      } else {
        var sourceColumn := FindColumn(columns, source.droppableId);
        var destColumn := FindColumn(columns, destination.droppableId);
        if sourceColumn.None? || destColumn.None? {
          return;
        }
        if source.droppableId == destination.droppableId {
          var newTasks := sourceColumn.value.tasks;
          var removed := newTasks[source.index];
          newTasks := RemoveAt(newTasks, source.index);
          newTasks := InsertAt(newTasks, destination.index, removed);
          var newColumn := sourceColumn.value.(tasks := newTasks);
          newProjects := newProjects[projectIndex := newProjects[projectIndex].(columns := ReplaceColumn(columns, newColumn))];
        } else {
          var sourceTasks := sourceColumn.value.tasks;
          var removed := sourceTasks[source.index];
          sourceTasks := RemoveAt(sourceTasks, source.index);
          var destTasks := destColumn.value.tasks;
          destTasks := InsertAt(destTasks, destination.index, removed.(columnId := destColumn.value.id));
          var sid, did := sourceColumn.value.id, destColumn.value.id;
          var newColumns := seq(|columns|, k requires 0 <= k < |columns| =>
            if columns[k].id == sid then columns[k].(tasks := sourceTasks)
            else if columns[k].id == did then columns[k].(tasks := destTasks)
            else columns[k]);
          assert newColumns == MoveTaskColumns(columns, sourceColumn.value, destColumn.value, source.index, destination.index);
          newProjects := newProjects[projectIndex := newProjects[projectIndex].(columns := newColumns)];
        }
      }

      projects := newProjects;
      assert projects[projectIndex].id == selectedProjectId;
      if old(Valid()) {
        DropKeepsBoardWellFormed(old(projects), selectedProjectId, result);
      }
    }

    /**
     * The confirmation of a pending deletion. Without a pending item nothing
     * happens; otherwise the projects become Edits.ApplyDelete's result (a
     * column filtered out, or a task id filtered out of every column), the
     * confirmation closes and the pending item is cleared.
     */
    method HandleDelete()
      requires itemToDelete.Some? && (itemToDelete.value.kind == ColumnType || itemToDelete.value.kind == TaskType)
               ==> HasProject(projects, selectedProjectId)
      modifies this
      ensures old(itemToDelete).None? ==>
                projects == old(projects) && itemToDelete == None && isDeleteDialogOpen == old(isDeleteDialogOpen)
      ensures old(itemToDelete).Some? ==>
                && projects == Edits.ApplyDelete(old(projects), old(selectedProjectId), old(itemToDelete).value)
                && itemToDelete == None && !isDeleteDialogOpen
      ensures selectedProjectId == old(selectedProjectId)
      ensures old(HasProject(projects, selectedProjectId)) ==> HasProject(projects, selectedProjectId)
      ensures old(Valid()) ==> Valid()
    {
      if itemToDelete.None? {
        return;
      }
      var item := itemToDelete.value;
      var newProjects := projects;
      if item.kind == ColumnType {
        var projectIndex := ProjectIndex(newProjects, selectedProjectId);
        var kept := Edits.WithoutColumn(newProjects[projectIndex].columns, item.id);
        newProjects := newProjects[projectIndex := newProjects[projectIndex].(columns := kept)];
        assert newProjects[projectIndex].id == selectedProjectId;
      } else if item.kind == TaskType {
        var projectIndex := ProjectIndex(newProjects, selectedProjectId);
        var kept := Edits.WithoutTask(newProjects[projectIndex].columns, item.id);
        newProjects := newProjects[projectIndex := newProjects[projectIndex].(columns := kept)];
        assert newProjects[projectIndex].id == selectedProjectId;
      }
      projects := newProjects;
      isDeleteDialogOpen := false;
      itemToDelete := None;
      if old(Valid()) {
        Edits.ApplyDeleteKeepsWellFormed(old(projects), selectedProjectId, item);
      }
    }
  }
}

/**
 * What a drag-and-drop release does to the projects: the four outcomes of
 * the drag-end handler (released nowhere, dropped on the delete zone,
 * reordered within one list, moved between two columns) as functions of the
 * current projects, the selected project id and the drop result.
 */
module Drag {
  import opened Types
  import opened JsArray
  import opened Board

  /** The droppable that asks for a deletion instead of a move. */
  const DeleteZoneId: string := "delete-zone"
  /** The draggable type of columns; every other type takes the task branch. */
  const ColumnType: string := "column"
  const TaskType: string := "task"

  datatype DraggableLocation = DraggableLocation(droppableId: string, index: nat)

  /** The drag library's drop result, taken as input: `kind` is its `type` field. */
  datatype DropResult = DropResult(
    kind: string,
    draggableId: string,
    source: DraggableLocation,
    destination: Option<DraggableLocation>)

  /** The item a drop on the delete zone asks to delete, awaiting confirmation. */
  datatype PendingDelete = PendingDelete(kind: string, id: string)

  predicate IsDeleteDrop(r: DropResult) {
    r.destination.Some? && r.destination.value.droppableId == DeleteZoneId
  }

  predicate IsInPlace(r: DropResult) {
    && r.destination.Some?
    && r.destination.value.droppableId == r.source.droppableId
    && r.destination.value.index == r.source.index
  }

  /** The drop reaches the splicing code: it has a destination, not the delete zone, and not where it started. */
  predicate MovesSomething(r: DropResult) {
    r.destination.Some? && !IsDeleteDrop(r) && !IsInPlace(r)
  }

  /**
   * The source index names an item of the list the drag takes it from.
   * Outside that range `splice(source.index, 1)` yields no item and the
   * handler would insert `undefined`; the drag library never reports such an
   * index.
   */
  predicate SourceIndexValid(cols: seq<Column>, r: DropResult)
    requires r.destination.Some?
  {
    if r.kind == ColumnType then r.source.index < |cols|
    else
      var sc := FindColumn(cols, r.source.droppableId);
      var dc := FindColumn(cols, r.destination.value.droppableId);
      sc.Some? && dc.Some? ==> r.source.index < |sc.value.tasks|
  }

  predicate SourceInRange(ps: seq<Project>, sel: string, r: DropResult)
    requires HasProject(ps, sel)
  {
    MovesSomething(r) ==> SourceIndexValid(SelectedProject(ps, sel).columns, r)
  }

  /** `columns.map(col => col.id === nc.id ? nc : col)`. */
  function ReplaceColumn(cols: seq<Column>, nc: Column): (r: seq<Column>)
    ensures |r| == |cols|
  {
    seq(|cols|, k requires 0 <= k < |cols| => if cols[k].id == nc.id then nc else cols[k])
  }

  /** The task at `from` of `sc`, re-owned by `dc`: `{ ...removed, columnId: destColumn.id }`. */
  function MovedTask(sc: Column, dc: Column, from: nat): Task
    requires from < |sc.tasks|
  {
    sc.tasks[from].(columnId := dc.id)
  }

  /** The columns after moving task `from` of `sc` to position `to` of `dc`. */
  function MoveTaskColumns(cols: seq<Column>, sc: Column, dc: Column, from: nat, to: nat): (r: seq<Column>)
    requires from < |sc.tasks|
    ensures |r| == |cols|
  {
    var sourceTasks := RemoveAt(sc.tasks, from);
    var destTasks := InsertAt(dc.tasks, to, MovedTask(sc, dc, from));
    seq(|cols|, k requires 0 <= k < |cols| =>
      if cols[k].id == sc.id then cols[k].(tasks := sourceTasks)
      else if cols[k].id == dc.id then cols[k].(tasks := destTasks)
      else cols[k])
  }

  /** The selected project's columns after a drop that moves something. */
  function DropColumns(cols: seq<Column>, r: DropResult): (after: seq<Column>)
    requires r.destination.Some? && SourceIndexValid(cols, r)
    ensures |after| == |cols|
  {
    var dest := r.destination.value;
    if r.kind == ColumnType then Reorder(cols, r.source.index, dest.index)
    else
      var sc := FindColumn(cols, r.source.droppableId);
      var dc := FindColumn(cols, dest.droppableId);
      if sc.None? || dc.None? then cols
      else if r.source.droppableId == dest.droppableId then
        ReplaceColumn(cols, sc.value.(tasks := Reorder(sc.value.tasks, r.source.index, dest.index)))
      else
        MoveTaskColumns(cols, sc.value, dc.value, r.source.index, dest.index)
  }

  /** The projects after the drag-end handler ran. */
  function ApplyDrop(ps: seq<Project>, sel: string, r: DropResult): (after: seq<Project>)
    requires HasProject(ps, sel) && SourceInRange(ps, sel, r)
    ensures |after| == |ps| && forall m :: 0 <= m < |ps| ==> after[m].id == ps[m].id
  {
    if !MovesSomething(r) then ps
    else
      var pi := ProjectIndex(ps, sel);
      ps[pi := ps[pi].(columns := DropColumns(ps[pi].columns, r))]
  }

  // ------------------------------------------------------------------ lemmas

  /** Released outside any droppable, on the delete zone, or where it started: the projects stay as they are. */
  lemma DropWithoutMoveIsNoop(ps: seq<Project>, sel: string, r: DropResult)
    requires HasProject(ps, sel)
    requires r.destination.None? || IsDeleteDrop(r) || IsInPlace(r)
    ensures ApplyDrop(ps, sel, r) == ps
  {
  }

  /**
   * Whatever the drop, only the selected project can change, and only in its
   * columns: every other project, and every other field of the selected
   * one, stays as it was.
   */
  lemma DropChangesOnlySelectedColumns(ps: seq<Project>, sel: string, r: DropResult)
    requires HasProject(ps, sel) && SourceInRange(ps, sel, r)
    ensures var pi := ProjectIndex(ps, sel);
            var after := ApplyDrop(ps, sel, r);
            && |after| == |ps|
            && (forall m :: 0 <= m < |ps| && m != pi ==> after[m] == ps[m])
            && after[pi] == ps[pi].(columns := after[pi].columns)
  {
  }

  /**
   * The early return for a drop in place changes nothing: splicing the item
   * out and back in at the same index of the same list, column or task,
   * would leave the columns as they are too.
   */
  lemma InPlaceSpliceIsIdentity(cols: seq<Column>, r: DropResult)
    requires IsInPlace(r) && SourceIndexValid(cols, r)
    requires ColumnIdsDistinct(cols)
    ensures DropColumns(cols, r) == cols
  {
    var i := r.source.index;
    if r.kind == ColumnType {
      ReorderSameIndex(cols, i);
    } else {
      var sc := FindColumn(cols, r.source.droppableId);
      if sc.Some? {
        ReorderSameIndex(sc.value.tasks, i);
        assert sc.value.(tasks := Reorder(sc.value.tasks, i, i)) == sc.value;
        var k := ColumnIndex(cols, r.source.droppableId);
        assert ReplaceColumn(cols, sc.value) == cols;
      }
    }
  }

  /**
   * A column drag reorders the selected project's columns: same columns,
   * the dragged one at the destination index (clamped to the last slot),
   * the ones in between shifted by one, every other project untouched.
   */
  lemma ColumnDragReorders(ps: seq<Project>, sel: string, r: DropResult)
    requires HasProject(ps, sel) && SourceInRange(ps, sel, r)
    requires MovesSomething(r) && r.kind == ColumnType
    ensures var pi := ProjectIndex(ps, sel);
            var cols := ps[pi].columns;
            var after := ApplyDrop(ps, sel, r);
            var d := Landing(|cols|, r.destination.value.index);
            && |after| == |ps|
            && (forall m :: 0 <= m < |ps| && m != pi ==> after[m] == ps[m])
            && after[pi] == ps[pi].(columns := after[pi].columns)
            && |after[pi].columns| == |cols|
            && multiset(after[pi].columns) == multiset(cols)
            && after[pi].columns[d] == cols[r.source.index]
            && (forall k :: 0 <= k < |cols| ==>
                  after[pi].columns[k] == cols[ReorderSource(r.source.index, d, k)])
  {
    var pi := ProjectIndex(ps, sel);
    var cols := ps[pi].columns;
    forall k | 0 <= k < |cols|
      ensures Reorder(cols, r.source.index, r.destination.value.index)[k]
              == cols[ReorderSource(r.source.index, Landing(|cols|, r.destination.value.index), k)]
    {
      ReorderAt(cols, r.source.index, r.destination.value.index, k);
    }
  }

  /** With distinct ids, replacing by id replaces exactly the column found by id. */
  lemma ReplaceColumnIsUpdate(cols: seq<Column>, k: nat, nc: Column)
    requires ColumnIdsDistinct(cols) && k < |cols| && cols[k].id == nc.id
    ensures ReplaceColumn(cols, nc) == cols[k := nc]
  {
  }

  /**
   * A task drag within one column reorders that column's tasks and leaves
   * every other column, and the set of task ids on the board, as they were.
   */
  lemma SameColumnDragReorders(cols: seq<Column>, r: DropResult)
    requires MovesSomething(r) && r.kind != ColumnType && SourceIndexValid(cols, r)
    requires r.source.droppableId == r.destination.value.droppableId
    requires FindColumn(cols, r.source.droppableId).Some?
    requires ColumnIdsDistinct(cols)
    ensures var k := ColumnIndex(cols, r.source.droppableId);
            var after := DropColumns(cols, r);
            && k >= 0
            && after == cols[k := cols[k].(tasks := Reorder(cols[k].tasks, r.source.index, r.destination.value.index))]
            && multiset(after[k].tasks) == multiset(cols[k].tasks)
            && after[k].tasks[Landing(|cols[k].tasks|, r.destination.value.index)] == cols[k].tasks[r.source.index]
            && TaskIds(after) == TaskIds(cols)
  {
    var id, from, to := r.source.droppableId, r.source.index, r.destination.value.index;
    var k := ColumnIndex(cols, id);
    var sc := cols[k];
    assert FindColumn(cols, id) == Some(sc);
    var nc := sc.(tasks := Reorder(sc.tasks, from, to));
    assert DropColumns(cols, r) == ReplaceColumn(cols, nc);
    ReplaceColumnIsUpdate(cols, k, nc);
    IdBagReorder(sc.tasks, from, to);
    TaskIdsUpdateSameIds(cols, k, nc);
  }

  /** With distinct ids, the two-way map of a cross-column move updates exactly the two columns found by id. */
  lemma MoveTaskColumnsIsUpdate(cols: seq<Column>, si: nat, di: nat, from: nat, to: nat)
    requires ColumnIdsDistinct(cols) && si < |cols| && di < |cols| && si != di
    requires from < |cols[si].tasks|
    ensures MoveTaskColumns(cols, cols[si], cols[di], from, to)
            == cols[si := cols[si].(tasks := RemoveAt(cols[si].tasks, from))]
                   [di := cols[di].(tasks := InsertAt(cols[di].tasks, to, MovedTask(cols[si], cols[di], from)))]
  {
  }

  /** The precondition shared by the lemmas about a task drag between two columns. */
  predicate IsCrossColumnMove(cols: seq<Column>, r: DropResult) {
    && MovesSomething(r) && r.kind != ColumnType
    && r.source.droppableId != r.destination.value.droppableId
    && FindColumn(cols, r.source.droppableId).Some?
    && FindColumn(cols, r.destination.value.droppableId).Some?
    && r.source.index < |FindColumn(cols, r.source.droppableId).value.tasks|
  }

  /**
   * A task drag between two columns: the source column loses exactly the
   * task at the source index, the destination column gains that task,
   * re-owned by the destination column, at the destination index (clamped
   * to its end), and every other column stays as it was.
   */
  lemma CrossColumnMove(cols: seq<Column>, r: DropResult)
    requires IsCrossColumnMove(cols, r) && ColumnIdsDistinct(cols)
    ensures var si := ColumnIndex(cols, r.source.droppableId);
            var di := ColumnIndex(cols, r.destination.value.droppableId);
            var t := cols[si].tasks[r.source.index];
            && 0 <= si < |cols| && 0 <= di < |cols| && si != di
            && DropColumns(cols, r)
               == cols[si := cols[si].(tasks := RemoveAt(cols[si].tasks, r.source.index))]
                      [di := cols[di].(tasks := InsertAt(cols[di].tasks, r.destination.value.index,
                                                         t.(columnId := cols[di].id)))]
  {
    var si := ColumnIndex(cols, r.source.droppableId);
    var di := ColumnIndex(cols, r.destination.value.droppableId);
    assert FindColumn(cols, r.source.droppableId) == Some(cols[si]);
    assert FindColumn(cols, r.destination.value.droppableId) == Some(cols[di]);
    assert DropColumns(cols, r) == MoveTaskColumns(cols, cols[si], cols[di], r.source.index, r.destination.value.index);
    MoveTaskColumnsIsUpdate(cols, si, di, r.source.index, r.destination.value.index);
  }

  /** A task drag between two columns keeps the board's task ids, hence its task count. */
  lemma CrossColumnMoveKeepsTasks(cols: seq<Column>, r: DropResult)
    requires IsCrossColumnMove(cols, r) && ColumnIdsDistinct(cols)
    ensures TaskIds(DropColumns(cols, r)) == TaskIds(cols)
    ensures TaskCount(DropColumns(cols, r)) == TaskCount(cols)
  {
    CrossColumnMove(cols, r);
    var si := ColumnIndex(cols, r.source.droppableId);
    var di := ColumnIndex(cols, r.destination.value.droppableId);
    var from, to := r.source.index, r.destination.value.index;
    var moved := cols[si].tasks[from].(columnId := cols[di].id);
    IdBagRemoveAt(cols[si].tasks, from);
    IdBagInsertAt(cols[di].tasks, to, moved);
    TaskIdsTransfer(cols, si, di, cols[si].(tasks := RemoveAt(cols[si].tasks, from)),
                    cols[di].(tasks := InsertAt(cols[di].tasks, to, moved)), moved.id);
    TaskCountIsBagSize(DropColumns(cols, r));
    TaskCountIsBagSize(cols);
  }

  /** A task drag that names a column the selected project lacks changes nothing. */
  lemma MissingColumnIsNoop(ps: seq<Project>, sel: string, r: DropResult)
    requires HasProject(ps, sel) && SourceInRange(ps, sel, r)
    requires MovesSomething(r) && r.kind != ColumnType
    requires var cols := SelectedProject(ps, sel).columns;
             FindColumn(cols, r.source.droppableId).None? || FindColumn(cols, r.destination.value.droppableId).None?
    ensures ApplyDrop(ps, sel, r) == ps
  {
  }

  /** A column drag keeps the selected project well formed. */
  lemma ColumnDragKeepsProjectWellFormed(p: Project, r: DropResult)
    requires ProjectWellFormed(p)
    requires r.destination.Some? && r.kind == ColumnType && SourceIndexValid(p.columns, r)
    ensures ProjectWellFormed(p.(columns := DropColumns(p.columns, r)))
  {
    var cols := p.columns;
    var after := Reorder(cols, r.source.index, r.destination.value.index);
    forall c | c in after ensures ColumnWellFormed(c, p.id) {
      assert c in multiset(after);
    }
    ReorderKeepsColumnIdsDistinct(cols, r.source.index, r.destination.value.index);
    TaskIdsReorder(cols, r.source.index, r.destination.value.index);
    ProjectWellFormedAfter(p, after);
  }

  /** A task drag within one column keeps the selected project well formed. */
  lemma SameColumnDragKeepsProjectWellFormed(p: Project, r: DropResult)
    requires ProjectWellFormed(p)
    requires MovesSomething(r) && r.kind != ColumnType && SourceIndexValid(p.columns, r)
    requires r.source.droppableId == r.destination.value.droppableId
    requires FindColumn(p.columns, r.source.droppableId).Some?
    ensures ProjectWellFormed(p.(columns := DropColumns(p.columns, r)))
  {
    var cols := p.columns;
    SameColumnDragReorders(cols, r);
    var k := ColumnIndex(cols, r.source.droppableId);
    var after := DropColumns(cols, r);
    assert cols[k] in cols;
    forall c | c in after ensures ColumnWellFormed(c, p.id) {
      var m :| 0 <= m < |after| && after[m] == c;
      if m == k {
        forall t | t in c.tasks ensures t.columnId == c.id && t.projectId == p.id {
          assert t in multiset(c.tasks);
        }
      } else {
        assert cols[m] in cols;
      }
    }
    ProjectWellFormedAfter(p, after);
  }

  /** The source column, with the task at `from` taken out, still belongs to `pid`. */
  lemma SourceColumnStaysWellFormed(sc: Column, from: nat, pid: string)
    requires ColumnWellFormed(sc, pid) && from < |sc.tasks|
    ensures ColumnWellFormed(sc.(tasks := RemoveAt(sc.tasks, from)), pid)
  {
    RemoveAtMultiset(sc.tasks, from);
    forall x | x in RemoveAt(sc.tasks, from) ensures x in sc.tasks {
      assert x in multiset(RemoveAt(sc.tasks, from));
    }
  }

  /** The destination column, with the re-owned task inserted, still belongs to `pid`. */
  lemma DestColumnStaysWellFormed(sc: Column, dc: Column, from: nat, to: nat, pid: string)
    requires ColumnWellFormed(sc, pid) && ColumnWellFormed(dc, pid) && from < |sc.tasks|
    ensures ColumnWellFormed(dc.(tasks := InsertAt(dc.tasks, to, MovedTask(sc, dc, from))), pid)
  {
    var moved := MovedTask(sc, dc, from);
    assert sc.tasks[from] in sc.tasks;
    InsertAtMultiset(dc.tasks, to, moved);
    forall x | x in InsertAt(dc.tasks, to, moved) ensures x == moved || x in dc.tasks {
      assert x in multiset(InsertAt(dc.tasks, to, moved));
    }
  }

  /** A task drag between two columns keeps the selected project well formed. */
  lemma CrossColumnMoveKeepsProjectWellFormed(p: Project, r: DropResult)
    requires ProjectWellFormed(p)
    requires IsCrossColumnMove(p.columns, r)
    ensures ProjectWellFormed(p.(columns := DropColumns(p.columns, r)))
  {
    var cols := p.columns;
    CrossColumnMove(cols, r);
    CrossColumnMoveKeepsTasks(cols, r);
    var si := ColumnIndex(cols, r.source.droppableId);
    var di := ColumnIndex(cols, r.destination.value.droppableId);
    var from, to := r.source.index, r.destination.value.index;
    var a := cols[si].(tasks := RemoveAt(cols[si].tasks, from));
    var b := cols[di].(tasks := InsertAt(cols[di].tasks, to, MovedTask(cols[si], cols[di], from)));
    assert cols[si] in cols && cols[di] in cols;
    SourceColumnStaysWellFormed(cols[si], from, p.id);
    DestColumnStaysWellFormed(cols[si], cols[di], from, to, p.id);
    var after := cols[si := a][di := b];
    assert DropColumns(cols, r) == after;
    forall m | 0 <= m < |after| ensures ColumnWellFormed(after[m], p.id) {
      if m != si && m != di {
        assert cols[m] in cols;
      }
    }
    ProjectWellFormedAfter(p, after);
  }

  /** Every drop keeps a well-formed board well formed. */
  lemma DropKeepsBoardWellFormed(ps: seq<Project>, sel: string, r: DropResult)
    requires BoardWellFormed(ps) && HasProject(ps, sel) && SourceInRange(ps, sel, r)
    ensures BoardWellFormed(ApplyDrop(ps, sel, r))
  {
    if MovesSomething(r) {
      var pi := ProjectIndex(ps, sel);
      var p := ps[pi];
      assert p in ps;
      var cols := p.columns;
      if r.kind == ColumnType {
        ColumnDragKeepsProjectWellFormed(p, r);
      } else {
        var sc := FindColumn(cols, r.source.droppableId);
        var dc := FindColumn(cols, r.destination.value.droppableId);
        if sc.Some? && dc.Some? {
          if r.source.droppableId == r.destination.value.droppableId {
            SameColumnDragKeepsProjectWellFormed(p, r);
          } else {
            CrossColumnMoveKeepsProjectWellFormed(p, r);
          }
        }
      }
      BoardWellFormedStep(ps, ApplyDrop(ps, sel, r));
    }
  }
}

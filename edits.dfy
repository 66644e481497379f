/**
 * The handlers that add, edit and delete: each maps the current projects to
 * the projects the board shows next. Fresh ids and timestamps are inputs.
 */
module Edits {
  import opened Types
  import opened JsString
  import opened Board
  import opened Drag

  // ------------------------------------------------------------- add column

  /**
   * Adding a column with `title` to the selected project. A blank title
   * changes nothing; otherwise every project with the selected id gets one
   * more column at the end (AddNewColumnAppends says which).
   */
  function AddNewColumn(ps: seq<Project>, sel: string, title: string, freshId: string): (r: seq<Project>)
    requires HasProject(ps, sel)
    ensures |r| == |ps|
    ensures forall m :: 0 <= m < |ps| ==> r[m].id == ps[m].id && (ps[m].id != sel ==> r[m] == ps[m])
    ensures IsBlank(title) ==> r == ps
  {
    TrimEmptyIffBlank(title);
    var t := Trim(title);
    if t == "" then ps
    else
      var col := Column(freshId, t, [], sel, |SelectedProject(ps, sel).columns|);
      AppendColumn(ps, sel, col)
  }

  /** `projects.map(p => p.id === sel ? { ...p, columns: [...p.columns, col] } : p)`. */
  function AppendColumn(ps: seq<Project>, sel: string, col: Column): (r: seq<Project>)
    ensures |r| == |ps|
    ensures forall m :: 0 <= m < |ps| ==> r[m].id == ps[m].id && (ps[m].id != sel ==> r[m] == ps[m])
  {
    seq(|ps|, m requires 0 <= m < |ps| =>
      if ps[m].id == sel then ps[m].(columns := ps[m].columns + [col]) else ps[m])
  }

  /**
   * A title that is not blank appends one column to each project with the
   * selected id: the fresh id, the trimmed title, no tasks, owned by the
   * selected project, ordered after the selected project's existing columns.
   */
  lemma AddNewColumnAppends(ps: seq<Project>, sel: string, title: string, freshId: string, m: nat)
    requires HasProject(ps, sel) && !IsBlank(title) && m < |ps| && ps[m].id == sel
    ensures var after := AddNewColumn(ps, sel, title, freshId)[m];
            var n := |ps[m].columns|;
            && after == ps[m].(columns := after.columns)
            && |after.columns| == n + 1
            && after.columns[..n] == ps[m].columns
            && after.columns[n].id == freshId
            && after.columns[n].title == Trim(title)
            && after.columns[n].tasks == []
            && after.columns[n].projectId == sel
            && after.columns[n].order == |SelectedProject(ps, sel).columns|
  {
    TrimEmptyIffBlank(title);
    var col := Column(freshId, Trim(title), [], sel, |SelectedProject(ps, sel).columns|);
    assert AddNewColumn(ps, sel, title, freshId)[m] == ps[m].(columns := ps[m].columns + [col]);
  }

  /** On a well-formed board the new column's order is its position in the list. */
  lemma AddNewColumnOrderIsPosition(ps: seq<Project>, sel: string, title: string, freshId: string)
    requires BoardWellFormed(ps) && HasProject(ps, sel) && !IsBlank(title)
    ensures var pi := ProjectIndex(ps, sel);
            var cols := AddNewColumn(ps, sel, title, freshId)[pi].columns;
            cols[|cols| - 1].order == |cols| - 1
  {
    var pi := ProjectIndex(ps, sel);
    AddNewColumnAppends(ps, sel, title, freshId, pi);
    assert SelectedProject(ps, sel) == ps[pi];
  }

  /** Appending an empty column of the project with an unused id keeps the project well formed. */
  lemma AppendColumnKeepsProjectWellFormed(p: Project, col: Column)
    requires ProjectWellFormed(p) && col.tasks == [] && col.projectId == p.id
    requires forall c :: c in p.columns ==> c.id != col.id
    ensures ProjectWellFormed(p.(columns := p.columns + [col]))
  {
    var cols := p.columns + [col];
    TaskIdsConcat(p.columns, [col]);
    assert TaskIds([col]) == multiset{};
    forall a, b | 0 <= a < b < |cols| ensures cols[a].id != cols[b].id {
      assert cols[a] in p.columns;
      if b < |p.columns| {
        assert cols[b] == p.columns[b];
      }
    }
    ProjectWellFormedAfter(p, cols);
  }

  /** Adding a column with an id the selected project does not use keeps the board well formed. */
  lemma AddNewColumnKeepsWellFormed(ps: seq<Project>, sel: string, title: string, freshId: string)
    requires BoardWellFormed(ps) && HasProject(ps, sel)
    requires forall c :: c in SelectedProject(ps, sel).columns ==> c.id != freshId
    ensures BoardWellFormed(AddNewColumn(ps, sel, title, freshId))
  {
    var r := AddNewColumn(ps, sel, title, freshId);
    var pi := ProjectIndex(ps, sel);
    forall m | 0 <= m < |ps| && ProjectWellFormed(ps[m]) ensures ProjectWellFormed(r[m]) {
      if ps[m].id == sel && !IsBlank(title) {
        assert m == pi;
        AddNewColumnAppends(ps, sel, title, freshId, m);
        var n := |ps[m].columns|;
        assert r[m] == ps[m].(columns := ps[m].columns + [r[m].columns[n]]);
        AppendColumnKeepsProjectWellFormed(ps[m], r[m].columns[n]);
      }
    }
    BoardWellFormedStep(ps, r);
  }

  // --------------------------------------------------------------- add task

  /** The task the add-task form creates: defaults for everything the form does not ask for. */
  function NewTask(id: string, title: string, columnId: string, projectId: string,
                   createdAt: string, updatedAt: string): Task
  {
    Task(id, title, "", Medium, Todo, None, [], [], [], columnId, projectId,
         createdAt, updatedAt, None, "Current User", 0)
  }

  /** `columns.map(column => column.id === cid ? { ...column, tasks: [...column.tasks, t] } : column)`. */
  function AppendTask(cols: seq<Column>, cid: string, t: Task): (r: seq<Column>)
    ensures |r| == |cols|
  {
    seq(|cols|, k requires 0 <= k < |cols| =>
      if cols[k].id == cid then cols[k].(tasks := cols[k].tasks + [t]) else cols[k])
  }

  /** The form is accepted: a title that is not blank and a column chosen (the empty choice is falsy). */
  predicate AcceptsNewTask(title: string, columnId: Option<string>) {
    !IsBlank(title) && columnId.Some? && columnId.value != ""
  }

  /** Adding a task titled `title` to column `columnId` of the selected project. */
  function AddNewTask(ps: seq<Project>, sel: string, title: string, columnId: Option<string>,
                      freshId: string, createdAt: string, updatedAt: string): (r: seq<Project>)
    ensures |r| == |ps|
    ensures forall m :: 0 <= m < |ps| ==> r[m].id == ps[m].id && (ps[m].id != sel ==> r[m] == ps[m])
    ensures !AcceptsNewTask(title, columnId) ==> r == ps
  {
    TrimEmptyIffBlank(title);
    if Trim(title) != "" && columnId.Some? && columnId.value != "" then
      var t := NewTask(freshId, Trim(title), columnId.value, sel, createdAt, updatedAt);
      seq(|ps|, m requires 0 <= m < |ps| =>
        if ps[m].id == sel then ps[m].(columns := AppendTask(ps[m].columns, columnId.value, t)) else ps[m])
    else ps
  }

  /**
   * An accepted task lands at the end of every column of the selected
   * project whose id is the chosen one, with the trimmed title, medium
   * priority, status todo, order 0, no tags, attachments or comments, no
   * due date or assignee, and "Current User" as reporter; the other columns
   * stay as they were.
   */
  lemma AddNewTaskAppends(ps: seq<Project>, sel: string, title: string, cid: string,
                          freshId: string, createdAt: string, updatedAt: string, m: nat, k: nat)
    requires AcceptsNewTask(title, Some(cid))
    requires m < |ps| && ps[m].id == sel && k < |ps[m].columns|
    ensures var after := AddNewTask(ps, sel, title, Some(cid), freshId, createdAt, updatedAt)[m];
            var col := ps[m].columns[k];
            && after == ps[m].(columns := after.columns)
            && |after.columns| == |ps[m].columns|
            && after.columns[k].id == col.id
            && (col.id != cid ==> after.columns[k] == col)
            && (col.id == cid ==>
                  var n := |col.tasks|;
                  var t := after.columns[k].tasks[n];
                  && after.columns[k] == col.(tasks := after.columns[k].tasks)
                  && |after.columns[k].tasks| == n + 1
                  && after.columns[k].tasks[..n] == col.tasks
                  && t.id == freshId && t.title == Trim(title) && t.description == ""
                  && t.priority == Medium && t.status == Todo && t.order == 0
                  && t.tags == [] && t.attachments == [] && t.comments == []
                  && t.dueDate.None? && t.assignee.None? && t.reporter == "Current User"
                  && t.columnId == cid && t.projectId == sel
                  && t.createdAt == createdAt && t.updatedAt == updatedAt)
  {
    TrimEmptyIffBlank(title);
    var after := AddNewTask(ps, sel, title, Some(cid), freshId, createdAt, updatedAt)[m];
    var col := ps[m].columns[k];
    if col.id == cid {
      assert after.columns[k].tasks == col.tasks + [NewTask(freshId, Trim(title), cid, sel, createdAt, updatedAt)];
    }
  }

  /** A chosen column id that no column of the selected project carries leaves every column unchanged. */
  lemma AddNewTaskUnknownColumnIsNoop(ps: seq<Project>, sel: string, title: string, cid: string,
                                      freshId: string, createdAt: string, updatedAt: string)
    requires forall m, k :: 0 <= m < |ps| && ps[m].id == sel && 0 <= k < |ps[m].columns| ==> ps[m].columns[k].id != cid
    ensures AddNewTask(ps, sel, title, Some(cid), freshId, createdAt, updatedAt) == ps
  {
    var r := AddNewTask(ps, sel, title, Some(cid), freshId, createdAt, updatedAt);
    forall m | 0 <= m < |ps| ensures r[m] == ps[m] {
      if ps[m].id == sel && AcceptsNewTask(title, Some(cid)) {
        assert r[m].columns == ps[m].columns;
      }
    }
  }

  /** With distinct column ids, appending by id updates exactly the column found by id. */
  lemma AppendTaskIsUpdate(cols: seq<Column>, cid: string, t: Task, k: nat)
    requires ColumnIdsDistinct(cols) && k < |cols| && cols[k].id == cid
    ensures AppendTask(cols, cid, t) == cols[k := cols[k].(tasks := cols[k].tasks + [t])]
  {
  }

  /** Appending a task to one column adds exactly its id to the board's task ids. */
  lemma TaskIdsAppendOne(cols: seq<Column>, k: nat, t: Task)
    requires k < |cols|
    ensures TaskIds(cols[k := cols[k].(tasks := cols[k].tasks + [t])]) == TaskIds(cols) + multiset{t.id}
  {
    var old_tasks := cols[k].tasks;
    var u := cols[k := cols[k].(tasks := old_tasks + [t])];
    assert Ids(old_tasks + [t]) == Ids(old_tasks) + [t.id];
    TaskIdsAround(cols, k);
    TaskIdsAround(u, k);
    assert u[..k] == cols[..k] && u[k + 1..] == cols[k + 1..];
  }

  /** An accepted task into an existing column of a well-formed project adds exactly one task id and one task. */
  lemma AppendTaskAddsOneId(cols: seq<Column>, cid: string, t: Task, k: nat)
    requires ColumnIdsDistinct(cols) && k < |cols| && cols[k].id == cid
    ensures TaskIds(AppendTask(cols, cid, t)) == TaskIds(cols) + multiset{t.id}
    ensures TaskCount(AppendTask(cols, cid, t)) == TaskCount(cols) + 1
  {
    AppendTaskIsUpdate(cols, cid, t, k);
    TaskIdsAppendOne(cols, k, t);
    TaskCountIsBagSize(AppendTask(cols, cid, t));
    TaskCountIsBagSize(cols);
  }

  /** Appending a task of the project, carrying an unused id, to its column keeps the project well formed. */
  lemma AppendTaskKeepsProjectWellFormed(p: Project, cid: string, t: Task)
    requires ProjectWellFormed(p) && t.columnId == cid && t.projectId == p.id
    requires t.id !in TaskIds(p.columns)
    ensures ProjectWellFormed(p.(columns := AppendTask(p.columns, cid, t)))
  {
    var newCols := AppendTask(p.columns, cid, t);
    var k := ColumnIndex(p.columns, cid);
    if k >= 0 {
      AppendTaskAddsOneId(p.columns, cid, t, k);
      forall c | c in newCols ensures ColumnWellFormed(c, p.id) {
        var j :| 0 <= j < |newCols| && newCols[j] == c;
        assert p.columns[j] in p.columns;
      }
      forall id ensures TaskIds(newCols)[id] <= 1 {
        assert TaskIds(newCols)[id] == TaskIds(p.columns)[id] + multiset{t.id}[id];
      }
    } else {
      assert newCols == p.columns;
    }
  }

  /** Adding a task with an id the selected project does not use keeps the board well formed. */
  lemma AddNewTaskKeepsWellFormed(ps: seq<Project>, sel: string, title: string, columnId: Option<string>,
                                  freshId: string, createdAt: string, updatedAt: string)
    requires BoardWellFormed(ps)
    requires forall p :: p in ps && p.id == sel ==> freshId !in TaskIds(p.columns)
    ensures BoardWellFormed(AddNewTask(ps, sel, title, columnId, freshId, createdAt, updatedAt))
  {
    var r := AddNewTask(ps, sel, title, columnId, freshId, createdAt, updatedAt);
    forall m | 0 <= m < |ps| && ProjectWellFormed(ps[m]) ensures ProjectWellFormed(r[m]) {
      if ps[m].id == sel && AcceptsNewTask(title, columnId) {
        TrimEmptyIffBlank(title);
        assert ps[m] in ps;
        var t := NewTask(freshId, Trim(title), columnId.value, sel, createdAt, updatedAt);
        assert r[m] == ps[m].(columns := AppendTask(ps[m].columns, columnId.value, t));
        AppendTaskKeepsProjectWellFormed(ps[m], columnId.value, t);
      }
    }
    BoardWellFormedStep(ps, r);
  }

  // ------------------------------------------------------------ update task

  /** `tasks.map(task => task.id === u.id ? u : task)`. */
  function ReplaceTask(ts: seq<Task>, u: Task): (r: seq<Task>)
    ensures |r| == |ts|
  {
    seq(|ts|, i requires 0 <= i < |ts| => if ts[i].id == u.id then u else ts[i])
  }

  /** Replacing a task by one with the same id keeps the list's ids. */
  lemma ReplaceTaskKeepsIds(ts: seq<Task>, u: Task)
    ensures IdBag(ReplaceTask(ts, u)) == IdBag(ts)
  {
    assert Ids(ReplaceTask(ts, u)) == Ids(ts);
  }

  /** The columns of a project after editing task `u`: only the column `u.columnId` names is searched. */
  function UpdateTaskInColumns(cols: seq<Column>, u: Task): (r: seq<Column>)
    ensures |r| == |cols|
  {
    seq(|cols|, k requires 0 <= k < |cols| =>
      if cols[k].id == u.columnId then cols[k].(tasks := ReplaceTask(cols[k].tasks, u)) else cols[k])
  }

  /** Saving the edited task `u` on the selected project. */
  function UpdateTask(ps: seq<Project>, sel: string, u: Task): (r: seq<Project>)
    ensures |r| == |ps|
    ensures forall m :: 0 <= m < |ps| ==> r[m].id == ps[m].id && (ps[m].id != sel ==> r[m] == ps[m])
  {
    seq(|ps|, m requires 0 <= m < |ps| =>
      if ps[m].id == sel then ps[m].(columns := UpdateTaskInColumns(ps[m].columns, u)) else ps[m])
  }

  /**
   * Editing replaces exactly the tasks that carry the edited task's id in a
   * column whose id is the edited task's column id, in the selected project;
   * every other task, column and project stays where and as it was.
   */
  lemma UpdateTaskReplacesOnlyMatch(ps: seq<Project>, sel: string, u: Task, m: nat, k: nat, i: nat)
    requires m < |ps| && k < |ps[m].columns| && i < |ps[m].columns[k].tasks|
    ensures var r := UpdateTask(ps, sel, u);
            var old_t := ps[m].columns[k].tasks[i];
            && r[m] == ps[m].(columns := r[m].columns)
            && |r[m].columns| == |ps[m].columns|
            && r[m].columns[k] == ps[m].columns[k].(tasks := r[m].columns[k].tasks)
            && |r[m].columns[k].tasks| == |ps[m].columns[k].tasks|
            && r[m].columns[k].tasks[i]
               == if ps[m].id == sel && ps[m].columns[k].id == u.columnId && old_t.id == u.id then u else old_t
  {
  }

  /** When nothing matches, editing changes nothing. */
  lemma UpdateTaskNoMatchIsNoop(ps: seq<Project>, sel: string, u: Task)
    requires forall m, k, i ::
               (0 <= m < |ps| && 0 <= k < |ps[m].columns| && 0 <= i < |ps[m].columns[k].tasks|
                && ps[m].id == sel && ps[m].columns[k].id == u.columnId) ==> ps[m].columns[k].tasks[i].id != u.id
    ensures UpdateTask(ps, sel, u) == ps
  {
    var r := UpdateTask(ps, sel, u);
    forall m | 0 <= m < |ps| ensures r[m] == ps[m] {
      if ps[m].id == sel {
        forall k | 0 <= k < |ps[m].columns| ensures r[m].columns[k] == ps[m].columns[k] {
          if ps[m].columns[k].id == u.columnId {
            assert r[m].columns[k].tasks == ps[m].columns[k].tasks;
          }
        }
        assert r[m].columns == ps[m].columns;
      }
    }
  }

  /** Saving an edited task that belongs to the selected project keeps the board well formed. */
  lemma UpdateTaskKeepsWellFormed(ps: seq<Project>, sel: string, u: Task)
    requires BoardWellFormed(ps) && u.projectId == sel
    ensures BoardWellFormed(UpdateTask(ps, sel, u))
  {
    var r := UpdateTask(ps, sel, u);
    forall m | 0 <= m < |ps| && ProjectWellFormed(ps[m]) ensures ProjectWellFormed(r[m]) {
      if ps[m].id == sel {
        var p := ps[m];
        var cols := p.columns;
        var newCols := UpdateTaskInColumns(cols, u);
        assert r[m] == p.(columns := newCols);
        forall c | c in newCols ensures ColumnWellFormed(c, p.id) {
          var k :| 0 <= k < |newCols| && newCols[k] == c;
          assert cols[k] in cols;
        }
        forall k | 0 <= k < |cols| ensures IdBag(newCols[k].tasks) <= IdBag(cols[k].tasks) {
          ReplaceTaskKeepsIds(cols[k].tasks, u);
        }
        TaskIdsPointwise(newCols, cols);
        ProjectWellFormedAfter(p, newCols);
      }
    }
    BoardWellFormedStep(ps, r);
  }

  // ----------------------------------------------------------------- delete

  /** `columns.filter(col => col.id !== id)`. */
  function WithoutColumn(cols: seq<Column>, id: string): (r: seq<Column>)
    ensures |r| <= |cols|
  {
    if cols == [] then []
    else
      var rest := WithoutColumn(cols[1..], id);
      if cols[0].id != id then [cols[0]] + rest else rest
  }

  /** The filter keeps exactly the columns whose id differs. */
  lemma {:induction false} WithoutColumnMembers(cols: seq<Column>, id: string)
    ensures forall c :: c in WithoutColumn(cols, id) <==> c in cols && c.id != id
  {
    if cols != [] {
      WithoutColumnMembers(cols[1..], id);
      assert cols == [cols[0]] + cols[1..];
    }
  }

  /** Filtering a concatenation filters each part. */
  lemma {:induction false} WithoutColumnConcat(a: seq<Column>, b: seq<Column>, id: string)
    ensures WithoutColumn(a + b, id) == WithoutColumn(a, id) + WithoutColumn(b, id)
  {
    if a == [] {
      assert a + b == b;
    } else {
      assert (a + b)[1..] == a[1..] + b;
      assert (a + b)[0] == a[0];
      WithoutColumnConcat(a[1..], b, id);
    }
  }

  /** Filtering columns adds no task id. */
  lemma {:induction false} WithoutColumnTaskIds(cols: seq<Column>, id: string)
    ensures TaskIds(WithoutColumn(cols, id)) <= TaskIds(cols)
  {
    if cols != [] {
      var rest := WithoutColumn(cols[1..], id);
      WithoutColumnTaskIds(cols[1..], id);
      assert TaskIds(cols) == IdBag(cols[0].tasks) + TaskIds(cols[1..]);
      if cols[0].id != id {
        assert ([cols[0]] + rest)[1..] == rest;
        assert TaskIds([cols[0]] + rest) == IdBag(cols[0].tasks) + TaskIds(rest);
      }
    }
  }

  /** Filtering columns keeps their ids distinct. */
  lemma {:induction false} WithoutColumnKeepsDistinct(cols: seq<Column>, id: string)
    requires ColumnIdsDistinct(cols)
    ensures ColumnIdsDistinct(WithoutColumn(cols, id))
  {
    if cols != [] {
      var rest := WithoutColumn(cols[1..], id);
      WithoutColumnKeepsDistinct(cols[1..], id);
      WithoutColumnMembers(cols[1..], id);
      if cols[0].id != id {
        var r := [cols[0]] + rest;
        forall c | c in rest ensures c.id != cols[0].id {
          assert c in cols[1..];
          var j :| 0 <= j < |cols[1..]| && cols[1..][j] == c;
          assert cols[j + 1] == c;
        }
        forall a, b | 0 <= a < b < |r| ensures r[a].id != r[b].id {
          assert r[b] == rest[b - 1];
          if a > 0 {
            assert r[a] == rest[a - 1];
          } else {
            assert rest[b - 1] in rest;
          }
        }
      }
    }
  }

  /** `tasks.filter(task => task.id !== id)`. */
  function WithoutTaskId(ts: seq<Task>, id: string): (r: seq<Task>)
    ensures |r| <= |ts|
    ensures forall t :: t in r <==> t in ts && t.id != id
  {
    if ts == [] then []
    else
      var rest := WithoutTaskId(ts[1..], id);
      assert forall t :: t in ts[1..] ==> t in ts;
      if ts[0].id != id then [ts[0]] + rest else rest
  }

  /** The filter takes every copy of `id` out of the list's ids and keeps all other ids. */
  lemma {:induction false} WithoutTaskIdBag(ts: seq<Task>, id: string)
    ensures IdBag(WithoutTaskId(ts, id)) == IdBag(ts)[id := 0]
  {
    if ts == [] {
      assert IdBag(ts) == multiset{};
    } else {
      var r, rest := WithoutTaskId(ts, id), WithoutTaskId(ts[1..], id);
      var tail := IdBag(ts[1..]);
      WithoutTaskIdBag(ts[1..], id);
      assert ts == [ts[0]] + ts[1..];
      IdBagCons(ts[0], ts[1..]);
      ZeroOutCons(ts[0].id, tail, id);
      if ts[0].id != id {
        assert r == [ts[0]] + rest;
        IdBagCons(ts[0], rest);
      } else {
        assert r == rest;
      }
    }
  }

  /** Zeroing out `id` after adding one `x`: the `x` survives exactly when it is not `id`. */
  lemma ZeroOutCons(x: string, m: multiset<string>, id: string)
    ensures (multiset{x} + m)[id := 0] == if x == id then m[id := 0] else multiset{x} + m[id := 0]
  {
  }

  /** Filtering a concatenation filters each part: the kept tasks stay in their order. */
  lemma {:induction false} WithoutTaskIdConcat(a: seq<Task>, b: seq<Task>, id: string)
    ensures WithoutTaskId(a + b, id) == WithoutTaskId(a, id) + WithoutTaskId(b, id)
  {
    if a == [] {
      assert a + b == b;
    } else {
      assert (a + b)[1..] == a[1..] + b;
      assert (a + b)[0] == a[0];
      WithoutTaskIdConcat(a[1..], b, id);
    }
  }

  /** A list that has no task with the id passes the filter unchanged. */
  lemma {:induction false} WithoutTaskIdKeepsAll(ts: seq<Task>, id: string)
    requires forall j :: 0 <= j < |ts| ==> ts[j].id != id
    ensures WithoutTaskId(ts, id) == ts
  {
    if ts != [] {
      assert forall j :: 0 <= j < |ts[1..]| ==> ts[1..][j] == ts[j + 1];
      WithoutTaskIdKeepsAll(ts[1..], id);
      assert ts == [ts[0]] + ts[1..];
    }
  }

  /** Filtering out the id of the one task that carries it removes that task alone. */
  lemma WithoutTaskIdAround(a: seq<Task>, x: Task, b: seq<Task>)
    requires forall j :: 0 <= j < |a| ==> a[j].id != x.id
    requires forall j :: 0 <= j < |b| ==> b[j].id != x.id
    ensures WithoutTaskId(a + [x] + b, x.id) == a + b
  {
    WithoutTaskIdKeepsAll(a, x.id);
    WithoutTaskIdKeepsAll(b, x.id);
    assert WithoutTaskId([x], x.id) == [] by {
      assert [x][1..] == [];
    }
    WithoutTaskIdConcat(a, [x], x.id);
    assert WithoutTaskId(a + [x], x.id) == a;
    WithoutTaskIdConcat(a + [x], b, x.id);
  }

  /** In a list of distinct task ids, filtering out the id of task `k` removes just that position. */
  lemma WithoutTaskIdRemovesOne(ts: seq<Task>, k: nat)
    requires TaskListDistinct(ts) && k < |ts|
    ensures WithoutTaskId(ts, ts[k].id) == ts[..k] + ts[k + 1..]
  {
    var a, x, b := ts[..k], ts[k], ts[k + 1..];
    assert ts == a + [x] + b;
    forall j | 0 <= j < |a| ensures a[j].id != x.id {
      assert a[j] == ts[j];
    }
    forall j | 0 <= j < |b| ensures b[j].id != x.id {
      assert b[j] == ts[k + 1 + j];
    }
    WithoutTaskIdAround(a, x, b);
  }

  /** Every column of a project, with task `id` filtered out. */
  function WithoutTask(cols: seq<Column>, id: string): (r: seq<Column>)
    ensures |r| == |cols|
  {
    seq(|cols|, k requires 0 <= k < |cols| => cols[k].(tasks := WithoutTaskId(cols[k].tasks, id)))
  }

  /**
   * The column delete button: every column with that id leaves the
   * selected project, and its tasks leave with it.
   */
  function DeleteColumn(ps: seq<Project>, sel: string, columnId: string): (r: seq<Project>)
    ensures |r| == |ps|
    ensures forall m :: 0 <= m < |ps| ==> r[m].id == ps[m].id && (ps[m].id != sel ==> r[m] == ps[m])
  {
    seq(|ps|, m requires 0 <= m < |ps| =>
      if ps[m].id == sel then ps[m].(columns := WithoutColumn(ps[m].columns, columnId)) else ps[m])
  }

  /** In each project with the selected id exactly the columns with the deleted id go; nothing else about it changes. */
  lemma DeleteColumnRemovesExactly(ps: seq<Project>, sel: string, columnId: string, m: nat)
    requires m < |ps| && ps[m].id == sel
    ensures var after := DeleteColumn(ps, sel, columnId)[m];
            && after == ps[m].(columns := after.columns)
            && forall c :: c in after.columns <==> c in ps[m].columns && c.id != columnId
  {
    WithoutColumnMembers(ps[m].columns, columnId);
  }

  /** Filtering out the id of the one column that carries it removes that column alone. */
  lemma WithoutColumnAround(a: seq<Column>, x: Column, b: seq<Column>)
    requires forall j :: 0 <= j < |a| ==> a[j].id != x.id
    requires forall j :: 0 <= j < |b| ==> b[j].id != x.id
    ensures WithoutColumn(a + [x] + b, x.id) == a + b
  {
    WithoutColumnKeepsAll(a, x.id);
    WithoutColumnKeepsAll(b, x.id);
    assert WithoutColumn([x], x.id) == [] by {
      assert [x][1..] == [];
    }
    WithoutColumnConcat(a, [x], x.id);
    assert WithoutColumn(a + [x], x.id) == a;
    WithoutColumnConcat(a + [x], b, x.id);
  }

  /** In a list of distinct column ids, removing the id of column `k` removes just that column. */
  lemma WithoutColumnRemovesOne(cols: seq<Column>, k: nat)
    requires ColumnIdsDistinct(cols) && k < |cols|
    ensures WithoutColumn(cols, cols[k].id) == cols[..k] + cols[k + 1..]
  {
    var a, x, b := cols[..k], cols[k], cols[k + 1..];
    assert cols == a + [x] + b;
    forall j | 0 <= j < |a| ensures a[j].id != x.id {
      assert a[j] == cols[j];
    }
    forall j | 0 <= j < |b| ensures b[j].id != x.id {
      assert b[j] == cols[k + 1 + j];
    }
    WithoutColumnAround(a, x, b);
  }

  /** Deleting a column removes exactly the ids of its tasks from the project. */
  lemma WithoutColumnDropsItsTasks(p: Project, k: nat)
    requires ProjectWellFormed(p) && k < |p.columns|
    ensures TaskIds(WithoutColumn(p.columns, p.columns[k].id)) + IdBag(p.columns[k].tasks) == TaskIds(p.columns)
  {
    WithoutColumnRemovesOne(p.columns, k);
    TaskIdsAround(p.columns, k);
  }

  /** In a well-formed project no task left after deleting a column still points at it. */
  lemma WithoutColumnLeavesNoOrphan(p: Project, id: string)
    requires ProjectWellFormed(p)
    ensures forall c, t :: c in WithoutColumn(p.columns, id) && t in c.tasks ==> t.columnId != id
  {
    WithoutColumnMembers(p.columns, id);
    forall c, t | c in WithoutColumn(p.columns, id) && t in c.tasks ensures t.columnId != id {
      assert c in p.columns;
    }
  }

  lemma {:induction false} WithoutColumnKeepsAll(cols: seq<Column>, id: string)
    requires forall j :: 0 <= j < |cols| ==> cols[j].id != id
    ensures WithoutColumn(cols, id) == cols
  {
    if cols != [] {
      assert forall j :: 0 <= j < |cols[1..]| ==> cols[1..][j] == cols[j + 1];
      WithoutColumnKeepsAll(cols[1..], id);
      assert cols == [cols[0]] + cols[1..];
    }
  }

  /** Removing columns with an id keeps a project well formed. */
  lemma WithoutColumnKeepsProjectWellFormed(p: Project, id: string)
    requires ProjectWellFormed(p)
    ensures ProjectWellFormed(p.(columns := WithoutColumn(p.columns, id)))
  {
    WithoutColumnTaskIds(p.columns, id);
    WithoutColumnKeepsDistinct(p.columns, id);
    WithoutColumnMembers(p.columns, id);
    ProjectWellFormedAfter(p, WithoutColumn(p.columns, id));
  }

  /** Deleting a column keeps the board well formed. */
  lemma DeleteColumnKeepsWellFormed(ps: seq<Project>, sel: string, columnId: string)
    requires BoardWellFormed(ps)
    ensures BoardWellFormed(DeleteColumn(ps, sel, columnId))
  {
    var r := DeleteColumn(ps, sel, columnId);
    forall m | 0 <= m < |ps| && ProjectWellFormed(ps[m]) ensures ProjectWellFormed(r[m]) {
      if ps[m].id == sel {
        WithoutColumnKeepsProjectWellFormed(ps[m], columnId);
      }
    }
    BoardWellFormedStep(ps, r);
  }

  /** The projects after the confirmed deletion of `item`: only the first project with the selected id is touched. */
  function ApplyDelete(ps: seq<Project>, sel: string, item: PendingDelete): (r: seq<Project>)
    requires item.kind == ColumnType || item.kind == TaskType ==> HasProject(ps, sel)
    ensures |r| == |ps| && forall m :: 0 <= m < |ps| ==> r[m].id == ps[m].id
  {
    if item.kind == ColumnType then
      var pi := ProjectIndex(ps, sel);
      ps[pi := ps[pi].(columns := WithoutColumn(ps[pi].columns, item.id))]
    else if item.kind == TaskType then
      var pi := ProjectIndex(ps, sel);
      ps[pi := ps[pi].(columns := WithoutTask(ps[pi].columns, item.id))]
    else ps
  }

  /**
   * A confirmed task deletion leaves no task with that id in any column of
   * the selected project, keeps every other task of it (and every column,
   * with its fields) and leaves the other projects alone.
   */
  lemma DeleteTaskRemovesIt(ps: seq<Project>, sel: string, id: string)
    requires HasProject(ps, sel)
    ensures var pi := ProjectIndex(ps, sel);
            var r := ApplyDelete(ps, sel, PendingDelete(TaskType, id));
            && |r| == |ps|
            && (forall m :: 0 <= m < |ps| && m != pi ==> r[m] == ps[m])
            && r[pi] == ps[pi].(columns := r[pi].columns)
            && |r[pi].columns| == |ps[pi].columns|
            && forall k :: 0 <= k < |ps[pi].columns| ==>
                 && r[pi].columns[k] == ps[pi].columns[k].(tasks := r[pi].columns[k].tasks)
                 && forall t :: t in r[pi].columns[k].tasks <==> t in ps[pi].columns[k].tasks && t.id != id
  {
    assert TaskType != ColumnType;
  }

  /**
   * On a well-formed board a confirmed task deletion keeps every column's
   * remaining tasks in their order: a column holding the task loses exactly
   * that position, and a column without it is unchanged.
   */
  lemma DeleteTaskKeepsOrder(ps: seq<Project>, sel: string, id: string)
    requires BoardWellFormed(ps) && HasProject(ps, sel)
    ensures var pi := ProjectIndex(ps, sel);
            var r := ApplyDelete(ps, sel, PendingDelete(TaskType, id));
            forall k :: 0 <= k < |ps[pi].columns| ==>
              var ts := ps[pi].columns[k].tasks;
              && ((forall i :: 0 <= i < |ts| ==> ts[i].id != id) ==> r[pi].columns[k].tasks == ts)
              && (forall i :: 0 <= i < |ts| && ts[i].id == id ==> r[pi].columns[k].tasks == ts[..i] + ts[i + 1..])
  {
    var pi := ProjectIndex(ps, sel);
    var cols := ps[pi].columns;
    var r := ApplyDelete(ps, sel, PendingDelete(TaskType, id));
    assert ps[pi] in ps;
    assert TaskType != ColumnType;
    forall k | 0 <= k < |cols|
      ensures var ts := cols[k].tasks;
              && ((forall i :: 0 <= i < |ts| ==> ts[i].id != id) ==> r[pi].columns[k].tasks == ts)
              && (forall i :: 0 <= i < |ts| && ts[i].id == id ==> r[pi].columns[k].tasks == ts[..i] + ts[i + 1..])
    {
      var ts := cols[k].tasks;
      assert r[pi].columns[k].tasks == WithoutTaskId(ts, id);
      ColumnTasksDistinct(cols, k);
      if forall i :: 0 <= i < |ts| ==> ts[i].id != id {
        WithoutTaskIdKeepsAll(ts, id);
      }
      forall i | 0 <= i < |ts| && ts[i].id == id ensures r[pi].columns[k].tasks == ts[..i] + ts[i + 1..] {
        WithoutTaskIdRemovesOne(ts, i);
      }
    }
  }

  /** Any other pending kind deletes nothing. */
  lemma DeleteOtherKindIsNoop(ps: seq<Project>, sel: string, item: PendingDelete)
    requires item.kind != ColumnType && item.kind != TaskType
    ensures ApplyDelete(ps, sel, item) == ps
  {
  }

  /** Removing a task id from every column keeps a project well formed. */
  lemma WithoutTaskKeepsProjectWellFormed(p: Project, id: string)
    requires ProjectWellFormed(p)
    ensures ProjectWellFormed(p.(columns := WithoutTask(p.columns, id)))
  {
    var newCols := WithoutTask(p.columns, id);
    forall c | c in newCols ensures ColumnWellFormed(c, p.id) {
      var k :| 0 <= k < |newCols| && newCols[k] == c;
      assert p.columns[k] in p.columns;
    }
    forall k | 0 <= k < |p.columns| ensures IdBag(newCols[k].tasks) <= IdBag(p.columns[k].tasks) {
      WithoutTaskIdBag(p.columns[k].tasks, id);
    }
    TaskIdsPointwise(newCols, p.columns);
    ProjectWellFormedAfter(p, newCols);
  }

  /** A confirmed deletion keeps the board well formed. */
  lemma ApplyDeleteKeepsWellFormed(ps: seq<Project>, sel: string, item: PendingDelete)
    requires BoardWellFormed(ps)
    requires item.kind == ColumnType || item.kind == TaskType ==> HasProject(ps, sel)
    ensures BoardWellFormed(ApplyDelete(ps, sel, item))
  {
    if item.kind == ColumnType || item.kind == TaskType {
      var pi := ProjectIndex(ps, sel);
      assert ps[pi] in ps;
      if item.kind == ColumnType {
        WithoutColumnKeepsProjectWellFormed(ps[pi], item.id);
      } else {
        WithoutTaskKeepsProjectWellFormed(ps[pi], item.id);
      }
      BoardWellFormedStep(ps, ApplyDelete(ps, sel, item));
    }
  }
}

/**
 * Lookups over the project list and the invariants that keep the record
 * graph consistent: every column and task points back at its owner, column
 * ids are distinct within a project and task ids are distinct across it.
 */
module Board {
  import opened Types
  import opened JsArray

  // ---------------------------------------------------------------- lookups

  /** `projects.findIndex(p => p.id === id)`. */
  function ProjectIndex(ps: seq<Project>, id: string): (r: int)
    ensures -1 <= r < |ps|
    ensures r >= 0 ==> ps[r].id == id && forall m :: 0 <= m < r ==> ps[m].id != id
    ensures r == -1 ==> forall m :: 0 <= m < |ps| ==> ps[m].id != id
  {
    FirstIndex(ps, (p: Project) => p.id, id)
  }

  predicate HasProject(ps: seq<Project>, id: string) {
    exists m :: 0 <= m < |ps| && ps[m].id == id
  }

  /** The project `projects.find(p => p.id === id)!` stands for. */
  function SelectedProject(ps: seq<Project>, id: string): (p: Project)
    requires HasProject(ps, id)
    ensures p.id == id && p in ps
    ensures exists m :: 0 <= m < |ps| && ps[m] == p && forall j :: 0 <= j < m ==> ps[j].id != id
  {
    ps[ProjectIndex(ps, id)]
  }

  /** `columns.findIndex(col => col.id === id)`. */
  function ColumnIndex(cols: seq<Column>, id: string): (r: int)
    ensures -1 <= r < |cols|
    ensures r >= 0 ==> cols[r].id == id && forall m :: 0 <= m < r ==> cols[m].id != id
    ensures r == -1 ==> forall m :: 0 <= m < |cols| ==> cols[m].id != id
  {
    FirstIndex(cols, (c: Column) => c.id, id)
  }

  /** `columns.find(col => col.id === id)`: the first column with that id, if any. */
  function FindColumn(cols: seq<Column>, id: string): (r: Option<Column>)
    ensures r.Some? <==> exists m :: 0 <= m < |cols| && cols[m].id == id
    ensures r.Some? ==> r.value.id == id && r.value == cols[ColumnIndex(cols, id)]
  {
    var k := ColumnIndex(cols, id);
    if k < 0 then None else Some(cols[k])
  }

  // ------------------------------------------------------------ task id bags

  /** The ids of a task list, in order. */
  function Ids(ts: seq<Task>): (r: seq<string>)
    ensures |r| == |ts|
  {
    seq(|ts|, i requires 0 <= i < |ts| => ts[i].id)
  }

  /** The ids of a task list, with multiplicity. */
  function IdBag(ts: seq<Task>): (b: multiset<string>)
    ensures |b| == |ts|
  {
    multiset(Ids(ts))
  }

  lemma IdBagCons(t: Task, ts: seq<Task>)
    ensures IdBag([t] + ts) == multiset{t.id} + IdBag(ts)
  {
    assert Ids([t] + ts) == [t.id] + Ids(ts);
  }

  /** The ids of every task on a board, with multiplicity. */
  function TaskIds(cols: seq<Column>): multiset<string> {
    if cols == [] then multiset{} else IdBag(cols[0].tasks) + TaskIds(cols[1..])
  }

  /** How many tasks the columns hold altogether. */
  function TaskCount(cols: seq<Column>): nat {
    if cols == [] then 0 else |cols[0].tasks| + TaskCount(cols[1..])
  }

  lemma {:induction false} TaskCountIsBagSize(cols: seq<Column>)
    ensures TaskCount(cols) == |TaskIds(cols)|
  {
    if cols != [] {
      TaskCountIsBagSize(cols[1..]);
    }
  }

  lemma {:induction false} TaskIdsConcat(a: seq<Column>, b: seq<Column>)
    ensures TaskIds(a + b) == TaskIds(a) + TaskIds(b)
  {
    if a == [] {
      assert a + b == b;
    } else {
      assert (a + b)[0] == a[0];
      assert (a + b)[1..] == a[1..] + b;
      TaskIdsConcat(a[1..], b);
    }
  }

  /** Splicing a column in between two lists adds exactly the ids of its tasks. */
  lemma TaskIdsSplice(a: seq<Column>, x: Column, b: seq<Column>)
    ensures TaskIds(a + [x] + b) == TaskIds(a + b) + IdBag(x.tasks)
  {
    TaskIdsConcat(a + [x], b);
    TaskIdsConcat(a, [x]);
    TaskIdsConcat(a, b);
    assert TaskIds([x]) == IdBag(x.tasks);
  }

  /** Taking a task out of a list takes exactly its id out of the list's ids. */
  lemma IdBagRemoveAt(ts: seq<Task>, i: nat)
    requires i < |ts|
    ensures IdBag(RemoveAt(ts, i)) + multiset{ts[i].id} == IdBag(ts)
  {
    var ids := Ids(ts);
    assert Ids(RemoveAt(ts, i)) == ids[..i] + ids[i + 1..];
    assert ids == ids[..i] + [ids[i]] + ids[i + 1..];
  }

  /** Inserting a task into a list adds exactly its id to the list's ids. */
  lemma IdBagInsertAt(ts: seq<Task>, j: nat, t: Task)
    ensures IdBag(InsertAt(ts, j, t)) == IdBag(ts) + multiset{t.id}
  {
    var k := Clamp(j, |ts|);
    var ids := Ids(ts);
    assert Ids(InsertAt(ts, j, t)) == ids[..k] + [t.id] + ids[k..];
    assert ids == ids[..k] + ids[k..];
  }

  /** Reordering a task list keeps its ids. */
  lemma IdBagReorder(ts: seq<Task>, i: nat, j: nat)
    requires i < |ts|
    ensures IdBag(Reorder(ts, i, j)) == IdBag(ts)
  {
    IdBagRemoveAt(ts, i);
    IdBagInsertAt(RemoveAt(ts, i), j, ts[i]);
  }

  /** The task ids of a board are those of column `i` and those of the other columns. */
  lemma TaskIdsAround(cols: seq<Column>, i: nat)
    requires i < |cols|
    ensures TaskIds(cols) == TaskIds(cols[..i] + cols[i + 1..]) + IdBag(cols[i].tasks)
  {
    var a, c, b := cols[..i], cols[i..], cols[i + 1..];
    assert cols == a + c;
    TaskIdsConcat(a, c);
    assert c[1..] == b;
    assert TaskIds(c) == IdBag(cols[i].tasks) + TaskIds(b);
    TaskIdsConcat(a, b);
  }

  lemma TaskIdsRemoveAt(cols: seq<Column>, i: nat)
    requires i < |cols|
    ensures TaskIds(RemoveAt(cols, i)) + IdBag(cols[i].tasks) == TaskIds(cols)
  {
    TaskIdsAround(cols, i);
    assert RemoveAt(cols, i) == cols[..i] + cols[i + 1..];
  }

  lemma TaskIdsInsertAt(cols: seq<Column>, j: nat, c: Column)
    ensures TaskIds(InsertAt(cols, j, c)) == TaskIds(cols) + IdBag(c.tasks)
  {
    var k := Clamp(j, |cols|);
    assert cols == cols[..k] + cols[k..];
    TaskIdsSplice(cols[..k], c, cols[k..]);
  }

  /** Reordering columns keeps the ids of the tasks on the board. */
  lemma TaskIdsReorder(cols: seq<Column>, i: nat, j: nat)
    requires i < |cols|
    ensures TaskIds(Reorder(cols, i, j)) == TaskIds(cols)
  {
    TaskIdsRemoveAt(cols, i);
    TaskIdsInsertAt(RemoveAt(cols, i), j, cols[i]);
  }

  /** Replacing column `k` swaps the ids of its tasks for those of the new column's. */
  lemma TaskIdsUpdate(cols: seq<Column>, k: nat, c: Column)
    requires k < |cols|
    ensures TaskIds(cols[k := c]) + IdBag(cols[k].tasks) == TaskIds(cols) + IdBag(c.tasks)
  {
    var u := cols[k := c];
    TaskIdsAround(cols, k);
    TaskIdsAround(u, k);
    assert u[..k] == cols[..k] && u[k + 1..] == cols[k + 1..];
  }

  lemma MultisetCancel(a: multiset<string>, b: multiset<string>, x: multiset<string>)
    requires a + x == b + x
    ensures a == b
  {
    forall e ensures a[e] == b[e] {
      assert (a + x)[e] == (b + x)[e];
    }
  }

  /** Replacing a column by one whose tasks carry the same ids keeps the board's task ids. */
  lemma TaskIdsUpdateSameIds(cols: seq<Column>, k: nat, c: Column)
    requires k < |cols| && IdBag(c.tasks) == IdBag(cols[k].tasks)
    ensures TaskIds(cols[k := c]) == TaskIds(cols)
  {
    TaskIdsUpdate(cols, k, c);
    MultisetCancel(TaskIds(cols[k := c]), TaskIds(cols), IdBag(c.tasks));
  }

  /** Moving one task id from column `si` to column `di` keeps the board's task ids. */
  lemma TaskIdsTransfer(cols: seq<Column>, si: nat, di: nat, sc: Column, dc: Column, id: string)
    requires si < |cols| && di < |cols| && si != di
    requires IdBag(sc.tasks) + multiset{id} == IdBag(cols[si].tasks)
    requires IdBag(dc.tasks) == IdBag(cols[di].tasks) + multiset{id}
    ensures TaskIds(cols[si := sc][di := dc]) == TaskIds(cols)
  {
    var mid := cols[si := sc];
    TaskIdsUpdate(cols, si, sc);
    assert mid[di] == cols[di];
    TaskIdsUpdate(mid, di, dc);
    var after := mid[di := dc];
    forall e ensures TaskIds(after)[e] == TaskIds(cols)[e] {
      assert (TaskIds(mid) + IdBag(cols[si].tasks))[e] == (TaskIds(cols) + IdBag(sc.tasks))[e];
      assert (TaskIds(after) + IdBag(cols[di].tasks))[e] == (TaskIds(mid) + IdBag(dc.tasks))[e];
      assert (IdBag(sc.tasks) + multiset{id})[e] == IdBag(cols[si].tasks)[e];
      assert IdBag(dc.tasks)[e] == (IdBag(cols[di].tasks) + multiset{id})[e];
    }
  }

  /** Columns whose task ids shrink column by column carry fewer task ids altogether. */
  lemma {:induction false} TaskIdsPointwise(a: seq<Column>, b: seq<Column>)
    requires |a| == |b|
    requires forall k :: 0 <= k < |a| ==> IdBag(a[k].tasks) <= IdBag(b[k].tasks)
    ensures TaskIds(a) <= TaskIds(b)
  {
    if a != [] {
      TaskIdsPointwise(a[1..], b[1..]);
    }
  }

  // -------------------------------------------------------------- invariants

  /** A column belongs to project `pid` and each of its tasks to it and to `pid`. */
  predicate ColumnWellFormed(c: Column, pid: string) {
    && c.projectId == pid
    && forall t :: t in c.tasks ==> t.columnId == c.id && t.projectId == pid
  }

  predicate ColumnIdsDistinct(cols: seq<Column>) {
    forall a, b :: 0 <= a < b < |cols| ==> cols[a].id != cols[b].id
  }

  ghost predicate TaskIdsDistinct(cols: seq<Column>) {
    forall id :: TaskIds(cols)[id] <= 1
  }

  /** No two tasks of one list share an id. */
  predicate TaskListDistinct(ts: seq<Task>) {
    forall i, j :: 0 <= i < j < |ts| ==> ts[i].id != ts[j].id
  }

  /** Distinct task ids across the columns make the ids of each column's list distinct. */
  lemma ColumnTasksDistinct(cols: seq<Column>, k: nat)
    requires TaskIdsDistinct(cols) && k < |cols|
    ensures TaskListDistinct(cols[k].tasks)
  {
    var ts := cols[k].tasks;
    TaskIdsAround(cols, k);
    forall i, j | 0 <= i < j < |ts| ensures ts[i].id != ts[j].id {
      var ids := Ids(ts);
      assert ids == ids[..j] + ids[j..];
      assert ids[i] in ids[..j] && ids[j] in ids[j..];
      var x := ids[i];
      assert multiset(ids)[x] == multiset(ids[..j])[x] + multiset(ids[j..])[x];
      assert TaskIds(cols)[x] >= IdBag(ts)[x];
      assert multiset(ids[j..])[x] == 0;
    }
  }

  ghost predicate ProjectWellFormed(p: Project) {
    && (forall c :: c in p.columns ==> ColumnWellFormed(c, p.id))
    && ColumnIdsDistinct(p.columns)
    && TaskIdsDistinct(p.columns)
  }

  predicate ProjectIdsDistinct(ps: seq<Project>) {
    forall a, b :: 0 <= a < b < |ps| ==> ps[a].id != ps[b].id
  }

  ghost predicate BoardWellFormed(ps: seq<Project>) {
    && ProjectIdsDistinct(ps)
    && forall p :: p in ps ==> ProjectWellFormed(p)
  }

  /**
   * A board keeps its invariant when every project keeps its position and id
   * and every well-formed project stays well formed.
   */
  lemma BoardWellFormedStep(ps: seq<Project>, ps': seq<Project>)
    requires BoardWellFormed(ps)
    requires |ps'| == |ps|
    requires forall m :: 0 <= m < |ps| ==> ps'[m].id == ps[m].id
    requires forall m :: 0 <= m < |ps| && ProjectWellFormed(ps[m]) ==> ProjectWellFormed(ps'[m])
    ensures BoardWellFormed(ps')
  {
    forall p | p in ps' ensures ProjectWellFormed(p) {
      var m :| 0 <= m < |ps'| && ps'[m] == p;
      assert ps[m] in ps;
    }
  }

  /**
   * A project stays well formed when its new columns are well formed, keep
   * distinct ids and carry no task id the old columns did not carry as often.
   */
  lemma ProjectWellFormedAfter(p: Project, cols: seq<Column>)
    requires ProjectWellFormed(p)
    requires forall c :: c in cols ==> ColumnWellFormed(c, p.id)
    requires ColumnIdsDistinct(cols)
    requires TaskIds(cols) <= TaskIds(p.columns)
    ensures ProjectWellFormed(p.(columns := cols))
  {
    forall id ensures TaskIds(cols)[id] <= 1 {
      assert TaskIds(cols)[id] <= TaskIds(p.columns)[id];
    }
  }

  /** Reordering columns keeps their ids distinct. */
  lemma ReorderKeepsColumnIdsDistinct(cols: seq<Column>, i: nat, j: nat)
    requires ColumnIdsDistinct(cols) && i < |cols|
    ensures ColumnIdsDistinct(Reorder(cols, i, j))
  {
    var r := Reorder(cols, i, j);
    var d := Landing(|cols|, j);
    forall a, b | 0 <= a < b < |r| ensures r[a].id != r[b].id {
      ReorderAt(cols, i, j, a);
      ReorderAt(cols, i, j, b);
      ReorderSourceInjective(|cols|, i, d, a, b);
    }
  }

  /** With distinct column ids, the column found by id is the only one carrying it. */
  lemma FoundColumnIsUnique(cols: seq<Column>, id: string, k: nat)
    requires ColumnIdsDistinct(cols)
    requires k < |cols| && cols[k].id == id
    ensures ColumnIndex(cols, id) == k
  {
  }
}

/**
 * The board the page starts with, and what the handlers do to it on a few
 * concrete gestures. The four task timestamps are inputs: the page reads
 * the clock once for each.
 */
module Scenarios {
  import opened Types
  import opened JsArray
  import opened Board
  import opened Drag
  import Edits
  import JsString

  function Task1(created: string, updated: string): Task {
    Task("task1", "Task 1", "Description for Task 1", Medium, Todo, None,
         [Tag("tag1", "Frontend", "#3498db")], [], [], "col1", "1", created, updated, None, "John Doe", 0)
  }

  function Task2(created: string, updated: string): Task {
    Task("task2", "Task 2", "Description for Task 2", High, Todo, None,
         [Tag("tag2", "Backend", "#2ecc71")], [], [], "col1", "1", created, updated, None, "Jane Smith", 1)
  }

  /** One project "1" with columns "To Do" (two tasks), "In Progress" and "Done". */
  function InitialProjects(c1: string, u1: string, c2: string, u2: string): (ps: seq<Project>)
    ensures |ps| == 1 && ps[0].id == "1" && |ps[0].columns| == 3
  {
    [Project("1", "Project A", None,
       [Column("col1", "To Do", [Task1(c1, u1), Task2(c2, u2)], "1", 0),
        Column("col2", "In Progress", [], "1", 1),
        Column("col3", "Done", [], "1", 2)],
       "", "")]
  }

  /** The starting board satisfies the invariant every handler keeps. */
  lemma InitialProjectsWellFormed(c1: string, u1: string, c2: string, u2: string)
    ensures BoardWellFormed(InitialProjects(c1, u1, c2, u2))
    ensures HasProject(InitialProjects(c1, u1, c2, u2), "1")
  {
    var ps := InitialProjects(c1, u1, c2, u2);
    var p := ps[0];
    assert p.columns[0].tasks == [Task1(c1, u1), Task2(c2, u2)];
    assert IdBag(p.columns[0].tasks) == multiset{"task1", "task2"} by {
      assert Ids(p.columns[0].tasks) == ["task1", "task2"];
    }
    var cols := p.columns;
    assert TaskIds(cols[2..]) == multiset{} by {
      assert cols[2..][1..] == [];
      assert cols[2..][0].tasks == [];
    }
    assert TaskIds(cols[1..]) == multiset{} by {
      assert cols[1..][1..] == cols[2..];
      assert cols[1..][0].tasks == [];
    }
    assert TaskIds(cols) == multiset{"task1", "task2"};
    assert forall c :: c in ps ==> c == p;
  }

  /** Dragging "Task 1" to the top of "In Progress" empties it out of "To Do" and re-owns it. */
  lemma MoveTask1ToInProgress(c1: string, u1: string, c2: string, u2: string, kind: string)
    requires kind != ColumnType
    ensures var r := DropResult(kind, "task1", DraggableLocation("col1", 0), Some(DraggableLocation("col2", 0)));
            var after := ApplyDrop(InitialProjects(c1, u1, c2, u2), "1", r)[0].columns;
            && after[0].tasks == [Task2(c2, u2)]
            && after[1].tasks == [Task1(c1, u1).(columnId := "col2")]
            && after[2] == InitialProjects(c1, u1, c2, u2)[0].columns[2]
  {
    var ps := InitialProjects(c1, u1, c2, u2);
    var cols := ps[0].columns;
    var r := DropResult(kind, "task1", DraggableLocation("col1", 0), Some(DraggableLocation("col2", 0)));
    assert FindColumn(cols, "col1") == Some(cols[0]);
    assert FindColumn(cols, "col2") == Some(cols[1]);
    assert RemoveAt(cols[0].tasks, 0) == [Task2(c2, u2)];
    assert DropColumns(cols, r) == MoveTaskColumns(cols, cols[0], cols[1], 0, 0);
  }

  /** Dragging the first column past the last rotates the columns. */
  lemma DragFirstColumnToEnd(c1: string, u1: string, c2: string, u2: string)
    ensures var ps := InitialProjects(c1, u1, c2, u2);
            var r := DropResult(ColumnType, "col1", DraggableLocation("board", 0), Some(DraggableLocation("board", 2)));
            var cols := ps[0].columns;
            ApplyDrop(ps, "1", r)[0].columns == [cols[1], cols[2], cols[0]]
  {
    var cols := InitialProjects(c1, u1, c2, u2)[0].columns;
    ReorderRotates(cols[0], cols[1], cols[2]);
    assert cols == [cols[0], cols[1], cols[2]];
  }

  /** Confirming the deletion of "Task 2" leaves "Task 1" alone in "To Do". */
  lemma DeleteTask2(c1: string, u1: string, c2: string, u2: string)
    ensures var ps := InitialProjects(c1, u1, c2, u2);
            Edits.ApplyDelete(ps, "1", PendingDelete(TaskType, "task2"))[0].columns[0].tasks == [Task1(c1, u1)]
  {
    var ts := [Task1(c1, u1), Task2(c2, u2)];
    assert ts[1..] == [Task2(c2, u2)];
    assert ts[1..][1..] == [];
    assert Edits.WithoutTaskId(ts, "task2") == [Task1(c1, u1)];
  }

  /** A title of spaces adds no column. */
  lemma BlankColumnTitleIsIgnored(c1: string, u1: string, c2: string, u2: string, freshId: string)
    ensures var ps := InitialProjects(c1, u1, c2, u2);
            Edits.AddNewColumn(ps, "1", "   ", freshId) == ps
  {
    assert JsString.IsBlank("   ");
  }
}

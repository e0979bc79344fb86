/** The `Tasks` table created in client/database.js and the statements the
    screen runs against it (INSERT, UPDATE, DELETE, SELECT *), each as a
    function from the rows before the statement to the rows after it. */
module TaskTable {
  import opened Wrappers
  import Seqs

  /** One stored row: `id INTEGER PRIMARY KEY NOT NULL, title TEXT, completed INTEGER`. */
  datatype Row = Row(id: int, title: string, completed: int)

  /** The screen's in-memory task. */
  datatype Task = Task(id: int, title: string, completed: bool)

  /** The object `fetchTasks` pushes for one row: the flag is `row.completed === 1`. */
  function ToTask(row: Row): Task
  {
    Task(row.id, row.title, row.completed == 1)
  }

  /** The task list `fetchTasks` builds from the result of `SELECT * FROM Tasks`:
      one task per row, in row order, with the same id and title, completed
      exactly when the stored integer is 1. */
  function Load(rows: seq<Row>): (ts: seq<Task>)
    ensures |ts| == |rows|
    ensures forall i :: 0 <= i < |rows| ==>
      ts[i].id == rows[i].id && ts[i].title == rows[i].title &&
      (ts[i].completed <==> rows[i].completed == 1)
  {
    if rows == [] then [] else [ToTask(rows[0])] + Load(rows[1..])
  }

  /** The loop of `fetchTasks`: walks the result rows and pushes one task per row. */
  method ReadAll(rows: seq<Row>) returns (temp: seq<Task>)
    ensures temp == Load(rows)
  {
    temp := [];
    for i := 0 to |rows|
      invariant |temp| == i
      invariant forall k :: 0 <= k < i ==> temp[k] == ToTask(rows[k])
    {
      temp := temp + [ToTask(rows[i])];
    }
  }

  /** The ids present in the table. */
  function Ids(rows: seq<Row>): set<int>
  {
    set r | r in rows :: r.id
  }

  /** The primary-key constraint: no two rows share an id. */
  predicate UniqueIds(rows: seq<Row>)
  {
    forall i, j :: 0 <= i < j < |rows| ==> rows[i].id != rows[j].id
  }

  /** `SELECT *` scans a rowid table in id order, so the sequence of rows, which
      stands for that scan, has strictly increasing ids. */
  predicate Ascending(rows: seq<Row>)
  {
    forall i, j :: 0 <= i < j < |rows| ==> rows[i].id < rows[j].id
  }

  /** The id SQLite gives a row inserted without one: 1 in an empty table,
      otherwise one more than the largest id in use. */
  function NextId(rows: seq<Row>): (n: int)
    ensures forall r :: r in rows ==> r.id < n
    ensures n !in Ids(rows)
    ensures rows == [] ==> n == 1
    ensures rows != [] ==> n - 1 in Ids(rows)
    decreases |rows|
  {
    if rows == [] then 1
    else if |rows| == 1 then rows[0].id + 1
    else
      var m := NextId(rows[1..]);
      assert forall r :: r in rows ==> r == rows[0] || r in rows[1..];
      assert forall r :: r in rows[1..] ==> r in rows;
      if rows[0].id < m then m else rows[0].id + 1
  }

  /** In a table scanned in id order the next id is one more than the last row's. */
  lemma NextIdAfterLast(rows: seq<Row>)
    requires Ascending(rows) && rows != []
    ensures NextId(rows) == rows[|rows| - 1].id + 1
  {
    var n := NextId(rows);
    var r :| r in rows && r.id == n - 1;
    var k :| 0 <= k < |rows| && rows[k] == r;
    assert rows[|rows| - 1] in rows;
  }

  /** The table after `INSERT INTO Tasks (title, completed) VALUES (title, 0)`,
      for the id `id` the engine assigns. */
  function Inserted(rows: seq<Row>, id: int, title: string): seq<Row>
  {
    rows + [Row(id, title, 0)]
  }

  /** An insert with a fresh id keeps the ids unique. */
  lemma InsertKeepsUnique(rows: seq<Row>, id: int, title: string)
    requires UniqueIds(rows) && id !in Ids(rows)
    ensures UniqueIds(Inserted(rows, id, title))
  {
    forall i | 0 <= i < |rows| ensures rows[i].id != id {
      assert rows[i] in rows;
    }
  }

  /** An insert under the next id lands where the id-order scan puts it: last. */
  lemma InsertKeepsAscending(rows: seq<Row>, title: string)
    requires Ascending(rows)
    ensures Ascending(Inserted(rows, NextId(rows), title))
  {
    forall i | 0 <= i < |rows| ensures rows[i].id < NextId(rows) {
      assert rows[i] in rows;
    }
  }

  /** An insert adds exactly its id to the ids in use. */
  lemma InsertAddsId(rows: seq<Row>, id: int, title: string)
    ensures Ids(Inserted(rows, id, title)) == Ids(rows) + {id}
  {
    var r := Inserted(rows, id, title);
    assert r[|rows|] in r;
    forall x | x in Ids(r) ensures x in Ids(rows) + {id} {
      var row :| row in r && row.id == x;
      if row != Row(id, title, 0) {
        assert row in rows;
      }
    }
  }

  /** After an insert the reload shows the old list followed by one incomplete
      task holding the inserted id and title. */
  lemma InsertThenLoad(rows: seq<Row>, id: int, title: string)
    ensures Load(Inserted(rows, id, title)) == Load(rows) + [Task(id, title, false)]
  {
  }

  /** The table after `UPDATE Tasks SET completed = value WHERE id = id`: every
      row with that id gets the new flag, every other row is unchanged, and the
      order is kept. */
  function Updated(rows: seq<Row>, id: int, value: int): (r: seq<Row>)
    ensures |r| == |rows|
    ensures forall i :: 0 <= i < |rows| && rows[i].id != id ==> r[i] == rows[i]
    ensures forall i :: 0 <= i < |rows| && rows[i].id == id ==> r[i] == rows[i].(completed := value)
  {
    if rows == [] then []
    else
      [if rows[0].id == id then rows[0].(completed := value) else rows[0]] + Updated(rows[1..], id, value)
  }

  /** An UPDATE of the flag keeps every id in its place, so the scan order stays. */
  lemma UpdateKeepsAscending(rows: seq<Row>, id: int, value: int)
    requires Ascending(rows)
    ensures Ascending(Updated(rows, id, value))
  {
    var r := Updated(rows, id, value);
    assert forall i :: 0 <= i < |rows| ==> r[i].id == rows[i].id;
  }

  /** `tasks.find(t => t.id === id)`: the first task with that id, if any. */
  function FindTask(tasks: seq<Task>, id: int): (r: Option<Task>)
    ensures r.None? <==> forall i :: 0 <= i < |tasks| ==> tasks[i].id != id
    ensures r.Some? ==> r.value in tasks && r.value.id == id
  {
    if tasks == [] then None
    else if tasks[0].id == id then Some(tasks[0])
    else FindTask(tasks[1..], id)
  }

  /** The task found is the first one holding the id. */
  lemma {:induction false} FindTaskIsFirst(tasks: seq<Task>, id: int, k: int)
    requires 0 <= k < |tasks| && tasks[k].id == id
    ensures FindTask(tasks, id).Some?
    ensures (forall j :: 0 <= j < k ==> tasks[j].id != id) ==> FindTask(tasks, id) == Some(tasks[k])
  {
    if k > 0 && tasks[0].id != id {
      FindTaskIsFirst(tasks[1..], id, k - 1);
    }
  }

  /** With unique ids, looking an id up in the reloaded list finds the task
      built from the one row holding that id. */
  lemma FindInLoad(rows: seq<Row>, id: int, k: int)
    requires UniqueIds(rows) && 0 <= k < |rows| && rows[k].id == id
    ensures FindTask(Load(rows), id) == Some(ToTask(rows[k]))
  {
    var ts := Load(rows);
    assert ts[k].id == id;
    var found := FindTask(ts, id).value;
    var i :| 0 <= i < |ts| && ts[i] == found;
    assert rows[i].id == id;
    assert i == k;
  }

  /** The value `toggleCompletion` writes: 0 for a completed task, 1 otherwise. */
  function NewCompletedValue(t: Task): (v: int)
    ensures v == 0 || v == 1
    ensures v == 1 <==> !t.completed
  {
    if t.completed then 0 else 1
  }

  /** The table after `toggleCompletion(id)` run against the list loaded from it:
      unchanged when no task has that id, otherwise the UPDATE with the negated flag. */
  function Toggled(rows: seq<Row>, id: int): seq<Row>
  {
    match FindTask(Load(rows), id)
    case None => rows
    case Some(t) => Updated(rows, id, NewCompletedValue(t))
  }

  /** A toggle negates the flag of the task with that id (a stored 1 becomes 0,
      anything else becomes 1) and leaves every other row, the ids and their
      order unchanged. */
  lemma ToggleNegates(rows: seq<Row>, id: int)
    requires UniqueIds(rows)
    ensures |Toggled(rows, id)| == |rows| && UniqueIds(Toggled(rows, id))
    ensures forall i :: 0 <= i < |rows| && rows[i].id != id ==> Toggled(rows, id)[i] == rows[i]
    ensures forall i :: 0 <= i < |rows| && rows[i].id == id ==>
      Toggled(rows, id)[i] == rows[i].(completed := if rows[i].completed == 1 then 0 else 1)
  {
    if k :| 0 <= k < |rows| && rows[k].id == id {
      FindInLoad(rows, id, k);
      var r := Updated(rows, id, NewCompletedValue(ToTask(rows[k])));
      assert Toggled(rows, id) == r;
      forall i | 0 <= i < |rows| && rows[i].id == id
        ensures r[i] == rows[i].(completed := if rows[i].completed == 1 then 0 else 1)
      {
        assert i == k;
      }
    } else {
      assert FindTask(Load(rows), id).None?;
    }
  }

  /** Toggling an id no row holds leaves the table as it was. */
  lemma ToggleUnknownId(rows: seq<Row>, id: int)
    requires id !in Ids(rows)
    ensures Toggled(rows, id) == rows
  {
    forall i | 0 <= i < |rows| ensures Load(rows)[i].id != id {
      assert rows[i] in rows;
    }
  }

  /** One toggle step as the screen runs it: the task found in the loaded list
      decides the value written, and the ids stay unique. */
  lemma ToggleStep(rows: seq<Row>, id: int, t: Task)
    requires UniqueIds(rows) && FindTask(Load(rows), id) == Some(t)
    ensures Toggled(rows, id) == Updated(rows, id, NewCompletedValue(t))
    ensures UniqueIds(Updated(rows, id, NewCompletedValue(t)))
  {
    ToggleNegates(rows, id);
  }

  /** Two toggles of the same id leave every row as it was, except that the
      stored flag of the row with that id is normalised to 0 or 1. */
  lemma ToggleTwiceRows(rows: seq<Row>, id: int)
    requires UniqueIds(rows)
    ensures |Toggled(Toggled(rows, id), id)| == |rows|
    ensures forall i :: 0 <= i < |rows| ==>
      Toggled(Toggled(rows, id), id)[i] ==
        if rows[i].id == id then rows[i].(completed := if rows[i].completed == 1 then 1 else 0) else rows[i]
  {
    ToggleNegates(rows, id);
    var once := Toggled(rows, id);
    ToggleNegates(once, id);
    forall i | 0 <= i < |rows| && rows[i].id == id ensures once[i].id == id { }
  }

  /** Toggling the same id twice restores the in-memory list. */
  lemma ToggleTwiceRestores(rows: seq<Row>, id: int)
    requires UniqueIds(rows)
    ensures Load(Toggled(Toggled(rows, id), id)) == Load(rows)
  {
    ToggleTwiceRows(rows, id);
    var twice := Toggled(Toggled(rows, id), id);
    var before, after := Load(rows), Load(twice);
    forall i | 0 <= i < |rows| ensures after[i] == before[i] {
      assert twice[i].id == rows[i].id && twice[i].title == rows[i].title;
      assert twice[i].completed == 1 <==> rows[i].completed == 1;
    }
    assert after == before;
  }

  /** When every stored flag is 0 or 1, as the screen's own writes leave them,
      toggling the same id twice restores the table itself. */
  lemma ToggleTwiceRestoresTable(rows: seq<Row>, id: int)
    requires UniqueIds(rows)
    requires forall i :: 0 <= i < |rows| ==> rows[i].completed == 0 || rows[i].completed == 1
    ensures Toggled(Toggled(rows, id), id) == rows
  {
    ToggleTwiceRows(rows, id);
    var twice := Toggled(Toggled(rows, id), id);
    forall i | 0 <= i < |rows| ensures twice[i] == rows[i] { }
    assert twice == rows;
  }

  /** The `WHERE` test a DELETE leaves a row standing under. */
  function RowOtherThan(id: int): Row -> bool
  {
    (row: Row) => row.id != id
  }

  /** The same test on in-memory tasks. */
  function TaskOtherThan(id: int): Task -> bool
  {
    (t: Task) => t.id != id
  }

  /** The table after `DELETE FROM Tasks WHERE id = id`: the rows with another
      id, in their order. No row with the id is left; a missing id leaves the
      table as it was. */
  function Deleted(rows: seq<Row>, id: int): (r: seq<Row>)
    ensures id !in Ids(r)
    ensures forall row :: row in r <==> row in rows && row.id != id
    ensures Seqs.IsSubseq(r, rows)
    ensures id !in Ids(rows) ==> r == rows
  {
    Seqs.SelectSpec(rows, RowOtherThan(id));
    Seqs.Select(rows, RowOtherThan(id))
  }

  /** A delete keeps every other row exactly as often as the table held it. */
  lemma DeleteCounts(rows: seq<Row>, id: int)
    ensures forall row :: multiset(Deleted(rows, id))[row] ==
                          if row.id != id then multiset(rows)[row] else 0
  {
    Seqs.SelectSpec(rows, RowOtherThan(id));
  }

  /** Deleting keeps the ids unique. */
  lemma {:induction false} DeleteKeepsUnique(rows: seq<Row>, id: int)
    requires UniqueIds(rows)
    ensures UniqueIds(Deleted(rows, id))
    decreases |rows|
  {
    if rows != [] {
      var tail := rows[1..];
      assert UniqueIds(tail) by {
        forall i, j | 0 <= i < j < |tail| ensures tail[i].id != tail[j].id {
          assert tail[i] == rows[i + 1] && tail[j] == rows[j + 1];
        }
      }
      DeleteKeepsUnique(tail, id);
      var rest := Deleted(tail, id);
      assert rest == Seqs.Select(tail, RowOtherThan(id));
      if rows[0].id != id {
        var r := Deleted(rows, id);
        assert r == [rows[0]] + rest;
        forall i, j | 0 <= i < j < |r| ensures r[i].id != r[j].id {
          if i == 0 {
            assert r[j] == rest[j - 1] && r[j] in tail;
            var m :| 0 <= m < |tail| && tail[m] == r[j];
            assert tail[m] == rows[m + 1];
          } else {
            assert r[i] == rest[i - 1] && r[j] == rest[j - 1];
          }
        }
      } else {
        assert Deleted(rows, id) == rest;
      }
    }
  }

  /** Deleting keeps the rows in id order. */
  lemma {:induction false} DeleteKeepsAscending(rows: seq<Row>, id: int)
    requires Ascending(rows)
    ensures Ascending(Deleted(rows, id))
    decreases |rows|
  {
    if rows != [] {
      var tail := rows[1..];
      assert Ascending(tail) by {
        forall i, j | 0 <= i < j < |tail| ensures tail[i].id < tail[j].id {
          assert tail[i] == rows[i + 1] && tail[j] == rows[j + 1];
        }
      }
      DeleteKeepsAscending(tail, id);
      var rest := Deleted(tail, id);
      assert rest == Seqs.Select(tail, RowOtherThan(id));
      if rows[0].id != id {
        var r := Deleted(rows, id);
        assert r == [rows[0]] + rest;
        forall i, j | 0 <= i < j < |r| ensures r[i].id < r[j].id {
          if i == 0 {
            assert r[j] == rest[j - 1] && r[j] in tail;
            var m :| 0 <= m < |tail| && tail[m] == r[j];
            assert tail[m] == rows[m + 1];
          } else {
            assert r[i] == rest[i - 1] && r[j] == rest[j - 1];
          }
        }
      } else {
        assert Deleted(rows, id) == rest;
      }
    }
  }

  /** The reload after a delete equals the previous list with that id's task
      filtered out. */
  lemma {:induction false} DeleteThenLoad(rows: seq<Row>, id: int)
    ensures Load(Deleted(rows, id)) == Seqs.Select(Load(rows), TaskOtherThan(id))
    decreases |rows|
  {
    if rows != [] {
      DeleteThenLoad(rows[1..], id);
      assert Load(rows) == [ToTask(rows[0])] + Load(rows[1..]);
      assert Load(rows)[1..] == Load(rows[1..]);
      assert Seqs.Select(Load(rows), TaskOtherThan(id)) ==
        if rows[0].id != id then [ToTask(rows[0])] + Seqs.Select(Load(rows[1..]), TaskOtherThan(id))
        else Seqs.Select(Load(rows[1..]), TaskOtherThan(id));
      if rows[0].id != id {
        assert Deleted(rows, id) == [rows[0]] + Deleted(rows[1..], id);
        assert Load([rows[0]] + Deleted(rows[1..], id)) == [ToTask(rows[0])] + Load(Deleted(rows[1..], id));
      } else {
        assert Deleted(rows, id) == Deleted(rows[1..], id);
      }
    }
  }
}

/** The state of the task screen and its handlers. Each SQL statement, its
    success callback and the `fetchTasks` reload that follows are one step. */
module Screen {
  import opened Wrappers
  import opened TaskTable
  import opened Projection
  import Text
  import Seqs

  class HomeScreen {
    /** The rows of the `Tasks` table in the database file. */
    var table: seq<Row>
    /** `dbRef.current` holds a database handle. */
    var hasDb: bool
    /** The component state of the same names. */
    var tasks: seq<Task>
    var displayTasks: seq<Task>
    var searchQuery: string
    var filterCompleted: Option<bool>
    var newTask: string

    /** The derived list is the result of whichever of the two effects ran last. */
    ghost predicate DisplayDerived()
      reads this
    {
      displayTasks == CompletionFilter(tasks, filterCompleted) ||
      displayTasks == SearchFilter(tasks, searchQuery)
    }

    /** The table is in id order (hence keeps its primary key), with a handle
        the in-memory list mirrors the table, and the derived list comes from
        one of the effects. */
    ghost predicate Valid()
      reads this
    {
      Ascending(table) && (hasDb ==> tasks == Load(table)) && DisplayDerived()
    }

    /** The list widget's data: the derived list when it is non-empty, the
        whole in-memory list otherwise; so always drawn from the in-memory list,
        in its order, and empty only when there are no tasks. */
    function Shown(): (r: seq<Task>)
      reads this
      requires Valid()
      ensures displayTasks != [] ==> r == displayTasks
      ensures displayTasks == [] ==> r == tasks
      ensures Seqs.IsSubseq(r, tasks)
      ensures r == [] <==> tasks == []
    {
      SearchFilterExact(tasks, searchQuery);
      CompletionFilterExact(tasks, filterCompleted);
      Rendered(displayTasks, tasks)
    }

    /** The first render over the rows already in the file: empty state, no
        handle yet; both effects have run on the empty list. */
    constructor (stored: seq<Row>)
      requires Ascending(stored)
      ensures Valid()
      ensures table == stored && !hasDb
      ensures tasks == [] && displayTasks == [] && newTask == ""
      ensures searchQuery == "" && filterCompleted == None
    {
      table := stored;
      hasDb := false;
      tasks := [];
      displayTasks := [];
      searchQuery := "";
      filterCompleted := None;
      newTask := "";
    }

    /** `fetchTasks`: with a handle, the list becomes the table's rows read in
        order; the new array re-runs both effects, search first, so the
        completion filter's result is what stays. Without a handle nothing changes. */
    method Fetch()
      requires Ascending(table)
      modifies this`tasks, this`displayTasks
      ensures hasDb ==> Valid() && tasks == Load(table) && displayTasks == CompletionFilter(tasks, filterCompleted)
      ensures !hasDb ==> tasks == old(tasks) && displayTasks == old(displayTasks)
    {
      if hasDb {
        var temp := ReadAll(table);
        tasks := temp;
        displayTasks := SearchFilter(tasks, searchQuery);
        displayTasks := CompletionFilter(tasks, filterCompleted);
      }
    }

    /** The mount effect: `initDB()` resolves with a handle (`gotHandle`) or with
        undefined once its catch has swallowed an error, and `fetchTasks`
        follows. `CREATE TABLE IF NOT EXISTS` leaves the stored rows as they were. */
    method Connect(gotHandle: bool)
      requires Valid()
      modifies this`hasDb, this`tasks, this`displayTasks
      ensures Valid()
      ensures hasDb == gotHandle && table == old(table)
      ensures gotHandle ==> tasks == Load(table) && displayTasks == CompletionFilter(tasks, filterCompleted)
      ensures !gotHandle ==> tasks == old(tasks) && displayTasks == old(displayTasks)
    {
      hasDb := gotHandle;
      Fetch();
    }

    /** The text input's `onChangeText={setNewTask}`. */
    method SetNewTask(text: string)
      requires Valid()
      modifies this`newTask
      ensures Valid() && newTask == text
    {
      newTask := text;
    }

    /** `addTask`: with a handle and a draft that is not blank, inserts the draft
        as typed (untrimmed) with flag 0 under the next id, clears the draft and
        reloads; otherwise nothing changes. */
    method AddTask()
      requires Valid()
      modifies this`table, this`tasks, this`displayTasks, this`newTask
      ensures Valid()
      ensures old(!hasDb || Text.Trim(newTask) == "") ==>
        table == old(table) && tasks == old(tasks) && displayTasks == old(displayTasks) &&
        newTask == old(newTask)
      ensures old(hasDb && Text.Trim(newTask) != "") ==>
        table == Inserted(old(table), NextId(old(table)), old(newTask)) &&
        tasks == old(tasks) + [Task(NextId(old(table)), old(newTask), false)] &&
        displayTasks == CompletionFilter(tasks, filterCompleted) && newTask == ""
    {
      if hasDb && Text.Trim(newTask) != "" {
        InsertDraft();
      }
    }

    /** The INSERT of `addTask` under the id SQLite assigns, and its success
        callback: reload and clear the draft. */
    method InsertDraft()
      requires Valid() && hasDb
      modifies this`table, this`tasks, this`displayTasks, this`newTask
      ensures Valid()
      ensures table == Inserted(old(table), NextId(old(table)), old(newTask))
      ensures tasks == old(tasks) + [Task(NextId(old(table)), old(newTask), false)]
      ensures displayTasks == CompletionFilter(tasks, filterCompleted) && newTask == ""
    {
      var id := NextId(table);
      InsertKeepsAscending(table, newTask);
      InsertThenLoad(table, id, newTask);
      table := Inserted(table, id, newTask);
      newTask := "";
      Fetch();
    }

    /** `toggleCompletion(id)`: with a handle and a task of that id in the
        in-memory list, writes the negated flag to the rows with that id and
        reloads; otherwise nothing changes. */
    method ToggleCompletion(id: int)
      requires Valid()
      modifies this`table, this`tasks, this`displayTasks
      ensures Valid()
      ensures !old(hasDb) || FindTask(old(tasks), id).None? ==>
        table == old(table) && tasks == old(tasks) && displayTasks == old(displayTasks)
      ensures old(hasDb) && FindTask(old(tasks), id).Some? ==>
        table == Toggled(old(table), id) && tasks == Load(table) &&
        displayTasks == CompletionFilter(tasks, filterCompleted)
    {
      if hasDb {
        var task := FindTask(tasks, id);
        if task.Some? {
          ghost var before := table;
          ToggleStep(table, id, task.value);
          UpdateKeepsAscending(table, id, NewCompletedValue(task.value));
          table := Updated(table, id, NewCompletedValue(task.value));
          // The handle and Fetch's reload, spelled out to keep the proof small.
          assert hasDb;
          Fetch();
          assert hasDb && tasks == Load(table);
          assert table == Toggled(before, id);
        }
      }
    }

    /** `deleteTask(id)`: with a handle, deletes every row with that id (none
        is needed) and reloads, so the list loses exactly that id's task;
        without a handle nothing changes. */
    method DeleteTask(id: int)
      requires Valid()
      modifies this`table, this`tasks, this`displayTasks
      ensures Valid()
      ensures !old(hasDb) ==>
        table == old(table) && tasks == old(tasks) && displayTasks == old(displayTasks)
      ensures old(hasDb) ==>
        table == Deleted(old(table), id) && tasks == Seqs.Select(old(tasks), TaskOtherThan(id)) &&
        displayTasks == CompletionFilter(tasks, filterCompleted)
    {
      if hasDb {
        DeleteKeepsAscending(table, id);
        DeleteThenLoad(table, id);
        table := Deleted(table, id);
        Fetch();
      }
    }

    /** The search input's `onChangeText={setSearchQuery}`. A new query re-runs
        only the search effect, whose result ignores the completion filter; an
        unchanged query re-renders nothing. */
    method SetSearchQuery(query: string)
      requires Valid()
      modifies this`searchQuery, this`displayTasks
      ensures Valid() && searchQuery == query
      ensures query != old(searchQuery) ==> displayTasks == SearchFilter(tasks, query)
      ensures query == old(searchQuery) ==> displayTasks == old(displayTasks)
    {
      if query != searchQuery {
        searchQuery := query;
        displayTasks := SearchFilter(tasks, searchQuery);
      }
    }

    /** `setFilterCompleted(filter)`: a new value re-runs both effects, search
        first, so the derived list ends as the completion filter's result and
        the query is ignored; an unchanged value re-renders nothing. */
    method SetFilterCompleted(filter: Option<bool>)
      requires Valid()
      modifies this`filterCompleted, this`displayTasks
      ensures Valid() && filterCompleted == filter
      ensures filter != old(filterCompleted) ==> displayTasks == CompletionFilter(tasks, filter)
      ensures filter == old(filterCompleted) ==> displayTasks == old(displayTasks)
    {
      if filter != filterCompleted {
        filterCompleted := filter;
        displayTasks := SearchFilter(tasks, searchQuery);
        displayTasks := CompletionFilter(tasks, filterCompleted);
      }
    }

    /** `applyFilter(completed)`: show only the completed (true) or only the
        incomplete (false) tasks. */
    method ApplyFilter(completed: bool)
      requires Valid()
      modifies this`filterCompleted, this`displayTasks
      ensures Valid() && filterCompleted == Some(completed)
      ensures old(filterCompleted) != Some(completed) ==>
        displayTasks == CompletionFilter(tasks, Some(completed))
      ensures old(filterCompleted) == Some(completed) ==> displayTasks == old(displayTasks)
    {
      SetFilterCompleted(Some(completed));
    }

    /** `resetFilter`: back to all tasks. */
    method ResetFilter()
      requires Valid()
      modifies this`filterCompleted, this`displayTasks
      ensures Valid() && filterCompleted == None
      ensures old(filterCompleted) != None ==> displayTasks == tasks
      ensures old(filterCompleted) == None ==> displayTasks == old(displayTasks)
    {
      SetFilterCompleted(None);
      CompletionFilterExact(tasks, None);
    }
  }
}

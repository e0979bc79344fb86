/** The two filters the task screen applies to its in-memory list, and the
    choice of what the list widget finally shows. */
module Projection {
  import opened Wrappers
  import opened TaskTable
  import Text
  import Seqs

  /** The search test: the lower-cased title includes the lower-cased query. */
  predicate MatchesQuery(t: Task, query: string)
  {
    Text.Includes(Text.Lower(t.title), Text.Lower(query))
  }

  /** The search test as a filter predicate. */
  function Matching(query: string): Task -> bool
  {
    (t: Task) => MatchesQuery(t, query)
  }

  /** The search effect's `tasks.filter(...)`. */
  function SearchFilter(tasks: seq<Task>, query: string): seq<Task>
  {
    Seqs.Select(tasks, Matching(query))
  }

  /** The search returns exactly the tasks whose title contains the query,
      ignoring ASCII case, each as often as in `tasks` and in their order there. */
  lemma SearchFilterExact(tasks: seq<Task>, query: string)
    ensures Seqs.IsSubseq(SearchFilter(tasks, query), tasks)
    ensures forall t :: t in SearchFilter(tasks, query) <==> t in tasks && MatchesQuery(t, query)
    ensures forall t :: multiset(SearchFilter(tasks, query))[t] ==
                        if MatchesQuery(t, query) then multiset(tasks)[t] else 0
  {
    Seqs.SelectSpec(tasks, Matching(query));
  }

  /** The completion test: a null filter passes everything, otherwise the
      task's flag must equal the filter's value. */
  predicate PassesFilter(t: Task, filter: Option<bool>)
  {
    filter.None? || t.completed == filter.value
  }

  /** The completion test as a filter predicate. */
  function Passing(filter: Option<bool>): Task -> bool
  {
    (t: Task) => PassesFilter(t, filter)
  }

  /** The completion effect's `tasks.filter(...)`. */
  function CompletionFilter(tasks: seq<Task>, filter: Option<bool>): seq<Task>
  {
    Seqs.Select(tasks, Passing(filter))
  }

  /** The completion filter returns every task, in order, when the filter is
      null, and otherwise exactly the tasks whose flag equals it, each as often
      as in `tasks` and in their order there. */
  lemma CompletionFilterExact(tasks: seq<Task>, filter: Option<bool>)
    ensures Seqs.IsSubseq(CompletionFilter(tasks, filter), tasks)
    ensures forall t :: t in CompletionFilter(tasks, filter) <==>
                        t in tasks && (filter.None? || t.completed == filter.value)
    ensures forall t :: multiset(CompletionFilter(tasks, filter))[t] ==
                        if PassesFilter(t, filter) then multiset(tasks)[t] else 0
    ensures filter.None? ==> CompletionFilter(tasks, filter) == tasks
  {
    Seqs.SelectSpec(tasks, Passing(filter));
  }

  /** `data={displayTasks.length ? displayTasks : tasks}`: the list widget shows
      the derived list unless it is empty, and then the whole task list. When
      the derived list is drawn from the tasks, so is what is shown, and it is
      empty only when there are no tasks at all. */
  function Rendered(displayTasks: seq<Task>, tasks: seq<Task>): (r: seq<Task>)
    ensures Seqs.IsSubseq(displayTasks, tasks) ==> Seqs.IsSubseq(r, tasks)
    ensures r == [] <==> displayTasks == [] && tasks == []
    ensures displayTasks != [] ==> r == displayTasks
    ensures displayTasks == [] ==> r == tasks
  {
    if |displayTasks| > 0 then displayTasks
    else
      Seqs.SubseqReflexive(tasks);
      tasks
  }

  /** An empty query matches every task: the search returns the whole list in order. */
  lemma EmptyQueryKeepsAll(tasks: seq<Task>)
    ensures SearchFilter(tasks, "") == tasks
  {
    forall t | t in tasks ensures MatchesQuery(t, "") {
      Text.IncludesIffOccurs(Text.Lower(t.title), "");
      assert Text.OccursAt(Text.Lower(t.title), "", 0);
    }
    Seqs.SelectSpec(tasks, Matching(""));
  }

  /** The search ignores ASCII case: querying with the lower-cased query gives
      the same list. */
  lemma SearchIgnoresCase(tasks: seq<Task>, query: string)
    ensures SearchFilter(tasks, Text.Lower(query)) == SearchFilter(tasks, query)
  {
    Text.LowerIdempotent(query);
    Seqs.SelectAgreeing(tasks, Matching(Text.Lower(query)), Matching(query));
  }

  /** The completed and the not-completed filters split the list: together they
      hold every task exactly as often as the list does. */
  lemma CompletionFiltersPartition(tasks: seq<Task>)
    ensures multiset(CompletionFilter(tasks, Some(true))) + multiset(CompletionFilter(tasks, Some(false)))
            == multiset(tasks)
    ensures |CompletionFilter(tasks, Some(true))| + |CompletionFilter(tasks, Some(false))| == |tasks|
  {
    CompletionFilterExact(tasks, Some(true));
    CompletionFilterExact(tasks, Some(false));
    var done, open := CompletionFilter(tasks, Some(true)), CompletionFilter(tasks, Some(false));
    forall t ensures (multiset(done) + multiset(open))[t] == multiset(tasks)[t] {
      assert PassesFilter(t, Some(true)) != PassesFilter(t, Some(false));
    }
    assert multiset(done) + multiset(open) == multiset(tasks);
    assert |multiset(done) + multiset(open)| == |multiset(tasks)|;
  }

  /** When no task matches the query, the search effect leaves the derived list
      empty and the widget shows every task instead of an empty result. */
  lemma NoMatchShowsEverything(tasks: seq<Task>, query: string)
    requires forall t :: t in tasks ==> !MatchesQuery(t, query)
    ensures Rendered(SearchFilter(tasks, query), tasks) == tasks
  {
    SearchFilterExact(tasks, query);
    var r := SearchFilter(tasks, query);
    assert forall t :: t !in r;
  }

  /** The two filters are not combined: with the query "milk" and the filter
      set to incomplete, the completion effect's result, which is what stays
      after a filter change, still holds a task whose title lacks "milk". */
  lemma FilterIgnoresQuery()
    ensures var walk := Task(2, "Walk dog", false);
            var tasks := [Task(1, "Buy milk", false), walk];
            walk in CompletionFilter(tasks, Some(false)) && !MatchesQuery(walk, "milk")
  {
    var walk := Task(2, "Walk dog", false);
    CompletionFilterExact([Task(1, "Buy milk", false), walk], Some(false));
    var hay, needle := Text.Lower(walk.title), Text.Lower("milk");
    assert needle[0] == 'm';
    assert forall i :: 0 <= i < |hay| ==> hay[i] != 'm';
    forall i: nat ensures !Text.OccursAt(hay, needle, i) {
      if i + |needle| <= |hay| {
        assert hay[i..i + |needle|][0] == hay[i];
      }
    }
    Text.IncludesIffOccurs(hay, needle);
  }

  /** A session on an empty table: two inserts get ids 1 and 2, task 1 is
      toggled, the completed-only filter is applied and task 2 is deleted, after
      which the next insert gets id 2 again. */
  lemma AddToggleFilterDeleteScenario()
    ensures NextId([]) == 1 && NextId(Inserted([], 1, "Buy milk")) == 2
    ensures var rows := Inserted(Inserted([], 1, "Buy milk"), 2, "Walk dog");
            Load(rows) == [Task(1, "Buy milk", false), Task(2, "Walk dog", false)] &&
            Load(Toggled(rows, 1)) == [Task(1, "Buy milk", true), Task(2, "Walk dog", false)] &&
            CompletionFilter(Load(Toggled(rows, 1)), Some(true)) == [Task(1, "Buy milk", true)] &&
            Load(Deleted(Toggled(rows, 1), 2)) == [Task(1, "Buy milk", true)] &&
            NextId(Deleted(Toggled(rows, 1), 2)) == 2
  {
    var rows := Inserted(Inserted([], 1, "Buy milk"), 2, "Walk dog");
    assert rows == [Row(1, "Buy milk", 0), Row(2, "Walk dog", 0)];
    ToggleNegates(rows, 1);
    var toggled := Toggled(rows, 1);
    assert toggled == [Row(1, "Buy milk", 1), Row(2, "Walk dog", 0)];
    var loaded := Load(toggled);
    assert loaded == [Task(1, "Buy milk", true), Task(2, "Walk dog", false)];
    assert loaded[1..][1..] == [];
    assert Seqs.Select(loaded[1..], Passing(Some(true))) == [];
    assert CompletionFilter(loaded, Some(true)) == [Task(1, "Buy milk", true)];
    assert toggled[1..][1..] == [];
    assert Seqs.Select(toggled[1..], RowOtherThan(2)) == [];
    assert Deleted(toggled, 2) == [Row(1, "Buy milk", 1)];
    assert NextId(Deleted(toggled, 2)) == 2;
  }
}

# Task list screen: data layer and visible list

A Dafny model of the task screen of a small React Native to-do app
(`client/screens/HomeScreen.tsx`). The screen keeps its tasks in a local SQLite
table `Tasks (id INTEGER PRIMARY KEY NOT NULL, title TEXT, completed INTEGER)`.
It loads the table into component state, adds, toggles and deletes tasks
through SQL statements, and reloads the whole list after each one. It derives
the list it shows from two filters: a case-insensitive title search and a
completion filter that is null (all tasks), true or false.

The model has six modules:

- `Text` (text.dfy): JavaScript's `trim`, `toLowerCase` and `includes` on strings.
  `trim` uses the exact ECMAScript white-space and line-terminator set.
  `toLowerCase` lowers only ASCII letters.
- `Seqs` (seqs.dfy): order-preserving selection, which is the shape of both
  `Array.prototype.filter` and `DELETE ... WHERE`, and the subsequence relation.
- `TaskTable` (task_table.dfy): table rows, in-memory tasks and the `=== 1` mapping
  between them. It has the `fetchTasks` loop (`ReadAll`) and the INSERT, UPDATE
  and DELETE statements, each as a function from the rows before to the rows after.
  `Toggled` is the table after `toggleCompletion`, which looks the task up in the
  list loaded from the table.
- `Projection` (projection.dfy): the search filter, the completion filter and
  the choice at line 219 between the derived list and the full list.
- `Screen` (home_screen.dfy): the class `HomeScreen`. It holds the table, whether
  a database handle exists, and the component state (`tasks`, `displayTasks`,
  `searchQuery`, `filterCompleted`, `newTask`). Its handlers are methods.
- `Wrappers` (wrappers.dfy): `Option`.

Each SQL statement, its success callback and the reload that follows are
modelled as one step. The two effects that write `displayTasks` are modelled as
the code runs them. When `tasks` or `filterCompleted` changes, both effects run in
declaration order: first search, then completion. So the derived list ends up as
the completion filter's result, and the query is ignored. When only
`searchQuery` changes, only the search effect runs, and its result ignores the
completion filter. React skips a re-render when a state setter gets an equal
value, so setting the same query or filter again changes nothing. `setTasks`
always gets a fresh array, so every reload re-runs both effects.

The table is a sequence of rows in the order `SELECT * FROM Tasks` returns
them. SQLite scans a rowid table in id order, so the screen's invariant is that
the ids strictly increase along the sequence (`TaskTable.Ascending`), which also
gives the primary key. An INSERT without an id gets SQLite's next rowid: 1 in an
empty table, otherwise one more than the largest id (`TaskTable.NextId`). That
id is the largest, so appending the new row keeps the scan order.

Three behaviours of the code are worth stating plainly:

- The search and the completion filter are not combined. Whichever effect ran
  last decides `displayTasks`, and after a filter change that is the completion
  effect. `Projection.FilterIgnoresQuery` shows a task that stays visible under
  a query it does not match.
- Ids can be reused. The schema has no `AUTOINCREMENT`, so after the row with the
  largest id is deleted, the next insert gets that id again
  (`Projection.AddToggleFilterDeleteScenario`).
- A toggle does not set the flag to a given value. It negates the flag of the
  task found in the in-memory list, and it does nothing when no task there has
  the id.

## Model

| member | source | states |
|---|---|---|
| `Text.Trim` | client/screens/HomeScreen.tsx:68 | `newTask.trim()` is empty exactly when the draft is all white space; a non-empty result starts and ends with a non-space character |
| `Text.TrimIsSlice` | client/screens/HomeScreen.tsx:68 | the trimmed text is a contiguous slice of the draft, and what is cut off on either side is blank |
| `Text.TrimStart` | client/screens/HomeScreen.tsx:68 | the leading-space cut yields a suffix of the input whose removed prefix is blank and whose first character is not a space |
| `Text.TrimEnd` | client/screens/HomeScreen.tsx:68 | the trailing-space cut yields a prefix of the input whose removed suffix is blank and whose last character is not a space |
| `Text.LowerChar` | client/screens/HomeScreen.tsx:41 | a lowered character is never an ASCII capital; it differs from its input only for `A`–`Z`, shifted by 32 |
| `Text.Lower` | client/screens/HomeScreen.tsx:41 | lowering keeps the length and lowers every character in place |
| `Text.LowerIdempotent` | client/screens/HomeScreen.tsx:41 | lowering a lowered string changes nothing |
| `Text.IncludesIffOccurs` | client/screens/HomeScreen.tsx:41 | `includes` holds exactly when the needle occurs at some index of the haystack (so the empty needle is always included) |
| `Seqs.SelectSpec` | client/screens/HomeScreen.tsx:40-42 | `filter` yields a subsequence of its input that keeps every occurrence of each passing element and none of the others, and is the input itself when everything passes |
| `TaskTable.Load` | client/screens/HomeScreen.tsx:52-59 | one task per row in row order, same id and title, completed exactly when the stored integer is 1 |
| `TaskTable.ReadAll` | client/screens/HomeScreen.tsx:51-59 | the `for` loop with `push` builds exactly the loaded list |
| `TaskTable.NextId` | client/screens/HomeScreen.tsx:70-72 | the id SQLite assigns: 1 for an empty table, otherwise one more than the largest id in use, so no row holds it |
| `TaskTable.NextIdAfterLast` | client/screens/HomeScreen.tsx:70-72 | in a table scanned in id order, the next id is one more than the last row's id |
| `TaskTable.InsertKeepsAscending` | client/screens/HomeScreen.tsx:70-72 | an INSERT under the next id keeps the rows in id order, with the new row last |
| `TaskTable.InsertKeepsUnique` | client/screens/HomeScreen.tsx:70-72 | an INSERT under an unused id keeps the ids unique |
| `TaskTable.InsertAddsId` | client/screens/HomeScreen.tsx:70-72 | an INSERT adds exactly its id to the ids in use |
| `TaskTable.InsertThenLoad` | client/screens/HomeScreen.tsx:70-74 | the reload after an INSERT is the old list followed by one incomplete task with the new id and the inserted title |
| `TaskTable.Updated` | client/screens/HomeScreen.tsx:90-92 | the UPDATE sets the flag of every row with the id, leaves all other rows unchanged and keeps the order |
| `TaskTable.UpdateKeepsAscending` | client/screens/HomeScreen.tsx:90-92 | an UPDATE of the flag keeps the rows in id order |
| `TaskTable.FindTask` | client/screens/HomeScreen.tsx:86 | `find` returns nothing exactly when no task has the id, and otherwise a task of the list with that id |
| `TaskTable.FindTaskIsFirst` | client/screens/HomeScreen.tsx:86 | `find` returns the first task with the id |
| `TaskTable.FindInLoad` | client/screens/HomeScreen.tsx:86 | with unique ids, looking an id up in the loaded list gives the task of the one row with that id |
| `TaskTable.NewCompletedValue` | client/screens/HomeScreen.tsx:88 | the value written is 0 or 1, and 1 exactly when the task was not completed |
| `TaskTable.ToggleStep` | client/screens/HomeScreen.tsx:86-92 | the toggle writes the value decided by the task it found, and the ids stay unique |
| `TaskTable.ToggleNegates` | client/screens/HomeScreen.tsx:83-101 | a toggle turns a stored 1 into 0 and anything else into 1 on the row with the id, and leaves every other row, the ids and the order unchanged |
| `TaskTable.ToggleUnknownId` | client/screens/HomeScreen.tsx:86-87 | toggling an id that no row holds leaves the table unchanged |
| `TaskTable.ToggleTwiceRows` | client/screens/HomeScreen.tsx:88-92 | after two toggles of one id, every row is as before, except that the toggled row's flag is normalised to 0 or 1 |
| `TaskTable.ToggleTwiceRestores` | client/screens/HomeScreen.tsx:83-101 | toggling the same id twice restores the in-memory list |
| `TaskTable.ToggleTwiceRestoresTable` | client/screens/HomeScreen.tsx:88-92 | when every stored flag is 0 or 1, toggling twice restores the table itself |
| `TaskTable.Deleted` | client/screens/HomeScreen.tsx:107-109 | after the DELETE no row has the id; exactly the rows with other ids remain, in order; a missing id leaves the table unchanged |
| `TaskTable.DeleteKeepsUnique` | client/screens/HomeScreen.tsx:107-109 | a DELETE keeps the ids unique |
| `TaskTable.DeleteKeepsAscending` | client/screens/HomeScreen.tsx:107-109 | a DELETE keeps the rows in id order |
| `TaskTable.DeleteCounts` | client/screens/HomeScreen.tsx:107-109 | after a DELETE every row with another id is there exactly as often as before, and no row with the id is |
| `TaskTable.DeleteThenLoad` | client/screens/HomeScreen.tsx:103-117 | the reload after a DELETE is the previous list with that id's task filtered out |
| `Projection.SearchFilterExact` | client/screens/HomeScreen.tsx:40-42 | the search returns exactly the tasks whose lower-cased title contains the lower-cased query, each as often as in the list and in list order |
| `Projection.EmptyQueryKeepsAll` | client/screens/HomeScreen.tsx:40-42 | an empty query returns the whole list unchanged |
| `Projection.SearchIgnoresCase` | client/screens/HomeScreen.tsx:41 | searching for the lower-cased query gives the same result as the query itself |
| `Projection.CompletionFilterExact` | client/screens/HomeScreen.tsx:132-137 | a null filter returns the whole list; otherwise the result is exactly the tasks whose flag equals the filter, in list order |
| `Projection.CompletionFiltersPartition` | client/screens/HomeScreen.tsx:132-137 | the completed-only and incomplete-only results together hold every task exactly as often as the list does |
| `Projection.Rendered` | client/screens/HomeScreen.tsx:219 | the widget shows the derived list when it is non-empty and the full task list when it is empty; the shown list is empty only when both lists are, and it is drawn from the tasks whenever the derived list is |
| `Projection.NoMatchShowsEverything` | client/screens/HomeScreen.tsx:219 | when no task matches the query, the widget shows every task instead of an empty result |
| `Projection.FilterIgnoresQuery` | client/screens/HomeScreen.tsx:131-139 | the completion effect's result can hold a task that the current query does not match: the two filters are not combined |
| `Projection.AddToggleFilterDeleteScenario` | client/screens/HomeScreen.tsx:66-117 | on an empty table, inserting "Buy milk" and "Walk dog" gives ids 1 and 2; toggling 1, filtering on completed and deleting 2 give the expected lists; the next insert then reuses id 2 |
| `Screen.HomeScreen.Shown` | client/screens/HomeScreen.tsx:219 | the list on screen is `displayTasks` when that is non-empty and `tasks` otherwise; it is always a subsequence of `tasks`, and empty only when there are no tasks |
| `Screen.HomeScreen.constructor` | client/screens/HomeScreen.tsx:24-30 | the first render starts with no handle, empty state and the rows already stored, in id order |
| `Screen.HomeScreen.Fetch` | client/screens/HomeScreen.tsx:46-64 | with a handle, `tasks` becomes the loaded table and `displayTasks` becomes the completion filter's result; without one, nothing changes |
| `Screen.HomeScreen.Connect` | client/screens/HomeScreen.tsx:32-37 | the handle is present exactly when initialisation succeeded; the stored rows survive; a success reloads |
| `Screen.HomeScreen.SetNewTask` | client/screens/HomeScreen.tsx:210 | typing replaces the draft and nothing else |
| `Screen.HomeScreen.AddTask` | client/screens/HomeScreen.tsx:66-81 | with no handle or a blank draft nothing changes; otherwise exactly one row with the untrimmed draft, flag 0 and the next id is appended, `tasks` gains the matching incomplete task, and the draft is cleared |
| `Screen.HomeScreen.InsertDraft` | client/screens/HomeScreen.tsx:69-79 | the INSERT under the next id and its success callback: the row is appended with the table still in id order, the list reloaded and the draft cleared |
| `Screen.HomeScreen.ToggleCompletion` | client/screens/HomeScreen.tsx:83-101 | with no handle, or no task of that id in memory, nothing changes; otherwise the table becomes its toggle and the list is reloaded |
| `Screen.HomeScreen.DeleteTask` | client/screens/HomeScreen.tsx:103-117 | with no handle nothing changes; otherwise every row with the id goes, the rest stay in order, and `tasks` loses exactly that id's task |
| `Screen.HomeScreen.SetSearchQuery` | client/screens/HomeScreen.tsx:39-44 | a new query makes `displayTasks` the search result alone, ignoring the completion filter; the same query changes nothing |
| `Screen.HomeScreen.SetFilterCompleted` | client/screens/HomeScreen.tsx:131-139 | a new filter value makes `displayTasks` the completion filter's result, which overwrites the search result; the same value changes nothing |
| `Screen.HomeScreen.ApplyFilter` | client/screens/HomeScreen.tsx:123-125 | selecting completed or in-progress tasks sets the filter and shows the completion filter's result |
| `Screen.HomeScreen.ResetFilter` | client/screens/HomeScreen.tsx:127-129 | resetting clears the filter; if one was set, `displayTasks` becomes the whole list |

## Left out

- Rendering is not modelled: the JSX, the filter modal and its visibility state (`filterModalVisible`, `onFilterPress`), styles, the input-height expression, `TaskItem` and the app bootstrap in `App.tsx`. They only display state or forward a task id.
- The SQLite plugin calls (`echoTest`, `openDatabase`, `executeSql`) are foreign I/O. `Screen.HomeScreen.Connect` takes only their outcome: a handle, or `undefined` after the catch in `client/database.js` swallows the error. The database configuration constants are not modelled.
- Asynchronous scheduling is not modelled. Each statement, its success callback and the reload form one step. Mutations that overlap before the previous reload finishes are not modelled.
- SQL error callbacks, which only log, are not modelled. The model has no input that makes a statement fail after validation; such a failure would change nothing.
- TaskTable.NextId: SQLite's fallback once the largest rowid is 2^63 - 1 (it then picks a random unused rowid) is not modelled. Ids are unbounded integers. SQLite's rowid is a 64-bit integer, and a JavaScript `number` holds integers exactly only up to 2^53.
- Row order is SQLite's rowid scan order for `SELECT *` without `ORDER BY`. The model keeps the table sequence in that order as an invariant. It does not model a query plan that returns rows in another order.
- Text.Lower: lowers only ASCII `A`–`Z`. JavaScript's full Unicode case mapping is not modelled.
- Strings are sequences of Unicode scalar values, not the UTF-16 code units of JavaScript. `trim` and `includes` on surrogate pairs are not modelled.
- A NULL `title` is not modelled: the column allows it, but the screen never inserts one.
- Logging is not modelled.

# Task manager: a Dafny model of its store and request handlers

This project models the core of a personal task-management web application
written with Django. Each user owns tasks and categories. A task has a title,
a description, a completion flag, a completion timestamp, an optional due
date, creation and update timestamps, and an optional category.

The model has four parts:

- `models.dfy` (module `Models`) holds the entities and the rule `Task.save`
  applies before every write. A completed task without a stamp is stamped
  with the current time. An incomplete task loses its stamp. An existing
  stamp is never overwritten. The class `TaskStore` holds the user, category
  and task tables. Its methods are the two paths of `save` (INSERT and
  UPDATE), `delete`, and the foreign-key delete rules: deleting a user
  cascades to that user's tasks and categories, and deleting a category sets
  the category of the tasks that referenced it to none.
- `query.dfy` (module `Query`) holds the query operations the views use.
  `Where` is a filter whose keyword conditions must all hold. `Lookup` finds
  a task by primary key within one owner's tasks. `SortRows` orders by
  creation time or due date, ascending or descending.
- `text.dfy` (module `Text`) holds the case-insensitive title search.
- `views.dfy` (module `Views`) holds the request handlers. The task list and
  the dashboard are functions over the task table. The handlers that change
  a task are methods on a `TaskStore`. The theme switch is a method on a
  `Session`.

The task table is a sequence of rows in primary-key order, and primary keys
strictly increase along it. Dates are day numbers (`Day`) and timestamps are
integers (`Instant`). The current time and today's date are parameters. A
handler's answer is a `Response`: not found (404), redirect, a rendered page,
or a server error. The logged-in user and the HTTP method (`post`) are
parameters.

Behaviours of the code a reader may not expect:

- Creating a task cannot set a category, because the task form has only
  title, description, completed and due date (tasks/forms.py:9). New tasks
  therefore have no category, and editing a task never changes its category.
- The task list has no category filter. Without a `sort` value it applies no
  ordering, so rows come in table order. An unknown `sort` value sorts by
  creation time, oldest first.
- A task is stamped whenever it is saved completed without a stamp. This
  includes a task that is created already completed, not only the
  incomplete-to-completed transition.
- Toggling twice restores the original task only when it started incomplete
  (apart from `updated_at`). A task that started completed gets a new stamp,
  taken at the second toggle (`Views.ToggleTwice`).
- `toggle_complete` and `clear_due_date` act on any HTTP method, not only
  POST.
- In `update_due_date`, a due-date text that does not parse raises an
  uncaught error. The model answers `ServerError` and leaves the store
  unchanged.

## Model

| member | source | states |
|---|---|---|
| `Models.StampCompletion` | tasks/models.py:27-31 | after the save rule the task is completed exactly when it has a stamp; an incomplete task has no stamp; an existing stamp on a completed task is kept; the only new value written is `now` for a completed task, or none for an incomplete one; no other field changes |
| `Models.SaveIdempotent` | tasks/models.py:27-32 | saving again, at any later time, leaves the completion stamp as the first save set it |
| `Models.SaveFixesConsistent` | tasks/models.py:28-31 | on a task whose flag and stamp already agree, the save rule changes nothing, so a completed task is never re-stamped |
| `Models.Updated` | tasks/models.py:24-32 | an UPDATE writes a consistent task with `updated_at = now`, differing from the instance only in stamp and `updated_at` |
| `Models.Inserted` | tasks/models.py:23-32 | an INSERT writes a consistent task with `created_at = updated_at = now`, differing from the instance only in those stamps |
| `Models.TaskStore.Insert` | tasks/models.py:27-32 | saving a new task appends exactly one row under the next primary key and keeps the store invariant (ascending keys, valid foreign keys, flag and stamp agreeing) |
| `Models.TaskStore.Update` | tasks/models.py:27-32 | saving a loaded task replaces exactly that row, keeps its key, and keeps the store invariant |
| `Models.TaskStore.Delete` | tasks/views.py:84 | deleting a task removes exactly its row and keeps the store invariant |
| `Models.ClearCategories` | tasks/models.py:25 | SET_NULL: every task stays in place with the same key; those that referenced a deleted category have none; all other fields and all other tasks are unchanged |
| `Models.TaskStore.DeleteCategory` | tasks/models.py:25 | deleting a category removes only that category and clears it from referencing tasks, keeping the store invariant |
| `Models.RemoveOwnedBy` | tasks/models.py:17 | CASCADE from a user: a task survives exactly when it belongs to someone else |
| `Models.RemoveOwnedByAscending` | tasks/models.py:17 | the cascade keeps primary keys ascending |
| `Models.OwnedCategories` | tasks/models.py:6 | the categories removed with a user are exactly that user's |
| `Models.CategoriesNotOwnedBy` | tasks/models.py:6 | the categories kept are exactly the other users', unchanged |
| `Models.CascadeUser` | tasks/models.py:6-25 | after deleting a user none of that user's tasks remain, and no remaining task references one of the user's categories; every other task survives, unchanged unless it referenced one of the user's categories, in which case it survives with no category |
| `Models.CascadeUserOnlySurvivors` | tasks/models.py:6-25 | nothing else remains: every task left after deleting a user is another user's task, possibly cleared of a deleted category |
| `Models.CascadeKeepsInvariant` | tasks/models.py:6-25 | deleting a user keeps primary keys ascending, foreign keys valid and flag and stamp agreeing |
| `Models.TaskStore.DeleteUser` | tasks/models.py:6-25 | deleting a user removes the user, exactly that user's categories, and the task table as `CascadeUser` describes, keeping the store invariant |
| `Text.Lower` | tasks/views.py:33 | lower-casing keeps the length and lowers each ASCII capital |
| `Text.LowerIdempotent` | tasks/views.py:33 | lower-casing twice is lower-casing once |
| `Text.ContainsIffOccurs` | tasks/views.py:33 | the substring search succeeds exactly when the query occurs at some position of the title |
| `Text.ContainsIgnoringCase` | tasks/views.py:33 | `icontains`: the search succeeds exactly when the lower-cased query occurs at some position of the lower-cased title |
| `Text.CaseDoesNotMatter` | tasks/views.py:33 | the title search gives the same answer whatever the case of the query or of the title |
| `Query.Holds` | tasks/views.py:17-33 | a `due_date` comparison (`__lt`, `__gte`, equality) is never true of a task without a due date; `title__icontains` holds exactly when the lower-cased query occurs in the lower-cased title |
| `Query.Where` | tasks/views.py:17-33 | a row is in the filter's result exactly when it is in the table and satisfies all the conditions; the result is never longer than the table |
| `Query.AllHoldConcat` | tasks/views.py:17-33 | a row satisfies two lists of conditions together exactly when it satisfies each |
| `Query.WhereChain` | tasks/views.py:17-33 | chaining filters equals one filter with all their conditions |
| `Query.WhereSame` | tasks/views.py:175-181 | filters with equivalent conditions select the same rows |
| `Query.WhereAppend` | tasks/views.py:17 | filtering distributes over concatenation of tables |
| `Query.WherePartition` | tasks/views.py:175-181 | two disjoint filters within a third select at most as many rows as it, exactly as many when they cover it |
| `Query.WhereMonotone` | tasks/views.py:179-180 | a filter implied by another selects no fewer rows |
| `Query.Lookup` | tasks/views.py:68 | the lookup finds a row with the given key owned by the user, and answers none exactly when no such row exists (key absent or owned by someone else) |
| `Query.InsertSorted` | tasks/views.py:44 | inserting into an ordered list adds exactly the one row |
| `Query.InsertSortedSorted` | tasks/views.py:44 | inserting into an ordered list keeps it ordered |
| `Query.SortRows` | tasks/views.py:44 | the ordering is a permutation of its input and is ordered by the chosen column and direction |
| `Views.OwnedRows` | tasks/views.py:17 | the base query holds exactly the user's own tasks |
| `Views.Selection` | tasks/views.py:17-33 | the reference selection holds exactly the user's tasks matching status and search |
| `Views.StatusCriteria` | tasks/views.py:20-28 | the conditions a known status adds hold of a row exactly when its task has that status; any other status adds no filter, and every task matches it |
| `Views.Filtered` | tasks/views.py:17-33 | the filter chain keeps a row exactly when it is the user's and matches status and search (its order is `FilteredIsSelection`) |
| `Views.ChainCriteriaMeaning` | tasks/views.py:17-33 | the conditions of the whole chain hold exactly when the task is selected |
| `Views.FilteredIsWhere` | tasks/views.py:17-33 | the view's filter chain equals one filter with all its conditions |
| `Views.FilteredIsSelection` | tasks/views.py:17-33 | the view's filter chain yields exactly the selected rows, in table order |
| `Views.WhereIsSelection` | tasks/views.py:17-33 | a filter whose conditions mean "selected" yields the reference selection |
| `Views.WhereEverything` | tasks/views.py:20-33 | a filter whose conditions hold of every row (a skipped filter) keeps the list as it is |
| `Views.SelectionStatusIrrelevant` | tasks/views.py:20-28 | every unknown status value selects the same tasks as no status |
| `Views.OrderingFor` | tasks/views.py:37-44 | the sort key sorts by due date exactly for `due_asc`/`due_desc`, descending exactly for `created_desc`/`due_desc`, and an unknown key sorts by creation time ascending |
| `Views.RequestedOrdering` | tasks/views.py:36-44 | no ordering exactly when `sort` is absent or empty; otherwise the ordering `sort_map` gives, with the fallback |
| `Views.TaskList` | tasks/views.py:14-50 | every listed task belongs to the user; a task is listed exactly when it is the user's and matches status and search; without a sort the list is the selection in table order; with one it is a permutation of the selection ordered by the mapped key |
| `Views.StatusFilterMeaning` | tasks/views.py:20-28 | `overdue` lists only incomplete tasks due before today; `upcoming` lists only incomplete tasks due today or later; a task without a due date is in neither; an unknown status lists what no status lists |
| `Views.DueTodayRows` | tasks/views.py:180 | the reference for `due_today`: exactly the user's incomplete tasks whose due date is today |
| `Views.WhereIsDueToday` | tasks/views.py:180 | a filter whose conditions mean "the user's, incomplete and due today" yields exactly `DueTodayRows`, in table order |
| `Views.DueTodayIsFiltered` | tasks/views.py:172-180 | the dashboard's `due_today` filter on the user's tasks equals `DueTodayRows` |
| `Views.Dashboard` | tasks/views.py:171-183 | total, completed, pending and overdue each equal the length of the task list for the same status; due-today equals the number of the user's incomplete tasks due today; due-today is at most the upcoming count; total = completed + pending; overdue + due-today ≤ pending |
| `Views.UnsortedListIsFiltered` | tasks/views.py:14-33 | with no search and no sort, the list for each status is the user's tasks under that status's conditions |
| `Views.DashboardCountRelations` | tasks/views.py:175-181 | as counts over a list of tasks: completed + pending = all; overdue + due-today ≤ pending; due-today ≤ upcoming; the overdue filter gives the same rows whichever order its two conditions are written in |
| `Views.FormValid` | tasks/models.py:18 | the form is valid exactly when the title is non-empty and at most 255 characters; `CreateTask` and `UpdateTask` branch on it |
| `Views.NewTask` | tasks/views.py:56-57 | the created instance has the form's fields, the requesting user as owner, and no category and no stamp |
| `Views.Edited` | tasks/forms.py:9 | the form writes title, description, completed and due date and keeps owner, category, stamp and timestamps |
| `Views.Toggled` | tasks/views.py:125 | toggling negates the flag and changes nothing else |
| `Views.ToggleTwice` | tasks/views.py:123-126 | two toggle-and-save rounds restore the flag; a task that started incomplete comes back unchanged apart from `updated_at`; one that started completed is re-stamped with the second time |
| `Views.RequestedDueDate` | tasks/views.py:135-139 | an empty or missing value means no due date; otherwise the parsed date, or failure when the text does not parse |
| `Views.OthersUnaffectedByUpdate` | tasks/views.py:68 | changing one user's task leaves every other user's own-task list as it was |
| `Views.OthersUnaffectedByDelete` | tasks/views.py:82 | deleting one user's task leaves every other user's own-task list as it was |
| `Views.OthersUnaffectedByInsert` | tasks/views.py:57 | creating a task for one user leaves every other user's own-task list as it was |
| `Views.CreateTask` | tasks/views.py:51-63 | a valid POST appends one task, owned by the user and stamped by the save rule, and redirects; otherwise the form is rendered and nothing changes; other users' tasks are untouched |
| `Views.UpdateTask` | tasks/views.py:66-77 | a key absent or owned by another user gives not-found and no change; a valid POST rewrites exactly that task through the save rule; otherwise nothing changes; other users' tasks are untouched |
| `Views.DeleteTask` | tasks/views.py:80-87 | not-found with no change as above; a POST removes exactly that task; a GET renders the confirmation and changes nothing |
| `Views.ToggleComplete` | tasks/views.py:122-127 | not-found with no change as above; otherwise exactly that task's flag is negated and saved |
| `Views.UpdateDueDate` | tasks/views.py:131-141 | not-found with no change as above; a GET changes nothing; a POST sets the parsed date, clears it for empty text, or fails with no change on unparsable text |
| `Views.ClearDueDate` | tasks/views.py:192-197 | not-found with no change as above; otherwise exactly that task loses its due date and is saved |
| `Views.DarkMode` | tasks/views.py:188 | the theme in force is the stored flag, or light (false) when nothing is stored |
| `Views.ToggleTheme` | tasks/views.py:186-190 | the stored flag and the answer are the opposite of the theme in force, which is light when nothing is stored |

## Left out

- Registration, login, logout, password change and account deletion (`register_view`, `login_view`, `logout_view`, `profile_view`, `delete_account`) and the authentication forms. These belong to Django's authentication framework. The cascade that account deletion triggers is modelled as `Models.TaskStore.DeleteUser`. Each handler takes the logged-in user as a parameter and requires that the user exists.
- Creating users and categories. No operation adds them. The `TaskStore` constructor takes the existing users and categories. The category views `manage_categories`, `edit_category` and `delete_category` are routed in tasks/urls.py, but their definitions are not part of this model. The category delete rule itself is modelled as `Models.TaskStore.DeleteCategory`.
- HTML rendering, flash messages, redirect targets and URL routing. A handler's outcome is reduced to a `Response`. The `today_plus_2` value is passed only to the template and is not modelled.
- Form validation internals: whitespace stripping, HTML date-input parsing and CSRF. `Views.FormValid` keeps only the non-empty title of at most 255 characters.
- Parsing of the due-date text. It is the parameter `parse`, which yields a date or fails.
- The clock. The current instant and today's date are parameters. Date and time values are plain integers.
- Database specifics. A task with no due date sorts before every date ascending and after every date descending, which is SQLite's behaviour (PostgreSQL does the opposite). Case-insensitive search folds ASCII letters only. Transactions and concurrent requests are not modelled.
- `Query.SortRows`: the database leaves the order of rows with equal sort keys unspecified. The model fixes one order (stable, table order) and proves only "ordered and a permutation" about it.
- `Views.TaskList`: without a `sort` value the database may return rows in any order. The model uses table (primary-key) order.
- Session: only the `dark_mode` entry is modelled.
- The `__str__` methods of `Category` and `Task`, the `name` column's length limit, and the extra arguments of `save` that are passed on to Django.

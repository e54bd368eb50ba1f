# Task tracker core — a Dafny model

This project models the task and subtask lifecycle of a small multi-user task
tracker (a Laravel back end with a React front end), and proves properties of
that model with Dafny.

It covers the server side and the client side:

- **Server writes** (`TaskController`, `task_controller.dfy`). The tasks table is
  the class `TaskStore`. It holds a map from id to `Task` and an auto-increment
  counter. Its methods are `store`, the completion toggle `update`,
  `updateTitle` and `destroy`. `Valid()` is the table invariant: every row is
  keyed by its id, completed ⇔ completed_at present, and every title is
  non-blank and at most 255 characters. Every method keeps it.
- **Server reads** (`TaskQueries`, `task_queries.dfy`). These are pure
  functions over the rows: the todo/done statistics, the PHP-truthy substring
  search, `latest()` ordering and the paginator. The two views are `Dashboard`
  (5 per page) and `DashboardActivity` (10 per page, searchable).
- **Subtask creation** (`SubTaskController`, `subtask_controller.dfy`). A
  validated subtask is appended to the route's task.
- **Task editor** (`TaskInfoModal`, `task_info_modal.dfy`). `CheckEdit` is the
  ordered chain of date checks of `saveChanges`. It gives the first failure or
  the normalised PATCH payload. The class `TaskEditor` holds the component
  state. Its methods are the save, the completion toggle, cancel/restore and
  the load effect.
- **Optimistic subtask list** (`SubTaskList`, `subtask_list.dfy`). A subtask is
  appended under a temporary id and removed again if the add fails. A delete
  is rolled back to its snapshot if it fails.
- **Task table** (`TaskTable`, `task_table.dfy`). This is the
  complete/delete confirmation state machine. Its invariant is that each modal
  is open exactly while something is pending for it.

Some things that the source gets from its environment are parameters here:

- the clock (`now`);
- the acting user;
- the set of existing user ids (the `exists:users,id` lookup);
- the client's temporary id;
- the outcome of every network request, as a separate handler call.

Timestamps are integers. A client date input is `None` when it is empty.

Some behaviour of the code that is easy to overlook:

- `store` keeps only `title` and `user_id`. A `start` or `expiration` sent by
  the form is dropped, so a new task is created "now" and has no expiration.
- There is no server-side check that a completion date lies in the past, and
  no validated "complete with timestamp" endpoint.
- The search is `title LIKE '%search%'`. It is modelled as plain substring
  containment, not as a case-insensitive match.
- `app/Models/Task.php` declares only the `user` relation.
  `SubTaskController` calls `$task->subtasks()`. The model assumes the
  one-to-many relation it relies on exists.

## Model

| member | source | states |
|---|---|---|
| `TaskController.TaskErrors` | app/Http/Controllers/TaskController.php:62-65 | A request passes exactly when the title is a string that is non-blank after PHP trim and at most 255 characters, and the user id is null or an existing user. Each failing field is reported. |
| `TaskController.NewTask` | app/Http/Controllers/TaskController.php:67-72 | The inserted row has the request's title, is open with no completion date, has no expiration, and is created now. Its owner is the given user, or the acting user when none is given. |
| `TaskController.TaskStore.Store` | app/Http/Controllers/TaskController.php:60-75 | An invalid request changes nothing and reports its failing fields. A valid one inserts exactly one new row under a fresh id and leaves all other rows as they were. The new row appears at the end of the rows the views read, and todo grows by one while done stays. The table invariant is kept. |
| `TaskController.Toggled` | app/Http/Controllers/TaskController.php:80-83 | Completion is flipped. Afterwards completed ⇔ completed_at present, whatever the row was before, and a set completion date is `now`. No other field changes. |
| `TaskController.ToggleTwice` | app/Http/Controllers/TaskController.php:80-83 | Toggling twice restores `completed`. A consistent open task comes back identical, and a completed one is re-stamped with the second time. |
| `TaskController.TaskStore.Update` | app/Http/Controllers/TaskController.php:78-86 | A missing task gives not-found and changes nothing. Otherwise exactly that row is replaced by its toggled form, and the invariant is kept. The rows the views read keep their number, and their statistics move one task from todo to done when it is completed, or back when it is reopened. |
| `TaskController.Retitled` | app/Http/Controllers/TaskController.php:96-99 | The title is replaced. The owner is replaced when one is supplied and kept otherwise. No other field changes. |
| `TaskController.TaskStore.UpdateTitle` | app/Http/Controllers/TaskController.php:89-102 | Not-found comes before validation. An invalid request changes nothing. A valid one retitles exactly that row. The number of rows the views read and their statistics stay as they were. |
| `TaskController.TaskStore.Destroy` | app/Http/Controllers/TaskController.php:106-111 | A missing task gives not-found. Otherwise exactly that id leaves the table and every other row is untouched. The views read one row fewer, and the count the removed task belonged to drops by one. |
| `TaskController.TableScanLists` | app/Http/Controllers/TaskController.php:17 | The table the queries start from lists the stored rows in strictly increasing id order. It holds every stored row once and nothing else. |
| `TaskController.TableScanReplace` | app/Http/Controllers/TaskController.php:80-83 | Writing one row back changes the table the queries read at exactly the position that row held. |
| `TaskController.TableScanRemove` | app/Http/Controllers/TaskController.php:108 | Deleting one row drops exactly the position that row held from the table the queries read. |
| `TaskController.TableScanInsertNext` | app/Http/Controllers/TaskController.php:67-72 | A row inserted under the next auto-increment id appears at the end of the table the queries read. |
| `TaskController.ReplaceRowStatistics` | app/Http/Controllers/TaskController.php:22-25 | Writing one row back keeps the number of rows, and todo and done move by exactly what the old and the new row contribute. |
| `TaskController.TaskStore.Rows` | app/Http/Controllers/TaskController.php:39-43 | The sequence the views query contains exactly the stored rows, in increasing id order. |
| `TaskController.TaskStore.constructor` | app/Models/Task.php:8-71 | An empty table of task rows, the shape the model class declares, whose auto-increment ids start at 1. |
| `SubTaskController.WithSubtask` | app/Http/Controllers/SubTaskController.php:15-18 | The parent gains exactly one subtask, at the end. Its earlier subtasks and all its other fields are unchanged. |
| `SubTaskController.StoreSubtask` | app/Http/Controllers/SubTaskController.php:9-23 | A missing task gives not-found. An invalid title creates nothing. Otherwise an open subtask with the given title and a fresh id is attached to that task only, and it is returned. The number of rows the task views read and their statistics do not change. |
| `TaskQueries.CountCompleted` | app/Http/Controllers/TaskController.php:22-25 | A count with a given completion flag is at most the number of rows. |
| `TaskQueries.CountsCoverTable` | app/Http/Controllers/TaskController.php:47-50 | The open count plus the completed count is the number of rows. |
| `TaskQueries.TaskStatistics` | app/Http/Controllers/TaskController.php:22-25 | todo + done equals the number of tasks. |
| `TaskQueries.CountAfterReplace` | app/Http/Controllers/TaskController.php:47-50 | Replacing one row changes a count by exactly what the old and the new row contribute to it. |
| `TaskQueries.StatisticsKeptByReplace` | app/Http/Controllers/TaskController.php:96-99 | A row replaced by one with the same completion leaves todo and done as they were. |
| `TaskQueries.CountAfterAppend` | app/Http/Controllers/TaskController.php:22-25 | A row added at the end is counted once, under its own completion. |
| `TaskQueries.StatisticsAfterOpenRow` | app/Http/Controllers/TaskController.php:67-72 | A new open row adds one to todo and leaves done as it was. |
| `TaskQueries.CountAfterRemove` | app/Http/Controllers/TaskController.php:108 | Removing one row takes it out of exactly the count it belonged to. |
| `TaskQueries.StatisticsAfterFlip` | app/Http/Controllers/TaskController.php:80-82 | After a completion change the statistics move by one at once: completing decrements todo and increments done, and reopening does the reverse. |
| `TaskQueries.ContainsIffOccurs` | app/Http/Controllers/TaskController.php:40-42 | The search predicate holds exactly when the search string occurs at some position of the title. |
| `TaskQueries.FilterBySearch` | app/Http/Controllers/TaskController.php:37-42 | A truthy search keeps exactly the rows whose title contains it, and nothing is invented. A PHP-falsy search ('' or '0') keeps every row. |
| `TaskQueries.Latest` | app/Http/Controllers/TaskController.php:43 | The result is ordered by created_at descending and is a permutation of its input. |
| `TaskQueries.CurrentPage` | app/Http/Controllers/TaskController.php:44 | A page number of at least 1 is used as given. A missing or smaller one becomes page 1. |
| `TaskQueries.LastPage` | app/Http/Controllers/TaskController.php:44 | The last page is at least 1, that many pages hold every result, and a last page after the first starts before the end of the results. |
| `TaskQueries.Paginate` | app/Http/Controllers/TaskController.php:44 | A page is the contiguous slice of the results starting at (page-1)·perPage. It is empty past the results, and it reports the total and the last page. |
| `TaskQueries.PageSize` | app/Http/Controllers/TaskController.php:19 | A page holds at most perPage rows, exactly perPage before the last page, and none past it. |
| `TaskQueries.EveryResultOnItsPage` | app/Http/Controllers/TaskController.php:44 | Result k is at position k mod perPage of page k div perPage + 1, and that page exists. |
| `TaskQueries.FifteenMatchesMakeTwoPages` | app/Http/Controllers/TaskController.php:44 | 15 matches at 10 per page: page 1 holds 10, the total is 15, and there are 2 pages. |
| `TaskQueries.PageOfSorted` | app/Http/Controllers/TaskController.php:43-44 | A page cut from newest-first results is newest first and holds only those results. |
| `TaskQueries.Dashboard` | app/Http/Controllers/TaskController.php:14-32 | The page is page p of `latest()` over the whole table, five per page. So it holds at most 5 tasks, all from the table and newest first, and the total is the table size. todo and done are the open and the completed counts of the table, and they sum to its size. |
| `TaskQueries.DashboardActivity` | app/Http/Controllers/TaskController.php:35-58 | The page is page p of `latest()` over the search matches, ten per page. So it holds at most 10 tasks, newest first, each from the table and matching the search, and the total counts the matches. todo and done are the open and the completed counts of the whole table, whatever the search. |
| `TaskInfoModal.UserIdOrNull` | resources/js/components/taskInfoModal.tsx:96 | `userId \|\| null` is null exactly for '' and for 0, and keeps any other id. |
| `TaskInfoModal.CheckEdit` | resources/js/components/taskInfoModal.tsx:55-101 | The save passes exactly when the dates are ordered. The errors are checked in order and the first one that fails is reported. On success the payload keeps the task invariants, clears completed_at unless completed, and sends a null expiration when it is empty. |
| `TaskInfoModal.DraftAsLoaded` | resources/js/components/taskInfoModal.tsx:40-53 | The load as written: both the completion date and the expiration are empty, and every other field is the one the intended load shows. |
| `TaskInfoModal.UneditedCompletedTaskRefused` | resources/js/components/taskInfoModal.tsx:80-83 | With the load as written, saving a completed task unedited is refused with "Completion date is required." |
| `TaskInfoModal.UneditedOpenTaskLosesExpiration` | resources/js/components/taskInfoModal.tsx:100 | With the load as written, saving an open task unedited passes but sends a null expiration in place of the one it had. |
| `TaskInfoModal.SaveOfUnchangedTask` | resources/js/components/taskInfoModal.tsx:40-53 | With the intended load, which shows both of the task's dates, a consistent task with ordered dates saved unedited passes and sends its own completion date and expiration. |
| `TaskInfoModal.TaskEditor.constructor` | resources/js/components/taskInfoModal.tsx:19-30 | The initial component state: not editing, empty fields, no errors. |
| `TaskInfoModal.TaskEditor.TaskChanged` | resources/js/components/taskInfoModal.tsx:40-53 | A new task is shown field by field, both of its dates included (the intended load, see Findings), with no errors and outside edit mode. A null task changes nothing else. |
| `TaskInfoModal.TaskEditor.StartEditing` | resources/js/components/taskInfoModal.tsx:164 | Enters edit mode and leaves every field as it was. |
| `TaskInfoModal.TaskEditor.EditTitle` | resources/js/components/taskInfoModal.tsx:178-181 | While editing, the title becomes the typed value. Outside edit mode there is no input and nothing changes. No other field changes. |
| `TaskInfoModal.TaskEditor.SelectUser` | resources/js/components/taskInfoModal.tsx:209-217 | While editing, the owner becomes the chosen user's id. The handler maps an empty value to none, but the select offers no empty option, so the form never produces it. Nothing changes outside edit mode, and no other field changes. |
| `TaskInfoModal.TaskEditor.EditCreatedAt` | resources/js/components/taskInfoModal.tsx:274-280 | While editing, the creation date becomes the input's value, or none when the input is emptied. No other field changes. |
| `TaskInfoModal.TaskEditor.EditExpiration` | resources/js/components/taskInfoModal.tsx:300-306 | While editing, the expiration becomes the input's value, or none when the input is emptied. No other field changes. |
| `TaskInfoModal.TaskEditor.EditCompletedAt` | resources/js/components/taskInfoModal.tsx:328-334 | The input is disabled while the task is open. So only while editing a completed task does the completion date become the input's value. No other field changes. |
| `TaskInfoModal.TaskEditor.CancelEdit` | resources/js/components/taskInfoModal.tsx:112-124 | Title, user, completion and all three dates are restored from the task (the intended load, see Findings), every error is cleared and edit mode is left. There is no effect without a task. |
| `TaskInfoModal.TaskEditor.ToggleCompletion` | resources/js/components/taskInfoModal.tsx:236-248 | Nothing happens outside edit mode. Otherwise completion flips, turning it off clears the date and turning it on sets it to now. |
| `TaskInfoModal.TaskEditor.SaveChanges` | resources/js/components/taskInfoModal.tsx:55-102 | Without a task nothing happens. Otherwise the errors are cleared and the checks run. A failure sets exactly its own message and sends nothing. A pass starts loading and sends the payload. |
| `TaskInfoModal.TaskEditor.SaveFinished` | resources/js/components/taskInfoModal.tsx:103-107 | Stops loading and leaves edit mode. |
| `SubTaskList.WithoutId` | resources/js/components/subTaskList.tsx:42 | Exactly the entries with another id are kept. |
| `SubTaskList.WithoutIdDistributes` | resources/js/components/subTaskList.tsx:56 | Filtering distributes over concatenation, so the kept entries stay in their order. |
| `SubTaskList.WithoutAbsentId` | resources/js/components/subTaskList.tsx:56 | Removing an id the list does not hold leaves it unchanged. |
| `SubTaskList.AddThenRollback` | resources/js/components/subTaskList.tsx:29-44 | Appending under a fresh temporary id and then rolling back restores the list exactly. |
| `SubTaskList.SubTaskListState.constructor` | resources/js/components/subTaskList.tsx:6-10 | The list starts as the task's subtasks with the form closed and empty. |
| `SubTaskList.SubTaskListState.Resync` | resources/js/components/subTaskList.tsx:13-15 | The local list is replaced by the task's subtasks. |
| `SubTaskList.SubTaskListState.OpenForm` | resources/js/components/subTaskList.tsx:124 | Shows the form and changes nothing else. |
| `SubTaskList.SubTaskListState.EditTitle` | resources/js/components/subTaskList.tsx:110 | Sets the title and changes nothing else. |
| `SubTaskList.SubTaskListState.AddSubTask` | resources/js/components/subTaskList.tsx:17-36 | A title that is blank after trim changes nothing and sends nothing. Otherwise exactly one open entry carrying the temporary id and the untrimmed title is appended. The form is cleared and hidden, and the untrimmed title is sent. |
| `SubTaskList.SubTaskListState.AddFailed` | resources/js/components/subTaskList.tsx:40-44 | Every entry with the temporary id is dropped and the rest keep their order. |
| `SubTaskList.SubTaskListState.AddFinished` | resources/js/components/subTaskList.tsx:46-48 | Stops loading. |
| `SubTaskList.SubTaskListState.DeleteSubTask` | resources/js/components/subTaskList.tsx:53-56 | The returned snapshot is the list before the delete. Every entry with the id is dropped. |
| `SubTaskList.SubTaskListState.DeleteFailed` | resources/js/components/subTaskList.tsx:61-63 | The list becomes exactly the snapshot taken before the delete. |
| `TaskTable.FindUser` | resources/js/components/TaskTable.tsx:37 | Gives the first user with the id, or none when no user has it. |
| `TaskTable.Edited` | resources/js/components/TaskTable.tsx:33-38 | The sent task has the edited title. It has an owner exactly when a user has the edited id, and that owner is the id. No other field changes. |
| `TaskTable.Reopened` | resources/js/components/TaskTable.tsx:129-134 | The sent task is open with no completion date. No other field changes. |
| `TaskTable.MarkedComplete` | resources/js/components/TaskTable.tsx:58-62 | The sent task is completed at the chosen date. No other field changes. |
| `TaskTable.ClientCompletionMatchesServerToggle` | resources/js/components/TaskTable.tsx:128-138 | On a consistent task, reopening and completing at "now" give the same row as the server's toggle. |
| `TaskTable.TaskTableState.constructor` | resources/js/components/TaskTable.tsx:22-31 | Nothing is being edited and both modals are closed with nothing pending. |
| `TaskTable.TaskTableState.SaveEdit` | resources/js/components/TaskTable.tsx:33-42 | Sends the edited task and resets all editing state. The modals are untouched. |
| `TaskTable.TaskTableState.CancelEdit` | resources/js/components/TaskTable.tsx:44-48 | Resets all editing state and sends nothing. |
| `TaskTable.TaskTableState.OpenCompleteModal` | resources/js/components/TaskTable.tsx:50-54 | Records the pending task, presets the date to now and opens the modal. |
| `TaskTable.TaskTableState.ChangeCompletedAt` | resources/js/components/TaskTable.tsx:213 | Sets the chosen completion date. |
| `TaskTable.TaskTableState.ConfirmComplete` | resources/js/components/TaskTable.tsx:56-65 | With no pending task nothing is sent. Otherwise the pending task is sent completed at the chosen date, the pending task is cleared and the modal closes. |
| `TaskTable.TaskTableState.CloseCompleteModal` | resources/js/components/TaskTable.tsx:214-217 | Closes the modal and clears the pending task. |
| `TaskTable.TaskTableState.RemoveTask` | resources/js/components/TaskTable.tsx:72-75 | Records the id and opens the confirmation. |
| `TaskTable.TaskTableState.ConfirmDelete` | resources/js/components/TaskTable.tsx:77-82 | A falsy pending id (none, or 0) does nothing. Otherwise the delete for that id is sent, the id is cleared and the confirmation closes. |
| `TaskTable.TaskTableState.CancelDelete` | resources/js/components/TaskTable.tsx:235-238 | The closure handed to the confirmation closes it and clears the pending id. As wired it is never called (see Findings). |
| `TaskTable.TaskTableState.CancelClickedAsWired` | resources/js/components/confirmDeleteModal.tsx:17-36 | The Cancel button calls an `onClose` the page never passes, so pressing it changes nothing. |
| `TaskTable.TaskTableState.RemoveThenCancelAsWired` | resources/js/components/TaskTable.tsx:235-238 | As wired, after asking to delete a task and pressing Cancel, the confirmation is still open with that task pending. |
| `TaskTable.TaskTableState.RemoveThenCancel` | resources/js/components/TaskTable.tsx:72-75 | As intended, asking to delete a task and then cancelling leaves the confirmation closed with nothing pending. |
| `TaskTable.TaskTableState.ToggleRow` | resources/js/components/TaskTable.tsx:128-138 | A completed task is sent back open at once and no modal opens. An open task sends nothing, becomes the pending task with the date preset to now, and the modal opens. |

## Left out

- Rendering, layout and the purely presentational components and pages are not modelled.
- The `users` list that the views pass to the page is not modelled.
- The paginator's links and URLs, `withQueryString`, and the `Inertia::location` redirects are not modelled.
- The `user` relation eager-loaded with each task is not modelled.
- Eloquent persistence is modelled only through the `TaskStore` map.
- Mass assignment and the framework's input middleware are not modelled. A title is stored exactly as received.
- Concurrent requests are not modelled. Every operation is one atomic step on the table.
- TaskQueries.Latest: rows with equal created_at come in the order the database returns them. The model promises only descending order and a permutation, not which tie order the database uses.
- TaskQueries.Contains: SQL LIKE treats `%` and `_` inside the search as wildcards, and its case sensitivity depends on the collation. The model is plain substring containment.
- The delete's effect on subtask rows is not modelled. Subtasks are held inside their task's record, so the model cannot show subtask rows left behind after a delete. Whether the database cascades the delete depends on a migration that is not part of this model.
- Time zones and date formatting are not modelled: the Carbon accessors, `isoToLocal`, and `toISOString().slice(0, 16)`. Dates are integers.
- An unparsable date string on the client is not modelled. The date inputs produce either '' or a well-formed value.
- The network calls themselves are not modelled: `Inertia.patch`, `router.post`, `router.delete`, and the request mapping in resources/js/components/tableUser.tsx. Each handler returns the request it would send, and each request outcome is a separate handler call.
- The temporary id is `Date.now()` in the source and a parameter here.
- The info modal's open/selected state (`openInfoModal`) is not modelled. It only chooses which task the editor shows.
- No handler in TaskTable.tsx ever sets `editingId` to a task. The model keeps the field and its resets.
- TaskTable.TaskTableState.SaveEdit and TaskTable.TaskTableState.CancelEdit model `saveEdit` and `cancelEdit` as written, but no element of the table, and nothing else in the code, calls either one. The page never takes these two transitions.
- TaskInfoModal.TaskEditor.SelectUser accepts `None` because the handler maps an empty value to none. The select lists one option per user and no empty option, so the form can never clear an owner that way.
- The PATCH endpoint that the client editors call is not modelled. Neither is subtask toggling or subtask deletion on the server. None of them appears in the controllers and routes modelled here.

## Findings

| source | as written | input that shows it | evidently intended | confidence | as-written member | corrected member |
|---|---|---|---|---|---|---|
| resources/js/components/taskInfoModal.tsx:45-46 | The editor's load effect and `cancelEdit` (lines 117-118) read `completed_at_iso` and `expiration_iso`. `app/Models/Task.php:27-32` appends only `created_at_formatted`, `completed_at_formatted`, `created_at_iso` and `expiration_formatted`, so both fields arrive undefined and load as ''. | A completed task opened and saved without edits is refused with "Completion date is required.". An open task with an expiration, saved without edits, is sent with a null expiration. | The editor shows the task's completion date and expiration, so an unedited save passes and keeps both. | medium, not executed | `TaskInfoModal.UneditedCompletedTaskRefused` | `TaskInfoModal.SaveOfUnchangedTask` |
| resources/js/components/TaskTable.tsx:235-238 | The table passes its cancel closure to the delete confirmation as `onCancel`. `confirmDeleteModal.tsx` declares and reads only `onClose` (lines 9 and 17), and its Cancel button calls that `onClose` (line 31). `modal.tsx` draws no Close button of its own when a footer is given (lines 35-50). | Ask to delete any task, then press Cancel: the confirmation stays open with the task pending, and the only way out is Confirm, which deletes it. | Cancel closes the confirmation and clears the pending id. | high, not executed | `TaskTable.TaskTableState.RemoveThenCancelAsWired` | `TaskTable.TaskTableState.RemoveThenCancel` |

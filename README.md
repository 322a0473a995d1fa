# Todo list: a Dafny model of its state logic

This project models the state logic of a small personal task-list web app.
It covers four components:

- **List controller** (`TodoApp`). It owns the list of tasks and the chosen view filter.
  Six operations act on the list: add (prepend), toggle (`map`), delete (`filter`), edit (`map`),
  clear completed (`filter`) and mark all complete (`map`).
  Each raises at most one toast, except toggle, which raises one per record carrying the id
  (so at most one while ids are unique).
  Mark all complete leaves the list alone when nothing is active.
  The visible subset and the `{total, active, completed}` counts are pure projections of the list.
- **Task row** (`TodoItem`). It holds the task record and a two-field edit-mode state machine
  (`isEditing`, `editText`). Commit is guarded by a trimmed-non-empty test.
  The checkbox and the delete button forward the row's id.
- **Add form** (`AddTodo`). It holds a text buffer.
  Submit forwards the trimmed text only when that text is non-blank, then clears the buffer.
- **Statistics panel** (`TodoStats`). It shows the total, the completed count,
  and the completion percentage rounded half-up.

Layout, one module per source file plus three helpers:

| file | module | models |
|---|---|---|
| `todo_item.dfy` | `TodoItem` | the `Todo` record, the row's edit state machine (class `ItemState`) |
| `todo_filters.dfy` | `TodoFilters` | `FilterType` |
| `todo_app.dfy` | `TodoApp` | list transformations and projections as functions; the component as class `App` |
| `add_todo.dfy` | `AddTodo` | the add form (class `AddForm`) |
| `todo_stats.dfy` | `TodoStats` | the statistics panel |
| `seqs.dfy` | `Seqs` | order-preserving `Filter` (JavaScript `Array.prototype.filter`) and the subsequence relation |
| `text.dfy` | `Text` | whitespace trimming in the manner of JavaScript `String.prototype.trim` |
| `wrappers.dfy` | `Wrappers` | `Option` |

Modelling decisions:

- The list transformations are pure functions over `seq<Todo>`.
  Each is characterised field by field ("only this field of matching records changes"), or by contents and order.
  The components whose handlers overwrite state are classes.
  Their methods replace the fields and return what the handler passes on: the toasts raised, or the callback call made.
- A toast is a `Notice`. It records which message was shown, the count it reports (clear completed, mark all complete),
  and whether it is destructive (only the delete toast is). The wording of the messages is not modelled.
- `toggleTodo` raises its toast inside the `map` callback. So it raises one toast per record carrying the id.
  `ToggleNotices` models exactly that. With unique ids it is one toast, or none for an absent id.
- The fresh id (`crypto.randomUUID()`) and the creation time (`new Date()`) are parameters of `App.AddTodo`.
  The method requires the id not to occur in the list yet, which is what a random UUID provides.
  With that, every operation preserves id uniqueness.
- `clearCompleted` and `markAllComplete` count from the list of the last render but update the pending list.
  Handlers run one at a time here, so both are `todos`.
- `createdAt` is an integer (milliseconds). It is only carried and never changed.
- `addTodo` (`src/components/TodoApp.tsx:39-51`) itself accepts any text.
  The blank check lives in the add form (`AddForm.Submit`) and in the row's commit (`ItemState.HandleEdit`).
  `TextsStayClean` shows that together they keep every stored text non-blank and trimmed.
- Toggling an absent id raises no toast, because the toast is raised inside the `map` callback
  (`src/components/TodoApp.tsx:56-63`; `ToggleAbsent`).

## Model

| member | source | states |
|---|---|---|
| `Text.Trim` | src/components/AddTodo.tsx:14-15 | the trimmed text is a slice of the input whose cut-off ends are white space and whose own ends are not; it is empty exactly when the input is all white space |
| `Text.TrimmedSlice` | src/components/AddTodo.tsx:14 | a slice cut between white-space ends and starting and ending on non-white-space is trimmed, and empty exactly when the whole text is white space |
| `TodoItem.ItemState.constructor` | src/components/TodoItem.tsx:21-23 | a mounted row is not editing and its buffer holds the record's text |
| `TodoItem.ItemState.ReceiveProps` | src/components/TodoApp.tsx:192-199 | a row keyed by id keeps its edit state when the parent re-renders it with a new version of the same record |
| `TodoItem.ItemState.ChangeEditText` | src/components/TodoItem.tsx:56 | typing replaces the edit buffer and nothing else |
| `TodoItem.ItemState.HandleEdit` | src/components/TodoItem.tsx:25-30 | a non-blank buffer calls `onEdit(id, trim(buffer))` once and leaves edit mode; a blank one calls nothing and stays; the forwarded text is non-empty and trimmed |
| `TodoItem.ItemState.HandleCancel` | src/components/TodoItem.tsx:32-35 | the buffer returns to the record's text, edit mode ends, no callback is called |
| `TodoItem.ItemState.KeyDown` | src/components/TodoItem.tsx:57-60 | Enter acts as commit, Escape as cancel, any other key changes nothing and calls nothing |
| `TodoItem.ItemState.ClickText` | src/components/TodoItem.tsx:88 | clicking the text enters edit mode only for an active task |
| `TodoItem.ItemState.EditButtonShown` | src/components/TodoItem.tsx:96 | the edit button is hidden while the row is editing and for a completed task, and shown otherwise |
| `TodoItem.ItemState.ClickEditButton` | src/components/TodoItem.tsx:96-104 | the edit button exists only outside edit mode for an active task, and enters edit mode |
| `TodoItem.ItemState.ClickCheckbox` | src/components/TodoItem.tsx:41-45 | the checkbox forwards `onToggle(todo.id)` whatever the edit state |
| `TodoItem.ItemState.ClickDelete` | src/components/TodoItem.tsx:106-113 | the delete button forwards `onDelete(todo.id)` whatever the edit state |
| `TodoApp.Toggled` | src/components/TodoApp.tsx:53-68 | same length; only `completed` of records with the id changes, flipped; ids, texts and timestamps unchanged |
| `TodoApp.ToggleNotices` | src/components/TodoApp.tsx:56-63 | one toast per record carrying the id, in list order: "completed" for a record that was active, "reactivated" otherwise |
| `TodoApp.Removed` | src/components/TodoApp.tsx:71-72 | no record with the id remains; every other record keeps its multiplicity; the result is an order-preserving subsequence |
| `TodoApp.Edited` | src/components/TodoApp.tsx:80-85 | same length; only `text` of records with the id changes, to the new text; ids, flags and timestamps unchanged |
| `TodoApp.AllCompleted` | src/components/TodoApp.tsx:106 | same length; every record completed; ids, texts and timestamps unchanged |
| `TodoApp.Visible` | src/components/TodoApp.tsx:114-118 | under All the whole list; otherwise an order-preserving subsequence holding exactly the records the filter admits |
| `TodoApp.CountsOf` | src/components/TodoApp.tsx:120-124 | total is the list length and equals active plus completed; active and completed are the lengths of the two views |
| `TodoApp.VisibleByFlag` | src/components/TodoApp.tsx:114-124 | the Active and Completed views are the list filtered on `!completed` and `completed` |
| `TodoApp.ViewsPartition` | src/components/TodoApp.tsx:114-118 | the Active and Completed views are disjoint, their lengths add up to the total and together they hold every record as often as the list does |
| `TodoApp.ViewNonEmpty` | src/components/TodoApp.tsx:114-118 | a view is non-empty exactly when some record shows in it |
| `TodoApp.ToggleTwice` | src/components/TodoApp.tsx:53-68 | toggling the same id twice restores the original list |
| `TodoApp.ToggleAbsent` | src/components/TodoApp.tsx:53-68 | toggling an absent id leaves the list unchanged and raises no toast |
| `TodoApp.ToggleUnique` | src/components/TodoApp.tsx:56-63 | with unique ids, toggling a present id raises exactly one toast, "completed" exactly when the record was active |
| `TodoApp.DeleteCount` | src/components/TodoApp.tsx:71-72 | deleting an absent id changes nothing; with unique ids deleting a present id removes exactly one record, and ids stay unique |
| `TodoApp.AddKeepsUnique` | src/components/TodoApp.tsx:39-46 | prepending a record with a fresh id keeps ids unique |
| `TodoApp.TextsStayClean` | src/components/TodoApp.tsx:39-112 | adding or editing with non-blank trimmed text, and every other operation, keep every stored text non-blank and trimmed |
| `TodoApp.ClearCompletedSpec` | src/components/TodoApp.tsx:92-101 | afterwards the Completed view is empty, the Active view is unchanged, and the number of removed records is the completed count |
| `TodoApp.MarkAllSpec` | src/components/TodoApp.tsx:103-112 | afterwards the Active view is empty; with no active record the marked list equals the original |
| `TodoApp.App.constructor` | src/components/TodoApp.tsx:14-15 | the component starts with an empty list and the All filter |
| `TodoApp.App.AddTodo` | src/components/TodoApp.tsx:39-51 | the list becomes the new active record with the given id, text and time followed by the old list unchanged; ids stay unique; a non-destructive "added" toast |
| `TodoApp.App.ToggleTodo` | src/components/TodoApp.tsx:53-69 | the list is the toggle map of the old one with its toasts; an absent id changes nothing and raises none; ids stay unique |
| `TodoApp.App.DeleteTodo` | src/components/TodoApp.tsx:71-78 | the list is the old one without the id (unchanged if absent, one shorter if present with unique ids); a destructive toast is raised even for an absent id |
| `TodoApp.App.EditTodo` | src/components/TodoApp.tsx:80-90 | the list is the edit map of the old one; ids and clean texts are kept; the "updated" toast is always raised |
| `TodoApp.App.ClearCompleted` | src/components/TodoApp.tsx:92-101 | the list becomes its active records in order; a toast reporting the removed count exactly when that count is positive |
| `TodoApp.App.MarkAllComplete` | src/components/TodoApp.tsx:103-112 | with some active record all become completed and the toast reports how many were active; otherwise nothing changes and no toast; afterwards nothing is active |
| `TodoApp.App.CompleteAllEnabled` | src/components/TodoApp.tsx:151-162 | "Complete All" is usable exactly when some record is active |
| `TodoApp.App.ClearCompletedEnabled` | src/components/TodoApp.tsx:163-172 | "Clear Completed" is usable exactly when some record is completed |
| `TodoApp.App.SetFilter` | src/components/TodoApp.tsx:143-149 | choosing a filter changes the filter and never the list |
| `TodoApp.App.Dispatch` | src/components/TodoApp.tsx:192-199 | a row's toggle, delete and edit calls run the matching operation, keeping ids unique and, for a clean edit text, texts clean |
| `AddTodo.AddForm.constructor` | src/components/AddTodo.tsx:11 | the buffer starts empty |
| `AddTodo.AddForm.Change` | src/components/AddTodo.tsx:21 | a change event replaces the buffer with the input value |
| `AddTodo.AddForm.SubmitDisabled` | src/components/AddTodo.tsx:23 | the submit button is disabled exactly when the buffer is all white space |
| `AddTodo.AddForm.Submit` | src/components/AddTodo.tsx:12-18 | a non-blank buffer calls `onAdd(trim(text))` once and clears the buffer; a blank one calls nothing and keeps it; a call happens exactly when the button is enabled; the forwarded text is non-empty and trimmed |
| `TodoStats.Percent` | src/components/TodoStats.tsx:10 | 0 for an empty list, at most 100, and the integer nearest to `100 * completed / total` with halves rounded up |
| `TodoStats.PercentExtremes` | src/components/TodoStats.tsx:10 | for a non-empty list the percentage is 100 when all tasks are completed and 0 when none is |
| `TodoStats.CompletedExtremes` | src/components/TodoStats.tsx:8 | the completed count equals the total when all records are completed and is 0 when none is |
| `TodoStats.ProgressOf` | src/components/TodoStats.tsx:8-10 | total is the list length, completed is the number of completed records and never exceeds the total, and the percentage has the bounds, extremes and rounding above |

## Left out

- Loading and saving the list in browser storage (`src/components/TodoApp.tsx:19-37`) is not modelled. It is I/O plus parsing of untyped JSON; its only contract is that errors are logged.
- `crypto.randomUUID()` and `new Date()` are foreign calls. They are parameters of `App.AddTodo`, with freshness of the id as a precondition.
- Toast rendering and message wording (including the singular/plural choice) are not modelled. Only which toast, its count and its destructive flag are.
- JSX, CSS classes, icons and the empty-state messages are presentation only. Of the page's conditional rendering, the model keeps the edit button guard and the two bulk-action buttons' enabled state.
- Date formatting with `toLocaleDateString` and `toLocaleTimeString` is locale-dependent library behaviour and is not modelled.
- `src/components/TodoFilters.tsx` is modelled only as its `FilterType`. The rest is a row of buttons that calls `setFilter` (`App.SetFilter`).
- TodoStats.Percent: computes exact half-up rounding. The source rounds the double `completed / total * 100` with `Math.round`; floating-point rounding of that quotient is not modelled.
- Text.Trim: treats as white space the fixed set of characters ECMAScript's `trim` removes (ASCII space, tab, line feed, vertical tab, form feed and carriage return, no-break space, the Unicode space separators, line and paragraph separators, byte-order mark); the Unicode version dependence of that set is not modelled.
- React's scheduling is not modelled: state updaters run against the list of the moment, and development-mode double invocation of updaters (which can repeat the toggle toast) is absent.
- The remote-database persistence variant (table client, authentication) is not part of this model.

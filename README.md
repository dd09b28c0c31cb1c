# Task list manager — Dafny model

This project models the core of a browser task-list page (`app.js`). The page
keeps an ordered list of task records in a module-level array `tasks`. Each
record has an id, a title, a category, a due date, a completion flag, a
creation date and a transient `isNew` highlight flag. The page changes the list
through a few closures: add (to the front), toggle completion, delete, clear
completed, clear all (after confirmation) and edit. After each change it
re-renders the tasks that match a category selector and a status selector.
Rendering shows three counters and clears the `isNew` flag of every task it
draws. Titles and categories are HTML-escaped before they are drawn. Both forms
trim the title and refuse a submission with an empty field.

Modules:

- `Results` (`results.dfy`): `Option` and a `Result` that carries an alert message.
- `JsArray` (`js_array.dfy`): `filter`, `map`, `findIndex` and `find` on sequences. Filter is characterised
  independently as the only subsequence that keeps exactly the elements satisfying the predicate, with their
  multiplicities.
- `JsString` (`js_string.dfy`): `String.prototype.trim` over the ECMAScript white-space and line-terminator
  code points.
- `Html` (`html.dfy`): `escapeHtml` written as its five `replaceAll` passes. It is proved equal to a per-character
  entity mapping and inverted by an entity decoder.
- `TaskList` (`task_list.dfy`): the `Task` record and the list transformation behind each change. It also holds
  two list invariants: ids are unique, and every task has the fields the forms guarantee.
- `View` (`view.dfy`): the filter predicate of `renderTasks`, the counters of `updateStats` and the clearing of
  `isNew`.
- `Controller` (`controller.dfy`): the checks of the two submit handlers and the lookup of `openEditModal`.
- `App` (`app.dfy`): class `TaskApp`. Its field `tasks: seq<Task>` stands for the module-level array. It has one
  method per closure, and each mutating method ends by calling `RenderTasks`, as the page does.

The page reads the active selectors from the DOM. Here they are a `Filters` parameter of every method that
renders. The generated id and the creation date are parameters too. The `confirm` dialog of clear-all is a
boolean parameter, and an `alert` is a returned message.

## Model

| member | source | states |
|---|---|---|
| JsArray.Filter | app.js:79-85 | `filter` keeps only elements of the input that satisfy the predicate, keeps every such element, and never grows the list (also used at app.js:58, 166, 171 and 178) |
| JsArray.Map | app.js:156 | `map` keeps the length and puts at each position the image of the element there (also used at app.js:202) |
| JsArray.Find | app.js:191 | `find` returns nothing exactly when no element satisfies the predicate; otherwise it returns the first element that does |
| JsString.Trim | app.js:210 | trim returns the slice of the input between its leading and trailing white space; the result is empty exactly when the input is all white space, and otherwise it neither starts nor ends with white space |
| JsString.TrimIdempotent | app.js:237 | trimming an already trimmed title changes nothing |
| Html.EscapeHtml | app.js:65-72 | the escaped text is the input with each character replaced by its own entity (`&amp; &lt; &gt; &quot; &#039;`) and every other character kept; it holds no `<`, `>`, `"` or `'`; it equals the input exactly when the input holds none of `& < > " '`; decoding the five entities in it gives back the input |
| Html.ReplaceAll | app.js:67-71 | every character of the result either comes from the input and is not the pattern, or comes from the replacement; an input without the pattern is returned unchanged |
| Html.EscapePassesArePerCharacter | app.js:65-72 | because `&` is replaced first and no entity holds a character a later pass rewrites, the five `replaceAll` passes equal replacing each character independently by its entity |
| Html.EscapePassesOneSpecial | app.js:67-71 | a single special character comes out of the five passes as its own entity, untouched by the later passes |
| TaskList.NewTask | app.js:141-149 | the new record is pending and new and carries the given id, fields and creation date; with fields the forms accept it is well formed |
| TaskList.Unshifted | app.js:150 | `unshift` puts the task at index 0, the old list follows unchanged, and the length grows by one |
| TaskList.UnshiftFreshKeepsUniqueIds | app.js:139-150 | adding a task whose id is unused keeps ids unique |
| TaskList.UnshiftTakenBreaksUniqueIds | app.js:139-150 | adding a task whose id is already used breaks uniqueness, so uniqueness rests on `generateId` |
| TaskList.Toggled | app.js:156 | length kept; `completed` flips exactly on tasks with the id; every other field of every task is unchanged |
| TaskList.ToggledTwice | app.js:156 | toggling the same id twice restores the list |
| TaskList.ToggledAbsent | app.js:156 | toggling an id no task has changes nothing |
| TaskList.ToggledKeepsInvariants | app.js:156 | toggling keeps ids unique and keeps every task well formed |
| TaskList.WithoutId | app.js:171 | deletion keeps only tasks of the list with another id, and keeps every such task |
| TaskList.WithoutIdExact | app.js:166 | deletion leaves an order-preserving subsequence holding each task with another id as often as before, and no task with the id |
| TaskList.WithoutIdLength | app.js:171 | deleting an absent id changes nothing; deleting a present id shortens the list |
| TaskList.WithoutIdKeepsInvariants | app.js:166 | deletion keeps ids unique and keeps every task well formed |
| TaskList.WithoutCompleted | app.js:178 | clear-completed keeps only pending tasks of the list, and keeps every pending task |
| TaskList.WithoutCompletedExact | app.js:178 | clear-completed leaves the order-preserving subsequence of exactly the pending tasks, with their multiplicities |
| TaskList.WithoutCompletedIdempotent | app.js:178 | clearing completed tasks twice equals clearing them once |
| TaskList.WithoutCompletedKeepsInvariants | app.js:178 | clear-completed keeps ids unique and keeps every task well formed |
| TaskList.Updated | app.js:202 | the length is kept and tasks with another id are untouched; tasks with the id take the title, category, due date and completion flag submitted, and keep their id, creation date and `isNew` |
| TaskList.Merge | app.js:202 | `{...t, ...newData}` takes title, category, due date and completion from the edit and keeps id, creation date and `isNew`; checked edit fields give a well-formed task |
| TaskList.UpdatedAbsent | app.js:202 | editing an id no task has changes nothing |
| TaskList.UpdatedIdempotent | app.js:202 | applying the same edit twice equals applying it once |
| TaskList.UpdatedKeepsInvariants | app.js:201-202 | edits keep ids unique; an edit with checked fields keeps every task well formed |
| View.Matches | app.js:79-85 | a task whose category differs from a selected category never matches; status "all" accepts every task whose category matches; "pending" accepts only tasks not completed and "completed" only completed ones; any other status matches nothing |
| View.Visible | app.js:79-85 | the rendered tasks are tasks of the list matching both selectors, and every matching task is rendered |
| View.VisibleExact | app.js:79-85 | the rendered list is the order-preserving subsequence of exactly the matching tasks, with their multiplicities |
| View.VisibleAllAll | app.js:80-81 | category "all" with status "all" renders the whole list |
| View.VisibleUnknownStatus | app.js:81-83 | a status other than "all", "pending" or "completed" renders nothing |
| View.VisibleStatusPartition | app.js:81-83 | within one category, the pending and completed views together are as long as the "all" view |
| View.NothingCompletedAfterClear | app.js:83 | after clear-completed the "completed" view is empty for every category |
| View.UpdateStats | app.js:56-59 | total is the list length and equals completed plus pending; completed is the length of the "all"/"completed" view; pending is what clear-completed would leave |
| View.StatsAfterClearCompleted | app.js:56-59 | after clear-completed, completed is 0 and total equals the former pending count |
| View.ClearedNew | app.js:115-118 | rendering keeps the length and changes only `isNew`, which is cleared exactly on the rendered tasks |
| View.ClearedNewUnshifted | app.js:139-152 | rendering a list with a new task in front treats the new task and the rest separately |
| View.ClearedNewHidesHighlight | app.js:115-118 | clearing the flag changes no task's match, and after rendering no visible task is new |
| View.ClearedNewIdempotent | app.js:115-118 | rendering twice with the same selectors clears nothing more |
| View.ClearedNewKeepsInvariants | app.js:115-118 | clearing the flag keeps ids unique, keeps tasks well formed and leaves the counters unchanged |
| View.RenderedAddKeepsInvariants | app.js:139-152 | adding a well-formed task with a fresh id and then rendering keeps both list invariants |
| Controller.CheckAddForm | app.js:210-216 | the add form is refused, with its alert, exactly when the title is all white space or the category or due date is empty; otherwise it yields the trimmed title, which is well formed |
| Controller.CheckEditForm | app.js:236-245 | the edit form follows the same rule with its own alert and passes the completion checkbox through; accepted fields are well formed |
| Controller.AcceptedAddIsWellFormed | app.js:210-217 | a task built from an accepted add form is well formed |
| Controller.EditFormFor | app.js:190-197 | the edit form is absent exactly when no task has the id; otherwise it holds the fields of the first task with that id |
| Controller.ReopenAndSaveUnchanged | app.js:233-246 | when ids are unique and tasks are well formed, opening a task's edit form and saving it unchanged is accepted and leaves the list as it was |
| Controller.CheckEditFormAcceptsWellFormed | app.js:237-245 | the edit check accepts a well-formed task's own fields unchanged |
| Controller.UpdatedWithOwnFields | app.js:202 | with unique ids, writing a task's own fields back changes nothing |
| App.TaskApp.constructor | app.js:30 | the list starts empty |
| App.TaskApp.RenderTasks | app.js:75-125 | the cards are the visible tasks with the flags they were drawn with; the new list is the old one with `isNew` cleared on visible tasks; the counters are those of the new list |
| App.TaskApp.AddTask | app.js:139-153 | the new pending task with the given fields is at index 0 and the rendered old list follows; the task keeps `isNew` only if the selectors hide it; the counters are those of the new list |
| App.TaskApp.ToggleTaskCompleted | app.js:155-159 | the new list is the rendered toggled list; the drawn cards are the visible tasks of that list and the counters are those of the new list |
| App.TaskApp.DeleteTask | app.js:161-175 | with or without the fade delay, the new list is the rendered list without the id; the drawn cards are the visible tasks of that list and the counters are those of the new list |
| App.TaskApp.ClearCompletedTasks | app.js:177-181 | the new list is the rendered list of pending tasks; the drawn cards are the visible tasks of that list and the counters are those of the new list |
| App.TaskApp.ClearAllTasks | app.js:183-188 | without confirmation nothing changes and nothing is drawn; with it the list is empty and an empty page is drawn |
| App.TaskApp.OpenEditModal | app.js:190-199 | returns the edit form of the first task with the id, or nothing |
| App.TaskApp.UpdateTask | app.js:201-205 | the new list is the rendered edited list; the drawn cards are the visible tasks of that list and the counters are those of the new list |
| App.TaskApp.SubmitAddForm | app.js:208-220 | a refused submission leaves the list untouched and returns the alert; an accepted one adds the task with the trimmed title; ids stay unique when the new id is fresh, and tasks stay well formed |
| App.TaskApp.SubmitEditForm | app.js:233-248 | a refused submission leaves the list untouched and returns the alert; an accepted one edits with the trimmed title; ids stay unique and tasks stay well formed |

## Left out

- Persistence: `saveToLocalStorage` after each change and inside the `isNew` loop, and `loadFromLocalStorage`
  at start-up (app.js:35-42, 118, 270), are browser storage I/O. `JSON.parse` (app.js:41) is not guarded, so
  corrupt stored data throws at start-up.
- `generateId` (app.js:33) uses the clock and `Math.random`, and `createdAt` (app.js:147) uses the current date.
  Both are parameters. Id uniqueness is therefore a hypothesis, not a guarantee: see `UnshiftTakenBreaksUniqueIds`.
- `formatDate` (app.js:44-48) is locale- and `Date`-dependent and only affects the drawn text.
- DOM work is not modelled: building the card markup, attaching listeners, resetting and focusing forms,
  showing and hiding the modal, scrolling, and the theme toggle with its storage (app.js:3-28, 87-114, 120-122, 124-137,
  218-231, 247, 250-267). A rendered card is represented by the task it shows.
- The 300 ms fade before a delete (app.js:163-169): both branches of `deleteTask` end in the same filter, and the
  model applies it at once. The interleaving with other events during the delay is not modelled.
- `confirm` and `alert` dialogs: confirmation is a boolean parameter, and an alert is the returned message.
- App.TaskApp.RenderTasks: the source loops over the filtered array, whose objects are shared with `tasks`, and
  `delete task.isNew` mutates them in place. The model loops over the positions of `tasks` with the same filter
  test. It clears the same records in the same order but does not model object identity. A deleted property is
  modelled as `isNew == false`.
- `String(unsafe)` in `escapeHtml` converts non-string values. Every caller passes a string, so the model takes
  strings only.
- Toggle, edit and delete act on every task with the id: `map` for toggle and edit, `filter` for delete. With
  unique ids that is at most one task.

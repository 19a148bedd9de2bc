# Task scheduler: a Dafny model of its core

The task scheduler is a single-page React application that keeps a list of
tasks in the browser. It can search, filter, sort and edit the list, and it
can post a task with a due date to Google Calendar. This project models its
decision-making core and proves properties of it:

- **The task store** (`TaskContext`). The reducer is five pure transitions on
  the ordered list:
  - ADD_TASK appends a task;
  - UPDATE_TASK merges a partial record into every task with the id;
  - DELETE_TASK filters out the id;
  - TOGGLE_COMPLETE flips `completed`;
  - SYNC_CALENDAR records a calendar event id.

  The provider is a class. Its `tasks` field is the reducer state and its
  `persisted` field is the storage slot, which the provider's effect
  overwrites after every change. The calendar sync is modelled by its guard,
  the event it posts and the id it records.
- **The displayed list** (`TaskList`, `Sorting`). `filteredTasks` copies the
  list, searches it, filters it by status and sorts it in place. The model is
  a method over an `array`, proved equal to a specification function. The
  sort is modelled as a stable insertion sort that only asks whether the
  comparator answers `< 0`. For a consistent comparator this is the order
  ECMAScript 2019 requires of `Array.prototype.sort`; for the `dueDate`
  comparator, which is not consistent, it is one engine's choice. The list module also covers the completion statistics and the choice
  of empty-list message.
- **The task form** (`TaskForm`). It is a class with the component's fields.
  Its methods are the input handlers, `addLabel`, `removeLabel`,
  `handleSubmit` and the loading effect. Each method is tied to a pure
  function on a `Fields` record.
- **The page controller** (`App`). It is a class with the `isFormOpen`,
  `taskToEdit` and `searchQuery` fields. A submitted form goes either to
  `updateTask` or to `addTask`.
- **The task card** (`TaskItem`). These are pure predicates: overdue, card
  state, label chip, the "Synced" badge, the "Add to Calendar" button and the
  priority text.

Representation choices:

- Timestamps are integers counting milliseconds since the epoch. The
  source's ISO strings are these instants.
- A `dueDate` of `null` is `None`.
- An absent `googleCalendarEventId` is `None`. Its JavaScript truthiness
  (`""` is falsy) is `Truthy`.
- `Partial<Task>` is `Patch`, with one `Option` per key. For the two nullable
  keys, a present key carrying `undefined` or `null` is `Some(None)`, because
  a spread copies it.
- `generateId()`, `new Date()`, the browser's time-zone offset, the current
  time and the calendar's reply are parameters.
- Strings are sequences of characters. Case mapping is ASCII.
- The form's date input is a day number and its time input a minute of the
  day.

## Model

| member | source | states |
|---|---|---|
| TaskTypes.DraftRoundTrip | src/types/task.ts:1-11 | a draft completed with a task's id and creation time gives the task back, and the other way round; the two agree exactly when one is the other completed |
| TaskTypes.DraftPatch | src/App.tsx:26 | a form payload used as `Partial<Task>` names no `id` and no `createdAt` and always carries the calendar-id key |
| TaskTypes.Merge | src/context/TaskContext.tsx:31 | the spread `{ ...task, ...patch }`, where each key present in the patch overrides; its meaning is stated by `MergeProperties` and `UpdateMergesFields` |
| TaskTypes.MergeProperties | src/context/TaskContext.tsx:31 | spreading an empty patch changes nothing; spreading a draft sets every draft field and keeps the task's id and creation time |
| TaskContext.Reduce | src/context/TaskContext.tsx:17-51 | the reducer sends each action to its transition; its properties are stated by `UnknownIdIsNoOp`, `ReducePreservesUniqueIds` and the transitions' own contracts |
| TaskContext.Add | src/context/TaskContext.tsx:19-27 | ADD_TASK appends exactly one task at the end and keeps the earlier ones in order; the new task carries every draft field plus the given id and creation time |
| TaskContext.Update | src/context/TaskContext.tsx:28-33 | UPDATE_TASK keeps the length; each task with the id becomes the merge of the patch into it, every other task is unchanged |
| TaskContext.Delete | src/context/TaskContext.tsx:34-35 | DELETE_TASK keeps exactly the tasks with another id; none with the id remains |
| TaskContext.Toggle | src/context/TaskContext.tsx:36-41 | TOGGLE_COMPLETE flips only `completed`, and only on the tasks with the id |
| TaskContext.RecordSync | src/context/TaskContext.tsx:42-47 | SYNC_CALENDAR sets only the calendar event id, and only on the tasks with the id |
| TaskContext.DeleteKeepsOrder | src/context/TaskContext.tsx:35 | deleting from a concatenation deletes from each part, so the kept tasks stay in order |
| TaskContext.UnknownIdIsNoOp | src/context/TaskContext.tsx:28-47 | update, delete, toggle and sync with an id no task has return the list unchanged |
| TaskContext.ToggleInvolution | src/context/TaskContext.tsx:36-41 | toggling twice with the same id restores the list |
| TaskContext.UpdateMergesFields | src/context/TaskContext.tsx:29-33 | on a matching task every key absent from the patch keeps its value and every present key overrides; other tasks are untouched |
| TaskContext.ReducePreservesUniqueIds | src/context/TaskContext.tsx:12-51 | unique ids stay unique under every action, given a fresh id for ADD_TASK and no UPDATE_TASK patch that copies another task's id |
| TaskContext.DeleteKeepsIdsUnique | src/context/TaskContext.tsx:34-35 | deleting keeps ids unique |
| TaskContext.EditsKeepIdentity | src/context/TaskContext.tsx:28-47 | update without `id` or `createdAt` keys, toggle and sync keep every task's id and creation time in place |
| TaskContext.Find | src/context/TaskContext.tsx:92 | `find` yields nothing exactly when no task has the id, and otherwise the first task with it |
| TaskContext.SyncEvent | src/context/TaskContext.tsx:91-112 | an event exists exactly when the task is found and has a due date; it is titled and described as the task and runs from the due date to one hour later |
| TaskContext.TaskProvider.constructor | src/context/TaskContext.tsx:66-69 | the store starts from the stored list, or from the empty list when the slot is empty |
| TaskContext.TaskProvider.Dispatch | src/context/TaskContext.tsx:66-73 | the state becomes the reducer's result and the storage slot holds it afterwards |
| TaskContext.TaskProvider.AddTask | src/context/TaskContext.tsx:75-77 | dispatches ADD_TASK; with a fresh id, unique ids stay unique |
| TaskContext.TaskProvider.UpdateTask | src/context/TaskContext.tsx:79-81 | dispatches UPDATE_TASK |
| TaskContext.TaskProvider.DeleteTask | src/context/TaskContext.tsx:83-85 | dispatches DELETE_TASK |
| TaskContext.TaskProvider.ToggleComplete | src/context/TaskContext.tsx:87-89 | dispatches TOGGLE_COMPLETE |
| TaskContext.TaskProvider.SyncWithGoogleCalendar | src/context/TaskContext.tsx:91-136 | posts the event only when the guard passes and a token was granted; records the returned id only after a post whose request and body both resolved; otherwise the list is unchanged |
| Seqs.Filter | src/components/tasks/TaskList.tsx:33-45 | `filter` keeps exactly the elements that pass, drops no element that passes and adds none |
| Seqs.FilterConcat | src/context/TaskContext.tsx:35 | filtering distributes over concatenation, which is the order the kept elements keep |
| Seqs.FilterPartition | src/components/tasks/TaskList.tsx:42-46 | two complementary filters split a list: their lengths add up, and as multisets they add up to it |
| Seqs.FilterNoDuplicates | src/components/tasks/TaskForm.tsx:73-75 | filtering a list without duplicates gives one without duplicates |
| Text.Trim | src/components/tasks/TaskForm.tsx:67 | `trim` returns a slice of its input that is cut only where the input has white space, with no white space at either end, and the empty string exactly when the input is all white space |
| Text.TrimIdempotent | src/components/tasks/TaskForm.tsx:67-68 | trimming twice trims nothing more |
| Text.Lower | src/components/tasks/TaskList.tsx:32-37 | `toLowerCase` keeps the length, maps each upper-case letter A-Z to its lower-case letter, keeps every other character, and leaves no upper-case letter |
| Text.Includes | src/components/tasks/TaskList.tsx:35-37 | `includes` holds exactly when the query occurs at some position |
| Text.NatToString | src/components/tasks/TaskItem.tsx:104 | the decimal rendering of a count is non-empty, all digits, without a leading zero, and denotes the count |
| Sorting.SortBy | src/components/tasks/TaskList.tsx:49 | the engine's sort as a stable insertion sort that only tests `< 0`; it keeps the length, and `SortByPermutation`, `SortBySorted` and `SortByStable` state the rest |
| Sorting.InsertShape | src/components/tasks/TaskList.tsx:49 | inserting puts the element after a prefix it does not go before and before a suffix it goes strictly before |
| Sorting.SortByPermutation | src/components/tasks/TaskList.tsx:49 | sorting is a permutation |
| Sorting.SortBySorted | src/components/tasks/TaskList.tsx:49 | for a strict weak order, no element of the sorted list goes strictly before an earlier one |
| Sorting.InsertFilter | src/components/tasks/TaskList.tsx:49 | inserting keeps the relative order of mutually unordered elements |
| Sorting.SortByStable | src/components/tasks/TaskList.tsx:49 | the sort is stable: mutually unordered elements keep their relative order |
| Sorting.InsertInPlace | src/components/tasks/TaskList.tsx:49 | moving an element left in place into a sorted prefix gives the insertion of it and leaves the rest of the array alone |
| Sorting.SortInPlace | src/components/tasks/TaskList.tsx:49-66 | sorting the array in place leaves the stable sort of its old contents |
| TaskList.Search | src/components/tasks/TaskList.tsx:30-39 | an empty query keeps the list; otherwise the kept tasks are exactly those whose lower-cased title, description or some label contains the lower-cased query |
| TaskList.ApplyStatus | src/components/tasks/TaskList.tsx:41-46 | `active` keeps exactly the open tasks, `completed` exactly the done ones, `all` is the identity |
| TaskList.StatusPartition | src/components/tasks/TaskList.tsx:42-46 | active and completed partition the list: every task lands in exactly one, and together they are the whole list |
| TaskList.DueDateComparatorInconsistent | src/components/tasks/TaskList.tsx:55-58 | the due-date comparator as written answers "greater" both ways for two undated tasks |
| TaskList.CompareAsWritten | src/components/tasks/TaskList.tsx:49-66 | the comparator as written, key by key; `DueDateComparatorInconsistent` states its flaw and `Compare` agrees with its `< 0` answers |
| TaskList.Compare | src/components/tasks/TaskList.tsx:49-66 | the corrected comparator answers `< 0` exactly when the source's does, and 0 for two undated tasks |
| TaskList.CompareIsAntisymmetric | src/components/tasks/TaskList.tsx:49-66 | the corrected comparator is antisymmetric for every key |
| TaskList.LessIsStrictWeakOrder | src/components/tasks/TaskList.tsx:49-66 | "goes strictly before" is a strict weak order for every key |
| TaskList.SortedMeaning | src/components/tasks/TaskList.tsx:51-62 | a list sorted by `newest` has non-increasing creation times; by `oldest`, non-decreasing; by `dueDate`, every dated task is ahead of every undated one and the dated ones ascend; by `priority`, high before medium before low |
| TaskList.View | src/components/tasks/TaskList.tsx:27-69 | `filteredTasks` as a value: search, then the status filter, then the sort; `ViewIsSortedPermutation` states what it holds |
| TaskList.ViewIsSortedPermutation | src/components/tasks/TaskList.tsx:27-69 | the displayed list is a permutation of the searched and filtered list, holds exactly the tasks passing both, and is sorted by the key |
| TaskList.PrioritySortIsStable | src/components/tasks/TaskList.tsx:59-62 | sorting by priority keeps tasks of equal priority in their prior order |
| TaskList.CreationSortIsStable | src/components/tasks/TaskList.tsx:51-54 | sorting by creation time keeps tasks created at the same instant in their prior order |
| TaskList.UndatedStayInOrder | src/components/tasks/TaskList.tsx:55-58 | sorting by due date keeps the undated tasks in their prior order |
| TaskList.FilteredTasks | src/components/tasks/TaskList.tsx:27-69 | the step-by-step search, filter and in-place sort of a copy yield the displayed list |
| TaskList.CompletionStats | src/components/tasks/TaskList.tsx:71-77 | counts completed tasks over all tasks; total is the length; the completed and the open add up to the total; the percentage is 0 for no tasks, at most 100, and the ratio rounded to the nearest integer |
| TaskList.RoundedPercentage | src/components/tasks/TaskList.tsx:74 | the rounded percentage lies between 0 and 100 and within half a point of the exact ratio |
| TaskList.EmptyStateMessage | src/components/tasks/TaskList.tsx:121-132 | the empty-list message, search first, then the status filter; `EmptyStateMessageIsTruthful` states that it is true |
| TaskList.EmptyStateMessageIsTruthful | src/components/tasks/TaskList.tsx:121-132 | when the list is empty, the message chosen in the source's order states the true reason: nothing matched the search, no task is completed, no task is active, or there is no task |
| TaskList.DueDateExample | src/components/tasks/TaskList.tsx:55-58 | an undated task ahead of a dated one comes out behind it |
| TaskForm.LocalMinuteOfDay | src/components/tasks/TaskForm.tsx:36 | the time of day read back is a minute between 0 and 1439 |
| TaskForm.LocalSplitRoundTrip | src/components/tasks/TaskForm.tsx:34-53 | the local day with the local minute, read back as local time, is the instant cut to its minute |
| TaskForm.IsoSplitShift | src/components/tasks/TaskForm.tsx:34-53 | the UTC day with the local minute, read back as local time, is off by the difference between the UTC and the local day, in whole days |
| TaskForm.IsoSplitShiftsDueDate | src/components/tasks/TaskForm.tsx:35-36 | at UTC+05:30, a due date of 20:00 UTC reads back one day early |
| TaskForm.Load | src/components/tasks/TaskForm.tsx:29-41 | corrected load: copies title, description, priority and labels; a due date fills the date input with the local day and the time input with the local minute, which read back to it (to the minute), the minute lying within the day; no due date leaves them alone |
| TaskForm.LoadAsWritten | src/components/tasks/TaskForm.tsx:33-37 | as written, the date input gets the UTC day; everything else, and the whole result for a task without a due date, is as in the corrected load |
| TaskForm.Opened | src/components/tasks/TaskForm.tsx:20-41 | the fields as first shown: the initial values, then the corrected load of the edited task if any |
| TaskForm.WithLabel | src/components/tasks/TaskForm.tsx:66-71 | the trimmed input is appended exactly when it is non-blank and new, otherwise nothing changes; no duplicate is ever added |
| TaskForm.WithoutLabel | src/components/tasks/TaskForm.tsx:73-75 | removing keeps exactly the other labels, a label not present changes nothing, and a list without duplicates stays without duplicates |
| TaskForm.WithoutLabelExact | src/components/tasks/TaskForm.tsx:73-75 | removing takes out every occurrence of the label and nothing else |
| TaskForm.Submit | src/components/tasks/TaskForm.tsx:43-64 | a blank title is refused with "Title is required"; otherwise the title goes out untrimmed, the due date is present exactly when date and time are both set, and `completed` and the calendar id come from the edited task |
| TaskForm.EditRoundTrip | src/components/tasks/TaskForm.tsx:29-64 | with the corrected load, opening a task and submitting unchanged hands back its own fields |
| TaskForm.EditAsWrittenRoundTrip | src/components/tasks/TaskForm.tsx:29-64 | with the load as written, opening a task and submitting unchanged hands back its own fields exactly when its due date falls on the same day in UTC as locally |
| TaskForm.AsWrittenSubmitFields | src/components/tasks/TaskForm.tsx:29-64 | with the load as written, an unchanged submit hands back the task's own fields except the due date, which is the UTC day with the local minute read back as local time |
| TaskForm.IsoSplitReadsBack | src/components/tasks/TaskForm.tsx:34-53 | the UTC day with the local minute reads back to the instant exactly when the UTC and the local day agree |
| TaskForm.EditAsWrittenShiftsDueDate | src/components/tasks/TaskForm.tsx:29-64 | with the load as written, the same round trip moves the due date a day earlier |
| TaskForm.Form.constructor | src/components/tasks/TaskForm.tsx:20-41 | mounting the form gives the initial fields and then the corrected load of the edited task |
| TaskForm.Form.ChangeTitle | src/components/tasks/TaskForm.tsx:95-98 | typing a title stores it and clears the error when it is not blank |
| TaskForm.Form.ChangeDescription | src/components/tasks/TaskForm.tsx:112 | stores the description and nothing else |
| TaskForm.Form.ChangeDueDate | src/components/tasks/TaskForm.tsx:127 | stores the date and nothing else |
| TaskForm.Form.ChangeDueTime | src/components/tasks/TaskForm.tsx:140 | stores the time and nothing else |
| TaskForm.Form.ChangePriority | src/components/tasks/TaskForm.tsx:152 | stores the priority and nothing else |
| TaskForm.Form.ChangeLabel | src/components/tasks/TaskForm.tsx:171 | stores the label input and nothing else |
| TaskForm.Form.AddLabel | src/components/tasks/TaskForm.tsx:66-71 | the labels become `WithLabel` of the old ones, and the input is cleared exactly when the label was taken |
| TaskForm.Form.RemoveLabel | src/components/tasks/TaskForm.tsx:73-75 | the labels become `WithoutLabel` of the old ones, nothing else changes |
| TaskForm.Form.HandleSubmit | src/components/tasks/TaskForm.tsx:43-64 | the outcome is `Submit` of the fields; a refusal sets the error and nothing else |
| TaskItem.OverdueFacts | src/components/tasks/TaskItem.tsx:36-39 | no due date or completed means not overdue; an open dated task is overdue exactly when due before now; overdue stays overdue as time passes |
| TaskItem.IsOverdue | src/components/tasks/TaskItem.tsx:36-39 | `isOverdue()`: due strictly before now and not completed; `OverdueFacts` states its consequences |
| TaskItem.ToggleClearsOverdue | src/components/tasks/TaskItem.tsx:36-39 | completing an overdue task makes it not overdue |
| TaskItem.CardStateOf | src/components/tasks/TaskItem.tsx:47-49 | the card is "completed" exactly for completed tasks, "overdue" exactly for overdue ones, plain otherwise |
| TaskItem.LabelChip | src/components/tasks/TaskItem.tsx:101-105 | no chip without labels, the label itself for one, and for more the count's decimal rendering (`NatToString`) followed by " labels" |
| TaskItem.ShowsSyncedBadge | src/components/tasks/TaskItem.tsx:108 | the "Synced" badge shows exactly for a truthy calendar event id |
| TaskItem.OffersAddToCalendar | src/components/tasks/TaskItem.tsx:152-161 | the expanded card offers "Add to Calendar" exactly for a dated task without a truthy calendar event id |
| TaskItem.AddToCalendarLeadsToEvent | src/components/tasks/TaskItem.tsx:152 | where the button is offered the badge is not, and a sync will post an event at the task's due date |
| TaskItem.SyncShowsBadge | src/components/tasks/TaskItem.tsx:108 | after a sync records a non-empty id, the badge shows and the button is gone |
| TaskItem.PriorityText | src/components/tasks/TaskItem.tsx:88 | the chip text is the name with its first letter upper-cased and the rest unchanged; it lower-cases back to the name |
| TaskItem.PriorityTextInjective | src/components/tasks/TaskItem.tsx:88 | different priorities read differently |
| App.TaskApp.constructor | src/App.tsx:8-12 | the form starts closed with no edit target and an empty search |
| App.TaskApp.View | src/App.tsx:45-62 | the list shows exactly when the form is closed; the form is editing exactly when it has a target |
| App.TaskApp.HandleAddTask | src/App.tsx:14-17 | opens the form with no edit target |
| App.TaskApp.HandleEditTask | src/App.tsx:19-22 | opens the form on the task |
| App.TaskApp.HandleFormSubmit | src/App.tsx:24-32 | with an edit target the store gets an update of that id and no addition; without one, an addition; the form closes and the target is cleared |
| App.TaskApp.HandleFormCancel | src/App.tsx:34-37 | closes the form, clears the target and calls no store operation |
| App.TaskApp.SetSearchQuery | src/App.tsx:41 | stores the query and nothing else |
| App.EditKeepsIdentity | src/App.tsx:26 | an edit sets the draft's fields and keeps each edited task's id and creation time |
| App.UpdateWithOwnFields | src/App.tsx:26 | updating a task with its own fields changes nothing when ids are unique |
| App.OwnDraftIsNoOp | src/App.tsx:24-29 | a form submit that hands back a task's own fields leaves the list unchanged when ids are unique |
| App.UnchangedEditIsNoOp | src/App.tsx:24-29 | with the corrected load, opening a task in the form and submitting it unchanged leaves the list as it was |
| App.UnchangedEditAsWrittenIsNoOp | src/App.tsx:24-29 | with the load as written, the same holds when the due date falls on the same day in UTC as locally |
| App.EditCanUnsetDueDateOfSyncedTask | src/App.tsx:26 | an edit can leave a synced task with a calendar id and no due date |

## Left out

- Storage: reading and writing the storage slot and the JSON encoding are I/O. The stored list is a constructor parameter, and `persisted` stands for the slot. `JSON.parse` of a malformed slot throws in the code; the store does not fall back to an empty list. The model takes an already decoded list.
- Calendar network: the OAuth token client, `fetch`, the response body, the asynchronous callbacks and the error logging are network code. They become the `granted`, `replied` and `eventId` parameters.
- TaskContext.TaskProvider.SyncWithGoogleCalendar: records the event id whatever the HTTP status was (as the code does). It does not model two syncs racing, nor a task edited between the post and the reply; both are concurrency.
- TaskList.UndatedStayInOrder: holds for the sort the model picks, a stable sort that only tests `< 0`. The `dueDate` comparator is not consistent, so ECMAScript leaves the order of undated tasks to the engine, and another engine may reorder them.
- TaskForm.Load: is the corrected load, with the local day in the date input. The program puts the UTC day there; that is `TaskForm.LoadAsWritten` (see Findings).
- TaskForm.Opened: uses the corrected load, so it is not the program's form when the UTC and the local day of the due date differ.
- TaskForm.Form.constructor: loads the corrected date input, so the class models the form as intended; the program's form is `LoadAsWritten` of the same fields.
- App.UnchangedEditIsNoOp: holds for the corrected load only. As written it holds when the UTC and the local day of the due date agree (`App.UnchangedEditAsWrittenIsNoOp`); otherwise the unchanged edit moves the due date by a day.
- Time-zone name: the event's time-zone name is a parameter.
- Random ids and the clock: `generateId()` and `new Date()` are parameters. Id freshness is a precondition where uniqueness is proved.
- TaskList.CompletionStats: `Math.round((completed / total) * 100)` is modelled as exact rational rounding, halves up; the rounding errors of double-precision division are left out. For 23 completed tasks out of 40, the program computes 57.49999999999999 and shows 57%, where the model gives 58.
- TaskList.Search: case mapping is ASCII only. Unicode `toLowerCase` mappings beyond A-Z are left out.
- Dates that are not valid: NaN from an unparsable date in a comparator, and `toISOString` throwing or using the six-digit year form.
- Dates in general: date formatting (`toLocaleDateString`, the form's date and time strings) is represented by day and minute numbers. The browser's time zone is a fixed offset, so daylight-saving changes are left out.
- Unreachable fallbacks: the `|| 'medium'` and `|| []` fallbacks when loading a task cannot fire for a well-typed task.
- Card expansion: the card's `expanded` flag is a parameter of `OffersAddToCalendar`, since the button only appears in the expanded card.
- Invariant not kept: the code does not maintain "a task without a due date has no calendar id". An edit can clear the date and keep the id (`App.EditCanUnsetDueDateOfSyncedTask`).
- UI: the header (a scroll listener, a menu toggle and a search box that forwards to `SetSearchQuery`), JSX, styling, icons and React's effect scheduling.

## Findings

| source | as written | input that shows it | evidently intended | confidence | as-written member | corrected member |
|---|---|---|---|---|---|---|
| src/components/tasks/TaskList.tsx:56 | the due-date comparator returns 1 when `a` has no due date, even when `b` has none either, so it is not a consistent comparator and ECMAScript leaves the resulting order implementation-defined | two tasks whose `dueDate` is `null`: `compare(a, b) == compare(b, a) == 1` | return 0 for two undated tasks, so they keep their order | not executed; medium, since a stable engine that only tests `< 0` gives the same order either way | TaskList.DueDateComparatorInconsistent | TaskList.CompareIsAntisymmetric |
| src/components/tasks/TaskForm.tsx:35-36 | loading a task fills the date input from `toISOString()` (the UTC day) but the time input from `toTimeString()` (local time); the submit reads the pair back as local time | time zone UTC+05:30 and a task due at 20:00 UTC on 1970-01-01: the form shows 1970-01-01 01:30, and submitting unchanged moves the due date to 20:00 UTC on 1969-12-31 | fill the date input with the local day, so an unchanged edit keeps the due date | not executed; high | TaskForm.EditAsWrittenRoundTrip | TaskForm.EditRoundTrip |

# Milista task-list engine in Dafny

Milista is a small React to-do application. This project models its
task-list engine apart from the rendering:

- the list operations of `App` (add, toggle, delete, complete all, delete
  completed, import, the active/completed split and the greeting), with the
  persisted `tasks` state slot as a class whose methods replace the list;
- the four counts of `useTaskStats` (total, completed, overdue, due today)
  and the overdue/today badge of a single task item;
- the view of `TaskSection`: the conjunctive search/category/priority
  filter, the in-place comparator sort in its three modes, and the list of
  distinct categories;
- the submit rule of `TaskForm`: the trimmed-title guard, trimming,
  blank-to-absent normalisation, comma-separated tag parsing and the reset
  of the form's seven fields.

Dates and timestamps are integer instants (milliseconds since the epoch).
The calendar day of an instant is `DayOf`: whole days since the epoch, in
UTC. Fresh ids and the current instant are parameters.

Files:

- `task.dfy` (module `TaskModel`): the `Task` record, priorities and
  per-task invariants.
- `seqs.dfy` (module `Seqs`): `filter` with its soundness, completeness,
  multiplicity and order guarantees; the distinct values of a sequence.
- `text.dfy` (module `Text`): `trim`, `toLowerCase`, `includes`, and `split`
  on one character.
- `tasks.dfy` (module `Tasks`): the `App` operations and the `TaskStore`
  state slot.
- `stats.dfy` (module `Stats`): the statistics and the due badge.
- `view.dfy` (module `TaskView`): filtering, sorting and categories.
- `form.dfy` (module `Form`): the submit rule and the form's state.

## Model

| member | source | states |
|---|---|---|
| Tasks.Added | Project-Milista/src/App.tsx:22-42 | adding appends exactly one task at the end; every earlier task is unchanged and in order; the new task carries the given id, fields and creation time, is incomplete and has no completion time |
| Tasks.AddedKeepsInvariants | Project-Milista/src/App.tsx:30-41 | adding under an unused id keeps ids unique, and the new task keeps "completion time present exactly when completed" |
| Tasks.Toggled | Project-Milista/src/App.tsx:44-56 | toggling keeps length and order; tasks with another id are unchanged; every task with the id flips `completed`, gets `completedAt = now` exactly when it becomes completed (absent otherwise), and keeps all other fields |
| Tasks.ToggledAbsentIsIdentity | Project-Milista/src/App.tsx:45-55 | toggling an id no task has returns the list unchanged |
| Tasks.ToggledTwice | Project-Milista/src/App.tsx:45-55 | toggling the same id twice restores every task's `completed` flag; an incomplete, consistent task comes back identical; a completed one comes back with the second toggle's time |
| Tasks.ToggledKeepsConsistency | Project-Milista/src/App.tsx:44-56 | toggling preserves "completion time present exactly when completed" |
| Tasks.ToggleIfMatching | Project-Milista/src/App.tsx:46-53 | the map callback leaves a task with another id identical; a task with the id gets `completed` flipped, `completedAt = now` exactly when it becomes completed and absent otherwise, and every other field kept |
| Tasks.ToggledKeepsUniqueIds | Project-Milista/src/App.tsx:45-55 | toggling keeps ids unique |
| Tasks.Deleted | Project-Milista/src/App.tsx:58-60 | deleting keeps exactly the tasks whose id differs, each as often as before, in their original order; no task with the id remains |
| Tasks.DeletedAbsentIsIdentity | Project-Milista/src/App.tsx:58-60 | deleting an absent id is a no-op |
| Tasks.SubsequenceKeepsUniqueIds | Project-Milista/src/App.tsx:58-60 | keeping some of the tasks of a list with unique ids, in order, keeps ids unique |
| Tasks.DeletedKeepsUniqueIds | Project-Milista/src/App.tsx:58-60 | deleting keeps ids unique |
| Tasks.AllCompleted | Project-Milista/src/App.tsx:62-70 | after completing all, length is unchanged and every task is completed; tasks already completed are identical to before, including `completedAt`; the others are stamped with now and otherwise unchanged |
| Tasks.AllCompletedKeepsConsistency | Project-Milista/src/App.tsx:62-70 | completing all preserves "completion time present exactly when completed" |
| Tasks.CompleteIfOpen | Project-Milista/src/App.tsx:64-67 | the map callback returns a completed task: a completed one is returned identical, an open one is stamped with now and otherwise unchanged |
| Tasks.AllCompletedKeepsUniqueIds | Project-Milista/src/App.tsx:62-70 | completing all keeps ids unique |
| Tasks.ActiveTasks | Project-Milista/src/App.tsx:72-74 | deleting completed tasks, and the active list, keep exactly the incomplete tasks in their original order and multiplicity |
| Tasks.ActiveTasksIdempotent | Project-Milista/src/App.tsx:72-74 | deleting completed tasks twice is deleting them once |
| Tasks.ActiveTasksKeepUniqueIds | Project-Milista/src/App.tsx:72-74 | deleting completed tasks keeps ids unique |
| Tasks.ActiveAfterAllCompletedIsEmpty | Project-Milista/src/App.tsx:62-74 | deleting completed tasks right after completing all leaves no task |
| Tasks.CompletedTasks | Project-Milista/src/App.tsx:92 | the completed list holds exactly the completed tasks in their original order and multiplicity |
| Tasks.ActiveCompletedPartition | Project-Milista/src/App.tsx:91-92 | the active and completed lists partition the list: their multisets add up to it and their lengths sum to its length |
| Tasks.Imported | Project-Milista/src/App.tsx:87-89 | import yields the old list followed by the imported records, with nothing removed, deduplicated or reordered |
| Tasks.ImportedFreshKeepsUniqueIds | Project-Milista/src/App.tsx:87-89 | importing records with unique ids that the list does not use keeps ids unique |
| Tasks.ImportedDuplicateIsToggledTwice | Project-Milista/src/App.tsx:87-89 | importing a task already present repeats its id, and a toggle then completes both copies |
| Tasks.Greeting | Project-Milista/src/App.tsx:94-99 | Morning exactly when hour < 12, Afternoon exactly when 12 <= hour < 17, Evening exactly when hour >= 17 |
| Tasks.TaskStore.constructor | Project-Milista/src/App.tsx:12 | the slot starts from the stored list, or from the empty list when nothing is stored |
| Tasks.TaskStore.AddTask | Project-Milista/src/App.tsx:41 | the list becomes `Added` of the old list; unique ids and consistency are kept when the id is unused |
| Tasks.TaskStore.ToggleTaskComplete | Project-Milista/src/App.tsx:45-55 | the list becomes `Toggled` of the old list; consistency is kept, and so are unique ids |
| Tasks.TaskStore.DeleteTask | Project-Milista/src/App.tsx:59 | the list becomes `Deleted` of the old list; consistency is kept, and so are unique ids |
| Tasks.TaskStore.CompleteAllTasks | Project-Milista/src/App.tsx:63-69 | the list becomes `AllCompleted` of the old list; consistency is kept, and so are unique ids |
| Tasks.TaskStore.DeleteCompletedTasks | Project-Milista/src/App.tsx:73 | the list becomes the old list's incomplete tasks; consistency is kept, and so are unique ids |
| Tasks.TaskStore.ImportTasks | Project-Milista/src/App.tsx:87-89 | parsed records are appended to the list; a file that did not parse (`None`) leaves the list unchanged |
| Stats.IsOverdue | Project-Milista/src/hooks/useTaskStats.ts:11-15 | a completed or undated task is never overdue; an overdue task is due strictly before now |
| Stats.OverdueStaysOverdue | Project-Milista/src/hooks/useTaskStats.ts:11-15 | a task overdue at one instant stays overdue at every later instant |
| Stats.IsDueToday | Project-Milista/src/hooks/useTaskStats.ts:16-20 | a completed or undated task is never due today; an open dated task is due today exactly when its due instant falls on the calendar day of now |
| Stats.ComputeStats | Project-Milista/src/hooks/useTaskStats.ts:8-21 | total is the list length; completed + overdue <= total and completed + dueToday <= total |
| Stats.StatsOfEmpty | Project-Milista/src/hooks/useTaskStats.ts:8-21 | on an empty list all four counts are 0 |
| Stats.StatsSnoc | Project-Milista/src/hooks/useTaskStats.ts:9-20 | appending a task adds one to total, and one to completed, overdue or dueToday exactly when the task is completed, incomplete and due before now, or incomplete and due on today's calendar day |
| Stats.StatsAllCompleted | Project-Milista/src/hooks/useTaskStats.ts:10-20 | when every task is completed, completed == total and overdue == dueToday == 0 |
| Stats.StatsAfterAllCompleted | Project-Milista/src/hooks/useTaskStats.ts:8-21 | after completing all tasks the counts are (n, n, 0, 0) at any instant |
| Stats.StatsMidYearScenario | Project-Milista/src/hooks/useTaskStats.ts:11-20 | two open tasks due 1 January and 31 December 2024, counted at noon on 15 June 2024, give total 2, completed 0, overdue 1, due today 0 |
| Stats.OverdueAndDueTodayOverlap | Project-Milista/src/hooks/useTaskStats.ts:11-20 | an open task due at the start of today is both overdue and due today once that instant has passed, so the two counts can overlap |
| Stats.BadgeOf | Project-Milista/src/components/TaskItem.tsx:123-134 | an item shows "Overdue" exactly when overdue, and "Today" exactly when due today and not overdue |
| Seqs.Filter | Project-Milista/src/App.tsx:59 | `filter` keeps exactly the elements satisfying the predicate, each as often as it occurs, in their original order, and never grows the sequence |
| Seqs.Distinct | Project-Milista/src/components/TaskSection.tsx:56 | `Array.from(new Set(s))` holds every value of `s` exactly once, ordered by first appearance |
| Text.Trim | Project-Milista/src/components/TaskForm.tsx:19 | `trim` never lengthens; its result neither starts nor ends with white space; it is empty exactly when the input is blank |
| Text.TrimStrips | Project-Milista/src/components/TaskForm.tsx:22 | the trimmed string is a slice of the input with only white space before and after it |
| Text.TrimIdempotent | Project-Milista/src/components/TaskForm.tsx:20 | trimming twice is trimming once |
| Text.TrimClean | Project-Milista/src/components/TaskForm.tsx:20 | a string without white space at either end is its own trim |
| Text.TrimKeepsOut | Project-Milista/src/components/TaskForm.tsx:20 | trimming introduces no character |
| Text.Lower | Project-Milista/src/components/TaskSection.tsx:30 | lower-casing keeps the length and maps every character through the ASCII lower-case map |
| Text.Contains | Project-Milista/src/components/TaskSection.tsx:30 | a string includes each of its prefixes, and includes nothing longer than itself |
| Text.ContainsIff | Project-Milista/src/components/TaskSection.tsx:30 | `includes` holds exactly when the needle occurs at some position |
| Text.ContainsEmpty | Project-Milista/src/components/TaskSection.tsx:30-32 | every string includes the empty string |
| Text.Split | Project-Milista/src/components/TaskForm.tsx:20 | `split` on one character gives one piece more than there are separators, no piece contains the separator, and joining the pieces gives the input back |
| Text.SplitJoin | Project-Milista/src/components/TaskForm.tsx:20 | splitting undoes joining separator-free pieces |
| TaskView.MatchesSearch | Project-Milista/src/components/TaskSection.tsx:30-32 | a task matches the search exactly when the lower-cased term occurs in the lower-cased title, description (when present) or some tag; the empty term matches every task |
| TaskView.Matches | Project-Milista/src/components/TaskSection.tsx:29-36 | a category or priority selection other than "all" rejects every task of another category or priority; with both at "all" only the search decides, and with an empty term every task passes |
| TaskView.Filtered | Project-Milista/src/components/TaskSection.tsx:29-37 | the filtered list holds exactly the tasks matching the search (title, description if present, or some tag, case-insensitively), the category filter ("all" or equal) and the priority filter ("all" or equal), in original order and multiplicity |
| TaskView.EmptyQueryKeepsAll | Project-Milista/src/components/TaskSection.tsx:30-34 | an empty search term with both filters at "all" keeps every task |
| TaskView.Compare | Project-Milista/src/components/TaskSection.tsx:39-53 | due-date mode: two undated tasks tie, an undated task goes after a dated one, dated tasks compare by due instant; priority mode: the higher rank goes first, equal priorities tie; created mode: the newer task goes first, equal times tie |
| TaskView.CompareAntisymmetric | Project-Milista/src/components/TaskSection.tsx:39-53 | the comparator is antisymmetric in every mode |
| TaskView.CompareTransitive | Project-Milista/src/components/TaskSection.tsx:39-53 | the comparator's "may precede" relation is transitive in every mode |
| TaskView.Insert | Project-Milista/src/components/TaskSection.tsx:39 | inserting one task into a list gives a list one longer |
| TaskView.InsertPermutes | Project-Milista/src/components/TaskSection.tsx:39 | inserting one task adds exactly that task to the multiset of the list |
| TaskView.InsertKeepsSorted | Project-Milista/src/components/TaskSection.tsx:39-53 | inserting into a list ordered by the comparator keeps it ordered |
| TaskView.InsertStable | Project-Milista/src/components/TaskSection.tsx:39-53 | inserting keeps the relative order of the tasks tied with any given task, the inserted one placed after its ties |
| TaskView.InsertAtPos | Project-Milista/src/components/TaskSection.tsx:39 | inserting places the task at one slot and keeps the tasks before and after that slot as they were |
| TaskView.SortBy | Project-Milista/src/components/TaskSection.tsx:39 | sorting keeps the length; the lemmas below show it is a stable permutation ordered by the comparator |
| TaskView.SortByPermutes | Project-Milista/src/components/TaskSection.tsx:39 | the sorted list is a permutation of its input |
| TaskView.SortBySorted | Project-Milista/src/components/TaskSection.tsx:39-53 | the sorted list is ordered by the comparator |
| TaskView.SortByStable | Project-Milista/src/components/TaskSection.tsx:39-53 | tasks the comparator ties keep their relative order (the sort is stable) |
| TaskView.DueDateOrder | Project-Milista/src/components/TaskSection.tsx:41-45 | due-date mode: every dated task precedes every undated one, and due dates never decrease |
| TaskView.PriorityOrder | Project-Milista/src/components/TaskSection.tsx:46-48 | priority mode: ranks (high 3, medium 2, low 1) never increase |
| TaskView.CreatedOrder | Project-Milista/src/components/TaskSection.tsx:49-51 | created mode: creation times never increase, newest first |
| TaskView.ShiftPast | Project-Milista/src/components/TaskSection.tsx:39 | one scan shifts right exactly the prefix elements that must go after the inserted task and returns the insertion slot; the rest of the array is unchanged |
| TaskView.InsertAt | Project-Milista/src/components/TaskSection.tsx:39 | one pass inserts the next element into the sorted prefix; the rest of the array is unchanged |
| TaskView.SortInPlace | Project-Milista/src/components/TaskSection.tsx:39-53 | sorting the array in place leaves it holding the stable sort of its old contents |
| TaskView.FilteredAndSorted | Project-Milista/src/components/TaskSection.tsx:28-54 | the section's list is exactly the matching tasks (as a multiset) sorted by the comparator; the input list is not reordered |
| TaskView.CategoryList | Project-Milista/src/components/TaskSection.tsx:56 | the category list holds each task's category in position |
| TaskView.Categories | Project-Milista/src/components/TaskSection.tsx:56 | the category list holds the category of some task exactly once each, in order of first appearance |
| Form.TrimAll | Project-Milista/src/components/TaskForm.tsx:20 | each piece is replaced by its trim, in position |
| Form.ParseTags | Project-Milista/src/components/TaskForm.tsx:20 | parsed tags are non-empty, comma-free and without white space at either end, and there are at most commas + 1 of them |
| Form.ParseTagsKeepsPieces | Project-Milista/src/components/TaskForm.tsx:20 | parsed tags keep the left-to-right order of the trimmed comma-separated pieces, and every non-empty trimmed piece is kept as often as it occurs (duplicates stay) |
| Form.ParseTagsBlank | Project-Milista/src/components/TaskForm.tsx:20 | blank tag text yields no tags |
| Form.ParseTagsSingle | Project-Milista/src/components/TaskForm.tsx:20 | non-blank text without a comma yields exactly one tag, the trimmed text |
| Form.ParseJoinedTags | Project-Milista/src/components/TaskForm.tsx:20 | parsing clean tags joined by commas gives the same tags back |
| Form.Submit | Project-Milista/src/components/TaskForm.tsx:19-28 | nothing is submitted exactly when the title is blank; an empty due-date text becomes absent, any other is passed as is; priority and category pass through |
| Form.SubmittedTitleTrimmed | Project-Milista/src/components/TaskForm.tsx:22 | a submitted title is non-empty, has no white space at either end, and is the entered title with surrounding white space cut away |
| Form.SubmittedDescriptionTrimmed | Project-Milista/src/components/TaskForm.tsx:23 | a description is absent exactly when it is blank; otherwise it is the entered text with surrounding white space cut away |
| Form.SubmittedTagsClean | Project-Milista/src/components/TaskForm.tsx:20-27 | the submitted tags are the parsed tag text, all clean |
| Form.SubmittedTitleNotBlank | Project-Milista/src/components/TaskForm.tsx:19-22 | a task added through the form has a non-blank title that is its own trim |
| Form.TaskForm.constructor | Project-Milista/src/components/TaskForm.tsx:9-15 | the form starts with empty texts, medium priority, category "Personal" and collapsed details |
| Form.TaskForm.Clear | Project-Milista/src/components/TaskForm.tsx:29-35 | the reset sets every field back to its initial value |
| Form.TaskForm.HandleSubmit | Project-Milista/src/components/TaskForm.tsx:17-37 | with a blank title neither the form nor the store changes; otherwise the store gains exactly the submitted task and the form is reset |

## Left out

- Rendering: JSX, styles, icons, animations and the dark-mode toggle.
- `useLocalStorage`, which is not part of this model: reading and writing
  localStorage and JSON. The store's constructor takes the stored list, or
  nothing, as a parameter.
- `exportTasks` (`App.tsx:76-85`): it builds a download with `Blob`, an object
  URL and a DOM anchor, and changes no state.
- JSON parsing in `handleImport` (`QuickActions.tsx:23-37`): the parsed
  records arrive as a parameter, and a parse failure arrives as `None`. The
  application does not check the shape of what `JSON.parse` returns and
  spreads it into the list as it is: a value that is not iterable makes the
  spread at `App.tsx:88` throw; whether the `try` at
  `QuickActions.tsx:28-33` reports that error depends on the setter of
  `useLocalStorage`, which is not part of this model; a string is spread
  character by character, and an array of values that are not tasks is
  appended unchecked. `ImportTasks` takes a sequence of well-typed `Task`
  records, so its type rules these cases out of the model. The application
  does not check the fields of well-formed records either (duplicate ids, a
  `completedAt` that does not agree with `completed`), and the model keeps
  such records as they are.
- `crypto.randomUUID` and `new Date()`: the id and "now" are parameters, one
  per operation.
- Tasks.Toggled: the application reads the clock inside the `map` callback
  (`App.tsx:51`), once for each task it stamps, so the tasks one call
  stamps may get different instants. The model stamps all of them with one
  `now`.
- Tasks.AllCompleted: the application reads the clock inside the `map`
  callback (`App.tsx:67`), once for each open task, so the tasks one call
  completes may get different instants. The model stamps all of them with
  one `now`.
- Date strings: the application stores ISO-8601 text and converts it with
  `new Date(...)`. Here a date is an instant. An empty or unparsable date
  string (`NaN`) and the text-to-instant conversion are not modelled.
  `HandleSubmit` receives the converted instant from its caller: it is absent
  exactly when the date text is empty.
- Time zones: `toDateString` compares local calendar days; `DayOf` uses UTC
  days.
- The clock: the one-second `setInterval` and the `getHours` call. `Greeting`
  takes the hour.
- The delayed delete in the task item (a `setTimeout`).
- The completion-rate percentage and `Math.round`, which are floating-point
  display arithmetic.
- Stats.ComputeStats: the application reads the clock several times for
  one list: once for `today` (`useTaskStats.ts:6`) and again for every open
  dated task it tests for being overdue (`useTaskStats.ts:14`). Readings a
  few milliseconds apart can disagree near a deadline or at midnight. The
  model judges "overdue" and "due today" against one instant `now`.
- Stats.BadgeOf: the item badge reads the clock twice (`TaskItem.tsx:41-42`),
  once for "overdue" and once for "today"; the model judges both against
  one instant `now`.
- `useMemo` caching: the statistics are recomputed only when the list changes,
  so the application's "now" can be stale; here "now" is a parameter.
- Lower: `toLowerCase` maps only ASCII letters here; Unicode case mapping is
  not modelled. `trim` uses the full ECMAScript white-space set.
- The identity of the engine's sort algorithm: `SortBy` is a stable insertion
  sort. Because the comparator is a total preorder, every stable sort gives
  the same order.
- Text.Split: only the one-character separator that the tag field uses is
  modelled, not the general `split`.
- Button enable/disable rules and other UI-only state.

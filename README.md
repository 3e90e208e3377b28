# Task store and task filter, modelled in Dafny

This project models the logic of a small task-management dashboard. The
model has two parts.

- **The task store** (`app/store/taskStore.ts`) holds a list of tasks. Each
  task has an id, title, description, priority, completion flag and creation
  time. The store has three actions:
  - `addTask` stamps a draft with the clock, puts it in front of the list and
    sorts the list newest first.
  - `toggleTask` flips the completion flag of the task(s) with a given id.
  - `deleteTask` drops the task(s) with a given id.

  For local storage, `partialize` turns every creation time into ISO-8601
  text, and `merge` reads that text back into dates.
- **The task view** (`app/routes/Tasks.tsx`) applies a filter to the list and
  picks a chip colour for each priority. The filter modes are all, completed,
  pending and high priority.

Files and modules:

| file | module | what it holds |
|---|---|---|
| `task_store.dfy` | `TaskStore` | the `Task` record, the actions as functions on the list, partialize and merge, the class `TaskState` whose methods replace its `tasks` field, and the lemmas about all of them |
| `tasks_view.dfy` | `TasksView` | `filteredTasks` and the priority chip colour |
| `iso_date.dfy` | `IsoDate` | time values and `toISOString` / `new Date(text)` in the Date Time String Format of ECMA-262 (section 21.4.1.32), with the calendar of sections 21.4.1.5 to 21.4.1.29 |
| `array_sort.dfy` | `ArraySort` | `Array.prototype.sort` with the comparator `(a, b) => key(b) - key(a)`: a stable sort, newest first |
| `seqs.dfy` | `Seqs` | `Array.prototype.filter` |
| `digits.dfy` | `Digits` | decimal text of integers (`Date.now().toString()`) and zero-padded digit fields |

Time is an integer count of milliseconds since 1970-01-01T00:00:00Z. It is
bounded by plus or minus 8.64e15, the range of a JavaScript time value. The
clock is a parameter of `addTask`.

The `Task` type is declared in `~/types`, which is not part of this model.
Its fields are inferred from how the store and the view use them.

The source comment at app/store/taskStore.ts:25 says `addTask` generates a
unique ID. The code does not check this. `addTask` takes the id from the
clock, so two tasks added in the same millisecond share an id, and a later
toggle or delete acts on both.
`TaskStore.AddedDistinct` states exactly when ids stay distinct.

## Model

| member | source | states |
|---|---|---|
| `TaskStore.Added` | app/store/taskStore.ts:31-33 | the list after addTask is one longer, sorted newest first, and a permutation of the new task plus the old list |
| `TaskStore.NewTask` | app/store/taskStore.ts:23-28 | the new task carries the draft's title, description and priority, is not completed, is created at the clock reading, and its id is that reading's decimal text |
| `TaskStore.AddedNewTask` | app/store/taskStore.ts:23-28 | the new task is in the result; its id is the clock's decimal text, its createdAt is the clock, completed is false, and title, description and priority are the caller's |
| `TaskStore.AddedTieBreak` | app/store/taskStore.ts:31-33 | stable sort with the new task in front: among tasks created at the same millisecond, the new task comes first, and the old ones keep their order |
| `TaskStore.AddedIntoSorted` | app/store/taskStore.ts:31-33 | on a list already newest first, the result is the old list with the new task inserted after every strictly newer task and before all the rest |
| `TaskStore.AddedFrom` | app/store/taskStore.ts:31 | every task in the result is the new task or one of the old ones |
| `TaskStore.AddedStamped` | app/store/taskStore.ts:25-26 | if every id is its task's creation time as text, that stays true after addTask |
| `TaskStore.AddedFreshDistinct` | app/store/taskStore.ts:25 | on a list with distinct clock-derived ids, a clock reading that differs from every creation time keeps the ids pairwise distinct |
| `TaskStore.AddedCollides` | app/store/taskStore.ts:25 | on a list with clock-derived ids, a clock reading equal to an existing task's creation time gives two tasks the same id |
| `TaskStore.AddedDistinct` | app/store/taskStore.ts:25 | on a list with distinct clock-derived ids, the ids stay distinct after addTask if and only if no task was created at the same millisecond |
| `TaskStore.DistinctPositions` | app/store/taskStore.ts:31-33 | any two positions of a reordered list match two different positions of the original |
| `TaskStore.PermutationDistinct` | app/store/taskStore.ts:31-33 | sorting cannot make two ids equal |
| `TaskStore.TwoOccurrences` | app/store/taskStore.ts:31-33 | an element that occurs at least twice occupies two different positions |
| `TaskStore.Flip` | app/store/taskStore.ts:42 | one task under toggleTask keeps every field but completed, which changes exactly when its id matches |
| `TaskStore.Toggled` | app/store/taskStore.ts:39-45 | the length is kept; each task keeps every field except completed, and completed changes exactly for the tasks whose id matches |
| `TaskStore.ToggledAbsent` | app/store/taskStore.ts:41-43 | toggling an id that no task has leaves the list unchanged |
| `TaskStore.ToggledTwice` | app/store/taskStore.ts:41-43 | toggling the same id twice restores the original list |
| `TaskStore.ToggledKeeps` | app/store/taskStore.ts:41-43 | toggling keeps the newest-first order, distinct ids and clock-derived ids |
| `TaskStore.Deleted` | app/store/taskStore.ts:49 | after deleteTask the list is no longer than before and holds exactly the tasks with a different id |
| `TaskStore.DeletedSpec` | app/store/taskStore.ts:47-51 | deleteTask keeps exactly the tasks with a different id, each as often as before, as an order-preserving subsequence |
| `TaskStore.DeletedAbsent` | app/store/taskStore.ts:49 | deleting an id that no task has leaves the list unchanged |
| `TaskStore.DeletedUnique` | app/store/taskStore.ts:49 | if exactly one task has the id, deleting it removes that task only and the list is one shorter |
| `TaskStore.DeletedDistinct` | app/store/taskStore.ts:49 | with distinct ids, deleting a present id shortens the list by one and leaves no task with that id |
| `TaskStore.DeletedKeeps` | app/store/taskStore.ts:49 | deleting keeps the newest-first order, distinct ids and clock-derived ids |
| `TaskStore.RunSorted` | app/store/taskStore.ts:21-51 | any sequence of add, toggle and delete actions on a newest-first list leaves it newest first |
| `TaskStore.StepDistinct` | app/store/taskStore.ts:21-51 | one action keeps distinct clock-derived ids when an addTask reads a clock later than every creation time, and no creation time then exceeds the latest reading |
| `TaskStore.AddedNoLater` | app/store/taskStore.ts:23-33 | if no task is newer than the clock reading, none is after addTask |
| `TaskStore.DeletedNoLater` | app/store/taskStore.ts:49 | deleteTask adds no newer creation time |
| `TaskStore.RunDistinct` | app/store/taskStore.ts:21-51 | on a list with distinct clock-derived ids, none newer than the starting reading, ids stay distinct through any sequence of actions in which each addTask reads a later clock than every reading before it |
| `TaskStore.Partialize` | app/store/taskStore.ts:57-62 | partialize writes one stored task per task, in order; each keeps id, title, description, priority and completed, and holds createdAt as toISOString text |
| `TaskStore.Persisted` | app/store/taskStore.ts:58-61 | one stored task keeps every field and holds createdAt as toISOString text, which reads back as the same instant |
| `TaskStore.Restore` | app/store/taskStore.ts:64-67 | one restored task keeps every stored field; its createdAt is the instant the stored text denotes, and writing it again gives text for the same instant |
| `TaskStore.MergedTasks` | app/store/taskStore.ts:63-67 | merge reads back one task per stored task, in order; each keeps the stored id, title, description, priority and completed, and its createdAt is the instant the stored text denotes |
| `TaskStore.PersistRoundTrip` | app/store/taskStore.ts:57-72 | every createdAt that partialize writes is readable, and merge gives back the same list: the same fields and the same millisecond |
| `TaskStore.TaskState.constructor` | app/store/taskStore.ts:19 | the store starts with an empty list |
| `TaskStore.TaskState.AddTask` | app/store/taskStore.ts:21-37 | replaces the list by `Added`: one longer, newest first, a permutation of the new task plus the old list |
| `TaskStore.TaskState.ToggleTask` | app/store/taskStore.ts:39-45 | replaces the list by `Toggled` and keeps the newest-first order |
| `TaskStore.TaskState.DeleteTask` | app/store/taskStore.ts:47-51 | replaces the list by `Deleted` and keeps the newest-first order |
| `TaskStore.TaskState.Merge` | app/store/taskStore.ts:63-72 | replaces only the task list, by the tasks read back from storage |
| `ArraySort.SortDesc` | app/store/taskStore.ts:31-33 | the sort's result is in non-increasing key order and is a permutation of its input |
| `ArraySort.SortDescStable` | app/store/taskStore.ts:31-33 | the sort is stable: for every key, the elements with that key appear in their input order |
| `ArraySort.SortDescOfSorted` | app/store/taskStore.ts:31-33 | sorting a list that is already in order returns it unchanged |
| `ArraySort.InsertionPoint` | app/store/taskStore.ts:31-33 | the insertion point follows every strictly greater key and precedes the first key that is not greater |
| `ArraySort.Insert` | app/store/taskStore.ts:31-33 | inserting makes the list one longer (where the element goes: `InsertSplit`, `InsertAt`) |
| `ArraySort.InsertSplit` | app/store/taskStore.ts:31-33 | inserting puts the element at the insertion point and leaves the rest in order |
| `ArraySort.InsertAt` | app/store/taskStore.ts:31-33 | each position of the insertion holds the input's element before the insertion point, the new element at it, and the input's previous element after it |
| `ArraySort.InsertOrdered` | app/store/taskStore.ts:31-33 | inserting into an ordered list keeps it ordered |
| `ArraySort.InsertMultiset` | app/store/taskStore.ts:31-33 | inserting adds exactly the one element |
| `ArraySort.InsertSorted` | app/store/taskStore.ts:31-33 | inserting into an ordered list keeps it ordered and adds exactly the one element |
| `ArraySort.KeyRunCons` | app/store/taskStore.ts:31-33 | the elements of one key in a list with a new head are that head, if it has the key, followed by those of the rest |
| `ArraySort.InsertKeyRun` | app/store/taskStore.ts:31-33 | inserting puts the element first among the elements with its key and changes no other key's elements |
| `Seqs.Filter` | app/store/taskStore.ts:49 | a filter result is no longer than its input and holds exactly the accepted elements of the input |
| `Seqs.FilterIsSubsequence` | app/store/taskStore.ts:49 | a filter result is an order-preserving subsequence of its input |
| `Seqs.FilterMultiset` | app/store/taskStore.ts:49 | a filter keeps each accepted element as often as it occurs and drops each rejected one |
| `Seqs.FilterOrder` | app/store/taskStore.ts:49 | any order relation that holds between earlier and later input elements holds in the result |
| `Seqs.FilterAll` | app/store/taskStore.ts:49 | a filter that accepts every element returns its input |
| `Seqs.FilterAppend` | app/store/taskStore.ts:49 | filtering a concatenation concatenates the filtered parts |
| `Seqs.FilterPartition` | app/routes/Tasks.tsx:65-66 | a predicate and its negation split the input: the lengths add up, and so do the multisets |
| `TasksView.Shows` | app/routes/Tasks.tsx:64-69 | a task is shown unless the mode is "completed" and it is not completed, "pending" and it is, or "high" and its chip is not error-coloured |
| `TasksView.FilteredTasks` | app/routes/Tasks.tsx:64-69 | the view is no longer than the list and holds exactly the list's tasks that the mode shows |
| `TasksView.FilteredCompleted` | app/routes/Tasks.tsx:65 | mode "completed" keeps exactly the completed tasks, each as often as it occurs |
| `TasksView.FilteredPending` | app/routes/Tasks.tsx:66 | mode "pending" keeps exactly the tasks that are not completed |
| `TasksView.FilteredHigh` | app/routes/Tasks.tsx:67 | mode "high" keeps exactly the high-priority tasks |
| `TasksView.FilteredOther` | app/routes/Tasks.tsx:68 | mode "all", and any other mode that is not one of the three, returns the whole list |
| `TasksView.FilteredInOrder` | app/routes/Tasks.tsx:64-69 | every mode returns an order-preserving subsequence, so a newest-first list stays newest first |
| `TasksView.CompletedPendingPartition` | app/routes/Tasks.tsx:65-66 | the completed and pending views split the list: their lengths sum to its length, and their multisets to its multiset |
| `TasksView.PriorityColor` | app/routes/Tasks.tsx:157-159 | the chip is error-coloured exactly for high, warning exactly for medium and default exactly for low |
| `TasksView.PriorityColorInjective` | app/routes/Tasks.tsx:157-159 | high, medium and low get three different chip colours |
| `TasksView.HighShowsErrorChips` | app/routes/Tasks.tsx:157-159 | the "high" mode shows exactly the tasks whose chip colour is error |
| `IsoDate.IsoRoundTrip` | app/store/taskStore.ts:60-66 | reading back the text that toISOString writes gives the same time value |
| `IsoDate.ToIsoString` | app/store/taskStore.ts:60 | the text ends in Z and is 24 characters long for a year in 0..9999, 27 (expanded six-digit year) otherwise |
| `IsoDate.ToIsoFields` | app/store/taskStore.ts:60 | the text is the year field of `Fields(t)` followed by its month, day, hour (below 24), minute, second and millisecond fields, each reading back as that field's value |
| `IsoDate.YearText` | app/store/taskStore.ts:60 | a year in 0..9999 is written in four digits that read back as the year; any other year as its sign and six digits that read back as its magnitude |
| `IsoDate.RestText` | app/store/taskStore.ts:60 | the text after the year is 20 characters: `-MM-DDTHH:mm:ss.sssZ` with the separators in place and digits in every field |
| `IsoDate.ParseRest` | app/store/taskStore.ts:66 | text after the year is accepted only with every separator in place, digits in every field, a valid calendar date, minutes and seconds below 60, and hours below 24 or exactly 24:00:00.000 |
| `IsoDate.ParseIso` | app/store/taskStore.ts:66 | text is accepted only as 24 characters with a four-digit year or 27 with a signed six-digit year other than minus zero, ending in Z |
| `IsoDate.ParseIsoYear` | app/store/taskStore.ts:66 | the parser reads back the year field the writer produced and passes the remaining 20 characters on |
| `IsoDate.RestFields` | app/store/taskStore.ts:60-66 | each month, day, hour, minute, second and millisecond field of the text reads back as the value that wrote it |
| `IsoDate.RestRoundTrip` | app/store/taskStore.ts:60-66 | the month-to-millisecond part of the text reads back as the fields that wrote it |
| `IsoDate.Fields` | app/store/taskStore.ts:60 | the UTC fields of a time value form a valid date and time of day, and MakeDate of them is the time value |
| `IsoDate.FieldsUnique` | app/store/taskStore.ts:60 | a time value has only one set of valid fields |
| `IsoDate.FieldsYearRange` | app/store/taskStore.ts:60 | every time value falls in a year that six digits can write |
| `IsoDate.TimeOfDay` | app/store/taskStore.ts:60 | hours, minutes, seconds and milliseconds split a time of day within their ranges, and MakeTime rebuilds it |
| `IsoDate.CivilFromDaysInverse` | app/store/taskStore.ts:60 | the calendar date of a day number is valid, and MakeDay maps it back to that day |
| `IsoDate.CivilFromDaysYear` | app/store/taskStore.ts:60 | the year of a day number is YearFromTime: the day lies between the first days of that year and the next |
| `IsoDate.MarchYearOf` | app/store/taskStore.ts:60 | a day number splits into a year counted from the first of March plus a day within that year's length |
| `IsoDate.MarchYearWithinEra` | app/store/taskStore.ts:60 | within a 400-year era, the centuries, four-year groups and years start where the leap rule puts them |
| `IsoDate.MarchMonthOf` | app/store/taskStore.ts:60 | a day of a March-based year lies in exactly the month returned |
| `IsoDate.MakeDayInYear` | app/store/taskStore.ts:66 | a valid date falls between the first day of its year and the first day of the next year |
| `IsoDate.MakeDayInjective` | app/store/taskStore.ts:66 | different valid dates have different day numbers |
| `IsoDate.YearUnique` | app/store/taskStore.ts:66 | only one year contains a given day |
| `IsoDate.DayFromYearStep` | app/store/taskStore.ts:60 | each year is DaysInYear days long: 366 in a leap year, 365 otherwise |
| `IsoDate.DayFromYearMonotone` | app/store/taskStore.ts:60 | the first days of later years are at least 365 days per year later |
| `IsoDate.DayFromYearLe` | app/store/taskStore.ts:60 | DayFromYear never decreases |
| `IsoDate.DayFromYearMarch` | app/store/taskStore.ts:60 | the first of January of a year is 306 days after the first of March of the year before |
| `IsoDate.MarchYearStartEra` | app/store/taskStore.ts:60 | 400 years always have 146097 days |
| `IsoDate.LeapEra` | app/store/taskStore.ts:60 | the leap-year rule repeats every 400 years |
| `IsoDate.DivStep` | app/store/taskStore.ts:60 | from one year to the next, the count of multiples of 4, 100 or 400 rises by one exactly when the next year is such a multiple |
| `IsoDate.MarchYearStep` | app/store/taskStore.ts:60 | a year counted from the first of March has 366 days when the following February has 29 days |
| `Digits.IntTextInjective` | app/store/taskStore.ts:25 | two clock readings give the same id text if and only if they are equal |
| `Digits.NatTextRoundTrip` | app/store/taskStore.ts:25 | the digits of a number read back as that number |
| `Digits.NatText` | app/store/taskStore.ts:25 | the digits of a number have no leading zero unless the number is 0 |
| `Digits.IntText` | app/store/taskStore.ts:25 | the text of a number starts with a minus sign exactly when the number is negative; the rest is digits without a leading zero (except for 0 itself) that read back as the magnitude |
| `Digits.PadDigits` | app/store/taskStore.ts:60 | a padded field has exactly the requested width and only digits |
| `Digits.PadDigitsRoundTrip` | app/store/taskStore.ts:60 | a padded field reads back as its number when the number fits the width |
| `Digits.DigitsValue` | app/store/taskStore.ts:66 | a string of n digits reads as a number below 10^n |

## Left out

- React rendering, MUI components, the dialog's open/close state, and the form built with react-hook-form (app/routes/Tasks.tsx:44-61 and 71-243). These are views over libraries that are not part of this model. In particular, the required-title check of the form is not modelled, and the store itself accepts any title.
- The zustand machinery: `create`, `set`, the `persist` middleware and when it calls `merge`, `createJSONStorage` and `localStorage`. These are library and browser behaviour. The model takes JSON encoding to give back the strings, booleans and priority names it was given.
- The real clock. `Date.now()` and `new Date()` become one millisecond reading passed to `addTask`. The source reads the clock twice, for the id and then for createdAt. The two readings could straddle a millisecond, and the model does not capture that.
- `TaskStore.TaskState.Merge`, `TaskStore.MergedTasks` and `TaskStore.Restore`: require every stored createdAt to be text the date parser accepts. The source would build an Invalid Date (NaN) from other text, and a task in this model cannot hold NaN. The source also does not check that the persisted `tasks` is an array, and that failure is not modelled either.
- `IsoDate.ParseIso`: reads only the full form that toISOString writes: a four-digit year, or a sign and six digits, then `-MM-DDTHH:mm:ss.sssZ`. It also reads hour 24 as the end of the day, but only as 24:00:00.000, and it rejects the year "-000000" (minus zero). The shorter forms of ECMA-262, numeric offsets, and the implementation-specific formats that `Date.parse` also takes are not modelled.
- `Digits.IntText`: `Number.prototype.toString` switches to exponent notation from 10^21. A time value never reaches that, so the model writes digits only.
- Sorting with a NaN time value is not modelled, because a model time value is always a number.
- The non-task fields of the store's state are its three actions. In this model they are the methods of `TaskState`, so `merge` replacing only `tasks` means only that field changes.
- app/routes.ts and app/main.tsx are router set-up and start-up code with no logic.

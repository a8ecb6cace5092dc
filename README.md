# todo-cli task lifecycle — a Dafny model

todo-cli is a GTD ("Getting Things Done") to-do manager for the command line.
It keeps tasks in an SQLite database beside three reference tables:
- statuses, each with a user-chosen name and one of four fixed kinds: inbox, active, done or cancelled;
- priorities, with a numeric level;
- categories.

This project models the commands that create, change, filter and review tasks. It also models the installer that seeds the reference tables. The model works over an in-memory store:
- the class `Storage.Store` holds the four tables as sequences in id order;
- it also holds the auto-increment counters and whether the schema exists.

The clock and every interactive answer are plain parameters:
- an instant is an integer number of seconds;
- a date is an integer day number;
- a prompt's answer is a string, a chosen position, or `None` when the user accepts the offered default.

## Modules

- `StatusTypes` covers the status kind tag and its stored values and labels.
- `Models` covers:
  - the four row types and the Task model's fillable set;
  - what `save()` writes;
  - `isOverdue` as written, next to the date-based overdue test the queries use.
- `Storage` covers the installation check and the `Store` class with its inserts, saves and deletes.
- `Text` models the PHP and SQL string behaviour the commands depend on:
  - `empty()` truthiness, `trim`, `explode`;
  - `LIKE '%x%'` as an ASCII case-insensitive substring test.
- `Seqs` models the query-builder operations: `first()`, `where()->get()`, and `orderBy` as a stable sort.
- `Lookup` models:
  - fuzzy lookups (first row in id order whose name contains the text) and exact lookups by name;
  - lookups by kind;
  - the lifecycle invariant "`completed_at` is set exactly when the task's status is of kind Done".
- One module per command: `AddCommand`, `EditCommand`, `StatusCommand`, `ListCommand`, `InboxCommand`, `ReviewCommand` and `InstallCommand`.
  - A command that writes is a method on the store.
  - Its `ensures` ties the new tables to a pure function of the old ones.
  - The properties the command promises are lemmas about that function.

Three points about the code that are easy to miss:
- `task:list` orders its rows by descending priority *id* (app/Commands/ListCommand.php:87), not by level. `ListCommand.IdOrderIsLevelOrder` shows the two orders agree when ids grow with levels, as they do after a default install.
- `isOverdue` and the date queries use different tests (see Findings). Each place is modelled with the test its own code uses.
- Reconfiguring an installation that holds any task fails. The database turns foreign keys on (config/database.php:15), and a task's status and priority keys have no delete action (database/migrations/2026_02_20_000001_create_todo_tables.php:32-33). So the engine refuses the delete of the statuses (app/Commands/InstallCommand.php:72), although the comment above it says tasks are kept. `InstallCommand.Handle` ends `Rejected` there. `Storage.StatusDeleteRefusedIffTasks` shows that, while the keys hold, this happens exactly when some task exists.

## Model

| member | source | states |
|---|---|---|
| StatusTypes.TryFrom | app/Enums/StatusType.php:10-15 | decoding a stored string yields a case whose stored value is that string, and yields none exactly when no case has that value |
| StatusTypes.ExactlyFourCases | app/Enums/StatusType.php:12-15 | there are exactly four cases, each listed once |
| StatusTypes.ValueRoundTrip | app/Enums/StatusType.php:10-15 | encoding a case and decoding the string gives the case back |
| StatusTypes.ValuesDistinct | app/Enums/StatusType.php:12-15 | distinct cases have distinct stored values |
| StatusTypes.LabelInjective | app/Enums/StatusType.php:17-24 | distinct cases have distinct labels |
| Models.Create | app/Models/Task.php:27-36 | a created task carries exactly the given fillable fields; its id comes from the table and both timestamps are the creation instant |
| Models.CreateOnlyFillable | app/Models/Task.php:27-36 | two creations from the same fields differ only in id and timestamps, so mass assignment cannot set those |
| Models.Saved | app/Commands/EditCommand.php:51 | the written row holds exactly the model's attributes apart from `updated_at`, so id, creation time and every fillable field are the model's; an unchanged model writes nothing, and a changed one gets `updated_at` = now |
| Models.OverdueNeedsDeadlineAndOpenKind | app/Models/Task.php:68-74 | isOverdue is false without a deadline and false for done or cancelled kinds; it holds exactly when a deadline is set, its midnight is before now and the kind is inbox or active |
| Models.OverdueStaysOverdue | app/Models/Task.php:70-71 | with deadline and status fixed, an overdue task is overdue at every later instant |
| Models.OverdueOnImpliesIsOverdue | app/Models/Task.php:68-74 | every task the date queries call overdue is overdue for isOverdue too |
| Models.DueDayCounterexample | app/Models/Task.php:70-71 | one second into the due day, isOverdue already holds while the date test does not |
| Models.OverdueOnBoundary | app/Commands/ListCommand.php:74-75 | with the date test, a task due today is not overdue and one due yesterday is |
| Storage.InstalledIff | app/Commands/Concerns/EnsuresInstallation.php:10-23 | the check fails when the database cannot be read, fails when the statuses table is missing or empty, and holds exactly when the table exists with at least one status |
| Storage.Store.constructor | app/Commands/InstallCommand.php:51-57 | a fresh database file has no tables, no rows and every id counter at 1 |
| Storage.Store.Migrate | app/Commands/InstallCommand.php:59-62 | the migrations create the tables and keep every row; an unreadable file stays unreadable |
| Storage.Store.InsertStatus | app/Commands/InstallCommand.php:128 | one status row is appended under the next id, and the counter moves on |
| Storage.Store.InsertPriority | app/Commands/InstallCommand.php:162-165 | one priority row is appended under the next id, and the counter moves on |
| Storage.Store.InsertCategory | app/Commands/InstallCommand.php:199 | one category row is appended under the next id, and the counter moves on |
| Storage.Store.InsertTask | app/Commands/AddCommand.php:85-93 | one task is appended, created from the fields under the next id, which is returned |
| Storage.Store.SaveTask | app/Commands/StatusCommand.php:65 | only the task at the given position is written, as `save()` writes it; the store stays valid |
| Storage.Store.DeleteReferenceData | app/Commands/InstallCommand.php:71-74 | succeeds exactly when no task names a status or a priority row; a task naming a status leaves every table as it was; otherwise a task naming a priority leaves only the statuses deleted; on success the three tables are empty and tasks whose category was deleted have none (`nullOnDelete`), with counters kept |
| Storage.Unlinked | database/migrations/2026_02_20_000001_create_todo_tables.php:31 | a task whose category is among the deleted ones loses its category; every other field and every other task stay |
| Storage.StatusDeleteRefusedIffTasks | database/migrations/2026_02_20_000001_create_todo_tables.php:33 | while every task names an existing status, the status delete is refused exactly when some task exists |
| Storage.ValidIds | database/migrations/2026_02_20_000001_create_todo_tables.php:10-38 | in a valid store every table's ids strictly increase, are positive and lie below the table's counter |
| Text.Trim | app/Commands/InstallCommand.php:115 | the result is a slice of the input with only trimmable characters cut off either end, and neither of its ends is trimmable |
| Text.TrimKeepsChars | app/Commands/InstallCommand.php:115 | trimming only removes characters |
| Text.TrimIdempotent | app/Commands/InstallCommand.php:115 | trimming twice is trimming once |
| Text.Explode | app/Commands/InstallCommand.php:115 | explode yields at least one piece, and no piece holds the separator |
| Text.ImplodeExplode | app/Commands/InstallCommand.php:115 | joining the pieces with the separator gives the input back, so no character is lost |
| Text.ContainsOccurs | app/Commands/ListCommand.php:82-83 | what the substring search finds occurs at some offset |
| Text.OccursAtContains | app/Commands/ListCommand.php:82-83 | an occurrence at any offset is found by the substring search |
| Text.LikeSelf | app/Commands/StatusCommand.php:40 | every name matches a LIKE pattern built from itself |
| Text.LikeSubstring | app/Commands/ListCommand.php:82-83 | a literal substring matches whatever its case |
| Text.LikeIgnoresCase | app/Commands/ListCommand.php:82-83 | lower-casing the search text does not change what matches |
| Seqs.First | app/Commands/StatusCommand.php:40 | `first()` finds a row exactly when some row satisfies the condition, and the row it returns is the first satisfying one in row order |
| Seqs.Pluck | app/Commands/AddCommand.php:53 | one value of the column per row, in row order (the category, priority and status name lists offered by the prompts) |
| Seqs.Filter | app/Commands/InboxCommand.php:27-30 | a filtered query keeps each satisfying row as often as the table holds it and drops every other row |
| Seqs.Positions | app/Commands/ReviewCommand.php:44-47 | the positions a query visits are exactly those of the satisfying rows, in increasing order |
| Seqs.SortBy | app/Commands/InboxCommand.php:29 | ordering returns a permutation of the rows, sorted by the key |
| Seqs.SortByHeadIsLeast | app/Commands/AddCommand.php:64 | the first row after ordering has the least key of all rows |
| Lookup.ByLevel | app/Commands/AddCommand.php:64 | the priorities reordered by non-decreasing level, as a permutation |
| Lookup.IdsOfKinds | app/Commands/InboxCommand.php:25 | an id is plucked exactly when a status with that id has one of the kinds |
| Lookup.StatusLike | app/Commands/StatusCommand.php:40 | none exactly when no status name contains the text (ignoring ASCII case); otherwise the first such status in id order |
| Lookup.FirstOfKind | app/Commands/AddCommand.php:78 | none exactly when no status has the kind; otherwise the first status in id order that has it |
| Lookup.StatusNamed | app/Commands/StatusCommand.php:51 | none exactly when no status carries the name; otherwise the first status in id order carrying it |
| Lookup.CategoryLike | app/Commands/EditCommand.php:71 | none exactly when no category name contains the text; otherwise the first such category in id order |
| Lookup.CategoryNamed | app/Commands/AddCommand.php:50 | none exactly when no category carries the name; otherwise the first category in id order carrying it |
| Lookup.PriorityLike | app/Commands/EditCommand.php:78 | none exactly when no priority name contains the text; otherwise the first such priority in id order |
| Lookup.PriorityNamed | app/Commands/AddCommand.php:68 | none exactly when no priority carries the name; otherwise the first priority in the given order carrying it |
| Lookup.FuzzyFindsExisting | app/Commands/StatusCommand.php:40 | a fuzzy lookup for an existing name always finds a row, but possibly an earlier one whose name merely contains it |
| Lookup.KindOfRow | app/Models/Task.php:48-51 | with increasing ids, following a status id gives that status's own kind |
| Lookup.IdsOfKindsMeansKind | app/Commands/ListCommand.php:44-48 | a status id is in the plucked list exactly when its status has one of the kinds |
| AddCommand.CategoryFor | app/Commands/AddCommand.php:43-61 | the category is none when the table is empty; a truthy option takes the category with exactly that name, or none when no name matches; otherwise the picked name's category, with the "None" entry (the default) giving none; either way, among categories sharing the name, the first in id order |
| AddCommand.PriorityFor | app/Commands/AddCommand.php:64-75 | a priority exists exactly when the table is non-empty; an exact-name option takes that priority; an unknown name falls back to the first in level order; otherwise the pick (default index n/2) among the names in level order gives the first priority in level order carrying the picked name |
| AddCommand.StatusFor | app/Commands/AddCommand.php:78-79 | the start status is the first Inbox-kind status in id order whenever one exists, and the first status otherwise |
| AddCommand.NewTask | app/Commands/AddCommand.php:29-93 | it fails as not installed, as an empty name (neither the option nor the answer truthy, so "0" counts as empty) or as no priority, exactly in those cases; otherwise the name is the truthy option or else the answer, the description the truthy option or else the answer (null when both are falsy), each date the option when given and otherwise the answer, with the resolved category, priority and status and no `completed_at` |
| AddCommand.Handle | app/Commands/AddCommand.php:27-93 | on success exactly one task is appended, created from the fields `NewTask` gives (the entered name, description and dates, and the resolved ids), and the exit code is 0; on any error nothing changes and the exit code is 1 |
| AddCommand.NewTaskStartsInInbox | app/Commands/AddCommand.php:77-79 | when an Inbox-kind status exists, the new task's status is of kind Inbox and the lifecycle invariant survives the insert |
| AddCommand.FallbackStatusMayBeDone | app/Commands/AddCommand.php:78-79 | without an Inbox-kind status the new task takes the first status; if that one is Done, the new task breaks the lifecycle invariant |
| EditCommand.TextAfter | app/Commands/EditCommand.php:62-64 | the name changes only to a truthy option value |
| EditCommand.DescriptionAfter | app/Commands/EditCommand.php:66-68 | a truthy option sets the description; otherwise it is kept, so the option never clears it |
| EditCommand.CategoryAfter | app/Commands/EditCommand.php:70-75 | a truthy option that some category name contains sets the first such category in id order; a falsy option or a miss keeps the category |
| EditCommand.PriorityAfter | app/Commands/EditCommand.php:77-82 | a truthy option that some priority name contains sets the first such priority in id order; a falsy option or a miss keeps the priority |
| EditCommand.FlagEdit | app/Commands/EditCommand.php:60-91 | a truthy name or description option replaces the field and a falsy one keeps it; a truthy category or priority option sets the first fuzzy match and a miss keeps the field; a date option `clear` nulls the date, a date replaces it, and a blank or absent one keeps it; id, status, `completed_at` and timestamps stay |
| EditCommand.ApplyFlags | app/Commands/EditCommand.php:60-91 | the field-by-field assignments produce exactly the task `FlagEdit` describes, with each of those updates |
| EditCommand.KeepLabel | app/Commands/EditCommand.php:114 | the keep entry always starts with "Keep" |
| EditCommand.CategoryAnswer | app/Commands/EditCommand.php:109-122 | without categories, or on the default "Keep", the category stays; "None" nulls it; a name starting with "Keep" keeps it; any other name takes the first category in id order with that name |
| EditCommand.PriorityAnswer | app/Commands/EditCommand.php:125-133 | the default keeps the priority; a name starting with "Keep" keeps it; any other name takes the first priority in level order with that name |
| EditCommand.AnswerEdit | app/Commands/EditCommand.php:93-148 | a truthy name answer replaces the name and a falsy one keeps it; a falsy description answer keeps it, `clear` nulls it and anything else replaces it; category and priority follow their prompts; a blank date answer keeps the date, `clear` nulls it and a date replaces it; id, status, `completed_at` and timestamps stay; pressing Enter everywhere changes nothing |
| EditCommand.InteractiveEdit | app/Commands/EditCommand.php:93-148 | the prompt-by-prompt assignments produce exactly the task `AnswerEdit` describes, with each of those updates |
| EditCommand.Edited | app/Commands/EditCommand.php:42-49 | any option given, even an empty one, selects `FlagEdit`, and none selects `AnswerEdit`; either way the id, status and `completed_at` are kept |
| EditCommand.Run | app/Commands/EditCommand.php:25-58 | not installed exactly when the check fails; once installed, not found exactly when no task has the id; unless the edit succeeds, no task changes; on success the first task with the id is saved with its edited attributes |
| EditCommand.EditTouchesOneTask | app/Commands/EditCommand.php:42-51 | after an edit only the task with the id differs; its fillable fields are `FlagEdit`'s when an option was given and `AnswerEdit`'s otherwise; `updated_at` moves to now exactly when a field changed |
| EditCommand.Handle | app/Commands/EditCommand.php:25-58 | the tasks afterwards are those `Run` gives, and the exit code is 0 exactly on success |
| EditCommand.EditKeepsConsistent | app/Commands/EditCommand.php:60-148 | no edit changes any task's status or `completed_at`, so the lifecycle invariant survives every edit |
| ListCommand.SatisfiesAllAppend | app/Commands/ListCommand.php:31-85 | adding clauses to the query AND-combines them |
| ListCommand.OpenIdsMeanOpenKind | app/Commands/ListCommand.php:44-48 | the plucked open ids are exactly the ids of statuses whose kind is inbox or active |
| ListCommand.CategoryClauses | app/Commands/ListCommand.php:52-57 | the category option narrows to the matched category only when it matches one |
| ListCommand.PriorityClauses | app/Commands/ListCommand.php:60-65 | the priority option narrows to the matched priority only when it matches one |
| ListCommand.OverdueClauses | app/Commands/ListCommand.php:68-77 | `--overdue` keeps exactly the tasks with a deadline before today and an open status |
| ListCommand.SearchClauses | app/Commands/ListCommand.php:80-85 | `--search` keeps exactly the tasks whose name or description contains the text, ignoring case |
| ListCommand.BuildQuery | app/Commands/ListCommand.php:31-85 | the query is refused exactly when a status option matches no status; otherwise a task satisfies it exactly when it is wanted (matched status, or an open kind unless `--all`, plus every other option) |
| ListCommand.QueryMeansWanted | app/Commands/ListCommand.php:52-85 | the category, priority, overdue and search clauses add exactly their own filters |
| ListCommand.OverdueOnOpen | app/Commands/ListCommand.php:74-76 | the overdue clauses apply the date-based overdue test for any open kind |
| ListCommand.Handle | app/Commands/ListCommand.php:27-87 | nothing is listed exactly when a status option matches no status; otherwise the rows are exactly the wanted tasks, each as often as in the table, by descending priority id |
| ListCommand.LevelOf | app/Commands/ListCommand.php:95-96 | a missing priority counts as level 0; otherwise the level is its priority's |
| ListCommand.BandOf | app/Commands/ListCommand.php:99-104 | red from level 30, yellow from 20, cyan from 10, gray below, with each band exactly its range |
| ListCommand.BandMonotone | app/Commands/ListCommand.php:99-104 | a higher level never gets a lower band |
| ListCommand.IdOrderIsLevelOrder | app/Commands/ListCommand.php:87 | when priority levels grow with ids, rows by descending priority id are also by descending level |
| ListCommand.PriorityAt | app/Commands/ListCommand.php:96 | with increasing ids, a task's shown level is the level of the one priority carrying its id |
| InboxCommand.Rows | app/Commands/InboxCommand.php:19-30 | nothing is shown exactly when the check fails; otherwise the rows are exactly the tasks whose status is of kind Inbox, newest first |
| InboxCommand.ExitCode | app/Commands/InboxCommand.php:21-37 | the exit code is 1 only when not installed; an empty inbox still gives 0 |
| InboxCommand.ShownIffInboxKind | app/Commands/InboxCommand.php:25-28 | a task is shown exactly when its status is of kind Inbox |
| StatusCommand.ExitCode | app/Commands/StatusCommand.php:19-76 | the exit code is 0 exactly when the status was changed |
| StatusCommand.Target | app/Commands/StatusCommand.php:39-52 | a truthy argument finds a status exactly when some status name contains it, ignoring case, and takes the first such status in id order; otherwise the first status in id order carrying the picked name |
| StatusCommand.Transition | app/Commands/StatusCommand.php:54-63 | the task takes the new status; `completed_at` is set, to now, exactly when the new status is Done; nothing else changes |
| StatusCommand.Run | app/Commands/StatusCommand.php:19-65 | not installed exactly when the check fails; once installed, task not found exactly when no task has the id; for a found task, status not found exactly when `Target` finds none; a change moves the first task with the id to exactly the status `Target` resolves |
| StatusCommand.Handle | app/Commands/StatusCommand.php:19-76 | the step-by-step assignments and save give exactly the tasks and exit code `Run` describes |
| StatusCommand.ChangeTouchesOneTask | app/Commands/StatusCommand.php:54-65 | after a change only the task with the id differs; it carries the status `Target` resolves, `completed_at` is set exactly when that status is Done, and its other fields stay |
| StatusCommand.ChangeKeepsConsistent | app/Commands/StatusCommand.php:56-63 | a status change keeps the lifecycle invariant for every task |
| ReviewCommand.Pick | app/Commands/ReviewCommand.php:69-76 | the default or the extra entry picks nothing, and so does a name equal to the extra entry; any other name picks the first status in id order carrying it |
| ReviewCommand.ReviewMove | app/Commands/ReviewCommand.php:76-81 | the task takes the new status; a Done status stamps `completed_at` with now, and any other status leaves it as it was |
| ReviewCommand.MoveStep | app/Commands/ReviewCommand.php:69-83 | Skip or Keep leaves the task unchanged; a pick moves it |
| ReviewCommand.KindVisit | app/Commands/ReviewCommand.php:44-47 | the phase visits exactly the tasks whose status has the given kind, in table order |
| ReviewCommand.MovePhase | app/Commands/ReviewCommand.php:62-85 | visiting keeps the number of tasks |
| ReviewCommand.ReviewByKind | app/Commands/ReviewCommand.php:42-88 | the phase leaves the tasks `MovePhase` gives for the tasks of that kind, loaded once at its start |
| ReviewCommand.MoveTasks | app/Commands/ReviewCommand.php:62-85 | the loop leaves the tasks `MovePhase` describes |
| ReviewCommand.MoveTask | app/Commands/ReviewCommand.php:69-83 | only the visited task is saved, with the step its answer calls for |
| ReviewCommand.MovePhaseNext | app/Commands/ReviewCommand.php:62-85 | one more visit extends the phase by that visit's step |
| ReviewCommand.OverdueStep | app/Commands/ReviewCommand.php:177-215 | Skip and an empty reschedule change nothing; a reschedule sets only the deadline; "Mark as done" moves to the first Done status and stamps `completed_at`; "Cancel" moves to the first Cancelled status; with no status of that kind the task is unchanged |
| ReviewCommand.OverdueVisit | app/Commands/ReviewCommand.php:147-156 | phase 3 visits exactly the tasks with a deadline before today and an inbox or active status, in table order |
| ReviewCommand.OverduePhase | app/Commands/ReviewCommand.php:166-183 | visiting keeps the number of tasks |
| ReviewCommand.OverduePhaseNext | app/Commands/ReviewCommand.php:166-183 | one more visit extends the phase by that visit's step |
| ReviewCommand.RescheduleTask | app/Commands/ReviewCommand.php:186-194 | only that task is saved, with the reschedule step |
| ReviewCommand.CompleteTask | app/Commands/ReviewCommand.php:196-205 | only that task is saved, with the mark-as-done step |
| ReviewCommand.CancelTask | app/Commands/ReviewCommand.php:207-215 | only that task is saved, with the cancel step |
| ReviewCommand.OverdueTask | app/Commands/ReviewCommand.php:177-182 | the chosen action is applied to that task only |
| ReviewCommand.HandleOverdue | app/Commands/ReviewCommand.php:145-184 | phase 3 leaves the tasks `OverduePhase` gives for the overdue tasks, loaded once |
| ReviewCommand.OverdueTasks | app/Commands/ReviewCommand.php:166-183 | the loop leaves the tasks `OverduePhase` describes |
| ReviewCommand.Review | app/Commands/ReviewCommand.php:19-40 | exit 1, with no change, exactly when not installed; otherwise the three phases run in order, each on the tasks the previous one saved |
| ReviewCommand.Handle | app/Commands/ReviewCommand.php:19-40 | the exit code and tasks are those `Review` gives |
| ReviewCommand.MovePhaseOutside | app/Commands/ReviewCommand.php:62-85 | a task that phase 1 or 2 does not visit is unchanged |
| ReviewCommand.MovePhaseAt | app/Commands/ReviewCommand.php:62-85 | each visited task is saved once, with the step its own answer calls for |
| ReviewCommand.OverduePhaseOutside | app/Commands/ReviewCommand.php:166-183 | a task that phase 3 does not visit is unchanged |
| ReviewCommand.OverduePhaseAt | app/Commands/ReviewCommand.php:166-183 | each overdue task is saved once, with its own action |
| ReviewCommand.OverdueVisitIsOverdueOn | app/Commands/ReviewCommand.php:147-156 | phase 3 visits a task exactly when it is overdue by the date test |
| ReviewCommand.PickedKind | app/Commands/ReviewCommand.php:76 | a picked status keeps its kind when looked up by id |
| ReviewCommand.MoveStepKeepsConsistent | app/Commands/ReviewCommand.php:76-83 | moving a task that is not done keeps the lifecycle invariant for it |
| ReviewCommand.OverdueStepKeepsConsistent | app/Commands/ReviewCommand.php:196-215 | an overdue action on a task that is not done keeps the lifecycle invariant for it |
| ReviewCommand.MovePhaseKeepsConsistent | app/Commands/ReviewCommand.php:62-85 | phases 1 and 2 keep the lifecycle invariant when no visited task is done |
| ReviewCommand.OverduePhaseKeepsConsistent | app/Commands/ReviewCommand.php:166-183 | phase 3 keeps the lifecycle invariant when no visited task is done |
| ReviewCommand.ReviewKeepsConsistent | app/Commands/ReviewCommand.php:31-33 | the whole review keeps the lifecycle invariant |
| ReviewCommand.MovedToActiveIsReviewed | app/Commands/ReviewCommand.php:92-95 | an inbox task moved to an active status in phase 1 is visited again in phase 2 |
| InstallCommand.Entries | app/Commands/InstallCommand.php:115 | one entry per comma-separated piece |
| InstallCommand.TrimAll | app/Commands/InstallCommand.php:115 | each entry is its piece trimmed |
| InstallCommand.EntriesAreClean | app/Commands/InstallCommand.php:115 | there is always at least one entry, and none holds a comma or surrounding blanks |
| InstallCommand.Kept | app/Commands/InstallCommand.php:117-120 | no more entries survive than were given |
| InstallCommand.KeptInOrder | app/Commands/InstallCommand.php:117-120 | entries survive one by one, each exactly when it is non-empty, and in input order: the survivors of a joined list are those of its first part followed by those of the rest |
| InstallCommand.KeptIsNonEmptyEntries | app/Commands/InstallCommand.php:117-120 | the surviving entries are exactly the non-empty ones |
| InstallCommand.CustomStatusSeeds | app/Commands/InstallCommand.php:117-129 | status `i` carries kept name `i` and the `i`-th type answer, `active` when that prompt was left at its default |
| InstallCommand.CustomPrioritySeeds | app/Commands/InstallCommand.php:158-166 | no more priorities than entries |
| InstallCommand.CustomPriorityLevels | app/Commands/InstallCommand.php:158-165 | each custom priority's level is ten times the position of its own entry among all entries |
| InstallCommand.CustomPriorityLevelsIncrease | app/Commands/InstallCommand.php:158-165 | custom levels strictly increase in creation order, even across skipped entries |
| InstallCommand.CustomPriorityNames | app/Commands/InstallCommand.php:158-166 | the custom priorities carry exactly the kept names, in input order |
| InstallCommand.StatusSeeds | app/Commands/InstallCommand.php:93-132 | a custom list gives one status per kept entry |
| InstallCommand.PrioritySeeds | app/Commands/InstallCommand.php:142-169 | a custom list gives one priority per kept entry |
| InstallCommand.PriorityLevelsIncrease | app/Commands/InstallCommand.php:142-169 | default or custom, the priority levels are non-negative and strictly increase in creation order |
| InstallCommand.CategorySeeds | app/Commands/InstallCommand.php:179-203 | a custom list gives one category per kept entry |
| InstallCommand.StatusRows | app/Commands/InstallCommand.php:100-101 | one row per seed |
| InstallCommand.PriorityRows | app/Commands/InstallCommand.php:149-150 | one row per seed |
| InstallCommand.CategoryRows | app/Commands/InstallCommand.php:186-187 | one row per name |
| InstallCommand.CreateStatuses | app/Commands/InstallCommand.php:99-102 | the seeds are appended in order, numbered from the counter |
| InstallCommand.CreateEnteredStatuses | app/Commands/InstallCommand.php:114-129 | one status per non-empty entry is appended in order, the k-th typed by the k-th answer (default active) |
| InstallCommand.SetupStatuses | app/Commands/InstallCommand.php:86-133 | the chosen statuses are appended in creation order |
| InstallCommand.CreatePriorities | app/Commands/InstallCommand.php:148-151 | the seeds are appended in order, numbered from the counter |
| InstallCommand.CreateEnteredPriorities | app/Commands/InstallCommand.php:155-166 | one priority per non-empty entry is appended in order, at ten times the entry's index |
| InstallCommand.SetupPriorities | app/Commands/InstallCommand.php:135-170 | the chosen priorities are appended in creation order |
| InstallCommand.CreateCategories | app/Commands/InstallCommand.php:185-188 | the names are appended in order, numbered from the counter |
| InstallCommand.CreateEnteredCategories | app/Commands/InstallCommand.php:192-200 | one category per non-empty entry is appended in order |
| InstallCommand.SetupCategories | app/Commands/InstallCommand.php:172-204 | the chosen categories are appended in creation order |
| InstallCommand.Handle | app/Commands/InstallCommand.php:40-84 | an unreadable database fails with nothing changed; an installed store is kept as is when the user declines; a confirmed reconfigure is rejected exactly when some task names a status or priority row, leaving the tables as the refused delete left them; otherwise the reference tables are cleared (when installed) and reseeded; tasks change only by losing a deleted category; the store is installed afterwards exactly when it was kept, the status delete was refused, or the setup created a status |
| InstallCommand.Seed | app/Commands/InstallCommand.php:64-79 | once the tables exist, a decline keeps everything; a first install runs the three setups; a confirmed reconfigure behaves as `Reconfigure` |
| InstallCommand.Reconfigure | app/Commands/InstallCommand.php:71-79 | rejected exactly when some task names a status or priority row, with tasks, priorities and categories kept and statuses kept or deleted as the refused delete left them; otherwise the three tables hold only the new seeds and tasks lose their deleted category |
| InstallCommand.SetupAll | app/Commands/InstallCommand.php:77-79 | statuses, then priorities, then categories are appended |
| InstallCommand.SetupRest | app/Commands/InstallCommand.php:78-79 | priorities, then categories are appended |
| InstallCommand.DefaultStatusesCoverKinds | app/Commands/InstallCommand.php:18-25 | after the default setup every kind has a status, and new tasks start in the one named "Inbox" |
| InstallCommand.KeptEntriesAreClean | app/Commands/InstallCommand.php:115-120 | every kept entry is non-empty, trimmed and comma-free |
| InstallCommand.EnteredNamesAreClean | app/Commands/InstallCommand.php:114-200 | entered statuses, priorities and categories all get non-empty, trimmed, comma-free names |
| InstallCommand.EnteredStatusNamesAreKept | app/Commands/InstallCommand.php:117-128 | each entered status is named by a kept entry |
| InstallCommand.EnteredPriorityNamesAreKept | app/Commands/InstallCommand.php:158-165 | each entered priority is named by a kept entry |
| InstallCommand.NothingKeptIffAllEmpty | app/Commands/InstallCommand.php:117-120 | nothing survives exactly when every entry is empty |
| InstallCommand.BlankStatusListLeavesUninstalled | app/Commands/InstallCommand.php:114-129 | an entered status list creates no status exactly when none of its entries is non-empty, and then the status table holds no row, so the store counts as not installed after install finishes |
| InstallCommand.CommaOnlyListIsBlank | app/Commands/InstallCommand.php:114-115 | the list " , " is such a list: both of its entries are empty |

## Left out

- Prompts, choices, confirmations and all output (`ask`, `choice`, `confirm`, `info`, `line`, `table`, colours, emoji). Each answer is a parameter; the review loops take one answer per visited task.
- Creating the database directory and file, and the home-directory path (app/Commands/InstallCommand.php:48-57, config/database.php). The migrations are modelled only as the `Schema` state.
- Date parsing and formatting. Dates are day numbers and instants are seconds, and timezones are ignored. Text that is not a date cannot be entered, though the source stores such text verbatim. The "overdue by N days" figure (`diffInDays`) is display only.
- `LIKE` beyond ASCII case folding, and `%` or `_` typed inside the search text (the model treats them as literal characters).
- Storage.Store.DeleteReferenceData: the foreign keys are checked only on the reconfigure's three deletes. The store's invariant does not require every task to name existing rows, and the other writes are not checked against the keys; every command writes only ids it has just looked up.
- `ensureInstalled()` is called at app/Commands/ListCommand.php:29 and app/Commands/ShowCommand.php:19, but no file of the repository defines it. The `EnsuresInstallation` trait defines only `checkInstallation()` (app/Commands/Concerns/EnsuresInstallation.php:10). As written, `task:list` and `task:show` therefore raise before their first query. The list model assumes the call stands for the installation check. Its result would be discarded (there is no `if`), so `ListCommand.Handle` starts after the call whatever the check answers. app/Commands/ShowCommand.php is display only and is not part of this model.
- The `isOverdue` marker in list rows (app/Commands/ListCommand.php:109) and review lines (app/Commands/ReviewCommand.php:117) is display only; the predicate itself is modelled as `Models.IsOverdue`.
- The order rows come back in is taken to be id order.
- Seqs.SortBy: the order among rows with equal keys under `orderBy` is not promised, as SQLite does not promise it either; the contract states only that the result is sorted and a permutation.
- An unreadable database is one `Schema` case, `Unreadable`; the exception itself is not modelled.
- Lookup.CategoryNamed, Lookup.PriorityNamed, Lookup.StatusNamed: a picked name is matched exactly. The source matches it with the Collection `where('name', $chosen)` (app/Commands/AddCommand.php:58,74; app/Commands/EditCommand.php:120,132; app/Commands/ReviewCommand.php:76,131; app/Commands/StatusCommand.php:51), which compares with PHP's loose `==`. Numeric-looking names such as "1", "01" and "1e1" therefore equal each other there, and the first such row wins. PHP's numeric-string comparison is not modelled.
- The status-type prompt during a custom install answers with a kind, or `None` for the default (active).
- Eloquent's dirty check is approximated by comparing whole records, in `Models.Saved`.
- The auto-increment counters never go back, as with SQLite's AUTOINCREMENT, including after a reconfigure.
- InstallCommand.StatusRows, InstallCommand.PriorityRows, InstallCommand.CategoryRows: their own contracts state only the length. What the rows contain is stated by the methods that append them.
- InstallCommand.CustomPrioritySeeds: its own contract states only the size bound. Its levels, order and names are stated by the lemmas beside it.
- ReviewCommand.MovePhase, ReviewCommand.OverduePhase: their own contracts state only the size. What each task becomes is stated by `MovePhaseAt`, `MovePhaseOutside`, `OverduePhaseAt` and `OverduePhaseOutside`.

## Findings

| source | as written | input that shows it | evidently intended | confidence | as-written member | corrected member |
|---|---|---|---|---|---|---|
| app/Models/Task.php:70-71 | isOverdue compares the deadline, cast to midnight of its day, with the current instant, so a task counts as overdue from the first second of its due day | a task due on day d, looked at on day d at 00:00:01: isOverdue is true, while `task:list --overdue` and the review's overdue phase (deadline < today) leave it out | a task is overdue only after its due day, as the date queries test (app/Commands/ListCommand.php:75, app/Commands/ReviewCommand.php:154) | medium, not executed | Models.DueDayCounterexample | Models.OverdueOnBoundary |

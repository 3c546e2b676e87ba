# Haushalt chore tracker — Dafny model

Haushalt is a small household app. Parents register kids and chores
("tasks"). Each task belongs to one of three groups: `REGULAR`, `TEN_MIN`
and `TV_PENALTY`. Tasks can be assigned to some of the kids. Every time a
kid does a task, a completion is logged. A dashboard turns those logs into
statistics, a fairness score and a few charts. A separate page rotates who
sleeps in which room. Every write is guarded by an administrator PIN.

This project models that core:

- **Data** (`Records`, `Store`). Kids, tasks, kid–task assignments,
  completion logs and sleeping arrangements are records. They live in one
  `Store` object, which stands in for the database. Its `Valid()` invariant
  says that every table's identities are distinct and lie below the
  identity counter.
- **PIN gate** (`Pin`).
- **Server actions for kids, tasks, logs and sleeping arrangements**
  (`KidActions`, `TaskActions`, `LogActions`, `Sleeping`). Each is a method
  on the store. Its contract gives every error case in the order the
  source checks it. It also states the complete new state of the store.
- **Analytics** (`Analytics`). Kid statistics, task statistics with
  per-kid grouping, TV-penalty statistics and the fairness score are pure
  functions. The lemmas about them relate the results to the raw logs.
- **Dashboard components** (`KidSelection`, `TenMinOverview`,
  `RegularTaskChart`, `AddCompletionModal`, `TvPenaltiesOverview`,
  `FairnessPanel`, `TaskOrdering`, `Navigation`). Their derived values
  (points, maxima, sort orders, colours, labels) are functions. The
  components that keep state between events (the completion form and the
  task-ordering panel) are classes whose methods are the event handlers.

Reusable sequence machinery lives in `Collections`: filter, map, sum, a
stable insertion sort, decimal rendering and string order.

## Model

| member | source | states |
|---|---|---|
| Pin.ValidatePin | src/lib/pin.ts:1-9 | with no administrator PIN configured every PIN is accepted; otherwise a PIN is accepted exactly when it equals the configured one |
| Pin.PinRequiredIffSomePinRefused | src/lib/pin.ts:11-14 | a PIN is required exactly when some PIN would be refused |
| Pin.IsPinRequired | src/lib/pin.ts:11-14 | no contract of its own; `PinRequiredIffSomePinRefused` proves it holds exactly when some PIN is refused, and `ValidatePin` accepts every PIN when it does not hold |
| Records.ParseGroup | src/actions/tasks.ts:8-13 | the group enum accepts exactly the three names `REGULAR`, `TEN_MIN` and `TV_PENALTY`; an accepted string is the name of the group parsed |
| Records.ParseGroupName | src/actions/tasks.ts:10 | parsing a group's name gives that group back |
| Records.FindKid | src/actions/kids.ts:75-81 | the lookup by id succeeds exactly when a kid with that id is stored, and returns that stored kid |
| Records.FindTask | src/actions/tasks.ts:98-104 | the lookup by id succeeds exactly when a task with that id is stored, and returns that stored task |
| Records.PatchKid | src/actions/kids.ts:55-61 | an update by id changes only the row with that id, by the given patch; lengths and the sequence of ids are unchanged |
| Records.PatchTask | src/actions/tasks.ts:78-83 | an update by id changes only the row with that id, by the given patch; lengths and the sequence of ids are unchanged |
| Records.TaskOrderIsTotalPreorder | src/actions/tasks.ts:149 | ordering by `order` and then by `title` is total and transitive |
| Records.ActiveAssignments | src/actions/tasks.ts:199-212 | the assignments included with a task are exactly its rows whose kid is active |
| KidActions.CreateKid | src/actions/kids.ts:29-46 | an empty name fails validation, then a wrong PIN fails; otherwise exactly one active kid with a fresh id is appended and nothing else changes |
| KidActions.UpdateKid | src/actions/kids.ts:48-66 | validation, then the PIN, then a missing id gives "record not found"; otherwise only that kid's name changes |
| KidActions.ToggleKidActive | src/actions/kids.ts:68-94 | a wrong PIN or an unknown id ("Kid not found") leaves the store unchanged; otherwise only that kid's active flag flips |
| KidActions.ToggleTwiceRestores | src/actions/kids.ts:83-88 | toggling the same kid twice restores the kid table |
| KidActions.DeleteKid | src/actions/kids.ts:96-115 | deletion is soft: only that kid's active flag becomes false, and its logs and assignments stay |
| KidActions.DeleteIdempotent | src/actions/kids.ts:103-109 | deleting a kid twice leaves the same table as deleting it once |
| KidActions.GetKids | src/actions/kids.ts:117-121 | every kid exactly once, sorted by first name |
| KidActions.GetActiveKids | src/actions/kids.ts:123-128 | exactly the active kids, sorted by first name |
| KidActions.DeletedKidLeavesActiveList | src/actions/kids.ts:96-128 | after deleting a kid it is gone from the active list but still in the full list |
| TaskActions.DefaultAssignees | src/actions/tasks.ts:51-54 | a non-empty list of kid ids is used as given; otherwise the task is assigned to exactly the active kids |
| TaskActions.CreateTask | src/actions/tasks.ts:37-69 | the title is checked, then the group, then the PIN; then the task is appended with a fresh id and the default order; the assignment rows are inserted when they refer to stored kids, and otherwise the task stays and a foreign-key error is returned |
| TaskActions.UpdateTask | src/actions/tasks.ts:71-89 | validation, then the PIN, then a missing id; otherwise only that task's title changes |
| TaskActions.ToggleTaskActive | src/actions/tasks.ts:91-117 | a wrong PIN or an unknown id ("Task not found") leaves the store unchanged; otherwise only that task's active flag flips |
| TaskActions.ToggleTaskTwiceRestores | src/actions/tasks.ts:106-111 | toggling the same task twice restores the task table |
| TaskActions.DeleteTask | src/actions/tasks.ts:119-138 | deletion is soft: only the task's active flag becomes false |
| TaskActions.DeleteTaskIdempotent | src/actions/tasks.ts:126-132 | deleting a task twice leaves the same table as deleting it once |
| TaskActions.WithoutTask | src/actions/tasks.ts:160-163 | `deleteMany` keeps exactly the rows of the other tasks |
| TaskActions.ReplaceAssignmentsExact | src/actions/tasks.ts:153-180 | after reassignment the task is assigned to exactly the given kids, and every other task's rows are unchanged |
| TaskActions.UpdateTaskKids | src/actions/tasks.ts:153-180 | a wrong PIN changes nothing; the delete always happens; the insert happens only when every row refers to stored rows, and otherwise the task is left with no assignments |
| TaskActions.UpdateTaskOrder | src/actions/tasks.ts:226-244 | a wrong PIN or a missing id changes nothing; otherwise only that task's `order` changes |
| TaskActions.ReorderedPlacesEachTask | src/actions/tasks.ts:263-284 | for distinct ids, each task listed at position `i` gets `order = i`, and an unlisted task keeps its order |
| TaskActions.ReorderedKeepsIds | src/actions/tasks.ts:270-278 | reordering keeps the task table's rows and ids in place |
| TaskActions.Reordered | src/actions/tasks.ts:270-278 | the task table keeps its length, and every row is unchanged except possibly its `order` |
| TaskActions.ReorderTasks | src/actions/tasks.ts:263-284 | a wrong PIN changes nothing; otherwise every known id is renumbered, and the call succeeds exactly when every listed id is stored |
| TaskActions.GetTasks | src/actions/tasks.ts:140-144 | every task exactly once, sorted by title |
| TaskActions.GetActiveTasks | src/actions/tasks.ts:146-151 | exactly the active tasks, sorted by order and then title |
| TaskActions.RegularActiveTasks | src/actions/tasks.ts:251-261 | exactly the active `REGULAR` tasks, sorted by order and then title |
| TaskActions.RegularIsActiveRestricted | src/actions/tasks.ts:146-151 | the `REGULAR` selection is the active list restricted to one group |
| TaskActions.GetActiveTasksWithOrder | src/actions/tasks.ts:251-261 | one `{ id, title, order }` row per selected task, in the same order |
| TaskActions.GetActiveTasksWithKids | src/actions/tasks.ts:195-218 | the active tasks in display order, each with exactly its assignments to active kids |
| TaskActions.GetTasksWithKids | src/actions/tasks.ts:182-193 | all tasks by title, each with exactly its assignment rows |
| LogActions.StoredMinutes | src/actions/logs.ts:31 | minutes are stored as null exactly when absent or zero, and as given otherwise |
| LogActions.CreateCompletion | src/actions/logs.ts:20-39 | a wrong PIN, then an unknown kid or task, changes nothing; otherwise one log with a fresh id and the current time is appended |
| LogActions.FindLog | src/actions/logs.ts:48-50 | the lookup succeeds exactly when a log with that id is stored |
| LogActions.RemoveLog | src/actions/logs.ts:48-50 | a hard delete keeps exactly the other rows |
| LogActions.RemoveLogRemovesOne | src/actions/logs.ts:48-50 | with distinct ids, exactly the one row goes and the rest keep their order |
| LogActions.DeleteCompletion | src/actions/logs.ts:41-56 | a wrong PIN, then a missing id, changes nothing; otherwise the row is removed and returned |
| LogActions.DistinctSlices | src/actions/logs.ts:48-50 | removing one row keeps the log ids distinct |
| LogActions.RecentCompletions | src/actions/logs.ts:58-76 | exactly the logs created at or after the start date, newest first |
| Sleeping.NextCombination | src/actions/sleeping.ts:14-24 | the next combination is `paul-mavi` when there is none yet or the latest is `paul-rosalie`, and `paul-rosalie` otherwise |
| Sleeping.CombinationsDiffer | src/actions/sleeping.ts:22-24 | the two combinations are different strings |
| Sleeping.PairsFor | src/actions/sleeping.ts:26-37 | two pairs per combination: under `paul-rosalie` Paul sleeps with Rosalie and Anna-Sophia with Mavi, under any other label Paul with Mavi and Anna-Sophia with Rosalie |
| Sleeping.PairsPartitionChildren | src/actions/sleeping.ts:26-37 | the two pairs of either combination hold each of the four children exactly once |
| Sleeping.NextArrangement | src/actions/sleeping.ts:13-38 | the next arrangement is one of the two combinations, with that combination's pairs |
| Sleeping.CurrentArrangement | src/actions/sleeping.ts:61-64 | the "current" arrangement is the next one |
| Sleeping.ToggleSleepingArrangement | src/actions/sleeping.ts:41-59 | a wrong PIN changes nothing; otherwise one record holding the next combination is appended |
| Sleeping.ToggleFlips | src/actions/sleeping.ts:41-59 | after a toggle the next combination is the other one |
| Sleeping.ToggleTwiceRestores | src/actions/sleeping.ts:41-59 | two toggles bring the next arrangement back |
| Analytics.GetKidStats | src/lib/analytics.ts:18-45 | one entry per active kid, in store order, with that kid's id and name, the number of its logs inside the window and the sum of their minutes (absent minutes as 0) |
| Analytics.KidStatsCountEveryLog | src/lib/analytics.ts:18-45 | the kid totals add up to the number of windowed logs of active kids |
| Analytics.KidStatsOf | src/lib/analytics.ts:36-44 | no contract of its own; `GetKidStats` states its id, name, count and minute sum, and `KidStatsCountEveryLog` and `KidStatsMinutesNonNegative` prove the totals add up and are non-negative |
| Analytics.KidStatsMinutesNonNegative | src/lib/analytics.ts:40-43 | with non-negative minutes, every kid's minute total is non-negative |
| Analytics.AddCompletion | src/lib/analytics.ts:91-102 | the `find` loop followed by `count++` or `push` performs one `GroupStep`: bump the kid's first entry, or append the kid with count 1 |
| Analytics.GroupCompletionsByKid | src/lib/analytics.ts:90-105 | the `reduce` loop computes the per-kid grouping |
| Analytics.CompletionsByKidIsGrouping | src/lib/analytics.ts:90-105 | the grouping has one entry per kid who appears, in order of first appearance, each counting that kid's completions |
| Analytics.CompletionsByKid | src/lib/analytics.ts:90-105 | the grouping has no more entries than there are completions, is empty exactly when there are none, and names each kid by its stored first name; `CompletionsByKidIsGrouping` proves it is the per-kid grouping |
| Analytics.CompletionsByKidSum | src/lib/analytics.ts:90-105 | the per-kid counts add up to the number of completions |
| Analytics.CountForCompletionsByKid | src/lib/analytics.ts:90-105 | looking up a kid in the grouping gives its completion count, or zero |
| Analytics.CountFor | src/components/dashboard/TenMinTasksOverview.tsx:41-42 | a positive count comes from some entry for the kid; `CountForCompletionsByKid` proves a lookup in the grouping gives the kid's completions, or 0 |
| Analytics.StatsTasksSelection | src/lib/analytics.ts:52-56 | the statistics cover exactly the active tasks of the requested group (or of all groups), by order and then title |
| Analytics.StatsTasks | src/lib/analytics.ts:52-56 | no contract of its own; `StatsTasksSelection` proves it is exactly the active tasks of the group, by multiset, ordered by `order` and then `title` |
| Analytics.AssignedKidsOf | src/lib/analytics.ts:107-110 | the listed assigned kids are exactly the active kids with an assignment row, each named by its stored first name |
| Analytics.TaskStatsOf | src/lib/analytics.ts:89-118 | the total counts the task's windowed logs, the per-kid counts are a grouping of them that adds up to the total, and the assigned kids are the task's assignments resolved to kids |
| Analytics.GetTaskStats | src/lib/analytics.ts:47-120 | one statistics entry per selected task, in display order |
| Analytics.GetTvPenaltyStats | src/lib/analytics.ts:132-165 | one penalty entry per active kid, in store order, whose count is the number of that kid's windowed logs of `TV_PENALTY` tasks and whose minutes are the sum of those logs' minutes |
| Analytics.PenaltyStatsOfIsRestriction | src/lib/analytics.ts:140-163 | penalties are the kid's windowed logs restricted to `TV_PENALTY` tasks: the count is exactly the number of such logs and so at most the completion total, and the minutes are the sum over those logs |
| Analytics.PenaltyStatsOf | src/lib/analytics.ts:155-163 | no contract of its own; `PenaltyStatsOfIsRestriction` proves its count is the number of the kid's windowed `TV_PENALTY` logs and its minutes their sum |
| Analytics.TvPenaltyIsRestriction | src/lib/analytics.ts:132-165 | the i-th penalty entry and the i-th kid entry are for the same kid; the penalty count is exactly that kid's windowed penalty logs, at most the kid's total, and the minutes are the restricted sum |
| Analytics.CalculateFairness | src/lib/analytics.ts:122-130 | zero for no kids; bounds every pairwise gap in completions and equals one of them; zero exactly when all totals are equal |
| KidSelection.AvailableKids | src/components/dashboard/AddCompletionModal.tsx:18-20 | with no assignments every kid is offered; otherwise exactly the assigned kids, in order |
| KidSelection.AvailableKidsIsFilter | src/components/dashboard/RegularTaskChart.tsx:33-35 | both branches are the one order-preserving filter "task is for this kid" |
| TenMinOverview.PointsOverAssignedTasks | src/components/dashboard/TenMinTasksOverview.tsx:34-50 | a kid's points are the sum of its completion counts over the tasks it is assigned to, and are non-negative |
| TenMinOverview.TaskPoints | src/components/dashboard/TenMinTasksOverview.tsx:36-42 | no contract of its own; `PointsOverAssignedTasks` proves unassigned tasks add nothing, and `CountForAtMostSum` bounds an assigned task's contribution |
| TenMinOverview.Points | src/components/dashboard/TenMinTasksOverview.tsx:35-43 | no contract of its own; `PointsOverAssignedTasks` proves it sums the kid's counts over its assigned tasks and is non-negative |
| TenMinOverview.KidPointsOf | src/components/dashboard/TenMinTasksOverview.tsx:34-50 | one entry per kid, in order, carrying that kid's points |
| TenMinOverview.MaxPoints | src/components/dashboard/TenMinTasksOverview.tsx:53 | the scale is at least 1, bounds every kid's points, and is 1 or some kid's points |
| TenMinOverview.SortedKidPoints | src/components/dashboard/TenMinTasksOverview.tsx:56 | the same entries, with points descending |
| TenMinOverview.LeaderHoldsMaximum | src/components/dashboard/TenMinTasksOverview.tsx:77-79 | a leader holds the maximum and is not falling behind; a kid is falling behind exactly when it has fewer points than the leader |
| TenMinOverview.SortedSameEntries | src/components/dashboard/TenMinTasksOverview.tsx:56 | sorting keeps the length and every entry |
| TenMinOverview.NoLeaderIffNoPoints | src/components/dashboard/TenMinTasksOverview.tsx:78 | there is no leader exactly when nobody has points |
| TenMinOverview.AllFallingBehindIffNoPoints | src/components/dashboard/TenMinTasksOverview.tsx:79 | every kid is shown as falling behind exactly when nobody has points |
| TenMinOverview.IsLeader | src/components/dashboard/TenMinTasksOverview.tsx:78 | no contract of its own; `LeaderHoldsMaximum` and `NoLeaderIffNoPoints` prove a leader holds the maximum and exists exactly when somebody has points |
| TenMinOverview.IsFallingBehind | src/components/dashboard/TenMinTasksOverview.tsx:79 | no contract of its own; `LeaderHoldsMaximum` and `AllFallingBehindIffNoPoints` prove it means fewer points than the leader |
| TenMinOverview.CountForAtMostSum | src/components/dashboard/TenMinTasksOverview.tsx:41-42 | one kid's count in a task is at most the sum of that task's counts |
| TenMinOverview.PointsAtMostTotal | src/components/dashboard/TenMinTasksOverview.tsx:158 | a kid's points never exceed the total completions shown in the footer |
| TenMinOverview.TotalCompletions | src/components/dashboard/TenMinTasksOverview.tsx:158 | no contract of its own; `PointsAtMostTotal` proves no kid's points exceed it |
| RegularTaskChart.ChartCounts | src/components/dashboard/RegularTaskChart.tsx:64-66 | one non-negative count per shown kid: its entry in the grouping, or zero |
| RegularTaskChart.MaxCount | src/components/dashboard/RegularTaskChart.tsx:38-44 | the scale is at least 1, bounds every shown kid's count, and is 1 or some shown kid's count |
| RegularTaskChart.ChartKidsAreAssigned | src/components/dashboard/RegularTaskChart.tsx:32-35 | the chart shows exactly the kids the task is for, in order |
| RegularTaskChart.ChartKids | src/components/dashboard/RegularTaskChart.tsx:32-35 | no contract of its own; `ChartKidsAreAssigned` proves it is all kids without assignments and otherwise exactly the assigned kids, in order |
| RegularTaskChart.ChartCountIsKidsCompletions | src/components/dashboard/RegularTaskChart.tsx:65-66 | a bar shows exactly the kid's number of completions of the task |
| RegularTaskChart.KidCountOf | src/components/dashboard/RegularTaskChart.tsx:65-66 | no contract of its own; `ChartCountIsKidsCompletions` proves it is the kid's number of completions of the task |
| RegularTaskChart.AllFallingBehindIffNoCompletions | src/components/dashboard/RegularTaskChart.tsx:70 | every shown kid is falling behind exactly when none has a completion |
| RegularTaskChart.IsFallingBehind | src/components/dashboard/RegularTaskChart.tsx:70 | no contract of its own; `AllFallingBehindIffNoCompletions` proves every shown kid is flagged exactly when no shown kid has a completion |
| RegularTaskChart.ShowsNoKidsAssigned | src/components/dashboard/RegularTaskChart.tsx:61-62 | no contract of its own; `NoKidsMessageIffNobodyAssigned` proves the message shows exactly when the task is for none of the listed kids |
| RegularTaskChart.NoKidsMessageIffNobodyAssigned | src/components/dashboard/RegularTaskChart.tsx:61-62 | the message shows exactly when the task is for none of the listed kids; a task without assignments shows it only when there are no kids |
| AddCompletionModal.SessionPin | src/components/dashboard/AddCompletionModal.tsx:34 | a missing stored PIN is sent as the empty string |
| AddCompletionModal.CompletionForm.constructor | src/components/dashboard/AddCompletionModal.tsx:12-15 | the form opens with no kid selected, no error, and not loading |
| AddCompletionModal.CompletionForm.NoKidsAlertIffNobodyAssigned | src/components/dashboard/AddCompletionModal.tsx:76-80 | the alert shows exactly when none of the kids is one the task is for; with no assignments, only when there are no kids |
| AddCompletionModal.CompletionForm.ShowsNoKidsAlert | src/components/dashboard/AddCompletionModal.tsx:76-80 | no contract of its own; `NoKidsAlertIffNobodyAssigned` proves the alert shows exactly when no listed kid is one the task is for |
| AddCompletionModal.CompletionForm.Select | src/components/dashboard/AddCompletionModal.tsx:64 | selecting a kid changes only the selection |
| AddCompletionModal.CompletionForm.HandleSubmit | src/components/dashboard/AddCompletionModal.tsx:22-46 | no selection gives "Please select a kid"; a server error is shown and changes nothing; on success exactly one log without minutes is appended and the form closes |
| TvPenaltiesOverview.FindPenalty | src/components/dashboard/TvPenaltiesOverview.tsx:20 | `find` gives a record of the kid, or none exactly when the kid has no record |
| TvPenaltiesOverview.KidPenalty | src/components/dashboard/TvPenaltiesOverview.tsx:19-27 | the kid's name and id with its found totals, or zeros |
| TvPenaltiesOverview.KidPenalties | src/components/dashboard/TvPenaltiesOverview.tsx:19-27 | one entry per kid, in order, zero for kids without a record |
| TvPenaltiesOverview.PenaltiesOfOtherKidsIgnored | src/components/dashboard/TvPenaltiesOverview.tsx:19-27 | records of kids who are not listed do not affect the board |
| TvPenaltiesOverview.SortedPenalties | src/components/dashboard/TvPenaltiesOverview.tsx:30 | the same entries, with minutes descending |
| TvPenaltiesOverview.MaxMinutes | src/components/dashboard/TvPenaltiesOverview.tsx:32 | the scale is at least 1, bounds every entry, and is 1 or some entry's minutes |
| TvPenaltiesOverview.ToneOnBoard | src/components/dashboard/TvPenaltiesOverview.tsx:47-58 | green exactly for zero minutes, red exactly for the non-zero maximum, and the top entry is red whenever it has minutes |
| TvPenaltiesOverview.ToneOf | src/components/dashboard/TvPenaltiesOverview.tsx:47-58 | no contract of its own; `ToneOnBoard` proves green exactly for zero minutes and red exactly for the non-zero maximum |
| TvPenaltiesOverview.PenaltyWord | src/components/dashboard/TvPenaltiesOverview.tsx:76 | singular exactly for a count of one |
| TvPenaltiesOverview.TotalIndependentOfOrder | src/components/dashboard/TvPenaltiesOverview.tsx:105 | the footer total over the sorted board equals the total over the unsorted entries |
| TvPenaltiesOverview.TotalMinutes | src/components/dashboard/TvPenaltiesOverview.tsx:105 | no contract of its own; `TotalIndependentOfOrder` proves the footer total does not depend on the sort |
| FairnessPanel.Leaderboard | src/components/dashboard/FairnessPanel.tsx:14-16 | the same entries, with completions descending |
| FairnessPanel.PositionColorOnLeaderboard | src/components/dashboard/FairnessPanel.tsx:18-36 | on the leaderboard, green exactly for a tie with the top and yellow exactly for a tie with the bottom that is not the top; the first place is green |
| FairnessPanel.AllGreenIffPerfect | src/components/dashboard/FairnessPanel.tsx:18-36 | every row is green exactly when the fairness score is 0 |
| FairnessPanel.FairnessLabelNamesScore | src/components/dashboard/FairnessPanel.tsx:81-85 | different scores get different labels, and a label of 2 or more starts with the score in decimal |
| FairnessPanel.TonesOrdered | src/components/dashboard/FairnessPanel.tsx:72-123 | a larger score never gets a better colour; the monthly thresholds (2, 5) are never stricter than the weekly ones (1, 3); 0 is green |
| FairnessPanel.GetPositionColor | src/components/dashboard/FairnessPanel.tsx:18-36 | no contract of its own; `PositionColorOnLeaderboard` and `AllGreenIffPerfect` state its colours on the leaderboard |
| FairnessPanel.FairnessLabel | src/components/dashboard/FairnessPanel.tsx:81-85 | no contract of its own; `FairnessLabelNamesScore` proves the labels are distinct and name the score |
| FairnessPanel.WeeklyTone | src/components/dashboard/FairnessPanel.tsx:72-79 | no contract of its own; `TonesOrdered` proves it is monotone in the score and green at 0 |
| FairnessPanel.MonthlyTone | src/components/dashboard/FairnessPanel.tsx:116-123 | no contract of its own; `TonesOrdered` proves it is monotone and never stricter than the weekly tone |
| TaskOrdering.Moved | src/components/dashboard/TaskOrdering.tsx:39-53 | a move at the boundary changes nothing; otherwise the entry swaps with its neighbour and the rest stay |
| TaskOrdering.MoveBackRestores | src/components/dashboard/TaskOrdering.tsx:39-53 | moving down and then back up (or up and then down) restores the list |
| TaskOrdering.TaskOrderingPanel.constructor | src/components/dashboard/TaskOrdering.tsx:35-37 | the panel starts with the given tasks, no changes and no error |
| TaskOrdering.TaskOrderingPanel.TasksChanged | src/components/dashboard/TaskOrdering.tsx:35-37 | new tasks from the server replace the working order |
| TaskOrdering.TaskOrderingPanel.MoveTask | src/components/dashboard/TaskOrdering.tsx:39-53 | the working order becomes the moved list, and the change flag is set exactly when something moved |
| TaskOrdering.TaskOrderingPanel.HandleSave | src/components/dashboard/TaskOrdering.tsx:55-82 | not unlocked, then no stored PIN, gives its message and changes nothing; otherwise the server renumbers the tasks and the change flag clears only on success |
| TaskOrdering.TaskOrderingPanel.HandleReset | src/components/dashboard/TaskOrdering.tsx:84-88 | the working order goes back to the server's, with no changes and no error |
| Navigation.LinksByAuthentication | src/components/Navigation.tsx:43-57 | the base links always come first; the protected links show exactly when authenticated, and every link offered is a base or a protected one |
| Navigation.ActiveMatchesPrefix | src/components/Navigation.tsx:59-64 | `/` is active on `/` alone and on none of its extensions; any other link is active exactly when its `href` is a character prefix of the path, and stays active whatever is appended to the path |
| Navigation.HrefsPrefixFree | src/components/Navigation.tsx:43-57 | no link target other than `/` is a prefix of another |
| Navigation.AtMostOneActive | src/components/Navigation.tsx:59-64 | at most one link is highlighted on any path |
| Navigation.IsActive | src/components/Navigation.tsx:59-64 | no contract of its own; `ActiveMatchesPrefix` characterises it and `AtMostOneActive` shows it highlights at most one link |
| Navigation.AllLinks | src/components/Navigation.tsx:57 | no contract of its own; `LinksByAuthentication` proves the base links come first and the protected links are present exactly when authenticated |
| Navigation.ShowsUnlock | src/components/Navigation.tsx:91-99 | no contract of its own; the Unlock button shows exactly while the session is locked, the same condition under which `LinksByAuthentication` proves the protected links are withheld |

## Left out

- Database access, `revalidatePath` and `router.refresh` are not modelled. The database is the `Store` object; a refresh after success is the form's `closed` flag.
- The wall clock is a parameter (`now`, `startDate`, `endDate`). The 14-day default of `getRecentCompletions` and the date arithmetic that computes it are not modelled.
- Database identities are natural numbers from a counter, not generated strings.
- String order is by code point; the database collation is not modelled.
- Creation timestamps of kids and tasks are not modelled.
- Prisma's error messages are modelled as two errors, "record not found" and "foreign key violation", with simplified wording.
- zod validation reports only the first failing field (name or title, then group). Its full error object is not modelled.
- Minutes are integers. Fractional numbers and the percentage widths of the bars are not modelled.
- React state hooks, effects, polling of the PIN requirement and `sessionStorage` are not modelled. The stored PIN and the authentication flag are parameters.
- TaskOrdering.TaskOrderingPanel.HandleSave: the transient `isSaving` flag is not modelled. The concurrent `Promise.all` updates are modelled as sequential updates in list order, so a repeated id keeps its last index, where the source's outcome is a race.
- AddCompletionModal.CompletionForm.HandleSubmit: the `loading` flag is modelled only as cleared at the end.
- Analytics.GetKidStats: kids are listed in store (insertion) order. `findMany` without `orderBy` guarantees no order, so that order is not modelled.
- Analytics.CompletionsByKid: kids appear in order of their first completion in store order. The logs query in src/lib/analytics.ts:58-67 has no `orderBy`, so the database's order is not modelled.
- Analytics.AssignedKidsOf: assigned kids follow the assignment table's insertion order, and so does `Records.ActiveAssignments`. The database gives no such guarantee.
- Analytics.GetTvPenaltyStats: kids are listed in store order, as in `GetKidStats`.
- Sleeping.Latest: the latest arrangement is the last record appended. The source asks for the newest `createdAt` (src/actions/sleeping.ts:14-18); timestamps are not modelled, and the two agree when records are created in time order.
- Duplicate kid ids in a task's assignment list are stored as given.
- The quick actions (`logQuickTenMinuteTask`, `logTvPenalty`), login logs, pages, forms, lists, the history table and the seed script are not part of this model.
- An absent `assignedKids` property in the components is treated as an empty list.

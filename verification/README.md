# Quest board: a verified model of the task pipeline

This project models the decision logic of a small quest board. People post
help requests ("quests") with a location. An AI moderation call screens each
submission, and two generation calls derive a title and a time/size estimate.
The task is then stored in a Convex `tasks` table. Viewers see the stored
tasks on two tabs, open and completed, minus the tasks they have downvoted.
They complete a task with an answer, or downvote it.

The model has seven modules:

- `Common` (common.dfy): task records (`ClientTask`, `Task` with an optional
  `answer`), ids, faults, `Option` and `Result`.
- `TaskTable` (task_table.dfy): the table as a value (`Db`: records by id,
  ids in insertion order, the next id). The four mutations of
  `convex/task.ts` are one function, `Apply`; `Run` issues them in sequence.
  `AllTasks` and `CompletedTasks` are the two queries. The lemmas cover
  freshness of ids, "only this field changes", idempotence, the two-step
  completion and deletion.
- `TaskStore` (task_store.dfy): class `Store`, the table as a mutable object
  (a map, an id sequence and a counter). Each mutation method is proved to
  match `TaskTable.Apply`.
- `Visibility` (visibility.dfy): the tab lists of `src/App.tsx`. Each one
  filters on `completed`, drops downvoted ids, copies and reverses.
- `QuestApp` (app.dfy): class `App`. It holds the store, the viewer's
  `downvotedTasks` list and the dialog flag. The card and form callbacks are
  written as sequences of store calls.
- `Ai` (ai.dfy): what `src/ai.ts` does with the vendor replies: quote
  stripping, the truthiness check on the estimate, and the reduction of the
  moderation result.
- `Intake` (intake.dfy): `handleSubmit` of `NewTaskForm.tsx`. `Form.HandleSubmit`
  is the imperative handler. Its early returns are breaks out of a labelled
  block, followed by the `finally` part. `Submission` is its specification:
  the outcome plus the trace of calls it makes.

The vendor calls (Cohere chat, OpenAI moderation) and `JSON.parse` are
oracles. Each one is a `Result` argument, `Err` when the call throws. Every
call is modelled as sequential, in the order the code issues it.

Behaviour of the code worth knowing:

- An estimate of `time = 0` is refused, because the check tests truthiness.
  This is proved as `Ai.ZeroTimeRefused`.
- `generateTitle` and `estimateTimeAndSize` are awaited one after the other,
  not concurrently.
- Completing a task twice is a silent no-op.
- `createTask` does no validation beyond the argument types.

## Model

| member | source | states |
|---|---|---|
| TaskTable.Apply | convex/task.ts:21-73 | createTask always succeeds and returns the current counter as the new id, and the counter moves on. A patch or delete of an id not in the table throws NotFound and leaves the table unchanged. Every mutation keeps the table well formed: ids unique, listed once, below the counter. |
| TaskTable.Without | convex/task.ts:71 | deleting an id from the insertion order keeps exactly the other ids and keeps them distinct |
| TaskTable.Collect | convex/task.ts:7 | the scan returns one record per listed id, the i-th being the record stored under the i-th id |
| TaskTable.AllTasks | convex/task.ts:4-9 | allTasks has one entry per listed id, in insertion order, each the record stored under its own id |
| TaskTable.AllTasksMembers | convex/task.ts:4-9 | a task is in allTasks exactly when it is the record stored under its id |
| TaskTable.FilterCompleted | convex/task.ts:16 | the filter keeps exactly the tasks with the wanted `completed` flag and never lengthens the list |
| TaskTable.CollectWhere | convex/task.ts:14-17 | the filtered scan returns only tasks with the wanted flag and no more entries than ids |
| TaskTable.CompletedTasks | convex/task.ts:11-19 | completedTasks returns only completed tasks |
| TaskTable.CompletedTasksIsFilteredAll | convex/task.ts:4-19 | completedTasks equals allTasks filtered to `completed = true`, in the same relative order |
| TaskTable.CollectWhereIsFilter | convex/task.ts:14-17 | filtering during the scan gives the same list as scanning and then filtering |
| TaskTable.FilterCompletedAppend | convex/task.ts:16 | the filter works piece by piece (filter of a + b is filter of a then filter of b), so it keeps relative order |
| TaskTable.FilterCompletedIdempotent | src/App.tsx:23 | filtering on the flag twice is filtering once |
| TaskTable.CreateTaskAddsOne | convex/task.ts:29-57 | createTask returns an id not in the table and adds exactly one record under it. The record has the six argument fields, `completed = false` and no answer. Every existing record is unchanged, the size grows by one, and allTasks gains the record at its end. |
| TaskTable.UpdateTaskCompletionSetsOnlyCompleted | convex/task.ts:21-27 | updateTaskCompletion sets `completed` to true and leaves every other field of the record, every other record, the order and the counter unchanged. A missing id throws NotFound and changes nothing. |
| TaskTable.UpdateTaskCompletionIdempotent | convex/task.ts:21-27 | applying updateTaskCompletion twice equals applying it once |
| TaskTable.UpdateTaskWithAnswerOverwrites | convex/task.ts:59-65 | updateTaskWithAnswer sets `answer` whatever it was before and changes nothing else. A missing id throws NotFound and changes nothing. |
| TaskTable.LastAnswerWins | convex/task.ts:59-65 | of two answers written one after the other, the second is the one kept |
| TaskTable.CompleteThenAnswer | convex/task.ts:21-27 | updateTaskCompletion then updateTaskWithAnswer leaves the task with `completed = true` and `answer = s`, whatever its prior state, and changes nothing else. For a missing id both calls throw and nothing changes. |
| TaskTable.DeleteTaskRemovesOnlyIt | convex/task.ts:67-73 | deleteTask removes exactly that id from the records and from the order, shrinks the table by one, leaves every other record and the counter unchanged, and throws NotFound for a missing id. The remaining ids, and allTasks, keep their order with only the deleted position cut out. |
| TaskTable.Deleted | convex/task.ts:67-73 | the table deleteTask leaves behind is still well formed |
| TaskTable.DeletedRecords | convex/task.ts:71 | the delete takes out exactly the one record, and every other record is untouched |
| TaskTable.WithoutAbsent | convex/task.ts:71 | removing an id that is not listed leaves the listing unchanged |
| TaskTable.WithoutSplice | convex/task.ts:71 | removing a listed id leaves the ids before it and after it in their order, closing the gap |
| TaskTable.DeleteClosesGap | convex/task.ts:67-73 | after deleteTask of the id at listing position k, both the id listing and allTasks are the old ones with position k cut out |
| TaskTable.CollectClosesGap | convex/task.ts:7 | collecting a listing with one id cut out, from the table without that record, equals the full collection with that record cut out |
| TaskTable.CollectAppend | convex/task.ts:7 | collecting two listings one after the other equals collecting their concatenation |
| TaskTable.CollectDrop | convex/task.ts:7 | a record the listing does not name plays no part in collecting it |
| TaskTable.RunIssuesFreshIds | convex/task.ts:47 | over any sequence of mutations, deletions included, createTask returns strictly increasing ids, all at or above the starting counter, so no id ever issued is issued again, and the table stays well formed |
| TaskTable.RunTwo | convex/task.ts:21-65 | two mutations issued in a row are the second applied to the result of the first |
| TaskStore.Store.constructor | convex/task.ts:4-9 | a new table is empty and well formed |
| TaskStore.Store.CreateTask | convex/task.ts:29-57 | the in-place insert does exactly what TaskTable.Apply says createTask does and keeps the table well formed |
| TaskStore.Store.UpdateTaskCompletion | convex/task.ts:21-27 | the in-place patch of `completed` does exactly what TaskTable.Apply says, NotFound included |
| TaskStore.Store.UpdateTaskWithAnswer | convex/task.ts:59-65 | the in-place patch of `answer` does exactly what TaskTable.Apply says, NotFound included |
| TaskStore.Store.DeleteTask | convex/task.ts:67-73 | the in-place delete does exactly what TaskTable.Apply says, NotFound included, and leaves the counter alone |
| Visibility.WithoutDownvoted | src/App.tsx:24 | keeps exactly the tasks whose id is not in `downvotedTasks` and never lengthens the list |
| Visibility.Reverse | src/App.tsx:25-26 | the copy-and-reverse puts element i at position n-1-i and keeps every element |
| Visibility.TabList | src/App.tsx:20-41 | a tab list holds exactly the input tasks whose `completed` flag matches the tab and whose id is not downvoted, and is never longer than the input |
| Visibility.TabsPartition | src/App.tsx:20-41 | the two tab lists share no task, and together they hold exactly the non-downvoted tasks, each as many times as the input has it |
| Visibility.NewestFirst | src/App.tsx:25-26 | a task appended to the store goes at the head of the tab list that keeps it, and the rest of that list is unchanged |
| Visibility.ThreeOpenNewestFirst | src/App.tsx:20-28 | open tasks t1, t2, t3 stored in that order show as [t3, t2, t1] |
| Visibility.AllKept | src/App.tsx:20-41 | a list whose every task the tab keeps comes out whole, reversed |
| Visibility.KeptAppend | src/App.tsx:22-24 | the two filters keep the relative order of the tasks they keep |
| Visibility.TabListIsReversedStoreOrder | src/App.tsx:20-41 | each tab list reversed is the store order restricted to the kept tasks |
| Visibility.KeptIdempotent | src/App.tsx:22-24 | applying the two filters to their own output changes nothing |
| Visibility.RefilterKeepsSameTasks | src/App.tsx:20-41 | deriving a tab list again from an already derived one keeps the same tasks; only the order flips back |
| QuestApp.App.constructor | src/App.tsx:17-19 | the page starts with the given store and downvoted list and the dialog closed |
| QuestApp.App.NotCompletedTasks | src/App.tsx:18-28 | the todo tab shows exactly the stored open tasks whose ids are not downvoted |
| QuestApp.App.CompletedTasks | src/App.tsx:33-41 | the completed tab shows exactly the stored completed tasks whose ids are not downvoted |
| QuestApp.App.OnComplete | src/App.tsx:60-70 | on the todo tab the handler issues updateTaskCompletion and then updateTaskWithAnswer with the notes. On the completed tab (line 90) it issues nothing. `downvotedTasks` is never changed. |
| QuestApp.App.OnDownvote | src/App.tsx:71-73 | downvoting, on either tab (also lines 91-93), is deleteTask on the shared table; `downvotedTasks` is never changed |
| QuestApp.App.OnSubmit | src/App.tsx:111-120 | onSubmit forwards the six fields other than `completed` to createTask unchanged. The new record has a fresh id, those fields, `completed = false` and no answer. |
| QuestApp.App.OnClose | src/App.tsx:121 | onClose closes the new-quest dialog and touches nothing else |
| Ai.StripQuotes | src/ai.ts:13 | the title contains no `"` and is no longer than the reply |
| Ai.StripQuotesMembers | src/ai.ts:13 | a character is in the title exactly when it is in the reply and is not `"` |
| Ai.GenerateTitle | src/ai.ts:3-14 | a failed chat call propagates. Otherwise the title is the reply without quotes: no longer, and with the same other characters. |
| Ai.StripQuotesAppend | src/ai.ts:13 | quote stripping works piece by piece, so the other characters keep their order |
| Ai.StripQuotesKeepsQuoteFree | src/ai.ts:13 | a text without quotes is returned exactly as it is |
| Ai.StripQuotesIdempotent | src/ai.ts:13 | stripping quotes twice is stripping them once |
| Ai.StripQuotesLength | src/ai.ts:13 | the title is shorter than the reply by exactly the number of quotes in the reply |
| Ai.EstimateTimeAndSize | src/ai.ts:58-63 | a failed call or parse propagates. The parsed object passes exactly when `size` is present and non-empty and `time` is present and non-zero, and is then returned unchanged. Otherwise the function throws InvalidEstimate. |
| Ai.ZeroTimeRefused | src/ai.ts:60-62 | a time of 0 is refused, whatever the size, although the prompt on line 43 defines 0 as "less than 1 minute" |
| Ai.AnyNonZeroTimeAndSizeAccepted | src/ai.ts:60-63 | any non-zero time, negative ones included, and any non-empty size, not only small/medium/large, is accepted unchanged |
| Ai.ModerationCheck | src/ai.ts:72-73 | a failed moderation call propagates, an empty result list throws, and otherwise the answer is true exactly when the first result has `flagged === true` |
| Ai.OnlyFirstResultCounts | src/ai.ts:73 | results after the first never change the verdict |
| Intake.NoLocationNoCalls | src/components/NewTaskForm.tsx:85-91 | with no location the handler returns before any moderation, AI call, onSubmit or onClose; it only toggles `loading` |
| Intake.ModeratesDescriptionByRequester | src/components/NewTaskForm.tsx:99 | the first call is moderation of `description + " By " + requester` |
| Intake.BlockedStopsAfterModeration | src/components/NewTaskForm.tsx:99-117 | if moderation flags the text, the handler ends without calling generateTitle, estimateTimeAndSize, onSubmit or onClose |
| Intake.StagesInOrder | src/components/NewTaskForm.tsx:84-146 | the stages come in pipeline order, each at most once: moderation, then title, then estimate, then onSubmit, then onClose. So generateTitle is awaited before estimateTimeAndSize, and onSubmit is called at most once. |
| Intake.LoadingBrackets | src/components/NewTaskForm.tsx:85 | `loading` is set true first and false last on every path (no location, blocked, error, success), and nothing in between changes it; the reset is at lines 143-145 |
| Intake.SubmitsOnlyWhenEverythingPassed | src/components/NewTaskForm.tsx:119-140 | onSubmit is reached exactly when there is a location, moderation does not flag and both inferences return. It is then called once, after both awaits, with `completed: false`, the generated title with its quotes removed (`StripQuotes` of the chat reply), and the parsed time and size. |
| Intake.FailureSkipsSubmitAndClose | src/components/NewTaskForm.tsx:86-142 | if any awaited call throws, neither onSubmit nor onClose is reached |
| Intake.CloseOnlyAfterSubmit | src/components/NewTaskForm.tsx:132-142 | onClose is only called after onSubmit has been called |
| Intake.Form.constructor | src/components/NewTaskForm.tsx:20-25 | a form holds its fields, is not loading, and has done nothing yet |
| Intake.Form.HandleSubmit | src/components/NewTaskForm.tsx:84-146 | the handler's outcome and calls are those of `Submission`, and `loading` is false afterwards. The store changes only by the one createTask of a submitted task, and otherwise not at all. The dialog closes only on success, and `downvotedTasks` is untouched. |

## Left out

- Convex durability, reactivity and transactions are not modelled; each mutation is one atomic step. onComplete (src/App.tsx:65-69) and onSubmit (src/App.tsx:112) issue their mutations without awaiting them, while onDownvote awaits deleteTask (src/App.tsx:72, :92); the model runs every call to completion in the order issued.
- `_creationTime` is not modelled. The table's insertion order stands for it: that is the order `collect()` returns, and the tab lists reverse it.
- Document ids are natural numbers drawn from a counter. Convex ids are opaque strings.
- `timeEstimate` is an integer (the estimate schema asks for one); JavaScript floating-point numbers are not modelled.
- Ai.EstimateTimeAndSize: JSON values outside the schema (a string time, a numeric size, a non-object reply) are not modelled. A missing or null field is `None`. So the model does not show what the truthiness check does with such values.
- Ai.ModerationCheck: `flagged` is a boolean, as the moderation API types it, so `=== true` is the identity here.
- The prompts sent to Cohere, the API keys and the client objects are not modelled. Nor is the text the vendors return, beyond the oracle reply.
- Geolocation and permission effects (src/components/NewTaskForm.tsx:27-82) are browser I/O and are not modelled. The location is an opaque string, already formatted as `lat,lng` (float formatting is left out). A form is built with its field values as they are at submit time.
- The recursive `fib(60)` busy-work on the blocked path is not modelled. It has no effect on state, so the blocked path is a plain return.
- `alert`, `toast`, `posthog.capture`, `console.log` and `e.preventDefault()` are UI and analytics side effects, and are not modelled.
- src/components/TaskCard.tsx is not part of this model: its distance and coordinate parsing are floating point, and the rest is UI. So are LocationMarker.tsx, main.tsx and counter.tsx.
- React rendering, `useMemo` caching and the `tasks === undefined` loading state ("No tasks") are not modelled; the tab lists are derived from a loaded table.

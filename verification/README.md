# ColonyOS server core, modelled and proved in Dafny

A Dafny model of the parts of the Colonies server that carry its guarantees, with proofs of those guarantees. It covers:

- **The workflow engine**: the walk over a process graph, `Resolve`, building a graph from a specification, growing a
  live graph, and the assign, unassign and close handlers, as a state machine over arbitrary finite graphs. Main results:
  dependency order in every state of every run, no deadlock with or without failures, every run that does something ends,
  a submitted specification can be completed exactly when it is acyclic, when exactly a graph is shown as successful
  although a process is not, finality of a finished graph, and the exact effect of `Resolve` on every graph.
- **The cron schedule**: field text to bit set to a wrap-around search. Main result: an expression is accepted exactly
  when it is written in the notation, and the answer is the earliest second that the notation names, or none exactly when
  there is none within the horizon.
- **Scheduling and triggering**: priority times in 64-bit arithmetic, the choice of the process to hand out, conservation
  of packed generator arguments, the cron trigger loop, the two-map listener index.
- **Directory synchronisation**: the three-way plan and its application by workers in any order, as convergence.
- **CPU and memory quantities**: printing and parsing.

`dafny verify dfyconfig.toml` checks everything.

## How the model is built

Every imperative part of the source is a class or a method with a loop (`Visits`, `Database`, `Handlers`, `Tables`,
`EventHandler`, `CronStore`, `Next`, `GetField`, ...), proved equal to a function of the old state; the properties are
then proved about those functions, for all inputs and all runs.

| file | contents |
|---|---|
| `ProcessGraph`, `Resolve` | processes, reachability, the walk, the counters, `Resolve` |
| `IncompleteGraphs` | `Resolve` when some processes are not stored: errors and crashes |
| `Workflow`, `Runs`, `NamedChild`, `Controller` | well-formed graphs, steps and runs, `addChild`, the handlers |
| `Submission`, `SubmittedRuns`, `Cycles`, `CutOff` | `VerifyWorkflowSpec`, `createProcessGraph`, runs of submitted graphs, cyclic ones included |
| `Calendar`, `CronSchedule`, `Words` | the Gregorian calendar in UTC, the search for the next activation, 64-bit words |
| `CronParser`, `CronNotation`, `CronExpression` | the field parser, the notation and its meaning, from text to next activation |
| `Scheduling`, `Generators`, `CronTrigger`, `Events` | selection, generators, the cron loop, the event handler |
| `Sync` | sync plans and workers |
| `Quantities`, `Text`, `Collections` | unit parsing, decimal text and splitting, shared definitions |

Conventions and findings:

- The database is a map. Each controller handler is one atomic step and a refused step changes nothing. The guards of the
  transitions are those of pkg/database/postgresql/processes.go: only released, unassigned waiting processes are handed
  out, a waiting or failed process cannot be marked successful, a finished one cannot be marked failed.
- `unassignExecutor` and the database's `Unassign` check nothing. The step of a run is what their caller, the timeout loop,
  does with a running process; `Runs.UnassignKeepsOrderIff` says exactly when an unguarded call is harmless.
- `GetProcessByID` returns neither a row nor an error for an id that is not stored. Where the code then reads a field of
  the result, the server goes down. Handlers therefore end in one of three ways: normally, with an error, or with a crash.
  `Resolve` crashes on a listed parent that is not stored yet, which is the race that the ten retries of `assign` were meant
  to survive; the process stays assigned and running (`IncompleteGraphs.SecondParentNotStored`).
- `Iterate` takes a visiting function. Its effect is modelled by the order in which ids are visited; `Resolve` has its
  visiting function written into the walk.
- Clocks, random ids, the success of storage calls and the order of map walks are parameters or arbitrary choices.
- A failed process without children does not fail the rest of its graph (`Runs.FailureReach`).
- Cyclic specifications are not rejected. They can never be completed (`Cycles.CompletableIffAcyclic`), but may be shown as
  successful: `CutOff.ShowsSuccessIff` says exactly when, `CutOff.CyclicSpecificationLooksFinished` is an instance. The
  results about safe runs assume an acyclic specification.
- A cron that waits for its previous graph can lose track of it when it starts while its expression names nothing up to the
  search horizon, as one for 29 February does in 2096 (`CronTrigger.LeapDayCronLosesTrack`), or when its specification has
  an unknown dependency, which the handler that adds crons rules out; `CronTrigger.StepKeepsInvIff` says it exactly.
- Only plain submissions check the priority. A workflow can ask for one that wraps around 64 bits
  (`Scheduling.UncheckedPriorityWraps`).
- The arguments of a generator go to root processes only; a workflow without a root loses them
  (`Generators.ArgumentsReachIff`).
- Resolving a conflict with an empty remote file reports an error, yet leaves the two sides equal for that name, since the
  local file has been truncated by then (`Sync.WorkerStep`).
- Subscribers may ask for any state number, and the listener key is the executor type followed by that number, so a
  listener can get signals it did not ask for; `Events.ProcessSignalsAreExactIff` says for which numbers it cannot.
- In a cron field, `*-` followed by anything is accepted as `*`; the notation of `CronNotation` includes this.
- Direct submission of a workflow does not call `VerifyWorkflowSpec` (only the cron and generator handlers do), so an
  unknown dependency can leave a stored graph without processes; `Submission.CreateProcessGraph` states this.
- In append mode with a named child, `addChild` checks neither the state nor the position of the child;
  `NamedChild.AppendAboveKeepsInvIff` gives the exact condition.
- `Resolve` counts a process before it spreads a failure, so a failed parent outside the graph can go unnoticed in the
  graph state; `Resolve.ResolveGraphStateIff` gives the exact condition.
- Whether a memory text such as `5KB` is accepted depends on the order of a map walk;
  `Quantities.SuccessIsOrderIndependentIff` gives the exact condition.

## Model

| member | source | states |
|---|---|---|
| ProcessGraph.VisitIsExact | pkg/core/processgraph.go:464-512 | on every finite graph, cyclic or not, the walk finishes exactly when all reachable ids are stored, and then visits each reachable process once and nothing else; otherwise it stops at a reachable id that is missing |
| ProcessGraph.IterateFrom | pkg/core/processgraph.go:478-512 | the recursion over the shared visited map terminates and does what the work-list walk does, including where it stops |
| ProcessGraph.Iterate | pkg/core/processgraph.go:464-476 | the visits made from all roots are those of the work-list walk |
| ProcessGraph.CountProcesses | pkg/core/processgraph.go:392-443 | the four state counters are those of the reachable processes, each counted once, and add up to the number of processes; an error exactly when a reachable id is missing |
| ProcessGraph.CountsAddUp | pkg/core/processgraph.go:392-443 | the four counters add up to the number of visits |
| ProcessGraph.CountMeaning | pkg/core/processgraph.go:401-443 | a counter is full exactly when all visited processes have the state and positive exactly when one has |
| Resolve.ScanOutcome | pkg/core/processgraph.go:159-196 | the loop over parents fails the whole graph exactly when one parent has failed, and reaches the full count exactly when all have succeeded, even though the nested walk changes states under it |
| Resolve.VisitOutcome | pkg/core/processgraph.go:149-203 | one visit fails the whole graph, releases the process, or changes nothing |
| Resolve.ResolveEffect | pkg/core/processgraph.go:146-221 | if a reachable process has a failed parent every reachable process ends failed, otherwise no state changes and exactly the reachable processes whose parents all succeeded are released; no flag is ever set, no link changes, nothing outside the graph is touched |
| Resolve.ResolveGraphState | pkg/core/processgraph.go:206-216 | when all listed parents are reachable, the graph state is the fixed function (any failed, all successful, some started, waiting) of the resulting states |
| Resolve.ResolveGraphStateIff | pkg/core/processgraph.go:149-216 | without that hypothesis, the graph state is right exactly unless no process had failed and only the last one visited has a failed parent |
| Resolve.UnreachableParentHidesFailure | pkg/core/processgraph.go:149-216 | a graph with a running root and a process that also depends on a failed process of another graph: both fail while the graph is computed as running |
| Resolve.ResolveIsIdempotent | pkg/core/processgraph.go:146-221 | on every complete graph, resolving again changes no process, and changes the graph state exactly when the first time overlooked a failure |
| Resolve.ResolveOnlyFails | pkg/core/processgraph.go:146-221 | also when it stops with an error half-way, no link changes and states only ever become failed |
| Resolve.FailGraph | pkg/core/processgraph.go:184-191 | the nested walk fails exactly what it visits, up to the id where it stops |
| Resolve.ResolveOne | pkg/core/processgraph.go:149-203 | the visiting function over the database does one visit and counts the state the process had before it; it says whether the walk went on, met an error, or crashed on a missing parent |
| Resolve.ResolveFrom | pkg/core/processgraph.go:478-512 | the recursion that reads children from a store it is changing agrees with the work-list form |
| Resolve.ResolveGraph | pkg/core/processgraph.go:146-221 | the stored processes, the stored graph state and the way it ends (normally, with an error, with a crash) are those of the specification; the graph state is written only at a normal end |
| IncompleteGraphs.ResolveEndsIff | pkg/core/processgraph.go:146-221 | `Resolve` finishes exactly when all reachable processes and their parents are stored, and crashes exactly when, in walking order, the first process with a parent that ends the walk has a missing one first |
| IncompleteGraphs.MissingParentCrashes | pkg/core/processgraph.go:175-180 | when all reachable processes are stored `Resolve` never returns an error: it finishes, or crashes exactly when some parent is not stored |
| IncompleteGraphs.SecondParentNotStored | pkg/server/colonies_controller.go:1243-1277 | a graph whose child is stored before its second parent: assigning the first parent crashes and leaves it running |
| Workflow.AcyclicIffNoCycle | pkg/core/processgraph.go:478-512 | processes can be ranked above their parents exactly when no chain of parent links returns to its start |
| Workflow.WellFormedReachesAll | pkg/core/processgraph.go:464-512 | in a well-formed graph every stored process is reachable from the roots, with all its parents |
| Workflow.InsertEffect | pkg/server/colonies_controller.go:432-459 | after an insertion the parent has one child, the new process has the former children, and each of those depends on the parent only through it; nothing else changes |
| Workflow.InsertKeepsWellFormed | pkg/server/colonies_controller.go:432-459 | mutually inverse links, acyclicity and roots as the parentless processes survive an insertion |
| Workflow.AppendKeepsWellFormed | pkg/server/colonies_controller.go:460-463 | they survive an append without a named child |
| Workflow.AppendEffect | pkg/server/colonies_controller.go:460-463 | after an append the new process waits for the parent and is its last child, and nothing else has changed |
| Runs.ResolveRestores | pkg/core/processgraph.go:146-221 | from any well-formed state in which nothing started or was released early, `Resolve` succeeds at once and restores the whole invariant |
| Runs.InsertKeepsInv | pkg/server/colonies_controller.go:411-459 | inserting below a running process keeps the invariant of a run |
| Runs.AppendKeepsInv | pkg/server/colonies_controller.go:411-463 | appending below a running process keeps it |
| Runs.StepKeepsInv | pkg/server/colonies_controller.go:1167-1325 | every step keeps it: assign, timeout unassign, both closes, insert, append; it includes that a failed parent has failed everything |
| Runs.RunKeepsInv | pkg/server/colonies_controller.go:950-1325 | it holds in every state of every run |
| Runs.DependencySafety | pkg/server/colonies_controller.go:950-1308 | in every state of every run a running, successful or released process has only successful parents, and the graph is still acyclic with inverse links |
| Runs.NoDeadlock | pkg/core/processgraph.go:146-221 | in every state of every run, failures or not, all processes have succeeded or failed, or one is running, or one can be handed out |
| Runs.CanFinish | pkg/server/colonies_controller.go:950-1308 | from every state of every run some continuation of effective steps finishes every process, and everything that has not failed by then succeeds |
| Runs.EffectiveRunsEnd | pkg/server/colonies_controller.go:950-1308 | every run of effective assign and close steps is at most as long as what remained, two steps a process, and nothing effective is left exactly when every process has succeeded or failed |
| Runs.AssignEffect | pkg/database/postgresql/processes.go:851-888 | handing out a waiting, free and released process makes it running and the executor's, changes no other state and no link; any other request changes nothing |
| Runs.SuccessReleases | pkg/server/colonies_controller.go:950-990 | closing a running process as successful changes no other state, and a waiting process can be handed out afterwards exactly when all its parents have succeeded |
| Runs.TimeoutReturns | pkg/server/colonies_controller_worker.go:48-71 | a running process that is put back is waiting, free, released and without executor, everything else is unchanged, and handing it out again is an effective step |
| Runs.OnlyOwnerAddsChild | pkg/server/colonies_controller.go:411-430 | a child is added exactly by the executor that runs the parent, under a new id; any other request changes nothing |
| Runs.OnlyErrorsAreRetried | pkg/server/colonies_controller.go:1249-1277 | success and a crash end the attempts at `Resolve` at once |
| Runs.FailureReach | pkg/server/colonies_controller.go:1105-1152 | closing a process as failed fails every process if it has a child and no other process otherwise; the graph is failed in both cases |
| Runs.FinishedIsFinal | pkg/core/processgraph.go:206-216 | a graph state that is successful or failed never changes again |
| Runs.DefunctAssignment | pkg/server/colonies_controller.go:1249-1277 | when `Resolve` keeps returning errors, the assigned process ends failed, and the graph is marked failed exactly when the interrupted walks had not failed that process already |
| Runs.CrashedAssignment | pkg/server/colonies_controller.go:1249-1277 | when `Resolve` crashes nobody cleans up: the graph state is unchanged and the process stays assigned, running unless something in the graph had failed |
| Runs.UnassignKeepsOrderIff | pkg/database/postgresql/processes.go:890-920 | the unguarded unassign keeps the dependency order exactly when the process is ready if released and, if it had succeeded, no dependant has started or been released; for a running process it always does |
| Runs.UnassignAfterSuccess | pkg/database/postgresql/processes.go:890-920 | a two-process graph in which it does not |
| NamedChild.AppendAboveKeepsInvIff | pkg/server/colonies_controller.go:460-475 | append mode with a named child keeps the invariant exactly when that child is stored, is no root, is neither the parent nor an ancestor of it, and is failed or still held back |
| NamedChild.AppendAboveReleasedRoot | pkg/server/colonies_controller.go:460-475 | a two-process graph in which it does not |
| Controller.Handlers.HandleDefunct | pkg/server/colonies_controller.go:1154-1165 | fails the process and the graph, or neither |
| Controller.Handlers.HandleAssign | pkg/server/colonies_controller.go:1167-1308 | is the assign step, with up to ten attempts at `Resolve`; ends as the last attempt does, a crash ending it at once; in a run it always succeeds |
| Controller.Handlers.AssignNext | pkg/server/colonies_controller.go:1167-1308 | in a run, an executor gets a process exactly when one is eligible, then one that no eligible process precedes, running and its own; the request never fails and keeps the invariant |
| Controller.Handlers.HandleUnassign | pkg/server/colonies_controller.go:1310-1325 | puts the process back whatever its state, and crashes exactly when it is not stored |
| Controller.Handlers.HandleTimeout | pkg/server/colonies_controller_worker.go:48-71 | a running process whose deadline has passed is failed, as by the close-failed step, if its retries are used up, and otherwise waiting, free and without executor; nothing else changes |
| Controller.Handlers.HandleCloseSuccessful | pkg/server/colonies_controller.go:950-990 | is the close-successful step; crashes for a process that is not stored, refuses a waiting or failed one, otherwise ends as `Resolve` does |
| Controller.Handlers.HandleCloseFailed | pkg/server/colonies_controller.go:1105-1152 | is the close-failed step; refuses a missing, successful or failed process, otherwise ends as `Resolve` does |
| Controller.Handlers.HandleAddChild | pkg/server/colonies_controller.go:400-488 | is insertion, append, or append above a named child; says exactly when it succeeds, refuses or crashes, that only the executor running the parent succeeds, and that a crash leaves the links above the missing process written |
| Controller.RemoveAll | pkg/server/colonies_controller.go:450-456 | the inner loop drops every occurrence of the old parent and keeps the order |
| Submission.VerifyWorkflowSpec | pkg/server/verification.go:19-37 | accepts exactly when every dependency of every function spec that no later one of the same name hides is a known name |
| Submission.AcceptedHasNoUnknownDependency | pkg/server/verification.go:19-37 | with proper names, acceptance is exactly the absence of unknown dependencies |
| Submission.CollectNodes | pkg/server/colonies_controller.go:569-636 | fails exactly for a missing or duplicate name, with the error for the first function spec that has one; otherwise one node per function spec, held back exactly when it has dependencies, and the roots are those without |
| Submission.LinkOne | pkg/server/colonies_controller.go:645-655 | links one process to all its dependencies with multiplicity, or reports an unknown one |
| Submission.LinkNodes | pkg/server/colonies_controller.go:643-656 | whatever the map order, the parents are the named dependencies in order and the children mirror them with multiplicity; fails exactly for an unknown dependency |
| Submission.WriteAll | pkg/server/colonies_controller.go:658-674 | whatever the map order, adds exactly the built processes and leaves the rest |
| Submission.CreateProcessGraph | pkg/server/colonies_controller.go:557-677 | stores exactly the dependency relation of the specification, or fails with the error for the first bad name, or for an unknown dependency when all names are good; only the latter leaves the graph row behind |
| SubmittedRuns.ParentIffDependency | pkg/server/colonies_controller.go:642-656 | one created process is a parent of another exactly when its node name is a dependency of the other |
| SubmittedRuns.SubmittedSatisfiesInv | pkg/server/colonies_controller.go:557-677 | a graph built from an acyclic specification satisfies the invariant of a run |
| SubmittedRuns.UpdateProcessIDsIsExact | pkg/core/processgraph.go:456-462 | for an acyclic specification the walk lists each created process exactly once and nothing else |
| SubmittedRuns.SubmittedRunsAreSafe | pkg/server/colonies_controller.go:557-677 | every run of a submitted acyclic specification keeps the dependency order, does not deadlock, and everything that has not failed can still succeed |
| Cycles.RunKeepsHeld | pkg/server/colonies_controller.go:950-1325 | on any graph, no run releases or starts a member of a ring of held-back processes that depend on each other |
| Cycles.CompletableIffAcyclic | pkg/server/colonies_controller.go:557-677 | some run completes a submitted specification exactly when the specification is acyclic |
| Cycles.CyclicIsNeverCompleted | pkg/server/colonies_controller.go:557-677 | in every state of every run of a cyclic specification the processes of a cycle are failed or held back |
| CutOff.RunStaysBlocked | pkg/core/processgraph.go:146-221 | on any graph, a held-back ring with a member that the walk reaches keeps every run from showing success |
| CutOff.ResolveFrame | pkg/core/processgraph.go:146-221 | `Resolve` does to a part that all links stay in what it does to that part on its own, and nothing to the rest |
| CutOff.ShowsSuccessIff | pkg/server/colonies_controller.go:557-677 | some run of a submitted specification shows the graph as successful while a process is not, exactly when some process cannot be reached from the roots and what can be reached is acyclic and depends on nothing else |
| CutOff.CyclicSpecificationLooksFinished | pkg/server/colonies_controller_worker.go:76-91 | two processes that depend on each other are accepted; when one has waited too long and is closed as failed, the graph is shown as successful |
| Calendar.OrderIsTimeLine | pkg/cron/spec.go:87-180 | field-by-field order of valid times is the order of their instants |
| Calendar.SecondMovesTheInstant | pkg/cron/spec.go:170-180 | adding a second, with all its carries, moves the instant by exactly a second |
| Calendar.WeekdaysFollowEachOther | pkg/cron/spec.go:188-190 | weekdays computed from the date advance by one each day |
| Calendar.WeekdayIsCounted | pkg/cron/spec.go:188-190 | the weekday of every date from 1970 on is the one found by counting single days from a Thursday |
| CronSchedule.Next | pkg/cron/spec.go:65-182 | returns the earliest whole second strictly after the given time that the schedule matches; none exactly when there is no such second up to the end of the fifth year after the upcoming second's year |
| CronSchedule.FindMonth | pkg/cron/spec.go:102-116 | moves to the first of the next months that match without passing an activation, or wraps into a new year |
| CronSchedule.FindDay | pkg/cron/spec.go:118-145 | the same for days, under the star rule |
| CronSchedule.FindHour | pkg/cron/spec.go:147-157 | the same for hours |
| CronSchedule.FindMinute | pkg/cron/spec.go:159-169 | the same for minutes |
| CronSchedule.FindSecond | pkg/cron/spec.go:171-181 | the same for seconds, ending at an activation |
| CronSchedule.LeapDayBeyondTheHorizon | pkg/cron/spec.go:93-99 | a schedule for 29 February is given up in March 2096 although it activates in 2104 |
| CronParser.ShiftFormIsInterval | pkg/cron/parser.go:347-350 | the shift form sets exactly the bits from start to end, as the loop does for step one |
| CronParser.LoopBits | pkg/cron/parser.go:352-356 | the loop sets exactly start, start+step, ... up to end, and its 64-bit index never wraps for any step that can be parsed |
| CronParser.GetBits | pkg/cron/parser.go:344-357 | both forms give the same arithmetic progression |
| CronParser.GetRange | pkg/cron/parser.go:252-318 | the bits are exactly those of the range the text is read as, the star bit included; which texts are read, and as what, is `CronNotation.ParseRangeIff` |
| CronParser.GetField | pkg/cron/parser.go:236-247 | accepts exactly when every comma piece is accepted; the bits are the union over the pieces |
| CronNotation.ParsePrinted | pkg/cron/parser.go:252-341 | every piece of the notation (star or question mark, number or name in any case, range, step) is read as what it means, or refused when that does not fit the bounds |
| CronNotation.ParseRangeIff | pkg/cron/parser.go:252-341 | for every text: it is read as a range exactly when it is a piece of the notation with that meaning |
| CronNotation.FieldMeaning | pkg/cron/parser.go:236-318 | a field is accepted exactly when all its pieces mean something; its values are those of its pieces, and the star is on exactly when a piece is a wildcard with no step above one |
| CronNotation.PrintedFieldPieces | pkg/cron/parser.go:236-240 | a field written as a comma list is cut into exactly its pieces |
| CronExpression.ParseFields | pkg/cron/parser.go:88-152 | accepts exactly six fields that are each accepted within their own bounds, and each bit set holds what its text is read as |
| CronExpression.AcceptedIff | pkg/cron/parser.go:88-152 | field texts are accepted exactly when they are written in the notation and every piece means something |
| CronExpression.ActivatesAsWritten | pkg/cron/spec.go:186-195 | a parsed schedule activates exactly at the seconds its notation names, both day fields being required when one of them is a star and one sufficing otherwise |
| CronExpression.NextOf | pkg/cron/cron.go:8-18 | an error exactly for texts outside the notation; otherwise the earliest second after now that the notation names, or none exactly when it names none up to the end of the fifth year |
| CronExpression.EveryWeekNames | pkg/cron/spec.go:186-195 | an expression with a day name names exactly the midnights of that day of the week |
| CronExpression.NextMonday | pkg/cron/cron.go:8-18 | asked on Saturday 30 December 2023 for `mon`, the only possible answer is Monday 1 January 2024 |
| CronExpression.NamesInAnyCase | pkg/cron/parser.go:321-328 | a name means the same in any case |
| CronExpression.DayNamesFollowTheWeek | pkg/cron/spec.go:47-56 | the day names are those of the week in order, with 1 January 1970 a `thu` |
| CronExpression.MonthNamesFollowTheYear | pkg/cron/spec.go:33-46 | the month names are those of the year in order |
| CronExpression.BoundsAreThoseOfTimes | pkg/cron/spec.go:28-56 | the bounds of each field are exactly the values that times have there |
| CronExpression.WrittenExpression | pkg/cron/parser.go:88-152 | any six lists of pieces can be written down as comma lists, and are accepted exactly when every piece means something |
| Scheduling.PriorityTimeIsExactIff | pkg/core/process.go:292-297 | for every priority, the 64-bit arithmetic is exact exactly when the mathematical result fits 64 bits |
| Scheduling.AcceptedPrioritiesAreExactIff | pkg/server/verification.go:10-17 | it is exact for all priorities that are accepted exactly when the submission time is within a stated range |
| Scheduling.PriorityUnits | pkg/server/constants.go:12-13 | the accepted priorities are those from -50000 to 50000, and the unit is a day of the calendar |
| Scheduling.UncheckedPriorityWraps | pkg/core/process.go:292-297 | a priority that only unchecked submissions can have wraps around and comes last instead of first |
| Scheduling.PracticalTimesAreExact | pkg/core/process.go:292-297 | it is exact for every accepted priority and every submission time within 4.9e18 ns of the epoch |
| Scheduling.PriorityOrder | pkg/core/process.go:292-297 | for all priorities and times whose results fit, one unit of priority outweighs exactly one day; equal priorities are first in, first out; nothing submitted more than the priority gap in days later comes first |
| Scheduling.SortByPriorityTime | pkg/scheduler/scheduler.go:13-25 | the array ends sorted by priority time and is a permutation of what it was |
| Scheduling.Prioritize | pkg/scheduler/scheduler.go:62-89 | a sorted list of as many of the merged candidates as asked for, none of the others preceding any of them |
| Scheduling.BestOfBothIsBest | pkg/scheduler/scheduler.go:62-89 | cutting each lookup to its own best before merging loses nothing |
| Scheduling.LookupsPartition | pkg/database/postgresql/processes.go:525-559 | the two lookups divide the eligible processes between them |
| Scheduling.FoundIffEligible | pkg/database/postgresql/processes.go:525-559 | the two lookups together find exactly the processes that can be handed out, fit the executor's colony, type and name, and ask for no more than it has |
| Scheduling.Select | pkg/scheduler/scheduler.go:42-53 | picks an eligible process of least priority time in the whole database; reports none exactly when nothing is eligible |
| Scheduling.SelectedCanBeAssigned | pkg/server/colonies_controller.go:1205-1228 | what was selected is ready and its assignment is an effective step, in every state of a run |
| Generators.SubmitConserves | pkg/server/generator_controller.go:200-256 | a submission moves its arguments from the queue to one graph and conserves all others |
| Generators.RunKeepsInv | pkg/server/generator_controller.go:147-256 | over every run each packed argument is queued or went to exactly one graph with its own value; threshold graphs take exactly the trigger count, timeout graphs at least one and fewer |
| Generators.NewGeneratorConserves | pkg/server/generator_controller.go:147-256 | this holds after every run of a new generator |
| Generators.ArgumentsReachIff | pkg/server/colonies_controller.go:583-599 | the arguments of a submitted graph reach a process exactly when its specification has a root |
| Generators.AcyclicHasRoot | pkg/server/colonies_controller.go:583-599 | a nonempty acyclic specification without unknown dependencies has one |
| Generators.RootlessLosesArguments | pkg/server/colonies_controller.go:583-599 | an accepted specification that gives them to no process |
| Generators.PickRows | pkg/database/postgresql/generator_args.go:39-53 | any rows of the queue may be returned, distinct and as many as asked for |
| Generators.RemoveRows | pkg/server/generator_controller.go:239-247 | deleting one by one removes exactly the used arguments |
| Generators.Handlers.Pack | pkg/server/generator_controller.go:147-175 | queues the argument, and remembers the time if it is the first ever |
| Generators.Handlers.SubmitWorkflow | pkg/server/generator_controller.go:200-256 | submits one graph with that many arguments and takes exactly those from the queue, or changes nothing |
| Generators.Handlers.SubmitBatches | pkg/server/generator_controller.go:63-71 | a legal run of threshold submissions, as many as full batches, that leaves exactly the remainder if all succeeded |
| Generators.Handlers.TriggerPass | pkg/server/generator_controller.go:43-78 | a pass submits exactly when a batch is full or any argument is queued past the timeout, counted from the last run or else the first pack; if all creations succeed, full batches leave the remainder and a timeout leaves nothing; it crashes exactly for a trigger of zero |
| Generators.OverdueAfterAMinute | pkg/server/generator_controller.go:49-62 | with a timeout of a minute the deadline of a last run, or first pack, at 1000 is 1060 |
| Generators.OverdueArgumentsLeave | pkg/server/generator_controller.go:72-78 | with fewer than the trigger queued, no argument outlives a pass after the deadline; each has gone to exactly one graph |
| Generators.SecondPassEmpties | pkg/server/generator_controller.go:43-78 | a remainder that full batches leave is taken by the next pass after its deadline, unless more is packed |
| Generators.RemainderStays | pkg/server/generator_controller.go:63-71 | three arguments with a trigger of two leave one behind, whatever the deadline |
| Events.KeyIsInjectiveIff | pkg/server/event_handler.go:102-104 | for any two state numbers, executor type and state can be recovered from the concatenated key exactly when the numbers are equal or neither ends in the other |
| Events.SeparateFromProcessStatesIff | pkg/server/event_handler.go:102-104 | a number cannot be confused with a process state exactly when it has one digit or a last digit above three |
| Events.TargetsCollide | pkg/server/event_handler.go:102-104 | two pairs of executor type and state with the same key |
| Events.RegisterAgrees | pkg/server/event_handler.go:106-120 | registering keeps the two maps in step with a plain list of subscriptions |
| Events.UnregisterAgreesIff | pkg/server/event_handler.go:122-132 | unregistering does so exactly when it does not take the process filter from a listener registered under another key |
| Events.ReceiversAreExactIff | pkg/server/event_handler.go:134-151 | a signal reaches every subscription of its executor type and state that has no process filter or names its process, and no other exactly when no subscription under the same key lets it through |
| Events.EmptyWhenAllLeft | pkg/server/event_handler.go:122-132 | both maps are empty once all have left |
| Events.RunAgrees | pkg/server/event_handler.go:106-132 | index and list agree after every sequence of registrations, to any states, and matching unregistrations |
| Events.RunsDeliverExactlyIff | pkg/server/event_handler.go:102-151 | every signal of every run is delivered exactly, exactly when no subscribed state is confused with a different signalled one |
| Events.ProcessSignalsAreExactIff | pkg/server/event_handler.go:102-151 | with signals for the four process states, exactly when each subscribed state has one digit or a last digit above three |
| Events.EventHandler.DoRegister | pkg/server/event_handler.go:106-120 | updates both maps and the counter as specified and opens an empty channel |
| Events.EventHandler.DoUnregister | pkg/server/event_handler.go:122-132 | updates both maps as specified and drops an inner map that becomes empty |
| Events.EventHandler.SendSignal | pkg/server/event_handler.go:134-151 | delivers once to each receiver and to nobody else, in any map order |
| CronTrigger.CalcNextRun | pkg/server/cron_controller.go:122-143 | a positive interval is added to the clock in 64 bits; otherwise the earliest second that the expression names within the horizon, or the zero time |
| CronTrigger.NextRunIsZeroIff | pkg/server/cron_controller.go:122-143 | the next run is unknown exactly when there is no positive interval and the expression names nothing up to the horizon |
| CronTrigger.NothingSoonAllYear | pkg/server/cron_controller.go:189-194 | it then stays unknown for the rest of the year |
| CronTrigger.StepKeepsInvIff | pkg/server/cron_controller.go:182-221 | a step keeps the only unfinished graph of the cron the one it remembers exactly when it does not start a graph while the expression names nothing soon, or of a specification with an unknown dependency |
| CronTrigger.RunKeepsInvIff | pkg/server/cron_controller.go:145-221 | this holds in every state of a run exactly when the run never makes such a start |
| CronTrigger.RunKeepsOneActive | pkg/server/cron_controller.go:145-221 | a cron that waits for its previous graph then has at most one unfinished graph in every state of the run |
| CronTrigger.IntervalCronHasOneActive | pkg/server/cron_controller.go:145-221 | a new cron with a positive interval and an accepted specification has at most one in every state of every run |
| CronTrigger.ExpressionCronHasOneActive | pkg/server/cron_controller.go:145-221 | so has one with an expression that names something soon at every clock reading of the run |
| CronTrigger.PassEffect | pkg/server/cron_controller.go:182-221 | a pass starts a graph exactly when a computed next run has passed and no unfinished previous graph is waited for; then the next run is the new one; otherwise nothing changes, except that the first evaluation computes the next run |
| CronTrigger.DueCronStarts | pkg/server/cron_controller.go:197-215 | a cron that does not wait starts at the first pass after its next run |
| CronTrigger.NextStartIsLater | pkg/server/cron_controller.go:182-221 | in every run, between two starts the clock passes the next run computed at the first |
| CronTrigger.StartsAreApart | pkg/server/cron_controller.go:122-221 | any two starts of a cron with an interval are more than the interval apart |
| CronTrigger.UnknownNextRunLosesTrack | pkg/server/cron_controller.go:189-196 | after a start with an unknown next run, the next pass that computes one and the first pass after that run has come leave two unfinished graphs |
| CronTrigger.LeapDayCronLosesTrack | pkg/server/cron_controller.go:182-221 | the cron for 29 February does this with passes in 2096, 2099 and 2104 |
| CronTrigger.CronStore.StartCron | pkg/server/cron_controller.go:145-180 | creates the graph and updates the cron; a bad name changes nothing, an unknown dependency leaves the stored graph behind and the cron as it was |
| CronTrigger.CronStore.TriggerCron | pkg/server/cron_controller.go:182-221 | the nested conditions of the loop body start a graph exactly when a computed next run has passed and there is no previous graph, no waiting, or a finished previous graph |
| Sync.CalcSyncPlan | pkg/fs/fs_client.go:413-492 | the three lists are exactly the names missing remotely, missing locally and differing, each once, with the side chosen by the conflict rule, in any map order |
| Sync.PlanCoversDifferences | pkg/fs/fs_client.go:413-492 | the lists have disjoint names, cover exactly the differences, and are all empty exactly when the sides agree |
| Sync.WorkerStep | pkg/fs/fs_client.go:87-127 | one worker settles its own name and disturbs no other; it reports an error exactly when it has to fetch an empty remote file to resolve a conflict, and settles that name too |
| Sync.FetchStaysSound | pkg/fs/s3.go:123-150 | a download leaves both sides and the object store consistent, also when it truncates the local file and fails |
| Sync.SyncConverges | pkg/fs/fs_client.go:215-290 | in every worker order, errors or not: when all workers have ended both sides hold the same checksums, no name is lost, a conflict ends with the local content if local files are kept and the remote one otherwise, a recomputed plan is empty, and the state is one the next synchronisation can start from |
| Sync.FewerEmptyConflicts | pkg/fs/fs_client.go:277-290 | whichever workers have ended, no conflict of the failing kind arises and those worked on are gone |
| Sync.ApplySyncPlan | pkg/fs/fs_client.go:129-306 | applied to the state it was computed for, the plan reports an error exactly when a conflict needs an empty remote file; without an error it synchronises without losing a name; after one, every name is untouched or settled and strictly fewer such conflicts are left |
| Quantities.CPURoundTrip | pkg/parsers/parser.go:10-23 | printing then parsing CPU is the identity on 64-bit integers |
| Quantities.CPUText | pkg/parsers/parser.go:10-23 | a text without the unit counts as zero; with it, the result is that of the number before it |
| Quantities.UnitValue | pkg/parsers/parser.go:26-44 | which units there are; one with an `i` is a power of 1024, any other of 1000, and the letter gives the power |
| Quantities.ParsePrintedQuantity | pkg/parsers/parser.go:51-72 | a number followed by a unit is read as that many of the unit in 64-bit arithmetic |
| Quantities.ConvertMemoryToBytes | pkg/parsers/parser.go:25-73 | the result is that of some unit that fits the text; an error when none fits, zero for the empty text |
| Quantities.MemoryIsOrderIndependent | pkg/parsers/parser.go:51-72 | any two map orders that both succeed give the same number |
| Quantities.SuccessDependsOnOrder | pkg/parsers/parser.go:51-72 | with one order `5KB` is 5000, with another it is refused |
| Quantities.SuccessIsOrderIndependentIff | pkg/parsers/parser.go:26-63 | success is independent of the order exactly for texts that are not a number followed by KB, Kb, MB, Mb, TB or Tb |
| Quantities.MemoryRoundTrip | pkg/parsers/parser.go:79-82 | printing then parsing memory truncates toward zero to whole mebibytes, in every map order |

## Left out

- ProcessGraph.Iterate: processes are values in a map; pointers to one process shared by several holders are not modelled.
- Submission.CreateProcessGraph: argument and input values, initiator names and the execution-time default are not modelled.
- Controller.Handlers.HandleCloseSuccessful: outputs, function statistics and signals to children are not modelled, nor the errors they can return.
- Controller.Handlers.HandleAssign: which process is offered is `Scheduling.Select`; passing parent outputs on as input, paused colonies and the wait between retries are not modelled.
- Controller.Handlers.HandleTimeout: the retry counter and the deadlines are parameters; closing processes that have waited too long is the close-failed step.
- Controller.Handlers.HandleAddChild: the graph id passed by the caller is taken to be that of the parent's graph.
- Scheduling.SortByPriorityTime: the algorithm of Go's `sort.Sort` is replaced by insertion through `Swap`; order among equal priority times is not fixed by either.
- Generators.Handlers.TriggerPass: one generator per pass; storage calls succeed or change nothing.
- CronTrigger.RunKeepsInvIff: one cron among arbitrary other changes to graphs, with one clock reading a pass, not before 1970; the manual `runCron`, an initiator that cannot be resolved and the rounding of stored times are not modelled.
- Events.EventHandler.SendSignal: channel capacity, timeouts and the relay to other servers are not modelled.
- CronSchedule.Next: UTC only; the hour adjustment for daylight saving (pkg/cron/spec.go:130-138) is never taken there.
- CronNotation.ParseRangeIff: lower-casing of names covers ASCII letters only.
- CronExpression.NextOf: cutting the expression at white space, descriptors such as `@every` and time zones are not modelled, nor parsers with optional fields, which the server does not use.
- Quantities.ConvertMemoryToBytes: upper-casing covers ASCII letters only.
- Sync.CalcSyncPlan: listing directories and files is not modelled, remote files named `.cfs` do not occur; several plans at once, clean plans and snapshots would only add easier members.
- Sync.ApplySyncPlan: failures of the network or the file system other than a missing object are not modelled.
- `calcNextRun`: the branch for random intervals is not modelled, because it can never be taken: the positive interval is tested first.
- `getRoot`, `Depth`, `Leaves`, and the layout arithmetic of `calcNodes` and `calcEdges`: display only.
- Interleavings inside a handler, several servers at once, and `resetProcess`.
- PostgreSQL, S3 and etcd internals, cryptography, HTTP, JSON, the command line and the client library.
- Equality methods and JSON conversions of the core types: easy and uneven.

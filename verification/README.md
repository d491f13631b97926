# Models of the gRPC sources vendored with CrowdSound

The project models five groups of code from the gRPC tree under `lib/grpc` and proves what they are
meant to guarantee. `dafny verify dfyconfig.toml` checks all of it.

**The monitor queue** (`Ring.dfy`, `MonitorQueue.dfy`). The producer-consumer queue of `sync.h`: one
mutex, two condition variables, a ring of any capacity of at least one. Threads interleave one
statement at a time; the scheduler decides who moves, who wakes for no reason and whose deadline
passes. The invariant `Safe` is the heart of the proof; the theorems hold for all runs. `RingBuffer`
is the struct itself, changed in place.

**Fetch-and-add** (`FetchAdd.dfy`). The compare-and-swap loop of `atm_win32.h`, run by any number of
threads on one word of any size, and once more as a method with its loop under interference.

**The test runner** (`World.dfy`, `TestCache.dfy`, `Jobset.dfy`, `Suites.dfy`, `PortServer.dfy`). The job
scheduler with its cancellation, timeouts and cache, the cache of successful runs with its file, any
number of suites and restarts on them, and the port allocator, as classes whose methods follow the
Python statement by statement. `World` is the system they run on: when a process exits and with which
code, what files contain, whether somebody asks to cancel, whether a port can be bound and how the
clock moves are arbitrary, but the questions and the answers are kept, so the contracts say what the
tools make of them. The clock counts ticks, any number to the second, never goes back, and moves by at
least one tick during a sleep; the timeouts of jobs are given in ticks. The order of sets and
dictionaries is arbitrary, too. The scheduler is specified with ghost records: the specs it accepted,
the fate of each, the jobs started and ended, the exit code that settled each, and the jobs reported to
the cache.

**The profile analyzer** (`ProfileTrace.dfy`, `ProfileMarks.dfy`, `ProfileAnalyzer.dfy`, `Percentile.dfy`).
`ProfileTrace` and `ProfileMarks` say what a log means, once by tag stacks and once by a single
nesting stack, and relate the two; `ProfileAnalyzer` is the matching loop with its mutable marks,
proved against them. Numbers are reals.

**Strings, bits and JSON** (`StringReplace.dfy`, `Tokenizing.dfy`, `FilenameIdentifier.dfy`, `BitSets.dfy`,
`MergeJson.dfy`, `JsonHeap.dfy`, `JsonSharing.dfy`, `MergeInPlace.dfy`). The loops of the code generators
are methods proved against recursive specifications, which in turn are pinned down by uniqueness or
inverse lemmas. JSON merging is a function on values with its laws (`MergeJson`), a function on heaps of
nodes that may share what is below them (`JsonHeap`), and a set of methods that change node objects in
place and compute the latter (`MergeInPlace`); `JsonSharing` says exactly when the two functions agree.
`Wrappers.dfy` holds the option type.

Four things the code does that its comments do not say. A replacement of every occurrence never ends
for an empty search string (`StringReplacing.LoopEndsIffNonEmpty`). With `stop_on_failure` the job
that `reap` removes may be a killed one and not the one whose failure was counted, since the loop
variable is rebound; the verdict of the run is right all the same (`Jobsets.Jobset.FailuresTell`). An
important mark that falls out of the window misses closings for good
(`ProfileMarks.RecordedIffFewYounger`, `ProfileMarks.MissedMarkStaysSilent`; `ProfileMarks.ClosingIsMissed`
shows a log on which it happens). Merging JSON into a dictionary in which a node that a merge can reach
is referred to twice, as a YAML file with aliases can leave it, changes both places
(`JsonSharing.ListElementChanges` shows a file); without such a node it never does
(`JsonSharing.MergesAsValuesIff`).

## Model

| member | source | states |
|---|---|---|
| MonitorQueue.NoLostWakeup | lib/grpc/grpc/support/sync.h:244-308 | In every state reachable by any interleaving of any number of threads, with spurious wakes and deadlines, a thread asleep in `queue_remove` implies an empty ring and one asleep in `queue_append` implies a full ring; so sleepers of both kinds never coexist, although the broadcasts go out only on the 0→1 and N→N-1 transitions |
| MonitorQueue.ReachableIsFifo | lib/grpc/grpc/support/sync.h:215-308 | In every reachable state the values appended, in critical-section order, are the values removed followed by the queue; the queue fits the array; between critical sections it is `elem[head..head+length) mod N`; at most one thread is inside |
| MonitorQueue.OutcomeIsTrue | lib/grpc/grpc/support/sync.h:261-308 | What a call is about to return is true of the queue it still holds: `queue_remove` returns 0 only with the queue empty under the lock and otherwise hands out the value removed last, `queue_try_append` fails on a queue only when it is full (`EmptyOnlyAfterDeadline` says that the former does not happen without waiting) |
| MonitorQueue.EmptyOnlyAfterDeadline | lib/grpc/grpc/support/sync.h:286-308 | Over all runs: a `queue_remove` that is on its way to returning 0 has seen its deadline pass since it was called; with `gpr_inf_future` it waits until there is something to remove |
| MonitorQueue.ExecutesWhatWasCalled | lib/grpc/grpc/support/sync.h:244-308 | Over all runs: what a thread is executing, with its argument, is what it last called |
| MonitorQueue.CallsBeginAndEnd | lib/grpc/grpc/support/sync.h:244-276 | A thread gets busy only by a call, which enters the operation called, and gets idle only by returning, once it is known what to return, or by failing to get the lock in `queue_try_append`, which leaves the queue alone |
| MonitorQueue.StandstillIsJustified | lib/grpc/grpc/support/sync.h:244-308 | The only way all threads can be blocked is the intended one: nobody holds the mutex and all sleepers are removers with an empty queue, or all are appenders with a full one |
| MonitorQueue.StepRefinesFifo | lib/grpc/grpc/support/sync.h:248-306 | Every single statement of every thread keeps the invariant and is a step of a plain FIFO list: the `length++` of `queue_append(x)` and of `queue_try_append(x)` appends `x` at the back, the `length--` takes the front, everything else leaves the list alone |
| MonitorQueue.EffectIsOutcome | lib/grpc/grpc/support/sync.h:244-308 | A call has its whole effect in the one step that decides what it will return, and the effect is what it returns: `x` joins the queue at the back, or the value handed out leaves it at the front, or nothing changes because the queue is full or empty; no other step of the call has any |
| MonitorQueue.RunsKeepSafe | lib/grpc/grpc/support/sync.h:244-308 | The invariant (mutual exclusion, justified sleepers, progress of the thread inside, FIFO bookkeeping) is kept by runs of any length |
| MonitorQueue.TestKeepsSafe | lib/grpc/grpc/support/sync.h:252-254 | A thread falls asleep only for the reason its loop condition gives, also when it does so while others sleep; that it does fall asleep then is `EmptyOnlyAfterDeadline` and `NoLostWakeup` |
| MonitorQueue.WakeKeepsSafe | lib/grpc/grpc/support/sync.h:255-259 | The conditional broadcast leaves no sleeper behind whose condition is about to become true |
| MonitorQueue.UpdateKeepsSafe | lib/grpc/grpc/support/sync.h:260-262 | The statements that change the ring one field at a time keep the invariant, in between too |
| MonitorQueue.GrowKeepsSafe | lib/grpc/grpc/support/sync.h:261-261 | `length++` counts in the value stored last, and keeps the invariant |
| MonitorQueue.ShrinkKeepsSafe | lib/grpc/grpc/support/sync.h:304-304 | `length--` counts out the value read before, which was the oldest, and keeps the invariant |
| MonitorQueue.AdvanceKeepsSafe | lib/grpc/grpc/support/sync.h:303-303 | Between moving `head` and lowering `length` the element on its way out still counts |
| MonitorQueue.OutsideKeepsSafe | lib/grpc/grpc/support/sync.h:263-266 | Calls, lock acquisition, failed try-lock, spurious wakes and deadlines leave the queue and the records as they are |
| MonitorQueue.OperationIsKept | lib/grpc/grpc/support/sync.h:244-308 | A step of one thread never changes which operation another thread is executing |
| Ring.StoreThenGrow | lib/grpc/grpc/support/sync.h:260-261 | Writing slot `(head + length) % N` does not disturb the queue; counting it in appends exactly the written value |
| Ring.AdvanceThenShrink | lib/grpc/grpc/support/sync.h:302-304 | Moving `head` and lowering `length` removes exactly the element at the old head, across the wrap-around |
| Ring.RingBuffer.constructor | lib/grpc/grpc/support/sync.h:228-234 | The initialised struct is an empty queue whatever the storage held |
| Ring.RingBuffer.Append | lib/grpc/grpc/support/sync.h:260-261 | In place: new contents are the old contents followed by `x` |
| Ring.RingBuffer.Remove | lib/grpc/grpc/support/sync.h:302-304 | In place: the result followed by the new contents are the old contents |
| FetchAdd.Linearizable | lib/grpc/grpc/support/atm_win32.h:65-123 | For every interleaving of any number of threads the completed calls, ordered by their successful swaps, form a sequential fetch-and-add history: each returns the wrapped sum of the initial word and the deltas before it, and the word is the wrapped sum of all |
| FetchAdd.TicketsRepeatExactlyOnWrap | lib/grpc/grpc/support/atm_win32.h:97-105 | With delta 1, two calls return the same value if and only if a whole number of turns of the word lies between them, so results are distinct until the word wraps |
| FetchAdd.RetriesAreBounded | lib/grpc/grpc/support/atm_win32.h:97-123 | With T threads, in every run the failed swaps number at most (T-1) times the successful ones |
| FetchAdd.FailureNeedsAnotherSuccess | lib/grpc/grpc/support/atm_win32.h:97-123 | In every reachable state a swap fails if and only if the calls completed since the read moved the word by something other than whole turns; then at least one call has completed since, and every call completed since is another thread's |
| FetchAdd.StepIsLinear | lib/grpc/grpc/support/atm_win32.h:101-104 | Each step keeps the history sequential, modulo the word size |
| FetchAdd.SuccessKeepsBound | lib/grpc/grpc/support/atm_win32.h:101-103 | One success makes at most T-1 outstanding reads stale |
| FetchAdd.StepKeepsBound | lib/grpc/grpc/support/atm_win32.h:101-103 | Every step keeps failures plus stale reads within (T-1) times the successes |
| FetchAdd.EffectIsOwnStep | lib/grpc/grpc/support/atm_win32.h:97-105 | A call takes effect in the one step that ends it, by the calling thread: it returns the word as it was and adds the delta the thread was called with, which no other step changes |
| FetchAdd.CallsCarryDeltas | lib/grpc/grpc/support/atm_win32.h:97-105 | Over all runs: every completed call has the delta of the last call that its thread made before its completion |
| FetchAdd.Word.CompareAndSwap | lib/grpc/grpc/support/atm_win32.h:65-75 | Reports success exactly when the word was as expected, and only then stores the new value |
| FetchAdd.Word.FetchAdd | lib/grpc/grpc/support/atm_win32.h:97-105 | The loop of one caller while others add to the word before each read and between each read and its swap: it retries exactly in the rounds in which what landed between read and swap is not whole turns, and returns the word just before its own addition |
| FetchAdd.Word.Round | lib/grpc/grpc/support/atm_win32.h:101-103 | One round succeeds exactly when what lands between its read and its swap is whole turns of the word; a failed round leaves the word to the others |
| FetchAdd.StepKeepsReads | lib/grpc/grpc/support/atm_win32.h:101-103 | Every step keeps it that an outstanding read is what the calls completed by then made of the word, and that only other threads' calls have completed since |
| FetchAdd.OtherKeepsBound | lib/grpc/grpc/support/atm_win32.h:101-103 | A failed swap uses up one stale read |
| ProfileTrace.TagStacksRefineNesting | lib/grpc/tools/profile_analyzer/profile_analyzer.py:141-158 | On properly nested logs each tag stack is the thread's one nesting stack filtered by tag |
| ProfileTrace.ClosesInnermost | lib/grpc/tools/profile_analyzer/profile_analyzer.py:157-158 | Each `}` is paired with the `{` that a single-stack matcher would pop |
| ProfileTrace.NestedIsAccepted | lib/grpc/tools/profile_analyzer/profile_analyzer.py:149-167 | On nested logs no `pop` fails and `stack_depth` is the height of the nesting stack |
| ProfileTrace.DepthCountsOpen | lib/grpc/tools/profile_analyzer/profile_analyzer.py:149-167 | Nested or not, `stack_depth[t]` equals the number of all open blocks of `t` over all tags |
| ProfileTrace.SameGroup | lib/grpc/tools/profile_analyzer/profile_analyzer.py:155-156 | Two entries have the same group exactly when tag, thread, file and line agree |
| ProfileTrace.OpenIsNest | lib/grpc/tools/profile_analyzer/profile_analyzer.py:153-154 | On nested logs the blocks in all tag stacks of a thread are those of its nesting stack |
| ProfileTrace.OpenByDepth | lib/grpc/tools/profile_analyzer/profile_analyzer.py:147-158 | On nested logs a `{` is on the nesting stack exactly when the count of its thread has not gone back to what it was before it: the stacks, which match closings, agree with counting alone |
| ProfileTrace.OpenStep | lib/grpc/tools/profile_analyzer/profile_analyzer.py:147-158 | One entry changes the set of open blocks of its thread by exactly the block its tag stack pushes or pops |
| ProfileMarks.RecordsInnermostOutward | lib/grpc/tools/profile_analyzer/profile_analyzer.py:56-74 | On nested logs the j-th entry an important mark collects closes the j-th block, from the inside, of those open at the mark; nothing else is ever collected |
| ProfileMarks.RecordedIffFewYounger | lib/grpc/tools/profile_analyzer/profile_analyzer.py:161-166 | The closing of the d-th enclosing block (from the outside) is collected if and only if fewer than d marks joined the group between the mark and that closing: the exact effect of the window `imarks_group[-depth:]` |
| ProfileMarks.RecordedIffFewRivals | lib/grpc/tools/profile_analyzer/profile_analyzer.py:161-166 | The same with the rule spelled out: if and only if fewer than d later `!` entries before that closing have its tag, thread, file and line |
| ProfileMarks.YoungerAreRivals | lib/grpc/tools/profile_analyzer/profile_analyzer.py:161-166 | The marks that joined the group later are as many as the later `!` entries with the same tag, thread, file and line |
| ProfileMarks.MissedMarkStaysSilent | lib/grpc/tools/profile_analyzer/profile_analyzer.py:161-166 | A mark that missed a closing because it fell outside the window records nothing from there on, so no unrelated closing takes the missed one's place |
| ProfileMarks.ClosingIsMissed | lib/grpc/tools/profile_analyzer/profile_analyzer.py:161-166 | It does happen: on every log `{ ! ! }` of one thread and tag with both marks on one line of one file, which is properly nested, the first mark never records the closing of the block around it and the second one does |
| ProfileMarks.BothHear | lib/grpc/tools/profile_analyzer/profile_analyzer.py:161-166 | With the two marks on different lines, both record the closing |
| ProfileMarks.SomeLogIsCrowded | lib/grpc/tools/profile_analyzer/profile_analyzer.py:161-166 | There is such a log |
| ProfileMarks.SomeLogIsRoomy | lib/grpc/tools/profile_analyzer/profile_analyzer.py:139-167 | There is a log with two such marks |
| ProfileMarks.HeardOrLost | lib/grpc/tools/profile_analyzer/profile_analyzer.py:157-167 | At any time a mark either has heard every closing of a block around it, or enough younger marks have joined its group that it never hears again |
| ProfileMarks.HeardClosing | lib/grpc/tools/profile_analyzer/profile_analyzer.py:163-166 | A closing that passes the window and the depth test closes the innermost block the mark still waits for |
| ProfileMarks.StackSplits | lib/grpc/tools/profile_analyzer/profile_analyzer.py:147-167 | After a mark the nesting stack is what is left of the blocks around the mark followed by younger blocks only |
| ProfileMarks.Recorded | lib/grpc/tools/profile_analyzer/profile_analyzer.py:71-74 | What a mark records are later closings of its own thread, in log order, never more than the blocks open at the mark |
| ProfileAnalyzer.Analyzer.Read | lib/grpc/tools/profile_analyzer/profile_analyzer.py:139-167 | The whole matching loop: it raises exactly when some closing has no open block of its thread and tag; otherwise all five containers are what the log makes of them, entry by entry |
| ProfileAnalyzer.Analyzer.ReadOpen | lib/grpc/tools/profile_analyzer/profile_analyzer.py:147-149 | Pushing on the tag stack and counting up keeps the containers in step with the log |
| ProfileAnalyzer.Analyzer.ReadMark | lib/grpc/tools/profile_analyzer/profile_analyzer.py:150-156 | A mark joins the group of its tag, thread, file and line, at the end and with a snapshot of all blocks open in its thread; no other group changes |
| ProfileAnalyzer.Analyzer.Snapshot | lib/grpc/tools/profile_analyzer/profile_analyzer.py:153-154 | The comprehension over the tags, in any order, lists every open block of the thread once and has length `stack_depth` |
| ProfileAnalyzer.Analyzer.ReadClose | lib/grpc/tools/profile_analyzer/profile_analyzer.py:157-167 | Fails exactly on an unmatched closing; else pops, times, notifies the marks and counts down in step with the log |
| ProfileAnalyzer.DurationsOfBlocks | lib/grpc/tools/profile_analyzer/profile_analyzer.py:157-160 | On nested logs the i-th time listed for a tag is what passed between the i-th closing of that tag and the innermost block open before it in its thread; there is one for each closing |
| ProfileAnalyzer.Analyzer.ReadPoint | lib/grpc/tools/profile_analyzer/profile_analyzer.py:146-167 | A `.` entry changes no stack, time, mark or counter |
| ProfileAnalyzer.Analyzer.VisitMarks | lib/grpc/tools/profile_analyzer/profile_analyzer.py:161-166 | The two nested loops bring every mark of every group up to date with the closing |
| ProfileAnalyzer.VisitGroup | lib/grpc/tools/profile_analyzer/profile_analyzer.py:163-166 | Looking only at the last `depth` marks of a group leaves every mark of the group, also those before the window, with exactly what the recording rule gives |
| ProfileAnalyzer.VisitMark | lib/grpc/tools/profile_analyzer/profile_analyzer.py:164-166 | One round of the inner loop, ignored or appended, follows the recording rule |
| ProfileAnalyzer.VisitAll | lib/grpc/tools/profile_analyzer/profile_analyzer.py:162-166 | The order in which the groups are visited does not matter |
| ProfileAnalyzer.YoungerByIndex | lib/grpc/tools/profile_analyzer/profile_analyzer.py:161-163 | A mark's index from the end of its group is the number of younger marks in the group |
| ProfileAnalyzer.Analyzer.SnapshotIsNest | lib/grpc/tools/profile_analyzer/profile_analyzer.py:150-156 | On a nested log `_pre_stack` is the nesting stack at the mark, each block once, in some order |
| ProfileAnalyzer.Analyzer.CollectedAreClosings | lib/grpc/tools/profile_analyzer/profile_analyzer.py:56-74 | On a nested log `_n + len(_post_stack) == len(_pre_stack)` always, and the i-th collected entry closed the i-th block of the stack from the inside |
| ProfileAnalyzer.ImportantMark.constructor | lib/grpc/tools/profile_analyzer/profile_analyzer.py:57-61 | A new mark awaits one closing for each block of its snapshot |
| ProfileAnalyzer.ImportantMark.AppendPostEntry | lib/grpc/tools/profile_analyzer/profile_analyzer.py:71-74 | Appends and counts down exactly when closings are still awaited and the thread is the mark's |
| ProfileAnalyzer.RejectedStaysRejected | lib/grpc/tools/profile_analyzer/profile_analyzer.py:158-158 | Nothing later in a log repairs an unmatched closing |
| Percentiles.PercentileIsMonotone | lib/grpc/tools/profile_analyzer/profile_analyzer.py:112-125 | On any sorted non-empty list the percentile grows with the percentage, is the minimum at 0 and the maximum at 100, and lies between the two samples next to the index |
| Percentiles.AtIsMonotone | lib/grpc/tools/profile_analyzer/profile_analyzer.py:117-125 | Monotone in the fractional index, across integral and interpolated branches |
| Percentiles.AtIsAffine | lib/grpc/tools/profile_analyzer/profile_analyzer.py:118-125 | Integral indices give the samples, and between two neighbouring samples the value is on the straight line through them |
| Percentiles.PercentileIsAffine | lib/grpc/tools/profile_analyzer/profile_analyzer.py:112-125 | While the index stays between two neighbouring samples, the percentile of any list grows in proportion to it |
| Percentiles.IndexTimes | lib/grpc/tools/profile_analyzer/profile_analyzer.py:117-117 | The index is the given percentage of the last position |
| Percentiles.MedianOfTwo | lib/grpc/tools/profile_analyzer/profile_analyzer.py:112-125 | The 50th percentile of two samples is their mean |
| Percentiles.BetweenNeighbours | lib/grpc/tools/profile_analyzer/profile_analyzer.py:118-125 | The interpolated value lies between its two neighbours |
| Jobsets.Run | lib/grpc/tools/run_tests/jobset.py:342-360 | Returns True exactly when the run was never cancelled and the process of every started job exited with 0; then every spec was started as a job of its own that exited with 0, or skipped because the cache, with caching on, knew that identity and hash as its last success. Every accepted spec goes by the hash of its own identity, which is the digest of what its files held, and a spec without files by none. The cache hears of exactly the hashed jobs that exited with 0, of each once |
| Jobsets.Jobset.Start | lib/grpc/tools/run_tests/jobset.py:253-280 | Refuses a spec exactly when the run is cancelled, which is final; otherwise the spec is accepted, and skipped exactly when it has files and the cache says of their hash that it need not run |
| Jobsets.Jobset.Admit | lib/grpc/tools/run_tests/jobset.py:259-280 | Once there is room, the spec is started or skipped, and which is the word of the cache |
| Jobsets.Jobset.Reap | lib/grpc/tools/run_tests/jobset.py:282-311 | Always comes back, having removed exactly one job; cancels exactly when a failure was counted under `stop_on_failure`; never sleeps in a cancelled run |
| Jobsets.Jobset.Finish | lib/grpc/tools/run_tests/jobset.py:322-326 | Drains in exactly `len(_running)` removals, without sleeping when cancelled, and reports True exactly when not cancelled and no failure was counted |
| Jobsets.Jobset.Cancelled | lib/grpc/tools/run_tests/jobset.py:313-320 | Sticky; asks only while not cancelled, and turns true exactly on a yes; then no running job is left in state RUNNING |
| Jobsets.Jobset.CancelNow | lib/grpc/tools/run_tests/jobset.py:315-319 | Kills what is running and makes the cancellation final |
| Jobsets.Jobset.SchedulerBounds | lib/grpc/tools/run_tests/jobset.py:228-326 | Between any two calls: `len(_running) <= maxjobs`, completed plus running equals started, failures at most completed, a failure under `stop_on_failure` means cancelled, and no running job is RUNNING once cancelled |
| Jobsets.Jobset.FailuresTell | lib/grpc/tools/run_tests/jobset.py:289-299 | When all is drained `_failures` is zero exactly when every started job ended in SUCCESS, although the loop variable rebound at line 293 can make the job removed a killed one and not the one counted |
| Jobsets.Jobset.SkipIsEarned | lib/grpc/tools/run_tests/jobset.py:269-280 | Within one run: a spec is skipped only with caching on, and only if its identity and hash were in the cache at the start or a job of this run with both had ended in SUCCESS and been reported before (`Suites.Live` says where the former come from) |
| Suites.Live | lib/grpc/tools/run_tests/run_tests.py:601-681 | Any number of builds, of suites with the cache or without it, of restarts that load the cache file, and of processes dying within a suite: every record of the cache and of its file belongs to a job, in one of the runs so far, of that identity and hash whose process exited with 0. So `should_run` is false only if caching is on and there is such a job, and no run ever skipped a spec without such a job in an earlier run or, reported before the skip, in the same one. There is one run per event, and each accepted spec goes by the digest of what its files held |
| Suites.RunSuite | lib/grpc/tools/run_tests/run_tests.py:640-656 | One suite keeps the cache honest whatever its verdict, and a good one leaves a dump of the cache in the file, even if it was run without the cache |
| Suites.StartOver | lib/grpc/tools/run_tests/run_tests.py:661-662 | A new process knows exactly the records of the file that the last one left, or nothing without a file; no success reported more than a second after the last save is lost |
| Suites.RunBuild | lib/grpc/tools/run_tests/run_tests.py:605-607 | The build steps, run one at a time without the cache and to the end whatever fails, leave it honest |
| Suites.RunCrashed | lib/grpc/tools/run_tests/run_tests.py:534-537 | A process that dies within a suite leaves an honest cache file, whatever it had saved by then |
| Jobsets.RunPartly | lib/grpc/tools/run_tests/jobset.py:342-360 | A run that stops on the way has told the cache of exactly the successes reported so far |
| Jobsets.LabelsGrow | lib/grpc/tools/run_tests/jobset.py:259-279 | Accepting one more spec with the hash of its identity keeps every spec with the hash of its own |
| Suites.HonestCache | lib/grpc/tools/run_tests/run_tests.py:525-554 | An honest cache skips only what was earned, and its file holds nothing else |
| Suites.RunJoins | lib/grpc/tools/run_tests/jobset.py:342-360 | What a run tells the cache, and what it skips, was earned by the runs so far including its own jobs |
| Jobsets.Jobset.AllSettled | lib/grpc/tools/run_tests/jobset.py:342-360 | Once every started job has succeeded, each accepted spec has succeeded or was rightly skipped |
| Jobsets.Jobset.CacheHeard | lib/grpc/tools/run_tests/jobset.py:215-216 | The cache's history is what it had loaded plus one report for each hashed job that succeeded, and for no other |
| Jobsets.Jobset.Walk | lib/grpc/tools/run_tests/jobset.py:286-296 | One pass over the running set finds a job to remove or leaves all of them within their timeouts; in a cancelled run it always finds one |
| Jobsets.Jobset.CountFailure | lib/grpc/tools/run_tests/jobset.py:289-295 | Counts one failure; under `stop_on_failure` cancels and kills all running jobs, and the job picked for removal is whichever the inner loop ends with |
| Jobsets.Jobset.Visit | lib/grpc/tools/run_tests/jobset.py:286-296 | Polling one job either leaves it running within its timeout or picks a dead job with the failure counted |
| Jobsets.Jobset.Poll | lib/grpc/tools/run_tests/jobset.py:190-226 | Asks the process of a running job once. Exit code 0 makes it SUCCESS and any other one FAILURE; without an exit it is KILLED exactly after its timeout; a job that is no longer RUNNING stays as it is. The code that settles a job is kept. The cache is told at the transition to SUCCESS of a hashed job and at no other time |
| Jobsets.Jobset.TakeIn | lib/grpc/tools/run_tests/jobset.py:190-226 | The same for a given answer of the process |
| Jobsets.Jobset.SuccessIsExitZero | lib/grpc/tools/run_tests/jobset.py:190-226 | At any time between two calls a started job is in state SUCCESS exactly when exit code 0 settled it, in FAILURE exactly when another one did |
| Jobsets.Jobset.KillAll | lib/grpc/tools/run_tests/jobset.py:293-294 | Kills exactly the running jobs that are still RUNNING and ends on some member of the set |
| Jobsets.Jobset.Remove | lib/grpc/tools/run_tests/jobset.py:297-299 | Moves the picked job from running to ended, with its outcome on record |
| Jobsets.Jobset.MakeRoom | lib/grpc/tools/run_tests/jobset.py:255-257 | Ends with room for a job, or cancelled |
| Jobsets.Jobset.Decide | lib/grpc/tools/run_tests/jobset.py:259-272 | Skips exactly when the spec is hashed and the cache says so; the hash of an identity is computed once |
| Jobsets.Jobset.HashOf | lib/grpc/tools/run_tests/jobset.py:260-268 | The hash of an identity is the digest of the contents of its files, one after the other and in the order given, as they are when it is first asked for; later it is reused and no file is read |
| Jobsets.Jobset.ReadFiles | lib/grpc/tools/run_tests/jobset.py:263-268 | Reads each file once, in order, and nothing else |
| Jobsets.ConcatInTwo | lib/grpc/tools/run_tests/jobset.py:263-268 | What is digested is the texts one after the other: of two lists of texts it is that of the first followed by that of the second |
| Jobsets.ConcatMore | lib/grpc/tools/run_tests/jobset.py:263-268 | One more text comes last |
| Jobsets.Jobset.Launch | lib/grpc/tools/run_tests/jobset.py:273-279 | Starts one new job for the spec while there is room, with the hash of its files if it has any |
| Jobsets.Jobset.Skip | lib/grpc/tools/run_tests/jobset.py:269-280 | A skipped spec is accounted for with what the cache knew |
| Jobsets.Job.State | lib/grpc/tools/run_tests/jobset.py:190-226 | RUNNING turns into SUCCESS exactly on exit code 0, into FAILURE exactly on another one, into KILLED exactly without one and past the timeout; final states never change; the cache is told at the transition to SUCCESS of a hashed job and at no other time |
| Jobsets.Job.Kill | lib/grpc/tools/run_tests/jobset.py:228-231 | Only a RUNNING job is killed |
| Jobsets.NoBadOutcome | lib/grpc/tools/run_tests/jobset.py:289-290 | The failure count is zero exactly when no removed job failed or was killed |
| TestCaches.TestCache.ShouldRun | lib/grpc/tools/run_tests/run_tests.py:525-532 | False exactly when caching is on and the last success on record for the identity was with this hash |
| TestCaches.TestCache.Finished | lib/grpc/tools/run_tests/run_tests.py:534-537 | Records one success with its time; if more than a second has passed since the last save, the file becomes a dump of the new state, and otherwise it stays as it is |
| TestCaches.TestCache.Save | lib/grpc/tools/run_tests/run_tests.py:546-549 | The file becomes a dump of the cache, and the time is noted |
| TestCaches.TestCache.FileIsRecent | lib/grpc/tools/run_tests/run_tests.py:534-549 | At any time the file knows every success that was reported more than a second after the last save and not overtaken by a later one of the same identity: whenever the process dies, only the successes of about a second can be lost |
| TestCaches.TestCache.constructor | lib/grpc/tools/run_tests/run_tests.py:520-523 | With `maybe_load`: a new cache knows exactly the records of the file, or nothing when there is none, and counts its first second from now |
| TestCaches.DumpIsHistory | lib/grpc/tools/run_tests/run_tests.py:539-541 | A dump lists nothing but loaded records and reported successes |
| TestCaches.TestCache.Dump | lib/grpc/tools/run_tests/run_tests.py:539-541 | The items of the dictionary, each once, in whatever order |
| TestCaches.TestCache.Parse | lib/grpc/tools/run_tests/run_tests.py:543-544 | Replaces what was known by the list; later records win |
| TestCaches.DumpRoundTrip | lib/grpc/tools/run_tests/run_tests.py:539-544 | `parse(dump(c))` restores `c` for every order of the dump |
| TestCaches.ParsedIsLast | lib/grpc/tools/run_tests/run_tests.py:544-544 | The parsed dictionary maps an identity to a hash exactly when that is the identity's last record |
| PortServers.PortServer.Serve | lib/grpc/tools/run_tests/port_server.py:54-81 | Over any number of requests no port is lent twice within 600 seconds, whatever the resolution of the clock, every answer is a port from 10000 to 64999, and the log lists exactly the answers given |
| PortServers.PortServer.RefillPool | lib/grpc/tools/run_tests/port_server.py:54-70 | The new pool is exactly the scanned ports neither in use nor refused by the system, ascending, at most 101, and each port of it was bound in this scan. An entry of at least 600 seconds within the scan is forgotten and no younger one is; the scan stops early only with 101 ports |
| PortServers.PortServer.AllocatePort | lib/grpc/tools/run_tests/port_server.py:73-81 | Lends the head of the pool and notes the time; with an empty pool it is the lowest of the ports that the scan could bind, and the others make up the pool. Fails only when each of the 55000 ports was refused on this call or lent less than 600 seconds before it |
| PortServers.PortServer.LendFirst | lib/grpc/tools/run_tests/port_server.py:78-81 | Takes the first port out of the pool and records its time of lending |
| PortServers.Lend | lib/grpc/tools/run_tests/port_server.py:78-81 | Lending a port that is not on record as in use keeps any two loans of it 600 seconds apart |
| PortServers.ScanTakes | lib/grpc/tools/run_tests/port_server.py:56-66 | A port that binds joins a pool that stays ascending, hence free of duplicates |
| StringReplacing.StringReplace | lib/grpc/src/compiler/generator_helpers.h:62-76 | The in-place loop: with `replace_all` it joins the leftmost non-overlapping split on `from` with `to`, also when `to` contains `from`; without it, it replaces the first occurrence, if there is one, and nothing else |
| StringReplacing.ReplaceAll | lib/grpc/src/compiler/ruby_generator_string-inl.h:78-86 | Computes the same function as `StringReplace` with `replace_all` |
| StringReplacing.Replace | lib/grpc/src/compiler/ruby_generator_string-inl.h:67-75 | Either `from` occurs nowhere and the text comes back unchanged, or there is a position where it occurs, with no earlier one, and the result is the text with `to` in its place there |
| StringReplacing.SplitIsSplit | lib/grpc/src/compiler/generator_helpers.h:62-76 | The pieces join to the text again and contain `from` nowhere, not even across their ends into the next separator |
| StringReplacing.SplitIsUnique | lib/grpc/src/compiler/generator_helpers.h:62-76 | No other list of pieces has these properties, so the split is the leftmost one |
| StringReplacing.LoopEndsIffNonEmpty | lib/grpc/src/compiler/generator_helpers.h:66-73 | The loop with `replace_all` terminates if and only if `from` is not empty |
| StringReplacing.Round | lib/grpc/src/compiler/generator_helpers.h:67-72 | One round: the text before `pos` is final, the text after it is still the original tail |
| StringReplacing.DotsRoundTrip | lib/grpc/src/compiler/cpp_generator_helpers.h:43-45 | "."→"::" then "::"→"." gives the name back if and only if the name contains neither "::" nor ":."; in particular on all colon-free names |
| Tokenizing.Tokenize | lib/grpc/src/compiler/generator_helpers.h:83-101 | The loop yields the stretches between delimiters |
| Tokenizing.TokensTakeApart | lib/grpc/src/compiler/generator_helpers.h:83-101 | Weaving tokens and delimiters gives the text back, no token contains a delimiter, and there is one token more than delimiters |
| Tokenizing.TakenApartIsUnique | lib/grpc/src/compiler/generator_helpers.h:83-101 | The text can be taken apart in no other way |
| Tokenizing.JoinTokens | lib/grpc/src/compiler/generator_helpers.h:83-101 | With a one-character delimiter: joining the tokens gives the text back, no token contains it, and the count is one plus its occurrences |
| Tokenizing.Split | lib/grpc/src/compiler/ruby_generator_string-inl.h:49-64 | Appends `tokenize(s, delim)` without its last token exactly when that token is empty |
| Tokenizing.StringStream.GetLine | lib/grpc/src/compiler/ruby_generator_string-inl.h:53-53 | One `getline`: up to the delimiter, which is consumed, or to the end; fails when nothing is left to take |
| Tokenizing.LineTaken | lib/grpc/src/compiler/ruby_generator_string-inl.h:53-55 | What one successful `getline` takes is the next element of the specification |
| FilenameIdentifiers.FilenameIdentifier | lib/grpc/src/compiler/cpp_generator.cc:69-83 | The loop computes the encoding |
| FilenameIdentifiers.EncodeByte | lib/grpc/src/compiler/cpp_generator.cc:74-80 | One byte stays as it is exactly in the ranges 48-57, 65-90 and 97-122; any other becomes `_` and its two lower-case hexadecimal digits, the upper one first |
| FilenameIdentifiers.EncodeInTwo | lib/grpc/src/compiler/cpp_generator.cc:72-82 | The encoding goes byte by byte |
| FilenameIdentifiers.DecodesExactly | lib/grpc/src/compiler/cpp_generator.cc:69-83 | A decoder returns a name for an identifier if and only if the identifier is the encoding of that name, on all byte strings |
| FilenameIdentifiers.DecodeEncode | lib/grpc/src/compiler/cpp_generator.cc:69-83 | The decoder is a left inverse |
| FilenameIdentifiers.EncodeDecode | lib/grpc/src/compiler/cpp_generator.cc:69-83 | Whatever decodes is an encoding |
| FilenameIdentifiers.GuardsDiffer | lib/grpc/src/compiler/cpp_generator.cc:95-104 | Different file names get different include guards |
| FilenameIdentifiers.EncodesToIdentifier | lib/grpc/src/compiler/cpp_generator.cc:73-79 | The result has only alphanumerics and `_` |
| FilenameIdentifiers.HexTable | lib/grpc/src/compiler/cpp_generator.cc:76-76 | The digits are those of the table |
| BitSets.BitCountIsSize | lib/grpc/grpc/support/useful.h:64-73 | `GPR_BITCOUNT` is the size of the set a 32-bit word stands for, for every word |
| BitSets.BitCountIsPopCount | lib/grpc/grpc/support/useful.h:64-73 | `GPR_BITCOUNT` counts the ones of every 32-bit word |
| BitSets.BitsMakeUpWord | lib/grpc/grpc/support/useful.h:55-73 | The bits are those of the binary numeral: a word is the sum of the powers of two at its ones |
| BitSets.DigitBitCounts | lib/grpc/grpc/support/useful.h:64-66 | The three masked subtractions leave in every hexadecimal digit the number of its ones, at any number of digits |
| BitSets.ByteSums | lib/grpc/grpc/support/useful.h:69-72 | The masked sum leaves in every byte the number of its ones, without a carry, at any number of bytes |
| BitSets.WordNibbles | lib/grpc/grpc/support/useful.h:64-66 | On a 32-bit word the macro computes the digit counts |
| BitSets.WordCount | lib/grpc/grpc/support/useful.h:73-73 | The remainder modulo 255 of the byte counts of a word is the number of its ones |
| BitSets.NumeralMod255 | lib/grpc/grpc/support/useful.h:73-73 | A base-256 numeral is congruent to its digit sum modulo 255 |
| BitSets.NothingWraps | lib/grpc/grpc/support/useful.h:64-73 | The unsigned arithmetic of the macro stays within the word, so naturals are faithful |
| BitSets.BitGetIsMember | lib/grpc/grpc/support/useful.h:61-62 | `GPR_BITGET` is membership |
| BitSets.MembersOfSet | lib/grpc/grpc/support/useful.h:55-56 | `GPR_BITSET` adds exactly its bit |
| BitSets.MembersOfClear | lib/grpc/grpc/support/useful.h:58-59 | `GPR_BITCLEAR` removes exactly its bit |
| BitSets.Cell.Insert | lib/grpc/grpc/support/useful.h:55-56 | In place: the set gains `n` and nothing else changes |
| BitSets.Cell.Remove | lib/grpc/grpc/support/useful.h:58-59 | In place: the set loses `n` and nothing else changes |
| BitSets.Cell.Apply | lib/grpc/grpc/support/useful.h:55-73 | After any sequence of operations membership tests and the count agree with the modelled set |
| JsonMerging.MergeIsAssociative | lib/grpc/tools/buildgen/bunch.py:56-67 | (a·b)·c and a·(b·c) fail together or are equal, for all JSON trees |
| JsonMerging.GroupsCanBePremerged | lib/grpc/tools/buildgen/mako_renderer.py:107-110 | For any list of non-empty groups of `-d` files, merging the groups, each merged by itself beforehand, equals merging all files one by one, failure included |
| JsonMerging.GroupCanBePremerged | lib/grpc/tools/buildgen/mako_renderer.py:107-110 | The same for one group |
| JsonMerging.FoldInTwo | lib/grpc/tools/buildgen/mako_renderer.py:107-110 | Merging can stop after any number of files and go on from there |
| JsonMerging.MergeByKey | lib/grpc/tools/buildgen/bunch.py:57-63 | Dictionaries merge key by key, left-biased on `#`, and fail exactly when some key fails |
| JsonMerging.CommentIsKept | lib/grpc/tools/buildgen/bunch.py:59-60 | A `"#"` in both is kept from `dst`, and the one of `add` makes no difference, not even to whether the merge fails |
| JsonMerging.EntriesOfMerge | lib/grpc/tools/buildgen/bunch.py:58-63 | A merged dictionary has the keys of both, what only one of them has as it is there, and the merge of what both have |
| JsonMerging.ListsAndOthers | lib/grpc/tools/buildgen/bunch.py:64-67 | Lists are merged by appending, and two values that are neither two lists nor two dictionaries not at all |
| JsonSharing.MergesAsValuesIff | lib/grpc/tools/buildgen/bunch.py:56-67 | For a `dst` in memory that may share nodes in any way: whatever is merged into it that shares nothing with it, in whatever order dictionaries give their items, the nodes end up standing for the merge of the values, and the exception is raised exactly when there is none, if and only if no node that a merge can reach from `dst` (through dictionaries, past no `#`) is reached by a second path of whatever kind |
| JsonHeaps.MergeIsRight | lib/grpc/tools/buildgen/bunch.py:56-67 | The sufficient half on every heap, with what it keeps: only nodes that a merge can reach change, nothing comes in from elsewhere, and if `add` has no second paths either the outcome has none |
| JsonHeaps.PairsAreRight | lib/grpc/tools/buildgen/bunch.py:58-63 | The loop over the items of `add`: after any part of the keys the dictionary is merged on these and untouched on the others, and a failing key makes the whole merge fail |
| JsonHeaps.KeyIsRight | lib/grpc/tools/buildgen/bunch.py:58-63 | One round: a new key refers to what `add` refers to, `#` is kept, any other key is merged below |
| JsonHeaps.HalfwayStep | lib/grpc/tools/buildgen/bunch.py:58-63 | As values, merging one more key brings the dictionary one key closer to the merge; a key that has no merge means that the dictionaries have none |
| JsonHeaps.Unchanged | lib/grpc/tools/buildgen/bunch.py:56-67 | A reference stands for the same value in any heap that agrees on what lies below it |
| JsonSharing.ClearIffNotShared | lib/grpc/tools/buildgen/bunch.py:56-67 | The condition in terms of paths and the one the induction uses are the same |
| JsonSharing.SharingSpoils | lib/grpc/tools/buildgen/bunch.py:56-67 | The necessary half: where a node that a merge can reach has a second path, some `add` built from new nodes is merged wrongly |
| JsonSharing.ChainMerges | lib/grpc/tools/buildgen/bunch.py:56-67 | Merging a chain of one-entry dictionaries changes the node at the end of its path and no other, whatever is shared |
| JsonSharing.ForkSpoils | lib/grpc/tools/buildgen/bunch.py:56-67 | That change shows at the second path, where the merge of the values has none |
| JsonSharing.ListElementChanges | lib/grpc/tools/buildgen/bunch.py:56-67 | A file that goes wrong: with `{b: d, a: [d]}`, where d is one dictionary, merging `{b: {x: 2}}` changes the element of the list, too |
| InPlaceMerging.MergeJson | lib/grpc/tools/buildgen/bunch.py:56-67 | The code on objects, whatever they share: it leaves the nodes exactly as the heap function says, the partial changes before an exception included |
| InPlaceMerging.MergeItems | lib/grpc/tools/buildgen/bunch.py:58-63 | The loop, over the items as they are when it begins |
| InPlaceMerging.MergeItem | lib/grpc/tools/buildgen/bunch.py:59-63 | The body of the loop |
| InPlaceMerging.MergeFile | lib/grpc/tools/buildgen/bunch.py:56-67 | On a `dst` without second paths to what a merge can reach, the objects end up standing for the merge of the values, and the exception is raised exactly when there is none; `add` may share nodes within itself |
| InPlaceMerging.MergeFiles | lib/grpc/tools/buildgen/mako_renderer.py:76-110 | The files given with `-d`, each read into new nodes and merged into an empty dictionary: the outcome stands for the fold of the values, and fails exactly when the fold does |
| InPlaceMerging.Load | lib/grpc/tools/buildgen/mako_renderer.py:109-109 | A file without aliases becomes nodes that stand for its value and share nothing |

## Left out

- MonitorQueue.StepRefinesFifo: condition variables are over-approximated: any sleeper may wake at any time, and any wait of `queue_remove` may report its deadline; that a broadcast wakes in bounded time is not modelled, so the theorems are about safety and about which standstills are possible. The try-lock may also fail when the mutex is free.
- MonitorQueue.StandstillIsJustified: says that nobody is blocked without cause, not that a fair scheduler serves every thread.
- FetchAdd.Linearizable: all steps are sequentially consistent; the memory-order variants of the atomic operations are not told apart. The word is a residue modulo its size, so signed overflow is taken to wrap as two's complement does.
- FetchAdd.RetriesAreBounded: holds while only fetch-adds run on the word; plain stores by other code are not modelled.
- FetchAdd.Word.FetchAdd: what other threads add before each read and before each swap is given as a finite list, one entry a round; after the last entry they leave the word alone.
- Jobsets.Run: the specs form a finite list, so `infinite_runs` is not modelled, and `maxjobs` is at least 1.
- Jobsets.Job.State: messages, temporary files, XML reports and the subprocess itself are not modelled; of the process there is only the answer to a poll. A poll reads the clock once, also when the process has ended.
- Jobsets.Jobset.HashOf: the exception for a hash target that cannot be found is not modelled; what a file contains when it is read is arbitrary, and the digest is any function.
- Jobsets.Jobset.Poll: whether a process has exited, and with which code, is arbitrary at each poll; the answer is recorded in the world and named `exit` in the contract.
- Jobsets.Jobset.Reap: rests on every pause coming to an end; that an alarm can go off between arming it and `signal.pause()` is not modelled.
- Suites.Live: there is no cache file in the beginning, and nobody else writes it. A process that dies is looked at between two removals of jobs, which is where what the cache knows has last changed; a file half written is not modelled.
- PortServers.PortServer.RefillPool: whether binding a port succeeds is arbitrary; the answers are recorded in the world.
- PortServers.PortServer.AllocatePort: the exception on an empty pool is the answer `None`, and the HTTP handler around the call is not modelled.
- ProfileAnalyzer.Analyzer.Read: entries come as a sequence; the regular expression that reads lines, `get_deltas` and the printed tables are not modelled. The exception of `pop` on an empty stack ends the run with `false`, and nothing is said about the containers then.
- ProfileAnalyzer.Analyzer.ReadMark: a group is keyed by the four fields of its formatted name, so names that format alike are kept apart.
- ProfileMarks.RecordedIffFewYounger: needs a properly nested log, as do the other theorems on marks; on other logs only the recording rule itself is proved of the loop.
- Percentiles.PercentileIsMonotone: over the reals, without rounding; the exception for an empty list is a precondition.
- StringReplacing.StringReplace: needs a non-empty `from` to replace all, since the loop does not end otherwise; the same holds of `ReplaceAll`.
- Tokenizing.StringStream.GetLine: the flags of the stream are those that `getline` itself reads and sets, and the vector given to `Split` is a value.
- FilenameIdentifiers.EncodesToIdentifier: `isalnum` is that of ASCII, whatever the locale.
- BitSets.BitCountIsSize: for 32-bit operands, which the masks are made for; words are naturals with bitwise operators defined digit by digit.
- JsonSharing.MergesAsValuesIff: memory without cycles, and an `add` that shares no node with `dst`, which two files read one after the other never do.
- InPlaceMerging.Load: files without aliases; `MergeFile` and the theorems about heaps cover those with aliases.
- `RubyTypeOf`, `ReplacePrefix`, the case-changing helpers, `to_bunch` and the generators' text templates: straight-line code or printing.
- The CrowdSound application and the API headers of gRPC and Spotify: declarations without bodies.
- The other build and test scripts: configuration, argument parsing and file handling.

# Verified models of the ns-3 tools and examples in this repository

The repository is an ns-3 tree with routing experiments. Most of its own files only wire library
helpers together; this project models the ones that hold an algorithm, and proves what these
algorithms are for.

* **test.py**: one main thread, worker threads, two FIFO queues, stop markers and a SIGINT flag.
  `WorkerPool` is the transition system in which every action of a thread is one step that any other
  thread can come between; `WorkerPoolRuns` has the statements over all interleavings;
  `ResultCollector` is the loop that counts results and pushes and pops `failed_jobs`; `TestRunner` is
  the whole as an object with queues, driven by a schedule; `RerunFailed` follows `--rerun-failed`
  from one run to the next.
* **utils/print-introspected-doxygen.cc**: `StaticInformation`, a backtracking search with two stacks
  over a labelled multigraph (`ConfigGraph` is the graph, `ConfigEdges` says what it is for a registry of
  types, `ConfigPaths` is the search).
* **utils/check-style-clang-format.py**: the line fixers and the file pass with its clang-format guards
  (`StyleText`, `StyleChecks`, `StyleLines`, `StyleFiles`), what each check asks of
  a line (`StyleRules`), what a fixer does to the other checks (`StylePairs`), all six fixers one after the other (`StylePipeline`), and two odd lines (`StyleWitnesses`).
* **bindings/python/ns__init__.py**: the layered dependency sort (`DependencySort`, `DependencySorter`).
* **utils/bench-scheduler.cc**: the event population and the runs of a suite (`BenchScheduler`) and Welford's statistics over
  the reals (`Welford`).
* **examples/tcp**: the resumable writer (`LargeTransfer`), Jain's index in wrapping 64-bit arithmetic
  (`Fairness`), and the two tracers that write to each other's streams (`CwndTracers`).

Where the source changes state, the model is a class or a method with the same fields and loops, proved
against a specification function; the lemmas are about those functions. `dafny verify dfyconfig.toml`
checks everything.

## What the proofs show about the code

* A pool with at least one thread never gets stuck, and every interleaving ends after at most
  6·jobs + 4·threads + 1 steps. A negative `--jobs` is not rejected, starts no thread, and then a run
  with a job cannot end (`CanFinishIff`, `NoThreadsIff`).
* A suite that fails and says so in its result file is listed twice in `failed_jobs`
  (`FailedJobsOfRun`), so `--verbose-failed` prints what it wrote, if anything, twice.
* Along uninterrupted reruns a job recorded as passed is never executed again. An interrupted run leaves
  no record of the jobs it gave up, so a job that had passed is executed again by the next rerun, exactly
  in that case (`PassedJobRunsAgainIff`, with three runs in `PassedJobRunsAgain`).
* For a suite the rerun believes the result file and not the return code. One that returns 1 while its
  file says PASS or SKIP is skipped by `--rerun-failed`, and one that returns 0 while its file says neither
  is executed again, exactly in these cases (`SkipFollowsStatusIff`).
* The comment above `Uniquefy` says that the container is modified in place. It is passed by value, so
  `Gather` leaves its entries in search order and with repetitions; `GetTypicalAggregations` records the
  same aggregation at lines 555 and 557, and every root from which the search comes to one end of it before
  the other repeats entries (`RepeatedAggregationRepeatsOutput`, `RepetitionStays`).
* Running the six fixers modelled here in the order of `CHECKS` does not always leave a file that passes: a tab in a comment
  can become the blank that completes a line of the licence text, after the licence check
  (`TabMakesLicenceText`). This is the only thing that goes wrong, the other five checks always pass
  (`PipelinePasses`), and a second run repairs it: two runs suffice for every file (`TwoRunsSuffice`).
* The tab fixer can turn an ordinary line into a guard (`TabMakesGuard`). Fixing and checking again still
  passes, because such a line only appears where checking is on, and no line that switches it off is lost.
* The dependency sort ends exactly for a map in which no dependency is missing and none is circular;
  otherwise it recurses until Python gives up.
* `bench-scheduler` measures the scheduler it was asked for in the priming run only. Each run ends with
  `Simulator::Destroy`, and the next one gets a new simulator with the default scheduler (`Bench.Suite`).
* Jain's index as `dctcp-example` computes it is 0/0 for ten flows of 4 GiB each, and far above 1 for other
  counters, once its divisor does not fit in 64 bits (`EqualFlowsUndefined`, `UnequalFlowsAboveOne`).

## Model

| member | source | states |
|---|---|---|
| WorkerPool.StepInv | test.py:1086-1170 | every step of a worker, the main thread or SIGINT keeps: the input queue is the untaken jobs in dispatch order and then stop markers, a taken job is in one place, each report is the job's own outcome or an interruption |
| WorkerPoolRuns.Conservation | test.py:1682-1683 | in every interleaving a dispatched job is in exactly one of input queue, one worker, output queue, collected; no other job is anywhere |
| WorkerPoolRuns.StopMarkers | test.py:1936-1939 | markers in the input queue plus workers that consumed one are the markers put; a worker only returns when everything is dispatched and no job is left in the input queue |
| WorkerPoolRuns.CollectedInOrder | test.py:1951-1961 | in every interleaving the reports are collected in the order in which the workers put them |
| WorkerPoolRuns.StepDecreases | test.py:1086-1170 | every step lowers the measure, which is where the bound on the length of a run comes from |
| WorkerPoolRuns.NoDeadlock | test.py:1936-1960 | with at least one thread some thread other than a signal can move until the joins are passed |
| WorkerPoolRuns.EveryRunCompletes | test.py:2118-2119 | every interleaving is at most 6 jobs + 4 threads + 1 steps long, is final or can go on, and when final has both queues empty, all threads returned and one report per job |
| WorkerPoolRuns.CanFinishIff | test.py:1622-1625 | a complete run exists exactly when a thread was started or there is no job |
| WorkerPoolRuns.NoThreadsIff | test.py:1611-1622 | with a processor there is no thread exactly for a negative limit, and never more threads than processors |
| WorkerPoolRuns.ThreadsAre | test.py:1611-1622 | a positive limit is kept and never raises the number of processors, 0 is no limit, a negative one leaves no thread |
| WorkerPoolRuns.TotalsDoNotDependOnSchedule | test.py:1951-1995 | two complete uninterrupted runs over the same jobs give the same counters for any interleavings and numbers of threads: those of the jobs' own outcomes |
| WorkerPoolRuns.UninterruptedTotals | test.py:1971-1995 | after a complete uninterrupted run the five counters are the numbers of jobs returning 0, 1, 2, anything else, and to be skipped |
| WorkerPoolRuns.ExitCodeOfRun | test.py:2228-2231 | in every complete run the six counters add up to the jobs, and the result is 0 exactly when nothing was interrupted and every job passes or is skipped |
| WorkerPoolRuns.InterruptGivesUpTheRest | test.py:1095-1112 | once `thread_exit` is set the jobs that are run or skipped are exactly those a worker had already decided about; every other one is given up, even a job to be skipped |
| TestJobs.ExitCodeMeaning | test.py:2228-2231 | passed plus skipped equal the number of reports exactly when each report is a pass or a skip |
| TestJobs.CountsByCode | test.py:1971-1995 | the counters are the numbers of reports with return codes 0, 1, 2 and others, and of skips |
| TestRunner.Runner.StepWorker | test.py:1087-1170 | one step of a worker on the queues is the step of the transition system |
| TestRunner.Runner.RunTests | test.py:1584-2119 | following any complete schedule, the main thread looks at each report as soon as it has collected it; the run raises exactly when a promised result file is missing, at that report, with nothing collected or joined after it; otherwise it follows the schedule to its end, and the result is 0 exactly when no job was interrupted and all pass or are skipped |
| ResultCollector.Collector.Look | test.py:1964-2111 | return code 0, 1, 2 or any other raises the passed, failed, valgrind or crashed counter by one, a skip the skipped one; an example is recorded with the word for its code, a suite with what its own file says unless the code is 2 or unusual; raises exactly for a missing file promised by codes 0 to 2; after all pushes and pops the job is in `failed_jobs` as often as code and file say |
| ResultCollector.Collector.CollectAll | test.py:1959-2111 | the counters are the numbers of reports with each return code, `failed_jobs` and records those of the reports in collection order; it ends early exactly for a missing result file |
| ResultCollector.FailedJobsCount | test.py:1975-1980 | a job collected once is in `failed_jobs` exactly as often as its own report leaves it there, whatever was collected around it |
| ResultCollector.FailedJobsOfRun | test.py:2086-2105 | after any complete run: interrupted and skipped jobs never, non-zero return codes always, zero only for a suite whose file is not PASS or SKIP; a failing suite that says so twice |
| RerunFailed.SuccessfulIff | test.py:1193-1205 | the skip list of a kind holds a name exactly when some record of that kind and name says PASS or SKIP |
| RerunFailed.NextSkipIff | test.py:1675-1677 | a suite or C++ example is skipped next time exactly when it is skipped anyway or this run recorded PASS or SKIP for it |
| RerunFailed.SkipFollowsStatusIff | test.py:2086-2105 | the next run's decision differs from the status by return code exactly for a suite whose file says PASS or SKIP with return code 1 or neither with 0, and for an interrupted job that is skipped anyway |
| RerunFailed.ExecutedBadlyIff | test.py:1975-1995 | unless its result file disagrees, a job executed and not recorded as PASS or SKIP is one executed with a non-zero return code |
| RerunFailed.RerunExecutes | test.py:1745-1750 | an uninterrupted rerun executes exactly the suites and C++ examples executed before and not recorded as PASS or SKIP, and every Python example not skipped for another reason |
| RerunFailed.ExecutedSetsShrink | test.py:1176-1205 | along a chain of uninterrupted reruns what is executed in run k was executed, and not recorded as PASS or SKIP, in every run before |
| RerunFailed.PassedJobRunsAgainIff | test.py:1961-1962 | a job recorded as PASS or SKIP two runs ago is executed again exactly when the run in between interrupted it |
| RerunFailed.PassedJobRunsAgain | test.py:1093-1112 | three concrete interleavings in which that happens: an example passes, its rerun gets SIGINT before the worker looks at it, the third run executes it again |
| ConfigGraph.SearchExact | utils/print-introspected-doxygen.cc:437-521 | the search from empty stacks appends in preorder one entry for each node-simple walk and nothing else, each shorter than the number of types |
| ConfigGraph.SimpleIff | utils/print-introspected-doxygen.cc:441-444 | a walk is followed exactly when it repeats no type |
| ConfigGraph.SimpleIsShort | utils/print-introspected-doxygen.cc:441-444 | a node-simple walk has fewer edges than there are types |
| ConfigGraph.WalksPreordered | utils/print-introspected-doxygen.cc:446-520 | walks are followed in preorder, so none twice |
| ConfigGraph.RecordedIff | utils/print-introspected-doxygen.cc:362-367 | a (type, path) pair is recorded exactly when a node-simple walk with those labels ends at the type |
| ConfigGraph.RepeatsIff | utils/print-introspected-doxygen.cc:413-419 | the output has no repetition exactly when no two node-simple walks share end and labels |
| ConfigGraph.RecordedFromIff | utils/print-introspected-doxygen.cc:576-580 | with several roots a (type, path) pair is recorded exactly when a node-simple walk from one of them with those labels ends at the type |
| ConfigGraph.RepeatsFromIff | utils/print-introspected-doxygen.cc:576-580 | with several roots the output has no repetition exactly when no two such walks, from the same or from different roots, share end and labels |
| ConfigEdges.EdgesFromRegistry | utils/print-introspected-doxygen.cc:446-520 | the edges of a type are one for each pointer attribute not to `Object`, each container attribute, each registered child type and each aggregation with the type at one end, with these labels and in this order |
| ConfigEdges.EdgeIff | utils/print-introspected-doxygen.cc:446-520 | an edge is there exactly when one of these leads to its target under its label |
| ConfigPaths.PathGrows | utils/print-introspected-doxygen.cc:446-520 | a path to a type, a slash and the label of what the type leads to is recorded for the target, if the walk has not visited it |
| ConfigPaths.FirstSteps | utils/print-introspected-doxygen.cc:446-520 | the root is recorded with the empty path and everything it leads to with a slash and the label |
| ConfigPaths.PathsComeFrom | utils/print-introspected-doxygen.cc:446-520 | every other recorded path comes from a shorter one in this way |
| ConfigPaths.GetExact | utils/print-introspected-doxygen.cc:383-396 | after the searches from any number of roots `Get` returns exactly the label paths of node-simple walks from one of them ending at the type |
| ConfigPaths.PathsOfInOrder | utils/print-introspected-doxygen.cc:383-396 | the paths for a type are those of its entries, each once and in their order |
| ConfigPaths.RepeatedAggregationRepeatsOutput | utils/print-introspected-doxygen.cc:500-520 | with an aggregation recorded twice the search from any root repeats an entry as soon as some node-simple walk ends at one end of it without having visited the other |
| ConfigPaths.RepetitionStays | utils/print-introspected-doxygen.cc:576-580 | a repetition in the search from one root stays in the output of all searches |
| ConfigPaths.StaticInformation.GetCurrentPath | utils/print-introspected-doxygen.cc:350-360 | the loop gives the components each behind a slash |
| ConfigPaths.StaticInformation.HasAlreadyBeenProcessed | utils/print-introspected-doxygen.cc:369-381 | the loop decides whether the type is on the path |
| ConfigPaths.StaticInformation.Get | utils/print-introspected-doxygen.cc:383-396 | the loop selects the paths recorded for the type, in order |
| ConfigPaths.StaticInformation.GatherAttributes | utils/print-introspected-doxygen.cc:446-486 | the attribute loop follows exactly the pointers (not to `Object`) and the containers, in order, and restores both stacks |
| ConfigPaths.StaticInformation.GatherChildren | utils/print-introspected-doxygen.cc:487-499 | the child loop follows exactly the registered child types, in order, and restores both stacks |
| ConfigPaths.StaticInformation.GatherAggregates | utils/print-introspected-doxygen.cc:500-520 | the aggregation loop follows exactly the aggregations that have the type at one end, in order, and restores both stacks |
| ConfigPaths.StaticInformation.DoGather | utils/print-introspected-doxygen.cc:437-521 | terminates on every finite type graph, cyclic or not; at every call no type is on the path twice and the path has one component for each; restores both stacks, and appends what the search specification says |
| ConfigPaths.StaticInformation.Gather | utils/print-introspected-doxygen.cc:429-435 | leaves the search's entries unsorted and unremoved, since `Uniquefy` gets a copy; among them are the root with the empty path and whatever an attribute, a child type or an aggregation leads to, with its label behind a slash |
| ConfigPaths.StaticInformation.GatherRoots | utils/print-introspected-doxygen.cc:576-580 | the loop over the roots leaves the searches' entries one after the other |
| StyleFiles.FixThenCheckPasses | utils/check-style-clang-format.py:639-680 | for each of six checks, with or without guards, and any file: the fixed file passes the same check, and fixing it again changes nothing |
| StyleFiles.EnabledOnlyIfBefore | utils/check-style-clang-format.py:648-656 | what is enabled in the second pass was enabled in the first, although lines can become guards or disappear |
| StyleFiles.OffRegionUnchanged | utils/check-style-clang-format.py:656-659 | a line in a region that is switched off is not changed |
| StyleFiles.EnabledIff | utils/check-style-clang-format.py:648-659 | checking is on before a line exactly when every off guard above it is followed by an on guard above it |
| StyleFiles.FileCompliesIff | utils/check-style-clang-format.py:639-680 | verdict and fixed content of a file, said of each line by its place among the guards |
| StyleFiles.ReadWhatWasWritten | utils/check-style-clang-format.py:643-678 | reading the written lines gives them back without the deleted ones |
| StyleFiles.CheckManuallyFile | utils/check-style-clang-format.py:619-680 | a line is concerned if it is a guard or every off guard above it is followed by an on guard above it, or if guards are not respected; the file complies exactly when all concerned lines do, and fix mode replaces exactly the concerned lines that do not; leaving the loop early does not change the verdict |
| StyleChecks.FixedLineComplies | utils/check-style-clang-format.py:734-991 | one application of a fixer is enough: the line is deleted or complies |
| StyleChecks.TagRangeIff | utils/check-style-clang-format.py:798-800 | the scanner finds a Doxygen tag exactly where the regular expression matches |
| StyleChecks.DoxygenFixed | utils/check-style-clang-format.py:802-809 | after the replacement no tag is found |
| StyleChecks.CoreReplaced | utils/check-style-clang-format.py:859-873 | the SPDX text takes the place of the licence text with white space and comment characters kept, and is the new core of the line |
| StyleChecks.WhitespaceIff | utils/check-style-clang-format.py:943-946 | a line complies exactly when it ends with a line break that no white space precedes |
| StyleRules.IncludeChanges | utils/check-style-clang-format.py:755-760 | in an `#include` line every angle bracket becomes a quote and nothing else changes |
| StyleRules.DoxygenChanges | utils/check-style-clang-format.py:802-809 | every occurrence of the tag gets an at sign for its backslash and nothing else changes |
| StyleRules.LicenceTextIff | utils/check-style-clang-format.py:858-874 | the check finds exactly the lines that hold one line of the licence text between white space and comment characters; all but the first are deleted |
| StyleRules.EmacsIff | utils/check-style-clang-format.py:907-916 | the check finds the two patterns anywhere in the line |
| StyleRules.TabsIff | utils/check-style-clang-format.py:979-983 | the check finds exactly the lines that expanding changes |
| StyleLines.OffGuardStays | utils/check-style-clang-format.py:650-656 | a fixer that changes a line that switches checking off leaves such a line |
| StyleLines.FixedShape | utils/check-style-clang-format.py:666-668 | a fixed line is deleted or still one line with its line break |
| StyleText.ExpandCharacters | utils/check-style-clang-format.py:978-983 | expanding removes every tab, adds no line break and keeps white space white |
| StyleText.TabStop | utils/check-style-clang-format.py:983 | a tab goes to the only multiple of four within the next four columns, any other character one column on, a line break to 0 |
| StyleText.TabFillsToStop | utils/check-style-clang-format.py:983 | a tab behind a text becomes one to four blanks that make the expanded text as long as a multiple of four |
| StyleText.ExpandWidth | utils/check-style-clang-format.py:983 | an expanded line is as wide as the column it reaches |
| StyleText.ExpandKeepsColumn | utils/check-style-clang-format.py:983 | each character that is not a tab stays at its column, counted with the tab stops of `TabStop` |
| StyleText.ExpandFillsWithBlanks | utils/check-style-clang-format.py:983 | every other column is blank |
| StylePairs.TabsKeepWhitespaceOk | utils/check-style-clang-format.py:975-991 | expanding tabs creates no trailing white space |
| StylePairs.LaterKeepsEarlier | utils/check-style-clang-format.py:77-87 | of the fifteen pairs in the order of the checks fourteen are safe: whatever line passes the earlier check is deleted by the later fixer or still passes; the pair left out is licence and tabs |
| StylePairs.LicenseKeeps | utils/check-style-clang-format.py:853-874 | the licence fixer undoes none of the five other checks |
| StylePairs.ExpandTag | utils/check-style-clang-format.py:798-809 | a Doxygen tag in an expanded line comes from the same tag in the line |
| StylePipeline.FixKeeps | utils/check-style-clang-format.py:639-680 | if a fixer loses a check on no line, it loses it on no file, for all guard settings of the two and although guards can appear |
| StylePipeline.TabsKeepLicenceIff | utils/check-style-clang-format.py:959-991 | a file that passes the licence check passes it after the tab fixer exactly when no line with a tab that the check then looks at expands to licence text |
| StylePipeline.PipelinePasses | utils/check-style-clang-format.py:77-87 | after all six fixers in the order of `CHECKS` five checks pass for every file, and the licence check exactly under that condition on the file the tab fixer reads |
| StylePipeline.TwoRunsSuffice | utils/check-style-clang-format.py:77-87 | after two runs of all fixers every file passes all six checks and a third run changes nothing |
| StyleWitnesses.TabMakesLicenceText | utils/check-style-clang-format.py:959-991 | a line that passes the five checks before the tab check and does not pass the licence check after one run of all fixers |
| StyleWitnesses.TabMakesGuard | utils/check-style-clang-format.py:650-656 | a line that is no guard and that the tab fixer makes a guard that switches checking off |
| StylePipeline.WhitespaceThenTabs | utils/check-style-clang-format.py:77-87 | after the white space fixer and then the tab fixer any file passes both checks |
| DependencySort.LayerIsChainLength | bindings/python/ns__init__.py:453-468 | layer k holds exactly the libraries whose longest dependency chain has length k |
| DependencySort.LoadedIff | bindings/python/ns__init__.py:440-451 | a library is not loaded in k layers exactly when a chain of k dependencies, or a shorter one leaving the map, starts at it |
| DependencySort.LayersInOrder | bindings/python/ns__init__.py:461-466 | every library comes after all its dependencies |
| DependencySort.LayersMember | bindings/python/ns__init__.py:461-466 | the concatenated layers hold exactly the libraries loadable so far |
| DependencySort.LayerKeepsOrder | bindings/python/ns__init__.py:440-451 | within a layer the libraries stand in the order of the pending list |
| DependencySort.NoProgressIff | bindings/python/ns__init__.py:440-451 | a round adds nothing exactly when every pending library has a dependency that is missing from the map or pending |
| DependencySort.NoProgressMeansCycle | bindings/python/ns__init__.py:453-468 | with all dependencies in the map such a round on a non-empty list means a cycle |
| DependencySort.SortableIff | bindings/python/ns__init__.py:453-468 | everything is loaded after some round exactly when the map is closed and without cycles |
| DependencySorter.SortSucceedsIff | bindings/python/ns__init__.py:453-475 | some recursion depth suffices exactly for closed maps without cycles, and then one more than the number of libraries does |
| DependencySorter.Sorter.ModulesThatCanBeLoaded | bindings/python/ns__init__.py:440-451 | the nested loops select the pending libraries all of whose dependencies are current |
| DependencySorter.Sorter.LoadModules | bindings/python/ns__init__.py:461-466 | the loop moves the round's libraries from the pending to the current list and into the step, in order |
| DependencySorter.Sorter.DependencyOrder | bindings/python/ns__init__.py:453-468 | the recursion ends with an empty pending list and the layers in `steps`, or runs out of stack frames exactly when no allowed round empties the list |
| DependencySorter.Sorter.SortToDependencies | bindings/python/ns__init__.py:429-475 | the result holds each library once, after its dependencies, and exists exactly when the rounds the recursion depth allows load everything |
| BenchScheduler.Bench.Cb | utils/bench-scheduler.cc:152-165 | schedules one successor at the next random delay from now and counts one event, or stops once the total is reached |
| BenchScheduler.Bench.Populate | utils/bench-scheduler.cc:133-137 | the initial events are one for each of the next delays of the stream, at these times and numbered in order |
| BenchScheduler.Bench.Simulate | src/core/model/default-simulator-impl.cc:176-191 | the loop fires events until a callback stops it: the total is counted and one more callback runs, or nothing happens without a population |
| BenchScheduler.Bench.Run | utils/bench-scheduler.cc:122-150 | after every callback but the last the population is whole; events fire in key order, so the clock never goes back; exactly the total is counted if there is a population, and nothing otherwise; one delay is drawn for each event scheduled; the `Destroy` at the end leaves an empty simulator with the default scheduler, so that runs can be repeated |
| BenchScheduler.Bench.Suite | utils/bench-scheduler.cc:256-298 | all runs of a suite count the same number of events, and every one but the priming run uses the default scheduler, whichever was set |
| Welford.WelfordStep | utils/bench-scheduler.cc:347-351 | one application of the macro goes from mean and squared deviations of a sample to those of the sample with one value more |
| Welford.BenchSuite.Log | utils/bench-scheduler.cc:321-376 | in each of six fields the average is the mean and the deviation the root of the mean squared deviation from it, which is never negative |
| Welford.MeanMinimises | utils/bench-scheduler.cc:332-361 | the deviations from the mean are smaller than from any other value |
| LargeTransfer.SplicedIff | examples/tcp/tcp-large-transfer.cc:40-45 | the buffer written over and over is the endless alphabet exactly when it holds whole alphabets or is never written to its end |
| LargeTransfer.LetterIs | examples/tcp/tcp-large-transfer.cc:91-96 | the buffer holds the letters from a to z over and over |
| LargeTransfer.SliceContinues | examples/tcp/tcp-large-transfer.cc:216-220 | the slice from the current offset continues the stream |
| LargeTransfer.Sender.WriteUntilBufferFull | examples/tcp/tcp-large-transfer.cc:210-232 | each slice offered is the longest that ends inside the buffer, is not more than what is left and fits the room of the socket, and counts for as much as the socket took; the callback returns only when everything is accepted or the socket has no space left or refuses, and closes the connection exactly in the first case; the accepted bytes are a prefix of the stream |
| LargeTransfer.TcpLargeTransfer | examples/tcp/tcp-large-transfer.cc:35-45 | with the program's constants any sequence of callbacks puts out a prefix of the alphabet, as many bytes as the socket took; the connection is closed exactly when these are all bytes, and a socket that takes something each time gets there within as many answers as there are bytes |
| Fairness.CauchySchwarz | examples/tcp/dctcp-example.cc:180-186 | squared sum at most n times the sum of squares, equal exactly for equal counters |
| Fairness.SquaresWithinSquare | examples/tcp/dctcp-example.cc:180-186 | the sum of squares is at most the squared sum |
| Fairness.IndexBounds | examples/tcp/dctcp-example.cc:186 | the index lies between 1/n and 1, is 1 exactly for equal counters, and is undefined exactly for counters that are all zero |
| Fairness.ExactSums | examples/tcp/dctcp-example.cc:180-186 | when the divisor fits in 64 bits no accumulator or product wraps around |
| Fairness.ExactIff | examples/tcp/dctcp-example.cc:186 | the divisor the program uses is the true one exactly when it fits |
| Fairness.BoundIsEnough | examples/tcp/dctcp-example.cc:180-186 | counters up to B with (nB)^2 below 2^64 are safe |
| Fairness.EqualCountersIndex | examples/tcp/dctcp-example.cc:186 | for equal counters the wrapped quotient is 1, or undefined exactly when the squared sum is a multiple of 2^64 |
| Fairness.EqualFlowsUndefined | examples/tcp/dctcp-example.cc:186 | ten counters of 2^32, whose index is 1, make the program divide 0 by 0 |
| Fairness.UnequalFlowsAboveOne | examples/tcp/dctcp-example.cc:186 | ten counters for which the program's quotient is 858993459.3 |
| Fairness.Index | examples/tcp/dctcp-example.cc:176-186 | although every step of the loop wraps around, the result is the squared sum modulo 2^64 over n times the sum of squares modulo 2^64, and Jain's index when the divisor fits |
| Fairness.Throughput.GroupFairness | examples/tcp/dctcp-example.cc:173-217 | the index of one group of flows is the quotient of the two wrapped numbers for all counters, and has Jain's bounds when the divisor fits |
| Fairness.Throughput.Window | examples/tcp/dctcp-example.cc:114-147 | clearing the counters and counting packets gives each flow's bytes modulo 2^64, and with at most B bytes for each of n flows and (nB)^2 below 2^64 the index printed is Jain's index of the bytes received |
| CwndTracers.NodeIdRoundTrip | examples/tcp/tcp-variants-comparison.cc:68-74 | the parser recovers the id from every context that starts with /NodeList/id, whatever follows the next slash; an id beyond 32 bits is cut, one beyond 64 bits makes it throw |
| CwndTracers.StoulIff | examples/tcp/tcp-variants-comparison.cc:73 | a number is read exactly from white space, a sign or none, digits that fit in 64 bits, and then anything but a digit |
| CwndTracers.ExpectedSnoc | examples/tcp/tcp-variants-comparison.cc:83-129 | the closed form of a stream (old value at 0.0, then the variable's value at every change of either variable) grows by exactly what the tracers append |
| CwndTracers.StreamIs | examples/tcp/tcp-variants-comparison.cc:83-129 | a stream has the old value of the variable's first change at 0.0 and then one line for each later change of either variable, with its time and the variable's latest value |
| CwndTracers.MirroredTail | examples/tcp/tcp-variants-comparison.cc:96-100 | once both variables have changed, each change has one line with the same time in both streams, with the current values |
| CwndTracers.Tracers.CwndTracer | examples/tcp/tcp-variants-comparison.cc:83-101 | flags, values and both streams of every node are those of its history with the change appended |
| CwndTracers.Tracers.SsThreshTracer | examples/tcp/tcp-variants-comparison.cc:110-129 | the same for a change of the threshold |

## Left out

- Scenario scripts in `scratch/` and `examples/`, plotting scripts and `utils.py`: they wire up library helpers or format output.
- Routing, TCP, queue discs, Wi-Fi and energy models: not part of this project.
- test.py: process spawning, command lines, valgrind options, evaluation of conditions and report formats. A child process gives a return code and a result file that the job carries from the start, which is no restriction because each job runs at most once. The threads are a transition system over values, so nothing is said about Python's memory model. The lists of names are left out; their lengths are the counters.
- test.py: the transition system goes on after a missing result file; the exception that ends `run_tests` there is in `ResultCollector` and `TestRunner`. A result file that does not parse leaves no record there.
- RerunFailed.RerunExecutes: the suites of a plan have distinct names, and so have the examples. The run before came to its end, and the result files that its return codes promised were there and parsed; otherwise `run_tests` raises or leaves a results file that cannot be read, and there is no rerun.
- ConfigEdges and ConfigPaths: looking up names in `RecordAggregationInfo`, `Print` and the list of names without types. `IsChildOf` is a relation given with the registry.
- ConfigPaths.StaticInformation.DoGather: its three loops are methods of their own here, and the four places that push, recurse and pop share one.
- Style checks: clang-format calls, encodings, include prefixes (they look at the file system), the text of the verbose messages. Which characters match `\w` is a parameter. Carriage returns are assumed translated by reading in text mode. The pipeline is that of a file which every check selects by name.
- StyleRules.DoxygenChanges: for a `\w` that does not match a backslash, as Python's does not.
- DependencySorter.Sorter.SortToDependencies: takes the dependency map as input; globbing, version heuristics and loading are left out. One stack frame is counted for each recursive call of `dependency_order`.
- BenchScheduler.Bench.Run: the scheduler is a set from which the event with the least time and number is taken, and a name; delays and event numbers are natural numbers; wall-clock times are left out.
- Welford.BenchSuite.Log: over the reals, without rounding; the square root is a function given to the method, of which nothing is assumed.
- LargeTransfer.Sender.WriteUntilBufferFull: the body of its loop is a method of its own. The socket is a finite script of answers, after which it has no space left; a socket that takes 0 bytes for ever would keep the original looping.
- Fairness.Throughput.GroupFairness: the three groups of `PrintFairness` are one method called for each; averages and the aggregates for T1 and R1 are left out. The counter vectors, which the program reserves but never sizes, are arrays of length 10, 20 and 10.
- CwndTracers.Tracers.CwndTracer: what each tracer writes for its own variable and for the other one are methods of their own. Only for nodes whose streams exist, as the original dereferences a null pointer otherwise; entries that reading a map inserts are not kept.

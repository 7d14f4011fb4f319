# A verified model of the VM application extension

The extension keeps a machine's installed applications equal to a desired list. One enable operation reads the registry
of installed applications, plans what has to be removed, updated or installed, and executes the plan. A command may
succeed, fail, or reboot the machine; a reboot ends the process, and the next enable operation plans again from the
registry on disk. This project models that planner and executor together with the parts they rely on, and proves what
holds over one run and over whole histories of runs.

| file | contents |
|---|---|
| Versions, Decimals | splitting and comparing version strings; decimal text and the versions written from numbers |
| Packages, RegistryStore | registry entries, the mutable map, the registry file and its replacement |
| Planning, Schedules, PlannedWork, Partitions | what a plan is; the plan as a partition and a stable sort; what it does for each application; how often a name is planned |
| Execution | what executing planned actions does, as functions on states |
| Executor, ActionPlans | the classes and loops of the program, proved equal to those functions |
| Runs, Effects, Reports, Replanning | properties of one run: write-ahead, skipping, fates; which commands are called and what is reported and recorded; the next plan |
| Histories, Convergence, RebootLimits | properties of sequences of runs |
| SkippedRetries, LostRetries | when an application can be skipped or reported as unexpected, and how a retry is lost |
| Operations | the program run again and again realises a history |
| FileTrees, FileSystems, DirMerge, DataFolder | the recursive overlay; the in-place walk; the update and install callbacks |
| CustomActions, CustomHistories, CustomPlans | custom actions and their persisted tick count, over one run and over histories; what a plan holds for each text of the tick file |
| PathSplit, Sorting, Options | finding the versioned directory; in-place sorting; shared datatypes |

The outside world of a run is a function from the number of results reported so far to an `Outcome`: failing downloads,
their checksums, a failing clean-up, and completion, failure or interruption of the command. Every theorem quantifies over all such
functions, over every order in which a map may be walked, and over all registries and lists. A history is a list of
runs, each planned from the registry the previous one left on disk.

The intent to run a command is written before the command is called, but the working directory and the checksums are
assigned between the write and the call. `WriteAhead` and `CallSeesWholeDiskIff` say exactly how far disk and memory differ
at that moment.

## What does not hold

Several promises of the code or its comments fail. The code is modelled as it is; each failure has a lemma.

- An interrupted removal that is not to be rerun was meant to leave the registry (internal/actionplan/executehelper.go:213-216),
  but `OngoingOperation` has just been overwritten, so the entry stays and the removal starts again
  (`InterruptedRemovalMakesProgressIff`). Together with remove-then-install pairs this is the only source of unbounded
  reboots: `RebootsAreBoundedIff` gives the exact condition on the registry and the list.
- If the desired list changes, a pending retry can be skipped. `SkippableIff` says for which registries and lists that can
  happen. What is then planned is the action `Skipped`, which is no command: no command is ever called for the application
  again while it stays on the list at that version (`LostForever`), and `ChangedListLosesRetry` is a history of three runs
  that does it. `UnexpectedReportedIff` says when a run can report such an action; with an unchanged list that starts
  with nothing pending none does (`UnexpectedNeverReported`).
- `New` drops the error for a repeated name. `PlannedOnceIff` says exactly which lists make a plan work twice on one
  application, and `RemovedAndWorkedOn` gives one whose every plan removes an application and updates it.
- The check for deleted applications is never reached, because `IsDeleted` is not copied into the registry entry
  (`DeletedNeverReported`).
- The registry's backup file is never read. After a crash during the replacement the registry is readable exactly in the
  cases of `CrashReadsOldOrNewIff`, although one of the two files is always complete (`ReplacementNeverLosesBoth`).
- The comment on `CompareVersion` promises an order. It is one for unsigned components; with signs or differences beyond
  64 bits the answer can point the wrong way (`CompareIsLexicographicIff`) and even form a cycle (`SignedComponentsCycle`).
- Custom actions with equal tick counts can be lost. `NothingLostWhateverHappensIff` says for which plans no outcome loses
  one, and `NothingLostIff` when a given run does.
- Moving a mere file onto a directory with source preference drops the file, although the comment on `moveDirsAll` says
  that the source replaces the destination (`MoveIsOverlayIff`).

## Model

| member | source | states |
|---|---|---|
| Versions.SplitJoin | pkg/utils/versionstringutils.go:34-35 | splitting at dots loses nothing: joining the parts restores the text, and no part holds a dot |
| Versions.SplitOfJoin | pkg/utils/versionstringutils.go:34-35 | splitting inverts joining: parts without dots come back as they were |
| Versions.FindNonZeroVersionNumber | pkg/utils/versionstringutils.go:102-113 | yields the first component that is not a plain zero, an error if that one does not parse, and zero if there is none |
| Versions.CompareVersion | pkg/utils/versionstringutils.go:33-92 | the answer is fixed by the first index at which the zero-padded numbers differ; an unparsable component met before that is an error |
| Versions.AreVersionsEqual | pkg/utils/versionstringutils.go:16-29 | true exactly for identical texts, or for fully numeric versions that agree after zero padding |
| Versions.VersionsEqualIsEquivalence | pkg/utils/versionstringutils.go:16-29 | equality of versions is reflexive, symmetric and transitive on all strings, parsable or not |
| Versions.DecidesUnique | pkg/utils/versionstringutils.go:33-92 | exactly one index decides, so a comparison has exactly one possible answer |
| Versions.VerdictZero | pkg/utils/versionstringutils.go:57-91 | the answer is zero exactly when all components parse and agree after padding; a wrapped difference is never zero |
| Versions.CompareIsLexicographicIff | pkg/utils/versionstringutils.go:31-92 | the sign of the answer is the lexicographic order exactly when the difference at the deciding index does not wrap and no negative number meets padding |
| Versions.CompareUnsigned | pkg/utils/versionstringutils.go:33-92 | for unsigned components: no error, no overflow, sign of the zero-padded lexicographic comparison |
| Versions.AnswerValue | pkg/utils/versionstringutils.go:57-91 | where both versions have a number the answer is their difference modulo 2^64; once one has ended it is plus or minus one, for the longer one |
| Versions.LexLessTransitive | pkg/utils/versionstringutils.go:31-32 | the lexicographic order is transitive |
| Versions.SignedComponentsCycle | pkg/utils/versionstringutils.go:33-92 | 1.-1 > 1, 1 = 1.0 and 1.0 > 1.-1: with signs the answers are no order |
| Versions.ValidIsUnsigned | pkg/utils/versionstringutils.go:94-100 | a valid version string whose components fit 64 bits has only unsigned components |
| Versions.ValidIff | pkg/utils/versionstringutils.go:12-14 | a version string is valid exactly when it is three to five non-empty runs of digits joined by dots |
| Decimals.AtoiReads | pkg/utils/versionstringutils.go:43-51 | the decimal text of any number, with or without a sign and with any zeros in front, is read as that number, or as an error outside 64 bits |
| Decimals.AtoiReadsNothingElse | pkg/utils/versionstringutils.go:43-51 | whatever is read at all is such a text, and is read as its number |
| Decimals.ParseWritten | pkg/utils/versionstringutils.go:33-54 | reading the version written from a list of numbers gives that list back |
| Decimals.WrittenEqualIff | pkg/utils/versionstringutils.go:16-29 | versions written from two lists of numbers are equal exactly when the lists agree after zero padding: 1.10 is not 1.0 |
| Decimals.CompareWritten | pkg/utils/versionstringutils.go:31-92 | comparing them never fails, and the sign of the answer is the order of the first difference of the padded lists |
| Packages.PopulateSucceedsIff | internal/packageregistry/utils.go:8-16 | population succeeds exactly when no name repeats or is already present |
| Packages.PopulateAddsExactly | internal/packageregistry/utils.go:8-16 | on success the map gains every entry under its name and keeps the old ones |
| Packages.CurrentPackageRegistry.Populate | internal/packageregistry/utils.go:8-16 | the loop changes the map as the recursive definition says and reports the first repetition |
| Packages.CurrentPackageRegistry.GetPackageCollection | internal/packageregistry/utils.go:18-24 | lists every entry exactly once, in an order left open |
| Packages.RegistryRoundTrip | internal/packageregistry/utils.go:8-24 | writing a map's entries in any order and populating from them restores the map |
| Packages.PopulateDesired | internal/packageregistry/utils.go:26-34 | the loop over the desired list equals the recursive definition, stopping at the first repetition |
| Packages.PopulateDesiredKeys | internal/packageregistry/utils.go:26-34 | for distinct names the known names are exactly the desired ones |
| RegistryStore.PackageRegistryStore.GetExistingPackages | internal/packageregistry/packageregistry.go:165-194 | reads the active file only; missing or empty means an empty registry; an incomplete file and a repeated name are different errors |
| RegistryStore.PackageRegistryStore.WriteToDisk | internal/packageregistry/packageregistry.go:196-224 | reading back gives exactly the written map for every walk order, no backup of the old file is left, and the states passed through are those of the replacement protocol |
| RegistryStore.ReplacementNeverLosesBoth | internal/packageregistry/packageregistry.go:196-224 | at every point of the replacement, half-written file included, active or backup file holds a complete old or new registry |
| RegistryStore.CrashReadsOldOrNewIff | internal/packageregistry/packageregistry.go:165-224 | after a crash the old or new registry is read back exactly when the crash came before the rename, after the whole write, or while one of the two is empty anyway |
| Sorting.Sort | internal/customactionplan/customactionplan.go:37-47 | sorts an array in place: ordered by key and a permutation, with nothing promised for equal keys |
| Sorting.SortInts | internal/actionplan/actionplan.go:219 | sorting distinct orders gives them strictly increasing and loses none |
| Executor.CommandHandler.Execute | internal/actionplan/executehelper.go:168-183 | every call is logged with what the registry file reads back to and what the map holds at that moment |
| Executor.ExecuteError.Update | internal/actionplan/actionplan.go:112-142 | collects every error, and the names of failed installs and updates that count as deployment failures |
| Executor.ExecuteError.GetErrorIfDeploymentFailed | internal/actionplan/actionplan.go:144-150 | nil exactly when no application was collected, otherwise the names with all errors as context |
| Executor.Prepare | internal/actionplan/executehelper.go:86-157 | a failed step is noted and the next one is still tried; working directory and computed checksums are assigned; removals download nothing |
| Executor.SelectCommand | internal/actionplan/executehelper.go:53-70 | the command for each of the four command actions; anything else is an unexpected action |
| Executor.CallCommand | internal/actionplan/executehelper.go:85-225 | what was prepared is in memory, not on disk, when the command is called, and the command runs whatever failed before; an interruption saves the retry, or its end, and exits |
| Executor.Conclude | internal/actionplan/executehelper.go:227-247 | the final entry, or its removal, is in memory and on disk |
| Executor.ExecuteHelper | internal/actionplan/executehelper.go:28-257 | registry, file, call log, exit and combined error are exactly those of the specification of one action |
| Executor.ExecuteAct | internal/actionplan/actionplan.go:260-291 | one planned action with its skip check and its bookkeeping refines the specification |
| Executor.ExecuteGroup | internal/actionplan/actionplan.go:260-306 | a group of dependent actions stops at the first error, skip or exit |
| ActionPlans.ActionPlan.InsertOperation | internal/actionplan/actionplan.go:224-236 | appends the group to its bucket and registers a new order once |
| ActionPlans.ActionPlan.PlanUninstalls | internal/actionplan/actionplan.go:164-182 | the removals for installed applications that are not known as desired, clean-ups for skipped ones |
| ActionPlans.ActionPlan.PlanDesired | internal/actionplan/actionplan.go:185-217 | one desired application contributes exactly the group it needs |
| ActionPlans.ActionPlan.PlanUpdatesAndInstalls | internal/actionplan/actionplan.go:184-217 | the groups hold what the whole list calls for, in list order within each order |
| ActionPlans.ActionPlan.New | internal/actionplan/actionplan.go:152-222 | the plan is a plan of the registry and the list, for some walk order of the registry |
| ActionPlans.ActionPlan.ExecuteUninstalls | internal/actionplan/actionplan.go:247-252 | the first phase refines the uninstall entries of the schedule |
| ActionPlans.ActionPlan.ExecuteOrdered | internal/actionplan/actionplan.go:254-293 | the second phase refines the ordered entries, lowest order first |
| ActionPlans.ActionPlan.ExecuteUnordered | internal/actionplan/actionplan.go:295-307 | the third phase refines the unordered entries |
| ActionPlans.ActionPlan.Execute | internal/actionplan/actionplan.go:238-312 | file, call log, results and errors are those of running the schedule; an unreadable registry changes nothing |
| ActionPlans.Enable | main/main.go:217-228 | reading, planning and executing together realise one run from the registry on disk |
| Operations.EnableOnce | main/main.go:217-228 | one operation takes the registry file from its reading before to what a valid run leaves |
| Operations.EnableEach | main/main.go:217-228 | operations run one after the other realise a history: the file reads back to what it leaves, and the operations that rebooted are its interrupted runs |
| Schedules.NameDecidesEntry | internal/actionplan/actionplan.go:164-217 | for distinct names two entries about the same application are the same entry |
| Schedules.ScheduleMembers | internal/actionplan/actionplan.go:164-236 | the schedule holds exactly the needed entries, none twice: removals, then orders upwards, then the rest |
| Schedules.PlanIsSchedule | internal/actionplan/actionplan.go:152-236 | for distinct names a plan is a partition of the applications that need work, laid out by phase and order |
| Schedules.OrderedPartIsStableSort | internal/actionplan/actionplan.go:219-236 | flattening the buckets by increasing order is a stable sort of the ordered applications as listed |
| Schedules.StableSortUnique | internal/actionplan/actionplan.go:219-236 | there is only one stable sort, so the order of execution is determined |
| PlannedWork.PlannedForDesired | internal/actionplan/actionplan.go:184-217 | for distinct names, the entry of a desired application is one install exactly when it is not installed, one update exactly for an unequal version with an update command, removal then install exactly for an unequal version without one, and the recorded action exactly for an equal version with a retry pending; installs and updates say what the list says, field by field, at the order the list gives |
| PlannedWork.PlannedForUndesired | internal/actionplan/actionplan.go:164-182 | the entry of an application that is not desired forgets it when it was skipped and removes the recorded one otherwise, never counting as a deployment failure |
| Partitions.GroupIffNeedsWork | internal/actionplan/actionplan.go:185-216 | nothing is planned for a desired application exactly when it is installed at an equal version with no retry pending |
| Partitions.TimesPlanned | internal/actionplan/actionplan.go:164-236 | for any list, a name is planned once per listing that needs work, and once more if installed and unknown to the first pass |
| Partitions.KnownNames | internal/packageregistry/utils.go:26-34 | the first pass knows a name exactly if it is listed at a position up to which no name repeats |
| Partitions.TwoReasonsIff | internal/actionplan/actionplan.go:166-217 | two reasons to plan an application, read off the list and the registry, are exactly a multiplicity above one |
| Partitions.PlannedOnceIff | internal/actionplan/actionplan.go:166-217 | every application is planned at most once exactly when no name is listed twice with something to do, and no installed application with something to do is first listed after a repetition |
| Partitions.ListingIsPlanned | internal/actionplan/actionplan.go:185-216 | for any list, every listing that needs work has its entry in the schedule |
| Partitions.UnknownIsRemoved | internal/actionplan/actionplan.go:164-182 | for any list, an installed application that is not listed before the first repetition has a removal in the schedule |
| Partitions.RemovedAndWorkedOn | internal/actionplan/actionplan.go:166-217 | a list with a repetition such that every plan for it both removes and updates the same application |
| Partitions.PlannedExactly | internal/actionplan/actionplan.go:164-217 | for distinct names each application is planned at most once, exactly when it needs work or is no longer desired |
| Runs.WriteAhead | internal/actionplan/executehelper.go:35-51 | whenever a command is called, the disk shows that application with the action as ongoing, and memory is the disk with what preparation assigned to that one entry; after every action, finished, skipped or interrupted, disk and memory are equal |
| Runs.CallSeesWholeDiskIff | internal/actionplan/executehelper.go:95-139 | at a call, disk and memory are equal exactly when preparation assigned what was recorded already; they agree on every other application, and always differ for a fresh install or update |
| Runs.DeploymentFailureExact | internal/actionplan/actionplan.go:112-150 | the failed applications are, in order, the failed installs and updates marked as fatal over all phases; nil exactly when there are none; skips never count |
| Runs.FailureSticks | internal/actionplan/actionplan.go:284-289 | once an order has failed it stays the recorded one |
| Runs.SkippedIffLowerOrderFailed | internal/actionplan/actionplan.go:254-278 | an entry is skipped exactly when an earlier entry of lower order failed |
| Runs.ExecutionTrace | internal/actionplan/actionplan.go:254-307 | behind a failure of lower order: no command, exactly one skipped result and one skipped entry; otherwise the first action is attempted, and a later one is called only after the first succeeded |
| Reports.EveryCall | internal/actionplan/executehelper.go:53-157 | in every run every call is of the install, update or remove command that belongs to its action, never after the last retry, with the folder and checksums that preparation assigns |
| Reports.CallsForDesired | internal/actionplan/executehelper.go:53-70 | for distinct names, a call about a desired application runs the list's install command, the list's update command, or the recorded remove command followed by the list's install command, as the registry decides; a retry runs what was recorded |
| Reports.CallsForUndesired | internal/actionplan/executehelper.go:59-65 | for an application that is not desired, only the remove command recorded for it is called |
| Reports.FaultsAreCauses | internal/actionplan/executehelper.go:68-234 | the combined error of an action lists exactly the causes that applied, each once and in order: used-up retries, unexpected action, deletion, directory, package, configuration, command, clean-up |
| Reports.ReportsAndRegistryAgree | internal/actionplan/executehelper.go:201-257 | every result names its action and application and says truly which causes applied, or that none did; the last result about an application is what the registry records, and after a reboot the entry of the application cut off tells so |
| Reports.RebootEndsRun | internal/actionplan/executehelper.go:192-223 | a run ends in a reboot exactly when a signal arrived during a command, which is its last call |
| Effects.PairFate | internal/actionplan/actionplan.go:195-197 | what can happen to a remove-then-install pair: skipped, interrupted, removal failed, or both legs reported with the install attempted |
| Effects.RemovalFate | internal/actionplan/actionplan.go:247-252 | a removal is never skipped: it ends with the entry gone, whatever failed, or interrupted with the entry kept |
| Effects.RemovalInterruptedIff | internal/actionplan/executehelper.go:72-77 | a removal ends the run exactly when it is no clean-up, its retries are not used up, and a signal arrives while its command runs |
| Effects.InterruptedRemovalMakesProgressIff | internal/actionplan/executehelper.go:201-219 | after an interrupted removal the entry is still there to be removed; it was counted exactly when the application is to be rerun, and otherwise the removal starts afresh |
| Effects.FateDecidesNextGroup | internal/actionplan/actionplan.go:185-217 | what happened to a group in one run decides exactly the group of the next plan |
| Effects.CountAfterFate | internal/actionplan/executehelper.go:72-77 | the reboot count each fate leaves: one more for a rerun, zero after completion, unchanged when skipped |
| Replanning.PendingNeverSkipped | internal/actionplan/actionplan.go:254-278 | while the invariant holds, an application with a retry pending is never skipped |
| Replanning.LowerOrdersDone | internal/actionplan/actionplan.go:254-292 | when a run gets to an application without skipping it, everything of lower order is finished for good |
| Replanning.RunKeepsConsistent | internal/actionplan/actionplan.go:204-292 | every run, interrupted or not, keeps the invariant: a pending retry has nothing of lower order left to do and is an install or an update |
| Replanning.NamesAfterRun | internal/actionplan/actionplan.go:164-312 | after an uninterrupted run, whatever failed, the registry lists exactly the desired applications |
| Replanning.RemovalOutcome | internal/actionplan/executehelper.go:185-229 | an application that is no longer desired was not reached, was interrupted as the last thing the run did, or is gone; nothing is installed for it |
| Replanning.ReplanExact | internal/actionplan/actionplan.go:184-217 | after an uninterrupted run there is work for a desired application exactly when the removal leg of its pair failed or was skipped |
| Histories.RebootCountBounded | internal/actionplan/executehelper.go:185-204 | in every history, desired lists changing freely, counts stay between zero and the maximum and are positive only for applications to be rerun |
| Histories.DeletedNeverReported | internal/actionplan/executehelper.go:87-92 | in no history that starts without a deletion mark is any application reported as deleted, whatever the lists say |
| Histories.SplitHistory | main/main.go:217-227 | every run of a history is a valid run from the registry that the runs before it left |
| Convergence.HistoryStaysConsistent | internal/actionplan/actionplan.go:204-292 | the invariant holds after every history of one list |
| Convergence.UnexpectedNeverReported | internal/actionplan/executehelper.go:56-70 | with one list and nothing pending at the start, no run of any history meets an unexpected action |
| Convergence.NextPlanExact | internal/actionplan/actionplan.go:164-217 | after an uninterrupted run the next plan consists of exactly the pairs whose removal leg failed or was skipped |
| Convergence.RebootsAreBounded | internal/actionplan/executehelper.go:192-204 | one list, nothing pending, no pairs, and rerun for every interrupted removal: at most the maximum number of reboots per installed or desired name |
| Convergence.UninterruptedRunConverges | internal/actionplan/actionplan.go:152-312 | one list, nothing pending at the start, no pairs: after any history the first uninterrupted run leaves an empty plan |
| Convergence.InstallCallsAreBounded | internal/actionplan/executehelper.go:72-77 | in every history of one list, failures and pairs included, the install and update commands of an application are called at most three times in total |
| RebootLimits.PlanExists | internal/actionplan/actionplan.go:152-222 | every registry and list have a plan |
| RebootLimits.HistoryExists | internal/actionplan/actionplan.go:152-312 | whatever lists and outcomes follow each other, there is a history of that shape: the theorems on histories are about something |
| RebootLimits.UninterruptedRunClearsPending | internal/actionplan/executehelper.go:192-193 | after an uninterrupted run nothing is pending and only desired names remain |
| RebootLimits.RemovalRebootsAgain | internal/actionplan/executehelper.go:208-219 | an application to be removed without rerun can reboot the machine in a run that leaves it to be removed again |
| RebootLimits.RebootsUnbounded | internal/actionplan/executehelper.go:185-223 | with a pair, or a removal without rerun, some history has any given number of reboots |
| RebootLimits.RebootsAreBoundedIff | internal/actionplan/executehelper.go:185-223 | the bound on reboots holds for all histories of a list exactly when there is no pair and every removal is to be rerun |
| SkippedRetries.SkippableIff | internal/actionplan/actionplan.go:254-292 | some run skips an application, a pending retry included, exactly when something other than a clean-up is planned for an application of lower order |
| SkippedRetries.UnexpectedReportedIff | internal/actionplan/executehelper.go:53-77 | some run reports an unexpected action exactly when something that is no command is planned for a desired application and nothing of lower order is bound to fail before it |
| LostRetries.HistoryKeepsLost | internal/actionplan/actionplan.go:204-209 | over every history of the list a lost retry stays lost, with its count kept or, at the maximum, reset |
| LostRetries.LostForever | internal/actionplan/executehelper.go:53-77 | in no run of any later history of the list is a command called for a lost retry; every uninterrupted run skips it or reports it as unexpected while its count is neither zero nor at the maximum |
| LostRetries.ChangedListLosesRetry | internal/actionplan/actionplan.go:204-277 | a history of three runs from the empty registry: an install is interrupted, a new application of lower order fails, and the unchanged list then reports the retry as unexpected |
| FileTrees.OverlayPointwise | main/mvdirs_linux.go:69-120 | path by path, the overlay is the winner's entry, nothing below a file of the winner, and the other side's entry everywhere else |
| FileTrees.OverlayConserves | main/mvdirs_linux.go:69-120 | nothing is invented, everything of the winner survives, and a file of the other side survives exactly when the winner has nothing at its path and no file above it |
| FileTrees.OverlayEmpty | main/mvdirs_linux.go:53-126 | overlaying with an empty directory on either side changes nothing |
| FileSystems.FileSystem.MkdirAll | main/mvdirs_linux.go:129-131 | creates the directory and its missing ancestors only; fails, changing nothing, exactly at a file on the way |
| FileSystems.FileSystem.Rename | main/mvdirs_linux.go:133-135 | moves everything at or below the source; fails without effect on a missing source or taken destination |
| FileSystems.TreeAtHolds | main/mvdirs_linux.go:30-50 | a well-formed file system holds at every path exactly the tree read off it |
| FileSystems.HoldsUnique | main/mvdirs_linux.go:30-50 | only one tree can lie at a path |
| DirMerge.RenameWithParent | main/mvdirs_linux.go:128-138 | carries the whole tree over and adds only missing directories above the destination |
| DirMerge.VisitEntry | main/mvdirs_linux.go:54-120 | visiting one source entry, and the walk below it, leaves the merge of both subtrees and touches nothing else; the walk goes on exactly below the paths at which both sides have a directory |
| DirMerge.WalkChildren | main/mvdirs_linux.go:53-123 | walking a directory in any order leaves the overlay of the two trees, and descends exactly where both have a directory |
| DirMerge.MergeDirWithPreferenceWalk | main/mvdirs_linux.go:53-126 | the in-place walk equals the recursive overlay and removes the source |
| DirMerge.MoveIsOverlayIff | main/mvdirs_linux.go:20-51 | the move equals the overlay except when a mere file with source preference meets a directory |
| DirMerge.MoveDirsAll | main/mvdirs_linux.go:25-51 | destination and source after the move; fails, changing nothing, exactly when a file lies on the way |
| DataFolder.BackUp | main/update_linux.go:80-102 | the folder is overlaid on any older backup, its own content winning, and an empty folder is left |
| DataFolder.Restore | main/install_linux.go:19-63 | the backup is overlaid into the folder, the folder winning, and is gone; without a backup nothing changes |
| DataFolder.UpdateThenInstall | main/update_linux.go:80-102 | update then install gives the original content, exactly when there was no older backup, else overlaid on it; no backup remains |
| CustomActions.TickRoundTrip | internal/customactionplan/executehelper.go:107-112 | a recorded tick count is read back as it was |
| CustomActions.New | internal/customactionplan/customactionplan.go:81-129 | the plan is sorted by tick and holds exactly the actions of installed applications above the recorded tick |
| CustomActions.TickFile.ExecuteHelper | internal/customactionplan/executehelper.go:25-127 | success and failure record the action's tick; an interruption records nothing but creates a missing file |
| CustomActions.TickFile.Execute | internal/customactionplan/customactionplan.go:131-154 | runs up to the first failure; the failing action completes but is not reported, the others are reported by application, version, action and timestamp; the file holds the last completed tick |
| CustomHistories.RunRaisesTick | internal/customactionplan/executehelper.go:107-112 | the recorded tick never decreases, rises with every completion, and is at least that of each completed action |
| CustomHistories.CompletedStayBelowTick | internal/customactionplan/customactionplan.go:89-118 | over any history, settings changing freely, completed actions lie above the starting tick and at or below the final one |
| CustomHistories.CompletedNeverPlannedAgain | internal/customactionplan/customactionplan.go:108-118 | an action completed in some run, success or failure, is in no later plan |
| CustomHistories.NothingLostIff | internal/customactionplan/customactionplan.go:108-147 | after a given run with unchanged settings the next plan is what was left over exactly when the first action left over has a higher tick than the last completed one |
| CustomHistories.PlanExists | internal/customactionplan/customactionplan.go:81-129 | all settings, registries and tick files have a plan |
| CustomHistories.NothingLostWhateverHappensIff | internal/customactionplan/customactionplan.go:108-147 | seen before the run: whatever completes, fails or is interrupted, nothing is lost, exactly when the ticks of the plan are distinct |
| CustomHistories.ExactlyOnceInOrder | internal/customactionplan/customactionplan.go:81-154 | with distinct ticks and unchanged settings, the actions completed over any history followed by those still planned are the first plan |
| CustomHistories.UninterruptedRunShrinksPlan | internal/customactionplan/customactionplan.go:138-146 | a run that is not cut off shortens a non-empty plan, and a run without failure empties it |
| CustomPlans.ThresholdIsRecorded | internal/customactionplan/customactionplan.go:89-105 | the threshold of a plan is the 64-bit number in the tick file, zeros in front allowed, and zero when there is no file or no such number in it; there is exactly one |
| CustomPlans.NothingRecorded | internal/customactionplan/customactionplan.go:91-104 | a missing file, an empty one and one that holds anything but digits count as tick zero |
| CustomPlans.PlanHoldsExactly | internal/customactionplan/customactionplan.go:107-127 | the plan is in the order of the ticks and holds each action exactly as often as it is listed for an application on the machine with a tick above the recorded one |
| CustomPlans.PlanHolds | internal/customactionplan/customactionplan.go:107-118 | an action is planned exactly if it is listed for an application on the machine with such a tick |
| PathSplit.SplitPathAroundVersionedDir | main/update.go:49-77 | head, name and tail make up the path; some checker accepts the name and nothing in the tail, and no earlier checker accepts any component; the error is returned exactly when no checker accepts any component |
| PathSplit.NearestMatchIsUnique | main/update.go:49-77 | that requirement leaves no freedom: there is at most one such split, by one checker |

## Left out

- HTTP, authentication, URI building, retries and resumed downloads (internal/hostgacommunicator, internal/requesthelper): a download only succeeds or fails.
- Status reporting and its last-stable backup, logging and extension events.
- Errors of `WriteToDisk` and of opening or closing registry and tick files: writes are taken to succeed.
- The comparison of checksums before a removal, which is only logged, and the files themselves: a checksum is what the outside world computes.
- `path.Join` in `GetWorkingDirectory` is joining with slashes, for names that need no cleaning.
- JSON text: a file is blank, incomplete, or the complete list of entries. The registry's file lock: one process at a time.
- Registry entries are values put back into the map whenever the program is about to write or to call a command, where the program updates them through a pointer.
- A kill that is not seen by the signal handler in the middle of a command; interruptions are observed only while a command runs.
- The unreachable deletion in the interrupt branch (internal/actionplan/executehelper.go:213-216) appears only as the absence of its effect.
- The skip loop of ordered groups and the loop of unordered groups share `ExecuteGroup`; unordered slots never skip.
- `nil` version pointers: `CompareVersion` dereferences both before `AreVersionsEqual` could test for them.
- The unsupported-preference error of `moveDirsAll`: the two preferences are the only values of the datatype.
- `filepath.WalkDir` is the recursion of `VisitEntry` and `WalkChildren`; returning `SkipDir` is returning without descending.
- Symbolic links, other than as files that are never followed, permissions, and file operations that fail halfway.
- The registry part of the update callback, choosing the most recently updated older registry file, and the Windows update path.
- Paths are lists of components, already cleaned; the case-insensitive directory-name checkers are parameters of the path split.
- The in-memory custom-action registry, which decides nothing, and parameters passed to custom actions.

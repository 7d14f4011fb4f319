/** What executing planned actions does to the registry, its file, the command log and the reported results. */
module Execution {
  import opened Options
  import opened Packages
  import opened Planning

  /** Everything the outside world decides during one action. */
  datatype Outcome = Outcome(
    dataFolder: string,
    mkdirFails: bool,
    packageDownloadFails: bool,
    configDownloadFails: bool,
    packageChecksum: Option<string>,
    configChecksum: Option<string>,
    ending: Ending,
    cleanupFails: bool)

  datatype Verdict = Succeeded | Errored(faults: seq<Fault>) | SkippedLowerOrder

  datatype OperationResult = OperationResult(
    name: string, version: string, operation: Action, verdict: Verdict, treatFailure: bool)

  /** One call of the command handler, with the registry on disk and in memory at that moment. */
  datatype Invocation = Invocation(act: PlannedAction, command: string, o: Outcome, disk: Registry, memory: Registry)

  datatype Run = Run(
    memory: Registry,
    disk: Registry,
    log: seq<Invocation>,
    results: seq<OperationResult>,
    failedApps: Option<seq<string>>,
    faults: seq<Fault>,
    failedAt: Option<int>,
    exited: bool)

  ghost function Start(reg: Registry): Run {
    Run(reg, reg, [], [], None, [], None, false)
  }

  // ----- One action -----------------------------------------------------------------------------

  predicate IsCommand(action: Action) {
    action == Install || action == Update || action == Remove || action == RemoveForUpdate
  }

  predicate IsRemoval(action: Action) {
    action == Remove || action == RemoveForUpdate
  }

  /** A command is called for the four command actions unless the retries are used up. */
  ghost predicate Invokes(act: PlannedAction) {
    IsCommand(act.action) && act.pkg.numReboots != MAX_REBOOTS
  }

  ghost function CommandOf(act: PlannedAction): string {
    match act.action
    case Install => act.pkg.details.installCommand
    case Update => act.pkg.details.updateCommand
    case _ => act.pkg.details.removeCommand
  }

  /** Faults before the command is called; none of them stops the call. */
  ghost function PreparationFaults(act: PlannedAction, o: Outcome): seq<Fault> {
    if IsRemoval(act.action) then []
    else if act.pkg.details.isDeleted then [AppDeleted]
    else
      (if o.mkdirFails then [MkdirFailed] else [])
      + (if o.packageDownloadFails then [PackageDownloadFailed] else [])
      + (if act.pkg.details.configExists && o.configDownloadFails then [ConfigDownloadFailed] else [])
  }

  function WorkingDirectory(dataFolder: string, p: Package): string {
    dataFolder + "/" + p.name + "/" + p.version
  }

  /** A checksum that cannot be computed leaves the recorded one as it is. */
  function Updated(recorded: Option<string>, computed: Option<string>): Option<string> {
    if computed.Some? then computed else recorded
  }

  /** What preparation assigns to the entry in memory, and in memory only. */
  ghost function PreparedLocal(act: PlannedAction, o: Outcome): Local {
    var local := act.pkg.local;
    if IsRemoval(act.action) then local.(downloadDir := WorkingDirectory(o.dataFolder, act.pkg))
    else if act.pkg.details.isDeleted then local
    else
      Local(
        WorkingDirectory(o.dataFolder, act.pkg),
        Updated(local.packageChecksum, o.packageChecksum),
        if act.pkg.details.configExists then Updated(local.configChecksum, o.configChecksum) else local.configChecksum)
  }

  /** All faults of an action that was not interrupted, in the order they are combined. */
  ghost function FaultsOf(act: PlannedAction, o: Outcome): seq<Fault> {
    (if act.pkg.numReboots == MAX_REBOOTS then [TooManyReboots]
     else if !IsCommand(act.action) then [UnexpectedAction]
     else PreparationFaults(act, o) + (if o.ending == Completed(true) then [] else [CommandFailed]))
    + (if IsRemoval(act.action) && o.cleanupFails then [CleanupFailed] else [])
  }

  ghost function StartedPackage(act: PlannedAction): Package {
    act.pkg.(ongoing := act.action)
  }

  /** A retry is recorded only for `Rerun`; otherwise the operation is recorded as over. */
  ghost function InterruptedPackage(act: PlannedAction, local: Local): Package {
    if act.pkg.reboot == Rerun then
      act.pkg.(
        local := local,
        ongoing := act.action,
        numReboots := act.pkg.numReboots + 1,
        note := RerunAfterReboot(act.action))
    else
      act.pkg.(local := local, ongoing := NoAction, note := EndedByReboot(act.action))
  }

  ghost function FinishedPackage(act: PlannedAction, faults: seq<Fault>, local: Local): Package {
    act.pkg.(
      local := local,
      numReboots := if IsCommand(act.action) || act.pkg.numReboots == MAX_REBOOTS then 0 else act.pkg.numReboots,
      ongoing := if faults == [] then NoAction else Failed,
      note := if faults == [] then SucceededNote(act.action) else FailedNote(act.action, faults))
  }

  ghost function SkippedPackage(act: PlannedAction): Package {
    act.pkg.(ongoing := Skipped, note := LowerOrderFailed)
  }

  /** Memory and disk are brought to the same registry. */
  ghost function Saved(s: Run, reg: Registry): Run {
    s.(memory := reg, disk := reg)
  }

  ghost function Finished(s: Run, act: PlannedAction, faults: seq<Fault>, local: Local): Run {
    Saved(s, if act.action == Remove then s.memory - {act.pkg.name}
             else s.memory[act.pkg.name := FinishedPackage(act, faults, local)])
  }

  /** The state once the intent to perform `act` is recorded. */
  ghost function Recorded(s: Run, act: PlannedAction): Run {
    Saved(s, s.memory[act.pkg.name := StartedPackage(act)])
  }

  /** Preparation changes the recorded entry in memory; nothing is written. */
  ghost function Prepared(s: Run, act: PlannedAction, o: Outcome): Run {
    s.(memory := s.memory[act.pkg.name := StartedPackage(act).(local := PreparedLocal(act, o))])
  }

  ghost function WithInvocation(s: Run, act: PlannedAction, o: Outcome): Run {
    s.(log := s.log + [Invocation(act, CommandOf(act), o, s.disk, s.memory)])
  }

  /** The state right after the command was called. */
  ghost function Called(s: Run, act: PlannedAction, o: Outcome): Run {
    WithInvocation(Prepared(s, act, o), act, o)
  }

  /** The state a reboot leaves if it comes while the command runs. */
  ghost function SavedAtReboot(s: Run, act: PlannedAction, o: Outcome): Run {
    Saved(s, s.memory[act.pkg.name := InterruptedPackage(act, PreparedLocal(act, o))])
  }

  /** Performs one action; the second component is its combined error, empty for success. */
  ghost function Helper(s: Run, act: PlannedAction, o: Outcome): (Run, seq<Fault>) {
    if act.action == Cleanup then
      (Saved(s, s.memory - {act.pkg.name}), [])
    else
      var recorded := Recorded(s, act);
      if !Invokes(act) then
        (Finished(recorded, act, FaultsOf(act, o), act.pkg.local), FaultsOf(act, o))
      else if o.ending == Interrupted then
        (SavedAtReboot(Called(recorded, act, o), act, o).(exited := true), [])
      else
        (Finished(Called(recorded, act, o), act, FaultsOf(act, o), PreparedLocal(act, o)), FaultsOf(act, o))
  }

  /** Performing an action touches no report. */
  lemma {:induction false} HelperKeepsReports(s: Run, act: PlannedAction, o: Outcome)
    ensures var s' := Helper(s, act, o).0;
            && s'.results == s.results && s'.failedApps == s.failedApps
            && s'.faults == s.faults && s'.failedAt == s.failedAt
  {
  }

  // ----- Bookkeeping around actions ---------------------------------------------------------------

  ghost predicate CountsAsDeploymentFailure(act: PlannedAction, faults: seq<Fault>) {
    faults != [] && act.treatFailure && (act.action == Install || act.action == Update)
  }

  ghost function ResultOf(act: PlannedAction, verdict: Verdict): OperationResult {
    OperationResult(act.pkg.name, act.pkg.version, act.action, verdict, act.treatFailure)
  }

  ghost function VerdictOf(faults: seq<Fault>): Verdict {
    if faults == [] then Succeeded else Errored(faults)
  }

  ghost function WithReport(s: Run, slot: Slot, act: PlannedAction, faults: seq<Fault>): Run {
    s.(results := s.results + [ResultOf(act, VerdictOf(faults))],
       failedApps := if CountsAsDeploymentFailure(act, faults) then
                       Some((if s.failedApps.Some? then s.failedApps.value else []) + [act.pkg.name])
                     else s.failedApps,
       faults := s.faults + faults,
       failedAt := if slot.Ordered? && faults != [] then Some(slot.order) else s.failedAt)
  }

  ghost function SkipStep(s: Run, act: PlannedAction): Run {
    Saved(s, s.memory[act.pkg.name := SkippedPackage(act)])
      .(results := s.results + [ResultOf(act, SkippedLowerOrder)])
  }

  /** A failure at an order causes every higher order to be skipped. */
  ghost predicate Skips(s: Run, slot: Slot) {
    slot.Ordered? && s.failedAt.Some? && slot.order > s.failedAt.value
  }

  /** The n-th reported action of a run meets the n-th outcome of the environment. */
  ghost function RunAct(s: Run, slot: Slot, act: PlannedAction, env: nat -> Outcome): Run {
    if Skips(s, slot) then SkipStep(s, act)
    else
      var (s', faults) := Helper(s, act, env(|s.results|));
      if s'.exited then s' else WithReport(s', slot, act, faults)
  }

  /** After this action the rest of its group is not run. */
  ghost predicate Stops(s: Run) {
    s.exited || s.results == [] || s.results[|s.results| - 1].verdict != Succeeded
  }

  ghost function RunActs(s: Run, slot: Slot, acts: Group, env: nat -> Outcome): Run
    decreases acts
  {
    if acts == [] then s
    else
      var s' := RunAct(s, slot, acts[0], env);
      if Stops(s') then s' else RunActs(s', slot, acts[1..], env)
  }

  /** Nothing happens once the process has exited. */
  ghost function RunEntry(s: Run, e: Entry, env: nat -> Outcome): Run {
    if s.exited then s else RunActs(s, e.slot, e.acts, env)
  }

  ghost function RunEntries(s: Run, es: seq<Entry>, env: nat -> Outcome): Run {
    if es == [] then s
    else RunEntry(RunEntries(s, es[..|es| - 1], env), es[|es| - 1], env)
  }
}

/** Performing one action or one group of dependent actions on the registry, its file and the command handler. */
module Executor {
  import opened Options
  import opened Packages
  import opened Planning
  import opened Execution
  import opened RegistryStore

  /** Calls commands; `log` remembers every call together with the registry on disk and in memory at that moment. */
  class CommandHandler {
    const env: nat -> Outcome
    ghost var log: seq<Invocation>

    constructor (env: nat -> Outcome)
      ensures this.env == env && log == []
    {
      this.env := env;
      log := [];
    }

    method Execute(act: PlannedAction, command: string, o: Outcome,
                   ghost store: PackageRegistryStore, ghost registry: CurrentPackageRegistry)
      returns (ending: Ending)
      requires ReadBack(store.State()).Success?
      modifies this
      ensures log == old(log) + [Invocation(act, command, o, ReadBack(store.State()).value, registry.apps)]
      ensures ending == o.ending
    {
      log := log + [Invocation(act, command, o, ReadBack(store.State()).value, registry.apps)];
      return o.ending;
    }
  }

  /** Collects the errors of a run; `failedDeployment` is nil until an application counts as a failed deployment. */
  class ExecuteError {
    var failedDeployment: Option<seq<string>>
    var combined: seq<Fault>

    constructor ()
      ensures failedDeployment == None && combined == []
    {
      failedDeployment, combined := None, [];
    }

    method Update(act: PlannedAction, faults: seq<Fault>)
      modifies this
      ensures combined == old(combined) + faults
      ensures failedDeployment ==
              if CountsAsDeploymentFailure(act, faults) then
                Some((if old(failedDeployment).Some? then old(failedDeployment).value else []) + [act.pkg.name])
              else old(failedDeployment)
    {
      if faults != [] && act.treatFailure && (act.action == Install || act.action == Action.Update) {
        if failedDeployment.None? {
          failedDeployment := Some([]);
        }
        failedDeployment := Some(failedDeployment.value + [act.pkg.name]);
      }
      combined := combined + faults;
    }

    method GetErrorIfDeploymentFailed() returns (e: Option<(seq<string>, seq<Fault>)>)
      ensures e == if failedDeployment.None? then None else Some((failedDeployment.value, combined))
    {
      if failedDeployment.None? {
        return None;
      }
      return Some((failedDeployment.value, combined));
    }
  }

  datatype Status = RegistryUnreadable(error: ReadError) | Rebooted | Reported(results: seq<OperationResult>)

  /** The objects hold exactly the registry, file and log of `s`. */
  ghost predicate Holds(s: Run, registry: CurrentPackageRegistry, store: PackageRegistryStore, handler: CommandHandler)
    reads registry, store, handler
  {
    && registry.apps == s.memory && Keyed(s.memory)
    && ReadBack(store.State()) == Success(s.disk)
    && handler.log == s.log
  }

  /** Downloads; a failed step is noted and the next one is still tried. Removals use the files that are there. */
  method Prepare(act: PlannedAction, o: Outcome) returns (faults: seq<Fault>, local: Local)
    requires IsCommand(act.action)
    ensures faults == PreparationFaults(act, o)
    ensures local == PreparedLocal(act, o)
  {
    faults, local := [], act.pkg.local;
    if act.action == Install || act.action == Action.Update {
      if act.pkg.details.isDeleted {
        faults := [AppDeleted];
      } else {
        local := local.(downloadDir := WorkingDirectory(o.dataFolder, act.pkg));
        if o.mkdirFails {
          faults := faults + [MkdirFailed];
        }
        if o.packageDownloadFails {
          faults := faults + [PackageDownloadFailed];
        }
        if o.packageChecksum.Some? {
          local := local.(packageChecksum := o.packageChecksum);
        }
        if act.pkg.details.configExists {
          if o.configDownloadFails {
            faults := faults + [ConfigDownloadFailed];
          }
          if o.configChecksum.Some? {
            local := local.(configChecksum := o.configChecksum);
          }
        }
      }
    } else {
      local := local.(downloadDir := WorkingDirectory(o.dataFolder, act.pkg));
    }
  }

  /** Stores the entry back through the map and writes the map to disk. */
  method Store(store: PackageRegistryStore, registry: CurrentPackageRegistry, current: Package)
    requires Keyed(registry.apps)
    modifies store, registry
    ensures registry.apps == old(registry.apps)[current.name := current] && Keyed(registry.apps)
    ensures ReadBack(store.State()) == Success(registry.apps)
  {
    registry.apps := registry.apps[current.name := current];
    ghost var _ := store.WriteToDisk(registry);
  }

  /** Removes the entry from the map and writes the map to disk. */
  method Forget(store: PackageRegistryStore, registry: CurrentPackageRegistry, name: string)
    requires Keyed(registry.apps)
    modifies store, registry
    ensures registry.apps == old(registry.apps) - {name} && Keyed(registry.apps)
    ensures ReadBack(store.State()) == Success(registry.apps)
  {
    registry.apps := registry.apps - {name};
    ghost var _ := store.WriteToDisk(registry);
  }

  /** Prepares and calls the command, then handles its completion or a termination signal. */
  method CallCommand(store: PackageRegistryStore, handler: CommandHandler, registry: CurrentPackageRegistry,
                     act: PlannedAction, command: string, o: Outcome, ghost s: Run)
    returns (exited: bool, faults: seq<Fault>, local: Local)
    requires Holds(s, registry, store, handler) && Invokes(act) && command == CommandOf(act)
    modifies store, handler, registry
    ensures exited <==> o.ending == Interrupted
    ensures exited ==> Holds(SavedAtReboot(Called(s, act, o), act, o), registry, store, handler)
    ensures !exited ==>
              faults == PreparationFaults(act, o) + (if o.ending == Completed(true) then [] else [CommandFailed])
    ensures !exited ==> local == PreparedLocal(act, o)
    ensures !exited ==> Holds(Called(s, act, o), registry, store, handler) && unchanged(store)
  {
    faults, local := Prepare(act, o);
    var current := act.pkg.(ongoing := act.action, local := local);
    registry.apps := registry.apps[current.name := current];
    var ending := handler.Execute(act, command, o, store, registry);
    match ending {
      case Completed(exitOk) =>
        if !exitOk {
          faults := faults + [CommandFailed];
        }
        return false, faults, local;
      case Interrupted =>
        if current.reboot == Rerun {
          current := current.(numReboots := current.numReboots + 1, note := RerunAfterReboot(current.ongoing));
        } else {
          current := current.(note := EndedByReboot(current.ongoing));
          current := current.(ongoing := NoAction);
        }
        Store(store, registry, current);
        return true, [], local;
    }
  }

  method SelectCommand(act: PlannedAction)
    returns (command: string, shouldRemoveFromRegistry: bool, isRemoveOperation: bool, errors: seq<Fault>)
    ensures IsCommand(act.action) ==> command == CommandOf(act)
    ensures shouldRemoveFromRegistry <==> act.action == Remove
    ensures isRemoveOperation <==> IsRemoval(act.action)
    ensures errors == if IsCommand(act.action) then [] else [UnexpectedAction]
  {
    shouldRemoveFromRegistry, isRemoveOperation, errors := false, false, [];
    match act.action {
      case Install => command := act.pkg.details.installCommand;
      case RemoveForUpdate =>
        isRemoveOperation := true;
        command := act.pkg.details.removeCommand;
      case Remove =>
        shouldRemoveFromRegistry := true;
        isRemoveOperation := true;
        command := act.pkg.details.removeCommand;
      case Update => command := act.pkg.details.updateCommand;
      case _ =>
        command := "";
        errors := [UnexpectedAction];
    }
  }

  /** Records the final state of the action. */
  method Conclude(store: PackageRegistryStore, ghost handler: CommandHandler, registry: CurrentPackageRegistry,
                  act: PlannedAction, local: Local, numReboots: int, shouldRemoveFromRegistry: bool,
                  faults: seq<Fault>, ghost s: Run)
    requires Holds(s, registry, store, handler) && shouldRemoveFromRegistry == (act.action == Remove)
    requires numReboots == FinishedPackage(act, faults, local).numReboots
    modifies store, registry
    ensures Holds(Finished(s, act, faults, local), registry, store, handler)
  {
    if shouldRemoveFromRegistry {
      Forget(store, registry, act.pkg.name);
    } else {
      var current := act.pkg.(local := local, ongoing := act.action, numReboots := numReboots);
      if faults != [] {
        current := current.(note := FailedNote(current.ongoing, faults));
        current := current.(ongoing := Failed);
      } else {
        current := current.(note := SucceededNote(current.ongoing));
        current := current.(ongoing := NoAction);
      }
      Store(store, registry, current);
    }
  }

  method ExecuteHelper(store: PackageRegistryStore, handler: CommandHandler, registry: CurrentPackageRegistry,
                       act: PlannedAction, o: Outcome, ghost s: Run)
    returns (exited: bool, faults: seq<Fault>)
    requires Holds(s, registry, store, handler) && !s.exited
    modifies store, handler, registry
    ensures Holds(Helper(s, act, o).0, registry, store, handler)
    ensures exited == Helper(s, act, o).0.exited
    ensures faults == Helper(s, act, o).1
  {
    if act.action == Cleanup {
      Forget(store, registry, act.pkg.name);
      return false, [];
    }
    Store(store, registry, act.pkg.(ongoing := act.action));

    var command, shouldRemoveFromRegistry, isRemoveOperation, errors := SelectCommand(act);
    var numReboots := act.pkg.numReboots;
    if numReboots == MAX_REBOOTS {
      errors := [TooManyReboots];
      numReboots := 0;
    }

    var local := act.pkg.local;
    ghost var called := Recorded(s, act);
    if errors == [] {
      exited, errors, local := CallCommand(store, handler, registry, act, command, o, called);
      if exited {
        return true, [];
      }
      numReboots := 0;
      called := Called(called, act, o);
    }

    faults := errors + (if isRemoveOperation && o.cleanupFails then [CleanupFailed] else []);
    assert faults == FaultsOf(act, o);
    Conclude(store, handler, registry, act, local, numReboots, shouldRemoveFromRegistry, faults, called);
    return false, faults;
  }

  /** What a run has reported so far: the result list and the lowest order that failed. */
  datatype Progress = Progress(results: seq<OperationResult>, failedAt: Option<int>)

  ghost predicate Reports(s: Run, progress: Progress, error: ExecuteError)
    reads error
  {
    && progress == Progress(s.results, s.failedAt)
    && error.failedDeployment == s.failedApps && error.combined == s.faults
  }

  method ExecuteAct(store: PackageRegistryStore, handler: CommandHandler, registry: CurrentPackageRegistry,
                    error: ExecuteError, slot: Slot, act: PlannedAction, progress: Progress, ghost s: Run)
    returns (exited: bool, stop: bool, progress': Progress)
    requires Holds(s, registry, store, handler) && Reports(s, progress, error) && !s.exited
    modifies store, handler, registry, error
    ensures var s' := RunAct(s, slot, act, handler.env);
            && Holds(s', registry, store, handler) && Reports(s', progress', error)
            && exited == s'.exited && stop == Stops(s')
  {
    hide Helper, ReadBack;
    if slot.Ordered? && progress.failedAt.Some? && slot.order > progress.failedAt.value {
      Store(store, registry, act.pkg.(ongoing := Skipped, note := LowerOrderFailed));
      progress' := progress.(results := progress.results +
        [OperationResult(act.pkg.name, act.pkg.version, act.action, SkippedLowerOrder, act.treatFailure)]);
      return false, true, progress';
    }
    var exit, faults := ExecuteHelper(store, handler, registry, act, handler.env(|progress.results|), s);
    HelperKeepsReports(s, act, handler.env(|progress.results|));
    if exit {
      return true, true, progress;
    }
    error.Update(act, faults);
    var verdict := if faults == [] then Succeeded else Errored(faults);
    progress' := Progress(
      progress.results + [OperationResult(act.pkg.name, act.pkg.version, act.action, verdict, act.treatFailure)],
      if faults != [] && slot.Ordered? then Some(slot.order) else progress.failedAt);
    return false, faults != [], progress';
  }

  /** Runs one group of dependent actions. The source writes this loop once for ordered groups, with the skip,
      and once for unordered ones, where nothing is skipped. */
  method ExecuteGroup(store: PackageRegistryStore, handler: CommandHandler, registry: CurrentPackageRegistry,
                      error: ExecuteError, slot: Slot, acts: Group, progress: Progress, ghost s: Run)
    returns (exited: bool, progress': Progress)
    requires Holds(s, registry, store, handler) && Reports(s, progress, error) && !s.exited
    modifies store, handler, registry, error
    ensures var s' := RunEntry(s, Entry(slot, acts), handler.env);
            Holds(s', registry, store, handler) && Reports(s', progress', error) && exited == s'.exited
  {
    hide RunAct, ReadBack;
    progress' := progress;
    ghost var t := s;
    var i := 0;
    while i < |acts|
      invariant 0 <= i <= |acts|
      invariant Holds(t, registry, store, handler) && Reports(t, progress', error) && !t.exited
      invariant RunActs(s, slot, acts, handler.env) == RunActs(t, slot, acts[i..], handler.env)
    {
      assert acts[i..][0] == acts[i] && acts[i..][1..] == acts[i + 1..];
      var stop;
      exited, stop, progress' := ExecuteAct(store, handler, registry, error, slot, acts[i], progress', t);
      t := RunAct(t, slot, acts[i], handler.env);
      if stop {
        return;
      }
      i := i + 1;
    }
    return false, progress';
  }

  lemma {:induction false} RunEntriesSnoc(s: Run, es: seq<Entry>, e: Entry, env: nat -> Outcome)
    ensures RunEntries(s, es + [e], env) == RunEntry(RunEntries(s, es, env), e, env)
  {
    assert (es + [e])[..|es|] == es;
  }

  lemma {:induction false} ExitedStays(s: Run, es: seq<Entry>, more: seq<Entry>, env: nat -> Outcome)
    requires RunEntries(s, es, env).exited
    ensures RunEntries(s, es + more, env) == RunEntries(s, es, env)
  {
    if more == [] {
      assert es + more == es;
    } else {
      var n := |more| - 1;
      assert es + more == (es + more[..n]) + [more[n]];
      RunEntriesSnoc(s, es + more[..n], more[n], env);
      ExitedStays(s, es, more[..n], env);
    }
  }
}

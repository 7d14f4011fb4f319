/** What one entry of a schedule does to its application, and what the next plan makes of it. */
module Effects {
  import opened Packages
  import opened Planning
  import opened Execution
  import opened Schedules
  import opened Runs
  import opened Versions

  predicate IsInstallOrUpdate(action: Action) {
    action == Install || action == Update
  }

  /** The calls of install or update commands for one application. */
  ghost function InstallCalls(log: seq<Invocation>, name: string): nat {
    if log == [] then 0
    else
      var last := log[|log| - 1];
      InstallCalls(log[..|log| - 1], name)
      + (if last.act.pkg.name == name && IsInstallOrUpdate(last.act.action) then 1 else 0)
  }

  lemma {:induction false} InstallCallsOfOthers(log: seq<Invocation>, log': seq<Invocation>, name: string)
    requires log <= log' && forall i :: |log| <= i < |log'| ==> log'[i].act.pkg.name != name
    ensures InstallCalls(log', name) == InstallCalls(log, name)
    decreases |log'|
  {
    if |log'| == |log| {
      assert log' == log;
    } else {
      var front := log'[..|log'| - 1];
      assert log <= front;
      InstallCallsOfOthers(log, front, name);
    }
  }

  // ----- One action ---------------------------------------------------------------------------------------

  lemma {:induction false} SkippedAct(s: Run, slot: Slot, act: PlannedAction, env: nat -> Outcome)
    requires !s.exited && Skips(s, slot)
    ensures var s' := RunAct(s, slot, act, env);
            && !s'.exited && Stops(s') && s'.log == s.log
            && act.pkg.name in s'.memory && s'.memory[act.pkg.name] == SkippedPackage(act)
            && s'.results == s.results + [ResultOf(act, SkippedLowerOrder)]
  {
    hide SkippedPackage;
  }

  lemma {:induction false} InterruptedAct(s: Run, slot: Slot, act: PlannedAction, env: nat -> Outcome)
    returns (local: Local)
    requires !s.exited && RunAct(s, slot, act, env).exited
    ensures var s' := RunAct(s, slot, act, env);
            && !Skips(s, slot) && Invokes(act) && Stops(s')
            && act.pkg.name in s'.memory && s'.memory[act.pkg.name] == InterruptedPackage(act, local)
            && s'.results == s.results
            && |s'.log| == |s.log| + 1 && s'.log[..|s.log|] == s.log && s'.log[|s.log|].act == act
  {
    local := PreparedLocal(act, env(|s.results|));
    hide FaultsOf, PreparedLocal, FinishedPackage, InterruptedPackage, SkippedPackage;
  }

  lemma {:induction false} FinishedAct(s: Run, slot: Slot, act: PlannedAction, env: nat -> Outcome)
    returns (faults: seq<Fault>, local: Local)
    requires !s.exited && !Skips(s, slot) && !RunAct(s, slot, act, env).exited
    ensures var s' := RunAct(s, slot, act, env);
            && (act.action == Cleanup || act.action == Remove ==> act.pkg.name !in s'.memory)
            && (act.action != Cleanup && act.action != Remove ==>
                  act.pkg.name in s'.memory && s'.memory[act.pkg.name] == FinishedPackage(act, faults, local))
            && s'.results == s.results + [ResultOf(act, VerdictOf(faults))]
            && (Stops(s') <==> faults != [])
            && (Invokes(act) ==> |s'.log| == |s.log| + 1 && s'.log[..|s.log|] == s.log && s'.log[|s.log|].act == act)
            && (!Invokes(act) ==> s'.log == s.log)
            && (UnexpectedAction in faults ==> !IsCommand(act.action) && act.action != Cleanup)
            && (AppDeleted in faults ==> act.pkg.details.isDeleted)
  {
    var o := env(|s.results|);
    faults, local := Helper(s, act, o).1, if Invokes(act) then PreparedLocal(act, o) else act.pkg.local;
    HelperKeepsReports(s, act, o);
    UnexpectedOnlyIfNoCommand(act, o);
    hide FaultsOf, PreparedLocal, FinishedPackage, InterruptedPackage, SkippedPackage;
  }

  lemma {:induction false} UnexpectedOnlyIfNoCommand(act: PlannedAction, o: Outcome)
    ensures UnexpectedAction in FaultsOf(act, o) ==> !IsCommand(act.action)
    ensures AppDeleted in FaultsOf(act, o) ==> act.pkg.details.isDeleted
  {
  }

  // ----- One desired application ----------------------------------------------------------------------------

  datatype Fate =
    | SkippedFate
    | InterruptedFate(act: PlannedAction, local: Local)
    | RemoveFailedFate(faults: seq<Fault>, local: Local)
    | DoneFate(act: PlannedAction, faults: seq<Fault>, local: Local)

  /** Only commands that install, update or remove for an update are planned for `d`. */
  ghost predicate Regular(g: Group) {
    forall act :: act in g ==> act.action == Install || act.action == Update || act.action == RemoveForUpdate
  }

  /** `fate` is what happened to the group `g` of application `n` between `s` and `s'`. */
  ghost predicate HasFate(fate: Fate, s: Run, s': Run, slot: Slot, g: Group, n: string)
    requires g != []
  {
    && n in s'.memory
    && s.log <= s'.log && s.results <= s'.results
    && match fate
       case SkippedFate =>
         && Skips(s, slot) && !s'.exited && s'.memory[n] == SkippedPackage(g[0]) && s'.log == s.log
         && s'.results == s.results + [ResultOf(g[0], SkippedLowerOrder)]
       case InterruptedFate(act, local) =>
         && !Skips(s, slot) && s'.exited && act in g && Invokes(act) && s'.memory[n] == InterruptedPackage(act, local)
         && InstallCalls(s'.log, n) == InstallCalls(s.log, n) + (if IsInstallOrUpdate(act.action) then 1 else 0)
       case RemoveFailedFate(faults, local) =>
         && !Skips(s, slot) && !s'.exited && |g| == 2 && faults != [] 
         && s'.memory[n] == FinishedPackage(g[0], faults, local)
         && InstallCalls(s'.log, n) == InstallCalls(s.log, n)
         && s'.results == s.results + [ResultOf(g[0], Errored(faults))]
       case DoneFate(act, faults, local) =>
         && !Skips(s, slot) && !s'.exited && act == g[|g| - 1] && s'.memory[n] == FinishedPackage(act, faults, local)
         && InstallCalls(s'.log, n) ==
           InstallCalls(s.log, n) + (if Invokes(act) && IsInstallOrUpdate(act.action) then 1 else 0)
         && s'.results == s.results
              + (if |g| == 2 then [ResultOf(g[0], Succeeded)] else [])
              + [ResultOf(act, VerdictOf(faults))]
  }

  lemma {:induction false} InstallCallsSnoc(log: seq<Invocation>, log': seq<Invocation>, name: string)
    requires |log'| == |log| + 1 && log'[..|log|] == log
    ensures InstallCalls(log', name) ==
            InstallCalls(log, name)
            + (if log'[|log|].act.pkg.name == name && IsInstallOrUpdate(log'[|log|].act.action) then 1 else 0)
  {
  }

  lemma {:induction false} SingleFate(s: Run, slot: Slot, act: PlannedAction, env: nat -> Outcome) returns (fate: Fate)
    requires !s.exited && Regular([act])
    ensures HasFate(fate, s, RunActs(s, slot, [act], env), slot, [act], act.pkg.name)
    ensures !fate.RemoveFailedFate?
  {
    RunOne(s, slot, act, env);
    hide RunActs, RunAct, FinishedPackage, InterruptedPackage, SkippedPackage;
    var s' := RunAct(s, slot, act, env);
    assert act in [act];
    if Skips(s, slot) {
      SkippedAct(s, slot, act, env);
      fate := SkippedFate;
    } else if s'.exited {
      var local := InterruptedAct(s, slot, act, env);
      InstallCallsSnoc(s.log, s'.log, act.pkg.name);
      fate := InterruptedFate(act, local);
    } else {
      var faults, local := FinishedAct(s, slot, act, env);
      if Invokes(act) {
        InstallCallsSnoc(s.log, s'.log, act.pkg.name);
      }
      fate := DoneFate(act, faults, local);
      assert s.results + [] == s.results;
    }
  }

  /** The first leg of a pair decides whether the second one runs. */
  lemma {:induction false} PairFate(s: Run, slot: Slot, remove: PlannedAction, install: PlannedAction,
                                    env: nat -> Outcome) returns (fate: Fate)
    requires !s.exited && remove.pkg.name == install.pkg.name
    requires remove.action == RemoveForUpdate && install.action == Install
    ensures HasFate(fate, s, RunActs(s, slot, [remove, install], env), slot, [remove, install], install.pkg.name)
  {
    RunTwo(s, slot, remove, install, env);
    hide RunActs, RunAct, FinishedPackage, InterruptedPackage, SkippedPackage;
    var n := install.pkg.name;
    var s1 := RunAct(s, slot, remove, env);
    if Skips(s, slot) {
      SkippedAct(s, slot, remove, env);
      fate := SkippedFate;
    } else if s1.exited {
      var local := InterruptedAct(s, slot, remove, env);
      InstallCallsSnoc(s.log, s1.log, n);
      fate := InterruptedFate(remove, local);
    } else {
      ActFailedAt(s, slot, remove, env);
      var faults, local := FinishedAct(s, slot, remove, env);
      if Invokes(remove) {
        InstallCallsSnoc(s.log, s1.log, n);
      }
      if faults != [] {
        fate := RemoveFailedFate(faults, local);
      } else {
        fate := SecondLegFate(s, s1, slot, remove, install, env);
      }
    }
  }

  lemma {:induction false} SecondLegFate(s: Run, s1: Run, slot: Slot, remove: PlannedAction, install: PlannedAction,
                                         env: nat -> Outcome)
    returns (fate: Fate)
    requires !s1.exited && !Skips(s, slot) && remove.pkg.name == install.pkg.name && install.action == Install
    requires s1.failedAt == s.failedAt && s.log <= s1.log && s1.results == s.results + [ResultOf(remove, Succeeded)]
    requires InstallCalls(s1.log, install.pkg.name) == InstallCalls(s.log, install.pkg.name)
    ensures HasFate(fate, s, RunAct(s1, slot, install, env), slot, [remove, install], install.pkg.name)
  {
    assert Regular([install]);
    fate := SingleFate(s1, slot, install, env);
    RunOne(s1, slot, install, env);
    LiftFate(fate, s, s1, RunAct(s1, slot, install, env), slot, remove, install);
  }

  lemma {:induction false} LiftFate(fate: Fate, s: Run, s1: Run, s': Run, slot: Slot, remove: PlannedAction,
                                    install: PlannedAction)
    requires HasFate(fate, s1, s', slot, [install], install.pkg.name) && !fate.RemoveFailedFate?
    requires !Skips(s, slot) && s1.failedAt == s.failedAt
    requires s.log <= s1.log && s1.results == s.results + [ResultOf(remove, Succeeded)]
    requires InstallCalls(s1.log, install.pkg.name) == InstallCalls(s.log, install.pkg.name)
    ensures HasFate(fate, s, s', slot, [remove, install], install.pkg.name)
  {
    hide InstallCalls, Invokes, FinishedPackage, InterruptedPackage, SkippedPackage;
    if fate.DoneFate? {
      assert s1.results + [] == s1.results;
    } else {
      assert !Skips(s1, slot);
    }
  }

  // ----- The next plan ----------------------------------------------------------------------------------------

  /** The group the next plan has for `d`, given what happened to its present group. */
  ghost function NextGroup(fate: Fate, g: Group, d: Incoming): Group
    requires g != []
  {
    match fate
    case SkippedFate =>
      if |g| == 2 then [PlannedAction(SkippedPackage(g[0]), false, RemoveForUpdate), g[1]]
      else if g[0].pkg.numReboots > 0 then [PlannedAction(SkippedPackage(g[0]), d.treatFailure, Skipped)]
      else []
    case InterruptedFate(act, local) =>
      if act.action == RemoveForUpdate then
        [PlannedAction(InterruptedPackage(act, local), false, RemoveForUpdate), g[|g| - 1]]
      else if act.pkg.reboot == Rerun then [PlannedAction(InterruptedPackage(act, local), d.treatFailure, act.action)]
      else []
    case RemoveFailedFate(faults, local) =>
      [PlannedAction(FinishedPackage(g[0], faults, local), false, RemoveForUpdate), g[|g| - 1]]
    case DoneFate(_, _, _) => []
  }

  ghost predicate HealthyPackage(p: Package) {
    0 <= p.numReboots <= MAX_REBOOTS && (p.numReboots > 0 ==> p.reboot == Rerun)
  }

  lemma {:induction false} GroupShape(reg: Registry, d: Incoming)
    requires Keyed(reg) && GroupFor(reg, d) != []
    ensures var g := GroupFor(reg, d);
            && 1 <= |g| <= 2
            && (|g| == 2 ==>
                  && d.name in reg && !VersionsEqual(reg[d.name].version, d.version) && d.updateCommand == ""
                  && g == [PlannedAction(reg[d.name], false, RemoveForUpdate),
                           PlannedAction(FromIncoming(d), d.treatFailure, Install)])
            && (|g| == 1 ==> VersionsEqual(g[0].pkg.version, d.version) && g[0].treatFailure == d.treatFailure)
            && (|g| == 1 && g[0].pkg.numReboots <= 0 ==> IsInstallOrUpdate(g[0].action) && g[0].pkg == FromIncoming(d))
            && (|g| == 1 && g[0].pkg.numReboots > 0 ==>
                  d.name in reg && g[0].pkg == reg[d.name] && g[0].action == reg[d.name].ongoing)
  {
    VersionsEqualIsEquivalence(d.version, d.version, d.version);
    hide VersionsEqual;
  }

  /** Planning again for `d` after one run gives exactly the group its fate calls for. */
  lemma {:induction false} FateDecidesNextGroup(reg: Registry, d: Incoming, s: Run, s': Run, slot: Slot, fate: Fate)
    requires Keyed(reg) && GroupFor(reg, d) != [] && Regular(GroupFor(reg, d))
    requires forall act :: act in GroupFor(reg, d) ==> HealthyPackage(act.pkg)
    requires |GroupFor(reg, d)| == 1 ==> IsInstallOrUpdate(GroupFor(reg, d)[0].action)
    requires HasFate(fate, s, s', slot, GroupFor(reg, d), d.name)
    ensures GroupFor(s'.memory, d) == NextGroup(fate, GroupFor(reg, d), d)
  {
    var g := GroupFor(reg, d);
    GroupShape(reg, d);
    VersionsEqualIsEquivalence(d.version, d.version, d.version);
    hide VersionsEqual, InstallCalls, Invokes, Skips;
    assert g[0] in g;
    if |g| == 2 {
      assert g[1] in g;
    }
  }

  /** The reboot count that a fate leaves behind. */
  lemma {:induction false} CountAfterFate(fate: Fate, s: Run, s': Run, slot: Slot, g: Group, n: string)
    requires g != [] && Regular(g) && HasFate(fate, s, s', slot, g, n)
    ensures n in s'.memory
    ensures s'.memory[n].numReboots ==
            match fate
            case SkippedFate => g[0].pkg.numReboots
            case InterruptedFate(act, _) => act.pkg.numReboots + (if act.pkg.reboot == Rerun then 1 else 0)
            case RemoveFailedFate(_, _) => 0
            case DoneFate(_, _, _) => 0
  {
    hide InstallCalls, Skips;
    assert g[0] in g && g[|g| - 1] in g;
  }

  /** A single follow-up action is an install or an update, unless a pending retry was skipped. */
  lemma {:induction false} NextGroupShape(fate: Fate, g: Group, d: Incoming)
    requires g != [] && Regular(g)
    requires fate.InterruptedFate? ==> fate.act in g
    requires fate.SkippedFate? && |g| != 2 ==> g[0].pkg.numReboots <= 0
    ensures |NextGroup(fate, g, d)| == 1 ==> IsInstallOrUpdate(NextGroup(fate, g, d)[0].action)
    ensures |NextGroup(fate, g, d)| <= 2
  {
    assert g[0] in g;
  }

  // ----- One application that is no longer desired ----------------------------------------------------------------

  /** A removal is never skipped: it ends with the entry gone, or interrupted with the entry kept. */
  lemma {:induction false} RemovalFate(s: Run, p: Package, env: nat -> Outcome) returns (local: Local)
    requires !s.exited
    ensures var s', act := RunEntry(s, RemovalOf(p), env), UninstallFor(p);
            && (!s'.exited ==> p.name !in s'.memory)
            && (s'.exited ==>
                  && act.action == Remove && Invokes(act) && s'.log != [] && s'.log[|s'.log| - 1].act == act
                  && p.name in s'.memory && s'.memory[p.name] == InterruptedPackage(act, local))
            && InstallCalls(s'.log, p.name) == InstallCalls(s.log, p.name)
            && s.results <= s'.results && s.log <= s'.log
            && (forall i :: |s.results| <= i < |s'.results| ==> s'.results[i].operation != RemoveForUpdate)
  {
    local := NO_LOCAL;
    var act := UninstallFor(p);
    RunOne(s, Uninstall, act, env);
    var s' := RunAct(s, Uninstall, act, env);
    hide RunActs, RunAct, FinishedPackage, InterruptedPackage;
    if s'.exited {
      local := InterruptedAct(s, Uninstall, act, env);
      InstallCallsSnoc(s.log, s'.log, p.name);
    } else {
      var faults, _ := FinishedAct(s, Uninstall, act, env);
      if Invokes(act) {
        InstallCallsSnoc(s.log, s'.log, p.name);
      }
    }
  }

  /** A removal is interrupted exactly when its command is called and a signal arrives before it completes. */
  lemma {:induction false} RemovalInterruptedIff(s: Run, p: Package, env: nat -> Outcome)
    requires !s.exited
    ensures RunEntry(s, RemovalOf(p), env).exited
       <==> p.ongoing != Skipped && p.numReboots != MAX_REBOOTS && env(|s.results|).ending == Interrupted
  {
    RunOne(s, Uninstall, UninstallFor(p), env);
    hide FaultsOf, PreparedLocal, FinishedPackage, InterruptedPackage;
  }

  /** After an interrupted removal the entry is still there and the removal is planned again. It has been counted
      exactly if the application asks to be rerun; otherwise nothing is pending and the next attempt starts afresh. */
  lemma {:induction false} InterruptedRemovalMakesProgressIff(s: Run, p: Package, env: nat -> Outcome)
    requires !s.exited && HealthyPackage(p) && RunEntry(s, RemovalOf(p), env).exited
    ensures p.name in RunEntry(s, RemovalOf(p), env).memory
    ensures var p' := RunEntry(s, RemovalOf(p), env).memory[p.name];
            && p'.name == p.name && UninstallFor(p').action == Remove
            && (p'.numReboots > p.numReboots <==> p.reboot == Rerun)
            && (p.reboot != Rerun ==> p'.numReboots == p.numReboots == 0 && p'.ongoing == NoAction)
  {
    var local := RemovalFate(s, p, env);
    hide RunEntry;
  }
}

/** What a run calls, reports and leaves in the registry, read off the actions performed and the outside world. */
module Reports {
  import opened Packages
  import opened Planning
  import opened Execution
  import opened Schedules
  import opened PlannedWork
  import opened Runs
  import opened Effects
  import opened Histories
  import opened Versions

  // ----- Calls ------------------------------------------------------------------------------------------------------

  /** Installs and updates fetch files, unless the retries are used up. */
  ghost predicate Fetches(act: PlannedAction) {
    (act.action == Install || act.action == Update) && act.pkg.numReboots != MAX_REBOOTS
  }

  ghost predicate Removes(act: PlannedAction) {
    act.action == Remove || act.action == RemoveForUpdate
  }

  /** Each action calls the command recorded for it. */
  ghost predicate CallsOwnCommand(call: Invocation) {
    && (call.act.action == Install ==> call.command == call.act.pkg.details.installCommand)
    && (call.act.action == Update ==> call.command == call.act.pkg.details.updateCommand)
    && (Removes(call.act) ==> call.command == call.act.pkg.details.removeCommand)
    && (call.act.action == Install || call.act.action == Update || Removes(call.act))
    && call.act.pkg.numReboots != MAX_REBOOTS
  }

  /** What is prepared for a call: the folder of the application and version, and the checksums that could be computed.
      A deleted application gets nothing, a removal only the folder. */
  ghost predicate PreparedAs(local: Local, act: PlannedAction, o: Outcome) {
    var p, fetched := act.pkg, !Removes(act) && !act.pkg.details.isDeleted;
    && local.downloadDir == (if fetched || Removes(act) then o.dataFolder + "/" + p.name + "/" + p.version
                             else p.local.downloadDir)
    && local.packageChecksum == (if fetched && o.packageChecksum.Some? then o.packageChecksum
                                 else p.local.packageChecksum)
    && local.configChecksum == (if fetched && p.details.configExists && o.configChecksum.Some? then o.configChecksum
                                else p.local.configChecksum)
  }

  ghost predicate CallsPrepared(call: Invocation) {
    call.act.pkg.name in call.memory && PreparedAs(call.memory[call.act.pkg.name].local, call.act, call.o)
  }

  lemma {:induction false} CallIsOwn(call: Invocation)
    requires WrittenAhead(call)
    ensures CallsOwnCommand(call) && CallsPrepared(call)
  {
  }

  /** In every run every call is of the command that belongs to its action, in the prepared folder. */
  lemma {:induction false} EveryCall(reg: Registry, es: seq<Entry>, env: nat -> Outcome, i: nat)
    requires i < |RunEntries(Start(reg), es, env).log|
    ensures var call := RunEntries(Start(reg), es, env).log[i]; CallsOwnCommand(call) && CallsPrepared(call)
  {
    hide *;
    WriteAhead(reg, es, env);
    CallIsOwn(RunEntries(Start(reg), es, env).log[i]);
  }

  ghost predicate LogPlanned(s: Run, es: seq<Entry>) {
    forall i :: 0 <= i < |s.log| ==> exists e :: e in es && s.log[i].act in e.acts
  }

  lemma {:induction false} ActLogsItself(s: Run, slot: Slot, act: PlannedAction, env: nat -> Outcome)
    ensures var s' := RunAct(s, slot, act, env);
            s.log <= s'.log && forall i :: |s.log| <= i < |s'.log| ==> s'.log[i].act == act
  {
    HelperFrame(s, act, env(|s.results|));
    hide Helper;
  }

  lemma {:induction false} CallsArePlanned(reg: Registry, es: seq<Entry>, env: nat -> Outcome)
    ensures LogPlanned(RunEntries(Start(reg), es, env), es)
  {
    var P := (t: Run) => LogPlanned(t, es);
    forall t: Run, e, act | e in es && act in e.acts && !t.exited && P(t)
      ensures P(RunAct(t, e.slot, act, env))
    {
      ActLogsItself(t, e.slot, act, env);
      hide RunAct;
      var t' := RunAct(t, e.slot, act, env);
      forall i | 0 <= i < |t'.log|
        ensures exists f :: f in es && t'.log[i].act in f.acts
      {
        if i < |t.log| {
          assert t'.log[i] == t.log[i];
        }
      }
    }
    hide RunAct;
    RunInvariant(P, Start(reg), es, env);
  }

  lemma {:induction false} CallEntry(reg: Registry, r: RunInput, i: nat) returns (e: Entry)
    requires Keyed(reg) && DistinctDesired(r.desired) && ValidRun(reg, r) && i < |EndOf(reg, r).log|
    ensures Coherent(r.plan) && e in Schedule(r.plan) && EndOf(reg, r).log[i].act in e.acts
    ensures NameOf(e) == EndOf(reg, r).log[i].act.pkg.name
  {
    CallsArePlanned(reg, Schedule(r.plan), r.env);
    RunSchedule(reg, r);
    hide RunEntries, Schedule, PlansFrom, IsEntry;
    e :| e in Schedule(r.plan) && EndOf(reg, r).log[i].act in e.acts;
    var k :| 0 <= k < |Schedule(r.plan)| && Schedule(r.plan)[k] == e;
    EntryNames(reg, r.desired, Schedule(r.plan)[k]);
  }

  lemma {:induction false} EveryCallOfRun(reg: Registry, r: RunInput, i: nat)
    requires Coherent(r.plan) && i < |EndOf(reg, r).log|
    ensures CallsOwnCommand(EndOf(reg, r).log[i])
  {
    hide RunEntries, Schedule;
    EveryCall(reg, Schedule(r.plan), r.env, i);
  }

  lemma {:induction false} PlannedFrom(reg: Registry, r: RunInput) returns (coll: seq<Package>)
    requires ValidRun(reg, r)
    ensures Coherent(r.plan) && IsCollectionOf(coll, reg) && IsPlanOf(r.plan, coll, reg, r.desired)
  {
    hide IsCollectionOf, IsPlanOf;
    coll :| IsCollectionOf(coll, reg) && IsPlanOf(r.plan, coll, reg, r.desired);
  }

  /** The command of `call`, made for desired application `d`, comes from the list: the install command of what is
      missing, the update command for another version, or the old entry's remove command and then the install command.
      A retry calls what was recorded. */
  ghost predicate CallFor(call: Invocation, reg: Registry, d: Incoming) {
    if d.name !in reg then
      call.act.action == Install && call.command == d.installCommand
    else if OtherVersion(reg, d) && d.updateCommand != "" then
      call.act.action == Update && call.command == d.updateCommand
    else if OtherVersion(reg, d) then
      || (call.act.action == RemoveForUpdate && call.command == reg[d.name].details.removeCommand)
      || (call.act.action == Install && call.command == d.installCommand)
    else
      && reg[d.name].numReboots > 0 && call.act.action == reg[d.name].ongoing
      && (call.act.action == Install ==> call.command == reg[d.name].details.installCommand)
      && (call.act.action == Update ==> call.command == reg[d.name].details.updateCommand)
      && (Removes(call.act) ==> call.command == reg[d.name].details.removeCommand)
  }

  lemma {:induction false} GroupCalls(reg: Registry, d: Incoming, call: Invocation)
    requires Keyed(reg) && call.act in GroupFor(reg, d) && CallsOwnCommand(call)
    ensures CallFor(call, reg, d)
  {
    GroupExactly(reg, d);
    GroupIsOneOrTwo(reg, d);
    hide VersionsEqual, GroupFor;
  }

  lemma {:induction false} GroupIsOneOrTwo(reg: Registry, d: Incoming)
    ensures GroupFor(reg, d) != [] ==>
              |GroupFor(reg, d)| == 2 || (|GroupFor(reg, d)| == 1 && GroupFor(reg, d) == [GroupFor(reg, d)[0]])
    ensures GroupFor(reg, d) != [] && d.name in reg && !OtherVersion(reg, d) ==> reg[d.name].numReboots > 0
  {
    hide VersionsEqual;
  }

  /** All calls of a run about a desired application. */
  lemma {:induction false} CallsForDesired(reg: Registry, r: RunInput, i: nat, d: Incoming)
    requires Keyed(reg) && DistinctDesired(r.desired) && ValidRun(reg, r) && i < |EndOf(reg, r).log|
    requires d in r.desired && EndOf(reg, r).log[i].act.pkg.name == d.name
    ensures CallFor(EndOf(reg, r).log[i], reg, d)
  {
    hide *;
    var coll := PlannedFrom(reg, r);
    var e := CallEntry(reg, r, i);
    EveryCallOfRun(reg, r, i);
    EntryOfDesired(r.plan, coll, reg, r.desired, d, e);
    EntryActs(reg, d);
    GroupCalls(reg, d, EndOf(reg, r).log[i]);
  }

  lemma {:induction false} EntryActs(reg: Registry, d: Incoming)
    ensures EntryFor(reg, d).acts == GroupFor(reg, d)
  {
  }

  /** For an application that is no longer desired only the remove command recorded for it is called. */
  lemma {:induction false} CallsForUndesired(reg: Registry, r: RunInput, i: nat, n: string)
    requires Keyed(reg) && DistinctDesired(r.desired) && ValidRun(reg, r) && i < |EndOf(reg, r).log|
    requires !IsDesired(r.desired, n) && EndOf(reg, r).log[i].act.pkg.name == n
    ensures n in reg && EndOf(reg, r).log[i].act.action == Remove
    ensures EndOf(reg, r).log[i].command == reg[n].details.removeCommand
  {
    hide *;
    var coll := PlannedFrom(reg, r);
    var e := CallEntry(reg, r, i);
    EveryCallOfRun(reg, r, i);
    PlannedForUndesired(r.plan, coll, reg, r.desired, n, e);
    assert EndOf(reg, r).log[i].act == e.acts[0];
    RemovalCalls(EndOf(reg, r).log[i], reg[n]);
  }

  lemma {:induction false} RemovalCalls(call: Invocation, p: Package)
    requires CallsOwnCommand(call) && call.act.pkg == p && (call.act.action == Cleanup || call.act.action == Remove)
    ensures call.act.action == Remove && call.command == p.details.removeCommand
  {
  }

  // ----- Results and entries ----------------------------------------------------------------------------------------

  /** When a cause of failure applies to an action that is performed. */
  ghost predicate Cause(f: Fault, act: PlannedAction, o: Outcome) {
    match f
    case TooManyReboots => act.pkg.numReboots == MAX_REBOOTS
    case UnexpectedAction =>
      act.pkg.numReboots != MAX_REBOOTS && act.action != Install && act.action != Update && !Removes(act)
    case AppDeleted => Fetches(act) && act.pkg.details.isDeleted
    case MkdirFailed => Fetches(act) && !act.pkg.details.isDeleted && o.mkdirFails
    case PackageDownloadFailed => Fetches(act) && !act.pkg.details.isDeleted && o.packageDownloadFails
    case ConfigDownloadFailed =>
      Fetches(act) && !act.pkg.details.isDeleted && act.pkg.details.configExists && o.configDownloadFails
    case CommandFailed =>
      (Fetches(act) || (Removes(act) && act.pkg.numReboots != MAX_REBOOTS)) && o.ending != Completed(true)
    case CleanupFailed => Removes(act) && o.cleanupFails
  }

  /** The causes in the order in which they are combined. */
  const CAUSES: seq<Fault> := [TooManyReboots, UnexpectedAction, AppDeleted, MkdirFailed, PackageDownloadFailed,
                               ConfigDownloadFailed, CommandFailed, CleanupFailed]

  ghost function Applying(causes: seq<Fault>, act: PlannedAction, o: Outcome): seq<Fault> {
    if causes == [] then []
    else (if Cause(causes[0], act, o) then [causes[0]] else []) + Applying(causes[1..], act, o)
  }

  /** The result names its action and says whether it was skipped, failed with all causes that applied, or succeeded
      because none did. A clean-up always succeeds. */
  ghost predicate Explained(r: OperationResult, act: PlannedAction, o: Outcome) {
    && r.name == act.pkg.name && r.version == act.pkg.version
    && r.operation == act.action && r.treatFailure == act.treatFailure
    && (r.verdict != SkippedLowerOrder ==>
          var causes := if act.action == Cleanup then [] else Applying(CAUSES, act, o);
          r.verdict == if causes == [] then Succeeded else Errored(causes))
  }

  /** The action calls its command. */
  ghost predicate Calls(act: PlannedAction) {
    (act.action == Install || act.action == Update || Removes(act)) && act.pkg.numReboots != MAX_REBOOTS
  }

  /** The registry says what the result says, about the application the action was planned for. */
  ghost predicate EntryTells(m: Registry, act: PlannedAction, o: Outcome, r: OperationResult) {
    if r.verdict != SkippedLowerOrder && (act.action == Remove || act.action == Cleanup) then r.name !in m
    else
      && r.name in m
      && var p := m[r.name];
         && p.name == act.pkg.name && p.version == act.pkg.version
         && p.details == act.pkg.details && p.reboot == act.pkg.reboot
         && (if r.verdict != SkippedLowerOrder && Calls(act) then PreparedAs(p.local, act, o)
             else p.local == act.pkg.local)
         && match r.verdict
            case SkippedLowerOrder =>
              p.ongoing == Skipped && p.note == LowerOrderFailed && p.numReboots == act.pkg.numReboots
            case Succeeded => p.ongoing == NoAction && p.note == SucceededNote(act.action) && p.numReboots == 0
            case Errored(causes) =>
              && p.ongoing == Failed && p.note == FailedNote(act.action, causes)
              && p.numReboots == (if UnexpectedAction in causes then act.pkg.numReboots else 0)
  }

  /** The registry says that the command was cut off, and whether it is to be run again. */
  ghost predicate EntryTellsReboot(m: Registry, call: Invocation) {
    var act := call.act;
    && act.pkg.name in m
    && var p := m[act.pkg.name];
       && PreparedAs(p.local, act, call.o)
       && p.name == act.pkg.name && p.version == act.pkg.version
       && p.details == act.pkg.details && p.reboot == act.pkg.reboot
       && if act.pkg.reboot == Rerun then
            p.ongoing == act.action && p.numReboots == act.pkg.numReboots + 1 && p.note == RerunAfterReboot(act.action)
          else
            p.ongoing == NoAction && p.numReboots == act.pkg.numReboots && p.note == EndedByReboot(act.action)
  }

  ghost function IfCause(f: Fault, act: PlannedAction, o: Outcome): seq<Fault> {
    if Cause(f, act, o) then [f] else []
  }

  lemma {:induction false} ApplyingTail(f: Fault, rest: seq<Fault>, act: PlannedAction, o: Outcome)
    ensures Applying([f] + rest, act, o) == IfCause(f, act, o) + Applying(rest, act, o)
  {
    assert ([f] + rest)[1..] == rest;
  }

  lemma {:induction false} LastCauses(act: PlannedAction, o: Outcome)
    ensures Applying([CommandFailed] + ([CleanupFailed] + []), act, o) ==
            IfCause(CommandFailed, act, o) + (IfCause(CleanupFailed, act, o) + [])
  {
    ApplyingTail(CommandFailed, [CleanupFailed] + [], act, o);
    ApplyingTail(CleanupFailed, [], act, o);
    assert Applying([], act, o) == [];
  }

  lemma {:induction false} FetchCauses(act: PlannedAction, o: Outcome, rest: seq<Fault>)
    ensures Applying([MkdirFailed] + ([PackageDownloadFailed] + ([ConfigDownloadFailed] + rest)), act, o) ==
            IfCause(MkdirFailed, act, o)
            + (IfCause(PackageDownloadFailed, act, o)
            + (IfCause(ConfigDownloadFailed, act, o) + Applying(rest, act, o)))
  {
    hide *;
    ApplyingTail(ConfigDownloadFailed, rest, act, o);
    ApplyingTail(PackageDownloadFailed, [ConfigDownloadFailed] + rest, act, o);
    ApplyingTail(MkdirFailed, [PackageDownloadFailed] + ([ConfigDownloadFailed] + rest), act, o);
  }

  lemma {:induction false} FirstCauses(act: PlannedAction, o: Outcome, rest: seq<Fault>)
    ensures Applying([TooManyReboots] + ([UnexpectedAction] + ([AppDeleted] + rest)), act, o) ==
            IfCause(TooManyReboots, act, o)
            + (IfCause(UnexpectedAction, act, o) + (IfCause(AppDeleted, act, o) + Applying(rest, act, o)))
  {
    hide *;
    ApplyingTail(AppDeleted, rest, act, o);
    ApplyingTail(UnexpectedAction, [AppDeleted] + rest, act, o);
    ApplyingTail(TooManyReboots, [UnexpectedAction] + ([AppDeleted] + rest), act, o);
  }

  lemma {:induction false} CausesSplit()
    ensures CAUSES ==
            [TooManyReboots] + ([UnexpectedAction] + ([AppDeleted]
            + ([MkdirFailed] + ([PackageDownloadFailed] + ([ConfigDownloadFailed]
            + ([CommandFailed] + ([CleanupFailed] + [])))))))
  {
  }

  lemma {:induction false} CausesInOrder(act: PlannedAction, o: Outcome)
    ensures Applying(CAUSES, act, o) ==
            IfCause(TooManyReboots, act, o) + (IfCause(UnexpectedAction, act, o) + (IfCause(AppDeleted, act, o)
            + (IfCause(MkdirFailed, act, o) + (IfCause(PackageDownloadFailed, act, o)
            + (IfCause(ConfigDownloadFailed, act, o)
            + (IfCause(CommandFailed, act, o) + (IfCause(CleanupFailed, act, o) + [])))))))
  {
    hide *;
    var last := [CommandFailed] + ([CleanupFailed] + []);
    CausesSplit();
    LastCauses(act, o);
    FetchCauses(act, o, last);
    FirstCauses(act, o, [MkdirFailed] + ([PackageDownloadFailed] + ([ConfigDownloadFailed] + last)));
  }

  /** The combined error lists exactly the causes that apply, each once and in order. */
  lemma {:induction false} FaultsAreCauses(act: PlannedAction, o: Outcome)
    requires act.action != Cleanup
    ensures FaultsOf(act, o) == Applying(CAUSES, act, o)
  {
    CausesInOrder(act, o);
    hide Applying;
  }

  /** Nothing later in the run is about the application of result `i`. */
  ghost predicate LastAbout(s: Run, i: int) {
    && 0 <= i < |s.results|
    && (forall j :: i < j < |s.results| ==> s.results[j].name != s.results[i].name)
    && (s.exited ==> s.log != [] && s.log[|s.log| - 1].act.pkg.name != s.results[i].name)
  }

  /** Result `i` belongs to a planned action and to the outcome it met; if it is the last word about its application,
      the registry says the same. */
  ghost predicate ResultStands(s: Run, es: seq<Entry>, env: nat -> Outcome, i: nat)
    requires i < |s.results|
  {
    exists e, act :: e in es && act in e.acts && StandsFor(s, act, env(i), i)
  }

  ghost predicate StandsFor(s: Run, act: PlannedAction, o: Outcome, i: nat)
    requires i < |s.results|
  {
    Explained(s.results[i], act, o) && (LastAbout(s, i) ==> EntryTells(s.memory, act, o, s.results[i]))
  }

  ghost predicate AllStand(s: Run, es: seq<Entry>, env: nat -> Outcome) {
    && (forall i :: 0 <= i < |s.results| ==> ResultStands(s, es, env, i))
    && (s.exited ==> s.log != [] && EntryTellsReboot(s.memory, s.log[|s.log| - 1]))
  }

  lemma {:induction false} SkippedStands(s: Run, slot: Slot, act: PlannedAction, env: nat -> Outcome)
    requires !s.exited && Skips(s, slot)
    ensures var s' := RunAct(s, slot, act, env);
            && |s'.results| == |s.results| + 1
            && Explained(s'.results[|s.results|], act, env(|s.results|))
            && EntryTells(s'.memory, act, env(|s.results|), s'.results[|s.results|])
  {
    SkippedAct(s, slot, act, env);
    hide RunAct;
  }

  lemma {:induction false} CleanupStands(s: Run, slot: Slot, act: PlannedAction, env: nat -> Outcome)
    requires !s.exited && !Skips(s, slot) && act.action == Cleanup
    ensures var s' := RunAct(s, slot, act, env);
            && |s'.results| == |s.results| + 1
            && Explained(s'.results[|s.results|], act, env(|s.results|))
            && EntryTells(s'.memory, act, env(|s.results|), s'.results[|s.results|])
  {
    hide FaultsOf, PreparedLocal, PreparedAs, InterruptedPackage, FinishedPackage, SkippedPackage, Applying, Cause;
  }

  /** The entry of a finished action other than a removal tells its result. */
  lemma {:induction false} FinishedTells(m: Registry, act: PlannedAction, o: Outcome, local: Local)
    requires act.pkg.name in m && act.action != Cleanup && act.action != Remove
    requires m[act.pkg.name] == FinishedPackage(act, FaultsOf(act, o), local)
    requires local == if Invokes(act) then PreparedLocal(act, o) else act.pkg.local
    ensures EntryTells(m, act, o, ResultOf(act, VerdictOf(FaultsOf(act, o))))
  {
    PreparedIs(act, o);
    UnexpectedIff(act, o);
    hide FaultsOf, PreparedLocal, PreparedAs, Applying, Cause;
  }

  lemma {:induction false} FinishedEntry(s: Run, slot: Slot, act: PlannedAction, env: nat -> Outcome)
    requires !s.exited && !Skips(s, slot) && !RunAct(s, slot, act, env).exited && act.action != Cleanup
    ensures var s', o := RunAct(s, slot, act, env), env(|s.results|);
            && s'.results == s.results + [ResultOf(act, VerdictOf(FaultsOf(act, o)))]
            && (act.action == Remove ==> act.pkg.name !in s'.memory)
            && (act.action != Remove ==>
                  act.pkg.name in s'.memory
                  && s'.memory[act.pkg.name] ==
                     FinishedPackage(act, FaultsOf(act, o),
                                     if Invokes(act) then PreparedLocal(act, o) else act.pkg.local))
  {
    HelperKeepsReports(s, act, env(|s.results|));
    hide FaultsOf, PreparedLocal, InterruptedPackage, FinishedPackage, SkippedPackage;
  }

  lemma {:induction false} FinishedStands(s: Run, slot: Slot, act: PlannedAction, env: nat -> Outcome)
    requires !s.exited && !Skips(s, slot) && !RunAct(s, slot, act, env).exited && act.action != Cleanup
    ensures var s' := RunAct(s, slot, act, env);
            && |s'.results| == |s.results| + 1
            && Explained(s'.results[|s.results|], act, env(|s.results|))
            && EntryTells(s'.memory, act, env(|s.results|), s'.results[|s.results|])
  {
    var s', o := RunAct(s, slot, act, env), env(|s.results|);
    FinishedEntry(s, slot, act, env);
    FaultsAreCauses(act, o);
    hide RunAct, FaultsOf, PreparedLocal, FinishedPackage, Applying, Invokes;
    if act.action != Remove {
      FinishedTells(s'.memory, act, o, if Invokes(act) then PreparedLocal(act, o) else act.pkg.local);
    }
  }

  lemma {:induction false} PreparedIs(act: PlannedAction, o: Outcome)
    ensures IsCommand(act.action) ==> PreparedAs(PreparedLocal(act, o), act, o)
  {
  }

  lemma {:induction false} UnexpectedIff(act: PlannedAction, o: Outcome)
    ensures UnexpectedAction in FaultsOf(act, o) <==> act.pkg.numReboots != MAX_REBOOTS && !IsCommand(act.action)
  {
  }

  lemma {:induction false} RebootStands(s: Run, slot: Slot, act: PlannedAction, env: nat -> Outcome)
    requires !s.exited && RunAct(s, slot, act, env).exited
    ensures var s' := RunAct(s, slot, act, env);
            && s'.results == s.results && s'.log != [] && s'.log[|s'.log| - 1].act == act
            && EntryTellsReboot(s'.memory, s'.log[|s'.log| - 1])
  {
    hide FaultsOf, FinishedPackage, SkippedPackage;
  }

  /** Earlier results keep standing: the action changes only its own application. */
  lemma {:induction false} EarlierStands(s: Run, s': Run, act: PlannedAction, es: seq<Entry>, env: nat -> Outcome,
                                         i: nat)
    requires i < |s.results| && ResultStands(s, es, env, i) && !s.exited && OnlyAbout(s, s', act.pkg.name)
    requires LastAbout(s', i) ==> s'.results[i].name != act.pkg.name
    ensures i < |s'.results| && ResultStands(s', es, env, i)
  {
    assert s'.results[i] == s.results[i];
    var e, a :| e in es && a in e.acts && StandsFor(s, a, env(i), i);
    hide Explained;
    if LastAbout(s', i) {
      assert forall j :: i < j < |s.results| ==> s'.results[j] == s.results[j];
      assert SameAt(s.memory, s'.memory, s.results[i].name);
      SameEntryTells(s.memory, s'.memory, a, env(i), s.results[i]);
    }
    hide LastAbout, EntryTells;
    assert StandsFor(s', a, env(i), i);
  }

  lemma {:induction false} SameEntryTells(m: Registry, m': Registry, act: PlannedAction, o: Outcome, r: OperationResult)
    requires SameAt(m, m', r.name) && EntryTells(m, act, o, r)
    ensures EntryTells(m', act, o, r)
  {
  }

  /** One more result about the action's application, or a reboot of its command. */
  ghost predicate Adds(s: Run, s': Run, act: PlannedAction, o: Outcome) {
    && OnlyAbout(s, s', act.pkg.name)
    && if s'.exited then
         && s'.results == s.results && s'.log != [] && s'.log[|s'.log| - 1].act == act
         && EntryTellsReboot(s'.memory, s'.log[|s'.log| - 1])
       else
         && |s'.results| == |s.results| + 1
         && Explained(s'.results[|s.results|], act, o)
         && EntryTells(s'.memory, act, o, s'.results[|s.results|])
  }

  lemma {:induction false} ActAdds(s: Run, slot: Slot, act: PlannedAction, env: nat -> Outcome)
    requires !s.exited
    ensures Adds(s, RunAct(s, slot, act, env), act, env(|s.results|))
  {
    hide RunAct, Explained, EntryTells, EntryTellsReboot, Skips, OnlyAbout;
    ActFrame(s, slot, act, env);
    if RunAct(s, slot, act, env).exited {
      RebootStands(s, slot, act, env);
    } else if Skips(s, slot) {
      SkippedStands(s, slot, act, env);
    } else if act.action == Cleanup {
      CleanupStands(s, slot, act, env);
    } else {
      FinishedStands(s, slot, act, env);
    }
  }

  lemma {:induction false} AddsKeepsStanding(s: Run, s': Run, act: PlannedAction, es: seq<Entry>, e: Entry,
                                             env: nat -> Outcome, i: nat)
    requires AllStand(s, es, env) && !s.exited && e in es && act in e.acts && Adds(s, s', act, env(|s.results|))
    requires i < |s'.results|
    ensures ResultStands(s', es, env, i)
  {
    hide EntryTells, EntryTellsReboot, ResultStands;
    if i < |s.results| {
      assert s.results <= s'.results;
      LaterAbout(s, s', act, i);
      hide OnlyAbout, Explained;
      EarlierStands(s, s', act, es, env, i);
    } else {
      hide Explained;
      StandsAtOnce(s', es, e, act, env, i);
    }
  }

  lemma {:induction false} ActKeepsStanding(s: Run, slot: Slot, act: PlannedAction, es: seq<Entry>, e: Entry,
                                            env: nat -> Outcome)
    requires AllStand(s, es, env) && !s.exited && e in es && act in e.acts
    ensures AllStand(RunAct(s, slot, act, env), es, env)
  {
    ActAdds(s, slot, act, env);
    var s' := RunAct(s, slot, act, env);
    hide RunAct, Explained, EntryTells, EntryTellsReboot, ResultStands, OnlyAbout;
    forall i | 0 <= i < |s'.results|
      ensures ResultStands(s', es, env, i)
    {
      AddsKeepsStanding(s, s', act, es, e, env, i);
    }
  }

  lemma {:induction false} LaterAbout(s: Run, s': Run, act: PlannedAction, i: nat)
    requires i < |s.results| && s.results <= s'.results
    requires s'.exited ==> s'.log != [] && s'.log[|s'.log| - 1].act == act
    requires !s'.exited ==> |s'.results| == |s.results| + 1 && s'.results[|s.results|].name == act.pkg.name
    ensures LastAbout(s', i) ==> s'.results[i].name != act.pkg.name
  {
  }

  lemma {:induction false} StandsAtOnce(s': Run, es: seq<Entry>, e: Entry, act: PlannedAction, env: nat -> Outcome,
                                        i: nat)
    requires i < |s'.results| && e in es && act in e.acts
    requires Explained(s'.results[i], act, env(i)) && EntryTells(s'.memory, act, env(i), s'.results[i])
    ensures ResultStands(s', es, env, i)
  {
    hide Explained, EntryTells;
    assert StandsFor(s', act, env(i), i);
  }

  /** In every run, every result names a planned action and says truly what came of it with the outcome it met: which
      causes of failure applied, or that none did. The last word about an application is what the registry records, and
      after a reboot the entry of the application that was cut off tells so. */
  lemma {:induction false} ReportsAndRegistryAgree(reg: Registry, es: seq<Entry>, env: nat -> Outcome)
    ensures AllStand(RunEntries(Start(reg), es, env), es, env)
  {
    var P := (t: Run) => AllStand(t, es, env);
    forall t: Run, e, act | e in es && act in e.acts && !t.exited && P(t)
      ensures P(RunAct(t, e.slot, act, env))
    {
      ActKeepsStanding(t, e.slot, act, es, e, env);
    }
    hide RunAct, ResultStands, EntryTellsReboot;
    RunInvariant(P, Start(reg), es, env);
  }

  // ----- Reboots ----------------------------------------------------------------------------------------------------

  /** Only the last call can have been interrupted, and it was exactly if the run ended in a reboot. */
  ghost predicate OnlyLastInterrupted(s: Run) {
    && (forall i :: 0 <= i < |s.log| ==> (s.log[i].o.ending == Interrupted <==> s.exited && i == |s.log| - 1))
    && (s.exited ==> s.log != [])
  }

  lemma {:induction false} ActInterruptsLast(s: Run, slot: Slot, act: PlannedAction, env: nat -> Outcome)
    requires OnlyLastInterrupted(s) && !s.exited
    ensures OnlyLastInterrupted(RunAct(s, slot, act, env))
  {
    hide FaultsOf, PreparedLocal, FinishedPackage, InterruptedPackage, SkippedPackage;
  }

  /** A signal that arrives during a command ends the run there, and nothing else ends it. */
  lemma {:induction false} RebootEndsRun(reg: Registry, es: seq<Entry>, env: nat -> Outcome)
    ensures OnlyLastInterrupted(RunEntries(Start(reg), es, env))
  {
    var P := (t: Run) => OnlyLastInterrupted(t);
    forall t: Run, e, act | e in es && act in e.acts && !t.exited && P(t)
      ensures P(RunAct(t, e.slot, act, env))
    {
      ActInterruptsLast(t, e.slot, act, env);
    }
    hide RunAct;
    RunInvariant(P, Start(reg), es, env);
  }
}

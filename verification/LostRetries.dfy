/** What becomes of a pending retry that a run skips: it is lost for good. */
module LostRetries {
  import opened Packages
  import opened Planning
  import opened Execution
  import opened Schedules
  import opened Runs
  import opened Effects
  import opened Replanning
  import opened Histories
  import opened RebootLimits
  import opened SkippedRetries
  import opened Versions

  // ----- A lost retry stays lost -----------------------------------------------------------------------------------

  /** The program will not call a command for `d`: it is registered at the desired version, and what is recorded as
      ongoing for it, if a retry is pending, is no command. */
  ghost predicate Lost(reg: Registry, d: Incoming) {
    && d.name in reg && VersionsEqual(reg[d.name].version, d.version)
    && (reg[d.name].numReboots > 0 ==> !IsCommand(reg[d.name].ongoing) && reg[d.name].ongoing != Cleanup)
  }

  /** The count is kept, until used up retries are reported and forgotten. */
  ghost predicate CountKept(before: Package, after: Package) {
    after.numReboots == before.numReboots || (before.numReboots == MAX_REBOOTS && after.numReboots == 0)
  }

  ghost predicate NeverCalled(s: Run, n: string) {
    forall i :: 0 <= i < |s.log| ==> s.log[i].act.pkg.name != n
  }

  ghost predicate ReportedLost(s: Run, n: string) {
    exists r :: r in s.results && IsLossReport(r, n)
  }

  ghost predicate IsLossReport(r: OperationResult, n: string) {
    r.name == n && (r.verdict == SkippedLowerOrder || r.verdict == Errored([UnexpectedAction]))
  }

  /** What happens to the lost retry `p` when its entry is performed or skipped. */
  ghost predicate LostStep(p: Package, t: Run, t': Run) {
    && !t'.exited && t'.log == t.log && p.name in t'.memory
    && var q := t'.memory[p.name];
       && q.version == p.version && (q.ongoing == Skipped || q.ongoing == Failed) && CountKept(p, q)
       && (p.numReboots != MAX_REBOOTS ==> (|t'.results| > 0 && IsLossReport(t'.results[|t'.results| - 1], p.name)))
  }

  /** Performing something that is no command calls nothing and keeps the count. */
  lemma {:induction false} NoCommandAct(s: Run, slot: Slot, act: PlannedAction, env: nat -> Outcome)
    requires !s.exited && !IsCommand(act.action) && act.action != Cleanup
    ensures LostStep(act.pkg, s, RunAct(s, slot, act, env))
  {
    if !Skips(s, slot) {
      var o := env(|s.results|);
      assert FaultsOf(act, o) == if act.pkg.numReboots == MAX_REBOOTS then [TooManyReboots] else [UnexpectedAction];
      HelperKeepsReports(s, act, o);
      hide FaultsOf;
    }
  }

  lemma {:induction false} LostGroup(reg: Registry, d: Incoming)
    requires Lost(reg, d)
    ensures GroupFor(reg, d) == []
         || GroupFor(reg, d) == [PlannedAction(reg[d.name], d.treatFailure, reg[d.name].ongoing)]
    ensures GroupFor(reg, d) != [] <==> reg[d.name].numReboots > 0
  {
    hide VersionsEqual;
  }

  /** Calls for the application of entry `k` are made at that entry only. */
  lemma {:induction false} CallsAtEntry(reg: Registry, desired: seq<Incoming>, es: seq<Entry>, env: nat -> Outcome,
                                        k: nat)
    requires Keyed(reg) && IsSchedule(es, reg, desired) && k < |es|
    requires Before(Start(reg), es, k + 1, env).log == Before(Start(reg), es, k, env).log
    ensures NeverCalled(RunEntries(Start(reg), es, env), NameOf(es[k]))
  {
    hide GroupFor, RunEntries, RunEntry;
    BeforeAll(Start(reg), es, env);
    Between(Start(reg), es, 0, k, env, NameOf(es[k]), reg, desired);
    Between(Start(reg), es, k + 1, |es|, env, NameOf(es[k]), reg, desired);
  }

  lemma {:induction false} IdleRun(reg: Registry, desired: seq<Incoming>, es: seq<Entry>, env: nat -> Outcome,
                                   d: Incoming)
    requires Keyed(reg) && DistinctDesired(desired) && IsSchedule(es, reg, desired)
    requires d in desired && GroupFor(reg, d) == []
    ensures var end := RunEntries(Start(reg), es, env);
            SameAt(reg, end.memory, d.name) && NeverCalled(end, d.name)
  {
    hide GroupFor, RunEntries;
    IdleHasNoEntry(reg, desired, es, d);
    BeforeAll(Start(reg), es, env);
    Between(Start(reg), es, 0, |es|, env, d.name, reg, desired);
  }

  lemma {:induction false} LostReached(reg: Registry, es: seq<Entry>, env: nat -> Outcome, d: Incoming, k: nat)
    requires Lost(reg, d) && GroupFor(reg, d) != [] && k < |es| && es[k] == EntryFor(reg, d)
    requires !Before(Start(reg), es, k, env).exited
    ensures LostStep(reg[d.name], Before(Start(reg), es, k, env), Before(Start(reg), es, k + 1, env))
  {
    LostGroup(reg, d);
    hide GroupFor, VersionsEqual, LostStep, Before;
    var t, act := Before(Start(reg), es, k, env), es[k].acts[0];
    assert es[k].acts == [act];
    BeforeNext(Start(reg), es, k, env);
    RunOne(t, es[k].slot, act, env);
    NoCommandAct(t, es[k].slot, act, env);
    hide RunActs, RunAct;
  }

  /** The run seen from the lost retry: it changes nothing, or the entry is met and not touched afterwards. */
  lemma {:induction false} LostEnd(reg: Registry, d: Incoming, t: Run, t': Run, end: Run)
    requires Lost(reg, d) && reg[d.name].name == d.name && LostStep(reg[d.name], t, t')
    requires SameAt(t'.memory, end.memory, d.name) && t'.results <= end.results
    ensures Lost(end.memory, d) && CountKept(reg[d.name], end.memory[d.name])
    ensures reg[d.name].numReboots != MAX_REBOOTS ==> ReportedLost(end, d.name)
  {
    hide VersionsEqual, IsLossReport;
    if reg[d.name].numReboots != MAX_REBOOTS {
      var r := t'.results[|t'.results| - 1];
      assert end.results[|t'.results| - 1] == r;
      assert r in end.results;
    }
  }

  lemma {:induction false} LostUnreached(reg: Registry, d: Incoming, end: Run)
    requires Lost(reg, d) && SameAt(reg, end.memory, d.name)
    ensures Lost(end.memory, d) && CountKept(reg[d.name], end.memory[d.name])
  {
    hide VersionsEqual;
  }

  lemma {:induction false} LostIsRegistered(reg: Registry, d: Incoming)
    requires Keyed(reg) && Lost(reg, d)
    ensures d.name in reg && reg[d.name].name == d.name
  {
    hide VersionsEqual;
  }

  lemma {:induction false} StartIsRegistry(reg: Registry)
    ensures Start(reg).memory == reg
  {
  }

  lemma {:induction false} LogKept(p: Package, t: Run, t': Run)
    requires LostStep(p, t, t')
    ensures t'.log == t.log
  {
  }

  lemma {:induction false} LostRun(reg: Registry, desired: seq<Incoming>, es: seq<Entry>, env: nat -> Outcome,
                                   d: Incoming)
    requires Keyed(reg) && DistinctDesired(desired) && IsSchedule(es, reg, desired) && d in desired && Lost(reg, d)
    requires GroupFor(reg, d) != []
    ensures var end := RunEntries(Start(reg), es, env);
            && Lost(end.memory, d) && CountKept(reg[d.name], end.memory[d.name]) && NeverCalled(end, d.name)
            && (!end.exited && reg[d.name].numReboots != MAX_REBOOTS ==> ReportedLost(end, d.name))
  {
    hide *;
    var s0, end := Start(reg), RunEntries(Start(reg), es, env);
    LostIsRegistered(reg, d);
    StartIsRegistry(reg);
    var k := EntryIndex(reg, desired, es, d);
    BeforeAll(s0, es, env);
    if Before(s0, es, k, env).exited {
      UntouchedBetween(reg, desired, es, 0, k, env, d.name);
      ExitIsFinal(s0, es, k, k + 1, env);
      ExitIsFinal(s0, es, k, |es|, env);
      LostUnreached(reg, d, end);
    } else {
      UntouchedBetween(reg, desired, es, k + 1, |es|, env, d.name);
      ResultsGrow(s0, es, k + 1, |es|, env);
      LostReached(reg, es, env, d, k);
      LogKept(reg[d.name], Before(s0, es, k, env), Before(s0, es, k + 1, env));
      LostEnd(reg, d, Before(s0, es, k, env), Before(s0, es, k + 1, env), end);
    }
    CallsAtEntry(reg, desired, es, env, k);
  }

  lemma {:induction false} RunKeepsLost(reg: Registry, r: RunInput, d: Incoming)
    requires Keyed(reg) && DistinctDesired(r.desired) && ValidRun(reg, r) && d in r.desired && Lost(reg, d)
    ensures Lost(EndOf(reg, r).disk, d) && CountKept(reg[d.name], EndOf(reg, r).disk[d.name])
    ensures NeverCalled(EndOf(reg, r), d.name)
    ensures !EndOf(reg, r).exited && 0 < reg[d.name].numReboots != MAX_REBOOTS ==> ReportedLost(EndOf(reg, r), d.name)
  {
    RunSchedule(reg, r);
    DiskIsMemory(reg, r);
    LostGroup(reg, d);
    hide RunEntries, Schedule, GroupFor, IsSchedule, ValidRun, NeverCalled, ReportedLost, VersionsEqual;
    if GroupFor(reg, d) == [] {
      IdleRun(reg, r.desired, Schedule(r.plan), r.env, d);
    } else {
      LostRun(reg, r.desired, Schedule(r.plan), r.env, d);
    }
  }

  /** Once lost, a retry stays lost over every history of the list, with the count it had or, at the maximum, with
      none. */
  lemma {:induction false} HistoryKeepsLost(reg: Registry, runs: seq<RunInput>, desired: seq<Incoming>, d: Incoming)
    requires HealthyRegistry(reg) && DistinctDesired(desired) && ValidHistory(reg, runs) && FixedList(runs, desired)
    requires d in desired && Lost(reg, d)
    ensures Lost(RegistryAfter(reg, runs), d) && CountKept(reg[d.name], RegistryAfter(reg, runs)[d.name])
    decreases runs
  {
    if runs != [] {
      RunKeepsLost(reg, runs[0], d);
      RunStaysHealthy(reg, runs[0]);
      hide HealthyRegistry, EndOf, ValidRun, VersionsEqual, NeverCalled, ReportedLost;
      HistoryKeepsLost(EndOf(reg, runs[0]).disk, runs[1..], desired, d);
    }
  }

  lemma {:induction false} HistoryStaysHealthy(reg: Registry, runs: seq<RunInput>, i: nat)
    requires HealthyRegistry(reg) && ValidHistory(reg, runs) && i < |runs|
    ensures ValidHistory(reg, runs[..i]) && ValidRun(RegistryAfter(reg, runs[..i]), runs[i])
    ensures HealthyRegistry(RegistryAfter(reg, runs[..i]))
  {
    hide *;
    SplitHistory(reg, runs, i);
    RebootCountBounded(reg, runs[..i]);
  }

  /** In no run of any later history of the list is a command called for a lost retry; while its count is neither zero
      nor at the maximum, every uninterrupted run skips it or reports it as unexpected. */
  lemma {:induction false} LostForever(reg: Registry, runs: seq<RunInput>, desired: seq<Incoming>, d: Incoming, i: nat)
    requires HealthyRegistry(reg) && DistinctDesired(desired) && ValidHistory(reg, runs) && FixedList(runs, desired)
    requires d in desired && Lost(reg, d) && i < |runs|
    ensures ValidHistory(reg, runs[..i]) && ValidRun(RegistryAfter(reg, runs[..i]), runs[i])
    ensures var end := EndOf(RegistryAfter(reg, runs[..i]), runs[i]);
            && NeverCalled(end, d.name)
            && (!end.exited && 0 < reg[d.name].numReboots != MAX_REBOOTS ==> ReportedLost(end, d.name))
  {
    HistoryStaysHealthy(reg, runs, i);
    hide EndOf, ValidRun, ValidHistory, RegistryAfter, VersionsEqual, NeverCalled, ReportedLost;
    HistoryKeepsLost(reg, runs[..i], desired, d);
    RunKeepsLost(RegistryAfter(reg, runs[..i]), runs[i], d);
  }

  // ----- How a list change loses a retry ---------------------------------------------------------------------------

  /** The first run: the only application's install is cut off by a reboot and recorded for retry. */
  lemma {:induction false} RebootedInstall(a: Incoming) returns (r: RunInput)
    requires a.reboot == Rerun
    ensures ValidRun(map[], r) && Coherent(r.plan) && r.desired == [a]
    ensures var reg := EndOf(map[], r).disk;
            && HealthyRegistry(reg) && a.name in reg && (forall n :: n in reg ==> n == a.name)
            && VersionsEqual(reg[a.name].version, a.version) && reg[a.name].numReboots == 1
  {
    VersionsEqualIsEquivalence(a.version, a.version, a.version);
    hide VersionsEqual;
    r := PlanExists(map[], [a], _ => REBOOT);
    var es := Schedule(r.plan);
    RunSchedule(map[], r);
    RunStaysHealthy(map[], r);
    DiskIsMemory(map[], r);
    NoPendingIsConsistent(map[], [a]);
    assert GroupFor(map[], a) == [PlannedAction(FromIncoming(a), a.treatFailure, Install)];
    assert EntryFor(map[], a) in es;
    OnlyEntry(es, a);
    hide RunEntries, Schedule, ValidRun, GroupFor, Consistent, HealthyRegistry;
    var local := FirstEntryReboots(map[], [a], es, r.env, a);
  }

  lemma {:induction false} OnlyEntry(es: seq<Entry>, a: Incoming)
    requires IsSchedule(es, map[], [a]) && es != []
    ensures es[0] == EntryFor(map[], a)
  {
    assert IsEntry(map[], [a], es[0]);
  }

  /** The second run: a new application of lower order fails, and the retry is skipped with its count kept. */
  lemma {:induction false} RetrySkipped(reg: Registry, a: Incoming, b: Incoming) returns (r: RunInput)
    requires HealthyRegistry(reg) && a.name in reg && b.name !in reg && PrecedesInOrder(b, a)
    requires VersionsEqual(reg[a.name].version, a.version) && reg[a.name].numReboots > 0
    ensures ValidRun(reg, r) && Coherent(r.plan) && r.desired == [a, b] && HealthyRegistry(EndOf(reg, r).disk)
    ensures var after := EndOf(reg, r).disk;
            && Lost(after, a) && after[a.name].numReboots == reg[a.name].numReboots
            && GroupFor(after, b) == []
  {
    var desired := [a, b];
    assert a in desired && b in desired && a.name != b.name;
    assert GroupFor(reg, b) == [PlannedAction(FromIncoming(b), b.treatFailure, Install)];
    assert GroupFor(reg, a) == [PlannedAction(reg[a.name], a.treatFailure, reg[a.name].ongoing)];
    hide VersionsEqual, GroupFor, PlansFrom, Lost;
    r := LowerCanSkip(reg, desired, a, b);
    RunSchedule(reg, r);
    UninterruptedRun(reg, r);
    DiskIsMemory(reg, r);
    RunStaysHealthy(reg, r);
    hide RunEntries, Schedule, IsSchedule, HealthyRegistry, SkippedAt, Before;
    var k :| 0 <= k < |Schedule(r.plan)| && SkippedAt(reg, r, a, k);
    SkippedIsLost(reg, desired, r, a, k);
    FreshAfterRun(reg, desired, Schedule(r.plan), r.env, b);
  }

  lemma {:induction false} SkippedIsLost(reg: Registry, desired: seq<Incoming>, r: RunInput, a: Incoming, k: nat)
    requires Coherent(r.plan) && IsSchedule(Schedule(r.plan), reg, desired) && Keyed(reg) && k < |Schedule(r.plan)|
    requires SkippedAt(reg, r, a, k) && a.name in reg && VersionsEqual(reg[a.name].version, a.version)
    requires GroupFor(reg, a) == [PlannedAction(reg[a.name], a.treatFailure, reg[a.name].ongoing)]
    ensures Lost(EndOf(reg, r).memory, a) && EndOf(reg, r).memory[a.name].numReboots == reg[a.name].numReboots
  {
    var es := Schedule(r.plan);
    EntryName(reg, a);
    hide RunEntries, Schedule, IsSchedule, GroupFor, VersionsEqual, Skips, Before;
    AfterEntry(reg, desired, es, r.env, k);
    SkippedSingle(reg, es, r.env, a, k);
  }

  lemma {:induction false} SkippedSingle(reg: Registry, es: seq<Entry>, env: nat -> Outcome, a: Incoming, k: nat)
    requires k < |es| && a.name in reg
    requires es[k].acts == [PlannedAction(reg[a.name], a.treatFailure, reg[a.name].ongoing)]
    requires !Before(Start(reg), es, k, env).exited && Skips(Before(Start(reg), es, k, env), es[k].slot)
    requires reg[a.name].name == a.name
    ensures var t' := Before(Start(reg), es, k + 1, env);
            a.name in t'.memory && t'.memory[a.name] == SkippedPackage(es[k].acts[0])
  {
    hide SkippedPackage, Before, Skips;
    SkippedEntry(Start(reg), es, k, env);
  }

  /** A new application is at its version, with nothing pending, after any uninterrupted run. */
  lemma {:induction false} FreshAfterRun(reg: Registry, desired: seq<Incoming>, es: seq<Entry>, env: nat -> Outcome,
                                         b: Incoming)
    requires Keyed(reg) && DistinctDesired(desired) && IsSchedule(es, reg, desired) && b in desired && b.name !in reg
    requires !RunEntries(Start(reg), es, env).exited
    ensures GroupFor(RunEntries(Start(reg), es, env).memory, b) == []
  {
    var s0, g := Start(reg), GroupFor(reg, b);
    var act := PlannedAction(FromIncoming(b), b.treatFailure, Install);
    assert g == [act] && Regular(g);
    VersionsEqualIsEquivalence(b.version, b.version, b.version);
    hide RunEntries, IsSchedule, VersionsEqual;
    var k := EntryIndex(reg, desired, es, b);
    ExitCarries(s0, es, k, env);
    BeforeNext(s0, es, k, env);
    UntouchedBetween(reg, desired, es, k + 1, |es|, env, b.name);
    BeforeAll(s0, es, env);
    var t, t' := Before(s0, es, k, env), Before(s0, es, k + 1, env);
    var fate := SingleFate(t, es[k].slot, act, env);
    hide Before;
    FreshFate(fate, t, t', es[k].slot, act, b);
  }

  lemma {:induction false} FreshFate(fate: Fate, t: Run, t': Run, slot: Slot, act: PlannedAction, b: Incoming)
    requires act == PlannedAction(FromIncoming(b), b.treatFailure, Install) && !t'.exited
    requires HasFate(fate, t, t', slot, [act], b.name) && !fate.RemoveFailedFate?
    ensures b.name in t'.memory && t'.memory[b.name].version == b.version && t'.memory[b.name].numReboots == 0
  {
    hide InstallCalls, Skips;
  }

  /** The third run: what is planned for the application is no command any more. */
  lemma {:induction false} LostRetryReported(reg: Registry, a: Incoming, b: Incoming) returns (r: RunInput)
    requires HealthyRegistry(reg) && a.name != b.name && Lost(reg, a) && 0 < reg[a.name].numReboots < MAX_REBOOTS
    requires GroupFor(reg, b) == []
    ensures ValidRun(reg, r) && Coherent(r.plan) && r.desired == [a, b] && ReportsUnexpected(reg, r)
  {
    var desired := [a, b];
    assert a in desired && Unready(reg, a);
    hide *;
    NothingDoomedBelow(reg, a, b);
    HealthyIsKeyed(reg);
    DistinctPair(a, b);
    r := UnreadyCanBeReported(reg, desired, a);
  }

  lemma {:induction false} DistinctPair(a: Incoming, b: Incoming)
    requires a.name != b.name
    ensures DistinctDesired([a, b]) && a in [a, b]
  {
  }

  lemma {:induction false} NothingDoomedBelow(reg: Registry, a: Incoming, b: Incoming)
    requires GroupFor(reg, b) == []
    ensures forall x :: x in [a, b] && PrecedesInOrder(x, a) ==> !Doomed(reg, x)
  {
    hide GroupFor;
  }

  /** A real history that loses a retry: the install of `a` is interrupted; then `b`, of lower order, joins the list and
      fails; then the unchanged list reports `a` as unexpected. */
  lemma {:induction false} ChangedListLosesRetry(a: Incoming, b: Incoming) returns (runs: seq<RunInput>)
    requires a.name != b.name && PrecedesInOrder(b, a) && a.reboot == Rerun
    ensures ValidHistory(map[], runs) && |runs| == 3
    ensures runs[0].desired == [a] && runs[1].desired == runs[2].desired == [a, b]
    ensures ValidHistory(map[], runs[..2]) && ValidRun(RegistryAfter(map[], runs[..2]), runs[2])
    ensures ReportsUnexpected(RegistryAfter(map[], runs[..2]), runs[2])
    ensures Lost(RegistryAfter(map[], runs[..2]), a) && RegistryAfter(map[], runs[..2])[a.name].numReboots == 1
  {
    assert 1 < MAX_REBOOTS;
    hide *;
    var r1 := RebootedInstall(a);
    var reg1 := EndOf(map[], r1).disk;
    var r2 := RetrySkipped(reg1, a, b);
    var r3 := LostRetryReported(EndOf(reg1, r2).disk, a, b);
    runs := ThreeRuns(map[], r1, r2, r3);
  }

  lemma {:induction false} ThreeRuns(reg: Registry, r1: RunInput, r2: RunInput, r3: RunInput)
    returns (runs: seq<RunInput>)
    requires Coherent(r1.plan) && Coherent(r2.plan) && Coherent(r3.plan)
    requires ValidRun(reg, r1) && ValidRun(EndOf(reg, r1).disk, r2) && ValidRun(EndOf(EndOf(reg, r1).disk, r2).disk, r3)
    ensures |runs| == 3 && runs[0] == r1 && runs[1] == r2 && runs[2] == r3
    ensures ValidHistory(reg, runs) && ValidHistory(reg, runs[..2])
    ensures RegistryAfter(reg, runs[..2]) == EndOf(EndOf(reg, r1).disk, r2).disk
  {
    hide *;
    NoRuns(reg);
    HistorySnoc(reg, [], r1);
    var one := [] + [r1];
    HistorySnoc(reg, one, r2);
    var two := one + [r2];
    HistorySnoc(reg, two, r3);
    runs := two + [r3];
    assert runs[..2] == two;
  }
}

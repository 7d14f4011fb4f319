/** When reboots are bounded at all: exactly when every interruption is paid for by a counted retry. */
module RebootLimits {
  import opened Options
  import opened Packages
  import opened Planning
  import opened Execution
  import opened Schedules
  import opened Runs
  import opened Effects
  import opened Replanning
  import opened Histories
  import opened Convergence

  /** Every application that has to be removed asks to be rerun after a reboot. */
  ghost predicate RemovalsAskForRerun(reg: Registry, desired: seq<Incoming>) {
    forall n :: n in reg && !IsDesired(desired, n) && reg[n].ongoing != Skipped ==> reg[n].reboot == Rerun
  }

  // ----- The condition is enough ----------------------------------------------------------------------------------

  ghost predicate RemovalAsks(act: PlannedAction) {
    act.action == Remove ==> act.pkg.reboot == Rerun
  }

  ghost predicate LogAsks(s: Run) {
    forall i :: 0 <= i < |s.log| ==> RemovalAsks(s.log[i].act)
  }

  lemma {:induction false} ActAsks(s: Run, slot: Slot, act: PlannedAction, env: nat -> Outcome)
    requires RemovalAsks(act) && LogAsks(s) && !s.exited
    ensures LogAsks(RunAct(s, slot, act, env))
  {
    hide RemovalAsks;
    if Skips(s, slot) {
      SkippedAct(s, slot, act, env);
    } else if RunAct(s, slot, act, env).exited {
      var _ := InterruptedAct(s, slot, act, env);
    } else {
      var _, _ := FinishedAct(s, slot, act, env);
    }
    hide RunAct;
    var s' := RunAct(s, slot, act, env);
    forall i | 0 <= i < |s'.log|
      ensures RemovalAsks(s'.log[i].act)
    {
      assert i < |s.log| ==> s'.log[..|s.log|][i] == s.log[i];
    }
  }

  lemma {:induction false} EntryAsks(reg: Registry, desired: seq<Incoming>, e: Entry)
    requires Consistent(reg, desired) && RemovalsAskForRerun(reg, desired) && IsEntry(reg, desired, e)
    ensures forall act :: act in e.acts ==> RemovalAsks(act)
  {
    hide GroupFor;
    if IsDesiredEntry(reg, desired, e) {
      var d :| d in desired && GroupFor(reg, d) != [] && e == EntryFor(reg, d);
      DesiredIsHealthy(reg, desired, d);
    }
  }

  lemma {:induction false} RunAsks(reg: Registry, r: RunInput)
    requires Consistent(reg, r.desired) && DistinctDesired(r.desired) && ValidRun(reg, r)
    requires RemovalsAskForRerun(reg, r.desired)
    ensures InterruptedRemovalReruns(EndOf(reg, r))
  {
    RunSchedule(reg, r);
    var es := Schedule(r.plan);
    var P := (t: Run) => LogAsks(t);
    forall t: Run, e, act | e in es && act in e.acts && !t.exited && P(t)
      ensures P(RunAct(t, e.slot, act, r.env))
    {
      var i :| 0 <= i < |es| && es[i] == e;
      EntryAsks(reg, r.desired, es[i]);
      ActAsks(t, e.slot, act, r.env);
    }
    hide RunEntries, RunAct, IsSchedule;
    RunInvariant(P, Start(reg), es, r.env);
    assert LogAsks(EndOf(reg, r));
  }

  lemma {:induction false} RunKeepsAsking(reg: Registry, r: RunInput)
    requires Consistent(reg, r.desired) && DistinctDesired(r.desired) && ValidRun(reg, r)
    requires RemovalsAskForRerun(reg, r.desired)
    ensures RemovalsAskForRerun(EndOf(reg, r).disk, r.desired)
  {
    RunSchedule(reg, r);
    DiskIsMemory(reg, r);
    hide RunEntries, Schedule, ValidRun;
    var end := EndOf(reg, r).disk;
    forall n | n in end && !IsDesired(r.desired, n) && end[n].ongoing != Skipped
      ensures end[n].reboot == Rerun
    {
      if n in reg {
        var _, _ := RemovalOutcome(reg, r.desired, Schedule(r.plan), r.env, n);
      } else {
        StrangerUntouched(reg, r.desired, Schedule(r.plan), r.env, n);
      }
    }
  }

  lemma {:induction false} HistoryAsks(reg: Registry, runs: seq<RunInput>, desired: seq<Incoming>)
    requires Consistent(reg, desired) && DistinctDesired(desired) && ValidHistory(reg, runs) && FixedList(runs, desired)
    requires RemovalsAskForRerun(reg, desired)
    ensures RemovalsRerun(reg, runs)
    decreases runs
  {
    if runs != [] {
      RunAsks(reg, runs[0]);
      RunKeepsAsking(reg, runs[0]);
      RunStaysConsistent(reg, runs[0]);
      hide Consistent, EndOf, ValidRun, RemovalsAskForRerun;
      HistoryAsks(EndOf(reg, runs[0]).disk, runs[1..], desired);
    }
  }

  // ----- Every registry and list have a plan ------------------------------------------------------------------------

  lemma {:induction false} MaxOf(s: set<int>, some: int) returns (m: int)
    requires some in s
    ensures m in s && forall x :: x in s ==> x <= m
    decreases |s|
  {
    m := some;
    if x :| x in s && x > some {
      m := MaxOf(s - {some}, x);
      assert forall y :: y in s ==> y == some || y in s - {some};
    }
  }

  lemma {:induction false} Ascending(s: set<int>) returns (r: seq<int>)
    ensures forall i, j :: 0 <= i < j < |r| ==> r[i] < r[j]
    ensures forall x :: x in r <==> x in s
    decreases |s|
  {
    if some :| some in s {
      var m := MaxOf(s, some);
      r := Ascending(s - {m});
      assert forall i :: 0 <= i < |r| ==> r[i] in r;
      r := r + [m];
    } else {
      r := [];
    }
  }

  lemma {:induction false} CollectionOf(reg: Registry, names: set<string>) returns (coll: seq<Package>)
    requires Keyed(reg) && names <= reg.Keys
    ensures DistinctPackages(coll)
    ensures forall p :: p in coll ==> p.name in names && reg[p.name] == p
    ensures forall n :: n in names ==> reg[n] in coll
    decreases |names|
  {
    if names == {} {
      coll := [];
    } else {
      var n :| n in names;
      var rest := CollectionOf(reg, names - {n});
      DistinctCons(reg[n], rest);
      coll := [reg[n]] + rest;
    }
  }

  ghost function PlannedOrders(reg: Registry, desired: seq<Incoming>): set<int> {
    set d | d in desired && d.order.Some? && GroupsAt(reg, desired, d.order) != [] :: d.order.value
  }

  lemma {:induction false} OrderIsPlanned(reg: Registry, desired: seq<Incoming>, o: int)
    ensures o in PlannedOrders(reg, desired) <==> GroupsAt(reg, desired, Some(o)) != []
  {
    GroupsAtMembers(reg, desired, Some(o));
    hide GroupFor, GroupsAt;
    if GroupsAt(reg, desired, Some(o)) != [] {
      assert GroupsAt(reg, desired, Some(o))[0] in GroupsAt(reg, desired, Some(o));
      var d :| d in desired && d.order == Some(o);
      assert d.order.value in PlannedOrders(reg, desired);
    }
  }

  lemma {:induction false} PlanExists(reg: Registry, desired: seq<Incoming>, env: nat -> Outcome) returns (r: RunInput)
    requires Keyed(reg)
    ensures ValidRun(reg, r) && Coherent(r.plan) && r.desired == desired && r.env == env
  {
    var coll := CollectionOf(reg, reg.Keys);
    hide GroupsAt, Uninstalls, PopulateDesiredFrom, PlannedOrders;
    var orders := PlannedOrders(reg, desired);
    var sortedOrder := Ascending(orders);
    var ordered := map o | o in orders :: GroupsAt(reg, desired, Some(o));
    var known := PopulateDesiredFrom(map[], desired).0;
    var plan := Plan(Uninstalls(coll, known), ordered, sortedOrder, GroupsAt(reg, desired, None));
    forall o
      ensures o in ordered <==> GroupsAt(reg, desired, Some(o)) != []
    {
      OrderIsPlanned(reg, desired, o);
    }
    assert IsPlanOf(plan, coll, reg, desired);
    r := RunInput(desired, plan, env);
  }

  lemma {:induction false} HealthyIsKeyed(reg: Registry)
    requires HealthyRegistry(reg)
    ensures Keyed(reg)
  {
  }

  /** Whatever is desired from run to run, and whatever the outside world answers, there is a history of that shape. */
  lemma {:induction false} HistoryExists(reg: Registry, lists: seq<seq<Incoming>>,
                                         envs: seq<nat -> Outcome>) returns (runs: seq<RunInput>)
    requires HealthyRegistry(reg) && |lists| == |envs|
    ensures ValidHistory(reg, runs) && |runs| == |lists|
    ensures forall i :: 0 <= i < |runs| ==> runs[i].desired == lists[i] && runs[i].env == envs[i]
    decreases |lists|
  {
    hide *;
    if lists == [] {
      NoRuns(reg);
      runs := [];
    } else {
      HealthyIsKeyed(reg);
      var r := PlanExists(reg, lists[0], envs[0]);
      RunStaysHealthy(reg, r);
      var rest := HistoryExists(EndOf(reg, r).disk, lists[1..], envs[1..]);
      HistoryCons(reg, r, rest);
      runs := [r] + rest;
    }
  }

  // ----- The condition is needed ------------------------------------------------------------------------------------

  const REBOOT := Outcome("", false, false, false, None, None, Interrupted, false)
  const FAILURE := Outcome("", false, false, false, None, None, Completed(false), false)

  /** A called command that reboots the machine ends the whole run at its group's first action. */
  lemma {:induction false} FirstActReboots(s: Run, slot: Slot, acts: Group, env: nat -> Outcome) returns (local: Local)
    requires !s.exited && acts != [] && !Skips(s, slot) && Invokes(acts[0]) && env(|s.results|).ending == Interrupted
    ensures var s' := RunActs(s, slot, acts, env);
            s'.exited && s'.memory == s.memory[acts[0].pkg.name := InterruptedPackage(acts[0], local)]
  {
    local := PreparedLocal(acts[0], env(|s.results|));
    hide PreparedLocal, InterruptedPackage, FaultsOf, FinishedPackage;
  }

  /** An interrupted removal that is not to be rerun leaves the application to be removed again. */
  lemma {:induction false} RemovalRebootsAgain(reg: Registry, desired: seq<Incoming>, n: string) returns (r: RunInput)
    requires Consistent(reg, desired) && DistinctDesired(desired)
    requires n in reg && !IsDesired(desired, n) && reg[n].ongoing != Skipped && reg[n].reboot != Rerun
    ensures ValidRun(reg, r) && r.desired == desired && EndOf(reg, r).exited
    ensures n in EndOf(reg, r).disk && EndOf(reg, r).disk[n].ongoing != Skipped && EndOf(reg, r).disk[n].reboot != Rerun
  {
    r := PlanExists(reg, desired, _ => REBOOT);
    RunSchedule(reg, r);
    DiskIsMemory(reg, r);
    var es := Schedule(r.plan);
    assert reg[n].numReboots == 0;
    hide RunEntries, Schedule, ValidRun, IsSchedule;
    var k, how := RemovalOutcome(reg, desired, es, r.env, n);
    if how == Gone {
      EntryOfRemoval(reg, desired, es, k, n);
      BeforeNext(Start(reg), es, k, r.env);
      var _ := FirstActReboots(Before(Start(reg), es, k, r.env), Uninstall, es[k].acts, r.env);
    }
  }

  lemma {:induction false} EntryOfRemoval(reg: Registry, desired: seq<Incoming>, es: seq<Entry>, k: nat, n: string)
    requires Keyed(reg) && IsSchedule(es, reg, desired) && n in reg && !IsDesired(desired, n) && k < |es|
    requires NameOf(es[k]) == n
    ensures es[k] == RemovalOf(reg[n])
  {
    hide GroupFor;
    assert RemovalOf(reg[n]) in es;
    var i :| 0 <= i < |es| && es[i] == RemovalOf(reg[n]);
    assert i == k;
  }

  /** After any uninterrupted run of a consistent registry nothing is pending. */
  lemma {:induction false} UninterruptedRunClearsPending(reg: Registry, r: RunInput)
    requires Consistent(reg, r.desired) && DistinctDesired(r.desired) && ValidRun(reg, r) && !EndOf(reg, r).exited
    ensures NothingPending(EndOf(reg, r).disk)
    ensures forall n :: n in EndOf(reg, r).disk ==> IsDesired(r.desired, n)
  {
    RunSchedule(reg, r);
    DiskIsMemory(reg, r);
    RunStaysConsistent(reg, r);
    var es, end := Schedule(r.plan), EndOf(reg, r);
    hide RunEntries, Schedule, ValidRun, GroupFor;
    forall n | n in end.disk
      ensures IsDesired(r.desired, n) && end.disk[n].numReboots == 0
    {
      NamesAfterRun(reg, r.desired, es, r.env, n);
      var d :| d in r.desired && d.name == n;
      ClearedByRun(reg, r.desired, es, r.env, d);
    }
  }

  lemma {:induction false} ClearedByRun(reg: Registry, desired: seq<Incoming>, es: seq<Entry>, env: nat -> Outcome,
                                        d: Incoming)
    requires Consistent(reg, desired) && DistinctDesired(desired) && IsSchedule(es, reg, desired) && d in desired
    requires !RunEntries(Start(reg), es, env).exited && d.name in RunEntries(Start(reg), es, env).memory
    ensures RunEntries(Start(reg), es, env).memory[d.name].numReboots == 0
  {
    var s0, end := Start(reg), RunEntries(Start(reg), es, env);
    hide RunEntries, RunEntry;
    if GroupFor(reg, d) == [] {
      IdleUntouched(reg, desired, es, env, d);
    } else {
      GroupShape(reg, d);
      DesiredIsHealthy(reg, desired, d);
      var g := GroupFor(reg, d);
      assert g[0] in g;
      hide GroupFor;
      var k, fate := FateInRun(reg, desired, es, env, d);
      BeforeAll(s0, es, env);
      ExitCarries(s0, es, k, env);
      CountAfterFate(fate.value, Before(s0, es, k, env), Before(s0, es, k + 1, env), SlotOf(d), g, d.name);
    }
  }

  // ----- Pairs that never complete ---------------------------------------------------------------------------------

  ghost predicate OnlyFailures(s: Run) {
    !s.exited && forall i :: 0 <= i < |s.results| && IsCommand(s.results[i].operation) ==>
      s.results[i].verdict != Succeeded
  }

  lemma {:induction false} ActOnlyFails(s: Run, slot: Slot, act: PlannedAction, env: nat -> Outcome)
    requires OnlyFailures(s) && env(|s.results|) == FAILURE
    ensures OnlyFailures(RunAct(s, slot, act, env))
  {
    HelperKeepsReports(s, act, env(|s.results|));
    hide InterruptedPackage, FinishedPackage, SkippedPackage;
  }

  lemma {:induction false} FailingRun(reg: Registry, r: RunInput)
    requires Coherent(r.plan) && forall i :: r.env(i) == FAILURE
    ensures OnlyFailures(EndOf(reg, r))
  {
    var P := (t: Run) => OnlyFailures(t);
    forall t: Run, e, act | e in Schedule(r.plan) && act in e.acts && !t.exited && P(t)
      ensures P(RunAct(t, e.slot, act, r.env))
    {
      ActOnlyFails(t, e.slot, act, r.env);
    }
    hide RunEntries, RunAct;
    RunInvariant(P, Start(reg), Schedule(r.plan), r.env);
  }

  ghost predicate HasPair(reg: Registry, desired: seq<Incoming>, d: Incoming) {
    d in desired && |GroupFor(reg, d)| == 2
  }

  /** If every command fails, a pair is left as it was, with nothing pending. */
  lemma {:induction false} FailingRunKeepsPair(reg: Registry, r: RunInput, d: Incoming)
    requires Consistent(reg, r.desired) && DistinctDesired(r.desired) && ValidRun(reg, r)
    requires (forall i :: r.env(i) == FAILURE) && HasPair(reg, r.desired, d)
    ensures !EndOf(reg, r).exited && HasPair(EndOf(reg, r).disk, r.desired, d)
  {
    RunSchedule(reg, r);
    DiskIsMemory(reg, r);
    FailingRun(reg, r);
    var s0, es := Start(reg), Schedule(r.plan);
    GroupShape(reg, d);
    hide RunEntries, RunEntry, Schedule, ValidRun, GroupFor, IsSchedule, Consistent;
    var k, fate := FateInRun(reg, r.desired, es, r.env, d);
    ExitCarries(s0, es, k, r.env);
    ResultsUpTo(reg, r.desired, es, r.env, k);
    var t, t' := Before(s0, es, k, r.env), Before(s0, es, k + 1, r.env);
    FailedPairFate(fate.value, t, t', SlotOf(d), GroupFor(reg, d), d, EndOf(reg, r));
  }

  lemma {:induction false} ResultsUpTo(reg: Registry, desired: seq<Incoming>, es: seq<Entry>, env: nat -> Outcome,
                                       k: nat)
    requires Consistent(reg, desired) && IsSchedule(es, reg, desired) && k < |es|
    ensures Before(Start(reg), es, k + 1, env).results <= RunEntries(Start(reg), es, env).results
  {
    ResultsAbout(reg, desired, es, env, k);
  }

  lemma {:induction false} FailedPairFate(fate: Fate, t: Run, t': Run, slot: Slot, g: Group, d: Incoming, end: Run)
    requires |g| == 2 && g[0].action == RemoveForUpdate && HasFate(fate, t, t', slot, g, d.name)
    requires !t'.exited && t'.results <= end.results && OnlyFailures(end)
    ensures |NextGroup(fate, g, d)| == 2
  {
    hide InstallCalls, Skips, FinishedPackage, SkippedPackage, InterruptedPackage;
    assert fate.DoneFate? ==> t'.results[|t.results|] == ResultOf(g[0], Succeeded);
    assert |t'.results| > |t.results| ==> end.results[|t.results|] == t'.results[|t.results|];
  }

  /** With nothing pending, the first command of the next run can reboot the machine, and the pair is still there. */
  lemma {:induction false} PairRebootsAgain(reg: Registry, desired: seq<Incoming>, d: Incoming) returns (r: RunInput)
    requires Consistent(reg, desired) && DistinctDesired(desired) && NothingPending(reg)
    requires (forall n :: n in reg ==> IsDesired(desired, n)) && HasPair(reg, desired, d)
    ensures ValidRun(reg, r) && r.desired == desired && EndOf(reg, r).exited && HasPair(EndOf(reg, r).disk, desired, d)
  {
    r := PlanExists(reg, desired, _ => REBOOT);
    RunSchedule(reg, r);
    DiskIsMemory(reg, r);
    hide RunEntries, Schedule, ValidRun, GroupFor, Consistent, NothingPending;
    PairSurvivesReboot(reg, desired, Schedule(r.plan), r.env, d);
  }

  lemma {:induction false} PairSurvivesReboot(reg: Registry, desired: seq<Incoming>, es: seq<Entry>,
                                              env: nat -> Outcome, d: Incoming)
    requires Consistent(reg, desired) && NothingPending(reg) && IsSchedule(es, reg, desired)
    requires (forall n :: n in reg ==> IsDesired(desired, n)) && HasPair(reg, desired, d)
    requires env(0).ending == Interrupted
    ensures var end := RunEntries(Start(reg), es, env); end.exited && HasPair(end.memory, desired, d)
  {
    hide RunEntries, RunEntry, GroupFor;
    assert EntryFor(reg, d) in es;
    var k :| 0 <= k < |es| && es[k] == EntryFor(reg, d);
    var first :| first in desired && GroupFor(reg, first) != [] && es[0] == EntryFor(reg, first);
    EntryName(reg, d);
    var local := FirstEntryReboots(reg, desired, es, env, first);
    hide Consistent, NothingPending;
    PairStays(reg, desired, es, env, k, d, local);
  }

  lemma {:induction false} FirstEntryReboots(reg: Registry, desired: seq<Incoming>, es: seq<Entry>,
                                             env: nat -> Outcome, first: Incoming)
    returns (local: Local)
    requires Consistent(reg, desired) && NothingPending(reg) && first in desired && GroupFor(reg, first) != []
    requires es != [] && es[0] == EntryFor(reg, first) && env(0).ending == Interrupted
    ensures var end := RunEntries(Start(reg), es, env);
            && end.exited && end == RunEntry(Start(reg), es[0], env)
            && end.memory == reg[NameOf(es[0]) := InterruptedPackage(es[0].acts[0], local)]
  {
    NothingPendingInvokes(reg, desired, first);
    hide GroupFor, RunEntries, RunActs, Consistent, NothingPending, InterruptedPackage, Invokes;
    BeforeAll(Start(reg), es, env);
    BeforeNext(Start(reg), es, 0, env);
    local := FirstActReboots(Start(reg), es[0].slot, es[0].acts, env);
    ExitIsFinal(Start(reg), es, 1, |es|, env);
  }

  lemma {:induction false} NothingPendingInvokes(reg: Registry, desired: seq<Incoming>, d: Incoming)
    requires Consistent(reg, desired) && NothingPending(reg) && d in desired && GroupFor(reg, d) != []
    ensures Invokes(GroupFor(reg, d)[0])
  {
    GroupPackages(reg, d);
    DesiredIsHealthy(reg, desired, d);
    hide GroupFor;
    assert GroupFor(reg, d)[0] in GroupFor(reg, d);
  }

  lemma {:induction false} PairStays(reg: Registry, desired: seq<Incoming>, es: seq<Entry>, env: nat -> Outcome,
                                     k: nat, d: Incoming, local: Local)
    requires Keyed(reg) && IsSchedule(es, reg, desired) && HasPair(reg, desired, d) && k < |es|
    requires es[k] == EntryFor(reg, d)
    requires NameOf(es[k]) == d.name
    requires RunEntries(Start(reg), es, env) == RunEntry(Start(reg), es[0], env)
    requires RunEntry(Start(reg), es[0], env).memory == reg[NameOf(es[0]) := InterruptedPackage(es[0].acts[0], local)]
    ensures HasPair(RunEntries(Start(reg), es, env).memory, desired, d)
  {
    GroupShape(reg, d);
    hide RunEntries, RunEntry;
    if k == 0 {
      assert InterruptedPackage(es[0].acts[0], local).version == reg[d.name].version;
    } else {
      assert NameOf(es[0]) != d.name;
      GroupForSame(reg, RunEntries(Start(reg), es, env).memory, d);
    }
  }

  // ----- The exact condition ----------------------------------------------------------------------------------------

  lemma {:induction false} FixedListCons(r: RunInput, runs: seq<RunInput>, desired: seq<Incoming>)
    requires r.desired == desired && FixedList(runs, desired)
    ensures FixedList([r] + runs, desired)
  {
  }

  /** Without the condition there is no bound: a history can be extended until it has any number of reboots. */
  lemma {:induction false} RebootsUnbounded(reg: Registry, desired: seq<Incoming>, n: nat) returns (runs: seq<RunInput>)
    requires Consistent(reg, desired) && DistinctDesired(desired)
    requires !(NoPairs(reg, desired) && RemovalsAskForRerun(reg, desired))
    ensures ValidHistory(reg, runs) && FixedList(runs, desired) && Reboots(reg, runs) == n
    decreases n
  {
    if n == 0 {
      runs := [];
    } else if !RemovalsAskForRerun(reg, desired) {
      var name :| name in reg && !IsDesired(desired, name) && reg[name].ongoing != Skipped && reg[name].reboot != Rerun;
      var r := RemovalRebootsAgain(reg, desired, name);
      RunStaysConsistent(reg, r);
      hide EndOf, ValidRun, Consistent, NoPairs;
      var rest := RebootsUnbounded(EndOf(reg, r).disk, desired, n - 1);
      FixedListCons(r, rest, desired);
      HistoryCons(reg, r, rest);
      runs := [r] + rest;
    } else {
      var d :| d in desired && |GroupFor(reg, d)| == 2;
      runs := PairRebootsUnbounded(reg, desired, d, n);
    }
  }

  /** Two runs make one reboot: in the first every command fails, in the second the first command reboots. */
  lemma {:induction false} PairRebootsUnbounded(reg: Registry, desired: seq<Incoming>, d: Incoming,
                                                n: nat) returns (runs: seq<RunInput>)
    requires Consistent(reg, desired) && DistinctDesired(desired) && HasPair(reg, desired, d)
    ensures ValidHistory(reg, runs) && FixedList(runs, desired) && Reboots(reg, runs) == n
    decreases n
  {
    if n == 0 {
      runs := [];
    } else {
      var failing := PlanExists(reg, desired, _ => FAILURE);
      FailingRunKeepsPair(reg, failing, d);
      UninterruptedRunClearsPending(reg, failing);
      RunStaysConsistent(reg, failing);
      hide EndOf, ValidRun, Consistent, HasPair, NothingPending, Reboots;
      var mid := EndOf(reg, failing).disk;
      var rebooting := PairRebootsAgain(mid, desired, d);
      RunStaysConsistent(mid, rebooting);
      var rest := PairRebootsUnbounded(EndOf(mid, rebooting).disk, desired, d, n - 1);
      FixedListCons(rebooting, rest, desired);
      HistoryCons(mid, rebooting, rest);
      FixedListCons(failing, [rebooting] + rest, desired);
      HistoryCons(reg, failing, [rebooting] + rest);
      runs := [failing] + ([rebooting] + rest);
    }
  }

  ghost function RebootLimit(reg: Registry, desired: seq<Incoming>): nat {
    MAX_REBOOTS * |reg.Keys + set d | d in desired :: d.name|
  }

  /** From a registry with nothing pending, every history of one list stays within MAX_REBOOTS reboots per installed or
      desired name exactly when no application has to be removed in order to be installed again and every application
      that has to be removed asks to be rerun. If not, no bound holds at all. */
  lemma {:induction false} RebootsAreBoundedIff(reg: Registry, desired: seq<Incoming>)
    requires NothingPending(reg) && DistinctDesired(desired)
    ensures NoPairs(reg, desired) && RemovalsAskForRerun(reg, desired)
       <==> forall runs :: ValidHistory(reg, runs) && FixedList(runs, desired) ==>
         Reboots(reg, runs) <= RebootLimit(reg, desired)
  {
    NoPendingIsConsistent(reg, desired);
    hide Consistent, NoPairs, NothingPending, RemovalsAskForRerun, DistinctDesired;
    if NoPairs(reg, desired) && RemovalsAskForRerun(reg, desired) {
      forall runs | ValidHistory(reg, runs) && FixedList(runs, desired)
        ensures Reboots(reg, runs) <= RebootLimit(reg, desired)
      {
        HistoryAsks(reg, runs, desired);
        RebootsAreBounded(reg, runs, desired);
      }
    } else {
      var runs := RebootsUnbounded(reg, desired, RebootLimit(reg, desired) + 1);
    }
  }
}

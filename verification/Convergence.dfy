/** Histories of one desired list: how often it can be interrupted and called, and where it ends. */
module Convergence {
  import opened Options
  import opened Packages
  import opened Planning
  import opened Execution
  import opened Schedules
  import opened Runs
  import opened Effects
  import opened Replanning
  import opened Histories

  // ----- The invariant over histories ---------------------------------------------------------------------------

  lemma {:induction false} RunStaysConsistent(reg: Registry, r: RunInput)
    requires Consistent(reg, r.desired) && DistinctDesired(r.desired) && ValidRun(reg, r)
    ensures Consistent(EndOf(reg, r).disk, r.desired)
  {
    RunSchedule(reg, r);
    RunKeepsConsistent(reg, r.desired, Schedule(r.plan), r.env);
    DiskIsMemory(reg, r);
  }

  /** In a history of one list that starts with nothing pending, whenever an ordered application has a retry pending,
      nothing of lower order is left to do, so the retry is never skipped and is always an install or an update. */
  lemma {:induction false} HistoryStaysConsistent(reg: Registry, runs: seq<RunInput>, desired: seq<Incoming>)
    requires Consistent(reg, desired) && DistinctDesired(desired) && ValidHistory(reg, runs) && FixedList(runs, desired)
    ensures Consistent(RegistryAfter(reg, runs), desired)
    decreases runs
  {
    if runs != [] {
      RunStaysConsistent(reg, runs[0]);
      hide Consistent, EndOf, ValidRun;
      HistoryStaysConsistent(EndOf(reg, runs[0]).disk, runs[1..], desired);
    }
  }

  lemma {:induction false} PlannedActionsAreKnown(reg: Registry, desired: seq<Incoming>, e: Entry)
    requires Consistent(reg, desired) && IsEntry(reg, desired, e)
    ensures forall act :: act in e.acts ==> IsCommand(act.action) || act.action == Cleanup
  {
    if IsDesiredEntry(reg, desired, e) {
      var d :| d in desired && GroupFor(reg, d) != [] && e == EntryFor(reg, d);
      DesiredIsHealthy(reg, desired, d);
    }
  }

  lemma {:induction false} ActIsExpected(s: Run, slot: Slot, act: PlannedAction, env: nat -> Outcome)
    requires (IsCommand(act.action) || act.action == Cleanup) && !s.exited && Unreported(s, UnexpectedAction)
    ensures Unreported(RunAct(s, slot, act, env), UnexpectedAction)
  {
    var s' := RunAct(s, slot, act, env);
    if Skips(s, slot) {
      SkippedAct(s, slot, act, env);
    } else if s'.exited {
      var _ := InterruptedAct(s, slot, act, env);
    } else {
      var faults, _ := FinishedAct(s, slot, act, env);
    }
    hide RunAct;
  }

  lemma {:induction false} RunIsExpected(reg: Registry, r: RunInput)
    requires Consistent(reg, r.desired) && DistinctDesired(r.desired) && ValidRun(reg, r)
    ensures Unreported(EndOf(reg, r), UnexpectedAction)
  {
    RunSchedule(reg, r);
    var es := Schedule(r.plan);
    var P := (t: Run) => Unreported(t, UnexpectedAction);
    forall t: Run, e, act | e in es && act in e.acts && !t.exited && P(t)
      ensures P(RunAct(t, e.slot, act, r.env))
    {
      var i :| 0 <= i < |es| && es[i] == e;
      PlannedActionsAreKnown(reg, r.desired, es[i]);
      ActIsExpected(t, e.slot, act, r.env);
    }
    hide RunEntries, RunAct, IsSchedule;
    RunInvariant(P, Start(reg), es, r.env);
  }

  /** In a history of one list that starts with nothing pending, no run ever meets an unexpected action. */
  lemma {:induction false} UnexpectedNeverReported(reg: Registry, runs: seq<RunInput>, desired: seq<Incoming>, i: nat)
    requires NothingPending(reg) && DistinctDesired(desired) && ValidHistory(reg, runs) && FixedList(runs, desired)
    requires i < |runs|
    ensures ValidHistory(reg, runs[..i]) && ValidRun(RegistryAfter(reg, runs[..i]), runs[i])
    ensures Unreported(EndOf(RegistryAfter(reg, runs[..i]), runs[i]), UnexpectedAction)
  {
    SplitHistory(reg, runs, i);
    NoPendingIsConsistent(reg, desired);
    HistoryStaysConsistent(reg, runs[..i], desired);
    RunIsExpected(RegistryAfter(reg, runs[..i]), runs[i]);
  }

  // ----- Interrupted runs ---------------------------------------------------------------------------------------

  ghost function Lookup(desired: seq<Incoming>, n: string): Option<Incoming> {
    if desired == [] then None
    else if desired[0].name == n then Some(desired[0])
    else Lookup(desired[1..], n)
  }

  lemma {:induction false} LookupFinds(desired: seq<Incoming>, n: string)
    ensures Lookup(desired, n).None? <==> !IsDesired(desired, n)
    ensures Lookup(desired, n).Some? ==> Lookup(desired, n).value in desired && Lookup(desired, n).value.name == n
  {
    if desired != [] {
      LookupFinds(desired[1..], n);
      if IsDesired(desired[1..], n) {
        var d :| d in desired[1..] && d.name == n;
        assert d in desired;
      }
      if IsDesired(desired, n) {
        var d :| d in desired && d.name == n;
        assert d == desired[0] || d in desired[1..];
      }
    }
  }

  /** The reboots application `n` can still cause: the retries left to it if it is planned, none otherwise. */
  ghost function RebootsLeft(reg: Registry, desired: seq<Incoming>, n: string): int {
    match Lookup(desired, n)
    case Some(d) => if GroupFor(reg, d) == [] then 0 else MAX_REBOOTS - GroupFor(reg, d)[0].pkg.numReboots
    case None => if n in reg && reg[n].ongoing != Skipped then MAX_REBOOTS - reg[n].numReboots else 0
  }

  ghost function TotalRebootsLeft(names: seq<string>, reg: Registry, desired: seq<Incoming>): int {
    if names == [] then 0
    else RebootsLeft(reg, desired, names[0]) + TotalRebootsLeft(names[1..], reg, desired)
  }

  /** Every version change comes with an update command, so nothing is removed in order to be installed again. */
  ghost predicate NoPairs(reg: Registry, desired: seq<Incoming>) {
    forall d :: d in desired ==> |GroupFor(reg, d)| != 2
  }

  /** If the run was interrupted during a removal, the application asks to be rerun. */
  ghost predicate InterruptedRemovalReruns(end: Run) {
    end.exited && end.log != [] ==>
      var last := end.log[|end.log| - 1].act;
      last.action == Remove ==> last.pkg.reboot == Rerun
  }

  lemma {:induction false} RebootsLeftRange(reg: Registry, desired: seq<Incoming>, n: string)
    requires Consistent(reg, desired)
    ensures 0 <= RebootsLeft(reg, desired, n) <= MAX_REBOOTS
  {
    LookupFinds(desired, n);
    var found := Lookup(desired, n);
    if found.Some? && GroupFor(reg, found.value) != [] {
      DesiredIsHealthy(reg, desired, found.value);
      assert GroupFor(reg, found.value)[0] in GroupFor(reg, found.value);
    }
    hide GroupFor;
  }

  /** Application `n` caused the reboot that ended the run. */
  ghost predicate CausedReboot(reg: Registry, es: seq<Entry>, env: nat -> Outcome, n: string) {
    exists k :: 0 <= k < |es| && NameOf(es[k]) == n
                && !Before(Start(reg), es, k, env).exited && Before(Start(reg), es, k + 1, env).exited
  }

  lemma {:induction false} SomeoneCausedReboot(reg: Registry, es: seq<Entry>, env: nat -> Outcome,
                                               j: nat) returns (k: nat)
    requires j <= |es| && Before(Start(reg), es, j, env).exited
    ensures k < j && !Before(Start(reg), es, k, env).exited && Before(Start(reg), es, k + 1, env).exited
    decreases j
  {
    k := 0;
    BeforeAll(Start(reg), es, env);
    hide RunEntries;
    assert j > 0;
    if Before(Start(reg), es, j - 1, env).exited {
      k := SomeoneCausedReboot(reg, es, env, j - 1);
    } else {
      k := j - 1;
    }
  }

  lemma {:induction false} NameDecidesIndex(reg: Registry, desired: seq<Incoming>, es: seq<Entry>, k: nat, l: nat)
    requires IsSchedule(es, reg, desired) && k < |es| && l < |es| && NameOf(es[k]) == NameOf(es[l])
    ensures k == l
  {
    hide IsEntry, GroupFor, NameOf, SlotLeq;
  }

  lemma {:induction false} CausedAt(reg: Registry, desired: seq<Incoming>, es: seq<Entry>, env: nat -> Outcome, k: nat)
    requires IsSchedule(es, reg, desired) && k < |es|
    ensures CausedReboot(reg, es, env, NameOf(es[k]))
       <==> !Before(Start(reg), es, k, env).exited && Before(Start(reg), es, k + 1, env).exited
  {
    hide Before, NameOf, IsSchedule;
    if CausedReboot(reg, es, env, NameOf(es[k])) {
      var l :| 0 <= l < |es| && NameOf(es[l]) == NameOf(es[k])
               && !Before(Start(reg), es, l, env).exited && Before(Start(reg), es, l + 1, env).exited;
      NameDecidesIndex(reg, desired, es, k, l);
    }
  }

  lemma {:induction false} DesiredRebootsLeft(reg: Registry, desired: seq<Incoming>, es: seq<Entry>,
                                              env: nat -> Outcome, d: Incoming)
    requires Consistent(reg, desired) && DistinctDesired(desired) && IsSchedule(es, reg, desired)
    requires NoPairs(reg, desired)
    requires d in desired && Lookup(desired, d.name) == Some(d)
    ensures var end := RunEntries(Start(reg), es, env);
            && RebootsLeft(end.memory, desired, d.name) <= RebootsLeft(reg, desired, d.name)
            && (CausedReboot(reg, es, env, d.name) ==>
              RebootsLeft(end.memory, desired, d.name) < RebootsLeft(reg, desired, d.name))
            && |GroupFor(end.memory, d)| != 2
  {
    if GroupFor(reg, d) == [] {
      hide RunEntries, RunEntry;
      var end := RunEntries(Start(reg), es, env);
      IdleUntouched(reg, desired, es, env, d);
      GroupForSame(reg, end.memory, d);
      hide GroupFor;
      IdleHasNoEntry(reg, desired, es, d);
    } else {
      WorkedRebootsLeft(reg, desired, es, env, d);
    }
  }

  lemma {:induction false} WorkedRebootsLeft(reg: Registry, desired: seq<Incoming>, es: seq<Entry>,
                                             env: nat -> Outcome, d: Incoming)
    requires Consistent(reg, desired) && DistinctDesired(desired) && IsSchedule(es, reg, desired)
    requires NoPairs(reg, desired)
    requires d in desired && Lookup(desired, d.name) == Some(d) && GroupFor(reg, d) != []
    ensures var end := RunEntries(Start(reg), es, env);
            && RebootsLeft(end.memory, desired, d.name) <= RebootsLeft(reg, desired, d.name)
            && (CausedReboot(reg, es, env, d.name) ==>
              RebootsLeft(end.memory, desired, d.name) < RebootsLeft(reg, desired, d.name))
            && |GroupFor(end.memory, d)| != 2
  {
    GroupShape(reg, d);
    DesiredIsHealthy(reg, desired, d);
    EntryName(reg, d);
    var g := GroupFor(reg, d);
    assert |g| == 1 && g[0] in g;
    var k, fate := FateInRun(reg, desired, es, env, d);
    CausedAt(reg, desired, es, env, k);
    hide GroupFor, RunEntries, RunEntry, CausedReboot, IsSchedule, Consistent, NoPairs, HasFate, NextGroup;
    if fate.Some? {
      LeftAfterFate(fate.value, Before(Start(reg), es, k, env), Before(Start(reg), es, k + 1, env), SlotOf(d), g, d);
    }
  }

  lemma {:induction false} LeftAfterFate(fate: Fate, s: Run, s': Run, slot: Slot, g: Group, d: Incoming)
    requires |g| == 1 && HasFate(fate, s, s', slot, g, d.name) && IsInstallOrUpdate(g[0].action)
    requires HealthyPackage(g[0].pkg)
    requires fate.SkippedFate? ==> g[0].pkg.numReboots <= 0
    ensures var g' := NextGroup(fate, g, d);
            && |g'| <= 1
            && (g' != [] ==> s'.exited && g'[0].pkg.numReboots > g[0].pkg.numReboots)
            && (s'.exited ==> g[0].pkg.numReboots < MAX_REBOOTS)
  {
    hide InstallCalls, Skips;
    assert fate.InterruptedFate? ==> fate.act == g[0];
  }

  lemma {:induction false} RemovedRebootsLeft(reg: Registry, desired: seq<Incoming>, es: seq<Entry>,
                                              env: nat -> Outcome, n: string)
    requires Consistent(reg, desired) && DistinctDesired(desired) && IsSchedule(es, reg, desired)
    requires InterruptedRemovalReruns(RunEntries(Start(reg), es, env))
    requires !IsDesired(desired, n)
    ensures var end := RunEntries(Start(reg), es, env);
            && RebootsLeft(end.memory, desired, n) <= RebootsLeft(reg, desired, n)
            && (CausedReboot(reg, es, env, n) ==> RebootsLeft(end.memory, desired, n) < RebootsLeft(reg, desired, n))
  {
    var s0, end := Start(reg), RunEntries(Start(reg), es, env);
    LookupFinds(desired, n);
    hide RunEntries, RunEntry, GroupFor;
    if n in reg {
      var k, r := RemovalOutcome(reg, desired, es, env, n);
      CausedAt(reg, desired, es, env, k);
    } else {
      StrangerUntouched(reg, desired, es, env, n);
      forall k | 0 <= k < |es|
        ensures NameOf(es[k]) != n
      {
        EntryNames(reg, desired, es[k]);
      }
    }
  }

  lemma {:induction false} LookupSelf(desired: seq<Incoming>, d: Incoming)
    requires DistinctDesired(desired) && d in desired
    ensures Lookup(desired, d.name) == Some(d)
  {
    LookupFinds(desired, d.name);
    DesiredByName(desired, Lookup(desired, d.name).value, d);
  }

  /** No application gains reboots in a run, and the one that caused the reboot ending it loses at least one. */
  lemma {:induction false} RunRebootsLeft(reg: Registry, desired: seq<Incoming>, es: seq<Entry>, env: nat -> Outcome,
                                          n: string)
    requires Consistent(reg, desired) && DistinctDesired(desired) && IsSchedule(es, reg, desired)
    requires NoPairs(reg, desired)
    requires InterruptedRemovalReruns(RunEntries(Start(reg), es, env))
    ensures var end := RunEntries(Start(reg), es, env);
            && RebootsLeft(end.memory, desired, n) <= RebootsLeft(reg, desired, n)
            && (CausedReboot(reg, es, env, n) ==> RebootsLeft(end.memory, desired, n) < RebootsLeft(reg, desired, n))
  {
    LookupFinds(desired, n);
    if IsDesired(desired, n) {
      DesiredRebootsLeft(reg, desired, es, env, Lookup(desired, n).value);
    } else {
      RemovedRebootsLeft(reg, desired, es, env, n);
    }
  }

  ghost predicate Covers(names: seq<string>, reg: Registry, desired: seq<Incoming>) {
    forall n :: n in reg || IsDesired(desired, n) ==> n in names
  }

  lemma {:induction false} TotalDecreases(names: seq<string>, before: Registry, after: Registry,
                                          desired: seq<Incoming>, n: string)
    requires forall k :: RebootsLeft(after, desired, k) <= RebootsLeft(before, desired, k)
    ensures TotalRebootsLeft(names, after, desired) <= TotalRebootsLeft(names, before, desired)
    ensures n in names && RebootsLeft(after, desired, n) < RebootsLeft(before, desired, n) ==>
              TotalRebootsLeft(names, after, desired) < TotalRebootsLeft(names, before, desired)
  {
    hide RebootsLeft;
    if names != [] {
      TotalDecreases(names[1..], before, after, desired, n);
      assert n in names ==> n == names[0] || n in names[1..];
    }
  }

  lemma {:induction false} TotalRange(names: seq<string>, reg: Registry, desired: seq<Incoming>)
    requires Consistent(reg, desired)
    ensures 0 <= TotalRebootsLeft(names, reg, desired) <= MAX_REBOOTS * |names|
  {
    if names != [] {
      RebootsLeftRange(reg, desired, names[0]);
      TotalRange(names[1..], reg, desired);
    }
  }

  lemma {:induction false} RunKeepsNoPairs(reg: Registry, r: RunInput)
    requires Consistent(reg, r.desired) && DistinctDesired(r.desired) && ValidRun(reg, r) && NoPairs(reg, r.desired)
    ensures NoPairs(EndOf(reg, r).disk, r.desired)
  {
    RunSchedule(reg, r);
    DiskIsMemory(reg, r);
    hide RunEntries, Schedule, RebootsLeft, GroupFor, ValidRun;
    forall d | d in r.desired
      ensures |GroupFor(EndOf(reg, r).memory, d)| != 2
    {
      LookupSelf(r.desired, d);
      DesiredRebootsLeft(reg, r.desired, Schedule(r.plan), r.env, d);
    }
  }

  lemma {:induction false} HistoryKeepsNoPairs(reg: Registry, runs: seq<RunInput>, desired: seq<Incoming>)
    requires Consistent(reg, desired) && DistinctDesired(desired) && NoPairs(reg, desired)
    requires ValidHistory(reg, runs) && FixedList(runs, desired)
    ensures Consistent(RegistryAfter(reg, runs), desired) && NoPairs(RegistryAfter(reg, runs), desired)
    decreases runs
  {
    if runs != [] {
      RunStaysConsistent(reg, runs[0]);
      RunKeepsNoPairs(reg, runs[0]);
      hide Consistent, EndOf, ValidRun, NoPairs;
      HistoryKeepsNoPairs(EndOf(reg, runs[0]).disk, runs[1..], desired);
    }
  }

  /** One run: what it keeps, and that a reboot costs at least one of the reboots left. */
  lemma {:induction false} RunSpendsReboots(reg: Registry, r: RunInput, names: seq<string>)
    requires Consistent(reg, r.desired) && DistinctDesired(r.desired) && ValidRun(reg, r)
    requires NoPairs(reg, r.desired) && InterruptedRemovalReruns(EndOf(reg, r)) && Covers(names, reg, r.desired)
    ensures Covers(names, EndOf(reg, r).disk, r.desired)
    ensures TotalRebootsLeft(names, EndOf(reg, r).disk, r.desired) + (if EndOf(reg, r).exited then 1 else 0)
            <= TotalRebootsLeft(names, reg, r.desired)
  {
    var es, end := Schedule(r.plan), EndOf(reg, r);
    RunSchedule(reg, r);
    DiskIsMemory(reg, r);
    hide RunEntries, Schedule, RebootsLeft, GroupFor;
    forall n
      ensures RebootsLeft(end.memory, r.desired, n) <= RebootsLeft(reg, r.desired, n)
      ensures CausedReboot(reg, es, r.env, n) ==> RebootsLeft(end.memory, r.desired, n) < RebootsLeft(reg, r.desired, n)
    {
      RunRebootsLeft(reg, r.desired, es, r.env, n);
    }
    forall n | n in end.memory || IsDesired(r.desired, n)
      ensures n in names
    {
      if n !in reg && !IsDesired(r.desired, n) {
        StrangerUntouched(reg, r.desired, es, r.env, n);
      }
    }
    SpendsOne(reg, r, names, es, end);
  }

  lemma {:induction false} SpendsOne(reg: Registry, r: RunInput, names: seq<string>, es: seq<Entry>, end: Run)
    requires Keyed(reg) && IsSchedule(es, reg, r.desired) && Covers(names, reg, r.desired)
    requires end == RunEntries(Start(reg), es, r.env)
    requires forall n :: RebootsLeft(end.memory, r.desired, n) <= RebootsLeft(reg, r.desired, n)
    requires forall n :: CausedReboot(reg, es, r.env, n) ==>
               RebootsLeft(end.memory, r.desired, n) < RebootsLeft(reg, r.desired, n)
    ensures TotalRebootsLeft(names, end.memory, r.desired) + (if end.exited then 1 else 0) <=
              TotalRebootsLeft(names, reg, r.desired)
  {
    hide RebootsLeft, GroupFor;
    BeforeAll(Start(reg), es, r.env);
    hide RunEntries;
    if end.exited {
      var k := SomeoneCausedReboot(reg, es, r.env, |es|);
      CausedAt(reg, r.desired, es, r.env, k);
      EntryNames(reg, r.desired, es[k]);
      TotalDecreases(names, reg, end.memory, r.desired, NameOf(es[k]));
    } else {
      TotalDecreases(names, reg, end.memory, r.desired, "");
    }
  }

  /** Every interruption during a removal in this history is of an application that asks to be rerun. */
  ghost predicate RemovalsRerun(reg: Registry, runs: seq<RunInput>)
    requires ValidHistory(reg, runs)
    decreases runs
  {
    runs == [] || (InterruptedRemovalReruns(EndOf(reg, runs[0])) && RemovalsRerun(EndOf(reg, runs[0]).disk, runs[1..]))
  }

  lemma {:induction false} RebootsWithinTotal(reg: Registry, runs: seq<RunInput>, desired: seq<Incoming>,
                                              names: seq<string>)
    requires Consistent(reg, desired) && DistinctDesired(desired) && NoPairs(reg, desired)
    requires Covers(names, reg, desired)
    requires ValidHistory(reg, runs) && FixedList(runs, desired) && RemovalsRerun(reg, runs)
    ensures Reboots(reg, runs) <= TotalRebootsLeft(names, reg, desired)
    decreases runs
  {
    TotalRange(names, reg, desired);
    if runs != [] {
      RunStaysConsistent(reg, runs[0]);
      RunKeepsNoPairs(reg, runs[0]);
      RunSpendsReboots(reg, runs[0], names);
      hide Consistent, EndOf, ValidRun, NoPairs, Covers, InterruptedRemovalReruns;
      RebootsWithinTotal(EndOf(reg, runs[0]).disk, runs[1..], desired, names);
    }
  }

  lemma {:induction false} ListSet(names: set<string>) returns (s: seq<string>)
    ensures |s| == |names| && forall n :: n in names ==> n in s
    decreases |names|
  {
    if names == {} {
      s := [];
    } else {
      var n :| n in names;
      s := ListSet(names - {n});
      s := s + [n];
    }
  }

  /** Convergence, first half: with nothing pending at the start, update commands for all version changes, and rerun for
      every interrupted removal, a history of one list has at most MAX_REBOOTS reboots per installed or desired name. */
  lemma {:induction false} RebootsAreBounded(reg: Registry, runs: seq<RunInput>, desired: seq<Incoming>)
    requires NothingPending(reg) && DistinctDesired(desired) && NoPairs(reg, desired)
    requires ValidHistory(reg, runs) && FixedList(runs, desired) && RemovalsRerun(reg, runs)
    ensures Reboots(reg, runs) <= MAX_REBOOTS * |reg.Keys + set d | d in desired :: d.name|
  {
    NoPendingIsConsistent(reg, desired);
    var all := reg.Keys + set d | d in desired :: d.name;
    var names := ListSet(all);
    assert Covers(names, reg, desired);
    TotalRange(names, reg, desired);
    hide Consistent, NoPairs, Covers;
    RebootsWithinTotal(reg, runs, desired, names);
  }

  // ----- The plan after an uninterrupted run ----------------------------------------------------------------------

  /** The plan after an uninterrupted run: every entry is a pair whose removal leg failed or was skipped in that run,
      and every such application has its pair again. Nothing else is planned, whatever else failed. */
  lemma {:induction false} NextPlanExact(reg: Registry, r: RunInput, next: RunInput)
    requires Consistent(reg, r.desired) && DistinctDesired(r.desired) && ValidRun(reg, r) && !EndOf(reg, r).exited
    requires ValidRun(EndOf(reg, r).disk, next) && next.desired == r.desired
    ensures forall n :: n in EndOf(reg, r).disk <==> IsDesired(r.desired, n)
    ensures forall e :: e in Schedule(next.plan) ==>
              |e.acts| == 2 && e.acts[0].action == RemoveForUpdate && e.acts[1].action == Install
              && RemoveLegMissed(EndOf(reg, r).results, NameOf(e))
    ensures forall d :: d in r.desired && RemoveLegMissed(EndOf(reg, r).results, d.name) ==>
              EntryFor(EndOf(reg, r).disk, d) in Schedule(next.plan)
  {
    var es, end, desired := Schedule(r.plan), EndOf(reg, r), r.desired;
    RunSchedule(reg, r);
    DiskIsMemory(reg, r);
    RunStaysConsistent(reg, r);
    RunSchedule(end.disk, next);
    hide RunEntries, GroupFor, Schedule, ValidRun, RemoveLegMissed;
    forall n
      ensures n in end.disk <==> IsDesired(desired, n)
    {
      NamesAfterRun(reg, desired, es, r.env, n);
    }
    forall d | d in desired
      ensures GroupFor(end.disk, d) != [] <==> RemoveLegMissed(end.results, d.name)
      ensures GroupFor(end.disk, d) != [] ==> |GroupFor(end.disk, d)| == 2
    {
      ReplanExact(reg, desired, es, r.env, d);
    }
    forall e | e in Schedule(next.plan)
      ensures |e.acts| == 2 && e.acts[0].action == RemoveForUpdate && e.acts[1].action == Install
      ensures RemoveLegMissed(end.results, NameOf(e))
    {
      var i :| 0 <= i < |Schedule(next.plan)| && Schedule(next.plan)[i] == e;
      EntryNames(end.disk, desired, Schedule(next.plan)[i]);
      var d :| d in desired && d.name == NameOf(e) && GroupFor(end.disk, d) != [] && e == EntryFor(end.disk, d);
      GroupShape(end.disk, d);
    }
  }

  /** Convergence, second half: in every history of one list with update commands for all version changes, whatever was
      interrupted or failed before, an uninterrupted run leaves nothing to do. */
  lemma {:induction false} UninterruptedRunConverges(reg: Registry, runs: seq<RunInput>, desired: seq<Incoming>,
                                                     last: RunInput, next: RunInput)
    requires NothingPending(reg) && DistinctDesired(desired) && NoPairs(reg, desired)
    requires ValidHistory(reg, runs) && FixedList(runs, desired)
    requires ValidRun(RegistryAfter(reg, runs), last) && last.desired == desired
    requires !EndOf(RegistryAfter(reg, runs), last).exited
    requires ValidRun(EndOf(RegistryAfter(reg, runs), last).disk, next) && next.desired == desired
    ensures Schedule(next.plan) == []
  {
    NoPendingIsConsistent(reg, desired);
    HistoryKeepsNoPairs(reg, runs, desired);
    ConvergesFrom(RegistryAfter(reg, runs), desired, last, next);
  }

  lemma {:induction false} ConvergesFrom(reg: Registry, desired: seq<Incoming>, last: RunInput, next: RunInput)
    requires Consistent(reg, desired) && DistinctDesired(desired) && NoPairs(reg, desired)
    requires ValidRun(reg, last) && last.desired == desired && !EndOf(reg, last).exited
    requires ValidRun(EndOf(reg, last).disk, next) && next.desired == desired
    ensures Schedule(next.plan) == []
  {
    NextPlanExact(reg, last, next);
    RunSchedule(reg, last);
    DiskIsMemory(reg, last);
    RunStaysConsistent(reg, last);
    RunSchedule(EndOf(reg, last).disk, next);
    RunKeepsNoPairs(reg, last);
    hide RunEntries, GroupFor, Schedule, ValidRun;
    if Schedule(next.plan) != [] {
      var e := Schedule(next.plan)[0];
      assert e in Schedule(next.plan) && |e.acts| == 2;
      EntryNames(EndOf(reg, last).disk, desired, e);
    }
  }

  // ----- Calls of install and update commands -----------------------------------------------------------------------

  /** The install or update calls a planned group can still see. */
  ghost function CallsOf(g: Group): int {
    if g == [] then 0 else if |g| == 2 then MAX_REBOOTS else MAX_REBOOTS - g[0].pkg.numReboots
  }

  ghost function CallsLeft(reg: Registry, desired: seq<Incoming>, n: string): int {
    match Lookup(desired, n)
    case Some(d) => CallsOf(GroupFor(reg, d))
    case None => 0
  }

  lemma {:induction false} CallsAfterFate(fate: Fate, s: Run, s': Run, slot: Slot, g: Group, d: Incoming)
    requires 1 <= |g| <= 2 && HasFate(fate, s, s', slot, g, d.name)
    requires forall act :: act in g ==> HealthyPackage(act.pkg)
    requires |g| == 1 ==> IsInstallOrUpdate(g[0].action)
    requires |g| == 2 ==> g[0].action == RemoveForUpdate && g[1].action == Install && g[1].pkg.numReboots == 0
    requires fate.SkippedFate? && |g| != 2 ==> g[0].pkg.numReboots <= 0
    ensures InstallCalls(s'.log, d.name) - InstallCalls(s.log, d.name) + CallsOf(NextGroup(fate, g, d)) <= CallsOf(g)
  {
    hide InstallCalls, Skips;
    assert g[0] in g && g[|g| - 1] in g;
    assert fate.InterruptedFate? ==> fate.act == g[0] || fate.act == g[|g| - 1];
  }

  lemma {:induction false} IdleCalls(reg: Registry, desired: seq<Incoming>, es: seq<Entry>, env: nat -> Outcome,
                                     d: Incoming)
    requires Consistent(reg, desired) && DistinctDesired(desired) && IsSchedule(es, reg, desired)
    requires d in desired && GroupFor(reg, d) == []
    ensures var end := RunEntries(Start(reg), es, env);
            InstallCalls(end.log, d.name) == 0 && GroupFor(end.memory, d) == []
  {
    var s0, end := Start(reg), RunEntries(Start(reg), es, env);
    hide RunEntries, RunEntry;
    IdleUntouched(reg, desired, es, env, d);
    GroupForSame(reg, end.memory, d);
    hide GroupFor;
    IdleHasNoEntry(reg, desired, es, d);
    BeforeAll(s0, es, env);
    Between(s0, es, 0, |es|, env, d.name, reg, desired);
    InstallCallsOfOthers([], end.log, d.name);
  }

  lemma {:induction false} WorkedCalls(reg: Registry, desired: seq<Incoming>, es: seq<Entry>, env: nat -> Outcome,
                                       d: Incoming)
    requires Consistent(reg, desired) && DistinctDesired(desired) && IsSchedule(es, reg, desired)
    requires d in desired && Lookup(desired, d.name) == Some(d) && GroupFor(reg, d) != []
    ensures var end := RunEntries(Start(reg), es, env);
            InstallCalls(end.log, d.name) + CallsLeft(end.memory, desired, d.name) <= CallsLeft(reg, desired, d.name)
  {
    var s0, end := Start(reg), RunEntries(Start(reg), es, env);
    GroupShape(reg, d);
    DesiredIsHealthy(reg, desired, d);
    EntryName(reg, d);
    var g := GroupFor(reg, d);
    assert |g| == 2 ==> g[1].pkg.numReboots == 0;
    hide GroupFor, RunEntries, RunEntry, IsSchedule, Consistent;
    hide HasFate, NextGroup, InstallCalls, Lookup, Regular, CallsOf;
    var k, fate := FateInRun(reg, desired, es, env, d);
    assert NameOf(es[k]) == d.name;
    BeforeEntry(reg, desired, es, env, k);
    AfterEntry(reg, desired, es, env, k);
    BeforeAll(s0, es, env);
    if fate.None? {
      ExitIsFinal(s0, es, k, |es|, env);
    } else {
      CallsAfterFate(fate.value, Before(s0, es, k, env), Before(s0, es, k + 1, env), SlotOf(d), g, d);
    }
  }

  lemma {:induction false} RunCalls(reg: Registry, r: RunInput, n: string)
    requires Consistent(reg, r.desired) && DistinctDesired(r.desired) && ValidRun(reg, r)
    ensures InstallCalls(EndOf(reg, r).log, n) + CallsLeft(EndOf(reg, r).disk, r.desired, n) <=
              CallsLeft(reg, r.desired, n)
  {
    var es := Schedule(r.plan);
    RunSchedule(reg, r);
    DiskIsMemory(reg, r);
    LookupFinds(r.desired, n);
    hide RunEntries, GroupFor;
    if IsDesired(r.desired, n) {
      var d := Lookup(r.desired, n).value;
      if GroupFor(reg, d) == [] {
        IdleCalls(reg, r.desired, es, r.env, d);
      } else {
        WorkedCalls(reg, r.desired, es, r.env, d);
      }
    } else if n in reg {
      var k, end := RemovalOutcome(reg, r.desired, es, r.env, n);
    } else {
      StrangerUntouched(reg, r.desired, es, r.env, n);
    }
  }

  lemma {:induction false} CallsLeftRange(reg: Registry, desired: seq<Incoming>, n: string)
    requires Consistent(reg, desired)
    ensures 0 <= CallsLeft(reg, desired, n) <= MAX_REBOOTS
  {
    LookupFinds(desired, n);
    var found := Lookup(desired, n);
    if found.Some? && GroupFor(reg, found.value) != [] {
      DesiredIsHealthy(reg, desired, found.value);
      assert GroupFor(reg, found.value)[0] in GroupFor(reg, found.value);
    }
    hide GroupFor;
  }

  lemma {:induction false} CallsWithinLeft(reg: Registry, runs: seq<RunInput>, desired: seq<Incoming>, n: string)
    requires Consistent(reg, desired) && DistinctDesired(desired) && ValidHistory(reg, runs) && FixedList(runs, desired)
    ensures TotalInstallCalls(reg, runs, n) <= CallsLeft(reg, desired, n)
    decreases runs
  {
    CallsLeftRange(reg, desired, n);
    if runs != [] {
      RunStaysConsistent(reg, runs[0]);
      RunCalls(reg, runs[0], n);
      hide Consistent, EndOf, ValidRun, CallsLeft;
      CallsWithinLeft(EndOf(reg, runs[0]).disk, runs[1..], desired, n);
    }
  }

  /** In every history of one list that starts with nothing pending, pairs and failures included, the install and update
      commands of an application are called at most three times in total. */
  lemma {:induction false} InstallCallsAreBounded(reg: Registry, runs: seq<RunInput>, desired: seq<Incoming>, n: string)
    requires NothingPending(reg) && DistinctDesired(desired) && ValidHistory(reg, runs) && FixedList(runs, desired)
    ensures TotalInstallCalls(reg, runs, n) <= 3
  {
    NoPendingIsConsistent(reg, desired);
    CallsLeftRange(reg, desired, n);
    CallsWithinLeft(reg, runs, desired, n);
  }
}

/** Histories: sequences of runs over the persisted registry, each ended by completion or by a reboot. */
module Histories {
  import opened Options
  import opened Packages
  import opened Planning
  import opened Execution
  import opened Schedules
  import opened Runs
  import opened Effects
  import opened Replanning

  /** One run: the list desired at the time, the plan made for it, and what the outside world answered. */
  datatype RunInput = RunInput(desired: seq<Incoming>, plan: Plan, env: nat -> Outcome)

  ghost predicate PlansFrom(plan: Plan, reg: Registry, desired: seq<Incoming>) {
    exists coll :: IsCollectionOf(coll, reg) && IsPlanOf(plan, coll, reg, desired)
  }

  ghost predicate ValidRun(reg: Registry, r: RunInput) {
    Coherent(r.plan) && PlansFrom(r.plan, reg, r.desired)
  }

  ghost function EndOf(reg: Registry, r: RunInput): Run
    requires Coherent(r.plan)
  {
    RunEntries(Start(reg), Schedule(r.plan), r.env)
  }

  /** Each run plans from the registry that the run before it left on disk. */
  ghost predicate ValidHistory(reg: Registry, runs: seq<RunInput>)
    decreases runs
  {
    runs == [] || (ValidRun(reg, runs[0]) && ValidHistory(EndOf(reg, runs[0]).disk, runs[1..]))
  }

  ghost function RegistryAfter(reg: Registry, runs: seq<RunInput>): Registry
    requires ValidHistory(reg, runs)
    decreases runs
  {
    if runs == [] then reg else RegistryAfter(EndOf(reg, runs[0]).disk, runs[1..])
  }

  /** How many of the runs ended in a reboot. */
  ghost function Reboots(reg: Registry, runs: seq<RunInput>): nat
    requires ValidHistory(reg, runs)
    decreases runs
  {
    if runs == [] then 0
    else (if EndOf(reg, runs[0]).exited then 1 else 0) + Reboots(EndOf(reg, runs[0]).disk, runs[1..])
  }

  /** How often an install or update command of application `n` was called over all runs. */
  ghost function TotalInstallCalls(reg: Registry, runs: seq<RunInput>, n: string): nat
    requires ValidHistory(reg, runs)
    decreases runs
  {
    if runs == [] then 0
    else InstallCalls(EndOf(reg, runs[0]).log, n) + TotalInstallCalls(EndOf(reg, runs[0]).disk, runs[1..], n)
  }

  ghost predicate FixedList(runs: seq<RunInput>, desired: seq<Incoming>) {
    forall i :: 0 <= i < |runs| ==> runs[i].desired == desired
  }

  ghost predicate NothingPending(reg: Registry) {
    Keyed(reg) && forall n :: n in reg ==> reg[n].numReboots == 0
  }

  lemma {:induction false} DiskIsMemory(reg: Registry, r: RunInput)
    requires Coherent(r.plan)
    ensures EndOf(reg, r).disk == EndOf(reg, r).memory
  {
    WriteAhead(reg, Schedule(r.plan), r.env);
  }

  lemma {:induction false} RunSchedule(reg: Registry, r: RunInput)
    requires Keyed(reg) && DistinctDesired(r.desired) && ValidRun(reg, r)
    ensures IsSchedule(Schedule(r.plan), reg, r.desired)
  {
    var coll :| IsCollectionOf(coll, reg) && IsPlanOf(r.plan, coll, reg, r.desired);
    PlanIsSchedule(r.plan, coll, reg, r.desired);
  }

  /** A history is a valid run followed by a history from the registry that run leaves. */
  lemma {:induction false} HistoryCons(reg: Registry, r: RunInput, runs: seq<RunInput>)
    ensures ValidHistory(reg, [r] + runs) <==> ValidRun(reg, r) && ValidHistory(EndOf(reg, r).disk, runs)
    ensures ValidHistory(reg, [r] + runs) ==>
              && Coherent(r.plan)
              && RegistryAfter(reg, [r] + runs) == RegistryAfter(EndOf(reg, r).disk, runs)
              && Reboots(reg, [r] + runs) == (if EndOf(reg, r).exited then 1 else 0) + Reboots(EndOf(reg, r).disk, runs)
  {
    hide EndOf, PlansFrom;
    assert ([r] + runs)[1..] == runs;
  }

  lemma {:induction false} NoRuns(reg: Registry)
    ensures ValidHistory(reg, []) && RegistryAfter(reg, []) == reg && Reboots(reg, []) == 0
  {
    hide EndOf, ValidRun;
  }

  /** Histories can be cut anywhere. */
  lemma {:induction false} HistoryConcat(reg: Registry, front: seq<RunInput>, back: seq<RunInput>)
    requires ValidHistory(reg, front + back)
    ensures ValidHistory(reg, front) && ValidHistory(RegistryAfter(reg, front), back)
    decreases front
  {
    hide *;
    NoRuns(reg);
    if front == [] {
      assert front + back == back;
    } else {
      var r, rest := front[0], front[1..];
      assert front == [r] + rest && front + back == [r] + (rest + back);
      HistoryCons(reg, r, rest + back);
      HistoryConcat(EndOf(reg, r).disk, rest, back);
      HistoryCons(reg, r, rest);
    }
  }

  /** A history can be continued by any run that is valid for the registry it leaves. */
  lemma {:induction false} HistorySnoc(reg: Registry, runs: seq<RunInput>, r: RunInput)
    requires ValidHistory(reg, runs) && ValidRun(RegistryAfter(reg, runs), r)
    ensures ValidHistory(reg, runs + [r]) && Coherent(r.plan)
    ensures RegistryAfter(reg, runs + [r]) == EndOf(RegistryAfter(reg, runs), r).disk
    ensures Reboots(reg, runs + [r]) ==
              Reboots(reg, runs) + (if EndOf(RegistryAfter(reg, runs), r).exited then 1 else 0)
    decreases runs
  {
    hide *;
    if runs == [] {
      NoRuns(reg);
      NoRunsAfter(reg, r);
      HistoryCons(reg, r, []);
      assert runs + [r] == [r] + [];
    } else {
      var first, rest := runs[0], runs[1..];
      assert runs == [first] + rest && runs + [r] == [first] + (rest + [r]);
      HistoryCons(reg, first, rest);
      HistorySnoc(EndOf(reg, first).disk, rest, r);
      HistoryCons(reg, first, rest + [r]);
    }
  }

  lemma {:induction false} NoRunsAfter(reg: Registry, r: RunInput)
    requires ValidRun(reg, r)
    ensures Coherent(r.plan) && ValidHistory(EndOf(reg, r).disk, [])
    ensures RegistryAfter(EndOf(reg, r).disk, []) == EndOf(reg, r).disk && Reboots(EndOf(reg, r).disk, []) == 0
  {
    NoRuns(EndOf(reg, r).disk);
  }

  /** Every run of a history is valid for the registry that the runs before it left. */
  lemma {:induction false} SplitHistory(reg: Registry, runs: seq<RunInput>, i: nat)
    requires ValidHistory(reg, runs) && i < |runs|
    ensures ValidHistory(reg, runs[..i]) && ValidRun(RegistryAfter(reg, runs[..i]), runs[i])
  {
    hide *;
    assert runs == runs[..i] + runs[i..] && runs[i..] == [runs[i]] + runs[i + 1..];
    HistoryConcat(reg, runs[..i], runs[i..]);
    HistoryCons(RegistryAfter(reg, runs[..i]), runs[i], runs[i + 1..]);
  }

  // ----- Any lists: the reboot counter ------------------------------------------------------------------------

  ghost predicate FreshOrRegistered(reg: Registry, desired: seq<Incoming>, p: Package) {
    (exists d :: d in desired && p == FromIncoming(d)) || (exists n :: n in reg && p == reg[n])
  }

  /** Whatever the desired list, repeated names included, every planned action concerns a fresh or a registered
      package. */
  lemma {:induction false} PlannedPackage(plan: Plan, coll: seq<Package>, reg: Registry, desired: seq<Incoming>,
                                          e: Entry, act: PlannedAction)
    requires IsCollectionOf(coll, reg) && IsPlanOf(plan, coll, reg, desired)
    requires e in Schedule(plan) && act in e.acts
    ensures FreshOrRegistered(reg, desired, act.pkg)
  {
    hide GroupFor;
    var known := PopulateDesiredFrom(map[], desired).0;
    UninstallsMembers(coll, known);
    if e in UninstallEntries(plan.uninstalls) {
      assert act in plan.uninstalls;
      var p :| p in coll && p.name !in known && act == UninstallFor(p);
      assert reg[p.name] == p;
    } else {
      var order := PlannedGroup(plan, reg, desired, e);
      GroupsAtMembers(reg, desired, order);
      var d :| d in desired && d.order == order && e.acts == GroupFor(reg, d) && e.acts != [];
      GroupPackages(reg, d);
    }
  }

  lemma {:induction false} PlannedGroup(plan: Plan, reg: Registry, desired: seq<Incoming>,
                                        e: Entry) returns (order: Option<int>)
    requires Coherent(plan) && e in Schedule(plan) && e !in UninstallEntries(plan.uninstalls)
    requires plan.unordered == GroupsAt(reg, desired, None)
    requires forall o :: o in plan.ordered ==> plan.ordered[o] == GroupsAt(reg, desired, Some(o))
    ensures e.acts in GroupsAt(reg, desired, order)
  {
    hide GroupsAt;
    if e in GroupEntries(Unordered, plan.unordered) {
      order := None;
    } else {
      var o := BucketOf(plan.sortedOrder, plan.ordered, e);
      order := Some(o);
    }
  }

  lemma {:induction false} BucketOf(orders: seq<int>, ordered: map<int, seq<Group>>, e: Entry) returns (o: int)
    requires forall x :: x in orders ==> x in ordered
    requires e in OrderedEntries(orders, ordered)
    ensures o in orders && e.acts in ordered[o]
  {
    var last, front := orders[|orders| - 1], orders[..|orders| - 1];
    if e in OrderedEntries(front, ordered) {
      o := BucketOf(front, ordered, e);
    } else {
      o := last;
      assert e in GroupEntries(Ordered(last), ordered[last]);
    }
  }

  lemma {:induction false} RunStaysHealthy(reg: Registry, r: RunInput)
    requires HealthyRegistry(reg) && ValidRun(reg, r)
    ensures HealthyRegistry(EndOf(reg, r).disk)
  {
    var coll :| IsCollectionOf(coll, reg) && IsPlanOf(r.plan, coll, reg, r.desired);
    forall e, act | e in Schedule(r.plan) && act in e.acts
      ensures HealthyPackage(act.pkg)
    {
      PlannedPackage(r.plan, coll, reg, r.desired, e, act);
    }
    hide RunEntries;
    RunKeepsHealthy(reg, Schedule(r.plan), r.env);
    DiskIsMemory(reg, r);
  }

  /** In every history, over any sequence of desired lists, a reboot count stays between zero and the maximum, and is
      positive only for applications that ask to be rerun. */
  lemma {:induction false} RebootCountBounded(reg: Registry, runs: seq<RunInput>)
    requires HealthyRegistry(reg) && ValidHistory(reg, runs)
    ensures HealthyRegistry(RegistryAfter(reg, runs))
    decreases runs
  {
    if runs != [] {
      RunStaysHealthy(reg, runs[0]);
      hide HealthyRegistry, EndOf;
      RebootCountBounded(EndOf(reg, runs[0]).disk, runs[1..]);
    }
  }

  // ----- Any lists: deleted applications ------------------------------------------------------------------------

  ghost predicate NoneDeleted(reg: Registry) {
    forall n :: n in reg ==> !reg[n].details.isDeleted
  }

  /** No error reported in the run has this cause. */
  ghost predicate Unreported(s: Run, fault: Fault) {
    forall r :: r in s.results && r.verdict.Errored? ==> fault !in r.verdict.faults
  }

  lemma {:induction false} ActNeverDeleted(s: Run, slot: Slot, act: PlannedAction, env: nat -> Outcome)
    requires !act.pkg.details.isDeleted && !s.exited && NoneDeleted(s.memory) && Unreported(s, AppDeleted)
    ensures NoneDeleted(RunAct(s, slot, act, env).memory) && Unreported(RunAct(s, slot, act, env), AppDeleted)
  {
    var s' := RunAct(s, slot, act, env);
    ActFrame(s, slot, act, env);
    if Skips(s, slot) {
      SkippedAct(s, slot, act, env);
    } else if s'.exited {
      var _ := InterruptedAct(s, slot, act, env);
    } else {
      var faults, _ := FinishedAct(s, slot, act, env);
    }
    hide RunAct;
    forall k | k in s'.memory
      ensures !s'.memory[k].details.isDeleted
    {
      if k != act.pkg.name {
        assert SameAt(s.memory, s'.memory, k);
      }
    }
  }

  lemma {:induction false} RunNeverDeleted(reg: Registry, r: RunInput)
    requires ValidRun(reg, r) && NoneDeleted(reg)
    ensures NoneDeleted(EndOf(reg, r).disk) && Unreported(EndOf(reg, r), AppDeleted)
  {
    var coll :| IsCollectionOf(coll, reg) && IsPlanOf(r.plan, coll, reg, r.desired);
    var P := (t: Run) => NoneDeleted(t.memory) && Unreported(t, AppDeleted);
    forall t: Run, e, act | e in Schedule(r.plan) && act in e.acts && !t.exited && P(t)
      ensures P(RunAct(t, e.slot, act, r.env))
    {
      PlannedPackage(r.plan, coll, reg, r.desired, e, act);
      ActNeverDeleted(t, e.slot, act, r.env);
    }
    hide RunEntries, RunAct;
    RunInvariant(P, Start(reg), Schedule(r.plan), r.env);
    DiskIsMemory(reg, r);
  }

  lemma {:induction false} HistoryNeverDeleted(reg: Registry, runs: seq<RunInput>)
    requires ValidHistory(reg, runs) && NoneDeleted(reg)
    ensures NoneDeleted(RegistryAfter(reg, runs))
    decreases runs
  {
    if runs != [] {
      RunNeverDeleted(reg, runs[0]);
      hide NoneDeleted, EndOf, Unreported, ValidRun;
      HistoryNeverDeleted(EndOf(reg, runs[0]).disk, runs[1..]);
    }
  }

  /** The desired list's deletion marks never reach the registry, so in a history that starts without one no run ever
      reports that an application was deleted, whatever the lists say. */
  lemma {:induction false} DeletedNeverReported(reg: Registry, runs: seq<RunInput>, i: nat)
    requires ValidHistory(reg, runs) && NoneDeleted(reg) && i < |runs|
    ensures ValidHistory(reg, runs[..i]) && ValidRun(RegistryAfter(reg, runs[..i]), runs[i])
    ensures Unreported(EndOf(RegistryAfter(reg, runs[..i]), runs[i]), AppDeleted)
  {
    hide *;
    SplitHistory(reg, runs, i);
    HistoryNeverDeleted(reg, runs[..i]);
    RunNeverDeleted(RegistryAfter(reg, runs[..i]), runs[i]);
  }
}

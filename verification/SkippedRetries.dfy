/** When an application can be skipped, and when an action can be reported as unexpected: exact conditions. */
module SkippedRetries {
  import opened Options
  import opened Packages
  import opened Planning
  import opened Execution
  import opened Schedules
  import opened Runs
  import opened Effects
  import opened Replanning
  import opened Histories
  import opened RebootLimits

  // ----- Entries of a run -------------------------------------------------------------------------------------------

  /** The run gets to the entry of `d` and skips it. */
  ghost predicate SkipsIn(reg: Registry, r: RunInput, d: Incoming)
    requires Coherent(r.plan)
  {
    exists k :: 0 <= k < |Schedule(r.plan)| && SkippedAt(reg, r, d, k)
  }

  ghost predicate SkippedAt(reg: Registry, r: RunInput, d: Incoming, k: nat)
    requires Coherent(r.plan) && k < |Schedule(r.plan)|
  {
    var es := Schedule(r.plan);
    && es[k] == EntryFor(reg, d) && !Before(Start(reg), es, k, r.env).exited
    && Skips(Before(Start(reg), es, k, r.env), es[k].slot)
  }

  /** A failed or skipped entry makes every later entry of higher order be skipped. */
  lemma {:induction false} LowerFailureSkips(s: Run, es: seq<Entry>, j: nat, k: nat, env: nat -> Outcome)
    requires Laid(es) && j < k < |es| && s.failedAt.None?
    requires es[j].slot.Ordered? && es[k].slot.Ordered? && es[j].slot.order < es[k].slot.order
    requires Skips(Before(s, es, j, env), es[j].slot) || EntryFailed(s, es, j, env)
    ensures Skips(Before(s, es, k, env), es[k].slot)
  {
    hide RunEntries, EntryFailed;
    if EntryFailed(s, es, j, env) {
      FailureSticks(s, es, j, k, env);
    } else {
      var i := FailedAtSource(s, es, j, env);
      FailureSticks(s, es, i, k, env);
    }
  }

  lemma {:induction false} LowerComesFirst(reg: Registry, desired: seq<Incoming>, es: seq<Entry>, a: Incoming,
                                           b: Incoming,
                                           j: nat, k: nat)
    requires IsSchedule(es, reg, desired) && j < |es| && k < |es| && PrecedesInOrder(b, a)
    requires es[j].slot == SlotOf(b) && es[k].slot == SlotOf(a)
    ensures j < k && Laid(es)
  {
    hide IsEntry, GroupFor;
    ScheduleIsLaid(reg, desired, es);
    assert !SlotLeq(es[k].slot, es[j].slot);
    assert j != k;
  }

  /** A run in which no command is interrupted does not exit. */
  lemma {:induction false} UninterruptedRun(reg: Registry, r: RunInput)
    requires Coherent(r.plan) && forall i :: r.env(i).ending != Interrupted
    ensures !EndOf(reg, r).exited
  {
    var P := (t: Run) => !t.exited;
    forall t: Run, e, act | e in Schedule(r.plan) && act in e.acts && !t.exited && P(t)
      ensures P(RunAct(t, e.slot, act, r.env))
    {
      if RunAct(t, e.slot, act, r.env).exited {
        ExitNeedsSignal(t, e.slot, act, r.env);
      }
    }
    hide RunEntries, RunAct;
    RunInvariant(P, Start(reg), Schedule(r.plan), r.env);
  }

  lemma {:induction false} ExitNeedsSignal(s: Run, slot: Slot, act: PlannedAction, env: nat -> Outcome)
    requires !s.exited && RunAct(s, slot, act, env).exited
    ensures env(|s.results|).ending == Interrupted
  {
    hide FaultsOf, PreparedLocal, FinishedPackage, InterruptedPackage, SkippedPackage;
  }

  /** An action that is performed and completes reports exactly its faults. */
  lemma {:induction false} PerformedReport(s: Run, slot: Slot, act: PlannedAction, env: nat -> Outcome)
    requires !s.exited && !Skips(s, slot) && !RunAct(s, slot, act, env).exited && act.action != Cleanup
    ensures RunAct(s, slot, act, env).results == s.results + [ResultOf(act, VerdictOf(FaultsOf(act, env(|s.results|))))]
  {
    HelperKeepsReports(s, act, env(|s.results|));
    hide FaultsOf, PreparedLocal, FinishedPackage, InterruptedPackage, SkippedPackage;
  }

  lemma {:induction false} FaultyEntryFails(s: Run, es: seq<Entry>, k: nat, env: nat -> Outcome)
    requires k < |es| && es[k].acts != [] && es[k].acts[0].action != Cleanup
    requires !Before(s, es, k, env).exited && !Before(s, es, k + 1, env).exited
    requires !Skips(Before(s, es, k, env), es[k].slot)
    requires FaultsOf(es[k].acts[0], env(|Before(s, es, k, env).results|)) != []
    ensures EntryFailed(s, es, k, env)
    ensures Before(s, es, k + 1, env).results == Before(s, es, k, env).results
              + [ResultOf(es[k].acts[0], Errored(FaultsOf(es[k].acts[0], env(|Before(s, es, k, env).results|))))]
  {
    BeforeNext(s, es, k, env);
    hide RunAct, FaultsOf, Before, Skips;
    var t, slot, acts := Before(s, es, k, env), es[k].slot, es[k].acts;
    FirstStops(t, slot, acts, env);
    hide RunActs;
    assert Before(s, es, k + 1, env) == RunActs(t, slot, acts, env);
  }

  lemma {:induction false} FirstStops(t: Run, slot: Slot, acts: Group, env: nat -> Outcome)
    requires acts != [] && acts[0].action != Cleanup && !t.exited && !RunActs(t, slot, acts, env).exited
    requires !Skips(t, slot)
    requires FaultsOf(acts[0], env(|t.results|)) != []
    ensures RunActs(t, slot, acts, env).results ==
              t.results + [ResultOf(acts[0], Errored(FaultsOf(acts[0], env(|t.results|))))]
  {
    hide RunAct, FaultsOf, Skips;
    var s' := RunAct(t, slot, acts[0], env);
    assert s'.exited ==> RunActs(t, slot, acts, env) == s';
    PerformedReport(t, slot, acts[0], env);
  }

  // ----- When an application can be skipped ------------------------------------------------------------------------

  /** Something other than a clean-up is planned for `b`, so it can fail. */
  ghost predicate CanFail(reg: Registry, b: Incoming) {
    GroupFor(reg, b) != [] && GroupFor(reg, b)[0].action != Cleanup
  }

  lemma {:induction false} FailureFaults(act: PlannedAction)
    ensures FaultsOf(act, FAILURE) != []
  {
  }

  /** A clean-up never fails. */
  lemma {:induction false} CleanupSucceeds(s: Run, es: seq<Entry>, k: nat, act: PlannedAction, env: nat -> Outcome)
    requires k < |es| && es[k].acts == [act] && act.action == Cleanup
    ensures !EntryFailed(s, es, k, env)
  {
    BeforeNext(s, es, k, env);
    RunOne(Before(s, es, k, env), es[k].slot, act, env);
    hide FaultsOf, PreparedLocal, FinishedPackage, InterruptedPackage, SkippedPackage, RunActs;
  }

  lemma {:induction false} FailedEntryCanFail(reg: Registry, desired: seq<Incoming>, es: seq<Entry>, j: nat,
                                              env: nat -> Outcome)
    returns (b: Incoming)
    requires Keyed(reg) && IsSchedule(es, reg, desired) && j < |es|
    requires es[j].slot.Ordered? && EntryFailed(Start(reg), es, j, env)
    ensures b in desired && es[j] == EntryFor(reg, b) && b.order == Some(es[j].slot.order) && CanFail(reg, b)
  {
    b :| b in desired && GroupFor(reg, b) != [] && es[j] == EntryFor(reg, b);
    GroupShape(reg, b);
    hide GroupFor, EntryFailed, IsSchedule;
    if GroupFor(reg, b)[0].action == Cleanup {
      assert GroupFor(reg, b) == [GroupFor(reg, b)[0]];
      CleanupSucceeds(Start(reg), es, j, GroupFor(reg, b)[0], env);
    }
  }

  lemma {:induction false} SkipNeedsLower(reg: Registry, r: RunInput, a: Incoming) returns (b: Incoming)
    requires Keyed(reg) && DistinctDesired(r.desired) && ValidRun(reg, r) && SkipsIn(reg, r, a)
    ensures b in r.desired && PrecedesInOrder(b, a) && CanFail(reg, b)
  {
    RunSchedule(reg, r);
    var es := Schedule(r.plan);
    ScheduleIsLaid(reg, r.desired, es);
    var k :| 0 <= k < |es| && SkippedAt(reg, r, a, k);
    hide GroupFor, RunEntries, EntryFailed, IsSchedule, Laid, Schedule;
    var j := FailedAtSource(Start(reg), es, k, r.env);
    b := FailedEntryCanFail(reg, r.desired, es, j, r.env);
  }

  /** If every command fails, whatever has something of lower order planned is skipped. */
  lemma {:induction false} LowerCanSkip(reg: Registry, desired: seq<Incoming>, a: Incoming, b: Incoming)
    returns (r: RunInput)
    requires Keyed(reg) && DistinctDesired(desired) && a in desired && GroupFor(reg, a) != []
    requires b in desired && PrecedesInOrder(b, a) && CanFail(reg, b)
    ensures ValidRun(reg, r) && r.desired == desired && SkipsIn(reg, r, a) && forall i :: r.env(i) == FAILURE
  {
    r := PlanExists(reg, desired, _ => FAILURE);
    RunSchedule(reg, r);
    UninterruptedRun(reg, r);
    var s0, es := Start(reg), Schedule(r.plan);
    hide GroupFor, RunEntries, IsSchedule, Schedule, ValidRun;
    var k := EntryIndex(reg, desired, es, a);
    var j := EntryIndex(reg, desired, es, b);
    LowerComesFirst(reg, desired, es, a, b, j, k);
    ExitCarries(s0, es, k, r.env);
    ExitCarries(s0, es, j, r.env);
    hide Before;
    if !Skips(Before(s0, es, j, r.env), es[j].slot) {
      FailureFaults(es[j].acts[0]);
      FaultyEntryFails(s0, es, j, r.env);
    }
    LowerFailureSkips(s0, es, j, k, r.env);
    assert SkippedAt(reg, r, a, k);
  }

  /** An application with something planned, a pending retry included, can be skipped by some run exactly when something
      other than a clean-up is planned for an application of lower order. */
  lemma {:induction false} SkippableIff(reg: Registry, desired: seq<Incoming>, a: Incoming)
    requires Keyed(reg) && DistinctDesired(desired) && a in desired && GroupFor(reg, a) != []
    ensures (exists r: RunInput :: ValidRun(reg, r) && r.desired == desired && SkipsIn(reg, r, a))
       <==> exists b :: b in desired && PrecedesInOrder(b, a) && CanFail(reg, b)
  {
    hide GroupFor, PlansFrom, SkipsIn;
    if r: RunInput :| ValidRun(reg, r) && r.desired == desired && SkipsIn(reg, r, a) {
      var b := SkipNeedsLower(reg, r, a);
    }
    if b :| b in desired && PrecedesInOrder(b, a) && CanFail(reg, b) {
      var r := LowerCanSkip(reg, desired, a, b);
    }
  }

  // ----- When an unexpected action can be reported -----------------------------------------------------------------

  const SUCCESS := Outcome("", false, false, false, None, None, Completed(true), false)

  /** Performing the action is reported as unexpected. */
  ghost predicate UnreadyAct(act: PlannedAction) {
    !IsCommand(act.action) && act.action != Cleanup && act.pkg.numReboots != MAX_REBOOTS
  }

  /** What is planned for `d` is not a command. */
  ghost predicate Unready(reg: Registry, d: Incoming) {
    GroupFor(reg, d) != [] && UnreadyAct(GroupFor(reg, d)[0])
  }

  /** What is planned for `b` fails whatever its command does: the retries are used up, or the entry is marked
      deleted. */
  ghost predicate Doomed(reg: Registry, b: Incoming) {
    GroupFor(reg, b) != []
    && var act := GroupFor(reg, b)[0];
       act.action != Cleanup
       && (act.pkg.numReboots == MAX_REBOOTS || (IsInstallOrUpdate(act.action) && act.pkg.details.isDeleted))
  }

  ghost predicate ReportsUnexpected(reg: Registry, r: RunInput)
    requires Coherent(r.plan)
  {
    !Unreported(EndOf(reg, r), UnexpectedAction)
  }

  lemma {:induction false} UnreadyFaults(act: PlannedAction, o: Outcome)
    requires !IsCommand(act.action) && act.pkg.numReboots != MAX_REBOOTS
    ensures FaultsOf(act, o) == [UnexpectedAction]
  {
  }

  /** An action that is not unready is never reported as unexpected. */
  lemma {:induction false} ReadyActs(s: Run, slot: Slot, act: PlannedAction, env: nat -> Outcome)
    requires !UnreadyAct(act)
    requires !s.exited && Unreported(s, UnexpectedAction)
    ensures Unreported(RunAct(s, slot, act, env), UnexpectedAction)
  {
    var s' := RunAct(s, slot, act, env);
    if Skips(s, slot) {
      SkippedAct(s, slot, act, env);
    } else if s'.exited {
      var _ := InterruptedAct(s, slot, act, env);
    } else {
      var faults, _ := FinishedAct(s, slot, act, env);
      if act.action != Cleanup {
        PerformedReport(s, slot, act, env);
        ReadyFaults(act, env(|s.results|));
      }
    }
    hide RunAct;
  }

  lemma {:induction false} ReadyFaults(act: PlannedAction, o: Outcome)
    requires IsCommand(act.action) || act.pkg.numReboots == MAX_REBOOTS
    ensures UnexpectedAction !in FaultsOf(act, o)
  {
  }

  lemma {:induction false} ReadyEntry(s: Run, es: seq<Entry>, k: nat, env: nat -> Outcome)
    requires k < |es| && Unreported(Before(s, es, k, env), UnexpectedAction)
    requires forall act :: act in es[k].acts ==> !UnreadyAct(act)
    ensures Unreported(Before(s, es, k + 1, env), UnexpectedAction)
  {
    BeforeNext(s, es, k, env);
    var P := (t: Run) => Unreported(t, UnexpectedAction);
    var t, e := Before(s, es, k, env), es[k];
    if !t.exited {
      forall u: Run, act | act in e.acts && !u.exited && P(u)
        ensures P(RunAct(u, e.slot, act, env))
      {
        ReadyActs(u, e.slot, act, env);
      }
      hide RunAct, RunActs;
      ActsInvariant(P, t, e.slot, e.acts, env);
    }
  }

  /** The first entry that reports an unexpected action. */
  lemma {:induction false} FirstUnexpected(s: Run, es: seq<Entry>, j: nat, env: nat -> Outcome) returns (k: nat)
    requires j <= |es| && Unreported(s, UnexpectedAction) && !Unreported(Before(s, es, j, env), UnexpectedAction)
    ensures k < j && Unreported(Before(s, es, k, env), UnexpectedAction)
    ensures !Unreported(Before(s, es, k + 1, env), UnexpectedAction)
    decreases j
  {
    hide *;
    k := 0;
    BeforeAll(s, es, env);
    if !Unreported(Before(s, es, j - 1, env), UnexpectedAction) {
      k := FirstUnexpected(s, es, j - 1, env);
    } else {
      k := j - 1;
    }
  }

  lemma {:induction false} StartUnreported(reg: Registry)
    ensures Unreported(Start(reg), UnexpectedAction)
  {
  }

  lemma {:induction false} UnreadyGroup(reg: Registry, desired: seq<Incoming>, e: Entry, act: PlannedAction)
    returns (d: Incoming)
    requires Keyed(reg) && IsEntry(reg, desired, e) && act in e.acts
    requires UnreadyAct(act)
    ensures d in desired && e == EntryFor(reg, d) && Unready(reg, d)
  {
    d :| d in desired && GroupFor(reg, d) != [] && e == EntryFor(reg, d);
    GroupShape(reg, d);
    hide GroupFor;
  }

  lemma {:induction false} UnexpectedNeedsUnready(reg: Registry, r: RunInput) returns (d: Incoming)
    requires Keyed(reg) && DistinctDesired(r.desired) && ValidRun(reg, r) && ReportsUnexpected(reg, r)
    ensures d in r.desired && Unready(reg, d)
    ensures forall b :: b in r.desired && PrecedesInOrder(b, d) ==> !Doomed(reg, b)
  {
    RunSchedule(reg, r);
    var s0, es := Start(reg), Schedule(r.plan);
    hide RunEntries, Schedule, GroupFor, IsEntry, Unready, Doomed;
    BeforeAll(s0, es, r.env);
    StartUnreported(reg);
    var k := FirstUnexpected(s0, es, |es|, r.env);
    if forall act :: act in es[k].acts ==> !UnreadyAct(act) {
      ReadyEntry(s0, es, k, r.env);
    }
    var act :| act in es[k].acts && UnreadyAct(act);
    d := UnreadyGroup(reg, r.desired, es[k], act);
    ReachedUnskipped(reg, r.desired, es, k, r.env, d);
    forall b | b in r.desired && PrecedesInOrder(b, d)
      ensures !Doomed(reg, b)
    {
      if Doomed(reg, b) {
        DoomedSkips(reg, r.desired, es, k, r.env, b, d);
      }
    }
  }

  lemma {:induction false} ReachedUnskipped(reg: Registry, desired: seq<Incoming>, es: seq<Entry>, k: nat,
                                            env: nat -> Outcome, d: Incoming)
    requires k < |es| && es[k] == EntryFor(reg, d) && GroupFor(reg, d) != []
    requires Unreported(Before(Start(reg), es, k, env), UnexpectedAction)
    requires !Unreported(Before(Start(reg), es, k + 1, env), UnexpectedAction)
    ensures !Before(Start(reg), es, k, env).exited && !Skips(Before(Start(reg), es, k, env), es[k].slot)
  {
    BeforeNext(Start(reg), es, k, env);
    if !Before(Start(reg), es, k, env).exited && Skips(Before(Start(reg), es, k, env), es[k].slot) {
      SkippedEntry(Start(reg), es, k, env);
    }
    hide RunActs, GroupFor;
  }

  lemma {:induction false} DoomedFaults(act: PlannedAction, o: Outcome)
    requires act.pkg.numReboots == MAX_REBOOTS || (IsInstallOrUpdate(act.action) && act.pkg.details.isDeleted)
    ensures FaultsOf(act, o) != []
  {
  }

  /** A doomed application of lower order fails or is skipped itself, if the run gets past it. */
  lemma {:induction false} DoomedSkips(reg: Registry, desired: seq<Incoming>, es: seq<Entry>, k: nat,
                                       env: nat -> Outcome,
                                       b: Incoming, d: Incoming)
    requires Keyed(reg) && IsSchedule(es, reg, desired) && b in desired && PrecedesInOrder(b, d) && Doomed(reg, b)
    requires k < |es| && es[k] == EntryFor(reg, d) && !Before(Start(reg), es, k, env).exited
    ensures Skips(Before(Start(reg), es, k, env), es[k].slot)
  {
    var s0 := Start(reg);
    hide GroupFor, RunEntries, IsSchedule;
    var j := EntryIndex(reg, desired, es, b);
    LowerComesFirst(reg, desired, es, d, b, j, k);
    if Before(s0, es, j, env).exited {
      ExitIsFinal(s0, es, j, k, env);
    } else if Before(s0, es, j + 1, env).exited {
      ExitIsFinal(s0, es, j + 1, k, env);
    } else {
      if !Skips(Before(s0, es, j, env), es[j].slot) {
        DoomedFaults(es[j].acts[0], env(|Before(s0, es, j, env).results|));
        hide Before;
        FaultyEntryFails(s0, es, j, env);
      }
      LowerFailureSkips(s0, es, j, k, env);
    }
  }

  // If nothing of lower order is doomed, let every command succeed.

  lemma {:induction false} SoundActSucceeds(act: PlannedAction)
    requires IsCommand(act.action) && act.pkg.numReboots != MAX_REBOOTS
    requires IsInstallOrUpdate(act.action) ==> !act.pkg.details.isDeleted
    ensures FaultsOf(act, SUCCESS) == []
  {
  }

  /** If every command succeeds, an entry of desired application `b` fails only if `b` is doomed or unready. */
  lemma {:induction false} OnlyDoomedOrUnreadyFail(reg: Registry, es: seq<Entry>, j: nat, env: nat -> Outcome,
                                                   b: Incoming)
    requires Keyed(reg) && j < |es| && es[j] == EntryFor(reg, b) && GroupFor(reg, b) != []
    requires (forall i :: env(i) == SUCCESS) && EntryFailed(Start(reg), es, j, env) && !Doomed(reg, b)
    ensures Unready(reg, b)
  {
    var g := GroupFor(reg, b);
    GroupShape(reg, b);
    assert |g| == 2 ==> g[1].pkg == FromIncoming(b) && g[1].action == Install;
    hide GroupFor;
    if !Unready(reg, b) {
      if g[0].action == Cleanup {
        assert g == [g[0]];
        CleanupSucceeds(Start(reg), es, j, g[0], env);
      } else {
        SoundActSucceeds(g[0]);
        if |g| == 2 {
          SoundActSucceeds(g[1]);
        }
        SoundEntrySucceeds(Start(reg), es, j, env);
      }
    }
  }

  /** Nothing has failed last. */
  ghost predicate LastSound(s: Run) {
    !s.exited && |s.results| > 0 && !s.results[|s.results| - 1].verdict.Errored?
  }

  lemma {:induction false} SoundActs(t: Run, slot: Slot, acts: Group, env: nat -> Outcome)
    requires 1 <= |acts| <= 2 && !t.exited && forall i :: env(i) == SUCCESS
    requires forall act :: act in acts ==> FaultsOf(act, SUCCESS) == [] && act.action != Cleanup
    ensures LastSound(RunActs(t, slot, acts, env))
  {
    hide FaultsOf, RunActs, RunAct, Skips;
    assert acts[0] in acts && acts[|acts| - 1] in acts;
    SoundAct(t, slot, acts[0], env);
    if |acts| == 1 {
      assert acts == [acts[0]];
      RunOne(t, slot, acts[0], env);
    } else {
      assert acts == [acts[0], acts[1]];
      RunTwo(t, slot, acts[0], acts[1], env);
      SoundAct(RunAct(t, slot, acts[0], env), slot, acts[1], env);
    }
  }

  lemma {:induction false} SoundEntrySucceeds(s: Run, es: seq<Entry>, j: nat, env: nat -> Outcome)
    requires j < |es| && 1 <= |es[j].acts| <= 2 && forall i :: env(i) == SUCCESS
    requires forall act :: act in es[j].acts ==> FaultsOf(act, SUCCESS) == [] && act.action != Cleanup
    ensures !EntryFailed(s, es, j, env)
  {
    BeforeNext(s, es, j, env);
    hide FaultsOf, RunActs, Before;
    if !Before(s, es, j, env).exited {
      SoundActs(Before(s, es, j, env), es[j].slot, es[j].acts, env);
    }
  }

  /** A sound action is skipped or succeeds. */
  lemma {:induction false} SoundAct(s: Run, slot: Slot, act: PlannedAction, env: nat -> Outcome)
    requires FaultsOf(act, SUCCESS) == [] && act.action != Cleanup && forall i :: env(i) == SUCCESS
    ensures !s.exited ==> LastSound(RunAct(s, slot, act, env))
  {
    if !s.exited {
      if RunAct(s, slot, act, env).exited {
        ExitNeedsSignal(s, slot, act, env);
      } else if Skips(s, slot) {
        SkippedAct(s, slot, act, env);
      } else {
        PerformedReport(s, slot, act, env);
      }
    }
    hide RunAct;
  }

  lemma {:induction false} UnreadyEntryReports(reg: Registry, r: RunInput, d: Incoming, k: nat)
    requires Keyed(reg) && ValidRun(reg, r) && k < |Schedule(r.plan)| && Schedule(r.plan)[k] == EntryFor(reg, d)
    requires Unready(reg, d) && !EndOf(reg, r).exited
    requires !Skips(Before(Start(reg), Schedule(r.plan), k, r.env), Schedule(r.plan)[k].slot)
    ensures ReportsUnexpected(reg, r)
  {
    var s0, es := Start(reg), Schedule(r.plan);
    hide GroupFor, RunEntries, Schedule, ValidRun, Skips;
    ExitCarries(s0, es, k, r.env);
    BeforeAll(s0, es, r.env);
    hide Before;
    var act, o := es[k].acts[0], r.env(|Before(s0, es, k, r.env).results|);
    UnreadyFaults(act, o);
    FaultyEntryFails(s0, es, k, r.env);
    ResultsGrow(s0, es, k + 1, |es|, r.env);
    var results := Before(s0, es, k + 1, r.env).results;
    assert results[|results| - 1] == EndOf(reg, r).results[|results| - 1];
    assert EndOf(reg, r).results[|results| - 1] in EndOf(reg, r).results;
  }

  lemma {:induction false} ResultsGrow(s: Run, es: seq<Entry>, i: nat, j: nat, env: nat -> Outcome)
    requires i <= j <= |es|
    ensures Before(s, es, i, env).results <= Before(s, es, j, env).results
    decreases j
  {
    if i < j {
      ResultsGrow(s, es, i, j - 1, env);
      BeforeNext(s, es, j - 1, env);
      hide Before;
      EntryKeepsResults(Before(s, es, j - 1, env), es[j - 1], env);
    }
  }

  lemma {:induction false} EntryKeepsResults(s: Run, e: Entry, env: nat -> Outcome)
    ensures s.results <= RunEntry(s, e, env).results
  {
    var P := (t: Run) => s.results <= t.results;
    if !s.exited {
      forall t: Run, act | act in e.acts && !t.exited && P(t)
        ensures P(RunAct(t, e.slot, act, env))
      {
        ActFrame(t, e.slot, act, env);
        hide RunAct;
      }
      hide RunAct, RunActs;
      ActsInvariant(P, s, e.slot, e.acts, env);
    }
  }

  lemma {:induction false} UnreadyCanBeReported(reg: Registry, desired: seq<Incoming>, d: Incoming)
    returns (r: RunInput)
    requires Keyed(reg) && DistinctDesired(desired) && d in desired && Unready(reg, d)
    requires forall b :: b in desired && PrecedesInOrder(b, d) ==> !Doomed(reg, b)
    ensures ValidRun(reg, r) && Coherent(r.plan) && r.desired == desired && ReportsUnexpected(reg, r)
  {
    r := PlanExists(reg, desired, _ => SUCCESS);
    RunSchedule(reg, r);
    UninterruptedRun(reg, r);
    var s0, es := Start(reg), Schedule(r.plan);
    ScheduleIsLaid(reg, desired, es);
    hide GroupFor, RunEntries, Schedule, ValidRun, ReportsUnexpected, EntryFailed, Laid, Doomed, IsSchedule;
    var k := EntryIndex(reg, desired, es, d);
    if !Skips(Before(s0, es, k, r.env), es[k].slot) {
      UnreadyEntryReports(reg, r, d, k);
    } else {
      var j := FailedAtSource(s0, es, k, r.env);
      var b := FailedEntryCanFail(reg, desired, es, j, r.env);
      OnlyDoomedOrUnreadyFail(reg, es, j, r.env, b);
      FailedNotSkippedAt(reg, desired, es, j, r.env);
      UnreadyEntryReports(reg, r, b, j);
    }
  }

  lemma {:induction false} FailedNotSkippedAt(reg: Registry, desired: seq<Incoming>, es: seq<Entry>, j: nat,
                                              env: nat -> Outcome)
    requires IsSchedule(es, reg, desired) && j < |es| && EntryFailed(Start(reg), es, j, env)
    ensures !Skips(Before(Start(reg), es, j, env), es[j].slot)
  {
    ScheduleIsLaid(reg, desired, es);
    LaidHasActs(es, j);
    hide *;
    FailedNotSkipped(Start(reg), es, j, env);
  }

  /** Some run reports an unexpected action exactly when something that is no command is planned for a desired
      application, and nothing of lower order is bound to fail before it. */
  lemma {:induction false} UnexpectedReportedIff(reg: Registry, desired: seq<Incoming>)
    requires Keyed(reg) && DistinctDesired(desired)
    ensures (exists r: RunInput :: ValidRun(reg, r) && r.desired == desired && ReportsUnexpected(reg, r))
       <==> exists d :: d in desired && Unready(reg, d) && forall b :: b in desired && PrecedesInOrder(b, d) ==>
         !Doomed(reg, b)
  {
    hide PlansFrom, ReportsUnexpected, Unready, Doomed, PrecedesInOrder;
    if r: RunInput :| ValidRun(reg, r) && r.desired == desired && ReportsUnexpected(reg, r) {
      var d := UnexpectedNeedsUnready(reg, r);
    }
    if d :| d in desired && Unready(reg, d) && forall b :: b in desired && PrecedesInOrder(b, d) ==> !Doomed(reg, b) {
      var r := UnreadyCanBeReported(reg, desired, d);
    }
  }
}

/** One run of a fixed desired list: what it keeps, and what the next plan contains. */
module Replanning {
  import opened Options
  import opened Packages
  import opened Planning
  import opened Execution
  import opened Schedules
  import opened Runs
  import opened Effects
  import opened Versions

  ghost predicate HealthyRegistry(reg: Registry) {
    Keyed(reg) && forall n :: n in reg ==> HealthyPackage(reg[n])
  }

  /** What holds of the registry in every history of one desired list that starts without pending reboots. */
  ghost predicate Consistent(reg: Registry, desired: seq<Incoming>) {
    && HealthyRegistry(reg)
    && (forall d :: d in desired && |GroupFor(reg, d)| == 1 ==> IsInstallOrUpdate(GroupFor(reg, d)[0].action))
    && (forall a, b :: a in desired && b in desired && PrecedesInOrder(b, a) && Pending(reg, a.name) ==>
      GroupFor(reg, b) == [])
  }

  /** A reboot has interrupted the application's operation and it is to be run again. */
  ghost predicate Pending(reg: Registry, n: string) {
    n in reg && reg[n].numReboots > 0
  }

  ghost predicate PrecedesInOrder(b: Incoming, a: Incoming) {
    b.order.Some? && a.order.Some? && b.order.value < a.order.value
  }

  lemma {:induction false} NoPendingIsConsistent(reg: Registry, desired: seq<Incoming>)
    requires Keyed(reg) && forall n :: n in reg ==> reg[n].numReboots == 0
    ensures Consistent(reg, desired)
  {
    forall d | d in desired && |GroupFor(reg, d)| == 1
      ensures IsInstallOrUpdate(GroupFor(reg, d)[0].action)
    {
      GroupShape(reg, d);
    }
  }

  // ----- Healthy counts, for any plan -------------------------------------------------------------------------

  lemma {:induction false} ActEntryHealthy(s: Run, slot: Slot, act: PlannedAction, env: nat -> Outcome)
    requires HealthyPackage(act.pkg) && !s.exited
    ensures var s' := RunAct(s, slot, act, env);
            act.pkg.name in s'.memory ==>
              s'.memory[act.pkg.name].name == act.pkg.name && HealthyPackage(s'.memory[act.pkg.name])
  {
    hide RunAct;
    if Skips(s, slot) {
      SkippedAct(s, slot, act, env);
    } else if RunAct(s, slot, act, env).exited {
      var _ := InterruptedAct(s, slot, act, env);
    } else {
      var faults, _ := FinishedAct(s, slot, act, env);
    }
  }

  lemma {:induction false} ActKeepsHealthy(s: Run, slot: Slot, act: PlannedAction, env: nat -> Outcome)
    requires HealthyRegistry(s.memory) && HealthyPackage(act.pkg) && !s.exited
    ensures HealthyRegistry(RunAct(s, slot, act, env).memory)
  {
    hide RunAct, HealthyPackage;
    var s' := RunAct(s, slot, act, env);
    ActFrame(s, slot, act, env);
    ActEntryHealthy(s, slot, act, env);
    forall k | k in s'.memory
      ensures s'.memory[k].name == k && HealthyPackage(s'.memory[k])
    {
      if k != act.pkg.name {
        assert SameAt(s.memory, s'.memory, k);
      }
    }
  }

  lemma {:induction false} RunKeepsHealthy(reg: Registry, es: seq<Entry>, env: nat -> Outcome)
    requires HealthyRegistry(reg)
    requires forall e, act :: e in es && act in e.acts ==> HealthyPackage(act.pkg)
    ensures HealthyRegistry(RunEntries(Start(reg), es, env).memory)
  {
    forall t: Run, e, act | e in es && act in e.acts && !t.exited && HealthyRegistry(t.memory)
      ensures HealthyRegistry(RunAct(t, e.slot, act, env).memory)
    {
      ActKeepsHealthy(t, e.slot, act, env);
    }
    hide RunAct, HealthyRegistry;
    var P := (t: Run) => HealthyRegistry(t.memory);
    RunInvariant(P, Start(reg), es, env);
  }

  lemma {:induction false} GroupPackages(reg: Registry, d: Incoming)
    ensures forall act :: act in GroupFor(reg, d) ==>
              act.pkg == FromIncoming(d) || (d.name in reg && act.pkg == reg[d.name])
  {
    hide VersionsEqual;
  }

  lemma {:induction false} EntryIsHealthy(reg: Registry, desired: seq<Incoming>, e: Entry)
    requires HealthyRegistry(reg) && IsEntry(reg, desired, e)
    ensures forall act :: act in e.acts ==> HealthyPackage(act.pkg)
  {
    hide GroupFor;
    if IsDesiredEntry(reg, desired, e) {
      var d :| d in desired && GroupFor(reg, d) != [] && e == EntryFor(reg, d);
      GroupPackages(reg, d);
    }
  }

  // ----- The fate of each application in a run ------------------------------------------------------------------

  lemma {:induction false} GroupForSame(m: Registry, m': Registry, d: Incoming)
    requires SameAt(m, m', d.name)
    ensures GroupFor(m, d) == GroupFor(m', d)
  {
    hide VersionsEqual;
  }

  lemma {:induction false} EntryFate(reg: Registry, desired: seq<Incoming>, d: Incoming, s: Run,
                                     env: nat -> Outcome) returns (fate: Fate)
    requires Consistent(reg, desired) && d in desired && GroupFor(reg, d) != [] && !s.exited
    ensures HasFate(fate, s, RunEntry(s, EntryFor(reg, d), env), SlotOf(d), GroupFor(reg, d), d.name)
  {
    var g := GroupFor(reg, d);
    GroupShape(reg, d);
    hide GroupFor, RunActs;
    if |g| == 1 {
      assert g == [g[0]];
      fate := SingleFate(s, SlotOf(d), g[0], env);
    } else {
      assert g == [g[0], g[1]];
      fate := PairFate(s, SlotOf(d), g[0], g[1], env);
    }
  }

  /** The run, seen from one desired application that needs work: it was not reached, or it met its fate at `k`. */
  ghost predicate RunFate(reg: Registry, es: seq<Entry>, env: nat -> Outcome, d: Incoming, k: nat, fate: Option<Fate>) {
    var s0, end := Start(reg), RunEntries(Start(reg), es, env);
    && k < |es| && es[k] == EntryFor(reg, d) && GroupFor(reg, d) != []
    && match fate
       case None => Before(s0, es, k, env).exited && SameAt(reg, end.memory, d.name)
       case Some(f) =>
         && !Before(s0, es, k, env).exited
         && HasFate(f, Before(s0, es, k, env), Before(s0, es, k + 1, env), SlotOf(d), GroupFor(reg, d), d.name)
         && SameAt(Before(s0, es, k + 1, env).memory, end.memory, d.name)
  }

  /** The one entry of an application that needs work. */
  lemma {:induction false} EntryIndex(reg: Registry, desired: seq<Incoming>, es: seq<Entry>,
                                      d: Incoming) returns (k: nat)
    requires Keyed(reg) && IsSchedule(es, reg, desired) && d in desired && GroupFor(reg, d) != []
    ensures k < |es| && es[k] == EntryFor(reg, d) && NameOf(es[k]) == d.name
    ensures forall j :: 0 <= j < |es| && j != k ==> NameOf(es[j]) != d.name
  {
    hide GroupFor, IsEntry, SlotLeq;
    assert EntryFor(reg, d) in es;
    k :| 0 <= k < |es| && es[k] == EntryFor(reg, d);
    EntryName(reg, d);
    hide NameOf, EntryFor;
  }

  lemma {:induction false} UntouchedBetween(reg: Registry, desired: seq<Incoming>, es: seq<Entry>, i: nat, j: nat,
                                            env: nat -> Outcome, n: string)
    requires Keyed(reg) && IsSchedule(es, reg, desired) && i <= j <= |es|
    requires forall k :: i <= k < j ==> NameOf(es[k]) != n
    ensures SameAt(Before(Start(reg), es, i, env).memory, Before(Start(reg), es, j, env).memory, n)
  {
    hide IsEntry, GroupFor, RunEntries, NameOf, SlotLeq, SameAt;
    Between(Start(reg), es, i, j, env, n, reg, desired);
  }

  lemma {:induction false} FindFate(reg: Registry, desired: seq<Incoming>, es: seq<Entry>, env: nat -> Outcome,
                                    d: Incoming)
    returns (k: nat, fate: Option<Fate>)
    requires Consistent(reg, desired) && IsSchedule(es, reg, desired)
    requires d in desired && GroupFor(reg, d) != []
    ensures RunFate(reg, es, env, d, k, fate)
  {
    hide IsSchedule, GroupFor, RunEntries, RunEntry, EntryFor, HasFate, NameOf, SameAt;
    var s0 := Start(reg);
    k := EntryIndex(reg, desired, es, d);
    BeforeAll(s0, es, env);
    if Before(s0, es, k, env).exited {
      UntouchedBetween(reg, desired, es, 0, k, env, d.name);
      ExitIsFinal(s0, es, k, |es|, env);
      fate := None;
    } else {
      UntouchedBetween(reg, desired, es, k + 1, |es|, env, d.name);
      BeforeNext(s0, es, k, env);
      var f := EntryFate(reg, desired, d, Before(s0, es, k, env), env);
      fate := Some(f);
    }
  }

  lemma {:induction false} EntryName(reg: Registry, d: Incoming)
    requires Keyed(reg) && GroupFor(reg, d) != []
    ensures NameOf(EntryFor(reg, d)) == d.name
  {
    GroupNames(reg, d);
    hide GroupFor;
    assert GroupFor(reg, d)[0] in GroupFor(reg, d);
  }

  lemma {:induction false} IdleHasNoEntry(reg: Registry, desired: seq<Incoming>, es: seq<Entry>, d: Incoming)
    requires Keyed(reg) && DistinctDesired(desired) && IsSchedule(es, reg, desired)
    requires d in desired && GroupFor(reg, d) == []
    ensures forall k :: 0 <= k < |es| ==> NameOf(es[k]) != d.name
  {
    hide GroupFor;
    forall k | 0 <= k < |es|
      ensures NameOf(es[k]) != d.name
    {
      EntryNames(reg, desired, es[k]);
      if IsDesiredEntry(reg, desired, es[k]) {
        var d' :| d' in desired && d'.name == NameOf(es[k]) && GroupFor(reg, d') != [] && es[k] == EntryFor(reg, d');
        if d'.name == d.name {
          DesiredByName(desired, d, d');
        }
      }
    }
  }

  /** An application that needs no work is not touched. */
  lemma {:induction false} IdleUntouched(reg: Registry, desired: seq<Incoming>, es: seq<Entry>, env: nat -> Outcome,
                                         d: Incoming)
    requires Keyed(reg) && DistinctDesired(desired) && IsSchedule(es, reg, desired)
    requires d in desired && GroupFor(reg, d) == []
    ensures SameAt(reg, RunEntries(Start(reg), es, env).memory, d.name)
  {
    hide GroupFor;
    IdleHasNoEntry(reg, desired, es, d);
    BeforeAll(Start(reg), es, env);
    Between(Start(reg), es, 0, |es|, env, d.name, reg, desired);
  }

  lemma {:induction false} ScheduleIsLaid(reg: Registry, desired: seq<Incoming>, es: seq<Entry>)
    requires IsSchedule(es, reg, desired)
    ensures Laid(es)
  {
  }

  /** An application with a pending retry is never skipped: nothing of lower order is planned any more. */
  lemma {:induction false} PendingNeverSkipped(reg: Registry, desired: seq<Incoming>, es: seq<Entry>,
                                               env: nat -> Outcome, d: Incoming, k: nat)
    requires Consistent(reg, desired) && IsSchedule(es, reg, desired) && d in desired
    requires k < |es| && es[k] == EntryFor(reg, d) && Pending(reg, d.name)
    ensures !Skips(Before(Start(reg), es, k, env), es[k].slot)
  {
    hide GroupFor, RunEntries, RunEntry;
    ScheduleIsLaid(reg, desired, es);
    var s0 := Start(reg);
    if Skips(Before(s0, es, k, env), es[k].slot) {
      var j := FailedAtSource(s0, es, k, env);
      NothingPlannedBelow(reg, desired, d, es[j]);
    }
  }

  lemma {:induction false} NothingPlannedBelow(reg: Registry, desired: seq<Incoming>, d: Incoming, e: Entry)
    requires Consistent(reg, desired) && d in desired && Pending(reg, d.name) && IsEntry(reg, desired, e)
    requires e.slot.Ordered? && d.order.Some?
    ensures d.order.value <= e.slot.order
  {
    hide GroupFor;
    var b :| b in desired && GroupFor(reg, b) != [] && e == EntryFor(reg, b);
    assert !PrecedesInOrder(b, d);
  }

  // ----- The invariant ------------------------------------------------------------------------------------------

  /** If the run was interrupted at an ordered application, every application of lower order is finished for good. */
  lemma {:induction false} LowerOrdersDone(reg: Registry, desired: seq<Incoming>, es: seq<Entry>, env: nat -> Outcome,
                        a: Incoming, k: nat, b: Incoming)
    requires Consistent(reg, desired) && DistinctDesired(desired) && IsSchedule(es, reg, desired)
    requires a in desired && b in desired && PrecedesInOrder(b, a)
    requires k < |es| && es[k] == EntryFor(reg, a)
    requires !Before(Start(reg), es, k, env).exited && !Skips(Before(Start(reg), es, k, env), es[k].slot)
    ensures GroupFor(RunEntries(Start(reg), es, env).memory, b) == []
  {
    hide GroupFor, RunEntries, RunEntry;
    var s0, end := Start(reg), RunEntries(Start(reg), es, env);
    if GroupFor(reg, b) == [] {
      IdleUntouched(reg, desired, es, env, b);
      GroupForSame(reg, end.memory, b);
    } else {
      ScheduleIsLaid(reg, desired, es);
      var j, fate := FindFate(reg, desired, es, env, b);
      assert !SlotLeq(es[k].slot, es[j].slot);
      assert j < k;
      if Before(s0, es, j, env).exited {
        ExitIsFinal(s0, es, j, k, env);
        assert false;
      }
      if Before(s0, es, j + 1, env).exited {
        ExitIsFinal(s0, es, j + 1, k, env);
        assert false;
      }
      NotFailedBefore(s0, es, j, k, env);
      match fate.value {
        case SkippedFate =>
          var i := FailedAtSource(s0, es, j, env);
          NotFailedBefore(s0, es, i, k, env);
          assert false;
        case InterruptedFate(_, _) => assert false;
        case RemoveFailedFate(_, _) => assert false;
        case DoneFate(_, _, _) =>
          DesiredIsHealthy(reg, desired, b);
          FateDecidesNextGroup(reg, b, Before(s0, es, j, env), Before(s0, es, j + 1, env), SlotOf(b), fate.value);
          GroupForSame(Before(s0, es, j + 1, env).memory, end.memory, b);
      }
    }
  }

  /** An entry before one that was neither skipped nor cut off, and of lower order, did not fail. */
  lemma {:induction false} NotFailedBefore(s: Run, es: seq<Entry>, j: nat, k: nat, env: nat -> Outcome)
    requires Laid(es) && j < k < |es| && s.failedAt.None? && !Skips(Before(s, es, k, env), es[k].slot)
    requires es[j].slot.Ordered? && es[k].slot.Ordered? && es[j].slot.order < es[k].slot.order
    ensures !EntryFailed(s, es, j, env)
  {
    hide RunEntries;
    if EntryFailed(s, es, j, env) {
      FailureSticks(s, es, j, k, env);
    }
  }

  lemma {:induction false} DesiredIsHealthy(reg: Registry, desired: seq<Incoming>, d: Incoming)
    requires Consistent(reg, desired) && d in desired && GroupFor(reg, d) != []
    ensures Regular(GroupFor(reg, d)) && forall act :: act in GroupFor(reg, d) ==> HealthyPackage(act.pkg)
    ensures |GroupFor(reg, d)| == 1 ==> IsInstallOrUpdate(GroupFor(reg, d)[0].action)
  {
    GroupPackages(reg, d);
    GroupShape(reg, d);
    hide GroupFor;
  }

  /** What the next plan holds for `d`, and its reboot count, given its fate. */
  lemma {:induction false} FateInRun(reg: Registry, desired: seq<Incoming>, es: seq<Entry>, env: nat -> Outcome,
                                     d: Incoming)
    returns (k: nat, fate: Option<Fate>)
    requires Consistent(reg, desired) && IsSchedule(es, reg, desired)
    requires d in desired && GroupFor(reg, d) != []
    ensures RunFate(reg, es, env, d, k, fate)
    ensures var end := RunEntries(Start(reg), es, env);
            GroupFor(end.memory, d) ==
              if fate.None? then GroupFor(reg, d) else NextGroup(fate.value, GroupFor(reg, d), d)
    ensures fate == Some(SkippedFate) ==> !Pending(reg, d.name)
  {
    hide GroupFor, RunEntries, RunEntry;
    k, fate := FindFate(reg, desired, es, env, d);
    var s0, end := Start(reg), RunEntries(Start(reg), es, env);
    if fate.None? {
      GroupForSame(reg, end.memory, d);
    } else {
      DesiredIsHealthy(reg, desired, d);
      FateDecidesNextGroup(reg, d, Before(s0, es, k, env), Before(s0, es, k + 1, env), SlotOf(d), fate.value);
      GroupForSame(Before(s0, es, k + 1, env).memory, end.memory, d);
      if fate.value.SkippedFate? && Pending(reg, d.name) {
        PendingNeverSkipped(reg, desired, es, env, d, k);
      }
    }
  }

  /** The invariant is kept by every run, interrupted or not. */
  lemma {:induction false} RunKeepsConsistent(reg: Registry, desired: seq<Incoming>, es: seq<Entry>,
                                              env: nat -> Outcome)
    requires Consistent(reg, desired) && DistinctDesired(desired) && IsSchedule(es, reg, desired)
    ensures Consistent(RunEntries(Start(reg), es, env).memory, desired)
  {
    hide GroupFor, RunEntries, RunEntry;
    var s0, end := Start(reg), RunEntries(Start(reg), es, env);
    forall e, act | e in es && act in e.acts
      ensures HealthyPackage(act.pkg)
    {
      var i :| 0 <= i < |es| && es[i] == e;
      EntryIsHealthy(reg, desired, es[i]);
    }
    RunKeepsHealthy(reg, es, env);
    forall d | d in desired && |GroupFor(end.memory, d)| == 1
      ensures IsInstallOrUpdate(GroupFor(end.memory, d)[0].action)
    {
      RetriesAreInstalls(reg, desired, es, env, d);
    }
    forall a, b | a in desired && b in desired && PrecedesInOrder(b, a) && Pending(end.memory, a.name)
      ensures GroupFor(end.memory, b) == []
    {
      PendingPrecedes(reg, desired, es, env, a, b);
    }
  }

  lemma {:induction false} RetriesAreInstalls(reg: Registry, desired: seq<Incoming>, es: seq<Entry>,
                                              env: nat -> Outcome, d: Incoming)
    requires Consistent(reg, desired) && DistinctDesired(desired) && IsSchedule(es, reg, desired) && d in desired
    ensures var g := GroupFor(RunEntries(Start(reg), es, env).memory, d); |g| == 1 ==> IsInstallOrUpdate(g[0].action)
  {
    var end := RunEntries(Start(reg), es, env);
    hide RunEntries, RunEntry;
    if GroupFor(reg, d) == [] {
      IdleUntouched(reg, desired, es, env, d);
      GroupForSame(reg, end.memory, d);
    } else {
      GroupShape(reg, d);
      DesiredIsHealthy(reg, desired, d);
      var k, fate := FateInRun(reg, desired, es, env, d);
      if fate.Some? {
        assert fate.value.InterruptedFate? ==> fate.value.act in GroupFor(reg, d);
        NextGroupShape(fate.value, GroupFor(reg, d), d);
      }
    }
  }

  lemma {:induction false} PendingPrecedes(reg: Registry, desired: seq<Incoming>, es: seq<Entry>, env: nat -> Outcome,
                                           a: Incoming, b: Incoming)
    requires Consistent(reg, desired) && DistinctDesired(desired) && IsSchedule(es, reg, desired)
    requires a in desired && b in desired && PrecedesInOrder(b, a)
    requires Pending(RunEntries(Start(reg), es, env).memory, a.name)
    ensures GroupFor(RunEntries(Start(reg), es, env).memory, b) == []
  {
    var end := RunEntries(Start(reg), es, env);
    hide RunEntries, RunEntry;
    if Pending(reg, a.name) {
      assert GroupFor(reg, b) == [];
      hide GroupFor;
      IdleUntouched(reg, desired, es, env, b);
      GroupForSame(reg, end.memory, b);
    } else if GroupFor(reg, a) == [] {
      IdleUntouched(reg, desired, es, env, a);
      assert false;
    } else {
      GroupShape(reg, a);
      DesiredIsHealthy(reg, desired, a);
      hide GroupFor;
      var k, fate := FindFate(reg, desired, es, env, a);
      if fate.Some? {
        var s, s' := Before(Start(reg), es, k, env), Before(Start(reg), es, k + 1, env);
        CountAfterFate(fate.value, s, s', SlotOf(a), GroupFor(reg, a), a.name);
        if fate.value.InterruptedFate? {
          LowerOrdersDone(reg, desired, es, env, a, k, b);
        } else {
          assert false;
        }
      }
    }
  }

  // ----- Which names remain ---------------------------------------------------------------------------------------

  /** A name that is neither installed nor desired never appears. */
  lemma {:induction false} StrangerUntouched(reg: Registry, desired: seq<Incoming>, es: seq<Entry>,
                                             env: nat -> Outcome, n: string)
    requires Keyed(reg) && IsSchedule(es, reg, desired) && n !in reg && !IsDesired(desired, n)
    ensures n !in RunEntries(Start(reg), es, env).memory
    ensures forall r :: r in RunEntries(Start(reg), es, env).results ==> r.name != n
    ensures InstallCalls(RunEntries(Start(reg), es, env).log, n) == 0
  {
    hide GroupFor, RunEntries;
    forall k | 0 <= k < |es|
      ensures NameOf(es[k]) != n
    {
      EntryNames(reg, desired, es[k]);
    }
    var end := RunEntries(Start(reg), es, env);
    BeforeAll(Start(reg), es, env);
    Between(Start(reg), es, 0, |es|, env, n, reg, desired);
    InstallCallsOfOthers([], end.log, n);
  }

  /** Nothing is said or done about an application before its entry. */
  lemma {:induction false} BeforeEntry(reg: Registry, desired: seq<Incoming>, es: seq<Entry>, env: nat -> Outcome,
                                       k: nat)
    requires Keyed(reg) && IsSchedule(es, reg, desired) && k < |es|
    ensures SameAt(reg, Before(Start(reg), es, k, env).memory, NameOf(es[k]))
    ensures InstallCalls(Before(Start(reg), es, k, env).log, NameOf(es[k])) == 0
  {
    hide GroupFor, RunEntries;
    BeforeAll(Start(reg), es, env);
    Between(Start(reg), es, 0, k, env, NameOf(es[k]), reg, desired);
    InstallCallsOfOthers([], Before(Start(reg), es, k, env).log, NameOf(es[k]));
  }

  /** Nothing is said or done about an application after its entry. */
  lemma {:induction false} AfterEntry(reg: Registry, desired: seq<Incoming>, es: seq<Entry>, env: nat -> Outcome,
                                      k: nat)
    requires Keyed(reg) && IsSchedule(es, reg, desired) && k < |es|
    ensures var t', end := Before(Start(reg), es, k + 1, env), RunEntries(Start(reg), es, env);
            && SameAt(t'.memory, end.memory, NameOf(es[k]))
            && InstallCalls(end.log, NameOf(es[k])) == InstallCalls(t'.log, NameOf(es[k]))
            && (t'.exited ==> end == t') && (!end.exited ==> !t'.exited)
  {
    hide GroupFor, RunEntries;
    BeforeAll(Start(reg), es, env);
    Between(Start(reg), es, k + 1, |es|, env, NameOf(es[k]), reg, desired);
    InstallCallsOfOthers(Before(Start(reg), es, k + 1, env).log, RunEntries(Start(reg), es, env).log, NameOf(es[k]));
    if Before(Start(reg), es, k + 1, env).exited {
      ExitIsFinal(Start(reg), es, k + 1, |es|, env);
    }
  }

  datatype RemovalEnd = NotReached | CutOff(local: Local) | Gone

  /** What a run leaves of an installed application that is no longer desired: it was not reached and is unchanged, it
      was interrupted, which ends the run, or it is gone. No install command is ever called for it. */
  lemma {:induction false} RemovalOutcome(reg: Registry, desired: seq<Incoming>, es: seq<Entry>, env: nat -> Outcome,
                                          n: string)
    returns (k: nat, r: RemovalEnd)
    requires Keyed(reg) && IsSchedule(es, reg, desired) && n in reg && !IsDesired(desired, n)
    ensures k < |es| && NameOf(es[k]) == n
    ensures r == NotReached <==> Before(Start(reg), es, k, env).exited
    ensures r == Gone <==> !Before(Start(reg), es, k + 1, env).exited
    ensures var end, act := RunEntries(Start(reg), es, env), UninstallFor(reg[n]);
            && InstallCalls(end.log, n) == 0
            && (r != Gone ==> end.exited)
            && match r
               case NotReached =>
                 SameAt(reg, end.memory, n)
               case CutOff(local) =>
                 n in end.memory && end.memory[n] == InterruptedPackage(act, local)
                 && act.action == Remove && Invokes(act)
                 && end.log != [] && end.log[|end.log| - 1].act == act
               case Gone => n !in end.memory
  {
    var s0 := Start(reg);
    assert RemovalOf(reg[n]) in es;
    k :| 0 <= k < |es| && es[k] == RemovalOf(reg[n]);
    assert NameOf(es[k]) == n;
    hide *;
    BeforeEntry(reg, desired, es, env, k);
    AfterEntry(reg, desired, es, env, k);
    BeforeNext(s0, es, k, env);
    BeforeAll(s0, es, env);
    if Before(s0, es, k, env).exited {
      ExitIsFinal(s0, es, k, k + 1, env);
      r := NotReached;
    } else {
      var local := RemovalFate(Before(s0, es, k, env), reg[n], env);
      r := if Before(s0, es, k + 1, env).exited then CutOff(local) else Gone;
    }
  }

  /** After an uninterrupted run, whatever failed, the registry lists exactly the desired applications. */
  lemma {:induction false} NamesAfterRun(reg: Registry, desired: seq<Incoming>, es: seq<Entry>, env: nat -> Outcome,
                                         n: string)
    requires Consistent(reg, desired) && DistinctDesired(desired) && IsSchedule(es, reg, desired)
    requires !RunEntries(Start(reg), es, env).exited
    ensures n in RunEntries(Start(reg), es, env).memory <==> IsDesired(desired, n)
  {
    var s0, end := Start(reg), RunEntries(Start(reg), es, env);
    hide RunEntries, RunEntry;
    if IsDesired(desired, n) {
      var d :| d in desired && d.name == n;
      if GroupFor(reg, d) == [] {
        IdleUntouched(reg, desired, es, env, d);
      } else {
        hide GroupFor;
        var k, fate := FindFate(reg, desired, es, env, d);
        if fate.None? {
          ExitIsFinal(s0, es, k, |es|, env);
          BeforeAll(s0, es, env);
        }
      }
    } else if n in reg {
      var k, r := RemovalOutcome(reg, desired, es, env, n);
    } else {
      StrangerUntouched(reg, desired, es, env, n);
    }
  }

  // ----- What is planned next -------------------------------------------------------------------------------------

  /** The removal that had to precede an install failed or was skipped. */
  ghost predicate RemoveLegMissed(results: seq<OperationResult>, n: string) {
    exists r :: r in results && r.name == n && r.operation == RemoveForUpdate && r.verdict != Succeeded
  }

  /** Among the results of a run, those about `d` are the ones its entry reported. */
  lemma {:induction false} ResultsAbout(reg: Registry, desired: seq<Incoming>, es: seq<Entry>, env: nat -> Outcome,
                                        k: nat)
    requires Keyed(reg) && IsSchedule(es, reg, desired) && k < |es|
    ensures var t, t' := Before(Start(reg), es, k, env), Before(Start(reg), es, k + 1, env);
            var end := RunEntries(Start(reg), es, env);
            && t.results <= t'.results <= end.results
            && (forall i :: 0 <= i < |end.results| && end.results[i].name == NameOf(es[k]) ==>
              |t.results| <= i < |t'.results|)
  {
    hide GroupFor, RunEntries, RunEntry;
    BeforeAll(Start(reg), es, env);
    Between(Start(reg), es, 0, k, env, NameOf(es[k]), reg, desired);
    Between(Start(reg), es, k + 1, |es|, env, NameOf(es[k]), reg, desired);
    BeforeNext(Start(reg), es, k, env);
    EntryFrame(Before(Start(reg), es, k, env), es[k], env, reg, desired);
  }

  lemma {:induction false} ReplanIdle(reg: Registry, desired: seq<Incoming>, es: seq<Entry>, env: nat -> Outcome,
                                      d: Incoming)
    requires Consistent(reg, desired) && DistinctDesired(desired) && IsSchedule(es, reg, desired) && d in desired
    requires GroupFor(reg, d) == []
    ensures var end := RunEntries(Start(reg), es, env);
            GroupFor(end.memory, d) == [] && !RemoveLegMissed(end.results, d.name)
  {
    hide RunEntries, GroupFor;
    IdleUntouched(reg, desired, es, env, d);
    GroupForSame(reg, RunEntries(Start(reg), es, env).memory, d);
    IdleUnreported(reg, desired, es, env, d);
  }

  lemma {:induction false} ReplanWorked(reg: Registry, desired: seq<Incoming>, es: seq<Entry>, env: nat -> Outcome,
                                        d: Incoming)
    requires Consistent(reg, desired) && DistinctDesired(desired) && IsSchedule(es, reg, desired) && d in desired
    requires !RunEntries(Start(reg), es, env).exited && GroupFor(reg, d) != []
    ensures var end := RunEntries(Start(reg), es, env);
            && (GroupFor(end.memory, d) != [] <==> RemoveLegMissed(end.results, d.name))
            && (GroupFor(end.memory, d) != [] ==> |GroupFor(end.memory, d)| == 2)
  {
    var s0, end := Start(reg), RunEntries(Start(reg), es, env);
    GroupShape(reg, d);
    GroupNames(reg, d);
    DesiredIsHealthy(reg, desired, d);
    EntryName(reg, d);
    hide RunEntries, RunEntry, GroupFor, IsSchedule, Consistent, RemoveLegMissed, NextGroup, HasFate;
    var k, fate := FateInRun(reg, desired, es, env, d);
    ExitCarries(s0, es, k, env);
    NotInterrupted(fate.value, Before(s0, es, k, env), Before(s0, es, k + 1, env), SlotOf(d), GroupFor(reg, d), d.name);
    ResultsAbout(reg, desired, es, env, k);
    var t, t' := Before(s0, es, k, env), Before(s0, es, k + 1, env);
    MissedAfterFate(fate.value, t, t', SlotOf(d), GroupFor(reg, d), d, end.results);
  }

  lemma {:induction false} NotInterrupted(fate: Fate, s: Run, s': Run, slot: Slot, g: Group, n: string)
    requires g != [] && HasFate(fate, s, s', slot, g, n) && !s'.exited
    ensures !fate.InterruptedFate?
  {
  }

  /** A run that did not exit had not exited at any entry. */
  lemma {:induction false} ExitCarries(s: Run, es: seq<Entry>, k: nat, env: nat -> Outcome)
    requires k < |es| && !RunEntries(s, es, env).exited
    ensures !Before(s, es, k, env).exited && !Before(s, es, k + 1, env).exited
  {
    hide RunEntries;
    BeforeAll(s, es, env);
    if Before(s, es, k, env).exited {
      ExitIsFinal(s, es, k, |es|, env);
    }
    if Before(s, es, k + 1, env).exited {
      ExitIsFinal(s, es, k + 1, |es|, env);
    }
  }

  /** After an uninterrupted run the next plan has work for a desired application exactly when the removal leg of its
      pair failed or was skipped, and that work is again a pair. */
  lemma {:induction false} ReplanExact(reg: Registry, desired: seq<Incoming>, es: seq<Entry>, env: nat -> Outcome,
                                       d: Incoming)
    requires Consistent(reg, desired) && DistinctDesired(desired) && IsSchedule(es, reg, desired) && d in desired
    requires !RunEntries(Start(reg), es, env).exited
    ensures var end := RunEntries(Start(reg), es, env);
            && (GroupFor(end.memory, d) != [] <==> RemoveLegMissed(end.results, d.name))
            && (GroupFor(end.memory, d) != [] ==> |GroupFor(end.memory, d)| == 2)
  {
    hide *;
    if GroupFor(reg, d) == [] {
      ReplanIdle(reg, desired, es, env, d);
    } else {
      ReplanWorked(reg, desired, es, env, d);
    }
  }

  lemma {:induction false} MissedAfterFate(fate: Fate, t: Run, t': Run, slot: Slot, g: Group, d: Incoming,
                                           results: seq<OperationResult>)
    requires g != [] && HasFate(fate, t, t', slot, g, d.name) && !fate.InterruptedFate?
    requires t.results <= t'.results <= results
    requires forall i :: 0 <= i < |results| && results[i].name == d.name ==> |t.results| <= i < |t'.results|
    requires forall act :: act in g ==> act.pkg.name == d.name
    requires |g| <= 2 && (|g| == 2 ==> g[0].action == RemoveForUpdate && g[1].action == Install)
    requires |g| == 1 ==> IsInstallOrUpdate(g[0].action)
    requires fate.SkippedFate? && |g| != 2 ==> g[0].pkg.numReboots <= 0
    ensures NextGroup(fate, g, d) != [] <==> RemoveLegMissed(results, d.name)
    ensures NextGroup(fate, g, d) != [] ==> |NextGroup(fate, g, d)| == 2
  {
    hide InstallCalls, Skips, SkippedPackage, FinishedPackage, Invokes;
    assert g[0] in g && g[|g| - 1] in g;
    if NextGroup(fate, g, d) != [] {
      assert results[|t.results|] == t'.results[|t.results|];
      assert results[|t.results|] in results;
    }
    if RemoveLegMissed(results, d.name) {
      var r :| r in results && r.name == d.name && r.operation == RemoveForUpdate && r.verdict != Succeeded;
      var i :| 0 <= i < |results| && results[i] == r;
      assert results[i] == t'.results[i];
    }
  }

  lemma {:induction false} IdleUnreported(reg: Registry, desired: seq<Incoming>, es: seq<Entry>, env: nat -> Outcome,
                                          d: Incoming)
    requires Keyed(reg) && DistinctDesired(desired) && IsSchedule(es, reg, desired)
    requires d in desired && GroupFor(reg, d) == []
    ensures forall r :: r in RunEntries(Start(reg), es, env).results ==> r.name != d.name
  {
    hide GroupFor, RunEntries;
    IdleHasNoEntry(reg, desired, es, d);
    BeforeAll(Start(reg), es, env);
    Between(Start(reg), es, 0, |es|, env, d.name, reg, desired);
  }
}

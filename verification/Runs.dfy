/** What holds of every run: who may change which entry, what is on disk when, and what is reported. */
module Runs {
  import opened Options
  import opened Packages
  import opened Planning
  import opened Execution
  import opened Schedules

  // ----- Unfolding ----------------------------------------------------------------------------------

  /** The state before entry `k`. */
  ghost function Before(s: Run, es: seq<Entry>, k: nat, env: nat -> Outcome): Run
    requires k <= |es|
  {
    RunEntries(s, es[..k], env)
  }

  lemma {:induction false} BeforeNext(s: Run, es: seq<Entry>, k: nat, env: nat -> Outcome)
    requires k < |es|
    ensures Before(s, es, k + 1, env) == RunEntry(Before(s, es, k, env), es[k], env)
  {
    assert es[..k + 1][..k] == es[..k];
  }

  lemma {:induction false} BeforeAll(s: Run, es: seq<Entry>, env: nat -> Outcome)
    ensures Before(s, es, |es|, env) == RunEntries(s, es, env)
    ensures Before(s, es, 0, env) == s
  {
    assert es[..|es|] == es;
  }

  lemma {:induction false} RunOne(s: Run, slot: Slot, a: PlannedAction, env: nat -> Outcome)
    ensures RunActs(s, slot, [a], env) == RunAct(s, slot, a, env)
  {
    hide RunAct;
    assert [a][1..] == [];
  }

  lemma {:induction false} RunTwo(s: Run, slot: Slot, a: PlannedAction, b: PlannedAction, env: nat -> Outcome)
    ensures RunActs(s, slot, [a, b], env) ==
            var s' := RunAct(s, slot, a, env);
            if Stops(s') then s' else RunAct(s', slot, b, env)
  {
    hide RunAct;
    assert [a, b][1..] == [b];
    RunOne(RunAct(s, slot, a, env), slot, b, env);
  }

  /** A property of states that every action keeps is kept by whole runs. */
  lemma {:induction false} ActsInvariant(P: Run -> bool, s: Run, slot: Slot, acts: Group, env: nat -> Outcome)
    requires P(s) && !s.exited
    requires forall t: Run, act :: act in acts && !t.exited && P(t) ==> P(RunAct(t, slot, act, env))
    ensures P(RunActs(s, slot, acts, env))
    decreases acts
  {
    hide RunAct;
    if acts != [] {
      var s' := RunAct(s, slot, acts[0], env);
      assert acts[0] in acts;
      if !Stops(s') {
        ActsInvariant(P, s', slot, acts[1..], env);
      }
    }
  }

  lemma {:induction false} RunInvariant(P: Run -> bool, s: Run, es: seq<Entry>, env: nat -> Outcome)
    requires P(s)
    requires forall t: Run, e, act :: e in es && act in e.acts && !t.exited && P(t) ==> P(RunAct(t, e.slot, act, env))
    ensures P(RunEntries(s, es, env))
  {
    hide RunAct, RunActs;
    if es != [] {
      var front, e := es[..|es| - 1], es[|es| - 1];
      RunInvariant(P, s, front, env);
      var t := RunEntries(s, front, env);
      if !t.exited {
        assert e in es;
        ActsInvariant(P, t, e.slot, e.acts, env);
      }
    }
  }

  // ----- Write-ahead ----------------------------------------------------------------------------------

  /** The call was made with its intent already on disk. Memory differs from the disk at most in what preparation
      assigned to that one entry. */
  ghost predicate WrittenAhead(call: Invocation) {
    var name := call.act.pkg.name;
    && name in call.disk && call.disk[name] == call.act.pkg.(ongoing := call.act.action)
    && call.memory == call.disk[name := call.disk[name].(local := PreparedLocal(call.act, call.o))]
    && Invokes(call.act) && call.command == CommandOf(call.act)
  }

  ghost predicate DiskInStep(s: Run) {
    s.disk == s.memory && forall i :: 0 <= i < |s.log| ==> WrittenAhead(s.log[i])
  }

  lemma {:induction false} ActKeepsDiskInStep(s: Run, slot: Slot, act: PlannedAction, env: nat -> Outcome)
    requires DiskInStep(s) && !s.exited
    ensures DiskInStep(RunAct(s, slot, act, env))
  {
    hide FaultsOf, FinishedPackage, InterruptedPackage, SkippedPackage;
  }

  /** Whatever is executed, every command is called with its own intent on disk and with memory ahead of the disk only
      in what preparation assigned to that entry. After every action, finished, skipped or interrupted, the disk holds
      everything memory holds: a reboot exit loses no effect. */
  lemma {:induction false} WriteAhead(reg: Registry, es: seq<Entry>, env: nat -> Outcome)
    ensures var end := RunEntries(Start(reg), es, env);
            end.disk == end.memory && forall i :: 0 <= i < |end.log| ==> WrittenAhead(end.log[i])
  {
    forall t: Run, e, act | e in es && act in e.acts && !t.exited && DiskInStep(t)
      ensures DiskInStep(RunAct(t, e.slot, act, env))
    {
      ActKeepsDiskInStep(t, e.slot, act, env);
    }
    hide RunAct;
    RunInvariant(t => DiskInStep(t), Start(reg), es, env);
  }

  /** Preparation is not written before the call: disk and memory are the same registry exactly when preparation assigns
      what is recorded already. A first install or update never does. */
  lemma {:induction false} CallSeesWholeDiskIff(call: Invocation)
    requires WrittenAhead(call)
    ensures call.disk == call.memory <==> PreparedLocal(call.act, call.o) == call.act.pkg.local
    ensures forall n :: n != call.act.pkg.name ==> SameAt(call.disk, call.memory, n)
    ensures (exists d :: call.act.pkg == FromIncoming(d)) ==> call.disk != call.memory
  {
    var name := call.act.pkg.name;
    if PreparedLocal(call.act, call.o) == call.act.pkg.local {
      assert call.memory == call.disk;
    } else {
      assert call.memory[name].local != call.disk[name].local;
    }
    if d :| call.act.pkg == FromIncoming(d) {
      assert |PreparedLocal(call.act, call.o).downloadDir| > 0;
    }
  }

  // ----- Deployment failure ---------------------------------------------------------------------------

  ghost predicate IsFailedDeployment(r: OperationResult) {
    r.verdict.Errored? && r.treatFailure && (r.operation == Install || r.operation == Update)
  }

  /** The failed deployments among the reported results, in order. */
  ghost function FailedDeployments(results: seq<OperationResult>): seq<string> {
    if results == [] then []
    else
      var last := results[|results| - 1];
      FailedDeployments(results[..|results| - 1]) + (if IsFailedDeployment(last) then [last.name] else [])
  }

  ghost function ReportedFaults(results: seq<OperationResult>): seq<Fault> {
    if results == [] then []
    else
      var last := results[|results| - 1];
      ReportedFaults(results[..|results| - 1]) + (if last.verdict.Errored? then last.verdict.faults else [])
  }

  ghost predicate ErrorsMatchResults(s: Run) {
    && s.failedApps == (if FailedDeployments(s.results) == [] then None else Some(FailedDeployments(s.results)))
    && s.faults == ReportedFaults(s.results)
  }

  lemma {:induction false} ReportsSnoc(results: seq<OperationResult>, r: OperationResult)
    ensures FailedDeployments(results + [r]) ==
              FailedDeployments(results) + (if IsFailedDeployment(r) then [r.name] else [])
    ensures ReportedFaults(results + [r]) ==
              ReportedFaults(results) + (if r.verdict.Errored? then r.verdict.faults else [])
  {
    assert (results + [r])[..|results|] == results;
  }

  lemma {:induction false} ActKeepsErrorsMatch(s: Run, slot: Slot, act: PlannedAction, env: nat -> Outcome)
    requires ErrorsMatchResults(s) && !s.exited
    ensures ErrorsMatchResults(RunAct(s, slot, act, env))
  {
    hide FailedDeployments, ReportedFaults, Helper;
    HelperKeepsReports(s, act, env(|s.results|));
    if Skips(s, slot) {
      ReportsSnoc(s.results, ResultOf(act, SkippedLowerOrder));
      assert FailedDeployments(s.results) + [] == FailedDeployments(s.results);
      assert ReportedFaults(s.results) + [] == ReportedFaults(s.results);
    } else {
      var faults := Helper(s, act, env(|s.results|)).1;
      ReportsSnoc(s.results, ResultOf(act, VerdictOf(faults)));
      if !CountsAsDeploymentFailure(act, faults) {
        assert FailedDeployments(s.results) + [] == FailedDeployments(s.results);
      } else if s.failedApps.None? {
        assert [] + [act.pkg.name] == [act.pkg.name];
      }
    }
  }

  /** The deployment error names exactly the failed Install and Update results marked as fatal, in order, over all
      phases; it is nil when there are none, and skipped results never count. */
  lemma {:induction false} DeploymentFailureExact(reg: Registry, es: seq<Entry>, env: nat -> Outcome)
    ensures var end := RunEntries(Start(reg), es, env);
            && (end.failedApps.None? <==> forall r :: r in end.results ==> !IsFailedDeployment(r))
            && (end.failedApps.Some? ==> end.failedApps.value == FailedDeployments(end.results))
            && end.faults == ReportedFaults(end.results)
  {
    forall t: Run, e, act | e in es && act in e.acts && !t.exited && ErrorsMatchResults(t)
      ensures ErrorsMatchResults(RunAct(t, e.slot, act, env))
    {
      ActKeepsErrorsMatch(t, e.slot, act, env);
    }
    hide RunAct;
    RunInvariant(t => ErrorsMatchResults(t), Start(reg), es, env);
    NoFailedDeployments(RunEntries(Start(reg), es, env).results);
  }

  lemma {:induction false} NoFailedDeployments(results: seq<OperationResult>)
    ensures FailedDeployments(results) == [] <==> forall r :: r in results ==> !IsFailedDeployment(r)
  {
    if results != [] {
      var front, last := results[..|results| - 1], results[|results| - 1];
      NoFailedDeployments(front);
      assert results == front + [last];
      assert last in results && forall r :: r in results <==> r in front || r == last;
    }
  }

  // ----- Frames -----------------------------------------------------------------------------------------

  ghost predicate SameAt(m: Registry, m': Registry, n: string) {
    (n in m <==> n in m') && (n in m ==> m[n] == m'[n])
  }

  /** From `s` to `s'` only application `name` was changed, reported on or run. */
  ghost predicate OnlyAbout(s: Run, s': Run, name: string) {
    && (forall n :: n != name ==> SameAt(s.memory, s'.memory, n))
    && s.results <= s'.results && s.log <= s'.log
    && (forall i :: |s.results| <= i < |s'.results| ==> s'.results[i].name == name)
    && (forall i :: |s.log| <= i < |s'.log| ==> s'.log[i].act.pkg.name == name)
  }

  lemma {:induction false} HelperFrame(s: Run, act: PlannedAction, o: Outcome)
    ensures var s' := Helper(s, act, o).0;
            && (forall n :: n != act.pkg.name ==> SameAt(s.memory, s'.memory, n))
            && s.log <= s'.log && (forall i :: |s.log| <= i < |s'.log| ==> s'.log[i].act == act)
  {
    hide FaultsOf, FinishedPackage, InterruptedPackage;
  }

  lemma {:induction false} ActFrame(s: Run, slot: Slot, act: PlannedAction, env: nat -> Outcome)
    ensures OnlyAbout(s, RunAct(s, slot, act, env), act.pkg.name)
  {
    HelperFrame(s, act, env(|s.results|));
    HelperKeepsReports(s, act, env(|s.results|));
    hide Helper;
  }

  lemma {:induction false} OnlyAboutTrans(s: Run, s': Run, s'': Run, name: string)
    requires OnlyAbout(s, s', name) && OnlyAbout(s', s'', name)
    ensures OnlyAbout(s, s'', name)
  {
    forall n | n != name
      ensures SameAt(s.memory, s''.memory, n)
    {
      assert SameAt(s.memory, s'.memory, n) && SameAt(s'.memory, s''.memory, n);
    }
  }

  lemma {:induction false} ActsFrame(s: Run, slot: Slot, acts: Group, env: nat -> Outcome, name: string)
    requires forall act :: act in acts ==> act.pkg.name == name
    ensures OnlyAbout(s, RunActs(s, slot, acts, env), name)
    decreases acts
  {
    hide RunAct;
    if acts != [] {
      var s' := RunAct(s, slot, acts[0], env);
      ActFrame(s, slot, acts[0], env);
      if !Stops(s') {
        ActsFrame(s', slot, acts[1..], env, name);
        OnlyAboutTrans(s, s', RunActs(s', slot, acts[1..], env), name);
      }
    }
  }

  lemma {:induction false} EntryFrame(s: Run, e: Entry, env: nat -> Outcome, reg: Registry, desired: seq<Incoming>)
    requires Keyed(reg) && IsEntry(reg, desired, e)
    ensures OnlyAbout(s, RunEntry(s, e, env), NameOf(e))
  {
    hide RunActs;
    EntryNames(reg, desired, e);
    ActsFrame(s, e.slot, e.acts, env, NameOf(e));
  }

  /** Between two entries nothing about other applications changes. */
  lemma {:induction false} Between(s: Run, es: seq<Entry>, i: nat, j: nat, env: nat -> Outcome, n: string,
                                   reg: Registry, desired: seq<Incoming>)
    requires Keyed(reg) && (forall k :: 0 <= k < |es| ==> IsEntry(reg, desired, es[k]))
    requires i <= j <= |es| && forall k :: i <= k < j ==> NameOf(es[k]) != n
    ensures SameAt(Before(s, es, i, env).memory, Before(s, es, j, env).memory, n)
    ensures Before(s, es, i, env).results <= Before(s, es, j, env).results
    ensures forall k :: |Before(s, es, i, env).results| <= k < |Before(s, es, j, env).results|
                        ==> Before(s, es, j, env).results[k].name != n
    ensures Before(s, es, i, env).log <= Before(s, es, j, env).log
    ensures forall k :: |Before(s, es, i, env).log| <= k < |Before(s, es, j, env).log|
                        ==> Before(s, es, j, env).log[k].act.pkg.name != n
    decreases j
  {
    hide RunEntry, IsEntry;
    if i < j {
      Between(s, es, i, j - 1, env, n, reg, desired);
      BeforeNext(s, es, j - 1, env);
      EntryFrame(Before(s, es, j - 1, env), es[j - 1], env, reg, desired);
      assert SameAt(Before(s, es, j - 1, env).memory, Before(s, es, j, env).memory, n);
    }
  }

  lemma {:induction false} ExitIsFinal(s: Run, es: seq<Entry>, i: nat, j: nat, env: nat -> Outcome)
    requires i <= j <= |es| && Before(s, es, i, env).exited
    ensures Before(s, es, j, env) == Before(s, es, i, env)
    decreases j
  {
    if i < j {
      BeforeNext(s, es, j - 1, env);
      ExitIsFinal(s, es, i, j - 1, env);
    }
  }

  // ----- Skipping ---------------------------------------------------------------------------------------

  /** Entry `k` ended with an error. */
  ghost predicate EntryFailed(s: Run, es: seq<Entry>, k: nat, env: nat -> Outcome)
    requires k < |es|
  {
    var t, t' := Before(s, es, k, env), Before(s, es, k + 1, env);
    !t'.exited && |t'.results| > |t.results| && t'.results[|t'.results| - 1].verdict.Errored?
  }

  /** The reference condition for skipping: an earlier entry of lower order failed. */
  ghost predicate LowerOrderFailedBefore(s: Run, es: seq<Entry>, k: nat, env: nat -> Outcome)
    requires k < |es|
  {
    exists j :: 0 <= j < k && es[j].slot.Ordered? && es[k].slot.Ordered?
                && es[j].slot.order < es[k].slot.order && EntryFailed(s, es, j, env)
  }

  lemma {:induction false} ActFailedAt(s: Run, slot: Slot, act: PlannedAction, env: nat -> Outcome)
    requires !s.exited
    ensures var s' := RunAct(s, slot, act, env);
            && (s'.exited ==> s'.failedAt == s.failedAt && s'.results == s.results)
            && (!s'.exited ==> |s'.results| == |s.results| + 1 && s.results <= s'.results)
            && (!s'.exited ==>
                  s'.failedAt == (if slot.Ordered? && s'.results[|s.results|].verdict.Errored? then Some(slot.order)
                                  else s.failedAt))
            && (Skips(s, slot) ==> !s'.exited && s'.results[|s.results|].verdict == SkippedLowerOrder)
            && (!Skips(s, slot) && !s'.exited ==> s'.results[|s.results|].verdict != SkippedLowerOrder)
  {
    HelperKeepsReports(s, act, env(|s.results|));
    hide Helper;
  }

  lemma {:induction false} ActsFailedAt(s: Run, slot: Slot, acts: Group, env: nat -> Outcome)
    requires !s.exited && acts != []
    ensures var s' := RunActs(s, slot, acts, env);
            && s.results <= s'.results
            && (!s'.exited ==> |s'.results| > |s.results|)
            && s'.failedAt == (if slot.Ordered? && !s'.exited && s'.results[|s'.results| - 1].verdict.Errored?
                               then Some(slot.order) else s.failedAt)
    decreases acts
  {
    hide RunAct;
    ActFailedAt(s, slot, acts[0], env);
    var s' := RunAct(s, slot, acts[0], env);
    if !Stops(s') && acts[1..] != [] {
      ActsFailedAt(s', slot, acts[1..], env);
    } else {
      assert RunActs(s', slot, [], env) == s';
    }
  }

  lemma {:induction false} EntryFailedAt(s: Run, es: seq<Entry>, k: nat, env: nat -> Outcome)
    requires k < |es| && es[k].acts != []
    ensures Before(s, es, k + 1, env).failedAt ==
            if es[k].slot.Ordered? && EntryFailed(s, es, k, env) then Some(es[k].slot.order)
            else Before(s, es, k, env).failedAt
  {
    hide RunActs;
    BeforeNext(s, es, k, env);
    var t := Before(s, es, k, env);
    if !t.exited {
      ActsFailedAt(t, es[k].slot, es[k].acts, env);
    }
  }

  ghost predicate Laid(es: seq<Entry>) {
    && (forall i :: 0 <= i < |es| ==> es[i].acts != [])
    && (forall i, j :: 0 <= i < j < |es| ==> SlotLeq(es[i].slot, es[j].slot))
  }

  lemma {:induction false} LaidHasActs(es: seq<Entry>, k: nat)
    requires Laid(es) && k < |es|
    ensures es[k].acts != []
  {
  }

  /** A skipped entry reports nothing but skips, so it has not failed. */
  lemma {:induction false} SkippedEntry(s: Run, es: seq<Entry>, k: nat, env: nat -> Outcome)
    requires k < |es| && es[k].acts != [] && !Before(s, es, k, env).exited && Skips(Before(s, es, k, env), es[k].slot)
    ensures Before(s, es, k + 1, env) == SkipStep(Before(s, es, k, env), es[k].acts[0])
    ensures !EntryFailed(s, es, k, env)
  {
    BeforeNext(s, es, k, env);
    hide SkippedPackage;
  }

  lemma {:induction false} FailedNotSkipped(s: Run, es: seq<Entry>, k: nat, env: nat -> Outcome)
    requires k < |es| && es[k].acts != [] && EntryFailed(s, es, k, env)
    ensures !Before(s, es, k, env).exited && !Skips(Before(s, es, k, env), es[k].slot)
  {
    if Before(s, es, k, env).exited {
      ExitIsFinal(s, es, k, k + 1, env);
    } else if Skips(Before(s, es, k, env), es[k].slot) {
      SkippedEntry(s, es, k, env);
    }
  }

  /** The recorded order is that of an entry that failed. */
  lemma {:induction false} FailedAtSource(s: Run, es: seq<Entry>, k: nat, env: nat -> Outcome) returns (j: nat)
    requires Laid(es) && k <= |es| && s.failedAt.None? && Before(s, es, k, env).failedAt.Some?
    ensures j < k && es[j].slot == Ordered(Before(s, es, k, env).failedAt.value) && EntryFailed(s, es, j, env)
    decreases k
  {
    hide *;
    j := 0;
    BeforeAll(s, es, env);
    if k > 0 {
      LaidHasActs(es, k - 1);
      EntryFailedAt(s, es, k - 1, env);
      if es[k - 1].slot.Ordered? && EntryFailed(s, es, k - 1, env) {
        j := k - 1;
      } else {
        j := FailedAtSource(s, es, k - 1, env);
      }
    }
  }

  /** Once an order has failed it stays the recorded one. */
  lemma {:induction false} FailureSticks(s: Run, es: seq<Entry>, j: nat, k: nat, env: nat -> Outcome)
    requires Laid(es) && j < k <= |es| && es[j].slot.Ordered? && EntryFailed(s, es, j, env)
    ensures Before(s, es, k, env).failedAt == Some(es[j].slot.order)
    decreases k
  {
    hide RunEntry, RunEntries;
    EntryFailedAt(s, es, k - 1, env);
    if j < k - 1 {
      FailureSticks(s, es, j, k - 1, env);
      if es[k - 1].slot.Ordered? && EntryFailed(s, es, k - 1, env) {
        FailedNotSkipped(s, es, k - 1, env);
        assert SlotLeq(es[j].slot, es[k - 1].slot);
      }
    }
  }

  /** An entry is skipped exactly when an earlier entry of lower order failed. */
  lemma {:induction false} SkippedIffLowerOrderFailed(s: Run, es: seq<Entry>, k: nat, env: nat -> Outcome)
    requires Laid(es) && k < |es| && s.failedAt.None? && !Before(s, es, k, env).exited
    ensures Skips(Before(s, es, k, env), es[k].slot) <==> LowerOrderFailedBefore(s, es, k, env)
  {
    hide RunEntry, RunEntries;
    if Skips(Before(s, es, k, env), es[k].slot) {
      var j := FailedAtSource(s, es, k, env);
    }
    if LowerOrderFailedBefore(s, es, k, env) {
      var j :| 0 <= j < k && es[j].slot.Ordered? && es[k].slot.Ordered?
               && es[j].slot.order < es[k].slot.order && EntryFailed(s, es, j, env);
      FailureSticks(s, es, j, k, env);
    }
  }

  lemma {:induction false} PerformedAct(s: Run, slot: Slot, act: PlannedAction, env: nat -> Outcome)
    requires !s.exited && !Skips(s, slot)
    ensures var s' := RunAct(s, slot, act, env);
            && (Invokes(act) ==> |s'.log| == |s.log| + 1 && s'.log[|s.log|].act == act)
            && (!Invokes(act) ==> s'.log == s.log)
  {
    hide FaultsOf, FinishedPackage, InterruptedPackage;
  }

  /** The fate of entry `k` of a run that reached it. If an earlier entry of lower order failed, none of its commands
      runs and it leaves exactly one Skipped result and one Skipped registry entry. Otherwise its first action is
      attempted, and a later action of the group is called only after the first one succeeded. */
  lemma {:induction false} ExecutionTrace(s: Run, es: seq<Entry>, k: nat, env: nat -> Outcome)
    requires Laid(es) && k < |es| && s.failedAt.None? && !Before(s, es, k, env).exited
    requires |es[k].acts| <= 2
    ensures var t, t', acts := Before(s, es, k, env), Before(s, es, k + 1, env), es[k].acts;
            if LowerOrderFailedBefore(s, es, k, env) then
              && t'.log == t.log
              && t'.results == t.results + [ResultOf(acts[0], SkippedLowerOrder)]
              && t'.memory == t.memory[acts[0].pkg.name := acts[0].pkg.(ongoing := Skipped, note := LowerOrderFailed)]
              && t'.disk == t'.memory
            else
              && t.log <= t'.log && t.results <= t'.results
              && (Invokes(acts[0]) ==> |t'.log| > |t.log| && t'.log[|t.log|].act == acts[0])
              && (!t'.exited ==> |t'.results| > |t.results| && t'.results[|t.results|].verdict != SkippedLowerOrder)
              && (forall i :: |t.log| <= i < |t'.log| && t'.log[i].act != acts[0] ==>
                    |t'.results| > |t.results| && t'.results[|t.results|].verdict == Succeeded)
  {
    SkippedIffLowerOrderFailed(s, es, k, env);
    BeforeNext(s, es, k, env);
    var t, acts := Before(s, es, k, env), es[k].acts;
    if Skips(t, es[k].slot) {
      SkippedEntry(s, es, k, env);
    } else {
      hide RunAct, Invokes;
      var t1 := RunAct(t, es[k].slot, acts[0], env);
      ActFrame(t, es[k].slot, acts[0], env);
      ActFailedAt(t, es[k].slot, acts[0], env);
      PerformedAct(t, es[k].slot, acts[0], env);
      if |acts| == 1 {
        assert acts == [acts[0]];
        RunOne(t, es[k].slot, acts[0], env);
      } else {
        assert acts == [acts[0], acts[1]];
        RunTwo(t, es[k].slot, acts[0], acts[1], env);
        ActFrame(t1, es[k].slot, acts[1], env);
      }
    }
  }
}

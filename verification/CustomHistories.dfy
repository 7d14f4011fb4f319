/** Custom actions over sequences of runs: at most once, in tick order, and nothing lost while ticks are distinct. */
module CustomHistories {
  import opened Options
  import opened Packages
  import opened CustomActions

  /** Tick counts are 64-bit. */
  ghost predicate TicksFit(actions: seq<CustomAction>) {
    forall i :: 0 <= i < |actions| ==> actions[i].setting.tick <= MAX_UINT64
  }

  lemma {:induction false} AboveMembers(actions: seq<CustomAction>, tick: nat)
    ensures forall a :: a in Above(actions, tick) <==> a in actions && a.setting.tick > tick
  {
    if actions != [] {
      var front, last := actions[..|actions| - 1], actions[|actions| - 1];
      assert actions == front + [last];
      AboveMembers(front, tick);
    }
  }

  lemma {:induction false} AboveMultiset(actions: seq<CustomAction>, tick: nat, a: CustomAction)
    ensures multiset(Above(actions, tick))[a] == if a.setting.tick > tick then multiset(actions)[a] else 0
  {
    if actions == [] {
      assert Above(actions, tick) == [];
    } else {
      var front, last := actions[..|actions| - 1], actions[|actions| - 1];
      assert actions == front + [last];
      AboveMultiset(front, tick, a);
      assert multiset(actions) == multiset(front) + multiset{last};
      assert multiset(Above(front, tick) + [last]) == multiset(Above(front, tick)) + multiset{last};
      assert Above(front, tick) + [] == Above(front, tick);
    }
  }

  lemma {:induction false} PlanMembers(plan: seq<CustomAction>, settings: seq<AppSetting>, reg: Registry,
                                       file: Option<string>)
    requires IsPlan(plan, settings, reg, file)
    ensures forall a :: a in plan <==> a in Listed(settings, reg) && a.setting.tick > ReadTick(file)
  {
    AboveMembers(Listed(settings, reg), ReadTick(file));
    forall a
      ensures a in plan <==> a in Above(Listed(settings, reg), ReadTick(file))
    {
      assert a in multiset(plan) <==> a in multiset(Above(Listed(settings, reg), ReadTick(file)));
    }
  }

  // ----- The recorded tick ------------------------------------------------------------------------------------

  /** The threshold after a run: the tick of the last completed action, or unchanged when none completed. */
  lemma {:induction false} TickAfterRun(file: Option<string>, plan: seq<CustomAction>, env: nat -> Ending)
    requires TicksFit(plan)
    ensures CompletedCount(plan, env) <= |plan|
    ensures ReadTick(FileAfter(file, plan, env)) ==
            if CompletedCount(plan, env) == 0 then ReadTick(file) else plan[CompletedCount(plan, env) - 1].setting.tick
  {
    CompletedBounds(|plan|, env, 0);
    var k := CompletedCount(plan, env);
    if k > 0 {
      TickRoundTrip(plan[k - 1].setting.tick);
    }
  }

  /** The threshold never decreases, whatever the plan's actions do, and exceeds no completed action's tick by accident:
      all completed actions are at or below it, all others of a distinct tick above. */
  lemma {:induction false} RunRaisesTick(settings: seq<AppSetting>, reg: Registry, file: Option<string>,
                                         plan: seq<CustomAction>, env: nat -> Ending)
    requires IsPlan(plan, settings, reg, file) && TicksFit(plan)
    ensures CompletedCount(plan, env) <= |plan|
    ensures ReadTick(FileAfter(file, plan, env)) >= ReadTick(file)
    ensures CompletedCount(plan, env) > 0 ==> ReadTick(FileAfter(file, plan, env)) > ReadTick(file)
    ensures forall i :: 0 <= i < CompletedCount(plan, env) ==>
              plan[i].setting.tick <= ReadTick(FileAfter(file, plan, env))
  {
    SortedBelow(plan, settings, reg, file);
    hide *;
    TickAfterRun(file, plan, env);
    PlanMembers(plan, settings, reg, file);
    assert CompletedCount(plan, env) > 0 ==> plan[CompletedCount(plan, env) - 1] in plan;
  }

  lemma {:induction false} SortedBelow(plan: seq<CustomAction>, settings: seq<AppSetting>, reg: Registry,
                                       file: Option<string>)
    requires IsPlan(plan, settings, reg, file)
    ensures forall i, j :: 0 <= i <= j < |plan| ==> plan[i].setting.tick <= plan[j].setting.tick
  {
    hide Above, Listed, ReadTick;
    forall i, j | 0 <= i <= j < |plan|
      ensures plan[i].setting.tick <= plan[j].setting.tick
    {
      assert i < j ==> TickOf(plan[i]) <= TickOf(plan[j]);
    }
  }

  // ----- Histories ----------------------------------------------------------------------------------------------

  datatype CustomRun = CustomRun(settings: seq<AppSetting>, reg: Registry, plan: seq<CustomAction>, env: nat -> Ending)

  ghost predicate ValidHistory(file: Option<string>, runs: seq<CustomRun>)
    decreases runs
  {
    runs == [] ||
    (&& IsPlan(runs[0].plan, runs[0].settings, runs[0].reg, file) && TicksFit(runs[0].plan)
     && CompletedCount(runs[0].plan, runs[0].env) <= |runs[0].plan|
     && ValidHistory(FileAfter(file, runs[0].plan, runs[0].env), runs[1..]))
  }

  ghost function EndFile(file: Option<string>, runs: seq<CustomRun>): Option<string>
    requires ValidHistory(file, runs)
    decreases runs
  {
    if runs == [] then file else EndFile(FileAfter(file, runs[0].plan, runs[0].env), runs[1..])
  }

  /** The actions completed over all runs, in the order of completion. */
  ghost function CompletedIn(file: Option<string>, runs: seq<CustomRun>): seq<CustomAction>
    requires ValidHistory(file, runs)
    decreases runs
  {
    if runs == [] then []
    else
      runs[0].plan[..CompletedCount(runs[0].plan, runs[0].env)]
      + CompletedIn(FileAfter(file, runs[0].plan, runs[0].env), runs[1..])
  }

  /** Over any history, with settings and registry changing freely, the recorded tick never decreases, and every
      completed action is at or below it and above where the history started. */
  lemma {:induction false} CompletedStayBelowTick(file: Option<string>, runs: seq<CustomRun>)
    requires ValidHistory(file, runs)
    ensures ReadTick(EndFile(file, runs)) >= ReadTick(file)
    ensures forall a :: a in CompletedIn(file, runs) ==>
              ReadTick(file) < a.setting.tick <= ReadTick(EndFile(file, runs))
    decreases runs
  {
    if runs != [] {
      var r := runs[0];
      var next := FileAfter(file, r.plan, r.env);
      RunRaisesTick(r.settings, r.reg, file, r.plan, r.env);
      PlanMembers(r.plan, r.settings, r.reg, file);
      CompletedStayBelowTick(next, runs[1..]);
      var done := r.plan[..CompletedCount(r.plan, r.env)];
      forall a | a in CompletedIn(file, runs)
        ensures ReadTick(file) < a.setting.tick <= ReadTick(EndFile(file, runs))
      {
        if a in done {
          var i :| 0 <= i < |done| && done[i] == a;
          assert r.plan[i] in r.plan;
        } else {
          assert a in CompletedIn(next, runs[1..]);
        }
      }
    }
  }

  /** At most once: an action completed in some run, success or failure, is in no later plan, whatever the settings. */
  lemma {:induction false} CompletedNeverPlannedAgain(file: Option<string>, runs: seq<CustomRun>, a: CustomAction,
                                                      settings: seq<AppSetting>, reg: Registry, plan: seq<CustomAction>)
    requires ValidHistory(file, runs) && a in CompletedIn(file, runs)
    requires IsPlan(plan, settings, reg, EndFile(file, runs))
    ensures a !in plan
  {
    CompletedStayBelowTick(file, runs);
    PlanMembers(plan, settings, reg, EndFile(file, runs));
  }

  // ----- Fixed settings: nothing lost ------------------------------------------------------------------------------

  lemma {:induction false} TailMultiset(plan: seq<CustomAction>, k: nat, a: CustomAction)
    requires SortedByTick(plan) && 0 < k <= |plan|
    requires k < |plan| ==> plan[k - 1].setting.tick < plan[k].setting.tick
    ensures multiset(plan[k..])[a] == if a.setting.tick > plan[k - 1].setting.tick then multiset(plan)[a] else 0
  {
    assert plan == plan[..k] + plan[k..];
    assert multiset(plan) == multiset(plan[..k]) + multiset(plan[k..]);
    if a in plan[..k] {
      var i :| 0 <= i < k && plan[i] == a;
      assert i < k - 1 ==> TickOf(plan[i]) <= TickOf(plan[k - 1]);
    }
    if a in plan[k..] {
      var i :| k <= i < |plan| && plan[i] == a;
      assert k < i ==> TickOf(plan[k]) <= TickOf(plan[i]);
    }
    assert a !in plan[..k] ==> a !in multiset(plan[..k]);
    assert a !in plan[k..] ==> a !in multiset(plan[k..]);
  }

  lemma {:induction false} CountAbove(all: seq<CustomAction>, low: nat, plan: seq<CustomAction>, k: nat,
                                      a: CustomAction)
    requires SortedByTick(plan) && multiset(plan) == multiset(Above(all, low))
    requires 0 < k <= |plan| && low < plan[k - 1].setting.tick
    requires k < |plan| ==> plan[k - 1].setting.tick < plan[k].setting.tick
    ensures multiset(Above(all, plan[k - 1].setting.tick))[a] == multiset(plan[k..])[a]
  {
    hide *;
    TailMultiset(plan, k, a);
    AboveMultiset(all, low, a);
    AboveMultiset(all, plan[k - 1].setting.tick, a);
  }

  lemma {:induction false} CountsAbove(all: seq<CustomAction>, low: nat, plan: seq<CustomAction>, k: nat)
    requires SortedByTick(plan) && multiset(plan) == multiset(Above(all, low))
    requires 0 < k <= |plan| && low < plan[k - 1].setting.tick
    requires k < |plan| ==> plan[k - 1].setting.tick < plan[k].setting.tick
    ensures multiset(Above(all, plan[k - 1].setting.tick)) == multiset(plan[k..])
  {
    hide *;
    var above, rest := multiset(Above(all, plan[k - 1].setting.tick)), multiset(plan[k..]);
    forall a
      ensures above[a] == rest[a]
    {
      CountAbove(all, low, plan, k, a);
    }
  }

  lemma {:induction false} PlannedIsAbove(settings: seq<AppSetting>, reg: Registry, file: Option<string>,
                                          plan: seq<CustomAction>, i: nat)
    requires IsPlan(plan, settings, reg, file) && i < |plan|
    ensures ReadTick(file) < plan[i].setting.tick
  {
    hide *;
    PlanMembers(plan, settings, reg, file);
    assert plan[i] in plan;
  }

  lemma {:induction false} RestIsAbove(settings: seq<AppSetting>, reg: Registry, file: Option<string>,
                                       plan: seq<CustomAction>, k: nat, tick: nat)
    requires IsPlan(plan, settings, reg, file) && 0 < k <= |plan| && tick == plan[k - 1].setting.tick
    requires k < |plan| ==> plan[k - 1].setting.tick < plan[k].setting.tick
    ensures multiset(Above(Listed(settings, reg), tick)) == multiset(plan[k..])
  {
    PlannedIsAbove(settings, reg, file, plan, k - 1);
    hide Above, Listed, SortedByTick, ReadTick;
    CountsAbove(Listed(settings, reg), ReadTick(file), plan, k);
  }

  lemma {:induction false} SameTickSameMembers(settings: seq<AppSetting>, reg: Registry, plan: seq<CustomAction>,
                                               next: seq<CustomAction>,
                                               file: Option<string>, file': Option<string>)
    requires IsPlan(plan, settings, reg, file) && IsPlan(next, settings, reg, file')
    requires ReadTick(file) == ReadTick(file')
    ensures multiset(next) == multiset(plan)
  {
    hide Above, Listed, ReadTick, SortedByTick;
  }

  lemma {:induction false} HigherTickIsKept(settings: seq<AppSetting>, reg: Registry, plan: seq<CustomAction>,
                                            next: seq<CustomAction>,
                                            file: Option<string>, file': Option<string>, k: nat)
    requires IsPlan(plan, settings, reg, file) && IsPlan(next, settings, reg, file')
    requires 0 < k <= |plan| && ReadTick(file') == plan[k - 1].setting.tick
    requires k < |plan| ==> plan[k - 1].setting.tick < plan[k].setting.tick
    ensures multiset(next) == multiset(plan[k..])
  {
    hide Above, Listed, ReadTick, SortedByTick;
    RestIsAbove(settings, reg, file, plan, k, plan[k - 1].setting.tick);
  }

  lemma {:induction false} SharedTickIsLost(settings: seq<AppSetting>, reg: Registry, plan: seq<CustomAction>,
                                            next: seq<CustomAction>,
                                            file': Option<string>, k: nat)
    requires IsPlan(next, settings, reg, file')
    requires 0 < k < |plan| && plan[k].setting.tick <= plan[k - 1].setting.tick == ReadTick(file')
    ensures plan[k] !in next && multiset(next) != multiset(plan[k..])
  {
    hide *;
    PlanMembers(next, settings, reg, file');
    assert plan[k] in plan[k..];
    assert plan[k] in multiset(plan[k..]) && plan[k] !in multiset(next);
  }

  /** With unchanged settings and registry the next plan is what this run left over, exactly when the first action left
      over has a higher tick than the last one completed. An action sharing that tick is never executed. */
  lemma {:induction false} NothingLostIff(settings: seq<AppSetting>, reg: Registry, file: Option<string>,
                                          plan: seq<CustomAction>, env: nat -> Ending, next: seq<CustomAction>)
    requires IsPlan(plan, settings, reg, file) && TicksFit(plan) && CompletedCount(plan, env) <= |plan|
    requires IsPlan(next, settings, reg, FileAfter(file, plan, env))
    ensures var k := CompletedCount(plan, env);
            multiset(next) == multiset(plan[k..])
            <==> (k == 0 || k == |plan| || plan[k - 1].setting.tick < plan[k].setting.tick)
  {
    hide *;
    var k := CompletedCount(plan, env);
    var file' := FileAfter(file, plan, env);
    TickAfterRun(file, plan, env);
    if k == 0 {
      SameTickSameMembers(settings, reg, plan, next, file, file');
      assert plan[0..] == plan;
    } else if k < |plan| && plan[k - 1].setting.tick >= plan[k].setting.tick {
      SharedTickIsLost(settings, reg, plan, next, file', k);
    } else {
      HigherTickIsKept(settings, reg, plan, next, file, file', k);
    }
  }

  ghost predicate DistinctTicks(actions: seq<CustomAction>) {
    forall i, j :: 0 <= i < j < |actions| ==> actions[i].setting.tick != actions[j].setting.tick
  }

  lemma {:induction false} LastIsGreatest(p: seq<CustomAction>, a: CustomAction)
    requires SortedByTick(p) && a in p
    ensures TickOf(a) <= TickOf(p[|p| - 1])
    ensures DistinctTicks(p) && TickOf(a) == TickOf(p[|p| - 1]) ==> a == p[|p| - 1]
  {
    var i :| 0 <= i < |p| && p[i] == a;
  }

  lemma {:induction false} SameLast(p: seq<CustomAction>, q: seq<CustomAction>)
    requires SortedByTick(p) && SortedByTick(q) && DistinctTicks(p) && multiset(p) == multiset(q) && p != []
    ensures |p| == |q| && p[|p| - 1] == q[|q| - 1]
  {
    assert |p| == |multiset(p)| == |multiset(q)| == |q|;
    var n := |p| - 1;
    assert p[n] in multiset(q) && q[n] in multiset(p);
    LastIsGreatest(q, p[n]);
    LastIsGreatest(p, q[n]);
  }

  lemma {:induction false} SameFront(p: seq<CustomAction>, q: seq<CustomAction>)
    requires multiset(p) == multiset(q) && |p| == |q| > 0 && p[|p| - 1] == q[|q| - 1]
    ensures multiset(p[..|p| - 1]) == multiset(q[..|q| - 1])
  {
    var n := |p| - 1;
    assert p == p[..n] + [p[n]] && q == q[..n] + [q[n]];
    assert multiset(p[..n]) == multiset(p) - multiset{p[n]};
    assert multiset(q[..n]) == multiset(q) - multiset{q[n]};
  }

  /** With distinct ticks there is only one sorted order. */
  lemma {:induction false} SortedOnce(p: seq<CustomAction>, q: seq<CustomAction>)
    requires SortedByTick(p) && SortedByTick(q) && DistinctTicks(p) && multiset(p) == multiset(q)
    ensures p == q
    decreases p
  {
    if p == [] {
      assert |multiset(q)| == 0;
    } else {
      var n := |p| - 1;
      SameLast(p, q);
      SameFront(p, q);
      SortedOnce(p[..n], q[..n]);
      assert p == p[..n] + [p[n]] && q == q[..n] + [q[n]];
    }
  }

  ghost predicate Unchanged(runs: seq<CustomRun>, settings: seq<AppSetting>, reg: Registry) {
    forall i :: 0 <= i < |runs| ==> runs[i].settings == settings && runs[i].reg == reg
  }

  lemma {:induction false} NoRuns(file: Option<string>, runs: seq<CustomRun>)
    requires ValidHistory(file, runs) && runs == []
    ensures EndFile(file, runs) == file && CompletedIn(file, runs) == []
  {
  }

  lemma {:induction false} HistoryStep(file: Option<string>, runs: seq<CustomRun>)
    requires ValidHistory(file, runs) && runs != []
    ensures var r := runs[0];
            && IsPlan(r.plan, r.settings, r.reg, file) && TicksFit(r.plan) && CompletedCount(r.plan, r.env) <= |r.plan|
            && var file' := FileAfter(file, r.plan, r.env);
            && ValidHistory(file', runs[1..]) && EndFile(file', runs[1..]) == EndFile(file, runs)
            && CompletedIn(file, runs) == r.plan[..CompletedCount(r.plan, r.env)] + CompletedIn(file', runs[1..])
  {
  }

  lemma {:induction false} UnchangedStep(runs: seq<CustomRun>, settings: seq<AppSetting>, reg: Registry)
    requires Unchanged(runs, settings, reg) && runs != []
    ensures runs[0].settings == settings && runs[0].reg == reg && Unchanged(runs[1..], settings, reg)
  {
  }

  lemma {:induction false} SamePlan(settings: seq<AppSetting>, reg: Registry, file: Option<string>,
                                    p: seq<CustomAction>, q: seq<CustomAction>)
    requires IsPlan(p, settings, reg, file) && IsPlan(q, settings, reg, file) && DistinctTicks(p)
    ensures p == q
  {
    hide Above, Listed, ReadTick, SortedByTick, DistinctTicks;
    SortedOnce(p, q);
  }

  /** Exactly once, in order: with distinct ticks and unchanged settings and registry, over any history of completed,
      failed and interrupted runs, the actions completed so far followed by those still planned are the first plan. */
  lemma {:induction false} ExactlyOnceInOrder(file: Option<string>, runs: seq<CustomRun>, settings: seq<AppSetting>,
                                              reg: Registry,
                                              first: seq<CustomAction>, next: seq<CustomAction>)
    requires ValidHistory(file, runs) && Unchanged(runs, settings, reg)
    requires IsPlan(first, settings, reg, file) && TicksFit(first) && DistinctTicks(first)
    requires IsPlan(next, settings, reg, EndFile(file, runs))
    ensures CompletedIn(file, runs) + next == first
    decreases runs
  {
    hide *;
    if runs == [] {
      NoRuns(file, runs);
      SamePlan(settings, reg, file, first, next);
      assert [] + next == next;
    } else {
      var r, rest := runs[0], runs[1..];
      HistoryStep(file, runs);
      UnchangedStep(runs, settings, reg);
      SamePlan(settings, reg, file, first, r.plan);
      var k, file' := CompletedCount(first, r.env), FileAfter(file, first, r.env);
      RestIsPlan(settings, reg, file, first, r.env);
      SuffixFits(first, k);
      ExactlyOnceInOrder(file', rest, settings, reg, first[k..], next);
      assert first[..k] + CompletedIn(file', rest) + next == first[..k] + first[k..];
    }
  }

  lemma {:induction false} SuffixSorted(plan: seq<CustomAction>, k: nat)
    requires SortedByTick(plan) && DistinctTicks(plan) && k <= |plan|
    ensures SortedByTick(plan[k..])
    ensures 0 < k < |plan| ==> plan[k - 1].setting.tick < plan[k].setting.tick
  {
    if 0 < k < |plan| {
      assert TickOf(plan[k - 1]) <= TickOf(plan[k]);
    }
  }

  lemma {:induction false} SuffixFits(plan: seq<CustomAction>, k: nat)
    requires TicksFit(plan) && DistinctTicks(plan) && k <= |plan|
    ensures TicksFit(plan[k..]) && DistinctTicks(plan[k..])
  {
  }

  lemma {:induction false} SameTickSamePlan(settings: seq<AppSetting>, reg: Registry, plan: seq<CustomAction>,
                                            file: Option<string>, file': Option<string>)
    requires IsPlan(plan, settings, reg, file) && ReadTick(file) == ReadTick(file')
    ensures IsPlan(plan, settings, reg, file')
  {
    hide Above, Listed, ReadTick, SortedByTick;
  }

  lemma {:induction false} TailIsPlan(settings: seq<AppSetting>, reg: Registry, plan: seq<CustomAction>,
                                      file: Option<string>, file': Option<string>, k: nat)
    requires IsPlan(plan, settings, reg, file) && DistinctTicks(plan)
    requires 0 < k <= |plan| && ReadTick(file') == plan[k - 1].setting.tick
    ensures IsPlan(plan[k..], settings, reg, file')
  {
    hide Above, Listed, ReadTick, SortedByTick, DistinctTicks;
    SuffixSorted(plan, k);
    RestIsAbove(settings, reg, file, plan, k, plan[k - 1].setting.tick);
  }

  lemma {:induction false} RestIsPlan(settings: seq<AppSetting>, reg: Registry, file: Option<string>,
                                      plan: seq<CustomAction>, env: nat -> Ending)
    requires IsPlan(plan, settings, reg, file) && TicksFit(plan) && DistinctTicks(plan)
    requires CompletedCount(plan, env) <= |plan|
    ensures IsPlan(plan[CompletedCount(plan, env)..], settings, reg, FileAfter(file, plan, env))
  {
    hide *;
    var k, file' := CompletedCount(plan, env), FileAfter(file, plan, env);
    TickAfterRun(file, plan, env);
    if k == 0 {
      SameTickSamePlan(settings, reg, plan, file, file');
      assert plan[0..] == plan;
    } else {
      TailIsPlan(settings, reg, plan, file, file', k);
    }
  }

  lemma {:induction false} NextPlanIsRest(settings: seq<AppSetting>, reg: Registry, file: Option<string>,
                                          plan: seq<CustomAction>, env: nat -> Ending, next: seq<CustomAction>)
    requires IsPlan(plan, settings, reg, file) && TicksFit(plan) && DistinctTicks(plan)
    requires CompletedCount(plan, env) <= |plan|
    requires IsPlan(next, settings, reg, FileAfter(file, plan, env))
    ensures next == plan[CompletedCount(plan, env)..]
  {
    hide *;
    RestIsPlan(settings, reg, file, plan, env);
    SuffixFits(plan, CompletedCount(plan, env));
    SamePlan(settings, reg, FileAfter(file, plan, env), plan[CompletedCount(plan, env)..], next);
  }

  /** A run that is not cut off by a reboot strictly shortens the plan until it is empty. */
  lemma {:induction false} UninterruptedRunShrinksPlan(settings: seq<AppSetting>, reg: Registry, file: Option<string>,
                                                       plan: seq<CustomAction>, env: nat -> Ending,
                                                       next: seq<CustomAction>)
    requires IsPlan(plan, settings, reg, file) && TicksFit(plan) && DistinctTicks(plan)
    requires CompletedCount(plan, env) <= |plan|
    requires IsPlan(next, settings, reg, FileAfter(file, plan, env))
    requires plan != [] && !Exits(plan, env)
    ensures |next| < |plan|
    ensures (forall i :: 0 <= i < |plan| ==> env(i) == Completed(true)) ==> next == []
  {
    NextPlanIsRest(settings, reg, file, plan, env, next);
    CompletedBounds(|plan|, env, 0);
  }

  // ----- When nothing can be lost ----------------------------------------------------------------------------------

  /** Every member is at or below `high`. */
  ghost predicate AllUpTo(actions: multiset<CustomAction>, high: nat) {
    forall a :: a in actions ==> a.setting.tick <= high
  }

  lemma {:induction false} LastIsHighest(sorted: seq<CustomAction>)
    requires SortedByTick(sorted) && sorted != []
    ensures AllUpTo(multiset(sorted), sorted[|sorted| - 1].setting.tick)
  {
    forall a | a in multiset(sorted)
      ensures a.setting.tick <= sorted[|sorted| - 1].setting.tick
    {
      LastIsGreatest(sorted, a);
    }
  }

  lemma {:induction false} SortedSnoc(sorted: seq<CustomAction>, last: CustomAction)
    requires SortedByTick(sorted) && AllUpTo(multiset(sorted), last.setting.tick)
    ensures SortedByTick(sorted + [last]) && multiset(sorted + [last]) == multiset(sorted) + multiset{last}
  {
    assert forall i :: 0 <= i < |sorted| ==> sorted[i] in multiset(sorted);
  }

  lemma {:induction false} SortedFront(sorted: seq<CustomAction>)
    requires SortedByTick(sorted) && sorted != []
    ensures SortedByTick(sorted[..|sorted| - 1])
    ensures multiset(sorted) == multiset(sorted[..|sorted| - 1]) + multiset{sorted[|sorted| - 1]}
  {
    assert sorted == sorted[..|sorted| - 1] + [sorted[|sorted| - 1]];
  }

  lemma {:induction false} UpToGrows(front: multiset<CustomAction>, last: CustomAction, a: CustomAction)
    requires AllUpTo(front + multiset{last}, last.setting.tick) && a.setting.tick <= last.setting.tick
    ensures AllUpTo(front + multiset{a}, last.setting.tick)
  {
    assert forall x :: x in front ==> x in front + multiset{last};
  }

  lemma {:induction false} UpToHigher(actions: multiset<CustomAction>, low: nat, high: nat)
    requires AllUpTo(actions, low) && low <= high
    ensures AllUpTo(actions, high)
  {
  }

  lemma {:induction false} Inserted(sorted: seq<CustomAction>, a: CustomAction) returns (r: seq<CustomAction>)
    requires SortedByTick(sorted)
    ensures SortedByTick(r) && multiset(r) == multiset(sorted) + multiset{a}
    decreases |sorted|
  {
    if sorted == [] {
      assert sorted + [a] == [a];
      r := [a];
    } else {
      hide *;
      var front, last := sorted[..|sorted| - 1], sorted[|sorted| - 1];
      SortedFront(sorted);
      LastIsHighest(sorted);
      if last.setting.tick <= a.setting.tick {
        UpToHigher(multiset(sorted), last.setting.tick, a.setting.tick);
        SortedSnoc(sorted, a);
        r := sorted + [a];
      } else {
        var r' := Inserted(front, a);
        UpToGrows(multiset(front), last, a);
        SortedSnoc(r', last);
        r := r' + [last];
        assert multiset(r) == multiset(front) + multiset{a} + multiset{last} == multiset(sorted) + multiset{a};
      }
    }
  }

  lemma {:induction false} SortedExists(actions: seq<CustomAction>) returns (r: seq<CustomAction>)
    ensures SortedByTick(r) && multiset(r) == multiset(actions)
  {
    if actions == [] {
      r := [];
    } else {
      var front, last := actions[..|actions| - 1], actions[|actions| - 1];
      assert actions == front + [last];
      var r' := SortedExists(front);
      r := Inserted(r', last);
    }
  }

  /** Every settings, registry and tick file have a plan. */
  lemma {:induction false} PlanExists(settings: seq<AppSetting>, reg: Registry, file: Option<string>)
    returns (plan: seq<CustomAction>)
    ensures IsPlan(plan, settings, reg, file)
  {
    hide Above, Listed, ReadTick, SortedByTick;
    plan := SortedExists(Above(Listed(settings, reg), ReadTick(file)));
  }

  /** In a sorted plan equal ticks stand side by side. */
  lemma {:induction false} SharedTickNeighbours(plan: seq<CustomAction>) returns (k: nat)
    requires SortedByTick(plan) && !DistinctTicks(plan)
    ensures k + 1 < |plan| && plan[k].setting.tick == plan[k + 1].setting.tick
  {
    var i, j :| 0 <= i < j < |plan| && plan[i].setting.tick == plan[j].setting.tick;
    k := i;
    assert TickOf(plan[i]) <= TickOf(plan[i + 1]);
    assert i + 1 < j ==> TickOf(plan[i + 1]) <= TickOf(plan[j]);
  }

  lemma {:induction false} FailingAt(n: nat, k: nat, i: nat)
    requires i <= k < n
    ensures CompletedFrom(n, j => if j == k then Completed(false) else Completed(true), i) == k + 1
    decreases k - i
  {
    if i < k {
      FailingAt(n, k, i + 1);
    }
  }

  /** With these outcomes and this next plan, what the run left over is planned next. */
  ghost predicate NothingLost(plan: seq<CustomAction>, env: nat -> Ending, next: seq<CustomAction>) {
    CompletedCount(plan, env) <= |plan| && multiset(next) == multiset(plan[CompletedCount(plan, env)..])
  }

  /** Seen before the run: with unchanged settings and registry a plan is safe from losing actions, whatever completes,
      fails or is interrupted, exactly when its ticks are distinct. */
  lemma {:induction false} NothingLostWhateverHappensIff(settings: seq<AppSetting>, reg: Registry, file: Option<string>,
                                                         plan: seq<CustomAction>)
    requires IsPlan(plan, settings, reg, file) && TicksFit(plan)
    ensures DistinctTicks(plan)
       <==> forall env: nat -> Ending, next ::
              CompletedCount(plan, env) <= |plan| && IsPlan(next, settings, reg, FileAfter(file, plan, env))
              ==> NothingLost(plan, env, next)
  {
    if DistinctTicks(plan) {
      forall env: nat -> Ending, next
        | CompletedCount(plan, env) <= |plan| && IsPlan(next, settings, reg, FileAfter(file, plan, env))
        ensures NothingLost(plan, env, next)
      {
        hide *;
        DistinctLosesNothing(settings, reg, file, plan, env, next);
      }
    } else {
      PlanIsSorted(settings, reg, file, plan);
      hide IsPlan, TicksFit, DistinctTicks, FileAfter, CompletedCount;
      var env, next := LosingRun(settings, reg, file, plan);
    }
  }

  lemma {:induction false} PlanIsSorted(settings: seq<AppSetting>, reg: Registry, file: Option<string>,
                                        plan: seq<CustomAction>)
    requires IsPlan(plan, settings, reg, file)
    ensures SortedByTick(plan)
  {
  }

  lemma {:induction false} DistinctLosesNothing(settings: seq<AppSetting>, reg: Registry, file: Option<string>,
                                                plan: seq<CustomAction>, env: nat -> Ending, next: seq<CustomAction>)
    requires IsPlan(plan, settings, reg, file) && TicksFit(plan) && DistinctTicks(plan)
    requires CompletedCount(plan, env) <= |plan|
    requires IsPlan(next, settings, reg, FileAfter(file, plan, env))
    ensures NothingLost(plan, env, next)
  {
    hide IsPlan, TicksFit, DistinctTicks, FileAfter, CompletedCount;
    NextPlanIsRest(settings, reg, file, plan, env, next);
  }

  /** Failing at the first of two actions that share a tick loses the second one. */
  lemma {:induction false} LosingRun(settings: seq<AppSetting>, reg: Registry, file: Option<string>,
                                     plan: seq<CustomAction>)
    returns (env: nat -> Ending, next: seq<CustomAction>)
    requires IsPlan(plan, settings, reg, file) && TicksFit(plan) && SortedByTick(plan) && !DistinctTicks(plan)
    ensures CompletedCount(plan, env) <= |plan| && IsPlan(next, settings, reg, FileAfter(file, plan, env))
    ensures !NothingLost(plan, env, next)
  {
    hide IsPlan, TicksFit, SortedByTick, DistinctTicks, FileAfter;
    var k := SharedTickNeighbours(plan);
    env := j => if j == k then Completed(false) else Completed(true);
    FailingAt(|plan|, k, 0);
    next := PlanExists(settings, reg, FileAfter(file, plan, env));
    NothingLostIff(settings, reg, file, plan, env, next);
  }
}

/** The program run again and again: every sequence of enable operations realises a history. */
module Operations {
  import opened Options
  import opened Packages
  import opened Execution
  import opened RegistryStore
  import opened Executor
  import opened ActionPlans
  import opened Histories

  /** `runs` is what enable operations with these lists and outcomes did to the registry `reg`. */
  ghost predicate Realises(runs: seq<RunInput>, reg: Registry, lists: seq<seq<Incoming>>, envs: seq<nat -> Outcome>) {
    && ValidHistory(reg, runs) && |runs| == |lists| == |envs|
    && forall i :: 0 <= i < |runs| ==> runs[i].desired == lists[i] && runs[i].env == envs[i]
  }

  lemma {:induction false} RealisesNext(runs: seq<RunInput>, reg: Registry, lists: seq<seq<Incoming>>,
                                        envs: seq<nat -> Outcome>, r: RunInput)
    requires Realises(runs, reg, lists, envs) && ValidRun(RegistryAfter(reg, runs), r)
    ensures Realises(runs + [r], reg, lists + [r.desired], envs + [r.env])
    ensures RegistryAfter(reg, runs + [r]) == EndOf(RegistryAfter(reg, runs), r).disk
    ensures Reboots(reg, runs + [r]) ==
              Reboots(reg, runs) + (if EndOf(RegistryAfter(reg, runs), r).exited then 1 else 0)
  {
    hide EndOf, ValidRun, ValidHistory, RegistryAfter, Reboots;
    HistorySnoc(reg, runs, r);
  }

  ghost function RebootedCount(statuses: seq<Status>): nat {
    if statuses == [] then 0
    else RebootedCount(statuses[..|statuses| - 1]) + (if statuses[|statuses| - 1] == Rebooted then 1 else 0)
  }

  type Reading = Result<Registry, ReadError>

  /** One enable operation took the registry file from `before` to `after`. */
  ghost predicate Enabled(before: Reading, after: Reading, r: RunInput, status: Status) {
    match before
    case Failure(e) => after == before && status == RegistryUnreadable(e)
    case Success(reg) =>
      && ValidRun(reg, r) && after == Success(EndOf(reg, r).disk)
      && (status == Rebooted <==> EndOf(reg, r).exited)
  }

  method EnableOnce(store: PackageRegistryStore, desired: seq<Incoming>, env: nat -> Outcome)
    returns (status: Status, ghost r: RunInput)
    modifies store
    ensures r.desired == desired && r.env == env
    ensures Enabled(ReadBack(old(store.State())), ReadBack(store.State()), r, status)
  {
    ghost var plan;
    var error;
    ghost var log;
    status, error, plan, log := Enable(store, desired, env);
    r := RunInput(desired, plan, env);
  }

  /** What the operations `statuses` made of the file: an unreadable file stays as it is; a readable one holds exactly
      what the history `runs` leaves, and the operations that rebooted are the interrupted runs. */
  ghost predicate EnabledEach(before: Reading, after: Reading, lists: seq<seq<Incoming>>, envs: seq<nat -> Outcome>,
                              statuses: seq<Status>, runs: seq<RunInput>)
  {
    && |statuses| == |lists|
    && match before
       case Failure(e) => after == before && forall s :: s in statuses ==> s == RegistryUnreadable(e)
       case Success(reg) =>
         && Realises(runs, reg, lists, envs) && after == Success(RegistryAfter(reg, runs))
         && Reboots(reg, runs) == RebootedCount(statuses)
  }

  lemma {:induction false} EnabledNone(before: Reading)
    ensures EnabledEach(before, before, [], [], [], [])
  {
    if before.Success? {
      NoRuns(before.value);
    }
  }

  lemma {:induction false} EnabledNext(before: Reading, mid: Reading, after: Reading, lists: seq<seq<Incoming>>,
                                       envs: seq<nat -> Outcome>, statuses: seq<Status>, runs: seq<RunInput>,
                                       r: RunInput, status: Status)
    requires EnabledEach(before, mid, lists, envs, statuses, runs) && Enabled(mid, after, r, status)
    ensures EnabledEach(before, after, lists + [r.desired], envs + [r.env], statuses + [status], runs + [r])
  {
    assert (statuses + [status])[..|statuses|] == statuses;
    hide EndOf, ValidRun, Realises, RegistryAfter, Reboots;
    if before.Success? {
      RealisesNext(runs, before.value, lists, envs, r);
    }
  }

  /** Enables once per list; every operation reads the file that the one before it left. */
  method EnableEach(store: PackageRegistryStore, lists: seq<seq<Incoming>>, envs: seq<nat -> Outcome>)
    returns (statuses: seq<Status>, ghost runs: seq<RunInput>)
    requires |lists| == |envs|
    modifies store
    ensures EnabledEach(ReadBack(old(store.State())), ReadBack(store.State()), lists, envs, statuses, runs)
  {
    hide *;
    ghost var before := ReadBack(store.State());
    statuses, runs := [], [];
    EnabledNone(before);
    assert lists[..0] == [] && envs[..0] == [];
    var i := 0;
    while i < |lists|
      invariant 0 <= i <= |lists|
      invariant EnabledEach(before, ReadBack(store.State()), lists[..i], envs[..i], statuses, runs)
    {
      ghost var mid := ReadBack(store.State());
      var status;
      ghost var r;
      status, r := EnableOnce(store, lists[i], envs[i]);
      EnabledNext(before, mid, ReadBack(store.State()), lists[..i], envs[..i], statuses, runs, r, status);
      assert lists[..i + 1] == lists[..i] + [lists[i]] && envs[..i + 1] == envs[..i] + [envs[i]];
      statuses, runs := statuses + [status], runs + [r];
      i := i + 1;
    }
    assert lists[..i] == lists && envs[..i] == envs;
  }
}

/** The plan of one run: building it from the registry and the desired list, and executing it. */
module ActionPlans {
  import opened Options
  import opened Packages
  import opened Planning
  import opened Execution
  import opened RegistryStore
  import opened Executor
  import Versions
  import Sorting

  class ActionPlan {
    var unorderedOperations: seq<Group>
    var orderedOperations: map<int, seq<Group>>
    var sortedOrder: seq<int>
    var unorderedImplicitUninstalls: seq<PlannedAction>

    ghost function View(): Plan
      reads this
    {
      Plan(unorderedImplicitUninstalls, orderedOperations, sortedOrder, unorderedOperations)
    }

    /** The groups hold what the first `desired` applications call for; the orders are not sorted yet. */
    ghost predicate Covers(reg: Registry, desired: seq<Incoming>)
      reads this
    {
      && unorderedOperations == GroupsAt(reg, desired, None)
      && Sorting.NoDuplicates(sortedOrder)
      && (forall o :: o in sortedOrder <==> o in orderedOperations)
      && (forall o :: o in orderedOperations <==> GroupsAt(reg, desired, Some(o)) != [])
      && (forall o :: o in orderedOperations ==> orderedOperations[o] == GroupsAt(reg, desired, Some(o)))
    }

    constructor New(current: CurrentPackageRegistry, desired: seq<Incoming>)
      requires Keyed(current.apps)
      ensures exists coll :: IsCollectionOf(coll, current.apps) && IsPlanOf(View(), coll, current.apps, desired)
    {
      unorderedOperations, orderedOperations, sortedOrder, unorderedImplicitUninstalls := [], map[], [], [];
      new;
      ghost var collection := PlanUninstalls(current, desired);
      PlanUpdatesAndInstalls(current.apps, desired);
      sortedOrder := Sorting.SortInts(sortedOrder);
      assert IsPlanOf(View(), collection, current.apps, desired);
    }

    /** Second pass: updates and installs. */
    method PlanUpdatesAndInstalls(reg: Registry, desired: seq<Incoming>)
      requires unorderedOperations == [] && orderedOperations == map[] && sortedOrder == []
      modifies this
      ensures Covers(reg, desired) && unorderedImplicitUninstalls == old(unorderedImplicitUninstalls)
    {
      assert Covers(reg, []);
      hide *;
      var i := 0;
      assert desired[..0] == [];
      while i < |desired|
        invariant 0 <= i <= |desired|
        invariant unorderedImplicitUninstalls == old(unorderedImplicitUninstalls)
        invariant Covers(reg, desired[..i])
      {
        assert desired[..i + 1] == desired[..i] + [desired[i]];
        PlanDesired(reg, desired[i], desired[..i]);
        i := i + 1;
      }
      assert desired[..i] == desired;
    }

    /** First pass: applications that exist but are not in the new configuration. */
    method PlanUninstalls(current: CurrentPackageRegistry, desired: seq<Incoming>) returns (collection: seq<Package>)
      requires Keyed(current.apps) && unorderedImplicitUninstalls == []
      modifies this`unorderedImplicitUninstalls
      ensures IsCollectionOf(collection, current.apps)
      ensures unorderedImplicitUninstalls == Uninstalls(collection, PopulateDesiredFrom(map[], desired).0)
    {
      var known, _ := PopulateDesired(desired);
      collection := current.GetPackageCollection();
      var i := 0;
      while i < |collection|
        invariant 0 <= i <= |collection|
        invariant unorderedImplicitUninstalls == Uninstalls(collection[..i], known)
      {
        assert collection[..i + 1][..i] == collection[..i];
        if collection[i].name !in known {
          var action := if collection[i].ongoing == Skipped then Cleanup else Remove;
          unorderedImplicitUninstalls := unorderedImplicitUninstalls + [PlannedAction(collection[i], false, action)];
        }
        i := i + 1;
      }
      assert collection[..i] == collection;
    }

    /** One round of the second pass: what a single desired application calls for. */
    method PlanDesired(reg: Registry, d: Incoming, ghost before: seq<Incoming>)
      requires Covers(reg, before)
      modifies this
      ensures Covers(reg, before + [d]) && unorderedImplicitUninstalls == old(unorderedImplicitUninstalls)
    {
      hide GroupsAt, Versions.VersionsEqual;
      if d.name in reg {
        var cur := reg[d.name];
        var versionsEqual := Versions.AreVersionsEqual(cur.version, d.version);
        if !versionsEqual {
          if |d.updateCommand| == 0 {
            var deleteAction := PlannedAction(cur, false, RemoveForUpdate);
            var installAction := PlannedAction(FromIncoming(d), d.treatFailure, Install);
            InsertGroup(reg, before, d, [deleteAction, installAction]);
          } else {
            InsertGroup(reg, before, d, [PlannedAction(FromIncoming(d), d.treatFailure, Update)]);
          }
        } else if cur.numReboots > 0 {
          InsertGroup(reg, before, d, [PlannedAction(cur, d.treatFailure, cur.ongoing)]);
        } else {
          KeepCovers(reg, before, d);
        }
      } else {
        InsertGroup(reg, before, d, [PlannedAction(FromIncoming(d), d.treatFailure, Install)]);
      }
    }

    lemma {:induction false} KeepCovers(reg: Registry, before: seq<Incoming>, d: Incoming)
      requires Covers(reg, before) && GroupFor(reg, d) == []
      ensures Covers(reg, before + [d])
    {
      hide GroupFor;
      GroupsAtSnoc(reg, before, d);
    }

    method InsertGroup(ghost reg: Registry, ghost before: seq<Incoming>, d: Incoming, acts: Group)
      requires Covers(reg, before) && acts == GroupFor(reg, d) && acts != []
      modifies this
      ensures Covers(reg, before + [d]) && unorderedImplicitUninstalls == old(unorderedImplicitUninstalls)
    {
      hide GroupFor;
      GroupsAtSnoc(reg, before, d);
      InsertOperation(d.order, acts);
    }

    method InsertOperation(order: Option<int>, dependentActions: Group)
      requires Sorting.NoDuplicates(sortedOrder) && forall o :: o in sortedOrder <==> o in orderedOperations
      modifies this
      ensures unorderedImplicitUninstalls == old(unorderedImplicitUninstalls)
      ensures Sorting.NoDuplicates(sortedOrder) && forall o :: o in sortedOrder <==> o in orderedOperations
      ensures unorderedOperations == old(unorderedOperations) + (if order.None? then [dependentActions] else [])
      ensures orderedOperations ==
              if order.None? then old(orderedOperations)
              else old(orderedOperations)[order.value :=
                     (if order.value in old(orderedOperations) then old(orderedOperations)[order.value] else [])
                     + [dependentActions]]
    {
      if order.None? {
        unorderedOperations := unorderedOperations + [dependentActions];
      } else if order.value in orderedOperations {
        orderedOperations := orderedOperations[order.value := orderedOperations[order.value] + [dependentActions]];
      } else {
        assert [] + [dependentActions] == [dependentActions];
        orderedOperations := orderedOperations[order.value := [dependentActions]];
        sortedOrder := sortedOrder + [order.value];
      }
    }

    /** Executes the plan against the registry on disk. */
    method Execute(store: PackageRegistryStore, handler: CommandHandler) returns (status: Status, error: ExecuteError)
      requires Coherent(View())
      modifies store, handler
      ensures fresh(error)
      ensures match ReadBack(old(store.State()))
              case Failure(e) => status == RegistryUnreadable(e) && unchanged(store) && unchanged(handler)
              case Success(reg) =>
                var end := RunEntries(Start(reg).(log := old(handler.log)), Schedule(View()), handler.env);
                && ReadBack(store.State()) == Success(end.disk) && handler.log == end.log
                && status == (if end.exited then Rebooted else Reported(end.results))
                && error.failedDeployment == end.failedApps && error.combined == end.faults
    {
      error := new ExecuteError();
      var read := store.GetExistingPackages();
      if read.Failure? {
        return RegistryUnreadable(read.error), error;
      }
      var registry := read.value;
      var progress := Progress([], None);
      var exited := false;
      ghost var s := Start(registry.apps).(log := handler.log);
      ghost var uninstalls, ordered, unordered :=
        UninstallEntries(unorderedImplicitUninstalls),
        OrderedEntries(sortedOrder, orderedOperations),
        GroupEntries(Unordered, unorderedOperations);

      exited, progress := ExecuteUninstalls(store, handler, registry, error, progress, s);
      if exited {
        ExitedStays(s, uninstalls, ordered + unordered, handler.env);
        assert uninstalls + (ordered + unordered) == Schedule(View());
        return Rebooted, error;
      }
      exited, progress := ExecuteOrdered(store, handler, registry, error, progress, s);
      if exited {
        ExitedStays(s, uninstalls + ordered, unordered, handler.env);
        return Rebooted, error;
      }
      exited, progress := ExecuteUnordered(store, handler, registry, error, progress, s);
      return if exited then Rebooted else Reported(progress.results), error;
    }

    method ExecuteUninstalls(store: PackageRegistryStore, handler: CommandHandler, registry: CurrentPackageRegistry,
                             error: ExecuteError, progress: Progress, ghost s: Run)
      returns (exited: bool, progress': Progress)
      requires Holds(s, registry, store, handler) && Reports(s, progress, error) && !s.exited
      modifies store, handler, registry, error
      ensures var end := RunEntries(s, UninstallEntries(unorderedImplicitUninstalls), handler.env);
              Holds(end, registry, store, handler) && Reports(end, progress', error) && exited == end.exited
    {
      hide RunEntry, ReadBack;
      ghost var es := UninstallEntries(unorderedImplicitUninstalls);
      exited, progress' := false, progress;
      var i := 0;
      while i < |unorderedImplicitUninstalls|
        invariant 0 <= i <= |es|
        invariant Holds(RunEntries(s, es[..i], handler.env), registry, store, handler)
        invariant Reports(RunEntries(s, es[..i], handler.env), progress', error)
        invariant !RunEntries(s, es[..i], handler.env).exited
      {
        ghost var t := RunEntries(s, es[..i], handler.env);
        assert es[..i + 1] == es[..i] + [es[i]];
        RunEntriesSnoc(s, es[..i], es[i], handler.env);
        exited, progress' := ExecuteGroup(store, handler, registry, error, Uninstall,
                                          [unorderedImplicitUninstalls[i]], progress', t);
        i := i + 1;
        if exited {
          ExitedStays(s, es[..i], es[i..], handler.env);
          assert es[..i] + es[i..] == es;
          return;
        }
      }
      assert es[..i] == es;
    }

    method ExecuteOrdered(store: PackageRegistryStore, handler: CommandHandler, registry: CurrentPackageRegistry,
                          error: ExecuteError, progress: Progress, ghost s: Run)
      returns (exited: bool, progress': Progress)
      requires forall o :: o in sortedOrder ==> o in orderedOperations
      requires var s' := RunEntries(s, UninstallEntries(unorderedImplicitUninstalls), handler.env);
               Holds(s', registry, store, handler) && Reports(s', progress, error) && !s'.exited
      modifies store, handler, registry, error
      ensures var end := RunEntries(s, UninstallEntries(unorderedImplicitUninstalls)
                                       + OrderedEntries(sortedOrder, orderedOperations), handler.env);
              Holds(end, registry, store, handler) && Reports(end, progress', error) && exited == end.exited
    {
      ghost var es := UninstallEntries(unorderedImplicitUninstalls);
      hide *;
      exited, progress' := false, progress;
      ghost var done := es;
      OrderedEntriesSnoc(sortedOrder, orderedOperations);
      var i := 0;
      while i < |sortedOrder|
        invariant 0 <= i <= |sortedOrder|
        invariant done == es + OrderedEntries(sortedOrder[..i], orderedOperations)
        invariant Holds(RunEntries(s, done, handler.env), registry, store, handler)
        invariant Reports(RunEntries(s, done, handler.env), progress', error)
        invariant !RunEntries(s, done, handler.env).exited
      {
        ghost var bucket := GroupEntries(Ordered(sortedOrder[i]), orderedOperations[sortedOrder[i]]);
        exited, progress' := ExecuteGroups(store, handler, registry, error, Ordered(sortedOrder[i]),
                                           orderedOperations[sortedOrder[i]], progress', s, done);
        assert OrderedEntries(sortedOrder[..i + 1], orderedOperations)
            == OrderedEntries(sortedOrder[..i], orderedOperations) + bucket;
        done := done + bucket;
        i := i + 1;
        if exited {
          ghost var rest := OrderedEntriesExtend(sortedOrder, i, orderedOperations);
          ExitedStays(s, done, rest, handler.env);
          assert done + rest == es + OrderedEntries(sortedOrder, orderedOperations);
          return;
        }
      }
      assert sortedOrder[..i] == sortedOrder;
    }

    method ExecuteUnordered(store: PackageRegistryStore, handler: CommandHandler, registry: CurrentPackageRegistry,
                            error: ExecuteError, progress: Progress, ghost s: Run)
      returns (exited: bool, progress': Progress)
      requires forall o :: o in sortedOrder ==> o in orderedOperations
      requires var s' := RunEntries(s, UninstallEntries(unorderedImplicitUninstalls)
                                       + OrderedEntries(sortedOrder, orderedOperations), handler.env);
               Holds(s', registry, store, handler) && Reports(s', progress, error) && !s'.exited
      modifies store, handler, registry, error
      ensures var end := RunEntries(s, Schedule(View()), handler.env);
              Holds(end, registry, store, handler) && Reports(end, progress', error) && exited == end.exited
    {
      hide RunEntry, ReadBack;
      exited, progress' := ExecuteGroups(store, handler, registry, error, Unordered, unorderedOperations, progress, s,
        UninstallEntries(unorderedImplicitUninstalls) + OrderedEntries(sortedOrder, orderedOperations));
    }
  }

  /** Runs the groups of one slot in turn, after the entries `done`. */
  method ExecuteGroups(store: PackageRegistryStore, handler: CommandHandler, registry: CurrentPackageRegistry,
                       error: ExecuteError, slot: Slot, groups: seq<Group>, progress: Progress,
                       ghost s: Run, ghost done: seq<Entry>)
    returns (exited: bool, progress': Progress)
    requires var s' := RunEntries(s, done, handler.env);
             Holds(s', registry, store, handler) && Reports(s', progress, error) && !s'.exited
    modifies store, handler, registry, error
    ensures var end := RunEntries(s, done + GroupEntries(slot, groups), handler.env);
            Holds(end, registry, store, handler) && Reports(end, progress', error) && exited == end.exited
  {
    hide *;
    exited, progress' := false, progress;
    ghost var prefix, t := done, RunEntries(s, done, handler.env);
    var i := 0;
    GroupEntriesSplit(slot, groups, 0);
    while i < |groups|
      invariant 0 <= i <= |groups|
      invariant prefix == done + GroupEntries(slot, groups[..i]) && t == RunEntries(s, prefix, handler.env)
      invariant Holds(t, registry, store, handler) && Reports(t, progress', error) && !t.exited
    {
      ghost var e := Entry(slot, groups[i]);
      exited, progress' := ExecuteGroup(store, handler, registry, error, slot, groups[i], progress', t);
      RunEntriesSnoc(s, prefix, e, handler.env);
      prefix, t := prefix + [e], RunEntry(t, e, handler.env);
      i := i + 1;
      GroupEntriesSplit(slot, groups, i);
      if exited {
        ExitedStays(s, prefix, GroupEntries(slot, groups[i..]), handler.env);
        assert prefix + GroupEntries(slot, groups[i..]) == done + GroupEntries(slot, groups);
        return;
      }
    }
    assert groups[..i] == groups;
  }

  lemma {:induction false} GroupEntriesSplit(slot: Slot, groups: seq<Group>, i: nat)
    requires i <= |groups|
    ensures GroupEntries(slot, groups[..0]) == []
    ensures GroupEntries(slot, groups) == GroupEntries(slot, groups[..i]) + GroupEntries(slot, groups[i..])
    ensures i > 0 ==>
              GroupEntries(slot, groups[..i]) == GroupEntries(slot, groups[..i - 1]) + [Entry(slot, groups[i - 1])]
  {
  }

  lemma {:induction false} GroupsAtSnoc(reg: Registry, before: seq<Incoming>, d: Incoming)
    ensures forall order ::
              GroupsAt(reg, before + [d], order) ==
              if d.order == order && GroupFor(reg, d) != [] then GroupsAt(reg, before, order) + [GroupFor(reg, d)]
              else GroupsAt(reg, before, order)
  {
    assert (before + [d])[..|before|] == before;
  }

  lemma {:induction false} OrderedEntriesSnoc(orders: seq<int>, ordered: map<int, seq<Group>>)
    requires forall o :: o in orders ==> o in ordered
    ensures OrderedEntries(orders[..0], ordered) == []
    ensures forall i :: 0 <= i < |orders| ==>
              OrderedEntries(orders[..i + 1], ordered)
              == OrderedEntries(orders[..i], ordered) + GroupEntries(Ordered(orders[i]), ordered[orders[i]])
  {
    forall i | 0 <= i < |orders|
      ensures OrderedEntries(orders[..i + 1], ordered)
           == OrderedEntries(orders[..i], ordered) + GroupEntries(Ordered(orders[i]), ordered[orders[i]])
    {
      assert orders[..i + 1][..i] == orders[..i];
    }
  }

  lemma {:induction false} OrderedEntriesExtend(orders: seq<int>, i: nat, ordered: map<int, seq<Group>>)
    returns (rest: seq<Entry>)
    requires i <= |orders| && forall o :: o in orders ==> o in ordered
    ensures OrderedEntries(orders, ordered) == OrderedEntries(orders[..i], ordered) + rest
  {
    if i == |orders| {
      rest := [];
      assert orders[..i] == orders;
    } else {
      var front := orders[..|orders| - 1];
      rest := OrderedEntriesExtend(front, i, ordered);
      assert front[..i] == orders[..i];
      var last := orders[|orders| - 1];
      rest := rest + GroupEntries(Ordered(last), ordered[last]);
    }
  }

  /** One enable operation: read the registry, plan, and execute with a fresh command handler. */
  method Enable(store: PackageRegistryStore, desired: seq<Incoming>, env: nat -> Outcome)
    returns (status: Status, deploymentError: Option<(seq<string>, seq<Fault>)>, ghost plan: Plan,
      ghost log: seq<Invocation>)
    modifies store
    ensures match ReadBack(old(store.State()))
            case Failure(e) => status == RegistryUnreadable(e) && unchanged(store)
            case Success(reg) =>
              && (exists coll :: IsCollectionOf(coll, reg) && IsPlanOf(plan, coll, reg, desired))
              && var end := RunEntries(Start(reg), Schedule(plan), env);
                 && ReadBack(store.State()) == Success(end.disk) && log == end.log
                 && status == (if end.exited then Rebooted else Reported(end.results))
                 && deploymentError == (if end.failedApps.None? then None else Some((end.failedApps.value, end.faults)))
  {
    deploymentError, plan, log := None, Plan([], map[], [], []), [];
    var read := store.GetExistingPackages();
    if read.Failure? {
      return RegistryUnreadable(read.error), deploymentError, plan, log;
    }
    var handler := new CommandHandler(env);
    var actionPlan := new ActionPlan.New(read.value, desired);
    plan := actionPlan.View();
    var error;
    status, error := actionPlan.Execute(store, handler);
    deploymentError := error.GetErrorIfDeploymentFailed();
    log := handler.log;
  }
}

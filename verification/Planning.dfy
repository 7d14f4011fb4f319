/** What a plan is: the groups of dependent actions that a registry and a desired list call for. */
module Planning {
  import opened Options
  import opened Packages
  import opened Versions

  datatype PlannedAction = PlannedAction(pkg: Package, treatFailure: bool, action: Action)

  /** Dependent actions: each one runs only if the one before it succeeded. */
  type Group = seq<PlannedAction>

  datatype Plan = Plan(
    uninstalls: seq<PlannedAction>,
    ordered: map<int, seq<Group>>,
    sortedOrder: seq<int>,
    unordered: seq<Group>)

  /** An application that is no longer desired: a skipped one is only forgotten, any other is removed. */
  ghost function UninstallFor(p: Package): PlannedAction {
    PlannedAction(p, false, if p.ongoing == Skipped then Cleanup else Remove)
  }

  /** What the registry calls for to reach one desired application; empty when there is nothing to do. */
  ghost function GroupFor(reg: Registry, d: Incoming): Group {
    var install := PlannedAction(FromIncoming(d), d.treatFailure, Install);
    if d.name !in reg then [install]
    else
      var cur := reg[d.name];
      if !VersionsEqual(cur.version, d.version) then
        if d.updateCommand == "" then [PlannedAction(cur, false, RemoveForUpdate), install]
        else [PlannedAction(FromIncoming(d), d.treatFailure, Update)]
      else if cur.numReboots > 0 then [PlannedAction(cur, d.treatFailure, cur.ongoing)]
      else []
  }

  /** The uninstalls for the listed packages, in that order. */
  ghost function Uninstalls(coll: seq<Package>, known: map<string, Incoming>): seq<PlannedAction> {
    if coll == [] then []
    else
      var last := coll[|coll| - 1];
      Uninstalls(coll[..|coll| - 1], known) + (if last.name in known then [] else [UninstallFor(last)])
  }

  /** The non-empty groups of the desired applications with the given order, in list order. */
  ghost function GroupsAt(reg: Registry, desired: seq<Incoming>, order: Option<int>): seq<Group> {
    if desired == [] then []
    else
      var last := desired[|desired| - 1];
      var before := GroupsAt(reg, desired[..|desired| - 1], order);
      if last.order == order && GroupFor(reg, last) != [] then before + [GroupFor(reg, last)] else before
  }

  /** The plan for a registry, with its packages listed in the order `coll`, and a desired list. */
  ghost predicate IsPlanOf(plan: Plan, coll: seq<Package>, reg: Registry, desired: seq<Incoming>) {
    && plan.uninstalls == Uninstalls(coll, PopulateDesiredFrom(map[], desired).0)
    && plan.unordered == GroupsAt(reg, desired, None)
    && (forall i, j :: 0 <= i < j < |plan.sortedOrder| ==> plan.sortedOrder[i] < plan.sortedOrder[j])
    && (forall o :: o in plan.sortedOrder <==> o in plan.ordered)
    && (forall o :: o in plan.ordered <==> GroupsAt(reg, desired, Some(o)) != [])
    && (forall o :: o in plan.ordered ==> plan.ordered[o] == GroupsAt(reg, desired, Some(o)))
  }

  // ----- The schedule: the plan laid out in execution order -------------------------------------

  datatype Slot = Uninstall | Ordered(order: int) | Unordered

  datatype Entry = Entry(slot: Slot, acts: Group)

  ghost function UninstallEntries(acts: seq<PlannedAction>): seq<Entry> {
    seq(|acts|, i requires 0 <= i < |acts| => Entry(Uninstall, [acts[i]]))
  }

  ghost function GroupEntries(slot: Slot, groups: seq<Group>): seq<Entry> {
    seq(|groups|, i requires 0 <= i < |groups| => Entry(slot, groups[i]))
  }

  ghost function OrderedEntries(orders: seq<int>, ordered: map<int, seq<Group>>): seq<Entry>
    requires forall o :: o in orders ==> o in ordered
  {
    if orders == [] then []
    else
      var last := orders[|orders| - 1];
      OrderedEntries(orders[..|orders| - 1], ordered) + GroupEntries(Ordered(last), ordered[last])
  }

  ghost predicate Coherent(plan: Plan) {
    forall o :: o in plan.sortedOrder ==> o in plan.ordered
  }

  ghost function Schedule(plan: Plan): seq<Entry>
    requires Coherent(plan)
  {
    UninstallEntries(plan.uninstalls)
    + OrderedEntries(plan.sortedOrder, plan.ordered)
    + GroupEntries(Unordered, plan.unordered)
  }
}

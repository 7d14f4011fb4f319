/** How often each application is planned, for any desired list, and when that is at most once. */
module Partitions {
  import opened Options
  import opened Packages
  import opened Planning
  import opened Schedules
  import opened Versions

  /** The names of the entries, with their multiplicity. */
  ghost function NamesIn(es: seq<Entry>): multiset<string> {
    if es == [] then multiset{} else NamesIn(es[..|es| - 1]) + multiset{NameOf(es[|es| - 1])}
  }

  ghost predicate NamedOnce(es: seq<Entry>) {
    forall i, j :: 0 <= i < j < |es| ==> NameOf(es[i]) != NameOf(es[j])
  }

  /** The program has something to do for `d`: it is missing, has another version, or has a retry pending. */
  ghost predicate NeedsWork(reg: Registry, d: Incoming) {
    d.name !in reg || !VersionsEqual(reg[d.name].version, d.version) || reg[d.name].numReboots > 0
  }

  /** How often `n` is listed and needs work. */
  ghost function Listings(reg: Registry, desired: seq<Incoming>, n: string): nat {
    if desired == [] then 0
    else
      var last := desired[|desired| - 1];
      Listings(reg, desired[..|desired| - 1], n) + (if last.name == n && NeedsWork(reg, last) then 1 else 0)
  }

  ghost function ListingsAt(reg: Registry, desired: seq<Incoming>, n: string, order: Option<int>): nat {
    if desired == [] then 0
    else
      var last := desired[|desired| - 1];
      ListingsAt(reg, desired[..|desired| - 1], n, order)
      + (if last.order == order && last.name == n && NeedsWork(reg, last) then 1 else 0)
  }

  ghost function ListingsAtAny(reg: Registry, desired: seq<Incoming>, n: string, orders: seq<int>): nat {
    if orders == [] then 0
    else
      var last := orders[|orders| - 1];
      ListingsAtAny(reg, desired, n, orders[..|orders| - 1]) + ListingsAt(reg, desired, n, Some(last))
  }

  /** The implicit removal of `n`: it is installed and the plan does not know it as desired. */
  ghost function Removals(reg: Registry, desired: seq<Incoming>, n: string): nat {
    if n in reg && n !in PopulateDesiredFrom(map[], desired).0 then 1 else 0
  }

  lemma {:induction false} GroupIffNeedsWork(reg: Registry, d: Incoming)
    ensures GroupFor(reg, d) != [] <==> NeedsWork(reg, d)
  {
    hide VersionsEqual;
  }

  lemma {:induction false} NamesConcat(xs: seq<Entry>, ys: seq<Entry>)
    ensures NamesIn(xs + ys) == NamesIn(xs) + NamesIn(ys)
  {
    hide NameOf;
    if ys == [] {
      assert xs + ys == xs;
    } else {
      assert (xs + ys)[..|xs + ys| - 1] == xs + ys[..|ys| - 1];
      NamesConcat(xs, ys[..|ys| - 1]);
    }
  }

  lemma {:induction false} NamesSnoc(es: seq<Entry>, e: Entry)
    ensures NamesIn(es + [e]) == NamesIn(es) + multiset{NameOf(e)}
  {
    hide NameOf;
    assert (es + [e])[..|es|] == es;
  }

  lemma {:induction false} NamesMembers(es: seq<Entry>, n: string)
    ensures n in NamesIn(es) <==> exists i :: 0 <= i < |es| && NameOf(es[i]) == n
  {
    hide NameOf;
    if es != [] {
      NamesMembers(es[..|es| - 1], n);
      assert NameOf(es[|es| - 1]) == n ==> n in NamesIn(es);
    }
  }

  lemma {:induction false} NamedOnceSnoc(es: seq<Entry>, e: Entry)
    ensures NamedOnce(es + [e]) <==> NamedOnce(es) && NameOf(e) !in NamesIn(es)
  {
    hide NameOf;
    NamesMembers(es, NameOf(e));
    var all := es + [e];
    assert forall i :: 0 <= i < |es| ==> all[i] == es[i];
    if NamedOnce(all) {
      forall i | 0 <= i < |es|
        ensures NameOf(es[i]) != NameOf(e)
      {
        assert NameOf(all[i]) != NameOf(all[|es|]);
      }
      forall i, j | 0 <= i < j < |es|
        ensures NameOf(es[i]) != NameOf(es[j])
      {
        assert NameOf(all[i]) != NameOf(all[j]);
      }
    }
  }

  /** No name occurs twice exactly when every multiplicity is at most one. */
  lemma {:induction false} NamedOnceIff(es: seq<Entry>)
    ensures NamedOnce(es) <==> forall n :: NamesIn(es)[n] <= 1
  {
    if es != [] {
      var front, last := es[..|es| - 1], es[|es| - 1];
      assert es == front + [last];
      hide *;
      NamedOnceIff(front);
      NamesSnoc(front, last);
      NamedOnceSnoc(front, last);
      assert forall n :: NamesIn(es)[n] == NamesIn(front)[n] + (if n == NameOf(last) then 1 else 0);
    }
  }

  lemma {:induction false} UninstallsLast(coll: seq<Package>, known: map<string, Incoming>)
    requires coll != []
    ensures var front, last := coll[..|coll| - 1], coll[|coll| - 1];
            Uninstalls(coll, known) ==
            if last.name in known then Uninstalls(front, known) else Uninstalls(front, known) + [UninstallFor(last)]
  {
    var front := coll[..|coll| - 1];
    assert Uninstalls(front, known) + [] == Uninstalls(front, known);
  }

  lemma {:induction false} PackagesLast(coll: seq<Package>, n: string)
    requires DistinctPackages(coll) && coll != []
    ensures var front, last := coll[..|coll| - 1], coll[|coll| - 1];
            && DistinctPackages(front)
            && ((exists p :: p in coll && p.name == n) <==> last.name == n || exists p :: p in front && p.name == n)
            && !(last.name == n && exists p :: p in front && p.name == n)
  {
    var front, last := coll[..|coll| - 1], coll[|coll| - 1];
    assert coll == front + [last];
  }

  lemma {:induction false} RemovalNames(coll: seq<Package>, known: map<string, Incoming>, n: string)
    requires DistinctPackages(coll)
    ensures NamesIn(UninstallEntries(Uninstalls(coll, known)))[n]
         == if n !in known && (exists p :: p in coll && p.name == n) then 1 else 0
  {
    if coll == [] {
      assert UninstallEntries(Uninstalls(coll, known)) == [];
    } else {
      hide *;
      var front, last := coll[..|coll| - 1], coll[|coll| - 1];
      PackagesLast(coll, n);
      RemovalNames(front, known, n);
      UninstallsLast(coll, known);
      UninstallSnoc(Uninstalls(front, known), last);
    }
  }

  lemma {:induction false} UninstallSnoc(acts: seq<PlannedAction>, p: Package)
    ensures NamesIn(UninstallEntries(acts + [UninstallFor(p)])) == NamesIn(UninstallEntries(acts)) + multiset{p.name}
  {
    assert UninstallEntries(acts + [UninstallFor(p)]) == UninstallEntries(acts) + [RemovalOf(p)];
    NamesSnoc(UninstallEntries(acts), RemovalOf(p));
  }

  lemma {:induction false} GroupSnoc(slot: Slot, groups: seq<Group>, reg: Registry, d: Incoming)
    requires Keyed(reg) && GroupFor(reg, d) != []
    ensures NamesIn(GroupEntries(slot, groups + [GroupFor(reg, d)])) ==
              NamesIn(GroupEntries(slot, groups)) + multiset{d.name}
  {
    GroupNames(reg, d);
    assert GroupFor(reg, d)[0] in GroupFor(reg, d);
    hide GroupFor;
    BucketSnoc(slot, groups, GroupFor(reg, d));
    NamesSnoc(GroupEntries(slot, groups), Entry(slot, GroupFor(reg, d)));
  }

  lemma {:induction false} GroupsAtLast(reg: Registry, desired: seq<Incoming>, order: Option<int>, n: string)
    requires desired != []
    ensures var front, last := desired[..|desired| - 1], desired[|desired| - 1];
            if last.order == order && GroupFor(reg, last) != [] then
              && GroupsAt(reg, desired, order) == GroupsAt(reg, front, order) + [GroupFor(reg, last)]
              && ListingsAt(reg, desired, n, order) ==
                 ListingsAt(reg, front, n, order) + (if last.name == n then 1 else 0)
            else
              && GroupsAt(reg, desired, order) == GroupsAt(reg, front, order)
              && ListingsAt(reg, desired, n, order) == ListingsAt(reg, front, n, order)
  {
    GroupIffNeedsWork(reg, desired[|desired| - 1]);
    hide GroupFor, NeedsWork;
  }

  lemma {:induction false} BucketNames(reg: Registry, desired: seq<Incoming>, order: Option<int>, slot: Slot, n: string)
    requires Keyed(reg)
    ensures NamesIn(GroupEntries(slot, GroupsAt(reg, desired, order)))[n] == ListingsAt(reg, desired, n, order)
  {
    if desired == [] {
      BucketEmpty(slot);
      hide GroupEntries;
    } else {
      hide *;
      var front, last := desired[..|desired| - 1], desired[|desired| - 1];
      BucketNames(reg, front, order, slot, n);
      GroupsAtLast(reg, desired, order, n);
      if last.order == order && GroupFor(reg, last) != [] {
        GroupSnoc(slot, GroupsAt(reg, front, order), reg, last);
      }
    }
  }

  lemma {:induction false} OrderedNames(reg: Registry, desired: seq<Incoming>, orders: seq<int>, ordered: map<int,
                                        seq<Group>>, n: string)
    requires Keyed(reg) && (forall o :: o in orders ==> o in ordered && ordered[o] == GroupsAt(reg, desired, Some(o)))
    ensures NamesIn(OrderedEntries(orders, ordered))[n] == ListingsAtAny(reg, desired, n, orders)
  {
    hide GroupsAt, ListingsAt;
    if orders != [] {
      var front, last := orders[..|orders| - 1], orders[|orders| - 1];
      OrderedNames(reg, desired, front, ordered, n);
      BucketNames(reg, desired, Some(last), Ordered(last), n);
      NamesConcat(OrderedEntries(front, ordered), GroupEntries(Ordered(last), ordered[last]));
    }
  }

  lemma {:induction false} AnySnoc(reg: Registry, desired: seq<Incoming>, n: string, orders: seq<int>)
    requires desired != [] && forall i, j :: 0 <= i < j < |orders| ==> orders[i] < orders[j]
    ensures var front, last := desired[..|desired| - 1], desired[|desired| - 1];
            ListingsAtAny(reg, desired, n, orders) ==
            ListingsAtAny(reg, front, n, orders)
            + (if last.order.Some? && last.order.value in orders && last.name == n && NeedsWork(reg, last) then 1
               else 0)
  {
    hide NeedsWork;
    if orders != [] {
      AnySnoc(reg, desired, n, orders[..|orders| - 1]);
      assert forall o :: o in orders <==> o in orders[..|orders| - 1] || o == orders[|orders| - 1];
    }
  }

  lemma {:induction false} AnyOfNone(reg: Registry, n: string, orders: seq<int>)
    ensures ListingsAtAny(reg, [], n, orders) == 0
  {
    if orders != [] {
      AnyOfNone(reg, n, orders[..|orders| - 1]);
    }
  }

  lemma {:induction false} ListingsByOrder(reg: Registry, desired: seq<Incoming>, n: string, orders: seq<int>)
    requires forall i, j :: 0 <= i < j < |orders| ==> orders[i] < orders[j]
    requires forall d :: d in desired && d.order.Some? && NeedsWork(reg, d) ==> d.order.value in orders
    ensures Listings(reg, desired, n) == ListingsAtAny(reg, desired, n, orders) + ListingsAt(reg, desired, n, None)
  {
    hide NeedsWork;
    if desired == [] {
      AnyOfNone(reg, n, orders);
    } else {
      var last := desired[|desired| - 1];
      assert last in desired;
      ListingsByOrder(reg, desired[..|desired| - 1], n, orders);
      AnySnoc(reg, desired, n, orders);
    }
  }

  lemma {:induction false} EveryOrderPlanned(plan: Plan, coll: seq<Package>, reg: Registry, desired: seq<Incoming>,
                                             d: Incoming)
    requires IsPlanOf(plan, coll, reg, desired) && d in desired && d.order.Some? && NeedsWork(reg, d)
    ensures d.order.value in plan.sortedOrder
  {
    GroupIffNeedsWork(reg, d);
    GroupsAtMembers(reg, desired, d.order);
    hide GroupFor, GroupsAt, NeedsWork;
    var o := d.order.value;
    assert d.order == Some(o) && GroupFor(reg, d) in GroupsAt(reg, desired, Some(o));
    assert o in plan.ordered;
  }

  /** How often a plan works on `n`, whatever the list: once for every listing that needs work, and once more if it is
      installed and unknown to the first pass. */
  lemma {:induction false} TimesPlanned(plan: Plan, coll: seq<Package>, reg: Registry, desired: seq<Incoming>,
                                        n: string)
    requires Keyed(reg) && IsCollectionOf(coll, reg) && IsPlanOf(plan, coll, reg, desired)
    ensures NamesIn(Schedule(plan))[n] == Removals(reg, desired, n) + Listings(reg, desired, n)
  {
    var known := PopulateDesiredFrom(map[], desired).0;
    var us, os, rest :=
      UninstallEntries(plan.uninstalls),
      OrderedEntries(plan.sortedOrder, plan.ordered),
      GroupEntries(Unordered, plan.unordered);
    forall d | d in desired && d.order.Some? && NeedsWork(reg, d)
      ensures d.order.value in plan.sortedOrder
    {
      EveryOrderPlanned(plan, coll, reg, desired, d);
    }
    assert n in reg <==> exists p :: p in coll && p.name == n by {
      if n in reg {
        assert reg[n] in coll;
      }
    }
    hide GroupsAt, NeedsWork, Uninstalls, NamesIn, UninstallEntries;
    hide OrderedEntries, GroupEntries, Listings, ListingsAt, ListingsAtAny;
    RemovalNames(coll, known, n);
    OrderedNames(reg, desired, plan.sortedOrder, plan.ordered, n);
    BucketNames(reg, desired, None, Unordered, n);
    ListingsByOrder(reg, desired, n, plan.sortedOrder);
    NamesConcat(us + os, rest);
    NamesConcat(us, os);
  }

  /** None of the names is in `m`, and none repeats. */
  ghost predicate NewNames(m: map<string, Incoming>, desired: seq<Incoming>) {
    DistinctDesired(desired) && forall i :: 0 <= i < |desired| ==> desired[i].name !in m
  }

  lemma {:induction false} NewNamesCons(m: map<string, Incoming>, d: Incoming, rest: seq<Incoming>)
    requires d.name !in m && NewNames(m[d.name := d], rest)
    ensures NewNames(m, [d] + rest)
  {
    var all := [d] + rest;
    forall i, j | 0 <= i < j < |all|
      ensures all[i].name != all[j].name
    {
      assert all[j] == rest[j - 1];
    }
    forall i | 0 <= i < |all|
      ensures all[i].name !in m
    {
      assert i > 0 ==> all[i] == rest[i - 1];
    }
  }

  lemma {:induction false} DesiredCons(d: Incoming, rest: seq<Incoming>, n: string)
    ensures IsDesired([d] + rest, n) <==> n == d.name || IsDesired(rest, n)
  {
    var all := [d] + rest;
    assert all[0] in all && forall e :: e in all <==> e == d || e in rest;
  }

  /** The first pass stops at the first repetition, position `k`, and knows the names listed before it. */
  lemma {:induction false} FirstRepetition(m: map<string, Incoming>, desired: seq<Incoming>) returns (k: nat)
    ensures k <= |desired| && NewNames(m, desired[..k])
    ensures k < |desired| ==> desired[k].name in m || IsDesired(desired[..k], desired[k].name)
    ensures forall n :: n in PopulateDesiredFrom(m, desired).0 <==> n in m || IsDesired(desired[..k], n)
    decreases desired
  {
    if desired == [] || desired[0].name in m {
      k := 0;
      assert desired[..0] == [];
    } else {
      var d, rest := desired[0], desired[1..];
      var l := FirstRepetition(m[d.name := d], rest);
      k := l + 1;
      assert desired[..k] == [d] + rest[..l];
      hide DistinctDesired;
      NewNamesCons(m, d, rest[..l]);
      hide NewNames, IsDesired;
      forall n
        ensures IsDesired(desired[..k], n) <==> n == d.name || IsDesired(rest[..l], n)
      {
        DesiredCons(d, rest[..l], n);
      }
    }
  }

  /** `n` is listed at a position up to which no name repeats. */
  ghost predicate ListedBeforeRepetition(desired: seq<Incoming>, n: string) {
    exists i :: 0 <= i < |desired| && desired[i].name == n && DistinctDesired(desired[..i + 1])
  }

  /** The first pass knows exactly the names listed before the first repetition. */
  lemma {:induction false} KnownNames(desired: seq<Incoming>, n: string)
    ensures n in PopulateDesiredFrom(map[], desired).0 <==> ListedBeforeRepetition(desired, n)
  {
    var k := FirstRepetition(map[], desired);
    hide PopulateDesiredFrom;
    if IsDesired(desired[..k], n) {
      var i := IndexOf(desired[..k], n);
      DistinctPrefix(desired[..k], i + 1);
      assert desired[..k][..i + 1] == desired[..i + 1];
    }
    if i :| 0 <= i < |desired| && desired[i].name == n && DistinctDesired(desired[..i + 1]) {
      if k <= i {
        RepeatsUpTo(desired, k, i);
      } else {
        assert desired[..k][i] in desired[..k];
      }
    }
  }

  lemma {:induction false} RepeatsUpTo(desired: seq<Incoming>, k: nat, i: nat)
    requires k <= i < |desired| && IsDesired(desired[..k], desired[k].name)
    ensures !DistinctDesired(desired[..i + 1])
  {
    var j := IndexOf(desired[..k], desired[k].name);
    var all := desired[..i + 1];
    assert all[j].name == all[k].name;
  }

  lemma {:induction false} IndexOf(desired: seq<Incoming>, n: string) returns (i: nat)
    requires IsDesired(desired, n)
    ensures i < |desired| && desired[i].name == n
  {
    var d :| d in desired && d.name == n;
    i :| 0 <= i < |desired| && desired[i] == d;
  }

  lemma {:induction false} DistinctPrefix(desired: seq<Incoming>, k: nat)
    requires DistinctDesired(desired) && k <= |desired|
    ensures DistinctDesired(desired[..k])
  {
  }

  /** `n` is listed at position `i` and needs work. */
  ghost predicate WorkAt(reg: Registry, desired: seq<Incoming>, n: string, i: int) {
    0 <= i < |desired| && desired[i].name == n && NeedsWork(reg, desired[i])
  }

  lemma {:induction false} WorkAtPrefix(reg: Registry, desired: seq<Incoming>, n: string, i: int)
    requires desired != [] && i < |desired| - 1
    ensures WorkAt(reg, desired, n, i) <==> WorkAt(reg, desired[..|desired| - 1], n, i)
  {
    hide NeedsWork;
  }

  lemma {:induction false} SomeListing(reg: Registry, desired: seq<Incoming>, n: string)
    ensures Listings(reg, desired, n) > 0 <==> exists i :: WorkAt(reg, desired, n, i)
  {
    hide NeedsWork;
    if desired != [] {
      var front, last := desired[..|desired| - 1], |desired| - 1;
      SomeListing(reg, front, n);
      if i :| WorkAt(reg, front, n, i) {
        WorkAtPrefix(reg, desired, n, i);
      }
      if i :| WorkAt(reg, desired, n, i) && i < last {
        WorkAtPrefix(reg, desired, n, i);
      }
      assert WorkAt(reg, desired, n, last) <==> desired[last].name == n && NeedsWork(reg, desired[last]);
    }
  }

  lemma {:induction false} TwoListings(reg: Registry, desired: seq<Incoming>, n: string)
    ensures Listings(reg, desired, n) > 1
       <==> exists i, j :: i < j && WorkAt(reg, desired, n, i) && WorkAt(reg, desired, n, j)
  {
    hide NeedsWork;
    if desired != [] {
      var front, last := desired[..|desired| - 1], |desired| - 1;
      TwoListings(reg, front, n);
      SomeListing(reg, front, n);
      if Listings(reg, desired, n) > 1 {
        if i, j :| i < j && WorkAt(reg, front, n, i) && WorkAt(reg, front, n, j) {
          WorkAtPrefix(reg, desired, n, i);
          WorkAtPrefix(reg, desired, n, j);
        } else {
          var i :| WorkAt(reg, front, n, i);
          WorkAtPrefix(reg, desired, n, i);
          assert WorkAt(reg, desired, n, last);
        }
      }
      if i, j :| i < j && WorkAt(reg, desired, n, i) && WorkAt(reg, desired, n, j) {
        WorkAtPrefix(reg, desired, n, i);
        if j < last {
          WorkAtPrefix(reg, desired, n, j);
        }
      }
    }
  }

  /** `n` is listed twice with something to do, or it is installed, has something to do, and is first listed after a
      repetition. */
  ghost predicate TwoReasons(reg: Registry, desired: seq<Incoming>, n: string) {
    || (exists i, j :: i < j && WorkAt(reg, desired, n, i) && WorkAt(reg, desired, n, j))
    || (n in reg && (exists i :: WorkAt(reg, desired, n, i)) && !ListedBeforeRepetition(desired, n))
  }

  lemma {:induction false} TwoReasonsIff(reg: Registry, desired: seq<Incoming>, n: string)
    ensures TwoReasons(reg, desired, n) <==> Removals(reg, desired, n) + Listings(reg, desired, n) > 1
  {
    KnownNames(desired, n);
    SomeListing(reg, desired, n);
    TwoListings(reg, desired, n);
    hide Listings, WorkAt, ListedBeforeRepetition, PopulateDesiredFrom;
  }

  /** A plan works on every application at most once exactly when no name is listed twice with something to do, and no
      installed application that has something to do is first listed after a repetition. Repeated names that need no
      work do no harm; the planner drops the error that would reveal the others. */
  lemma {:induction false} PlannedOnceIff(plan: Plan, coll: seq<Package>, reg: Registry, desired: seq<Incoming>)
    requires Keyed(reg) && IsCollectionOf(coll, reg) && IsPlanOf(plan, coll, reg, desired)
    ensures NamedOnce(Schedule(plan)) <==> forall n :: !TwoReasons(reg, desired, n)
  {
    assert Coherent(plan);
    hide *;
    NamedOnceIff(Schedule(plan));
    var names := NamesIn(Schedule(plan));
    if n :| TwoReasons(reg, desired, n) {
      TimesPlanned(plan, coll, reg, desired, n);
      TwoReasonsIff(reg, desired, n);
      assert names[n] > 1;
    } else {
      forall n
        ensures names[n] <= 1
      {
        TimesPlanned(plan, coll, reg, desired, n);
        TwoReasonsIff(reg, desired, n);
      }
    }
  }

  lemma {:induction false} InOrderedEntries(orders: seq<int>, ordered: map<int, seq<Group>>, o: int, g: Group)
    requires (forall x :: x in orders ==> x in ordered) && o in orders && g in ordered[o]
    ensures Entry(Ordered(o), g) in OrderedEntries(orders, ordered)
  {
    var last, front := orders[|orders| - 1], orders[..|orders| - 1];
    if o == last {
      InBucket(Ordered(o), ordered[o], g);
    } else {
      assert orders == front + [last];
      InOrderedEntries(front, ordered, o, g);
    }
  }

  lemma {:induction false} InBucket(slot: Slot, groups: seq<Group>, g: Group)
    requires g in groups
    ensures Entry(slot, g) in GroupEntries(slot, groups)
  {
    var i :| 0 <= i < |groups| && groups[i] == g;
    assert GroupEntries(slot, groups)[i] == Entry(slot, g);
  }

  /** Whatever the list, every listing that needs work is planned ... */
  lemma {:induction false} ListingIsPlanned(plan: Plan, coll: seq<Package>, reg: Registry, desired: seq<Incoming>,
                                            d: Incoming)
    requires IsPlanOf(plan, coll, reg, desired) && d in desired && NeedsWork(reg, d)
    ensures EntryFor(reg, d) in Schedule(plan)
  {
    GroupIffNeedsWork(reg, d);
    GroupsAtMembers(reg, desired, d.order);
    hide GroupFor, GroupsAt;
    var g := GroupFor(reg, d);
    assert g in GroupsAt(reg, desired, d.order);
    if d.order.Some? {
      EveryOrderPlanned(plan, coll, reg, desired, d);
      var o := d.order.value;
      assert d.order == Some(o) && o in plan.ordered && g in plan.ordered[o];
      InOrderedEntries(plan.sortedOrder, plan.ordered, o, g);
    } else {
      InBucket(Unordered, plan.unordered, g);
    }
  }

  /** ... and so is the removal of every installed application that the first pass does not know. */
  lemma {:induction false} UnknownIsRemoved(plan: Plan, coll: seq<Package>, reg: Registry, desired: seq<Incoming>,
                                            n: string)
    requires IsCollectionOf(coll, reg) && IsPlanOf(plan, coll, reg, desired)
    requires n in reg && reg[n].name == n && !ListedBeforeRepetition(desired, n)
    ensures RemovalOf(reg[n]) in Schedule(plan)
  {
    KnownNames(desired, n);
    UninstallsMembers(coll, PopulateDesiredFrom(map[], desired).0);
    hide ListedBeforeRepetition, PopulateDesiredFrom, Uninstalls;
    assert UninstallFor(reg[n]) in plan.uninstalls;
    var i :| 0 <= i < |plan.uninstalls| && plan.uninstalls[i] == UninstallFor(reg[n]);
    assert UninstallEntries(plan.uninstalls)[i] == RemovalOf(reg[n]);
  }

  /** A list that breaks it: an application is installed at another version, and another name repeats before it is
      listed. Every plan for that list removes it for good and brings it to its new version. */
  lemma {:induction false} RemovedAndWorkedOn(plan: Plan, coll: seq<Package>, d: Incoming, e: Incoming,
                                              installed: Package)
    requires d.name != e.name && installed.name == e.name && !VersionsEqual(installed.version, e.version)
    requires IsCollectionOf(coll, map[e.name := installed]) && IsPlanOf(plan, coll, map[e.name := installed], [d, d, e])
    ensures var reg := map[e.name := installed];
            && RemovalOf(installed) in Schedule(plan) && EntryFor(reg, e) in Schedule(plan)
            && RemovalOf(installed) != EntryFor(reg, e)
            && NameOf(RemovalOf(installed)) == NameOf(EntryFor(reg, e)) == e.name
  {
    var reg: Registry, desired := map[e.name := installed], [d, d, e];
    assert e in desired && NeedsWork(reg, e);
    GroupIffNeedsWork(reg, e);
    GroupNames(reg, e);
    assert GroupFor(reg, e)[0] in GroupFor(reg, e);
    hide VersionsEqual, GroupFor, Schedule, IsPlanOf;
    forall i | 0 <= i < 3 && desired[i].name == e.name
      ensures !DistinctDesired(desired[..i + 1])
    {
      assert desired[..i + 1][0].name == desired[..i + 1][1].name;
    }
    UnknownIsRemoved(plan, coll, reg, desired, e.name);
    ListingIsPlanned(plan, coll, reg, desired, e);
  }

  // ----- Distinct names ---------------------------------------------------------------------------------------------

  lemma {:induction false} DistinctListings(reg: Registry, desired: seq<Incoming>, n: string)
    requires DistinctDesired(desired)
    ensures Listings(reg, desired, n) == if exists d :: d in desired && d.name == n && NeedsWork(reg, d) then 1 else 0
  {
    hide NeedsWork;
    if desired != [] {
      var front, last := desired[..|desired| - 1], desired[|desired| - 1];
      assert desired == front + [last];
      DistinctListings(reg, front, n);
      assert forall d :: d in front ==> d.name != last.name;
      assert forall d :: d in desired <==> d in front || d == last;
    }
  }

  /** With distinct names every application is planned at most once: a desired one exactly when it needs work, any other
      exactly when it is installed. */
  lemma {:induction false} PlannedExactly(plan: Plan, coll: seq<Package>, reg: Registry, desired: seq<Incoming>,
                                          n: string)
    requires Keyed(reg) && DistinctDesired(desired)
    requires IsCollectionOf(coll, reg) && IsPlanOf(plan, coll, reg, desired)
    ensures NamesIn(Schedule(plan))[n] ==
            if (exists d :: d in desired && d.name == n && NeedsWork(reg, d)) then 1
            else if n in reg && !IsDesired(desired, n) then 1
            else 0
  {
    TimesPlanned(plan, coll, reg, desired, n);
    PopulateDesiredKeys(map[], desired);
    DistinctListings(reg, desired, n);
    hide NamesIn, Listings, Schedule, IsPlanOf, NeedsWork, PopulateDesiredFrom;
  }
}

/** A plan is a partition of the applications that need work, laid out as a stable sort by order. */
module Schedules {
  import opened Options
  import opened Packages
  import opened Planning
  import opened Versions
  import Sorting

  ghost function SlotOf(d: Incoming): Slot {
    if d.order.Some? then Ordered(d.order.value) else Unordered
  }

  ghost function EntryFor(reg: Registry, d: Incoming): Entry {
    Entry(SlotOf(d), GroupFor(reg, d))
  }

  ghost function RemovalOf(p: Package): Entry {
    Entry(Uninstall, [UninstallFor(p)])
  }

  ghost predicate IsRemovalEntry(reg: Registry, desired: seq<Incoming>, e: Entry) {
    exists n :: n in reg && !IsDesired(desired, n) && e == RemovalOf(reg[n])
  }

  ghost predicate IsDesiredEntry(reg: Registry, desired: seq<Incoming>, e: Entry) {
    exists d :: d in desired && GroupFor(reg, d) != [] && e == EntryFor(reg, d)
  }

  ghost predicate IsEntry(reg: Registry, desired: seq<Incoming>, e: Entry) {
    e.acts != [] && (IsRemovalEntry(reg, desired, e) || IsDesiredEntry(reg, desired, e))
  }

  /** The application an entry is about; all its actions name the same one. */
  ghost function NameOf(e: Entry): string {
    if e.acts == [] then "" else e.acts[0].pkg.name
  }

  ghost predicate SlotLeq(a: Slot, b: Slot) {
    match (a, b)
    case (Uninstall, _) => true
    case (Ordered(x), Ordered(y)) => x <= y
    case (Ordered(_), Unordered) => true
    case (Unordered, Unordered) => true
    case _ => false
  }

  /** Every application that needs work has exactly one entry; uninstalls come first, then orders upwards, then the
      rest. */
  ghost predicate IsSchedule(es: seq<Entry>, reg: Registry, desired: seq<Incoming>) {
    && (forall i :: 0 <= i < |es| ==> IsEntry(reg, desired, es[i]))
    && (forall i, j :: 0 <= i < j < |es| ==> NameOf(es[i]) != NameOf(es[j]))
    && (forall i, j :: 0 <= i < j < |es| ==> SlotLeq(es[i].slot, es[j].slot))
    && (forall d :: d in desired && GroupFor(reg, d) != [] ==> EntryFor(reg, d) in es)
    && (forall n :: n in reg && !IsDesired(desired, n) ==> RemovalOf(reg[n]) in es)
  }

  // ----- Entries and names ------------------------------------------------------------------------

  lemma {:induction false} GroupNames(reg: Registry, d: Incoming)
    requires Keyed(reg)
    ensures forall act :: act in GroupFor(reg, d) ==> act.pkg.name == d.name
  {
    hide VersionsEqual;
  }

  lemma {:induction false} EntryNames(reg: Registry, desired: seq<Incoming>, e: Entry)
    requires Keyed(reg) && IsEntry(reg, desired, e)
    ensures forall act :: act in e.acts ==> act.pkg.name == NameOf(e)
    ensures IsRemovalEntry(reg, desired, e) ==>
              NameOf(e) in reg && !IsDesired(desired, NameOf(e)) && e == RemovalOf(reg[NameOf(e)])
    ensures IsDesiredEntry(reg, desired, e) ==>
              IsDesired(desired, NameOf(e))
              && (exists d :: d in desired && d.name == NameOf(e) && GroupFor(reg, d) != [] && e == EntryFor(reg, d))
  {
    hide GroupFor;
    if IsDesiredEntry(reg, desired, e) {
      var d :| d in desired && GroupFor(reg, d) != [] && e == EntryFor(reg, d);
      GroupNames(reg, d);
      assert e.acts[0] in e.acts;
    }
  }

  lemma {:induction false} DesiredByName(desired: seq<Incoming>, d: Incoming, e: Incoming)
    requires DistinctDesired(desired) && d in desired && e in desired && d.name == e.name
    ensures d == e
  {
    var i :| 0 <= i < |desired| && desired[i] == d;
    var j :| 0 <= j < |desired| && desired[j] == e;
    assert i == j;
  }

  /** The name decides the entry. */
  lemma {:induction false} NameDecidesEntry(reg: Registry, desired: seq<Incoming>, e: Entry, f: Entry)
    requires Keyed(reg) && DistinctDesired(desired)
    requires IsEntry(reg, desired, e) && IsEntry(reg, desired, f) && NameOf(e) == NameOf(f)
    ensures e == f
  {
    EntryNames(reg, desired, e);
    EntryNames(reg, desired, f);
    if IsDesiredEntry(reg, desired, e) {
      var d :| d in desired && d.name == NameOf(e) && GroupFor(reg, d) != [] && e == EntryFor(reg, d);
      var d' :| d' in desired && d'.name == NameOf(f) && GroupFor(reg, d') != [] && f == EntryFor(reg, d');
      DesiredByName(desired, d, d');
    }
  }

  // ----- The three parts of a schedule --------------------------------------------------------------

  lemma {:induction false} NoDuplicatesSnoc<T>(xs: seq<T>, x: T)
    requires Sorting.NoDuplicates(xs) && x !in xs
    ensures Sorting.NoDuplicates(xs + [x])
  {
    forall i, j | 0 <= i < j < |xs + [x]|
      ensures (xs + [x])[i] != (xs + [x])[j]
    {
      assert xs[i] in xs;
    }
  }

  lemma {:induction false} UninstallsMembers(coll: seq<Package>, known: map<string, Incoming>)
    ensures forall a :: a in Uninstalls(coll, known)
              <==> exists p :: p in coll && p.name !in known && a == UninstallFor(p)
  {
    if coll != [] {
      var last, front := coll[|coll| - 1], coll[..|coll| - 1];
      assert coll == front + [last];
      UninstallsMembers(front, known);
      forall a
        ensures a in Uninstalls(coll, known) <==> exists p :: p in coll && p.name !in known && a == UninstallFor(p)
      {
        if a in Uninstalls(front, known) {
          var p :| p in front && p.name !in known && a == UninstallFor(p);
          assert p in coll;
        }
        if exists p :: p in coll && p.name !in known && a == UninstallFor(p) {
          var p :| p in coll && p.name !in known && a == UninstallFor(p);
          assert p == last || p in front;
        }
      }
    }
  }

  lemma {:induction false} UninstallsNoRepeats(coll: seq<Package>, known: map<string, Incoming>)
    requires DistinctPackages(coll)
    ensures Sorting.NoDuplicates(Uninstalls(coll, known))
  {
    if coll != [] {
      var last, front := coll[|coll| - 1], coll[..|coll| - 1];
      UninstallsNoRepeats(front, known);
      UninstallsMembers(front, known);
      forall p | p in front
        ensures UninstallFor(p) != UninstallFor(last)
      {
        var i :| 0 <= i < |front| && front[i] == p;
        assert coll[i].name != coll[|coll| - 1].name;
      }
      NoDuplicatesSnoc(Uninstalls(front, known), UninstallFor(last));
      assert Uninstalls(front, known) + [] == Uninstalls(front, known);
    }
  }

  lemma {:induction false} GroupsAtMembers(reg: Registry, desired: seq<Incoming>, order: Option<int>)
    ensures forall g :: g in GroupsAt(reg, desired, order)
                    <==> exists d :: d in desired && d.order == order && g == GroupFor(reg, d) && g != []
  {
    hide GroupFor;
    if desired != [] {
      var last, front := desired[|desired| - 1], desired[..|desired| - 1];
      assert desired == front + [last];
      GroupsAtMembers(reg, front, order);
      forall g
        ensures g in GroupsAt(reg, desired, order)
           <==> exists d :: d in desired && d.order == order && g == GroupFor(reg, d) && g != []
      {
        if g in GroupsAt(reg, front, order) {
          var d :| d in front && d.order == order && g == GroupFor(reg, d) && g != [];
          assert d in desired;
        } else if g in GroupsAt(reg, desired, order) {
          assert last in desired && g == GroupFor(reg, last);
        }
        if exists d :: d in desired && d.order == order && g == GroupFor(reg, d) && g != [] {
          var d :| d in desired && d.order == order && g == GroupFor(reg, d) && g != [];
          assert d == last || d in front;
        }
      }
    }
  }

  lemma {:induction false} GroupsAtNoRepeats(reg: Registry, desired: seq<Incoming>, order: Option<int>)
    requires Keyed(reg) && DistinctDesired(desired)
    ensures Sorting.NoDuplicates(GroupsAt(reg, desired, order))
  {
    hide GroupFor;
    if desired != [] {
      var last, front := desired[|desired| - 1], desired[..|desired| - 1];
      GroupsAtNoRepeats(reg, front, order);
      GroupsAtMembers(reg, front, order);
      forall d | d in front && GroupFor(reg, d) != []
        ensures GroupFor(reg, d) != GroupFor(reg, last)
      {
        var i :| 0 <= i < |front| && front[i] == d;
        assert desired[i].name != desired[|desired| - 1].name;
        GroupNames(reg, d);
        GroupNames(reg, last);
        assert GroupFor(reg, d)[0] in GroupFor(reg, d);
      }
      if last.order == order && GroupFor(reg, last) != [] {
        NoDuplicatesSnoc(GroupsAt(reg, front, order), GroupFor(reg, last));
      }
    }
  }

  lemma {:induction false} OrderedMembers(orders: seq<int>, ordered: map<int, seq<Group>>)
    requires forall o :: o in orders ==> o in ordered && Sorting.NoDuplicates(ordered[o])
    requires forall i, j :: 0 <= i < j < |orders| ==> orders[i] < orders[j]
    ensures var es := OrderedEntries(orders, ordered);
            && (forall e :: e in es <==> e.slot.Ordered? && e.slot.order in orders && e.acts in ordered[e.slot.order])
            && Sorting.NoDuplicates(es)
            && (forall i, j :: 0 <= i < j < |es| ==> SlotLeq(es[i].slot, es[j].slot))
  {
    if orders != [] {
      var last, front := orders[|orders| - 1], orders[..|orders| - 1];
      OrderedMembers(front, ordered);
      var before, bucket := OrderedEntries(front, ordered), GroupEntries(Ordered(last), ordered[last]);
      assert orders == front + [last];
      assert last !in front;
      BucketMembers(Ordered(last), ordered[last]);
      var es := before + bucket;
      forall i, j | 0 <= i < j < |es|
        ensures es[i] != es[j] && SlotLeq(es[i].slot, es[j].slot)
      {
        if i < |before| {
          assert es[i] in before;
        }
        if j >= |before| {
          assert es[j] in bucket;
        }
      }
    }
  }

  lemma {:induction false} BucketMembers(slot: Slot, groups: seq<Group>)
    requires Sorting.NoDuplicates(groups)
    ensures forall e :: e in GroupEntries(slot, groups) <==> e.slot == slot && e.acts in groups
    ensures Sorting.NoDuplicates(GroupEntries(slot, groups))
  {
    var es := GroupEntries(slot, groups);
    forall e: Entry
      ensures e in es <==> e.slot == slot && e.acts in groups
    {
      if e.slot == slot && e.acts in groups {
        var i :| 0 <= i < |groups| && groups[i] == e.acts;
        assert es[i] == e;
      }
    }
  }

  lemma {:induction false} UninstallEntryMembers(acts: seq<PlannedAction>)
    requires Sorting.NoDuplicates(acts)
    ensures forall e :: e in UninstallEntries(acts) <==> e.slot == Uninstall && |e.acts| == 1 && e.acts[0] in acts
    ensures Sorting.NoDuplicates(UninstallEntries(acts))
  {
    var es := UninstallEntries(acts);
    forall e: Entry
      ensures e in es <==> e.slot == Uninstall && |e.acts| == 1 && e.acts[0] in acts
    {
      if e.slot == Uninstall && |e.acts| == 1 && e.acts[0] in acts {
        var i :| 0 <= i < |acts| && acts[i] == e.acts[0];
        assert es[i] == e;
      }
    }
    forall i, j | 0 <= i < j < |es|
      ensures es[i] != es[j]
    {
      assert es[i].acts[0] == acts[i] && es[j].acts[0] == acts[j];
    }
  }

  lemma {:induction false} ScheduleMembers(plan: Plan, coll: seq<Package>, reg: Registry, desired: seq<Incoming>)
    requires Keyed(reg) && DistinctDesired(desired)
    requires IsCollectionOf(coll, reg) && IsPlanOf(plan, coll, reg, desired)
    ensures forall e :: e in Schedule(plan) <==> IsEntry(reg, desired, e)
    ensures Sorting.NoDuplicates(Schedule(plan))
    ensures forall i, j :: 0 <= i < j < |Schedule(plan)| ==> SlotLeq(Schedule(plan)[i].slot, Schedule(plan)[j].slot)
  {
    var known := PopulateDesiredFrom(map[], desired).0;
    PopulateDesiredKeys(map[], desired);
    UninstallsMembers(coll, known);
    UninstallsNoRepeats(coll, known);
    UninstallEntryMembers(plan.uninstalls);
    GroupsAtNoRepeats(reg, desired, None);
    BucketMembers(Unordered, plan.unordered);
    forall o | o in plan.ordered
      ensures Sorting.NoDuplicates(plan.ordered[o])
    {
      GroupsAtNoRepeats(reg, desired, Some(o));
    }
    OrderedMembers(plan.sortedOrder, plan.ordered);
    var us, os, rest :=
      UninstallEntries(plan.uninstalls),
      OrderedEntries(plan.sortedOrder, plan.ordered),
      GroupEntries(Unordered, plan.unordered);
    forall e: Entry
      ensures e in us <==> e.acts != [] && IsRemovalEntry(reg, desired, e)
    {
      RemovalPart(plan, coll, reg, desired, known, e);
    }
    forall e: Entry
      ensures e in os + rest <==> e.acts != [] && IsDesiredEntry(reg, desired, e)
    {
      DesiredPart(plan, coll, reg, desired, e);
    }
    var es := Schedule(plan);
    assert es == us + os + rest;
    forall i, j | 0 <= i < j < |es|
      ensures es[i] != es[j] && SlotLeq(es[i].slot, es[j].slot)
    {
      PartsInOrder(us, os, rest, i, j);
    }
  }

  lemma {:induction false} RemovalPart(plan: Plan, coll: seq<Package>, reg: Registry, desired: seq<Incoming>,
                                       known: map<string, Incoming>, e: Entry)
    requires Keyed(reg) && IsCollectionOf(coll, reg) && IsPlanOf(plan, coll, reg, desired)
    requires forall n :: n in known <==> IsDesired(desired, n)
    requires forall a :: a in plan.uninstalls <==> exists p :: p in coll && p.name !in known && a == UninstallFor(p)
    requires forall e :: e in UninstallEntries(plan.uninstalls)
               <==> e.slot == Uninstall && |e.acts| == 1 && e.acts[0] in plan.uninstalls
    ensures e in UninstallEntries(plan.uninstalls) <==> e.acts != [] && IsRemovalEntry(reg, desired, e)
  {
    if e in UninstallEntries(plan.uninstalls) {
      var p :| p in coll && p.name !in known && e.acts[0] == UninstallFor(p);
      assert e.acts == [UninstallFor(p)];
      assert reg[p.name] == p && e == RemovalOf(reg[p.name]);
    }
    if IsRemovalEntry(reg, desired, e) {
      var n :| n in reg && !IsDesired(desired, n) && e == RemovalOf(reg[n]);
      assert reg[n] in coll && reg[n].name == n;
    }
  }

  lemma {:induction false} DesiredPart(plan: Plan, coll: seq<Package>, reg: Registry, desired: seq<Incoming>, e: Entry)
    requires Keyed(reg) && DistinctDesired(desired) && IsPlanOf(plan, coll, reg, desired)
    requires forall e :: e in OrderedEntries(plan.sortedOrder, plan.ordered)
                     <==> e.slot.Ordered? && e.slot.order in plan.sortedOrder && e.acts in plan.ordered[e.slot.order]
    requires forall e :: e in GroupEntries(Unordered, plan.unordered)
               <==> e.slot == Unordered && e.acts in plan.unordered
    ensures e in OrderedEntries(plan.sortedOrder, plan.ordered) + GroupEntries(Unordered, plan.unordered)
       <==> e.acts != [] && IsDesiredEntry(reg, desired, e)
  {
    hide GroupFor;
    var order := if e.slot.Ordered? then Some(e.slot.order) else None;
    GroupsAtMembers(reg, desired, order);
    if e in OrderedEntries(plan.sortedOrder, plan.ordered) + GroupEntries(Unordered, plan.unordered) {
      assert e.acts in GroupsAt(reg, desired, order);
      var d :| d in desired && d.order == order && e.acts == GroupFor(reg, d) && e.acts != [];
      assert e == EntryFor(reg, d);
    }
    if IsDesiredEntry(reg, desired, e) {
      var d :| d in desired && GroupFor(reg, d) != [] && e == EntryFor(reg, d);
      assert d.order == order;
      assert e.acts in GroupsAt(reg, desired, order);
    }
  }

  lemma {:induction false} PartsInOrder(us: seq<Entry>, os: seq<Entry>, rest: seq<Entry>, i: nat, j: nat)
    requires forall e :: e in us ==> e.slot == Uninstall
    requires forall e :: e in os ==> e.slot.Ordered?
    requires forall e :: e in rest ==> e.slot == Unordered
    requires Sorting.NoDuplicates(us) && Sorting.NoDuplicates(os) && Sorting.NoDuplicates(rest)
    requires forall i, j :: 0 <= i < j < |os| ==> SlotLeq(os[i].slot, os[j].slot)
    requires i < j < |us + os + rest|
    ensures (us + os + rest)[i] != (us + os + rest)[j]
    ensures SlotLeq((us + os + rest)[i].slot, (us + os + rest)[j].slot)
  {
    var es := us + os + rest;
    assert forall k :: 0 <= k < |es| ==>
      es[k] == if k < |us| then us[k] else if k < |us| + |os| then os[k - |us|] else rest[k - |us| - |os|];
    if i < |us| {
      assert us[i] in us;
    } else if i < |us| + |os| {
      assert os[i - |us|] in os;
    } else {
      assert rest[i - |us| - |os|] in rest;
    }
    if j < |us| {
      assert us[j] in us;
    } else if j < |us| + |os| {
      assert os[j - |us|] in os;
    } else {
      assert rest[j - |us| - |os|] in rest;
    }
  }

  /** Every plan for distinct desired names is a schedule: a partition of the applications that need work. */
  lemma {:induction false} PlanIsSchedule(plan: Plan, coll: seq<Package>, reg: Registry, desired: seq<Incoming>)
    requires Keyed(reg) && DistinctDesired(desired)
    requires IsCollectionOf(coll, reg) && IsPlanOf(plan, coll, reg, desired)
    ensures IsSchedule(Schedule(plan), reg, desired)
  {
    var es := Schedule(plan);
    ScheduleMembers(plan, coll, reg, desired);
    forall i, j | 0 <= i < j < |es|
      ensures NameOf(es[i]) != NameOf(es[j])
    {
      assert es[i] in es && es[j] in es;
      if NameOf(es[i]) == NameOf(es[j]) {
        NameDecidesEntry(reg, desired, es[i], es[j]);
        assert false;
      }
    }
    forall d | d in desired && GroupFor(reg, d) != []
      ensures EntryFor(reg, d) in es
    {
      assert IsDesiredEntry(reg, desired, EntryFor(reg, d));
    }
    forall n | n in reg && !IsDesired(desired, n)
      ensures RemovalOf(reg[n]) in es
    {
      assert IsRemovalEntry(reg, desired, RemovalOf(reg[n]));
    }
  }

  // ----- The ordered part is the stable sort ------------------------------------------------------

  /** The ordered applications that need work, in the order the user listed them. */
  ghost function OrderedAsListed(reg: Registry, desired: seq<Incoming>): seq<Entry> {
    if desired == [] then []
    else
      var last := desired[|desired| - 1];
      OrderedAsListed(reg, desired[..|desired| - 1])
      + (if last.order.Some? && GroupFor(reg, last) != [] then [EntryFor(reg, last)] else [])
  }

  ghost function AtOrder(es: seq<Entry>, o: int): seq<Entry> {
    if es == [] then []
    else
      AtOrder(es[..|es| - 1], o) + (if es[|es| - 1].slot == Ordered(o) then [es[|es| - 1]] else [])
  }

  ghost predicate SortedByOrder(es: seq<Entry>) {
    && (forall i :: 0 <= i < |es| ==> es[i].slot.Ordered?)
    && (forall i, j :: 0 <= i < j < |es| ==> es[i].slot.order <= es[j].slot.order)
  }

  /** `xs` is sorted by order and keeps the relative order that entries of equal order have in `listed`. */
  ghost predicate IsStableSortOf(xs: seq<Entry>, listed: seq<Entry>) {
    SortedByOrder(xs) && forall o :: AtOrder(xs, o) == AtOrder(listed, o)
  }

  lemma {:induction false} AtOrderConcat(xs: seq<Entry>, ys: seq<Entry>, o: int)
    ensures AtOrder(xs + ys, o) == AtOrder(xs, o) + AtOrder(ys, o)
  {
    if ys == [] {
      assert xs + ys == xs;
    } else {
      var front := ys[..|ys| - 1];
      AtOrderConcat(xs, front, o);
      assert (xs + ys)[..|xs + ys| - 1] == xs + front;
    }
  }

  lemma {:induction false} AtOrderOfBucket(slot: Slot, groups: seq<Group>, o: int)
    ensures AtOrder(GroupEntries(slot, groups), o) == if slot == Ordered(o) then GroupEntries(slot, groups) else []
  {
    if groups != [] {
      var front := groups[..|groups| - 1];
      AtOrderOfBucket(slot, front, o);
      assert GroupEntries(slot, groups) == GroupEntries(slot, front) + [Entry(slot, groups[|groups| - 1])];
      assert GroupEntries(slot, groups)[..|groups| - 1] == GroupEntries(slot, front);
    }
  }

  lemma {:induction false} LastBucket(orders: seq<int>, ordered: map<int, seq<Group>>)
    requires orders != [] && forall x :: x in orders ==> x in ordered
    requires forall i, j :: 0 <= i < j < |orders| ==> orders[i] < orders[j]
    ensures var last, front := orders[|orders| - 1], orders[..|orders| - 1];
            && OrderedEntries(orders, ordered) ==
               OrderedEntries(front, ordered) + GroupEntries(Ordered(last), ordered[last])
            && last !in front && forall x :: x in orders <==> x in front || x == last
  {
    assert orders == orders[..|orders| - 1] + [orders[|orders| - 1]];
  }

  lemma {:induction false} AtOrderOfBuckets(orders: seq<int>, ordered: map<int, seq<Group>>, o: int)
    requires forall x :: x in orders ==> x in ordered
    requires forall i, j :: 0 <= i < j < |orders| ==> orders[i] < orders[j]
    ensures AtOrder(OrderedEntries(orders, ordered), o) ==
            if o in orders then GroupEntries(Ordered(o), ordered[o]) else []
  {
    if orders != [] {
      hide *;
      var last, front := orders[|orders| - 1], orders[..|orders| - 1];
      var before, bucket := OrderedEntries(front, ordered), GroupEntries(Ordered(last), ordered[last]);
      LastBucket(orders, ordered);
      AtOrderOfBuckets(front, ordered, o);
      AtOrderConcat(before, bucket, o);
      AtOrderOfBucket(Ordered(last), ordered[last], o);
      if o == last {
        assert [] + bucket == bucket;
      } else {
        assert AtOrder(before, o) + [] == AtOrder(before, o);
      }
    } else {
      assert OrderedEntries(orders, ordered) == [];
    }
  }

  lemma {:induction false} BucketsAreSorted(orders: seq<int>, ordered: map<int, seq<Group>>)
    requires forall x :: x in orders ==> x in ordered
    requires forall i, j :: 0 <= i < j < |orders| ==> orders[i] < orders[j]
    ensures SortedByOrder(OrderedEntries(orders, ordered))
    ensures forall e :: e in OrderedEntries(orders, ordered) ==> e.slot.Ordered? && e.slot.order in orders
  {
    if orders != [] {
      var last, front := orders[|orders| - 1], orders[..|orders| - 1];
      BucketsAreSorted(front, ordered);
      assert orders == front + [last];
      var before, bucket := OrderedEntries(front, ordered), GroupEntries(Ordered(last), ordered[last]);
      var es := before + bucket;
      forall i | 0 <= i < |es|
        ensures es[i].slot.Ordered? && es[i].slot.order in orders
        ensures if i < |before| then es[i].slot.order < last else es[i].slot.order == last
      {
        if i < |before| {
          assert es[i] in before;
        }
      }
      forall i, j | 0 <= i < j < |es|
        ensures es[i].slot.order <= es[j].slot.order
      {
        if j < |before| {
          assert before[i].slot.order <= before[j].slot.order;
        }
      }
    }
  }

  lemma {:induction false} AtOrderAsListed(reg: Registry, desired: seq<Incoming>, o: int)
    ensures AtOrder(OrderedAsListed(reg, desired), o) == GroupEntries(Ordered(o), GroupsAt(reg, desired, Some(o)))
  {
    hide GroupFor, GroupEntries;
    if desired == [] {
      BucketEmpty(Ordered(o));
    } else {
      var last, front := desired[|desired| - 1], desired[..|desired| - 1];
      AtOrderAsListed(reg, front, o);
      if last.order.Some? && GroupFor(reg, last) != [] {
        AtOrderConcat(OrderedAsListed(reg, front), [EntryFor(reg, last)], o);
        assert AtOrder([EntryFor(reg, last)], o) == if last.order == Some(o) then [EntryFor(reg, last)] else [];
        BucketSnoc(Ordered(o), GroupsAt(reg, front, Some(o)), GroupFor(reg, last));
      } else {
        assert OrderedAsListed(reg, front) + [] == OrderedAsListed(reg, front);
      }
    }
  }

  lemma {:induction false} BucketEmpty(slot: Slot)
    ensures GroupEntries(slot, []) == []
  {
  }

  lemma {:induction false} BucketSnoc(slot: Slot, groups: seq<Group>, g: Group)
    ensures GroupEntries(slot, groups + [g]) == GroupEntries(slot, groups) + [Entry(slot, g)]
  {
  }

  /** Executing the buckets by increasing order is the stable sort of the ordered applications, names
      repeated or not. */
  lemma {:induction false} OrderedPartIsStableSort(plan: Plan, coll: seq<Package>, reg: Registry,
                                                   desired: seq<Incoming>)
    requires IsPlanOf(plan, coll, reg, desired)
    ensures IsStableSortOf(OrderedEntries(plan.sortedOrder, plan.ordered), OrderedAsListed(reg, desired))
  {
    forall o
      ensures AtOrder(OrderedEntries(plan.sortedOrder, plan.ordered), o) == AtOrder(OrderedAsListed(reg, desired), o)
    {
      AtOrderOfBuckets(plan.sortedOrder, plan.ordered, o);
      AtOrderAsListed(reg, desired, o);
    }
    BucketsAreSorted(plan.sortedOrder, plan.ordered);
  }

  lemma {:induction false} AtOrderMembers(es: seq<Entry>, o: int)
    ensures forall e :: e in AtOrder(es, o) <==> e in es && e.slot == Ordered(o)
  {
    if es != [] {
      AtOrderMembers(es[..|es| - 1], o);
      assert es == es[..|es| - 1] + [es[|es| - 1]];
    }
  }

  lemma {:induction false} LastOrderBounds(xs: seq<Entry>, ys: seq<Entry>)
    requires SortedByOrder(xs) && SortedByOrder(ys) && xs != []
    requires forall o :: AtOrder(xs, o) == AtOrder(ys, o)
    ensures ys != [] && xs[|xs| - 1].slot.order <= ys[|ys| - 1].slot.order
  {
    var x := xs[|xs| - 1];
    AtOrderMembers(xs, x.slot.order);
    AtOrderMembers(ys, x.slot.order);
    assert x in AtOrder(ys, x.slot.order);
    var i :| 0 <= i < |ys| && ys[i] == x;
  }

  lemma {:induction false} LastEqual<T>(xs: seq<T>, x: T, ys: seq<T>, y: T)
    requires xs + [x] == ys + [y]
    ensures xs == ys && x == y
  {
    assert (xs + [x])[..|xs|] == xs && (ys + [y])[..|ys|] == ys;
    assert (xs + [x])[|xs|] == x && (ys + [y])[|ys|] == y;
  }

  lemma {:induction false} WithoutLast(es: seq<Entry>, o: int)
    requires es != [] && es[|es| - 1].slot != Ordered(o)
    ensures AtOrder(es[..|es| - 1], o) == AtOrder(es, o)
  {
    assert AtOrder(es[..|es| - 1], o) + [] == AtOrder(es[..|es| - 1], o);
  }

  /** There is only one stable sort, so the order of execution among ordered applications is fully determined. */
  lemma {:induction false} StableSortUnique(xs: seq<Entry>, ys: seq<Entry>)
    requires SortedByOrder(xs) && SortedByOrder(ys)
    requires forall o :: AtOrder(xs, o) == AtOrder(ys, o)
    ensures xs == ys
  {
    if xs == [] {
      if ys != [] {
        LastOrderBounds(ys, xs);
        assert false;
      }
    } else {
      LastOrderBounds(xs, ys);
      LastOrderBounds(ys, xs);
      var x, y := xs[|xs| - 1], ys[|ys| - 1];
      var xs', ys' := xs[..|xs| - 1], ys[..|ys| - 1];
      var o := x.slot.order;
      assert AtOrder(xs, o) == AtOrder(xs', o) + [x] && AtOrder(ys, o) == AtOrder(ys', o) + [y];
      assert AtOrder(xs, o) == AtOrder(ys, o);
      LastEqual(AtOrder(xs', o), x, AtOrder(ys', o), y);
      forall p
        ensures AtOrder(xs', p) == AtOrder(ys', p)
      {
        assert AtOrder(xs, p) == AtOrder(ys, p);
        if p != o {
          WithoutLast(xs, p);
          WithoutLast(ys, p);
        }
      }
      StableSortUnique(xs', ys');
    }
  }
}

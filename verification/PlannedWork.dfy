/** What a plan does for each application, read off the registry and the desired list. */
module PlannedWork {
  import opened Packages
  import opened Planning
  import opened Schedules
  import opened Versions

  /** A new registry entry says what the list says. File names that are not listed are made from the name; a mark that
      the application is deleted is not carried over. */
  ghost predicate AsListed(p: Package, d: Incoming) {
    && p.name == d.name && p.version == d.version && p.reboot == d.reboot
    && p.details.installCommand == d.installCommand
    && p.details.removeCommand == d.removeCommand
    && p.details.updateCommand == d.updateCommand
    && p.details.directDownloadOnly == d.directDownloadOnly && p.details.strictVersioning == d.strictVersioning
    && p.details.configExists == d.configExists && !p.details.isDeleted
    && p.details.packageFileName == (if d.packageFileName != "" then d.packageFileName else d.name)
    && p.details.configFileName == (if d.configFileName != "" then d.configFileName else d.name + "_config")
    && p.local.downloadDir == "" && p.local.packageChecksum.None? && p.local.configChecksum.None?
    && p.ongoing == NoAction && p.note == NoNote && p.numReboots == 0
  }

  /** The action takes its application from the desired list. */
  ghost predicate Fresh(act: PlannedAction, action: Action, d: Incoming) {
    act.action == action && act.treatFailure == d.treatFailure && AsListed(act.pkg, d)
  }

  /** The installed application is removed to make room. */
  ghost predicate RemovalLeg(act: PlannedAction, reg: Registry, d: Incoming) {
    d.name in reg && act.action == RemoveForUpdate && act.pkg == reg[d.name] && !act.treatFailure
  }

  /** The recorded operation is taken up again with the recorded entry. */
  ghost predicate RetryOf(act: PlannedAction, reg: Registry, d: Incoming) {
    d.name in reg && act.action == reg[d.name].ongoing && act.pkg == reg[d.name] && act.treatFailure == d.treatFailure
  }

  ghost predicate OtherVersion(reg: Registry, d: Incoming) {
    d.name in reg && !VersionsEqual(reg[d.name].version, d.version)
  }

  lemma {:induction false} GroupExactly(reg: Registry, d: Incoming)
    requires Keyed(reg) && GroupFor(reg, d) != []
    ensures var acts := GroupFor(reg, d);
            && ((|acts| == 1 && Fresh(acts[0], Install, d)) <==> d.name !in reg)
            && ((|acts| == 1 && Fresh(acts[0], Update, d)) <==> OtherVersion(reg, d) && d.updateCommand != "")
            && ((|acts| == 2 && RemovalLeg(acts[0], reg, d) && Fresh(acts[1], Install, d))
                <==> OtherVersion(reg, d) && d.updateCommand == "")
            && ((|acts| == 1 && RetryOf(acts[0], reg, d))
                <==> d.name in reg && !OtherVersion(reg, d) && reg[d.name].numReboots > 0)
  {
    VersionsEqualIsEquivalence(d.version, d.version, d.version);
    hide VersionsEqual;
  }

  lemma {:induction false} EntryOfDesired(plan: Plan, coll: seq<Package>, reg: Registry, desired: seq<Incoming>,
                                          d: Incoming, e: Entry)
    requires Keyed(reg) && DistinctDesired(desired) && IsCollectionOf(coll, reg) && IsPlanOf(plan, coll, reg, desired)
    requires d in desired && e in Schedule(plan) && NameOf(e) == d.name
    ensures GroupFor(reg, d) != [] && e == EntryFor(reg, d)
  {
    PlanIsSchedule(plan, coll, reg, desired);
    hide IsPlanOf, GroupFor, Schedule;
    var i :| 0 <= i < |Schedule(plan)| && Schedule(plan)[i] == e;
    EntryNames(reg, desired, Schedule(plan)[i]);
    var d' :| d' in desired && d'.name == NameOf(e) && GroupFor(reg, d') != [] && e == EntryFor(reg, d');
    DesiredByName(desired, d, d');
  }

  /** What a plan does for a desired application, case by case and in no other: install what is missing; update another
      version that has an update command; remove and install another version that has none; take up what a reboot cut
      off. It does so at the order the list gives. */
  lemma {:induction false} PlannedForDesired(plan: Plan, coll: seq<Package>, reg: Registry, desired: seq<Incoming>,
                                             d: Incoming, e: Entry)
    requires Keyed(reg) && DistinctDesired(desired) && IsCollectionOf(coll, reg) && IsPlanOf(plan, coll, reg, desired)
    requires d in desired && e in Schedule(plan) && NameOf(e) == d.name
    ensures e.slot == if d.order.Some? then Ordered(d.order.value) else Unordered
    ensures |e.acts| == 1 && Fresh(e.acts[0], Install, d) <==> d.name !in reg
    ensures |e.acts| == 1 && Fresh(e.acts[0], Update, d) <==> OtherVersion(reg, d) && d.updateCommand != ""
    ensures |e.acts| == 2 && RemovalLeg(e.acts[0], reg, d) && Fresh(e.acts[1], Install, d)
       <==> OtherVersion(reg, d) && d.updateCommand == ""
    ensures |e.acts| == 1 && RetryOf(e.acts[0], reg, d)
       <==> d.name in reg && !OtherVersion(reg, d) && reg[d.name].numReboots > 0
  {
    EntryOfDesired(plan, coll, reg, desired, d, e);
    GroupExactly(reg, d);
  }

  /** What a plan does for an application that is not desired: forget it if it was skipped, remove it otherwise. */
  lemma {:induction false} PlannedForUndesired(plan: Plan, coll: seq<Package>, reg: Registry, desired: seq<Incoming>,
                                               n: string, e: Entry)
    requires Keyed(reg) && DistinctDesired(desired) && IsCollectionOf(coll, reg) && IsPlanOf(plan, coll, reg, desired)
    requires !IsDesired(desired, n) && e in Schedule(plan) && NameOf(e) == n
    ensures e.slot == Uninstall && |e.acts| == 1 && n in reg && e.acts[0].pkg == reg[n] && !e.acts[0].treatFailure
    ensures e.acts[0].action == if reg[n].ongoing == Skipped then Cleanup else Remove
  {
    PlanIsSchedule(plan, coll, reg, desired);
    hide IsPlanOf, GroupFor, Schedule;
    var i :| 0 <= i < |Schedule(plan)| && Schedule(plan)[i] == e;
    EntryNames(reg, desired, Schedule(plan)[i]);
  }
}

/** What the plan for custom actions holds, read off the settings, the registry and the text of the tick file. */
module CustomPlans {
  import opened Options
  import opened Packages
  import opened CustomActions
  import opened CustomHistories
  import opened Decimals
  import Versions

  // ----- The threshold ----------------------------------------------------------------------------------------------

  /** The text is a 64-bit unsigned number in decimal, perhaps with zeros in front. */
  ghost predicate IsTickText(text: string, t: nat) {
    t <= MAX_UINT64 && exists k :: text == Zeros(k) + Decimal(t)
  }

  /** The tick that counts as recorded: the number in the file, or zero when there is no file or no number in it. */
  ghost predicate Recorded(file: Option<string>, t: nat) {
    || (file.Some? && IsTickText(file.value, t))
    || (t == 0 && forall u :: file.None? || !IsTickText(file.value, u))
  }

  lemma {:induction false} TickTextIsRead(text: string, t: nat)
    requires IsTickText(text, t)
    ensures ParseUint(text) == Some(t)
  {
    var k :| text == Zeros(k) + Decimal(t);
    DecimalValue(t);
    LeadingZeros(k, Decimal(t));
  }

  lemma {:induction false} OnlyTickTextIsRead(text: string)
    requires ParseUint(text).Some?
    ensures IsTickText(text, ParseUint(text).value)
  {
    var k := DigitsAreDecimal(text);
  }

  /** The threshold a plan starts from is the recorded tick, and there is exactly one. */
  lemma {:induction false} ThresholdIsRecorded(file: Option<string>, t: nat)
    ensures Recorded(file, t) <==> ReadTick(file) == t
  {
    if file.Some? {
      if ParseUint(file.value).Some? {
        OnlyTickTextIsRead(file.value);
      }
      if u :| IsTickText(file.value, u) {
        TickTextIsRead(file.value, u);
        if IsTickText(file.value, t) {
          TickTextIsRead(file.value, t);
        }
      }
    }
  }

  /** A missing file, an empty one, and one that holds anything but digits all count as tick zero. */
  lemma {:induction false} NothingRecorded(file: Option<string>)
    requires file.Some? && file.value != "" ==> exists i :: 0 <= i < |file.value| && !Versions.IsDigit(file.value[i])
    ensures Recorded(file, 0)
  {
    if u :| file.Some? && IsTickText(file.value, u) {
      TickTextIsRead(file.value, u);
    }
  }

  // ----- The plan ---------------------------------------------------------------------------------------------------

  /** Action `a` is the `j`-th of setting `i`, on the machine, and newer than `t`. */
  ghost predicate IsAt(settings: seq<AppSetting>, reg: Registry, t: nat, a: CustomAction, i: int, j: int) {
    && 0 <= i < |settings| && settings[i].name in reg && 0 <= j < |settings[i].actions|
    && a.pkg == reg[settings[i].name] && a.setting == settings[i].actions[j] && a.setting.tick > t
  }

  /** Where an action is listed. */
  ghost function Positions(settings: seq<AppSetting>, reg: Registry, t: nat, a: CustomAction): set<(int, int)> {
    set i, j | 0 <= i < |settings| && 0 <= j < |settings[i].actions| && IsAt(settings, reg, t, a, i, j) :: (i, j)
  }

  ghost function Row(i: int, actions: seq<ActionSetting>, pkg: Package, t: nat, a: CustomAction): set<(int, int)> {
    set j | 0 <= j < |actions| && a.pkg == pkg && a.setting == actions[j] && a.setting.tick > t :: (i, j)
  }

  lemma {:induction false} LastAction(actions: seq<ActionSetting>, pkg: Package)
    requires actions != []
    ensures ActionsOf(pkg, actions) ==
            ActionsOf(pkg, actions[..|actions| - 1]) + [CustomAction(pkg, actions[|actions| - 1])]
  {
  }

  lemma {:induction false} CountLast(all: seq<CustomAction>, last: CustomAction, a: CustomAction)
    ensures multiset(all + [last])[a] == multiset(all)[a] + (if last == a then 1 else 0)
  {
  }

  lemma {:induction false} RowSize(i: int, actions: seq<ActionSetting>, pkg: Package, t: nat, a: CustomAction)
    ensures |Row(i, actions, pkg, t, a)| == multiset(Above(ActionsOf(pkg, actions), t))[a]
  {
    AboveMultiset(ActionsOf(pkg, actions), t, a);
    if actions == [] {
      assert Row(i, actions, pkg, t, a) == {};
    } else {
      hide *;
      var n, front := |actions| - 1, actions[..|actions| - 1];
      RowSize(i, front, pkg, t, a);
      AboveMultiset(ActionsOf(pkg, front), t, a);
      LastAction(actions, pkg);
      CountLast(ActionsOf(pkg, front), CustomAction(pkg, actions[n]), a);
      var added: set<(int, int)> := if a == CustomAction(pkg, actions[n]) && a.setting.tick > t then {(i, n)} else {};
      RowSnoc(i, actions, pkg, t, a, added);
    }
  }

  lemma {:induction false} RowSnoc(i: int, actions: seq<ActionSetting>, pkg: Package, t: nat, a: CustomAction,
                                   added: set<(int, int)>)
    requires actions != []
    requires added == if a == CustomAction(pkg, actions[|actions| - 1]) && a.setting.tick > t then
                        {(i, |actions| - 1)}
                      else {}
    ensures |Row(i, actions, pkg, t, a)| == |Row(i, actions[..|actions| - 1], pkg, t, a)| + |added|
  {
    var n, front := |actions| - 1, actions[..|actions| - 1];
    var row, before := Row(i, actions, pkg, t, a), Row(i, front, pkg, t, a);
    forall x
      ensures x in row <==> x in before || x in added
    {
      assert forall j :: 0 <= j < n ==> front[j] == actions[j];
    }
    assert row == before + added && before !! added;
  }

  lemma {:induction false} PositionsSnoc(settings: seq<AppSetting>, reg: Registry, t: nat, a: CustomAction)
    requires settings != []
    ensures var front, last := settings[..|settings| - 1], settings[|settings| - 1];
            |Positions(settings, reg, t, a)| ==
            |Positions(front, reg, t, a)|
            + (if last.name in reg then |Row(|front|, last.actions, reg[last.name], t, a)| else 0)
  {
    var front, last := settings[..|settings| - 1], settings[|settings| - 1];
    var n := |front|;
    var row := if last.name in reg then Row(n, last.actions, reg[last.name], t, a) else {};
    var all, before := Positions(settings, reg, t, a), Positions(front, reg, t, a);
    forall x
      ensures x in all <==> x in before || x in row
    {
      if x in all && x.0 != n {
        assert IsAt(front, reg, t, a, x.0, x.1) && (x.0, x.1) == x;
      }
      if x in before {
        assert IsAt(settings, reg, t, a, x.0, x.1) && (x.0, x.1) == x;
      }
      if x in row {
        assert IsAt(settings, reg, t, a, x.0, x.1) && (x.0, x.1) == x;
      }
    }
    assert all == before + row && before !! row;
  }

  lemma {:induction false} ListedCount(settings: seq<AppSetting>, reg: Registry, t: nat, a: CustomAction)
    ensures multiset(Above(Listed(settings, reg), t))[a] == |Positions(settings, reg, t, a)|
  {
    AboveMultiset(Listed(settings, reg), t, a);
    if settings == [] {
      assert Positions(settings, reg, t, a) == {};
    } else {
      var front, last := settings[..|settings| - 1], settings[|settings| - 1];
      ListedCount(front, reg, t, a);
      AboveMultiset(Listed(front, reg), t, a);
      PositionsSnoc(settings, reg, t, a);
      if last.name in reg {
        RowSize(|front|, last.actions, reg[last.name], t, a);
        AboveMultiset(ActionsOf(reg[last.name], last.actions), t, a);
      }
    }
  }

  /** The plan is in the order of the ticks, and holds every action exactly as often as it is listed for an application
      on the machine with a tick above the recorded one. */
  lemma {:induction false} PlanHoldsExactly(plan: seq<CustomAction>, settings: seq<AppSetting>, reg: Registry,
                                            file: Option<string>, t: nat, a: CustomAction)
    requires IsPlan(plan, settings, reg, file) && Recorded(file, t)
    ensures forall i, j :: 0 <= i <= j < |plan| ==> plan[i].setting.tick <= plan[j].setting.tick
    ensures multiset(plan)[a] == |Positions(settings, reg, t, a)|
  {
    SortedBelow(plan, settings, reg, file);
    ThresholdIsRecorded(file, t);
    ListedCount(settings, reg, t, a);
    hide Above, Listed, ReadTick, Positions, SortedByTick, Recorded;
  }

  /** In particular it holds an action exactly if it is listed somewhere with such a tick. */
  lemma {:induction false} PlanHolds(plan: seq<CustomAction>, settings: seq<AppSetting>, reg: Registry,
                                     file: Option<string>, t: nat, a: CustomAction)
    requires IsPlan(plan, settings, reg, file) && Recorded(file, t)
    ensures a in plan <==> exists i, j :: IsAt(settings, reg, t, a, i, j)
  {
    PlanHoldsExactly(plan, settings, reg, file, t, a);
    hide IsPlan, Recorded;
    var positions := Positions(settings, reg, t, a);
    assert a in plan <==> multiset(plan)[a] > 0;
    if x :| x in positions {
      assert IsAt(settings, reg, t, a, x.0, x.1);
    } else {
      assert positions == {};
    }
    if i, j :| IsAt(settings, reg, t, a, i, j) {
      assert (i, j) in positions;
    }
  }
}

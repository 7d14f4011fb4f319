/** Custom actions: planned above a persisted tick count, executed in tick order, each completion recorded in the
    file. */
module CustomActions {
  import opened Options
  import opened Packages
  import opened Decimals
  import Versions
  import Sorting

  const MAX_UINT64: nat := 0xFFFF_FFFF_FFFF_FFFF

  datatype ActionSetting = ActionSetting(name: string, script: string, timestamp: string, tick: nat)

  datatype AppSetting = AppSetting(name: string, actions: seq<ActionSetting>)

  datatype CustomAction = CustomAction(pkg: Package, setting: ActionSetting)

  datatype Report = Report(package: string, version: string, operation: string, timestamp: string)

  // ----- The tick count as text -----------------------------------------------------------------------------

  /** Decimal digits, at least one, of a value that fits 64 bits. */
  function ParseUint(text: string): Option<nat> {
    if text == "" || !Versions.AllDigits(text) then None
    else if Versions.DigitsValue(text) > MAX_UINT64 then None
    else Some(Versions.DigitsValue(text))
  }

  /** A recorded tick count is read back as it was. */
  lemma {:induction false} TickRoundTrip(n: nat)
    requires n <= MAX_UINT64
    ensures ParseUint(Decimal(n)) == Some(n)
  {
    DecimalValue(n);
  }

  /** The threshold a plan starts from: zero without a readable file. */
  function ReadTick(file: Option<string>): nat {
    if file.None? then 0
    else
      var parsed := ParseUint(file.value);
      if parsed.None? then 0 else parsed.value
  }

  // ----- Planning -------------------------------------------------------------------------------------------

  /** All actions of the listed applications that are on the machine, in list order. */
  ghost function Listed(settings: seq<AppSetting>, reg: Registry): seq<CustomAction> {
    if settings == [] then []
    else
      var last := settings[|settings| - 1];
      Listed(settings[..|settings| - 1], reg)
        + (if last.name in reg then ActionsOf(reg[last.name], last.actions) else [])
  }

  ghost function ActionsOf(pkg: Package, actions: seq<ActionSetting>): seq<CustomAction> {
    seq(|actions|, i requires 0 <= i < |actions| => CustomAction(pkg, actions[i]))
  }

  /** The actions whose tick count is above the threshold. */
  ghost function Above(actions: seq<CustomAction>, tick: nat): seq<CustomAction> {
    if actions == [] then []
    else
      var last := actions[|actions| - 1];
      Above(actions[..|actions| - 1], tick) + (if last.setting.tick > tick then [last] else [])
  }

  function TickOf(a: CustomAction): int {
    a.setting.tick
  }

  ghost predicate SortedByTick(plan: seq<CustomAction>) {
    Sorting.SortedBy(plan, TickOf)
  }

  /** A plan holds exactly the listed actions above the recorded tick, sorted; equal ticks may come in any order. */
  ghost predicate IsPlan(plan: seq<CustomAction>, settings: seq<AppSetting>, reg: Registry, file: Option<string>) {
    SortedByTick(plan) && multiset(plan) == multiset(Above(Listed(settings, reg), ReadTick(file)))
  }

  method New(settings: seq<AppSetting>, reg: Registry, file: Option<string>) returns (plan: seq<CustomAction>)
    ensures IsPlan(plan, settings, reg, file)
  {
    var tc := ReadTick(file);
    var chosen: seq<CustomAction> := [];
    assert settings[..0] == [];
    hide Above;
    var i := 0;
    while i < |settings|
      invariant 0 <= i <= |settings|
      invariant chosen == Above(Listed(settings[..i], reg), tc)
    {
      var app := settings[i];
      ghost var before := Listed(settings[..i], reg);
      ListedSnoc(settings, reg, i);
      hide Listed;
      if |app.actions| != 0 && app.name in reg {
        var j := 0;
        assert before + ActionsOf(reg[app.name], app.actions[..0]) == before;
        while j < |app.actions|
          invariant 0 <= j <= |app.actions|
          invariant chosen == Above(before + ActionsOf(reg[app.name], app.actions[..j]), tc)
        {
          var a := app.actions[j];
          AboveSnoc(before, reg[app.name], app.actions, j, tc);
          if tc < a.tick {
            chosen := chosen + [CustomAction(reg[app.name], a)];
          }
          j := j + 1;
        }
        assert app.actions[..j] == app.actions;
      } else {
        assert before + [] == before;
        assert app.name in reg ==> ActionsOf(reg[app.name], app.actions) == [];
      }
      i := i + 1;
    }
    assert settings[..i] == settings;
    plan := SortByTick(chosen);
  }

  method SortByTick(chosen: seq<CustomAction>) returns (plan: seq<CustomAction>)
    ensures SortedByTick(plan) && multiset(plan) == multiset(chosen)
  {
    var sorted := new CustomAction[|chosen|](k requires 0 <= k < |chosen| => chosen[k]);
    assert sorted[..] == chosen;
    Sorting.Sort(sorted, TickOf);
    plan := sorted[..];
  }

  lemma {:induction false} ListedSnoc(settings: seq<AppSetting>, reg: Registry, i: nat)
    requires i < |settings|
    ensures Listed(settings[..i + 1], reg) ==
            Listed(settings[..i], reg)
            + (if settings[i].name in reg then ActionsOf(reg[settings[i].name], settings[i].actions) else [])
  {
    assert settings[..i + 1][..i] == settings[..i];
  }

  lemma {:induction false} AboveSnoc(before: seq<CustomAction>, pkg: Package, actions: seq<ActionSetting>, j: nat,
                                     tick: nat)
    requires j < |actions|
    ensures Above(before + ActionsOf(pkg, actions[..j + 1]), tick) ==
            Above(before + ActionsOf(pkg, actions[..j]), tick)
            + (if actions[j].tick > tick then [CustomAction(pkg, actions[j])] else [])
  {
    var all := before + ActionsOf(pkg, actions[..j + 1]);
    assert all[..|all| - 1] == before + ActionsOf(pkg, actions[..j]);
    assert all[|all| - 1] == CustomAction(pkg, actions[j]);
  }

  // ----- Execution ------------------------------------------------------------------------------------------

  /** How many actions of the plan complete: a failing one completes and is the last, an interrupted one does not. */
  ghost function CompletedFrom(n: nat, env: nat -> Ending, i: nat): nat
    requires i <= n
    decreases n - i
  {
    if i == n || env(i) == Interrupted then i
    else if env(i) == Completed(false) then i + 1
    else CompletedFrom(n, env, i + 1)
  }

  ghost function CompletedCount(plan: seq<CustomAction>, env: nat -> Ending): nat {
    CompletedFrom(|plan|, env, 0)
  }

  function ReportOf(a: CustomAction): Report {
    Report(a.pkg.name, a.pkg.version, a.setting.name, a.setting.timestamp)
  }

  /** The run ended in a reboot. */
  ghost predicate Exits(plan: seq<CustomAction>, env: nat -> Ending) {
    var k := CompletedCount(plan, env);
    k < |plan| && env(k) == Interrupted && (k > 0 ==> env(k - 1) == Completed(true))
  }

  /** The file after the run: the tick of the last completed action, or an empty file if only started. */
  ghost function FileAfter(file: Option<string>, plan: seq<CustomAction>, env: nat -> Ending): Option<string>
    requires CompletedCount(plan, env) <= |plan|
  {
    var k := CompletedCount(plan, env);
    if k > 0 then Some(Decimal(plan[k - 1].setting.tick))
    else if plan != [] && file.None? then Some("")
    else file
  }

  lemma {:induction false} CompletedBounds(n: nat, env: nat -> Ending, i: nat)
    requires i <= n
    ensures i <= CompletedFrom(n, env, i) <= n
    ensures forall j :: i <= j < CompletedFrom(n, env, i) - 1 ==> env(j) == Completed(true)
    ensures var k := CompletedFrom(n, env, i);
            k == n || env(k) == Interrupted || (k > i && env(k - 1) == Completed(false))
    decreases n - i
  {
    if i < n && env(i) != Interrupted && env(i) != Completed(false) {
      CompletedBounds(n, env, i + 1);
      assert env(i) == Completed(true);
    }
  }

  class TickFile {
    var text: Option<string>

    constructor (text: Option<string>)
      ensures this.text == text
    {
      this.text := text;
    }

    /** Runs one action and, unless it is interrupted, records its tick, whether it succeeded or not. */
    method ExecuteHelper(act: CustomAction, ending: Ending) returns (exited: bool, failed: bool)
      modifies this
      ensures exited <==> ending == Interrupted
      ensures failed <==> ending == Completed(false)
      ensures text == if !exited then Some(Decimal(act.setting.tick))
                      else if old(text).None? then Some("")
                      else old(text)
    {
      if text.None? {
        text := Some("");
      }
      if ending == Interrupted {
        return true, false;
      }
      text := Some(Decimal(act.setting.tick));
      return false, !ending.exitOk;
    }

    /** Executes the plan up to the first failure. The failing action is not reported. */
    method Execute(plan: seq<CustomAction>, env: nat -> Ending)
    returns (exited: bool, reports: seq<Report>, ghost completed: seq<CustomAction>)
      modifies this
      ensures CompletedCount(plan, env) <= |plan|
      ensures completed == plan[..CompletedCount(plan, env)]
      ensures text == FileAfter(old(text), plan, env)
      ensures exited <==> Exits(plan, env)
      ensures |reports| <= |completed| <= |reports| + 1
      ensures forall i :: 0 <= i < |reports| ==> env(i) == Completed(true)
      ensures forall i :: 0 <= i < |reports| ==>
                && reports[i].package == plan[i].pkg.name && reports[i].version == plan[i].pkg.version
                && reports[i].operation == plan[i].setting.name && reports[i].timestamp == plan[i].setting.timestamp
      ensures |completed| == |reports| + 1 <==> |completed| > 0 && env(|completed| - 1) == Completed(false)
    {
      reports := [];
      CompletedBounds(|plan|, env, 0);
      var i := 0;
      while i < |plan|
        invariant 0 <= i <= |plan|
        invariant CompletedFrom(|plan|, env, 0) == CompletedFrom(|plan|, env, i)
        invariant forall j :: 0 <= j < i ==> env(j) == Completed(true)
        invariant |reports| == i
        invariant forall j :: 0 <= j < i ==> reports[j] == ReportOf(plan[j])
        invariant text == if i == 0 then old(text) else Some(Decimal(plan[i - 1].setting.tick))
      {
        var exit, failed := ExecuteHelper(plan[i], env(i));
        if exit {
          return true, reports, plan[..i];
        }
        if failed {
          return false, reports, plan[..i + 1];
        }
        reports := reports + [ReportOf(plan[i])];
        i := i + 1;
      }
      return false, reports, plan[..i];
    }
  }
}

/** Applications as the registry records them and as the user asks for them. */
module Packages {
  import opened Options

  const MAX_REBOOTS: int := 3
  const DEFAULT_CONFIG_FILE_NAME_SUFFIX := "_config"

  datatype Action = NoAction | Install | Update | Remove | RemoveForUpdate | Failed | Skipped | Cleanup

  /** `NoRetry` is the program's `None`: a reboot during the command ends the operation. */
  datatype RebootBehavior = NoRetry | Rerun

  /** How a command ends: with an exit code, or cut off by the signal of a reboot. */
  datatype Ending = Completed(exitOk: bool) | Interrupted

  /** The single causes that can be combined into the error of one action. */
  datatype Fault =
    | UnexpectedAction
    | TooManyReboots
    | AppDeleted
    | MkdirFailed
    | PackageDownloadFailed
    | ConfigDownloadFailed
    | CommandFailed
    | CleanupFailed

  /** The `result` text of a registry entry. */
  datatype Note =
    | NoNote
    | SucceededNote(op: Action)
    | FailedNote(op: Action, faults: seq<Fault>)
    | RerunAfterReboot(op: Action)
    | EndedByReboot(op: Action)
    | LowerOrderFailed

  /** The part of a registry entry that no operation changes. */
  datatype Details = Details(
    installCommand: string,
    removeCommand: string,
    updateCommand: string,
    directDownloadOnly: bool,
    configExists: bool,
    packageFileName: string,
    configFileName: string,
    isDeleted: bool,
    strictVersioning: bool)

  /** What preparing a command leaves on this machine: the working directory and the checksums of the downloads. */
  datatype Local = Local(downloadDir: string, packageChecksum: Option<string>, configChecksum: Option<string>)

  const NO_LOCAL := Local("", None, None)

  datatype Package = Package(
    name: string,
    version: string,
    details: Details,
    local: Local,
    reboot: RebootBehavior,
    ongoing: Action,
    note: Note,
    numReboots: int)

  datatype Incoming = Incoming(
    name: string,
    version: string,
    installCommand: string,
    removeCommand: string,
    updateCommand: string,
    directDownloadOnly: bool,
    order: Option<int>,
    configExists: bool,
    packageFileName: string,
    configFileName: string,
    isDeleted: bool,
    treatFailure: bool,
    reboot: RebootBehavior,
    strictVersioning: bool)

  type Registry = map<string, Package>

  /** The registry entry of a desired application. `isDeleted` is not carried over. */
  function FromIncoming(d: Incoming): Package {
    var details := Details(
      installCommand := d.installCommand,
      removeCommand := d.removeCommand,
      updateCommand := d.updateCommand,
      directDownloadOnly := d.directDownloadOnly,
      configExists := d.configExists,
      packageFileName := if d.packageFileName == "" then d.name else d.packageFileName,
      configFileName := if d.configFileName == "" then d.name + DEFAULT_CONFIG_FILE_NAME_SUFFIX else d.configFileName,
      isDeleted := false,
      strictVersioning := d.strictVersioning);
    Package(d.name, d.version, details, NO_LOCAL, d.reboot, NoAction, NoNote, 0)
  }

  /** Every entry is filed under its own name. */
  ghost predicate Keyed(m: Registry) {
    forall n :: n in m ==> m[n].name == n
  }

  ghost predicate DistinctPackages(coll: seq<Package>) {
    forall i, j :: 0 <= i < j < |coll| ==> coll[i].name != coll[j].name
  }

  ghost predicate DistinctDesired(desired: seq<Incoming>) {
    forall i, j :: 0 <= i < j < |desired| ==> desired[i].name != desired[j].name
  }

  /** `coll` lists the values of `m`, each once, in some order. */
  ghost predicate IsCollectionOf(coll: seq<Package>, m: Registry) {
    && DistinctPackages(coll)
    && (forall p :: p in coll ==> p.name in m && m[p.name] == p)
    && (forall n :: n in m ==> m[n] in coll)
  }

  ghost predicate IsDesired(desired: seq<Incoming>, n: string) {
    exists d :: d in desired && d.name == n
  }

  // ----- Populate -----------------------------------------------------------------------------

  /** Adds entries one by one and stops, reporting failure, at the first name already present. */
  function PopulateFrom(m: Registry, coll: seq<Package>): (Registry, bool)
    decreases coll
  {
    if coll == [] then (m, true)
    else if coll[0].name in m then (m, false)
    else PopulateFrom(m[coll[0].name := coll[0]], coll[1..])
  }

  function PopulateDesiredFrom(m: map<string, Incoming>, desired: seq<Incoming>): (map<string, Incoming>, bool)
    decreases desired
  {
    if desired == [] then (m, true)
    else if desired[0].name in m then (m, false)
    else PopulateDesiredFrom(m[desired[0].name := desired[0]], desired[1..])
  }

  lemma {:induction false} DistinctCons(p: Package, rest: seq<Package>)
    ensures DistinctPackages([p] + rest) <==> DistinctPackages(rest) && (forall q :: q in rest ==> q.name != p.name)
  {
    var coll := [p] + rest;
    if DistinctPackages(coll) {
      forall i, j | 0 <= i < j < |rest|
        ensures rest[i].name != rest[j].name
      {
        assert coll[i + 1].name != coll[j + 1].name;
      }
      forall q | q in rest
        ensures q.name != p.name
      {
        var i :| 0 <= i < |rest| && rest[i] == q;
        assert coll[0].name != coll[i + 1].name;
      }
    }
    if DistinctPackages(rest) && forall q :: q in rest ==> q.name != p.name {
      forall i, j | 0 <= i < j < |coll|
        ensures coll[i].name != coll[j].name
      {
        assert coll[j] == rest[j - 1];
      }
    }
  }

  /** Population succeeds exactly when no name repeats. */
  lemma {:induction false} PopulateSucceedsIff(m: Registry, coll: seq<Package>)
    ensures PopulateFrom(m, coll).1 <==> DistinctPackages(coll) && (forall p :: p in coll ==> p.name !in m)
    decreases coll
  {
    if coll != [] {
      var p, rest := coll[0], coll[1..];
      assert coll == [p] + rest;
      DistinctCons(p, rest);
      if p.name !in m {
        PopulateSucceedsIff(m[p.name := p], rest);
      } else {
        assert p in coll;
      }
    }
  }

  /** When it succeeds it adds every entry and nothing else. */
  lemma {:induction false} PopulateAddsExactly(m: Registry, coll: seq<Package>)
    requires PopulateFrom(m, coll).1
    ensures forall n :: n in PopulateFrom(m, coll).0 <==> n in m || (exists p :: p in coll && p.name == n)
    ensures forall p :: p in coll ==> PopulateFrom(m, coll).0[p.name] == p
    ensures forall n :: n in m ==> PopulateFrom(m, coll).0[n] == m[n]
    decreases coll
  {
    if coll != [] {
      var p, rest := coll[0], coll[1..];
      assert coll == [p] + rest;
      PopulateAddsExactly(m[p.name := p], rest);
      PopulateSucceedsIff(m, coll);
    }
  }

  lemma {:induction false} PopulateKeepsKeyed(m: Registry, coll: seq<Package>)
    requires Keyed(m)
    ensures Keyed(PopulateFrom(m, coll).0)
    decreases coll
  {
    if coll != [] && coll[0].name !in m {
      PopulateKeepsKeyed(m[coll[0].name := coll[0]], coll[1..]);
    }
  }

  /** Writing the entries in any order and reading them back restores the map. */
  lemma {:induction false} RegistryRoundTrip(m: Registry, coll: seq<Package>)
    requires IsCollectionOf(coll, m) && Keyed(m)
    ensures PopulateFrom(map[], coll) == (m, true)
  {
    PopulateSucceedsIff(map[], coll);
    PopulateAddsExactly(map[], coll);
    var r := PopulateFrom(map[], coll).0;
    forall n
      ensures n in r <==> n in m
      ensures n in m ==> r[n] == m[n]
    {
      if n in m {
        assert m[n] in coll && m[n].name == n;
      }
    }
    assert r == m;
  }

  lemma {:induction false} PopulateDesiredKeys(m: map<string, Incoming>, desired: seq<Incoming>)
    requires DistinctDesired(desired) && forall d :: d in desired ==> d.name !in m
    ensures forall n :: n in PopulateDesiredFrom(m, desired).0 <==> n in m || IsDesired(desired, n)
    decreases desired
  {
    if desired != [] {
      var d, rest := desired[0], desired[1..];
      assert desired == [d] + rest;
      assert d in desired;
      forall e | e in rest
        ensures e.name !in m[d.name := d]
      {
        assert e in desired;
        var i :| 0 <= i < |rest| && rest[i] == e;
        assert desired[0].name != desired[i + 1].name;
      }
      forall i, j | 0 <= i < j < |rest|
        ensures rest[i].name != rest[j].name
      {
        assert desired[i + 1].name != desired[j + 1].name;
      }
      PopulateDesiredKeys(m[d.name := d], rest);
      forall n
        ensures IsDesired(desired, n) <==> n == d.name || IsDesired(rest, n)
      {
        if IsDesired(desired, n) {
          var e :| e in desired && e.name == n;
          assert e == d || e in rest;
        }
        if IsDesired(rest, n) {
          var e :| e in rest && e.name == n;
          assert e in desired;
        }
      }
    }
  }

  // ----- The mutable map ----------------------------------------------------------------------

  class CurrentPackageRegistry {
    var apps: Registry

    constructor ()
      ensures apps == map[]
    {
      apps := map[];
    }

    method Populate(coll: seq<Package>) returns (ok: bool)
      modifies this
      ensures (apps, ok) == PopulateFrom(old(apps), coll)
    {
      var i := 0;
      while i < |coll|
        invariant 0 <= i <= |coll|
        invariant PopulateFrom(apps, coll[i..]) == PopulateFrom(old(apps), coll)
      {
        assert coll[i..][1..] == coll[i + 1..];
        if coll[i].name in apps {
          return false;
        }
        apps := apps[coll[i].name := coll[i]];
        i := i + 1;
      }
      return true;
    }

    /** The values in whatever order the map is walked. */
    method GetPackageCollection() returns (coll: seq<Package>)
      requires Keyed(apps)
      ensures IsCollectionOf(coll, apps)
    {
      coll := [];
      var remaining := apps.Keys;
      while remaining != {}
        invariant remaining <= apps.Keys
        invariant DistinctPackages(coll)
        invariant forall p :: p in coll ==> p.name in apps && p.name !in remaining && apps[p.name] == p
        invariant forall n :: n in apps && n !in remaining ==> apps[n] in coll
        decreases remaining
      {
        var n :| n in remaining;
        assert forall i :: 0 <= i < |coll| ==> coll[i] in coll;
        coll := coll + [apps[n]];
        remaining := remaining - {n};
      }
    }
  }

  /** The names the planner treats as desired; the error for a repeated name is dropped by its caller. */
  method PopulateDesired(desired: seq<Incoming>) returns (known: map<string, Incoming>, ok: bool)
    ensures (known, ok) == PopulateDesiredFrom(map[], desired)
  {
    known := map[];
    var i := 0;
    while i < |desired|
      invariant 0 <= i <= |desired|
      invariant PopulateDesiredFrom(known, desired[i..]) == PopulateDesiredFrom(map[], desired)
    {
      assert desired[i..][1..] == desired[i + 1..];
      if desired[i].name in known {
        return known, false;
      }
      known := known[desired[i].name := desired[i]];
      i := i + 1;
    }
    return known, true;
  }
}

/** The registry file and its replacement protocol: rename to backup, write, remove backup. */
module RegistryStore {
  import opened Options
  import opened Packages

  /** Contents of a file holding the registry as a JSON array; `Blank` has length zero, `Truncated` does not parse. */
  datatype File = Blank | Truncated | Complete(entries: seq<Package>)

  datatype Disk = Disk(active: Option<File>, backup: Option<File>)

  datatype ReadError = Malformed | DuplicateName

  /** What `GetExistingPackages` yields. Only the active file is ever consulted; a missing or blank one is an empty
      registry. */
  function ReadBack(d: Disk): Result<Registry, ReadError> {
    match d.active
    case None => Success(map[])
    case Some(Blank) => Success(map[])
    case Some(Truncated) => Failure(Malformed)
    case Some(Complete(entries)) =>
      var (m, ok) := PopulateFrom(map[], entries);
      if ok then Success(m) else Failure(DuplicateName)
  }

  /** The disk before, between and after the steps of one replacement of the registry by `entries`. */
  ghost function WriteTrace(d: Disk, entries: seq<Package>): (t: seq<Disk>)
    ensures |t| == 6
  {
    var kept := if d.active.Some? then d.active else d.backup;
    [ d,
      Disk(None, kept),
      Disk(Some(Blank), kept),
      Disk(Some(Truncated), kept),
      Disk(Some(Complete(entries)), kept),
      Disk(Some(Complete(entries)), if d.active.Some? then None else d.backup) ]
  }

  class PackageRegistryStore {
    var active: Option<File>
    var backup: Option<File>

    constructor (d: Disk)
      ensures State() == d
    {
      active, backup := d.active, d.backup;
    }

    ghost function State(): Disk
      reads this
    {
      Disk(active, backup)
    }

    method GetExistingPackages() returns (r: Result<CurrentPackageRegistry, ReadError>)
      ensures r.Success? ==> fresh(r.value) && ReadBack(State()) == Success(r.value.apps) && Keyed(r.value.apps)
      ensures r.Failure? ==> ReadBack(State()) == Failure(r.error)
      ensures active.None? || active.value.Blank? ==> r.Success? && r.value.apps == map[]
      ensures active == Some(Truncated) ==> r == Failure(Malformed)
      ensures active.Some? && active.value.Complete? ==>
                if DistinctPackages(active.value.entries) then
                  r.Success? && IsCollectionOf(active.value.entries, r.value.apps)
                else
                  r == Failure(DuplicateName)
    {
      var collection := [];
      if active.Some? {
        match active.value
        case Blank =>
        case Truncated => return Failure(Malformed);
        case Complete(entries) => collection := entries;
      }
      var registry := new CurrentPackageRegistry();
      var ok := registry.Populate(collection);
      PopulateSucceedsIff(map[], collection);
      if ok {
        PopulateAddsExactly(map[], collection);
        PopulateKeepsKeyed(map[], collection);
        return Success(registry);
      }
      return Failure(DuplicateName);
    }

    /** Every step succeeds; `trace` lists the disk states a crash could leave behind. */
    method WriteToDisk(registry: CurrentPackageRegistry) returns (ghost trace: seq<Disk>)
      requires Keyed(registry.apps)
      modifies this
      ensures ReadBack(State()) == Success(registry.apps)
      ensures exists coll :: IsCollectionOf(coll, registry.apps) && trace == WriteTrace(old(State()), coll)
      ensures trace[0] == old(State()) && trace[5] == State()
      ensures active.Some? && active.value.Complete? && IsCollectionOf(active.value.entries, registry.apps)
      ensures backup == if old(active).Some? then None else old(backup)
    {
      trace := [State()];
      var doesBackupFileExist := false;
      if active.Some? {
        backup, active := active, None;
        doesBackupFileExist := true;
      }
      trace := trace + [State()];
      var collection := registry.GetPackageCollection();
      active := Some(Blank);
      trace := trace + [State()];
      active := Some(Truncated);
      trace := trace + [State()];
      active := Some(Complete(collection));
      trace := trace + [State()];
      if doesBackupFileExist {
        backup := None;
      }
      trace := trace + [State()];
      RegistryRoundTrip(registry.apps, collection);
      assert trace == WriteTrace(old(State()), collection);
    }
  }

  // ----- Properties ---------------------------------------------------------------------------

  ghost predicate HoldsComplete(d: Disk, entries: seq<Package>) {
    d.active == Some(Complete(entries)) || d.backup == Some(Complete(entries))
  }

  /** At no point of a replacement is the old registry gone before the new one is complete. */
  lemma {:induction false} ReplacementNeverLosesBoth(d: Disk, before: seq<Package>, after: seq<Package>, i: nat)
    requires d.active == Some(Complete(before)) && i < 6
    ensures HoldsComplete(WriteTrace(d, after)[i], before) || HoldsComplete(WriteTrace(d, after)[i], after)
    ensures i <= 4 ==> HoldsComplete(WriteTrace(d, after)[i], before)
    ensures i >= 4 ==> HoldsComplete(WriteTrace(d, after)[i], after)
  {
    assert WriteTrace(d, after)[i] in WriteTrace(d, after);
  }

  /** Reading never falls back to the backup: after a crash the old or the new registry is read back exactly when the
      crash came before the rename or after the whole file was written, or when one of the two is empty anyway. */
  lemma {:induction false} CrashReadsOldOrNewIff(d: Disk, before: seq<Package>, old': Registry, after: seq<Package>,
                                                 new': Registry, i: nat)
    requires d.active == Some(Complete(before)) && i < 6
    requires IsCollectionOf(before, old') && Keyed(old') && IsCollectionOf(after, new') && Keyed(new')
    ensures (ReadBack(WriteTrace(d, after)[i]) == Success(old') || ReadBack(WriteTrace(d, after)[i]) == Success(new'))
       <==> i == 0 || i >= 4 || (i <= 2 && (old' == map[] || new' == map[]))
  {
    RegistryRoundTrip(old', before);
    RegistryRoundTrip(new', after);
  }
}

/** Finding the versioned directory a configuration folder lies in. */
module PathSplit {
  import opened Options
  import opened FileTrees

  datatype Split = Split(head: Path, versionedDirName: string, tail: Path)

  /** The path one component up; the root is its own parent. */
  function ParentDir(p: Path): Path {
    if p == [] then p else p[..|p| - 1]
  }

  predicate Matches(checkers: seq<string -> bool>, c: nat, name: string)
    requires c < |checkers|
  {
    checkers[c](name)
  }

  ghost predicate MatchesNone(checkers: seq<string -> bool>, c: nat, names: Path)
    requires c < |checkers|
  {
    forall i :: 0 <= i < |names| ==> !Matches(checkers, c, names[i])
  }

  /** The parts make up the path; checker `c` accepts the name and nothing below it, and no earlier checker accepts any
      component. */
  ghost predicate NearestMatch(path: Path, checkers: seq<string -> bool>, c: nat, split: Split)
    requires c < |checkers|
  {
    && split.head + [split.versionedDirName] + split.tail == path
    && Matches(checkers, c, split.versionedDirName)
    && MatchesNone(checkers, c, split.tail)
    && forall earlier: nat :: earlier < c ==> MatchesNone(checkers, earlier, path)
  }

  /** Checkers are tried in order of priority, each on the path itself and then on its ancestors, nearest first. */
  method SplitPathAroundVersionedDir(path: Path, checkers: seq<string -> bool>) returns (split: Option<Split>)
    ensures split.None? <==> forall c: nat :: c < |checkers| ==> MatchesNone(checkers, c, path)
    ensures split.Some? ==> exists c: nat :: c < |checkers| && NearestMatch(path, checkers, c, split.value)
  {
    var c := 0;
    while c < |checkers|
      invariant 0 <= c <= |checkers|
      invariant forall earlier: nat :: earlier < c ==> MatchesNone(checkers, earlier, path)
    {
      var relative: Path := [];
      var current := path;
      while current != ParentDir(current)
        invariant current + relative == path
        invariant MatchesNone(checkers, c, relative)
        decreases |current|
      {
        var name := current[|current| - 1];
        assert ParentDir(current) + [name] + relative == path;
        if checkers[c](name) {
          var found := Split(ParentDir(current), name, relative);
          assert NearestMatch(path, checkers, c, found);
          assert path[|current| - 1] == name && !MatchesNone(checkers, c, path);
          return Some(found);
        }
        relative := [name] + relative;
        current := ParentDir(current);
      }
      assert relative == path;
      c := c + 1;
    }
    return None;
  }

  /** Of two nearest matches of the same checker neither lies above the other. */
  lemma {:induction false} NotAbove(path: Path, checkers: seq<string -> bool>, c: nat, s: Split, t: Split)
    requires c < |checkers| && NearestMatch(path, checkers, c, s) && NearestMatch(path, checkers, c, t)
    ensures |s.head| >= |t.head|
  {
    assert path[|t.head|] == t.versionedDirName && path[|s.head| + 1..] == s.tail;
  }

  lemma {:induction false} NotEarlier(path: Path, checkers: seq<string -> bool>, c: nat, d: nat, s: Split, t: Split)
    requires c < |checkers| && NearestMatch(path, checkers, c, s)
    requires d < |checkers| && NearestMatch(path, checkers, d, t)
    ensures c <= d
  {
    assert path[|t.head|] == t.versionedDirName;
    assert d < c ==> MatchesNone(checkers, d, path);
  }

  /** The requirement leaves no freedom: there is at most one split, by one checker. */
  lemma {:induction false} NearestMatchIsUnique(path: Path, checkers: seq<string -> bool>, c: nat, d: nat,
                                                s: Split, t: Split)
    requires c < |checkers| && NearestMatch(path, checkers, c, s)
    requires d < |checkers| && NearestMatch(path, checkers, d, t)
    ensures c == d && s == t
  {
    NotEarlier(path, checkers, c, d, s, t);
    NotEarlier(path, checkers, d, c, t, s);
    NotAbove(path, checkers, c, s, t);
    NotAbove(path, checkers, c, t, s);
    var n := |s.head|;
    assert s.head == path[..n] == t.head && s.tail == path[n + 1..] == t.tail;
    assert s.versionedDirName == path[n] == t.versionedDirName;
  }
}

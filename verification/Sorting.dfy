/** In-place sorting through element swaps, as done behind `sort.Ints` and `sort.Sort`. */
module Sorting {

  ghost predicate SortedBy<T>(s: seq<T>, key: T -> int) {
    forall i, j :: 0 <= i < j < |s| ==> key(s[i]) <= key(s[j])
  }

  ghost predicate NoDuplicates<T>(s: seq<T>) {
    forall i, j :: 0 <= i < j < |s| ==> s[i] != s[j]
  }

  /** No promise is made about elements with equal keys. */
  method Sort<T>(a: array<T>, key: T -> int)
    modifies a
    ensures SortedBy(a[..], key)
    ensures multiset(a[..]) == multiset(old(a[..]))
  {
    var i := 0;
    while i < a.Length
      invariant 0 <= i <= a.Length
      invariant SortedBy(a[..i], key)
      invariant multiset(a[..]) == multiset(old(a[..]))
    {
      SinkLast(a, i, key);
      i := i + 1;
    }
    assert a[..a.Length] == a[..];
  }

  method Swap<T>(a: array<T>, i: nat, j: nat)
    requires i < j < a.Length
    modifies a
    ensures a[i] == old(a[j]) && a[j] == old(a[i])
    ensures forall k :: 0 <= k < a.Length && k != i && k != j ==> a[k] == old(a[k])
    ensures multiset(a[..]) == multiset(old(a[..]))
  {
    a[i], a[j] := a[j], a[i];
  }

  /** Swaps element `i` down into the sorted prefix before it. */
  method SinkLast<T>(a: array<T>, i: nat, key: T -> int)
    requires i < a.Length && SortedBy(a[..i], key)
    modifies a
    ensures SortedBy(a[..i + 1], key)
    ensures multiset(a[..]) == multiset(old(a[..]))
  {
    var j := i;
    assert forall k, l :: 0 <= k < l < i ==> key(a[k]) <= key(a[l]) by {
      assert forall k :: 0 <= k < i ==> a[..i][k] == a[k];
    }
    while j > 0 && key(a[j - 1]) > key(a[j])
      invariant 0 <= j <= i
      invariant forall k, l :: 0 <= k < l <= i && l != j ==> key(a[k]) <= key(a[l])
      invariant multiset(a[..]) == multiset(old(a[..]))
    {
      Swap(a, j - 1, j);
      j := j - 1;
    }
    forall k, l | 0 <= k < l <= i
      ensures key(a[k]) <= key(a[l])
    {
    }
  }

  lemma {:induction false} CountAtMostOneIff<T>(s: seq<T>)
    ensures NoDuplicates(s) <==> forall x :: x in s ==> multiset(s)[x] == 1
  {
    if s != [] {
      var last, rest := s[|s| - 1], s[..|s| - 1];
      assert s == rest + [last];
      CountAtMostOneIff(rest);
      assert multiset(s) == multiset(rest) + multiset{last};
      if NoDuplicates(s) {
        assert NoDuplicates(rest);
        assert last !in rest;
        forall x | x in s
          ensures multiset(s)[x] == 1
        {
          assert x == last || x in rest;
        }
      }
      if forall x :: x in s ==> multiset(s)[x] == 1 {
        assert last in s;
        assert multiset(rest)[last] == 0;
        forall x | x in rest
          ensures multiset(rest)[x] == 1
        {
          assert x in s;
          assert x in multiset(rest);
        }
        forall i, j | 0 <= i < j < |s|
          ensures s[i] != s[j]
        {
          assert s[i] in rest;
          assert rest[i] in multiset(rest);
        }
      }
    }
  }

  /** Sorting distinct integers leaves them strictly increasing. */
  method SortInts(s: seq<int>) returns (r: seq<int>)
    requires NoDuplicates(s)
    ensures forall i, j :: 0 <= i < j < |r| ==> r[i] < r[j]
    ensures forall x :: x in r <==> x in s
  {
    var a := new int[|s|](i requires 0 <= i < |s| => s[i]);
    assert a[..] == s;
    Sort(a, x => x);
    r := a[..];
    CountAtMostOneIff(s);
    forall x
      ensures x in r <==> x in s
    {
      assert x in multiset(r) <==> x in multiset(s);
    }
    CountAtMostOneIff(r);
  }
}

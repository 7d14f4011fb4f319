/** Version strings: splitting, numeric comparison with zero padding, and the string fallback. */
module Versions {
  import opened Options

  const MAX_INT64: int := 0x7FFF_FFFF_FFFF_FFFF
  const MIN_INT64: int := -0x8000_0000_0000_0000

  // ----- Text ---------------------------------------------------------------------------------

  /** The components of a version string, cut at every dot. There is always at least one. */
  function Split(s: string): (parts: seq<string>)
    ensures |parts| >= 1
  {
    if s == "" then [""]
    else
      var rest := Split(s[1..]);
      if s[0] == '.' then [""] + rest else [[s[0]] + rest[0]] + rest[1..]
  }

  function Join(parts: seq<string>): string
    requires |parts| >= 1
  {
    if |parts| == 1 then parts[0] else parts[0] + "." + Join(parts[1..])
  }

  /** Splitting loses nothing and leaves no dot behind. */
  lemma {:induction false} SplitJoin(s: string)
    ensures Join(Split(s)) == s
    ensures forall part :: part in Split(s) ==> '.' !in part
  {
    if s != "" {
      SplitJoin(s[1..]);
      var rest := Split(s[1..]);
      var parts := Split(s);
      if s[0] == '.' {
        assert parts[1..] == rest;
        assert "" + "." + s[1..] == s;
      } else {
        assert parts[1..] == rest[1..];
        assert [s[0]] + s[1..] == s;
        if |rest| > 1 {
          assert ([s[0]] + rest[0]) + "." + Join(rest[1..]) == [s[0]] + (rest[0] + "." + Join(rest[1..]));
        }
      }
    }
  }

  predicate IsDigit(c: char) {
    '0' <= c <= '9'
  }

  predicate AllDigits(s: string) {
    forall i :: 0 <= i < |s| ==> IsDigit(s[i])
  }

  function DigitsValue(s: string): (v: int)
    requires AllDigits(s)
    ensures v >= 0
  {
    if s == "" then 0
    else 10 * DigitsValue(s[..|s| - 1]) + ((s[|s| - 1] as int) - ('0' as int))
  }

  /** Decimal text to a 64-bit integer: an optional sign, at least one digit, and a value in range. */
  function Atoi(s: string): Option<int> {
    var negative := s != "" && s[0] == '-';
    var digits := if s != "" && (s[0] == '-' || s[0] == '+') then s[1..] else s;
    if digits == "" || !AllDigits(digits) then None
    else
      var v: int := if negative then -DigitsValue(digits) else DigitsValue(digits);
      if MIN_INT64 <= v <= MAX_INT64 then Some(v) else None
  }

  /** Subtraction on 64-bit machine integers. */
  function WrappingSub(a: int, b: int): int {
    var d := a - b;
    if d > MAX_INT64 then d - 0x1_0000_0000_0000_0000
    else if d < MIN_INT64 then d + 0x1_0000_0000_0000_0000
    else d
  }

  // ----- Reference definitions ----------------------------------------------------------------

  /** The components of a version, `None` where one does not parse. */
  type Numbers = seq<Option<int>>

  function Parse(s: string): (p: Numbers)
    ensures |p| == |Split(s)|
    ensures forall i :: 0 <= i < |p| && p[i].Some? ==> MIN_INT64 <= p[i].value <= MAX_INT64
  {
    var parts := Split(s);
    seq(|parts|, i requires 0 <= i < |parts| => Atoi(parts[i]))
  }

  /** Every number fits 64 bits, as all parsed ones do. */
  ghost predicate Machine(p: Numbers) {
    forall i :: 0 <= i < |p| && p[i].Some? ==> MIN_INT64 <= p[i].value <= MAX_INT64
  }

  /** Component `i`; components past the end count as zero. */
  ghost function At(p: Numbers, i: nat): Option<int> {
    if i < |p| then p[i] else Some(0)
  }

  ghost function Longest(p: Numbers, q: Numbers): nat {
    if |p| > |q| then |p| else |q|
  }

  ghost predicate AgreeBelow(p: Numbers, q: Numbers, k: nat) {
    forall i: nat :: i < k ==> At(p, i).Some? && At(p, i) == At(q, i)
  }

  /** `k` is the first index at which the padded sequences stop being equal numbers (or the end of both). */
  ghost predicate Decides(p: Numbers, q: Numbers, k: nat) {
    && k <= Longest(p, q)
    && AgreeBelow(p, q, k)
    && (k < Longest(p, q) ==> At(p, k).None? || At(p, k) != At(q, k))
  }

  ghost predicate Numeric(p: Numbers) {
    forall i: nat :: i < |p| ==> At(p, i).Some?
  }

  ghost predicate SamePadded(p: Numbers, q: Numbers) {
    forall i: nat :: At(p, i) == At(q, i)
  }

  /** Two versions are the same when they are the same text, or the same numbers up to trailing zeros. */
  ghost predicate VersionsEqual(a: string, b: string) {
    a == b || (Numeric(Parse(a)) && Numeric(Parse(b)) && SamePadded(Parse(a), Parse(b)))
  }

  /** Lexicographic order of the zero-padded number sequences. */
  ghost predicate LexLess(p: Numbers, q: Numbers) {
    exists k: nat :: AgreeBelow(p, q, k) && At(p, k).Some? && At(q, k).Some? && At(p, k).value < At(q, k).value
  }

  /** What a comparison yields when `k` is the deciding index: an error, zero, or a signed difference. */
  ghost function Verdict(p: Numbers, q: Numbers, k: nat): Option<int> {
    if k == Longest(p, q) then Some(0)
    else if At(p, k).None? || At(q, k).None? then None
    else if k < |p| && k < |q| then Some(WrappingSub(At(p, k).value, At(q, k).value))
    else if |p| > |q| then Some(1)
    else Some(-1)
  }

  // ----- The program --------------------------------------------------------------------------

  /** `r` is component `at`, the first one from `start` on that is not a plain zero, or zero if there is none. */
  ghost predicate FirstNonZero(parts: seq<string>, start: nat, at: nat, r: Option<int>) {
    && start <= at <= |parts|
    && (forall i :: start <= i < at ==> Atoi(parts[i]) == Some(0))
    && (if at == |parts| then r == Some(0) else r == Atoi(parts[at]) && r != Some(0))
  }

  /** The first non-zero number from `start` on, zero when all are, or an error at an unparsable one met before that. */
  method FindNonZeroVersionNumber(parts: seq<string>, start: nat) returns (r: Option<int>)
    requires start <= |parts|
    ensures exists at: nat :: FirstNonZero(parts, start, at, r)
  {
    var i := start;
    while i < |parts|
      invariant start <= i <= |parts|
      invariant forall j :: start <= j < i ==> Atoi(parts[j]) == Some(0)
    {
      var num := Atoi(parts[i]);
      assert num != Some(0) ==> FirstNonZero(parts, start, i, num);
      if num.None? {
        return None;
      }
      if num.value != 0 {
        return num;
      }
      i := i + 1;
    }
    assert FirstNonZero(parts, start, i, Some(0));
    return Some(0);
  }

  /** `None` is the error return. The result is fixed by the first index at which the numbers differ. */
  method CompareVersion(a: string, b: string) returns (r: Option<int>)
    ensures exists k: nat :: Decides(Parse(a), Parse(b), k) && r == Verdict(Parse(a), Parse(b), k)
  {
    hide Atoi;
    var parts1, parts2 := Split(a), Split(b);
    ghost var p, q := Parse(a), Parse(b);
    var i := 0;
    while i < |parts1| && i < |parts2|
      invariant 0 <= i <= |parts1| && i <= |parts2|
      invariant AgreeBelow(p, q, i)
    {
      assert At(p, i) == Atoi(parts1[i]) && At(q, i) == Atoi(parts2[i]);
      var num1 := Atoi(parts1[i]);
      if num1.None? {
        assert Decides(p, q, i);
        return None;
      }
      var num2 := Atoi(parts2[i]);
      if num2.None? {
        assert Decides(p, q, i);
        return None;
      }
      if num1.value != num2.value {
        assert Decides(p, q, i);
        return Some(WrappingSub(num1.value, num2.value));
      }
      i := i + 1;
    }
    if i == |parts1| && i == |parts2| {
      assert Decides(p, q, i);
      return Some(0);
    }
    if |parts1| > |parts2| {
      var remaining := FindNonZeroVersionNumber(parts1, i);
      ghost var at: nat :| FirstNonZero(parts1, i, at, remaining);
      RestDecides(p, q, i, at);
      if remaining.None? {
        return None;
      }
      return Some(if remaining.value == 0 then 0 else 1);
    } else {
      var remaining := FindNonZeroVersionNumber(parts2, i);
      ghost var at: nat :| FirstNonZero(parts2, i, at, remaining);
      RestDecides(q, p, i, at);
      DecidesSymmetric(q, p, at);
      if remaining.None? {
        return None;
      }
      return Some(if remaining.value == 0 then 0 else -1);
    }
  }

  /** Beyond the end of the shorter version the first non-zero number of the longer one decides. */
  lemma {:induction false} RestDecides(longer: Numbers, shorter: Numbers, i: nat, at: nat)
    requires |shorter| <= i <= at <= |longer|
    requires AgreeBelow(longer, shorter, i) || AgreeBelow(shorter, longer, i)
    requires forall j :: i <= j < at ==> longer[j] == Some(0)
    requires at < |longer| ==> longer[at] != Some(0)
    ensures Decides(longer, shorter, at)
  {
    forall j: nat | j < at
      ensures At(longer, j).Some? && At(longer, j) == At(shorter, j)
    {
      if j < i && !AgreeBelow(longer, shorter, i) {
        assert At(shorter, j).Some?;
      }
    }
  }

  lemma {:induction false} DecidesSymmetric(p: Numbers, q: Numbers, k: nat)
    requires Decides(p, q, k)
    ensures Decides(q, p, k)
  {
    forall i: nat | i < k
      ensures At(q, i).Some? && At(q, i) == At(p, i)
    {
      assert At(p, i).Some? && At(p, i) == At(q, i);
    }
  }

  /** Equal by comparison, or, when comparison fails, equal as text. */
  method AreVersionsEqual(a: string, b: string) returns (r: bool)
    ensures r <==> VersionsEqual(a, b)
  {
    var cmp := CompareVersion(a, b);
    ghost var k: nat :| Decides(Parse(a), Parse(b), k) && cmp == Verdict(Parse(a), Parse(b), k);
    VerdictZero(Parse(a), Parse(b), k);
    if cmp.Some? {
      r := cmp.value == 0;
      if a == b {
        assert k == Longest(Parse(a), Parse(b));
      }
    } else {
      r := a == b;
      assert k < Longest(Parse(a), Parse(b));
      if Numeric(Parse(a)) && Numeric(Parse(b)) {
        assert At(Parse(a), k).Some? && At(Parse(b), k).Some?;
      }
    }
  }

  // ----- Properties ---------------------------------------------------------------------------

  /** A zero verdict means exactly: all numbers parse and agree after padding. */
  lemma {:induction false} VerdictZero(p: Numbers, q: Numbers, k: nat)
    requires Machine(p) && Machine(q) && Decides(p, q, k)
    ensures Verdict(p, q, k) == Some(0) <==> (Numeric(p) && Numeric(q) && SamePadded(p, q))
  {
    if k == Longest(p, q) {
      forall i: nat
        ensures At(p, i) == At(q, i)
        ensures i < |p| ==> At(p, i).Some?
        ensures i < |q| ==> At(q, i).Some?
      {
        if i < k {
          assert At(p, i).Some? && At(p, i) == At(q, i);
        }
      }
    } else if At(p, k).Some? && At(q, k).Some? {
      assert At(p, k) != At(q, k);
    } else {
      if At(p, k).None? {
        assert k < |p|;
      } else {
        assert k < |q|;
      }
    }
  }

  /** Equality of versions is an equivalence relation on all strings, parsable or not. */
  lemma {:induction false} VersionsEqualIsEquivalence(a: string, b: string, c: string)
    ensures VersionsEqual(a, a)
    ensures VersionsEqual(a, b) ==> VersionsEqual(b, a)
    ensures VersionsEqual(a, b) && VersionsEqual(b, c) ==> VersionsEqual(a, c)
  {
    var p, q, r := Parse(a), Parse(b), Parse(c);
    if SamePadded(p, q) && SamePadded(q, r) {
      forall i: nat
        ensures At(p, i) == At(r, i)
      {
        assert At(p, i) == At(q, i) == At(r, i);
      }
    }
  }

  /** Exactly one index decides, so `CompareVersion` has exactly one possible answer. */
  lemma {:induction false} DecidesUnique(p: Numbers, q: Numbers, k: nat, l: nat)
    requires Decides(p, q, k) && Decides(p, q, l)
    ensures k == l
  {
  }

  /** The condition under which the returned number points the right way at the deciding index. */
  ghost predicate PointsRightWay(p: Numbers, q: Numbers, k: nat) {
    && At(p, k).Some? && At(q, k).Some?
    && (if k < |p| && k < |q| then
          MIN_INT64 <= At(p, k).value - At(q, k).value <= MAX_INT64
        else
          At(p, k).value >= 0 && At(q, k).value >= 0)
  }

  lemma {:induction false} LexLessAtDecision(p: Numbers, q: Numbers, k: nat)
    requires Decides(p, q, k)
    ensures LexLess(p, q) <==> At(p, k).Some? && At(q, k).Some? && At(p, k).value < At(q, k).value
  {
    if LexLess(p, q) {
      var l: nat :| AgreeBelow(p, q, l) && At(p, l).Some? && At(q, l).Some? && At(p, l).value < At(q, l).value;
      assert l < Longest(p, q);
      assert l == k;
    }
  }

  /** The sign of the answer is the lexicographic order exactly when the difference at the deciding index
      neither wraps nor is a negative number met after the shorter version has ended. */
  lemma {:induction false} CompareIsLexicographicIff(p: Numbers, q: Numbers, k: nat)
    requires Machine(p) && Machine(q) && Decides(p, q, k) && Verdict(p, q, k).Some?
    ensures ((Verdict(p, q, k).value < 0 <==> LexLess(p, q)) && (Verdict(p, q, k).value > 0 <==> LexLess(q, p)))
       <==> PointsRightWay(p, q, k)
  {
    DecidesSymmetric(p, q, k);
    LexLessAtDecision(p, q, k);
    LexLessAtDecision(q, p, k);
  }

  /** Every component is an unsigned number a 64-bit integer can hold. */
  ghost predicate Unsigned(p: Numbers) {
    forall i: nat :: i < |p| ==> At(p, i).Some? && At(p, i).value >= 0
  }

  /** On unsigned versions comparison never fails, never wraps, and is lexicographic with zero padding. */
  lemma {:induction false} CompareUnsigned(p: Numbers, q: Numbers, k: nat)
    requires Machine(p) && Machine(q) && Unsigned(p) && Unsigned(q) && Decides(p, q, k)
    ensures Verdict(p, q, k).Some?
    ensures Verdict(p, q, k).value < 0 <==> LexLess(p, q)
    ensures Verdict(p, q, k).value > 0 <==> LexLess(q, p)
    ensures Verdict(p, q, k).value == 0 <==> SamePadded(p, q)
    ensures k < |p| && k < |q| ==>
              Verdict(p, q, k).value == At(p, k).value - At(q, k).value
  {
    assert At(p, k).Some? && At(q, k).Some?;
    CompareIsLexicographicIff(p, q, k);
    VerdictZero(p, q, k);
  }

  /** Where both versions have a number the answer is their difference modulo 2^64; past the end of one it is a unit. */
  lemma {:induction false} AnswerValue(p: Numbers, q: Numbers, k: nat)
    requires Machine(p) && Machine(q) && Decides(p, q, k) && Verdict(p, q, k).Some?
    ensures MIN_INT64 <= Verdict(p, q, k).value <= MAX_INT64
    ensures k < |p| && k < |q| ==>
              (At(p, k).value - At(q, k).value - Verdict(p, q, k).value) % 0x1_0000_0000_0000_0000 == 0
    ensures |p| <= k < |q| ==> Verdict(p, q, k).value == -1
    ensures |q| <= k < |p| ==> Verdict(p, q, k).value == 1
  {
  }

  /** The order is transitive, so comparison on unsigned versions is a total preorder. */
  lemma {:induction false} LexLessTransitive(p: Numbers, q: Numbers, r: Numbers)
    requires LexLess(p, q) && LexLess(q, r)
    ensures LexLess(p, r)
  {
    var k: nat :| AgreeBelow(p, q, k) && At(p, k).Some? && At(q, k).Some? && At(p, k).value < At(q, k).value;
    var l: nat :| AgreeBelow(q, r, l) && At(q, l).Some? && At(r, l).Some? && At(q, l).value < At(r, l).value;
    var m := if k < l then k else l;
    assert AgreeBelow(p, r, m) by {
      forall i: nat | i < m
        ensures At(p, i).Some? && At(p, i) == At(r, i)
      {
        assert At(p, i).Some? && At(p, i) == At(q, i);
        assert At(q, i) == At(r, i);
      }
    }
    if k < l {
      assert At(q, k) == At(r, k);
    } else if l < k {
      assert At(p, l) == At(q, l);
    }
  }

  lemma {:induction false} SplitNoDot(s: string)
    requires '.' !in s
    ensures Split(s) == [s]
  {
    if s != "" {
      SplitNoDot(s[1..]);
      assert [s[0]] + s[1..] == s;
    }
  }

  /** Text without dots, up to a dot, is one part. */
  lemma {:induction false} SplitPart(part: string, rest: string)
    requires '.' !in part
    ensures Split(part + "." + rest) == [part] + Split(rest)
    decreases part
  {
    var s := part + "." + rest;
    if part == "" {
      assert s[1..] == rest;
    } else {
      assert s[1..] == part[1..] + "." + rest;
      SplitPart(part[1..], rest);
      assert [part[0]] + part[1..] == part;
    }
  }

  lemma {:induction false} NoDotInDigits(s: string)
    requires AllDigits(s)
    ensures '.' !in s
  {
  }

  /** With signed components the answers form a cycle: 1.-1 > 1, 1 = 1.0 and 1.0 > 1.-1. */
  lemma {:induction false} SignedComponentsCycle()
    ensures Decides(Parse("1.-1"), Parse("1"), 1) && Verdict(Parse("1.-1"), Parse("1"), 1) == Some(1)
    ensures Decides(Parse("1"), Parse("1.0"), 2) && Verdict(Parse("1"), Parse("1.0"), 2) == Some(0)
    ensures Decides(Parse("1.0"), Parse("1.-1"), 1) && Verdict(Parse("1.0"), Parse("1.-1"), 1) == Some(1)
  {
    assert "1"[..0] == "" && "0"[..0] == "" && "-1"[1..] == "1";
    assert DigitsValue("1") == 1 && DigitsValue("0") == 0;
    assert Atoi("1") == Some(1) && Atoi("0") == Some(0) && Atoi("-1") == Some(-1);
    assert "1.-1"[1..] == ".-1" && ".-1"[1..] == "-1" && "1.0"[1..] == ".0" && ".0"[1..] == "0";
    SplitNoDot("1");
    SplitNoDot("0");
    SplitNoDot("-1");
    assert Split(".-1") == ["", "-1"] && Split(".0") == ["", "0"];
    assert Split("1.-1") == ["1", "-1"] && Split("1.0") == ["1", "0"];
    assert Parse("1") == [Some(1)] && Parse("1.0") == [Some(1), Some(0)] && Parse("1.-1") == [Some(1), Some(-1)];
  }

  /** Three to five non-empty runs of digits separated by dots. */
  predicate IsValidVersionString(s: string) {
    var parts := Split(s);
    3 <= |parts| <= 5 && forall i :: 0 <= i < |parts| ==> parts[i] != "" && AllDigits(parts[i])
  }

  lemma {:induction false} SplitOfJoin(parts: seq<string>)
    requires |parts| >= 1 && forall part :: part in parts ==> '.' !in part
    ensures Split(Join(parts)) == parts
  {
    if |parts| == 1 {
      SplitNoDot(parts[0]);
    } else {
      SplitPart(parts[0], Join(parts[1..]));
      SplitOfJoin(parts[1..]);
      assert parts == [parts[0]] + parts[1..];
    }
  }

  /** Three to five parts, each a non-empty run of digits. */
  ghost predicate DigitRuns(parts: seq<string>) {
    3 <= |parts| <= 5 && forall i :: 0 <= i < |parts| ==> parts[i] != "" && AllDigits(parts[i])
  }

  /** Valid version strings are exactly three to five non-empty runs of digits joined by dots. */
  lemma {:induction false} ValidIff(s: string)
    ensures IsValidVersionString(s) <==> exists parts: seq<string> :: DigitRuns(parts) && s == Join(parts)
  {
    SplitJoin(s);
    assert IsValidVersionString(s) <==> DigitRuns(Split(s));
    hide IsValidVersionString, Split;
    if parts: seq<string> :| DigitRuns(parts) && s == Join(parts) {
      forall part | part in parts
        ensures '.' !in part
      {
        NoDotInDigits(part);
      }
      hide DigitRuns, Join;
      SplitOfJoin(parts);
    }
  }

  /** A valid version string is unsigned, hence totally ordered, as soon as its components fit 64 bits. */
  lemma {:induction false} ValidIsUnsigned(s: string)
    requires IsValidVersionString(s)
    requires forall i :: 0 <= i < |Split(s)| ==> DigitsValue(Split(s)[i]) <= MAX_INT64
    ensures Unsigned(Parse(s))
  {
    var parts := Split(s);
    forall i: nat | i < |parts|
      ensures At(Parse(s), i).Some? && At(Parse(s), i).value >= 0
    {
      assert parts[i] != "" && AllDigits(parts[i]);
      assert IsDigit(parts[i][0]);
    }
  }
}

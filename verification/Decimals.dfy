/** Decimal text: writing numbers, reading them back, and the versions written from lists of numbers. */
module Decimals {
  import opened Options
  import opened Versions

  // ----- Writing and reading one number ---------------------------------------------------------------------------

  function Digit(d: nat): char
    requires d < 10
  {
    ['0', '1', '2', '3', '4', '5', '6', '7', '8', '9'][d]
  }

  function Decimal(n: nat): string {
    if n < 10 then [Digit(n)] else Decimal(n / 10) + [Digit(n % 10)]
  }

  ghost function Zeros(k: nat): string {
    seq(k, _ => '0')
  }

  /** All ten digits as they are written. */
  lemma {:induction false} DecimalDigits()
    ensures Decimal(0) == "0" && Decimal(1) == "1" && Decimal(2) == "2" && Decimal(3) == "3" && Decimal(4) == "4"
    ensures Decimal(5) == "5" && Decimal(6) == "6" && Decimal(7) == "7" && Decimal(8) == "8" && Decimal(9) == "9"
  {
  }

  lemma {:induction false} DecimalValue(n: nat)
    ensures Decimal(n) != "" && AllDigits(Decimal(n)) && DigitsValue(Decimal(n)) == n
  {
    if n < 10 {
      assert [Digit(n)][..0] == "";
    } else {
      DecimalValue(n / 10);
      var s := Decimal(n);
      assert s[..|s| - 1] == Decimal(n / 10);
    }
  }

  lemma {:induction false} LeadingZeros(k: nat, s: string)
    requires AllDigits(s)
    ensures AllDigits(Zeros(k) + s) && DigitsValue(Zeros(k) + s) == DigitsValue(s)
  {
    if s == "" {
      assert Zeros(k) + s == Zeros(k);
      ZerosValue(k);
    } else {
      var front, all := s[..|s| - 1], Zeros(k) + s;
      LeadingZeros(k, front);
      assert all[..|all| - 1] == Zeros(k) + front;
    }
  }

  lemma {:induction false} ZerosValue(k: nat)
    ensures AllDigits(Zeros(k)) && DigitsValue(Zeros(k)) == 0
  {
    if k > 0 {
      ZerosValue(k - 1);
      assert Zeros(k)[..k - 1] == Zeros(k - 1);
    }
  }

  /** Every run of digits is a number in decimal with zeros in front of it. */
  lemma {:induction false} DigitsAreDecimal(s: string) returns (k: nat)
    requires s != "" && AllDigits(s)
    ensures s == Zeros(k) + Decimal(DigitsValue(s))
  {
    var front, last := s[..|s| - 1], s[|s| - 1];
    var d: nat := (last as int) - ('0' as int);
    assert IsDigit(last);
    DigitOf(last, d);
    assert s == front + [last] && AllDigits(front);
    if front == "" {
      assert DigitsValue(s) == d;
      k := 0;
      assert Zeros(0) + Decimal(d) == s;
    } else {
      var v := DigitsValue(front);
      var l := DigitsAreDecimal(front);
      assert DigitsValue(s) == 10 * v + d;
      if v == 0 {
        k := l + 1;
        assert front == Zeros(l) + "0";
        assert Zeros(k) + Decimal(d) == s;
      } else {
        k := l;
        assert (10 * v + d) / 10 == v && (10 * v + d) % 10 == d;
        assert Zeros(k) + Decimal(10 * v + d) == s;
      }
    }
  }

  lemma {:induction false} DigitOf(c: char, d: nat)
    requires IsDigit(c) && d == (c as int) - ('0' as int)
    ensures d < 10 && Digit(d) == c
  {
  }

  datatype Sign = Plain | Plus | Minus

  ghost function Signed(sign: Sign, digits: string): string {
    match sign
    case Plain => digits
    case Plus => "+" + digits
    case Minus => "-" + digits
  }

  ghost function SignedValue(sign: Sign, n: nat): int {
    if sign == Minus then -(n as int) else n
  }

  /** A number in decimal, with a sign or without, and with any zeros in front, is read as that number ... */
  lemma {:induction false} AtoiReads(sign: Sign, k: nat, n: nat)
    ensures Atoi(Signed(sign, Zeros(k) + Decimal(n))) ==
            if MIN_INT64 <= SignedValue(sign, n) <= MAX_INT64 then Some(SignedValue(sign, n)) else None
  {
    var digits := Zeros(k) + Decimal(n);
    DecimalValue(n);
    LeadingZeros(k, Decimal(n));
    assert IsDigit(digits[0]);
    assert ("+" + digits)[1..] == digits && ("-" + digits)[1..] == digits;
  }

  /** ... and nothing else is read at all. */
  lemma {:induction false} AtoiReadsNothingElse(s: string) returns (sign: Sign, k: nat, n: nat)
    requires Atoi(s).Some?
    ensures s == Signed(sign, Zeros(k) + Decimal(n)) && Atoi(s) == Some(SignedValue(sign, n))
  {
    sign := if s[0] == '-' then Minus else if s[0] == '+' then Plus else Plain;
    var digits := if sign == Plain then s else s[1..];
    k := DigitsAreDecimal(digits);
    n := DigitsValue(digits);
    assert s == Signed(sign, digits);
  }

  // ----- Versions written from numbers ------------------------------------------------------------------------------

  function Written(numbers: seq<nat>): string
    requires numbers != []
  {
    if |numbers| == 1 then Decimal(numbers[0]) else Decimal(numbers[0]) + "." + Written(numbers[1..])
  }

  ghost function Padded(numbers: seq<nat>, i: nat): nat {
    if i < |numbers| then numbers[i] else 0
  }

  ghost predicate Fits(numbers: seq<nat>) {
    forall i :: 0 <= i < |numbers| ==> numbers[i] <= MAX_INT64
  }

  /** The first difference of the zero-padded lists goes down. */
  ghost predicate Before(a: seq<nat>, b: seq<nat>) {
    exists k: nat :: Padded(a, k) < Padded(b, k) && forall i: nat :: i < k ==> Padded(a, i) == Padded(b, i)
  }

  lemma {:induction false} SplitWritten(numbers: seq<nat>)
    requires numbers != []
    ensures |Split(Written(numbers))| == |numbers|
    ensures forall i :: 0 <= i < |numbers| ==> Split(Written(numbers))[i] == Decimal(numbers[i])
  {
    DecimalValue(numbers[0]);
    NoDotInDigits(Decimal(numbers[0]));
    if |numbers| == 1 {
      SplitNoDot(Decimal(numbers[0]));
    } else {
      SplitPart(Decimal(numbers[0]), Written(numbers[1..]));
      SplitWritten(numbers[1..]);
    }
  }

  /** Reading a written version gives its numbers. */
  lemma {:induction false} ParseWritten(numbers: seq<nat>)
    requires numbers != [] && Fits(numbers)
    ensures |Parse(Written(numbers))| == |numbers|
    ensures forall i :: 0 <= i < |numbers| ==> Parse(Written(numbers))[i] == Some(numbers[i])
  {
    SplitWritten(numbers);
    forall i | 0 <= i < |numbers|
      ensures Atoi(Decimal(numbers[i])) == Some(numbers[i])
    {
      AtoiReads(Plain, 0, numbers[i]);
      assert Zeros(0) + Decimal(numbers[i]) == Decimal(numbers[i]);
    }
  }

  lemma {:induction false} PaddedAt(numbers: seq<nat>, i: nat)
    requires numbers != [] && Fits(numbers)
    ensures At(Parse(Written(numbers)), i) == Some(Padded(numbers, i))
  {
    ParseWritten(numbers);
  }

  lemma {:induction false} WrittenIsUnsigned(numbers: seq<nat>)
    requires numbers != [] && Fits(numbers)
    ensures Unsigned(Parse(Written(numbers))) && Numeric(Parse(Written(numbers)))
  {
    forall i: nat
      ensures At(Parse(Written(numbers)), i).Some? && At(Parse(Written(numbers)), i).value >= 0
    {
      PaddedAt(numbers, i);
    }
  }

  lemma {:induction false} SamePaddedIff(a: seq<nat>, b: seq<nat>)
    requires a != [] && b != [] && Fits(a) && Fits(b)
    ensures SamePadded(Parse(Written(a)), Parse(Written(b))) <==> forall i: nat :: Padded(a, i) == Padded(b, i)
  {
    var p, q := Parse(Written(a)), Parse(Written(b));
    forall i: nat
      ensures At(p, i) == At(q, i) <==> Padded(a, i) == Padded(b, i)
    {
      PaddedAt(a, i);
      PaddedAt(b, i);
    }
    hide Parse, Written, Padded, Fits, At;
  }

  /** Versions written from numbers are equal exactly when the numbers agree after zero padding. */
  lemma {:induction false} WrittenEqualIff(a: seq<nat>, b: seq<nat>)
    requires a != [] && b != [] && Fits(a) && Fits(b)
    ensures VersionsEqual(Written(a), Written(b)) <==> forall i: nat :: Padded(a, i) == Padded(b, i)
  {
    WrittenIsUnsigned(a);
    WrittenIsUnsigned(b);
    SamePaddedIff(a, b);
    hide Parse, Numeric, Written, Unsigned, Padded, Fits, At;
  }

  lemma {:induction false} BeforeIsLexLess(a: seq<nat>, b: seq<nat>)
    requires a != [] && b != [] && Fits(a) && Fits(b)
    ensures LexLess(Parse(Written(a)), Parse(Written(b))) <==> Before(a, b)
  {
    var p, q := Parse(Written(a)), Parse(Written(b));
    forall i: nat
      ensures At(p, i) == Some(Padded(a, i)) && At(q, i) == Some(Padded(b, i))
    {
      PaddedAt(a, i);
      PaddedAt(b, i);
    }
    hide Parse, Written, Padded, Fits, At;
    if LexLess(p, q) {
      var k: nat :| AgreeBelow(p, q, k) && At(p, k).Some? && At(q, k).Some? && At(p, k).value < At(q, k).value;
      assert forall i: nat :: i < k ==> Padded(a, i) == Padded(b, i) by {
        forall i: nat | i < k
          ensures Padded(a, i) == Padded(b, i)
        {
          assert At(p, i) == At(q, i);
        }
      }
    }
    if Before(a, b) {
      var k: nat :| Padded(a, k) < Padded(b, k) && forall i: nat :: i < k ==> Padded(a, i) == Padded(b, i);
      assert AgreeBelow(p, q, k);
    }
  }

  /** Comparing versions written from numbers never fails, and the sign of the answer is the order of the numbers. */
  lemma {:induction false} CompareWritten(a: seq<nat>, b: seq<nat>, k: nat, answer: Option<int>)
    requires a != [] && b != [] && Fits(a) && Fits(b)
    requires Decides(Parse(Written(a)), Parse(Written(b)), k)
    requires answer == Verdict(Parse(Written(a)), Parse(Written(b)), k)
    ensures answer.Some?
    ensures answer.value < 0 <==> Before(a, b)
    ensures answer.value > 0 <==> Before(b, a)
    ensures answer.value == 0 <==> forall i: nat :: Padded(a, i) == Padded(b, i)
  {
    var p, q := Parse(Written(a)), Parse(Written(b));
    WrittenIsUnsigned(a);
    WrittenIsUnsigned(b);
    CompareUnsigned(p, q, k);
    BeforeIsLexLess(a, b);
    BeforeIsLexLess(b, a);
    SamePaddedIff(a, b);
    hide *;
  }
}

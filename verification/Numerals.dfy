/** Numbers written in a base, highest digit first. */
module Numerals {
  import opened Arith

  predicate InBase(ds: seq<nat>, b: nat) {
    forall i :: 0 <= i < |ds| ==> ds[i] < b
  }

  function Value(ds: seq<nat>, b: nat): nat {
    if ds == [] then 0 else Value(ds[..|ds| - 1], b) * b + ds[|ds| - 1]
  }

  // Without leading zeros; nothing for zero.
  function Digits(v: nat, b: nat): (ds: seq<nat>)
    requires b > 1
    ensures InBase(ds, b)
    ensures v > 0 ==> |ds| > 0 && ds[0] > 0
    ensures v == 0 ==> ds == []
  {
    if v == 0 then []
    else
      Smaller(v, b);
      Digits(v / b, b) + [v % b]
  }

  lemma Smaller(v: nat, b: nat)
    requires v > 0 && b > 1
    ensures v / b < v
  {
    if v / b >= v {
      assert v / b * b <= v;
      AtLeastTwice(v / b, b);
    }
  }

  lemma AtLeastTwice(q: nat, b: nat)
    requires b > 1
    ensures q * b >= 2 * q
  {
  }

  lemma ValueSnoc(ds: seq<nat>, d: nat, b: nat)
    ensures Value(ds + [d], b) == Value(ds, b) * b + d
  {
    assert (ds + [d])[..|ds|] == ds;
  }

  lemma DigitsStep(v: nat, b: nat)
    requires v > 0 && b > 1
    ensures v / b < v && Digits(v, b) == Digits(v / b, b) + [v % b]
  {
    Smaller(v, b);
  }

  lemma {:induction false} ValueOfDigits(v: nat, b: nat)
    requires b > 1
    ensures Value(Digits(v, b), b) == v
  {
    hide Digits, Value;
    if v == 0 {
      NoValue(b);
    } else {
      DigitsStep(v, b);
      Quotient(v, b);
      ValueOfDigits(v / b, b);
      ValueSnoc(Digits(v / b, b), v % b, b);
    }
  }

  lemma NoValue(b: nat)
    ensures Value([], b) == 0
  {
  }

  // The first digit is worth most.
  lemma ThreeDigits(a: nat, b: nat, c: nat, base: nat)
    ensures Value([a, b, c], base) == (a * base + b) * base + c
  {
    hide Value;
    NoValue(base);
    ValueSnoc([], a, base);
    ValueSnoc([a], b, base);
    ValueSnoc([a, b], c, base);
    assert [] + [a] == [a] && [a] + [b] == [a, b] && [a, b] + [c] == [a, b, c];
  }

  function Zeros(n: nat): (z: seq<nat>)
    ensures |z| == n && forall i :: 0 <= i < n ==> z[i] == 0
  {
    seq(n, _ => 0)
  }

  function LeadingZeros(ds: seq<nat>): (n: nat)
    ensures n <= |ds| && (forall i :: 0 <= i < n ==> ds[i] == 0) && (n < |ds| ==> ds[n] > 0)
  {
    if ds == [] || ds[0] > 0 then 0 else 1 + LeadingZeros(ds[1..])
  }

  lemma LeadingZerosIs(ds: seq<nat>, n: nat)
    requires n <= |ds| && (forall i :: 0 <= i < n ==> ds[i] == 0) && (n < |ds| ==> ds[n] > 0)
    ensures LeadingZeros(ds) == n
  {
  }

  lemma {:induction false} ValueOfZeros(n: nat, b: nat)
    ensures Value(Zeros(n), b) == 0
  {
    if n > 0 {
      ValueOfZeros(n - 1, b);
      assert Zeros(n)[..n - 1] == Zeros(n - 1);
    }
  }

  lemma {:induction false} ValuePadded(n: nat, ds: seq<nat>, b: nat)
    ensures Value(Zeros(n) + ds, b) == Value(ds, b)
  {
    if ds == [] {
      ValueOfZeros(n, b);
      assert Zeros(n) + ds == Zeros(n);
    } else {
      ValuePadded(n, ds[..|ds| - 1], b);
      assert (Zeros(n) + ds)[..n + |ds| - 1] == Zeros(n) + ds[..|ds| - 1];
    }
  }

  lemma LeadingZero(ds: seq<nat>, b: nat)
    ensures Value([0] + ds, b) == Value(ds, b)
  {
    ValuePadded(1, ds, b);
    assert Zeros(1) == [0];
  }

  lemma ValueDivides(ds: seq<nat>, b: nat)
    requires b > 1 && InBase(ds, b) && ds != []
    ensures var v := Value(ds, b); v / b == Value(ds[..|ds| - 1], b) && v % b == ds[|ds| - 1]
  {
    ModUnique(Value(ds, b), b, Value(ds[..|ds| - 1], b), ds[|ds| - 1]);
  }

  lemma {:induction false} PositiveValue(ds: seq<nat>, b: nat)
    requires b > 1 && ds != [] && ds[0] > 0
    ensures Value(ds, b) > 0
  {
    if |ds| > 1 {
      PositiveValue(ds[..|ds| - 1], b);
    }
  }

  // Digits without a leading zero are those of their value.
  lemma {:induction false} DigitsOfValue(ds: seq<nat>, b: nat)
    requires b > 1 && InBase(ds, b) && (ds != [] ==> ds[0] > 0)
    ensures Digits(Value(ds, b), b) == ds
  {
    if ds != [] {
      var n := |ds| - 1;
      PositiveValue(ds, b);
      ValueDivides(ds, b);
      DigitsOfValue(ds[..n], b);
      assert ds == ds[..n] + [ds[n]];
    }
  }

  // Any digits are zeros and then the digits of their value.
  lemma ZerosAndDigits(ds: seq<nat>, b: nat)
    requires b > 1 && InBase(ds, b)
    ensures ds == Zeros(LeadingZeros(ds)) + Digits(Value(ds, b), b)
  {
    var n := LeadingZeros(ds);
    assert ds == Zeros(n) + ds[n..];
    ValuePadded(n, ds[n..], b);
    DigitsOfValue(ds[n..], b);
  }

  // From one base to another, a zero for every leading zero.
  function Convert(ds: seq<nat>, a: nat, b: nat): seq<nat>
    requires a > 1 && b > 1
  {
    Zeros(LeadingZeros(ds)) + Digits(Value(ds, a), b)
  }

  lemma ConvertFacts(ds: seq<nat>, a: nat, b: nat)
    requires a > 1 && b > 1
    ensures InBase(Convert(ds, a, b), b)
    ensures LeadingZeros(Convert(ds, a, b)) == LeadingZeros(ds)
    ensures Value(Convert(ds, a, b), b) == Value(ds, a)
  {
    var n, d := LeadingZeros(ds), Digits(Value(ds, a), b);
    ValuePadded(n, d, b);
    ValueOfDigits(Value(ds, a), b);
    LeadingZerosIs(Zeros(n) + d, n);
  }

  // Converting back gives the same digits.
  lemma ConvertBack(ds: seq<nat>, a: nat, b: nat)
    requires a > 1 && b > 1 && InBase(ds, a)
    ensures Convert(Convert(ds, a, b), b, a) == ds
  {
    ConvertFacts(ds, a, b);
    ZerosAndDigits(ds, a);
  }

  function PowerOf(b: nat, n: nat): (p: nat)
    ensures b > 0 ==> p > 0
  {
    if n == 0 then 1 else b * PowerOf(b, n - 1)
  }

  function Reversed<T>(s: seq<T>): (r: seq<T>)
    ensures |r| == |s| && forall i :: 0 <= i < |s| ==> r[i] == s[|s| - 1 - i]
  {
    seq(|s|, i requires 0 <= i < |s| => s[|s| - 1 - i])
  }

  lemma ReversedCons<T>(x: T, s: seq<T>)
    ensures Reversed([x] + s) == Reversed(s) + [x]
  {
  }

  lemma ReversedTwice<T>(s: seq<T>)
    ensures Reversed(Reversed(s)) == s
  {
  }
}

/** Conversions of big integers to and from byte strings, by way of the MPI format: the magnitude
    highest byte first, with the sign in the top bit of the first byte. */
module BigNum {
  import opened Arith
  import opened Numerals

  type Octets = seq<nat>

  // ----- the format

  function Abs(v: int): nat { if v < 0 then -v else v }

  // The bytes d with the sign of the number, in a byte of its own when the top bit is taken.
  function Signed(d: Octets, negative: bool): Octets {
    var sign := if negative then 128 else 0;
    if d == [] then []
    else if d[0] >= 128 then [sign] + d
    else d[0 := d[0] + sign]
  }

  function ToMpi(v: int): Octets { Signed(Digits(Abs(v), 256), v < 0) }

  function Unsigned(b: Octets): Octets
    requires b != []
  {
    b[0 := b[0] % 128]
  }

  function FromMpi(b: Octets): int {
    if b == [] then 0
    else
      var v := Value(Unsigned(b), 256);
      if b[0] >= 128 then 0 - v else v
  }

  lemma FromLongSigned(d: Octets, sign: nat)
    requires d != [] && (sign == 0 || sign == 128)
    ensures FromMpi([sign] + d) == if sign == 128 then 0 - Value(d, 256) else Value(d, 256)
  {
    hide Value;
    LeadingZero(d, 256);
    assert Unsigned([sign] + d) == [0] + d;
  }

  lemma FromShortSigned(d: Octets, sign: nat)
    requires d != [] && d[0] < 128 && (sign == 0 || sign == 128)
    ensures FromMpi(d[0 := d[0] + sign]) == if sign == 128 then 0 - Value(d, 256) else Value(d, 256)
  {
    hide Value, FromMpi, Unsigned;
    FromMpiIs(d[0 := d[0] + sign]);
    ShortUnsigned(d, sign);
  }

  lemma ShortUnsigned(d: Octets, sign: nat)
    requires d != [] && d[0] < 128 && (sign == 0 || sign == 128)
    ensures Unsigned(d[0 := d[0] + sign]) == d
  {
    assert (d[0] + sign) % 128 == d[0];
  }

  lemma FromSigned(d: Octets, negative: bool)
    ensures FromMpi(Signed(d, negative)) == if negative then 0 - Value(d, 256) else Value(d, 256)
  {
    hide FromMpi, Value;
    if d == [] {
      NoValue(256);
      assert FromMpi([]) == 0 by { FromNothing(); }
    } else if d[0] >= 128 {
      FromLongSigned(d, if negative then 128 else 0);
    } else {
      FromShortSigned(d, if negative then 128 else 0);
    }
  }

  lemma FromNothing()
    ensures FromMpi([]) == 0
  {
  }

  // Every integer comes back.
  lemma MpiRoundTrip(v: int)
    ensures FromMpi(ToMpi(v)) == v
  {
    FromSigned(Digits(Abs(v), 256), v < 0);
    ValueOfDigits(Abs(v), 256);
  }

  // No byte of the string could be left out: the first one holds part of the number, or only the sign
  // because the second has its top bit set.
  predicate Shortest(b: Octets) {
    b == [] || b[0] % 128 != 0 || (|b| > 1 && b[1] >= 128)
  }

  // A byte string comes back exactly when it is the shortest one for its number.
  lemma BytesRoundTrip(b: Octets)
    requires InBase(b, 256)
    ensures ToMpi(FromMpi(b)) == b <==> Shortest(b)
  {
    if b == [] {
      assert Abs(0) == 0;
    } else if Shortest(b) {
      ShortestIsSigned(b);
    } else {
      SignedIsShortest(Digits(Abs(FromMpi(b)), 256), FromMpi(b) < 0);
    }
  }

  lemma ShortestIsSigned(b: Octets)
    requires InBase(b, 256) && b != [] && Shortest(b)
    ensures ToMpi(FromMpi(b)) == b
  {
    var negative := b[0] >= 128;
    if b[0] % 128 != 0 {
      var d := Unsigned(b);
      FromDigits(d, negative);
      assert Signed(d, negative) == b by { SignBack(b); }
    } else {
      FromDigits(b[1..], negative);
      assert Signed(b[1..], negative) == b;
    }
  }

  lemma SignBack(b: Octets)
    requires InBase(b, 256) && b != [] && b[0] % 128 != 0
    ensures Signed(Unsigned(b), b[0] >= 128) == b
  {
  }

  lemma FromDigits(d: Octets, negative: bool)
    requires InBase(d, 256) && d != [] && d[0] > 0
    ensures ToMpi(FromMpi(Signed(d, negative))) == Signed(d, negative)
  {
    hide Value, Signed, FromMpi, Digits;
    FromSigned(d, negative);
    PositiveValue(d, 256);
    DigitsOfValue(d, 256);
  }

  lemma SignedIsShortest(d: Octets, negative: bool)
    requires d != [] ==> d[0] > 0
    ensures Shortest(Signed(d, negative))
  {
  }

  // ----- byte strings with the lowest byte first

  function SetVch(b: Octets): int { FromMpi(Reversed(b)) }

  function GetVch(v: int): Octets { Reversed(ToMpi(v)) }

  lemma VchRoundTrip(v: int)
    ensures SetVch(GetVch(v)) == v
  {
    ReversedTwice(ToMpi(v));
    MpiRoundTrip(v);
  }

  // The bytes of a number: the last one has the sign in its top bit, and without it they are the
  // magnitude, lowest byte first.
  lemma VchIs(v: int)
    ensures var b := GetVch(v);
            && (b == [] <==> v == 0)
            && (b != [] ==>
                  && (b[|b| - 1] >= 128 <==> v < 0)
                  && Value(Reversed(b[|b| - 1 := b[|b| - 1] % 128]), 256) == Abs(v))
  {
    var p, b := ToMpi(v), GetVch(v);
    MpiRoundTrip(v);
    hide ToMpi, Value;
    if p != [] {
      FromMpiIs(p);
      assert Reversed(b[|b| - 1 := b[|b| - 1] % 128]) == Unsigned(p);
      assert b[|b| - 1] == p[0];
    } else {
      FromNothing();
    }
    ZeroIsEmpty(v);
  }

  lemma FromMpiIs(p: Octets)
    requires p != []
    ensures FromMpi(p) == if p[0] >= 128 then 0 - Value(Unsigned(p), 256) else Value(Unsigned(p), 256)
  {
  }

  lemma ZeroIsEmpty(v: int)
    ensures ToMpi(v) == [] <==> v == 0
    ensures v != 0 ==> (ToMpi(v)[0] >= 128 <==> v < 0)
  {
    assert Digits(Abs(v), 256) == [] <==> v == 0;
  }

  // ----- machine words

  const RANGE: nat := 0x1_0000_0000_0000_0000

  // The next byte of a number written highest byte first: leading zeros are left out, and the first
  // byte written gets the sign.
  method PutByte(p: Octets, leading: bool, c: nat, negative: bool, ghost hi: nat)
    returns (q: Octets, stillLeading: bool)
    requires c < 256 && leading == (hi == 0) && p == Signed(Digits(hi, 256), negative)
    ensures stillLeading == (hi * 256 + c == 0) && q == Signed(Digits(hi * 256 + c, 256), negative)
    ensures |q| <= |p| + if leading then 2 else 1
  {
    q, stillLeading := p, leading;
    var byte := c;
    NextDigit(hi, c);
    if stillLeading {
      if byte == 0 {
        return;
      }
      if byte >= 128 {
        q := q + [if negative then 128 else 0];
      } else if negative {
        byte := byte + 128;
      }
      stillLeading := false;
    }
    q := q + [byte];
  }

  lemma NextDigit(hi: nat, c: nat)
    requires c < 256
    ensures Digits(hi * 256 + c, 256) == if hi * 256 + c == 0 then [] else Digits(hi, 256) + [c]
    ensures hi == 0 ==> Digits(hi, 256) == []
  {
    if hi * 256 + c > 0 {
      DigitsStep(hi * 256 + c, 256);
    }
  }

  lemma {:induction false} PowerAdd(i: nat, j: nat)
    ensures PowerOf(256, i + j) == PowerOf(256, i) * PowerOf(256, j)
  {
    if i > 0 {
      PowerAdd(i - 1, j);
      assert 256 * PowerOf(256, i - 1) * PowerOf(256, j) == 256 * (PowerOf(256, i - 1) * PowerOf(256, j));
    }
  }

  lemma WordPowers()
    ensures PowerOf(256, 7) == 0x100_0000_0000_0000 && PowerOf(256, 8) == RANGE
  {
    assert PowerOf(256, 3) == 0x100_0000;
    assert PowerOf(256, 5) == 0x100_0000_0000;
  }

  // What the shift of a 64-bit word by one byte shifts out, and what it leaves.
  lemma ShiftOut(i: nat, n: nat, lo: nat) returns (c: nat, rest: nat)
    requires i < 8 && n == lo * PowerOf(256, i) && lo < PowerOf(256, 8 - i)
    ensures c < 256 && lo == c * PowerOf(256, 7 - i) + rest && rest < PowerOf(256, 7 - i)
    ensures n / 0x100_0000_0000_0000 == c && n * 256 % RANGE == rest * PowerOf(256, i + 1)
  {
    hide PowerOf;
    WordPowers();
    PowerAdd(7 - i, i);
    PowerFacts(8 - i);
    PowerFacts(i + 1);
    c, rest := ShiftOutOf(PowerOf(256, i), PowerOf(256, 7 - i), PowerOf(256, 7), n, lo);
  }

  lemma ShiftOutOf(p: nat, s: nat, w: nat, n: nat, lo: nat) returns (c: nat, rest: nat)
    requires p > 0 && s > 0 && s * p == w && n == lo * p && lo < 256 * s
    ensures c < 256 && lo == c * s + rest && rest < s
    ensures n / w == c && n * 256 % (256 * w) == rest * (256 * p)
  {
    c, rest := lo / s, lo % s;
    Quotient(lo, s);
    if c >= 256 { AtLeastOnceEqual(c, 256, s); }
    Spread(c, s, rest, p);
    Below(rest, s, p);
    ModUnique(n, w, c, rest * p);
    Times256(n, c, w, rest, p);
    ModUnique(n * 256, 256 * w, c, rest * (256 * p));
  }

  lemma Times256(n: nat, c: nat, w: nat, rest: nat, p: nat)
    requires n == c * w + rest * p && rest * p < w
    ensures n * 256 == c * (256 * w) + rest * (256 * p) && rest * (256 * p) < 256 * w
  {
  }

  lemma AtLeastOnceEqual(c: nat, d: nat, s: nat)
    requires c >= d
    ensures c * s >= d * s
  {
    if c > d { AtLeastOnce(c, d, s); }
  }

  lemma Below(r: nat, s: nat, p: nat)
    requires r < s && p > 0
    ensures r * p < s * p
  {
  }

  method PutWord(word: nat, negative: bool) returns (p: Octets)
    requires word < RANGE
    ensures p == Signed(Digits(word, 256), negative) && |p| <= 9
  {
    hide Digits, PowerOf, Signed;
    var n, leading := word, true;
    p := [];
    ghost var hi: nat, lo: nat := 0, word;
    WordPowers();
    NoDigits();
    SignOfNothing(negative);
    for i := 0 to 8
      invariant word == hi * PowerOf(256, 8 - i) + lo && lo < PowerOf(256, 8 - i)
      invariant n == lo * PowerOf(256, i)
      invariant leading == (hi == 0) && p == Signed(Digits(hi, 256), negative)
      invariant |p| <= i + 1
    {
      PowerFacts(8 - i);
      ghost var out, rest := ShiftOut(i, n, lo);
      Regroup(hi, out, PowerOf(256, 7 - i), rest);
      var c := n / 0x100_0000_0000_0000 % 256;
      n := n * 256 % RANGE;
      p, leading := PutByte(p, leading, c, negative, hi);
      hi, lo := hi * 256 + out, rest;
    }
    assert lo == 0 && word == hi;
  }

  lemma SignOfNothing(negative: bool)
    ensures Signed([], negative) == []
  {
  }

  lemma NoDigits()
    ensures Digits(0, 256) == [] && PowerOf(256, 0) == 1
  {
  }

  lemma Regroup(hi: nat, c: nat, s: nat, rest: nat)
    ensures hi * (256 * s) + (c * s + rest) == (hi * 256 + c) * s + rest
  {
  }

  // For every 64-bit integer, the least one included.
  method SetInt64(sn: int) returns (v: int)
    requires -0x8000_0000_0000_0000 <= sn < 0x8000_0000_0000_0000
    ensures v == sn
  {
    var n: nat := if sn < 0 then (0 - (sn + 1)) + 1 else sn;
    var p := PutWord(n, sn < 0);
    FromSigned(Digits(n, 256), sn < 0);
    ValueOfDigits(n, 256);
    v := FromMpi(p);
  }

  method SetUint64(n: nat) returns (v: int)
    requires n < RANGE
    ensures v == n
  {
    var p := PutWord(n, false);
    FromSigned(Digits(n, 256), false);
    ValueOfDigits(n, 256);
    v := FromMpi(p);
  }

  // Byte k of a number, lowest first.
  function ByteAt(n: nat, k: nat): (c: nat)
    ensures c < 256
  {
    n / PowerOf(256, k) % 256
  }

  lemma ByteBelow(n: nat, k: nat)
    ensures n / PowerOf(256, k) == n / PowerOf(256, k + 1) * 256 + ByteAt(n, k)
  {
    var p := PowerOf(256, k);
    var q := n / p;
    assert PowerOf(256, k + 1) == 256 * p;
    hide PowerOf;
    Quotient(n, p);
    TwoSteps(n, p, q, n % p);
  }

  lemma TwoSteps(n: nat, p: nat, q: nat, r: nat)
    requires r < p && n == q * p + r
    ensures q == n / (256 * p) * 256 + q % 256
  {
    var h, c := q / 256, q % 256;
    assert n == h * (256 * p) + (c * p + r);
    assert c * p + r < 256 * p by { AtLeastOnce(256, c, p); }
    ModUnique(n, 256 * p, h, c * p + r);
  }

  method SetUint256(n: nat) returns (v: int)
    requires n < PowerOf(256, 32)
    ensures v == n
  {
    hide Digits, PowerOf, Signed, ByteAt, FromMpi;
    var p: Octets, leading := [], true;
    NoDigits();
    SignOfNothing(false);
    NothingAbove(n, 32);
    WholeNumber(n);
    var k := 32;
    while k > 0
      invariant 0 <= k <= 32
      invariant leading == (n / PowerOf(256, k) == 0) && p == Signed(Digits(n / PowerOf(256, k), 256), false)
    {
      k := k - 1;
      ByteBelow(n, k);
      p, leading := PutByte(p, leading, ByteAt(n, k), false, n / PowerOf(256, k + 1));
    }
    FromSigned(Digits(n, 256), false);
    ValueOfDigits(n, 256);
    v := FromMpi(p);
  }

  lemma NothingAbove(n: nat, k: nat)
    requires n < PowerOf(256, k)
    ensures n / PowerOf(256, k) == 0
  {
    hide PowerOf;
    ModUnique(n, PowerOf(256, k), 0, n);
  }

  lemma WholeNumber(n: nat)
    ensures n / PowerOf(256, 0) == n
  {
  }

  lemma {:induction false} ValueSplit(a: seq<nat>, b: seq<nat>)
    requires InBase(b, 256)
    ensures Value(a + b, 256) == Value(a, 256) * PowerOf(256, |b|) + Value(b, 256)
    ensures Value(b, 256) < PowerOf(256, |b|)
  {
    hide PowerOf, Value;
    PowerFacts(|b|);
    NoValue(256);
    if b == [] {
      assert a + b == a;
    } else {
      var m, d := b[..|b| - 1], b[|b| - 1];
      ValueSplit(a, m);
      assert a + b == (a + m) + [d] && b == m + [d];
      ValueSnoc(a + m, d, 256);
      ValueSnoc(m, d, 256);
      OneDigitMore(Value(a, 256), PowerOf(256, |m|), Value(m, 256), d);
    }
  }

  lemma OneDigitMore(a: nat, p: nat, m: nat, d: nat)
    ensures (a * p + m) * 256 + d == a * (256 * p) + (m * 256 + d)
  {
  }

  lemma PowerFacts(n: nat)
    ensures n > 0 ==> PowerOf(256, n) == 256 * PowerOf(256, n - 1)
    ensures n == 0 ==> PowerOf(256, n) == 1
  {
  }

  // The bytes of a number with the sign bit cleared.
  function MagnitudeBytes(v: int): (b: Octets)
    ensures InBase(b, 256) && Value(b, 256) == Abs(v)
  {
    MpiRoundTrip(v);
    NoValue(256);
    var b := ToMpi(v);
    if b == [] then [] else Unsigned(b)
  }

  // The magnitude, as far as it fits into so many bytes: 8 for a 64-bit word and 32 for a 256-bit one.
  method GetUint(v: int, width: nat) returns (n: nat)
    ensures n == Abs(v) % PowerOf(256, width)
  {
    hide MagnitudeBytes, Value, PowerOf, InBase;
    var b := MagnitudeBytes(v);
    NoValue(256);
    n := 0;
    var i := 0;
    assert b[|b|..] == [];
    while i < width && i < |b|
      invariant i <= width && i <= |b|
      invariant n == Value(b[|b| - i..], 256)
      decreases width - i
    {
      var j := |b| - 1 - i;
      NextByte(b, j);
      n := n + b[j] * PowerOf(256, i);
      i := i + 1;
    }
    LowBytes(b, i, width);
  }

  lemma NextByte(b: Octets, j: nat)
    requires InBase(b, 256) && j < |b|
    ensures Value(b[j..], 256) == b[j] * PowerOf(256, |b| - 1 - j) + Value(b[j + 1..], 256)
  {
    ValueSplit([b[j]], b[j + 1..]);
    OneDigit(b[j]);
    hide Value, PowerOf;
    assert b[j..] == [b[j]] + b[j + 1..];
  }

  lemma LowBytes(b: Octets, i: nat, width: nat)
    requires InBase(b, 256) && i <= |b| && (i == width || (i == |b| && i < width))
    ensures Value(b[|b| - i..], 256) == Value(b, 256) % PowerOf(256, width)
  {
    hide Value, PowerOf;
    var high, low := b[..|b| - i], b[|b| - i..];
    assert b == high + low;
    ValueSplit(high, low);
    if i == width {
      ModUnique(Value(b, 256), PowerOf(256, width), Value(high, 256), Value(low, 256));
    } else {
      assert low == b;
      PowerGrows(i, width);
      ModUnique(Value(b, 256), PowerOf(256, width), 0, Value(b, 256));
    }
  }

  lemma OneDigit(d: nat)
    ensures Value([d], 256) == d
  {
    ValueSnoc([], d, 256);
  }

  lemma {:induction false} PowerGrows(i: nat, j: nat)
    requires i <= j
    ensures PowerOf(256, i) <= PowerOf(256, j)
  {
    if i < j { PowerGrows(i, j - 1); }
  }
}

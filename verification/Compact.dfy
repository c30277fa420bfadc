/** The compact form of a target: a byte count, a sign bit and a mantissa of 23 bits in 32 bits. */
module Compact {
  import opened Arith
  import opened Numerals
  import opened BigNum

  // How many bytes a number takes.
  function Size(m: nat): nat { |Digits(m, 256)| }

  // The three highest bytes.
  function TopBytes(m: nat, size: nat): nat {
    if size <= 3 then m * PowerOf(256, 3 - size) else m / PowerOf(256, size - 3)
  }

  function GetCompact(v: int): nat {
    var size := Size(Abs(v));
    var word := TopBytes(Abs(v), size);
    // The sign bit must stay free.
    var taken := word / 0x80_0000 % 2 == 1;
    var mantissa := if taken then word / 256 else word;
    var bytes := if taken then size + 1 else size;
    bytes % 256 * 0x100_0000 + mantissa + if v < 0 then 0x80_0000 else 0
  }

  function SetCompact(c: nat): int {
    var size := c / 0x100_0000;
    var word := c % 0x80_0000;
    var m := if size <= 3 then word / PowerOf(256, 3 - size) else word * PowerOf(256, size - 3);
    if c / 0x80_0000 % 2 == 1 then 0 - m else m
  }

  // ----- sizes

  lemma SizeBounds(m: nat)
    ensures m < PowerOf(256, Size(m)) && (m > 0 ==> Size(m) > 0 && PowerOf(256, Size(m) - 1) <= m)
  {
    hide Value, Digits, PowerOf;
    var d := Digits(m, 256);
    ValueOfDigits(m, 256);
    ValueSplit([], d);
    NoValue(256);
    assert [] + d == d;
    if m > 0 {
      ValueSplit([d[0]], d[1..]);
      assert [d[0]] + d[1..] == d;
      OneDigit(d[0]);
      AtLeast(d[0], PowerOf(256, |d| - 1));
    }
  }

  lemma AtLeast(d: nat, p: nat)
    requires d > 0
    ensures d * p >= p
  {
  }

  lemma SizeIs(m: nat, n: nat)
    requires n > 0 && PowerOf(256, n - 1) <= m < PowerOf(256, n)
    ensures Size(m) == n
  {
    hide PowerOf, Size;
    SizeBounds(m);
    var s := Size(m);
    if s < n {
      PowerGrows(s, n - 1);
    } else if s > n {
      PowerGrows(n, s - 1);
    }
  }

  lemma PowerSteps(n: nat)
    ensures PowerOf(256, n + 1) == 256 * PowerOf(256, n)
    ensures PowerOf(256, 0) == 1 && PowerOf(256, 1) == 256
    ensures PowerOf(256, 2) == 0x1_0000 && PowerOf(256, 3) == 0x100_0000
  {
  }

  // The bytes a number takes with its sign: those of its double.
  function SignedSize(m: nat): nat { Size(2 * m) }

  function Mantissa(m: nat, size: nat): nat {
    if size < 3 then m * PowerOf(256, 3 - size) else m / PowerOf(256, size - 3)
  }

  lemma QuotientBelow(m: nat, p: nat, t: nat)
    requires p > 0
    ensures m / p >= t <==> m >= t * p
  {
    Quotient(m, p);
    var q := m / p;
    if q >= t {
      AtLeastOnceEqual(q, t, p);
    } else {
      AtLeastOnce(t, q, p);
    }
  }

  // The top bit of the mantissa is taken exactly when the sign needs a byte of its own.
  lemma SignByte(m: nat)
    ensures var s := Size(m);
            && TopBytes(m, s) < 0x100_0000
            && SignedSize(m) == if TopBytes(m, s) >= 0x80_0000 then s + 1 else s
  {
    hide PowerOf, Size;
    var s := Size(m);
    SizeBounds(m);
    PowerSteps(0);
    if m == 0 {
      SizeOfZero();
    } else {
      PowerSteps(s - 1);
      PowerSteps(s);
      TopBytesBounds(m, s);
      if 2 * m >= PowerOf(256, s) { SizeIs(2 * m, s + 1); } else { SizeIs(2 * m, s); }
    }
  }

  lemma SizeOfZero()
    ensures Size(0) == 0
  {
  }

  lemma TopBytesBounds(m: nat, s: nat)
    requires s > 0 && m < PowerOf(256, s)
    ensures TopBytes(m, s) < 0x100_0000
    ensures TopBytes(m, s) >= 0x80_0000 <==> 2 * m >= PowerOf(256, s)
  {
    hide PowerOf;
    PowerSteps(0);
    if s <= 3 {
      PowerSteps(1);
      PowerSteps(2);
    } else {
      PowerSteps(s - 3); PowerSteps(s - 2); PowerSteps(s - 1);
      QuotientBelow(m, PowerOf(256, s - 3), 0x80_0000);
      QuotientBelow(m, PowerOf(256, s - 3), 0x100_0000);
    }
  }

  lemma MantissaIs(m: nat)
    ensures var s := Size(m);
            var word := TopBytes(m, s);
            Mantissa(m, SignedSize(m)) == if word >= 0x80_0000 then word / 256 else word
    ensures Mantissa(m, SignedSize(m)) < 0x80_0000
    ensures m > 0 ==> Mantissa(m, SignedSize(m)) >= 0x8000
  {
    hide PowerOf, Size;
    var s := Size(m);
    SignByte(m);
    SizeBounds(m);
    PowerSteps(0); PowerSteps(1); PowerSteps(2);
    if TopBytes(m, s) >= 0x80_0000 {
      if s >= 3 {
        PowerSteps(s - 3);
        Quotient(m, PowerOf(256, s - 3));
        TwoSteps(m, PowerOf(256, s - 3), m / PowerOf(256, s - 3), m % PowerOf(256, s - 3));
      }
    } else if m > 0 {
      PowerSteps(s - 1);
      if s > 3 {
        PowerSteps(s - 3); PowerSteps(s - 2);
        QuotientBelow(m, PowerOf(256, s - 3), 0x1_0000);
      }
    }
  }

  // The code in terms of the size with the sign.
  lemma CompactIs(v: int)
    ensures var m := Abs(v);
            GetCompact(v) ==
              SignedSize(m) % 256 * 0x100_0000 + Mantissa(m, SignedSize(m)) + if v < 0 then 0x80_0000 else 0
    ensures Mantissa(Abs(v), SignedSize(Abs(v))) < 0x80_0000
  {
    hide PowerOf, Size, TopBytes, Mantissa, SignedSize;
    SignByte(Abs(v));
    MantissaIs(Abs(v));
    TopBit(TopBytes(Abs(v), Size(Abs(v))));
  }

  lemma TopBit(word: nat)
    requires word < 0x100_0000
    ensures word / 0x80_0000 % 2 == 1 <==> word >= 0x80_0000
  {
  }

  // A number cut off after the bytes the mantissa holds.
  function Cut(m: nat): nat {
    var size := SignedSize(m);
    if size <= 3 then m else RoundedDown(m, PowerOf(256, size - 3))
  }

  function RoundedDown(m: nat, p: nat): nat
    requires p > 0
  {
    m / p * p
  }

  // Setting what was got: the number, cut off towards zero. The byte count has to fit into 8 bits.
  lemma CompactRoundTrip(v: int)
    requires SignedSize(Abs(v)) < 256
    ensures SetCompact(GetCompact(v)) == if v < 0 then 0 - Cut(Abs(v)) else Cut(Abs(v))
  {
    hide PowerOf, SignedSize;
    var m := Abs(v);
    var size := SignedSize(m);
    CompactIs(v);
    Fields(size, Mantissa(m, size), v < 0);
    hide GetCompact;
    PowerSteps(0);
    if size < 3 {
      TimesAndBack(m, PowerOf(256, 3 - size));
    }
  }

  lemma Fields(size: nat, mantissa: nat, negative: bool)
    requires size < 256 && mantissa < 0x80_0000
    ensures var c := size % 256 * 0x100_0000 + mantissa + if negative then 0x80_0000 else 0;
            c / 0x100_0000 == size && c % 0x80_0000 == mantissa && (c / 0x80_0000 % 2 == 1 <==> negative)
  {
  }

  lemma TimesAndBack(m: nat, p: nat)
    requires p > 0
    ensures m * p / p == m
  {
    ModUnique(m * p, p, m, 0);
  }

  lemma CutFacts(m: nat)
    ensures Cut(m) <= m && (m - Cut(m)) * 0x8000 <= m && (m > 0 ==> Cut(m) > 0)
    ensures SignedSize(Cut(m)) == SignedSize(m)
    ensures Mantissa(Cut(m), SignedSize(m)) == Mantissa(m, SignedSize(m))
  {
    hide PowerOf, Size;
    var size := SignedSize(m);
    if size > 3 {
      var p := PowerOf(256, size - 3);
      var q := m / p;
      MantissaIs(m);
      Quotient(m, p);
      SizeBounds(2 * m);
      if m == 0 { SizeOfZero(); }
      PowerSteps(size - 3); PowerSteps(size - 2);
      AtLeastOnceEqual(q, 0x8000, p);
      SizeIs(2 * (q * p), size);
      TimesAndBack(q, p);
    }
  }

  // The number that comes back has the same sign, is no larger in magnitude, and is off by at most one
  // part in 2^15.
  lemma CompactPrecision(v: int)
    requires SignedSize(Abs(v)) < 256
    ensures var w := SetCompact(GetCompact(v));
            && Abs(w) <= Abs(v)
            && (Abs(v) - Abs(w)) * 0x8000 <= Abs(v)
            && (w > 0 <==> v > 0) && (w < 0 <==> v < 0)
  {
    CompactRoundTrip(v);
    CutFacts(Abs(v));
    hide GetCompact, SetCompact, SignedSize, Cut;
  }

  // And it has the same compact form.
  lemma CompactIdempotent(v: int)
    requires SignedSize(Abs(v)) < 256
    ensures GetCompact(SetCompact(GetCompact(v))) == GetCompact(v)
  {
    var w := SetCompact(GetCompact(v));
    CompactRoundTrip(v);
    CutFacts(Abs(v));
    CompactIs(v);
    CompactIs(w);
    hide GetCompact, SetCompact, SignedSize, Cut, Mantissa;
  }

  // The examples in the source.
  lemma SetCompactExamples()
    ensures SetCompact(0x05123456) == 0x12_3456_0000
    ensures SetCompact(0x0600c0de) == 0xc0_de00_0000
    ensures SetCompact(0x05c0de00) == 0 - 0x40_de00_0000
  {
    PowerSteps(0);
  }

  lemma GetCompactExamples()
    ensures GetCompact(0x12_3456_0000) == 0x05123456
    ensures GetCompact(0xc0_de00_0000) == 0x0600c0de
    ensures GetCompact(0 - 0x40_de00_0000) == 0x05c0de00
  {
    SetCompactExamples();
    WordRoundTrip(0x05123456);
    WordRoundTrip(0x0600c0de);
    WordRoundTrip(0x05c0de00);
    hide GetCompact, SetCompact;
  }

  // ----- which words come back

  // The mantissa is as long as it can be, and no bit of it lies below the number.
  predicate Canonical(c: nat) {
    var size, word := c / 0x100_0000, c % 0x80_0000;
    c == 0 || (word >= 0x8000 && (size >= 3 || word % PowerOf(256, 3 - size) == 0))
  }

  // The magnitude that SetCompact reads.
  function Magnitude(size: nat, word: nat): nat {
    if size <= 3 then word / PowerOf(256, 3 - size) else word * PowerOf(256, size - 3)
  }

  lemma MagnitudeSize(size: nat, word: nat)
    requires 0x8000 <= word < 0x80_0000 && (size >= 3 || word % PowerOf(256, 3 - size) == 0)
    ensures var m := Magnitude(size, word); m > 0 && SignedSize(m) == size && Mantissa(m, size) == word
  {
    hide PowerOf, Size;
    var m := Magnitude(size, word);
    PowerSteps(0); PowerSteps(1); PowerSteps(2);
    if size >= 3 {
      var p := PowerOf(256, size - 3);
      PowerSteps(size - 3); PowerSteps(size - 2); PowerSteps(size - 1);
      AtLeastOnceEqual(word, 0x8000, p);
      AtLeastOnceEqual(0x80_0000 - 1, word, p);
      TimesAndBack(word, p);
      assert m == word * p;
      SizeIs(2 * m, size);
    } else {
      Quotient(word, PowerOf(256, 3 - size));
      assert size > 0;
      SizeIs(2 * m, size);
    }
  }

  lemma SmallMagnitude(size: nat, word: nat)
    requires size < 3 && word < 0x80_0000
    ensures SignedSize(Magnitude(size, word)) < 256
  {
    hide PowerOf, Size;
    var m := Magnitude(size, word);
    SizeBounds(2 * m);
    Quotient(word, PowerOf(256, 3 - size));
    AtLeast(PowerOf(256, 3 - size), m);
    assert m <= word;
    PowerSteps(0);
    if m == 0 {
      SizeOfZero();
    } else if Size(2 * m) > 3 {
      PowerGrows(3, Size(2 * m) - 1);
    }
  }

  lemma WordFields(c: nat)
    requires c < 0x1_0000_0000
    ensures var negative := c / 0x80_0000 % 2 == 1;
            c == c / 0x100_0000 % 256 * 0x100_0000 + c % 0x80_0000 + if negative then 0x80_0000 else 0
    ensures c / 0x100_0000 < 256
  {
  }

  lemma SetCompactIs(c: nat)
    ensures var m := Magnitude(c / 0x100_0000, c % 0x80_0000);
            SetCompact(c) == if c / 0x80_0000 % 2 == 1 then 0 - m else m
  {
  }

  // A word comes back if and only if it is canonical.
  lemma WordRoundTrip(c: nat)
    requires c < 0x1_0000_0000
    ensures GetCompact(SetCompact(c)) == c <==> Canonical(c)
  {
    hide PowerOf, SignedSize, Mantissa, GetCompact, SetCompact, Magnitude;
    var size, word := c / 0x100_0000, c % 0x80_0000;
    var m, v := Magnitude(size, word), SetCompact(c);
    WordFields(c);
    SetCompactIs(c);
    CompactIs(v);
    assert Abs(v) == m;
    if c == 0 || m == 0 {
      ZeroWord();
      if c != 0 && Canonical(c) { MagnitudeSize(size, word); }
    } else if Canonical(c) {
      MagnitudeSize(size, word);
    } else if GetCompact(v) == c {
      MantissaIs(m);
      Fields(SignedSize(m) % 256, Mantissa(m, SignedSize(m)), v < 0);
      assert size == SignedSize(m) % 256 && word == Mantissa(m, SignedSize(m));
      if size < 3 {
        SmallMagnitude(size, word);
        assert word == m * PowerOf(256, 3 - size) by { MantissaShort(m, size); }
        ModUnique(word, PowerOf(256, 3 - size), m, 0);
      }
    }
  }

  lemma MantissaShort(m: nat, size: nat)
    requires size < 3
    ensures Mantissa(m, size) == m * PowerOf(256, 3 - size)
  {
  }

  lemma ZeroWord()
    ensures GetCompact(0) == 0 && SetCompact(0) == 0
  {
  }

  lemma CompactMonotone(a: nat, b: nat)
    requires a <= b && SignedSize(b) < 256
    ensures GetCompact(a) <= GetCompact(b)
  {
    hide GetCompact, Mantissa, SignedSize;
    CompactIs(a);
    CompactIs(b);
    SignedSizeMonotone(a, b);
    MantissaMonotone(a, b, SignedSize(a));
    NoWrap(SignedSize(a));
    NoWrap(SignedSize(b));
  }

  lemma NoWrap(size: nat)
    requires size < 256
    ensures size % 256 == size
  {
  }

  lemma SignedSizeMonotone(a: nat, b: nat)
    requires a <= b
    ensures SignedSize(a) <= SignedSize(b)
  {
    SizeMonotone(2 * a, 2 * b);
  }

  lemma SizeMonotone(a: nat, b: nat)
    requires a <= b
    ensures Size(a) <= Size(b)
  {
    hide PowerOf, Size;
    SizeBounds(a);
    SizeBounds(b);
    if a == 0 {
      SizeOfZero();
    } else if Size(b) < Size(a) {
      PowerGrows(Size(b), Size(a) - 1);
    }
  }

  lemma MantissaMonotone(a: nat, b: nat, size: nat)
    requires a <= b
    ensures Mantissa(a, size) <= Mantissa(b, size)
  {
    hide PowerOf;
    if size >= 3 {
      QuotientBelow(b, PowerOf(256, size - 3), a / PowerOf(256, size - 3));
      Quotient(a, PowerOf(256, size - 3));
    } else {
      AtLeastOnceEqual(b, a, PowerOf(256, 3 - size));
    }
  }
}

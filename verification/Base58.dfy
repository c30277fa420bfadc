/** Base58 strings of byte vectors, with and without a checksum. The hash of the checksum is an
    uninterpreted function. */
module Base58 {
  import opened Numerals
  import opened BigNum
  import opened Options

  // ----- characters

  const ALPHABET := "123456789" + "ABCDEFGH" + "JKLMN" + "PQRSTUVWXYZ" + "abcdefghijk" + "mnopqrstuvwxyz"

  // The place of a character in the alphabet: no 0, O, I or l.
  function DigitOf(c: char): (d: Option<nat>)
    ensures d.Some? ==> d.value < 58
  {
    if '1' <= c <= '9' then Some(c as nat - '1' as nat)
    else if 'A' <= c <= 'H' then Some(9 + (c as nat - 'A' as nat))
    else if 'J' <= c <= 'N' then Some(17 + (c as nat - 'J' as nat))
    else if 'P' <= c <= 'Z' then Some(22 + (c as nat - 'P' as nat))
    else if 'a' <= c <= 'k' then Some(33 + (c as nat - 'a' as nat))
    else if 'm' <= c <= 'z' then Some(44 + (c as nat - 'm' as nat))
    else None
  }

  function CharOf(d: nat): (c: char)
    requires d < 58
    ensures DigitOf(c) == Some(d)
  {
    if d < 9 then (d + '1' as nat) as char
    else if d < 17 then (d - 9 + 'A' as nat) as char
    else if d < 22 then (d - 17 + 'J' as nat) as char
    else if d < 33 then (d - 22 + 'P' as nat) as char
    else if d < 44 then (d - 33 + 'a' as nat) as char
    else (d - 44 + 'm' as nat) as char
  }

  lemma CharOfDigit(c: char)
    ensures DigitOf(c).Some? ==> CharOf(DigitOf(c).value) == c
  {
  }

  // Together they are the alphabet as it is written out.
  lemma AlphabetPlaces(d: nat)
    requires d < 58
    ensures |ALPHABET| == 58 && DigitOf(ALPHABET[d]) == Some(d)
  {
    match d {
      case 0 => case 1 => case 2 => case 3 => case 4 => case 5 => case 6 => case 7 => case 8 => case 9 =>
      case 10 => case 11 => case 12 => case 13 => case 14 => case 15 => case 16 => case 17 => case 18 => case 19 =>
      case 20 => case 21 => case 22 => case 23 => case 24 => case 25 => case 26 => case 27 => case 28 => case 29 =>
      case 30 => case 31 => case 32 => case 33 => case 34 => case 35 => case 36 => case 37 => case 38 => case 39 =>
      case 40 => case 41 => case 42 => case 43 => case 44 => case 45 => case 46 => case 47 => case 48 => case 49 =>
      case 50 => case 51 => case 52 => case 53 => case 54 => case 55 => case 56 => case 57 =>
    }
  }

  predicate IsSpace(c: char) { c == ' ' || 9 <= c as nat <= 13 }

  function Text(ds: seq<nat>): (s: string)
    requires InBase(ds, 58)
    ensures |s| == |ds| && forall i :: 0 <= i < |s| ==> s[i] == CharOf(ds[i])
  {
    seq(|ds|, i requires 0 <= i < |ds| => CharOf(ds[i]))
  }

  predicate IsText(s: string) {
    forall i :: 0 <= i < |s| ==> DigitOf(s[i]).Some?
  }

  function Digits58(s: string): (ds: seq<nat>)
    requires IsText(s)
    ensures |ds| == |s| && InBase(ds, 58) && forall i :: 0 <= i < |s| ==> ds[i] == DigitOf(s[i]).value
  {
    seq(|s|, i requires 0 <= i < |s| => DigitOf(s[i]).value)
  }

  lemma TextAndBack(ds: seq<nat>)
    requires InBase(ds, 58)
    ensures IsText(Text(ds)) && Digits58(Text(ds)) == ds
  {
  }

  lemma DigitsAndBack(s: string)
    requires IsText(s)
    ensures Text(Digits58(s)) == s
  {
    forall i | 0 <= i < |s| ensures Text(Digits58(s))[i] == s[i] {
      CharOfDigit(s[i]);
    }
  }

  // ----- strings with space around them

  function SpacesBefore(s: string): (n: nat)
    ensures n <= |s| && (forall i :: 0 <= i < n ==> IsSpace(s[i])) && (n < |s| ==> !IsSpace(s[n]))
  {
    if s == [] || !IsSpace(s[0]) then 0 else 1 + SpacesBefore(s[1..])
  }

  function SpacesAfter(s: string): (n: nat)
    ensures n <= |s| && (forall i :: n <= i < |s| ==> IsSpace(s[i])) && (n > 0 ==> !IsSpace(s[n - 1]))
  {
    if s == [] || !IsSpace(s[|s| - 1]) then |s| else SpacesAfter(s[..|s| - 1])
  }

  function Strip(s: string): string {
    var t := s[SpacesBefore(s)..];
    t[..SpacesAfter(t)]
  }

  lemma SpaceIs(c: char)
    ensures IsSpace(c) <==> c as nat in {9, 10, 11, 12, 13, 32}
  {
  }

  // Nothing but space is stripped, and all of it at both ends.
  lemma StripIs(s: string)
    ensures exists i, j :: 0 <= i <= j <= |s| && Strip(s) == s[i..j] &&
              (forall k :: 0 <= k < i || j <= k < |s| ==> IsSpace(s[k]))
    ensures var t := Strip(s); t != [] ==> !IsSpace(t[0]) && !IsSpace(t[|t| - 1])
  {
    hide IsSpace;
    var i := SpacesBefore(s);
    var t := s[i..];
    var j := i + SpacesAfter(t);
    assert Strip(s) == s[i..j];
    forall k | 0 <= k < i || j <= k < |s| ensures IsSpace(s[k]) {
      if k >= j { assert s[k] == t[k - i]; }
    }
    if i < j { assert s[i] == t[0]; }
  }

  lemma StripText(s: string)
    requires IsText(s)
    ensures Strip(s) == s
  {
    if s != [] {
      assert DigitOf(s[0]).Some? && DigitOf(s[|s| - 1]).Some?;
    }
  }

  // ----- encoding and decoding

  function Encoded(v: Octets): string
    requires InBase(v, 256)
  {
    ConvertFacts(v, 256, 58);
    Text(Convert(v, 256, 58))
  }

  function Decoded(s: string): (v: Option<Octets>)
    ensures v.Some? ==> InBase(v.value, 256)
  {
    var t := Strip(s);
    if !IsText(t) then None
    else
      ConvertFacts(Digits58(t), 58, 256);
      Some(Convert(Digits58(t), 58, 256))
  }

  // The string is a number in base 58, highest digit first, and that number is the vector's read highest
  // byte first; it has as many ones in front as the vector has zero bytes.
  lemma EncodedIs(v: Octets)
    requires InBase(v, 256)
    ensures var s := Encoded(v);
            && IsText(s) && Value(Digits58(s), 58) == Value(v, 256)
            && LeadingZeros(Digits58(s)) == LeadingZeros(v)
  {
    hide Convert, Value;
    ConvertFacts(v, 256, 58);
    TextAndBack(Convert(v, 256, 58));
  }

  lemma EncodedAs(v: Octets, ds: seq<nat>)
    requires InBase(v, 256) && InBase(ds, 58) && LeadingZeros(ds) == LeadingZeros(v)
    requires Value(ds, 58) == Value(v, 256)
    ensures Encoded(v) == Text(ds)
  {
    hide Value, LeadingZeros, Digits;
    ZerosAndDigits(ds, 58);
  }

  // For example 256, with a zero byte in front.
  lemma EncodedExample()
    ensures InBase([0, 1, 0], 256) && Encoded([0, 1, 0]) == "15R"
  {
    ThreeDigits(0, 1, 0, 256);
    ThreeDigits(0, 4, 24, 58);
    hide Value, Encoded;
    LeadingZerosIs([0, 1, 0], 1);
    LeadingZerosIs([0, 4, 24], 1);
    EncodedAs([0, 1, 0], [0, 4, 24]);
    assert Text([0, 4, 24]) == "15R";
  }

  // Every byte vector comes back.
  lemma DecodeEncode(v: Octets)
    requires InBase(v, 256)
    ensures Decoded(Encoded(v)) == Some(v)
  {
    hide Convert;
    ConvertFacts(v, 256, 58);
    TextAndBack(Convert(v, 256, 58));
    StripText(Encoded(v));
    ConvertBack(v, 256, 58);
  }

  // Every string that can be decoded comes back without the space around it.
  lemma EncodeDecode(s: string)
    requires Decoded(s).Some?
    ensures Encoded(Decoded(s).value) == Strip(s)
  {
    hide Convert, Strip;
    ConvertBack(Digits58(Strip(s)), 58, 256);
    DigitsAndBack(Strip(s));
  }

  // ----- the code

  lemma OneMoreDigit(ds: seq<nat>, d: nat)
    requires InBase(ds, 58) && d < 58
    ensures InBase([d] + ds, 58) && Reversed(Text([d] + ds)) == Reversed(Text(ds)) + [CharOf(d)]
  {
    hide CharOf, Reversed;
    assert Text([d] + ds) == [CharOf(d)] + Text(ds);
    ReversedCons(CharOf(d), Text(ds));
  }

  // The zero behind the lowest byte keeps the number positive.
  lemma PositiveVch(v: Octets)
    ensures SetVch(Reversed(v) + [0]) == Value(v, 256)
  {
    hide Value, FromMpi, Unsigned;
    assert Reversed(Reversed(v) + [0]) == [0] + v;
    ZeroInFront(v);
  }

  lemma ZeroInFront(v: Octets)
    ensures FromMpi([0] + v) == Value(v, 256)
  {
    hide Value, Reversed;
    LeadingZero(v, 256);
    assert Unsigned([0] + v) == [0] + v;
  }

  method EncodeBase58(v: Octets) returns (str: string)
    requires InBase(v, 256)
    ensures str == Encoded(v)
  {
    hide Value, Digits, Convert, Text, Reversed, CharOf, SetVch, InBase;
    PositiveVch(v);
    ghost var value := Value(v, 256);
    var bn := SetVch(Reversed(v) + [0]);
    str := [];
    ghost var ds: seq<nat> := [];
    NoText();
    while bn > 0
      invariant bn >= 0 && InBase(ds, 58) && Digits(bn, 58) + ds == Digits(value, 58)
      invariant str == Reversed(Text(ds))
      decreases bn
    {
      DigitsStep(bn, 58);
      var rem := bn % 58;
      OneMoreDigit(ds, rem);
      ds := [rem] + ds;
      str := str + [CharOf(rem)];
      bn := bn / 58;
    }
    assert ds == Digits(value, 58);
    var p := 0;
    while p < |v| && v[p] == 0
      invariant 0 <= p <= |v| && forall i :: 0 <= i < p ==> v[i] == 0
      invariant InBase(ds, 58) && ds == Zeros(p) + Digits(value, 58) && str == Reversed(Text(ds))
    {
      OneMoreDigit(ds, 0);
      OneMoreZero(p, Digits(value, 58));
      ds := [0] + ds;
      str := str + [CharOf(0)];
      p := p + 1;
    }
    LeadingZerosIs(v, p);
    ConvertIs(v, 256, 58);
    ReversedTwice(Text(ds));
    str := Reversed(str);
  }

  lemma OneMoreZero(n: nat, ds: seq<nat>)
    ensures [0] + (Zeros(n) + ds) == Zeros(n + 1) + ds
  {
  }

  lemma NoText()
    ensures InBase([], 58) && Reversed(Text([])) == [] && Digits(0, 58) == []
  {
  }

  lemma ConvertIs(ds: seq<nat>, a: nat, b: nat)
    requires a > 1 && b > 1
    ensures Convert(ds, a, b) == Zeros(LeadingZeros(ds)) + Digits(Value(ds, a), b)
  {
  }

  method SkipSpaces(s: string) returns (t: string)
    ensures t == s[SpacesBefore(s)..]
  {
    t := s;
    ghost var n := 0;
    while t != [] && IsSpace(t[0])
      invariant n <= |s| && t == s[n..] && forall i :: 0 <= i < n ==> IsSpace(s[i])
    {
      assert t[0] == s[n];
      t := t[1..];
      n := n + 1;
    }
    assert t != [] ==> t[0] == s[n];
    SpacesBeforeIs(s, n);
  }

  // Reads digits up to the first character that is none.
  method ReadDigits(t: string) returns (bn: nat, p: nat)
    ensures p <= |t| && IsText(t[..p]) && bn == Value(Digits58(t[..p]), 58)
    ensures p < |t| ==> DigitOf(t[p]).None?
  {
    bn, p := 0, 0;
    NoValue(58);
    hide Value, DigitOf;
    assert t[..0] == [];
    while p < |t|
      invariant 0 <= p <= |t|
      invariant IsText(t[..p]) && bn == Value(Digits58(t[..p]), 58)
      decreases |t| - p
    {
      var d := DigitOf(t[p]);
      if d.None? {
        return;
      }
      NextCharacter(t, p);
      bn := bn * 58 + d.value;
      p := p + 1;
    }
  }

  method CountOnes(t: string) returns (n: nat)
    ensures n <= |t| && (forall i :: 0 <= i < n ==> t[i] == '1') && (n < |t| ==> t[n] != '1')
  {
    n := 0;
    while n < |t| && t[n] == '1'
      invariant n <= |t| && forall i :: 0 <= i < n ==> t[i] == '1'
    {
      n := n + 1;
    }
  }

  // A C string has no zero character before its end.
  method DecodeBase58(s: string) returns (ok: bool, v: Octets)
    ensures ok == Decoded(s).Some? && v == if ok then Decoded(s).value else []
  {
    hide Value, Digits, Convert, GetVch, Reversed, DigitOf, IsSpace, Strip, IsText, Digits58;
    var t := SkipSpaces(s);
    var bn, p := ReadDigits(t);
    var end := SkipSpaces(t[p..]);
    if end != [] {
      BadCharacter(s, t, p);
      return false, [];
    }
    ReadAll(s, t, p);
    // Without the byte of the sign, if there is one.
    var tmp := GetVch(bn);
    var n := |tmp|;
    if n >= 2 && tmp[n - 1] == 0 && tmp[n - 2] >= 128 {
      tmp := tmp[..n - 1];
    }
    TrimSign(bn, tmp);
    var zeros := CountOnes(t);
    OnesAreZeros(t, p, zeros);
    v := Zeros(zeros) + Reversed(tmp);
    ok := true;
    ConvertIs(Digits58(t[..p]), 58, 256);
  }

  lemma SpacesBeforeIs(s: string, n: nat)
    requires n <= |s| && (forall i :: 0 <= i < n ==> IsSpace(s[i])) && (n < |s| ==> !IsSpace(s[n]))
    ensures SpacesBefore(s) == n
  {
  }

  lemma SpacesAfterIs(s: string, n: nat)
    requires n <= |s| && (forall i :: n <= i < |s| ==> IsSpace(s[i])) && (n > 0 ==> !IsSpace(s[n - 1]))
    ensures SpacesAfter(s) == n
  {
  }

  lemma SpaceIsNoDigit(c: char)
    ensures IsSpace(c) ==> DigitOf(c).None?
    ensures DigitOf('1') == Some(0) && (DigitOf(c) == Some(0) ==> c == '1')
  {
    CharOfDigit(c);
  }

  lemma NextCharacter(t: string, p: nat)
    requires p < |t| && IsText(t[..p]) && DigitOf(t[p]).Some?
    ensures IsText(t[..p + 1])
    ensures Value(Digits58(t[..p + 1]), 58) == Value(Digits58(t[..p]), 58) * 58 + DigitOf(t[p]).value
  {
    hide DigitOf, Value;
    var more := t[..p + 1];
    assert forall i :: 0 <= i < p ==> more[i] == t[..p][i];
    ValueSnoc(Digits58(t[..p]), DigitOf(t[p]).value, 58);
    assert Digits58(more) == Digits58(t[..p]) + [DigitOf(t[p]).value];
  }

  // The digits read are the string without the space around it, when only space follows.
  lemma ReadAll(s: string, t: string, p: nat)
    requires t == s[SpacesBefore(s)..] && p <= |t| && IsText(t[..p])
    requires t[p..][SpacesBefore(t[p..])..] == []
    ensures Strip(s) == t[..p] && forall i :: p <= i < |t| ==> IsSpace(t[i])
  {
    hide DigitOf, IsSpace;
    forall i | p <= i < |t| ensures IsSpace(t[i]) {
      assert t[p..][i - p] == t[i];
    }
    if p > 0 {
      assert t[..p][p - 1] == t[p - 1];
      SpaceIsNoDigit(t[p - 1]);
    }
    SpacesAfterIs(t, p);
  }

  // After space at the end nothing may follow.
  lemma BadCharacter(s: string, t: string, p: nat)
    requires t == s[SpacesBefore(s)..] && p <= |t| && (p < |t| ==> DigitOf(t[p]).None?)
    requires t[p..][SpacesBefore(t[p..])..] != []
    ensures Decoded(s).None?
  {
    hide DigitOf, IsSpace, Digits58, Convert;
    var end := p + SpacesBefore(t[p..]);
    assert t[end] == t[p..][end - p];
    var n := SpacesAfter(t);
    assert n > end;
    assert t[..n][p] == t[p];
  }

  lemma TrimSign(v: nat, tmp: Octets)
    requires var b := GetVch(v);
             tmp == if |b| >= 2 && b[|b| - 1] == 0 && b[|b| - 2] >= 128 then b[..|b| - 1] else b
    ensures Reversed(tmp) == Digits(v, 256)
  {
    var d := Digits(v, 256);
    var b := GetVch(v);
    hide Digits;
    assert ToMpi(v) == Signed(d, false);
    if d != [] && d[0] >= 128 {
      assert b == Reversed([0] + d);
      assert b[|b| - 1] == 0 && b[|b| - 2] == d[0];
      assert b[..|b| - 1] == Reversed(d);
    } else {
      assert b == Reversed(d);
    }
    ReversedTwice(d);
  }

  // The count of ones ends among the digits read, or where they end.
  lemma OnesAreZeros(t: string, p: nat, n: nat)
    requires p <= |t| && IsText(t[..p]) && forall i :: p <= i < |t| ==> IsSpace(t[i])
    requires n <= |t| && (forall i :: 0 <= i < n ==> t[i] == '1') && (n < |t| ==> t[n] != '1')
    ensures n == LeadingZeros(Digits58(t[..p]))
  {
    hide DigitOf, IsSpace;
    var ds := Digits58(t[..p]);
    SpaceIsNoDigit('1');
    assert p < |t| ==> IsSpace(t[p]);
    assert n <= p;
    forall i | 0 <= i < n ensures ds[i] == 0 {
      assert t[..p][i] == t[i];
    }
    if n < p {
      assert t[..p][n] == t[n];
      SpaceIsNoDigit(t[n]);
    }
    LeadingZerosIs(ds, n);
  }

  // ----- with a checksum

  type Checksum = Octets -> Octets

  ghost predicate IsChecksum(hash: Checksum) {
    forall v: Octets :: InBase(v, 256) ==> |hash(v)| == 4 && InBase(hash(v), 256)
  }

  function EncodedCheck(hash: Checksum, v: Octets): string
    requires IsChecksum(hash) && InBase(v, 256)
  {
    Encoded(v + hash(v))
  }

  // The vector without its checksum, if that is right.
  function DecodedCheck(hash: Checksum, s: string): (v: Option<Octets>)
    requires IsChecksum(hash)
    ensures v.Some? ==> InBase(v.value, 256)
  {
    match Decoded(s)
    case None => None
    case Some(w) =>
      if |w| < 4 || hash(w[..|w| - 4]) != w[|w| - 4..] then None else Some(w[..|w| - 4])
  }

  lemma DecodeEncodeCheck(hash: Checksum, v: Octets)
    requires IsChecksum(hash) && InBase(v, 256)
    ensures DecodedCheck(hash, EncodedCheck(hash, v)) == Some(v)
  {
    hide Encoded, Decoded;
    var w := v + hash(v);
    DecodeEncode(w);
    assert w[..|w| - 4] == v && w[|w| - 4..] == hash(v);
  }

  // What stands in the string: the vector and, behind it, its checksum.
  lemma ChecksumBehind(hash: Checksum, v: Octets)
    requires IsChecksum(hash) && InBase(v, 256)
    ensures Decoded(EncodedCheck(hash, v)) == Some(v + hash(v))
  {
    DecodeEncode(v + hash(v));
  }

  // A string passes exactly when its last four bytes are the checksum of those before.
  lemma DecodedCheckExactly(hash: Checksum, s: string)
    requires IsChecksum(hash)
    ensures DecodedCheck(hash, s).Some? <==>
            exists v: Octets :: InBase(v, 256) && Decoded(s) == Some(v + hash(v))
    ensures forall v: Octets :: InBase(v, 256) && Decoded(s) == Some(v + hash(v)) ==> DecodedCheck(hash, s) == Some(v)
  {
    hide Decoded;
    if DecodedCheck(hash, s).Some? {
      var w, v := Decoded(s).value, DecodedCheck(hash, s).value;
      assert w == v + hash(v);
    }
    forall v: Octets | InBase(v, 256) && Decoded(s) == Some(v + hash(v)) ensures DecodedCheck(hash, s) == Some(v) {
      var w := Decoded(s).value;
      assert w[..|w| - 4] == v && w[|w| - 4..] == hash(v);
    }
  }

  lemma EncodeDecodeCheck(hash: Checksum, s: string)
    requires IsChecksum(hash) && DecodedCheck(hash, s).Some?
    ensures EncodedCheck(hash, DecodedCheck(hash, s).value) == Strip(s)
  {
    hide Encoded, Decoded, Strip;
    EncodeDecode(s);
    var w := Decoded(s).value;
    assert w == w[..|w| - 4] + w[|w| - 4..];
  }

  method EncodeBase58Check(hash: Checksum, v: Octets) returns (str: string)
    requires IsChecksum(hash) && InBase(v, 256)
    ensures str == EncodedCheck(hash, v)
  {
    str := EncodeBase58(v + hash(v));
  }

  method DecodeBase58Check(hash: Checksum, s: string) returns (ok: bool, v: Octets)
    requires IsChecksum(hash)
    ensures ok == DecodedCheck(hash, s).Some? && v == if ok then DecodedCheck(hash, s).value else []
  {
    hide Decoded;
    ok, v := DecodeBase58(s);
    if !ok {
      return;
    }
    if |v| < 4 || hash(v[..|v| - 4]) != v[|v| - 4..] {
      return false, [];
    }
    v := v[..|v| - 4];
  }

  /** A version byte and data, as in addresses and secret keys. */
  class Base58Data {
    const hash: Checksum
    var version: nat
    var data: Octets

    ghost predicate Valid()
      reads this
    {
      IsChecksum(hash) && version < 256 && InBase(data, 256)
    }

    constructor (hash: Checksum, version: nat, data: Octets)
      requires IsChecksum(hash) && version < 256 && InBase(data, 256)
      ensures Valid() && this.hash == hash && this.version == version && this.data == data
    {
      this.hash, this.version, this.data := hash, version, data;
    }

    method ToString() returns (s: string)
      requires Valid()
      ensures s == EncodedCheck(hash, [version] + data)
    {
      s := EncodeBase58Check(hash, [version] + data);
    }

    method SetString(s: string) returns (ok: bool)
      requires Valid()
      modifies this
      ensures Valid()
      ensures ok <==> DecodedCheck(hash, s).Some? && DecodedCheck(hash, s).value != []
      ensures ok ==> [version] + data == DecodedCheck(hash, s).value
      ensures !ok ==> version == 0 && data == []
    {
      var decoded, tmp := DecodeBase58Check(hash, s);
      if tmp == [] {
        data, version := [], 0;
        return false;
      }
      version := tmp[0];
      data := tmp[1..];
      assert [version] + data == tmp;
      return true;
    }
  }

  // Setting what ToString wrote restores version and data, whatever the object held before.
  method SetBack(from: Base58Data, to: Base58Data) returns (ok: bool)
    requires from.Valid() && to.Valid() && from != to && from.hash == to.hash
    modifies to
    ensures ok && to.version == from.version && to.data == from.data
  {
    var s := from.ToString();
    DecodeEncodeCheck(from.hash, [from.version] + from.data);
    ok := to.SetString(s);
    assert ([to.version] + to.data)[1..] == ([from.version] + from.data)[1..];
  }
}

/** 64-bit lanes as two 32-bit words, one with the even and one with the odd bits: how words are
    brought into that form and back, and rotations on it. */
module Interleave {
  import opened Arith
  import opened Lanes

  type Half = s: seq<bool> | |s| == 32 witness seq(32, _ => false)

  function HalfXor(a: Half, b: Half): Half { seq(32, z requires 0 <= z < 32 => a[z] != b[z]) }

  function HalfAnd(a: Half, b: Half): Half { seq(32, z requires 0 <= z < 32 => a[z] && b[z]) }

  function HalfOr(a: Half, b: Half): Half { seq(32, z requires 0 <= z < 32 => a[z] || b[z]) }

  function HalfUp(a: Half, n: nat): Half { seq(32, z requires 0 <= z < 32 => n <= z && a[z - n]) }

  function HalfDown(a: Half, n: nat): Half { seq(32, z requires 0 <= z < 32 => z + n < 32 && a[z + n]) }

  predicate Bit(m: nat, z: nat) { m / Pow2(z) % 2 == 1 }

  function HalfBits(m: nat): Half { seq(32, z requires 0 <= z < 32 => Bit(m, z)) }

  // ----- the swaps

  // Swaps bits k apart: those in the mask with those k above them.
  function Delta(x: Half, k: nat, mask: Half): Half {
    var t := HalfAnd(HalfXor(x, HalfDown(x, k)), mask);
    HalfXor(x, HalfXor(t, HalfUp(t, k)))
  }

  // Swaps the upper half of l with the lower half of h.
  function Cross(l: Half, h: Half): (Half, Half) {
    var t := HalfAnd(HalfXor(l, HalfUp(h, 16)), HalfBits(0xFFFF0000));
    (HalfXor(l, t), HalfXor(h, HalfDown(t, 16)))
  }

  function Spread(x: Half): Half {
    Delta(Delta(Delta(Delta(x, 1, HalfBits(0x22222222)), 2, HalfBits(0x0C0C0C0C)), 4, HalfBits(0x00F000F0)),
          8, HalfBits(0x0000FF00))
  }

  function Gather(x: Half): Half {
    Delta(Delta(Delta(Delta(x, 8, HalfBits(0x0000FF00)), 4, HalfBits(0x00F000F0)), 2, HalfBits(0x0C0C0C0C)),
          1, HalfBits(0x22222222))
  }

  function Interleaved(l: Half, h: Half): (Half, Half) { Cross(Spread(l), Spread(h)) }

  function Uninterleaved(l: Half, h: Half): (Half, Half) {
    var (a, b) := Cross(l, h);
    (Gather(a), Gather(b))
  }

  // ----- what the masks are

  // Bits that may be swapped with those k above them: these are there and not in the mask.
  ghost predicate IsSwap(mask: Half, k: nat) {
    forall z :: 0 <= z < 32 && mask[z] ==> z + k < 32 && !mask[z + k]
  }

  function Source(mask: Half, k: nat, z: nat): nat
    requires z < 32
  {
    if mask[z] then z + k else if z >= k && mask[z - k] then z - k else z
  }

  lemma DeltaSwaps(x: Half, k: nat, mask: Half, z: nat)
    requires IsSwap(mask, k) && k > 0 && z < 32
    ensures Source(mask, k, z) < 32 && Delta(x, k, mask)[z] == x[Source(mask, k, z)]
  {
  }

  // Swapping twice changes nothing.
  lemma DeltaTwice(x: Half, k: nat, mask: Half)
    requires IsSwap(mask, k) && k > 0
    ensures Delta(Delta(x, k, mask), k, mask) == x
  {
    forall z: nat | z < 32 ensures Delta(Delta(x, k, mask), k, mask)[z] == x[z] {
      DeltaSwaps(Delta(x, k, mask), k, mask, z);
      DeltaSwaps(x, k, mask, Source(mask, k, z));
    }
  }

  lemma LowPowers()
    ensures Pow2(0) == 1 && Pow2(1) == 2 && Pow2(2) == 4 && Pow2(3) == 8
    ensures Pow2(4) == 16 && Pow2(5) == 32 && Pow2(6) == 64 && Pow2(7) == 128 && Pow2(8) == 256
  {
  }

  // A bit of a number is a bit of its lowest byte, or of the rest.
  lemma LowBit(m: nat, q: nat, r: nat, z: nat)
    requires m == 256 * q + r && z < 8
    ensures Bit(m, z) == Bit(r, z)
  {
    LowPowers();
    Pow2Add(7 - z, z);
    hide Pow2;
    var p, u := Pow2(z), Pow2(7 - z);
    assert m == r + 2 * (q * u) * p by { assert 128 * q == q * (u * p); }
    AddTwice(r, p, q * u);
  }

  lemma HighBit(m: nat, q: nat, r: nat, z: nat)
    requires m == 256 * q + r && r < 256 && z >= 8
    ensures Bit(m, z) == Bit(q, z - 8)
  {
    LowPowers();
    Pow2Add(8, z - 8);
    hide Pow2;
    var p := Pow2(z - 8);
    var d, e := q / p, q % p;
    assert q == d * p + e;
    assert m == d * (256 * p) + (256 * e + r);
    ModUnique(m, 256 * p, d, 256 * e + r);
  }

  // A mask from its bytes, the lowest first.
  lemma BitOfByte(m: nat, b0: nat, b1: nat, b2: nat, b3: nat, z: nat)
    requires b0 < 256 && b1 < 256 && b2 < 256 && b3 < 256 && z < 32
    requires m == b0 + 256 * (b1 + 256 * (b2 + 256 * b3))
    ensures Bit(m, z) == if z < 8 then Bit(b0, z) else if z < 16 then Bit(b1, z - 8)
                         else if z < 24 then Bit(b2, z - 16) else Bit(b3, z - 24)
  {
    hide Bit;
    var m1 := b1 + 256 * (b2 + 256 * b3);
    var m2 := b2 + 256 * b3;
    if z < 8 {
      LowBit(m, m1, b0, z);
    } else {
      HighBit(m, m1, b0, z);
      if z < 16 {
        LowBit(m1, m2, b1, z - 8);
      } else {
        HighBit(m1, m2, b1, z - 8);
        if z < 24 { LowBit(m2, b3, b2, z - 16); } else { HighBit(m2, b3, b2, z - 16); }
      }
    }
  }

  lemma ByteBits(z: nat)
    requires z < 8
    ensures !Bit(0, z) && Bit(0xFF, z)
    ensures Bit(0x22, z) <==> z == 1 || z == 5
    ensures Bit(0x0C, z) <==> z == 2 || z == 3
    ensures Bit(0xF0, z) <==> z >= 4
  {
    LowPowers();
    hide Pow2;
    match z { case 0 => case 1 => case 2 => case 3 => case 4 => case 5 => case 6 => case 7 => }
  }

  lemma Mask1(z: nat)
    requires z < 32
    ensures HalfBits(0x22222222)[z] <==> z % 4 == 1
  {
    hide Bit;
    BitOfByte(0x22222222, 0x22, 0x22, 0x22, 0x22, z);
    ByteBits(z % 8);
  }

  lemma Mask2(z: nat)
    requires z < 32
    ensures HalfBits(0x0C0C0C0C)[z] <==> z % 8 == 2 || z % 8 == 3
  {
    hide Bit;
    BitOfByte(0x0C0C0C0C, 0x0C, 0x0C, 0x0C, 0x0C, z);
    ByteBits(z % 8);
  }

  lemma Mask4(z: nat)
    requires z < 32
    ensures HalfBits(0x00F000F0)[z] <==> 4 <= z % 16 < 8
  {
    hide Bit;
    BitOfByte(0x00F000F0, 0xF0, 0x00, 0xF0, 0x00, z);
    ByteBits(z % 8);
  }

  lemma Mask8(z: nat)
    requires z < 32
    ensures HalfBits(0x0000FF00)[z] <==> 8 <= z < 16
  {
    hide Bit;
    BitOfByte(0x0000FF00, 0x00, 0xFF, 0x00, 0x00, z);
    ByteBits(z % 8);
  }

  lemma MaskHigh(z: nat)
    requires z < 32
    ensures HalfBits(0xFFFF0000)[z] <==> 16 <= z
  {
    hide Bit;
    BitOfByte(0xFFFF0000, 0x00, 0x00, 0xFF, 0xFF, z);
    ByteBits(z % 8);
  }

  // ----- where the swaps take a bit from

  function From1(z: nat): (s: nat)
    requires z < 32
    ensures s < 32
  {
    if z % 4 == 1 then z + 1 else if z % 4 == 2 then z - 1 else z
  }

  lemma Swap1(x: Half, z: nat)
    requires z < 32
    ensures IsSwap(HalfBits(0x22222222), 1)
    ensures Delta(x, 1, HalfBits(0x22222222))[z] == x[From1(z)]
  {
    hide HalfBits, Delta;
    var mask := HalfBits(0x22222222);
    forall y | 0 <= y < 32 && mask[y] ensures y + 1 < 32 && !mask[y + 1] {
      Mask1(y);
      if y + 1 < 32 { Mask1(y + 1); }
    }
    Mask1(z);
    if z >= 1 { Mask1(z - 1); }
    DeltaSwaps(x, 1, mask, z);
  }

  function From2(z: nat): (s: nat)
    requires z < 32
    ensures s < 32
  {
    if z % 8 == 2 || z % 8 == 3 then z + 2 else if z % 8 == 4 || z % 8 == 5 then z - 2 else z
  }

  lemma Swap2(x: Half, z: nat)
    requires z < 32
    ensures IsSwap(HalfBits(0x0C0C0C0C), 2)
    ensures Delta(x, 2, HalfBits(0x0C0C0C0C))[z] == x[From2(z)]
  {
    hide HalfBits, Delta;
    var mask := HalfBits(0x0C0C0C0C);
    forall y | 0 <= y < 32 && mask[y] ensures y + 2 < 32 && !mask[y + 2] {
      Mask2(y);
      if y + 2 < 32 { Mask2(y + 2); }
    }
    Mask2(z);
    if z >= 2 { Mask2(z - 2); }
    DeltaSwaps(x, 2, mask, z);
  }

  function From4(z: nat): (s: nat)
    requires z < 32
    ensures s < 32
  {
    if 4 <= z % 16 < 8 then z + 4 else if 8 <= z % 16 < 12 then z - 4 else z
  }

  lemma Swap4(x: Half, z: nat)
    requires z < 32
    ensures IsSwap(HalfBits(0x00F000F0), 4)
    ensures Delta(x, 4, HalfBits(0x00F000F0))[z] == x[From4(z)]
  {
    hide HalfBits, Delta;
    var mask := HalfBits(0x00F000F0);
    forall y | 0 <= y < 32 && mask[y] ensures y + 4 < 32 && !mask[y + 4] {
      Mask4(y);
      if y + 4 < 32 { Mask4(y + 4); }
    }
    Mask4(z);
    if z >= 4 { Mask4(z - 4); }
    DeltaSwaps(x, 4, mask, z);
  }

  function From8(z: nat): (s: nat)
    requires z < 32
    ensures s < 32
  {
    if 8 <= z < 16 then z + 8 else if 16 <= z < 24 then z - 8 else z
  }

  lemma Swap8(x: Half, z: nat)
    requires z < 32
    ensures IsSwap(HalfBits(0x0000FF00), 8)
    ensures Delta(x, 8, HalfBits(0x0000FF00))[z] == x[From8(z)]
  {
    hide HalfBits, Delta;
    var mask := HalfBits(0x0000FF00);
    forall y | 0 <= y < 32 && mask[y] ensures y + 8 < 32 && !mask[y + 8] {
      Mask8(y);
      if y + 8 < 32 { Mask8(y + 8); }
    }
    Mask8(z);
    if z >= 8 { Mask8(z - 8); }
    DeltaSwaps(x, 8, mask, z);
  }

  // The place of a bit before it was spread: the even bits come first, then the odd ones.
  function Place(z: nat): (p: nat)
    requires z < 32
    ensures p < 32
  {
    if z < 16 then 2 * z else 2 * (z - 16) + 1
  }

  lemma FourSwaps(z: nat)
    requires z < 32
    ensures From1(From2(From4(From8(z)))) == Place(z)
  {
    match z {
      case 0 => case 1 => case 2 => case 3 => case 4 => case 5 => case 6 => case 7 =>
      case 8 => case 9 => case 10 => case 11 => case 12 => case 13 => case 14 => case 15 =>
      case 16 => case 17 => case 18 => case 19 => case 20 => case 21 => case 22 => case 23 =>
      case 24 => case 25 => case 26 => case 27 => case 28 => case 29 => case 30 => case 31 =>
    }
  }

  lemma SpreadBits(x: Half, z: nat)
    requires z < 32
    ensures Spread(x)[z] == x[Place(z)]
  {
    hide Delta, HalfBits, From1, From2, From4, From8;
    var a := Delta(x, 1, HalfBits(0x22222222));
    var b := Delta(a, 2, HalfBits(0x0C0C0C0C));
    var c := Delta(b, 4, HalfBits(0x00F000F0));
    Swap8(c, z);
    Swap4(b, From8(z));
    Swap2(a, From4(From8(z)));
    Swap1(x, From2(From4(From8(z))));
    FourSwaps(z);
  }

  lemma CrossBits(l: Half, h: Half, z: nat)
    requires z < 32
    ensures Cross(l, h).0[z] == if z < 16 then l[z] else h[z - 16]
    ensures Cross(l, h).1[z] == if z < 16 then l[z + 16] else h[z]
  {
    hide HalfBits;
    MaskHigh(z);
    if z < 16 { MaskHigh(z + 16); }
  }

  // ----- the two forms

  // l holds the even bits of v, h the odd ones.
  ghost predicate HoldsLane(l: Half, h: Half, v: Lane) {
    forall z :: 0 <= z < 32 ==> HoldsAt(l, h, v, z)
  }

  predicate HoldsAt(l: Half, h: Half, v: Lane, z: nat)
    requires z < 32
  {
    l[z] == v[2 * z] && h[z] == v[2 * z + 1]
  }

  // Interleaving the two halves of a 64-bit word separates its even and its odd bits.
  lemma InterleavedHolds(l: Half, h: Half)
    ensures var (a, b) := Interleaved(l, h); HoldsLane(a, b, l + h)
  {
    hide Spread, Cross;
    var (a, b) := Interleaved(l, h);
    forall z: nat | z < 32 ensures HoldsAt(a, b, l + h, z) {
      CrossBits(Spread(l), Spread(h), z);
      SpreadBits(l, if z < 16 then z + 16 else z);
      SpreadBits(l, if z < 16 then z else z - 16);
      SpreadBits(h, if z < 16 then z + 16 else z);
      SpreadBits(h, if z < 16 then z else z - 16);
    }
  }

  lemma GatherSpread(x: Half)
    ensures Gather(Spread(x)) == x
  {
    hide Delta, HalfBits, IsSwap;
    var a := Delta(x, 1, HalfBits(0x22222222));
    var b := Delta(a, 2, HalfBits(0x0C0C0C0C));
    var c := Delta(b, 4, HalfBits(0x00F000F0));
    Swap8(c, 0);
    Swap4(b, 0);
    Swap2(a, 0);
    Swap1(x, 0);
    DeltaTwice(c, 8, HalfBits(0x0000FF00));
    DeltaTwice(b, 4, HalfBits(0x00F000F0));
    DeltaTwice(a, 2, HalfBits(0x0C0C0C0C));
    DeltaTwice(x, 1, HalfBits(0x22222222));
  }

  lemma CrossTwice(l: Half, h: Half)
    ensures var (a, b) := Cross(l, h); Cross(a, b) == (l, h)
  {
    hide Cross;
    var (a, b) := Cross(l, h);
    forall z: nat | z < 32 ensures Cross(a, b).0[z] == l[z] && Cross(a, b).1[z] == h[z] {
      CrossBits(a, b, z);
      CrossBits(l, h, z);
      if z < 16 { CrossBits(l, h, z + 16); } else { CrossBits(l, h, z - 16); }
    }
    assert Cross(a, b).0 == l && Cross(a, b).1 == h;
  }

  // Undoing the interleaving gives the two words back.
  lemma InterleaveRoundTrip(l: Half, h: Half)
    ensures var (a, b) := Interleaved(l, h); Uninterleaved(a, b) == (l, h)
  {
    hide Cross, Spread, Gather;
    CrossTwice(Spread(l), Spread(h));
    GatherSpread(l);
    GatherSpread(h);
  }

  // ----- rotation

  // A shift up and one down, with n and 32 - n.
  function HalfRol(a: Half, n: nat): Half
    requires n <= 32
  {
    HalfOr(HalfUp(a, n), HalfDown(a, 32 - n))
  }

  lemma HalfRolBit(a: Half, n: nat, z: nat)
    requires n <= 32 && z < 32
    ensures HalfRol(a, n)[z] == a[if z >= n then z - n else z + 32 - n]
  {
  }

  // The rotation by each amount: an even one rotates both words by half of it; an odd one also
  // exchanges them. By 1 and by 63 one of the two words stays as it is.
  function RolPair(l: Half, h: Half, r: nat): (Half, Half)
    requires 0 < r < 64
  {
    if r == 1 then (HalfRol(h, 1), l)
    else if r == 63 then (h, HalfRol(l, 31))
    else if r % 2 == 0 then (HalfRol(l, r / 2), HalfRol(h, r / 2))
    else (HalfRol(h, (r + 1) / 2), HalfRol(l, (r + 1) / 2 - 1))
  }

  // Rotating the two words rotates the lane they hold.
  lemma RolPairRotates(l: Half, h: Half, v: Lane, r: nat)
    requires 0 < r < 64 && HoldsLane(l, h, v)
    ensures var (a, b) := RolPair(l, h, r); HoldsLane(a, b, Rol(v, r))
  {
    hide Rol, HalfRol, RolPair, HoldsAt;
    var (a, b) := RolPair(l, h, r);
    forall z: nat | z < 32 ensures HoldsAt(a, b, Rol(v, r), z) {
      if r % 2 == 0 { EvenAt(l, h, v, r / 2, z); } else { OddAt(l, h, v, (r + 1) / 2, z); }
    }
  }

  lemma EvenAt(l: Half, h: Half, v: Lane, n: nat, z: nat)
    requires 0 < n < 32 && z < 32 && HoldsLane(l, h, v)
    ensures var (a, b) := RolPair(l, h, 2 * n); HoldsAt(a, b, Rol(v, 2 * n), z)
  {
    hide Rol, HalfRol, HoldsLane;
    RolAt(v, 2 * n, 2 * z);
    RolAt(v, 2 * n, 2 * z + 1);
    EvenRotation(l, h, v, n, z);
  }

  lemma OddAt(l: Half, h: Half, v: Lane, n: nat, z: nat)
    requires 0 < n <= 32 && z < 32 && HoldsLane(l, h, v)
    ensures var (a, b) := RolPair(l, h, 2 * n - 1); HoldsAt(a, b, Rol(v, 2 * n - 1), z)
  {
    hide Rol, HalfRol, HoldsLane;
    RolAt(v, 2 * n - 1, 2 * z);
    RolAt(v, 2 * n - 1, 2 * z + 1);
    OddRotation(l, h, v, n, z);
  }

  lemma RolAt(v: Lane, r: nat, z: nat)
    requires 0 < r < 64 && z < 64
    ensures Rol(v, r)[z] == v[if z >= r then z - r else z + 64 - r]
  {
  }

  lemma EvenRotation(l: Half, h: Half, v: Lane, n: nat, z: nat)
    requires n < 32 && z < 32 && HoldsLane(l, h, v)
    ensures var s := if z >= n then z - n else z + 32 - n;
            HalfRol(l, n)[z] == v[2 * s] && HalfRol(h, n)[z] == v[2 * s + 1]
  {
    HalfRolBit(l, n, z);
    HalfRolBit(h, n, z);
    hide HalfRol;
    assert HoldsAt(l, h, v, if z >= n then z - n else z + 32 - n);
  }

  // The word of the even bits comes from the odd ones, and the other way round, one place less far.
  lemma OddRotation(l: Half, h: Half, v: Lane, n: nat, z: nat)
    requires 0 < n <= 32 && z < 32 && HoldsLane(l, h, v)
    ensures HalfRol(h, n)[z] == v[2 * (if z >= n then z - n else z + 32 - n) + 1]
    ensures HalfRol(l, n - 1)[z] == v[2 * (if z >= n - 1 then z - (n - 1) else z + 32 - (n - 1))]
    ensures HalfRol(h, 32) == h && HalfRol(l, 0) == l
  {
    HalfRolBit(h, n, z);
    HalfRolBit(l, n - 1, z);
    WholeTurns(h);
    WholeTurns(l);
    hide HalfRol;
    assert HoldsAt(l, h, v, if z >= n then z - n else z + 32 - n);
    assert HoldsAt(l, h, v, if z >= n - 1 then z - (n - 1) else z + 32 - (n - 1));
  }

  lemma WholeTurns(a: Half)
    ensures HalfRol(a, 32) == a && HalfRol(a, 0) == a
  {
  }
}

/** The permutation Keccak-f[1600] as sections 3.2 and 3.3 of FIPS 202 define it, on whole lanes. */
module KeccakSpec {
  import opened Lanes

  // Lane (x, y) of the state stands at index 5x + y.
  type State = s: seq<Lane> | |s| == 25 witness seq(25, _ => seq(64, _ => false))

  function At(x: nat, y: nat): (k: nat)
    requires x < 5 && y < 5
    ensures k < 25
  {
    5 * x + y
  }

  // Column and row of a lane, and reduction modulo 5.
  function X(k: nat): (x: nat)
    requires k < 25
    ensures x < 5
  {
    if k < 5 then 0 else if k < 10 then 1 else if k < 15 then 2 else if k < 20 then 3 else 4
  }

  function Y(k: nat): (y: nat)
    requires k < 25
    ensures y < 5
  {
    k - 5 * X(k)
  }

  function Mod5(n: nat): (r: nat)
    requires n < 20
    ensures r < 5
  {
    if n < 5 then n else if n < 10 then n - 5 else if n < 15 then n - 10 else n - 15
  }

  lemma Coordinates(k: nat, n: nat)
    requires k < 25 && n < 20
    ensures X(k) == k / 5 && Y(k) == k % 5 && Mod5(n) == n % 5
    ensures At(X(k), Y(k)) == k
  {
  }

  // Between the order of the lanes here and the order of the words, lane (x, y) at x + 5y.
  function Transpose(w: seq<Lane>): State
    requires |w| == 25
  {
    seq(25, k requires 0 <= k < 25 => w[X(k) + 5 * Y(k)])
  }

  lemma TransposeTwice(w: State)
    ensures Transpose(Transpose(w)) == w
  {
    forall k: nat | k < 25 ensures X(X(k) + 5 * Y(k)) + 5 * Y(X(k) + 5 * Y(k)) == k {
    }
  }

  // Parity of a column of lanes.
  function Column(s: State, x: nat): Lane
    requires x < 5
  {
    Xor(Xor(Xor(Xor(s[At(x, 0)], s[At(x, 1)]), s[At(x, 2)]), s[At(x, 3)]), s[At(x, 4)])
  }

  function ThetaEffect(s: State, x: nat): Lane
    requires x < 5
  {
    Xor(Column(s, Mod5(x + 4)), Rol(Column(s, Mod5(x + 1)), 1))
  }

  function Theta(s: State): State {
    seq(25, k requires 0 <= k < 25 => Xor(s[k], ThetaEffect(s, X(k))))
  }

  // Where the walk of Algorithm 2 stands after t steps.
  function Walk(t: nat): (p: (nat, nat))
    ensures p.0 < 5 && p.1 < 5
  {
    if t == 0 then (1, 0) else var (x, y) := Walk(t - 1); (y, (2 * x + 3 * y) % 5)
  }

  // The rotation amounts, in the order of the lanes.
  function Offset(k: nat): (n: nat)
    requires k < 25
    ensures n < 64
  {
    match k
    case 0 => 0 case 1 => 36 case 2 => 3 case 3 => 41 case 4 => 18
    case 5 => 1 case 6 => 44 case 7 => 10 case 8 => 45 case 9 => 2
    case 10 => 62 case 11 => 6 case 12 => 43 case 13 => 15 case 14 => 61
    case 15 => 28 case 16 => 55 case 17 => 25 case 18 => 21 case 19 => 56
    case 20 => 27 case 21 => 20 case 22 => 39 case 23 => 8 case 24 => 14
  }

  function Rho(s: State): State {
    seq(25, k requires 0 <= k < 25 => Rol(s[k], Offset(k)))
  }

  // The lane that pi moves to index k.
  function PiSource(k: nat): (j: nat)
    requires k < 25
    ensures j < 25
  {
    match k
    case 0 => 0 case 1 => 15 case 2 => 5 case 3 => 20 case 4 => 10
    case 5 => 6 case 6 => 21 case 7 => 11 case 8 => 1 case 9 => 16
    case 10 => 12 case 11 => 2 case 12 => 17 case 13 => 7 case 14 => 22
    case 15 => 18 case 16 => 8 case 17 => 23 case 18 => 13 case 19 => 3
    case 20 => 24 case 21 => 14 case 22 => 4 case 23 => 19 case 24 => 9
  }

  // Lane (x, y) comes from lane (x + 3y, x).
  lemma PiSourceFormula(k: nat)
    requires k < 25
    ensures PiSource(k) == At(Mod5(X(k) + 3 * Y(k)), X(k))
  {
  }

  function Pi(s: State): State {
    seq(25, k requires 0 <= k < 25 => s[PiSource(k)])
  }

  function ChiLane(s: State, x: nat, y: nat): Lane
    requires x < 5 && y < 5
  {
    Xor(s[At(x, y)], And(Not(s[At(Mod5(x + 1), y)]), s[At(Mod5(x + 2), y)]))
  }

  function Chi(s: State): State {
    seq(25, k requires 0 <= k < 25 => ChiLane(s, X(k), Y(k)))
  }

  function Iota(s: State, rc: Lane): State {
    s[0 := Xor(s[0], rc)]
  }

  function Round(s: State, rc: Lane): State {
    Iota(Chi(Pi(Rho(Theta(s)))), rc)
  }

  // ----- the steps bit by bit, as the standard has them

  // Bit z of lane (x, y).
  function Bit(s: State, x: nat, y: nat, z: nat): bool
    requires x < 5 && y < 5 && z < 64
  {
    s[At(x, y)][z]
  }

  function Parity(s: State, x: nat, z: nat): bool
    requires x < 5 && z < 64
  {
    ((((Bit(s, x, 0, z) != Bit(s, x, 1, z)) != Bit(s, x, 2, z)) != Bit(s, x, 3, z)) != Bit(s, x, 4, z))
  }

  lemma ColumnBit(s: State, x: nat, z: nat)
    requires x < 5 && z < 64
    ensures Column(s, x)[z] == Parity(s, x, z)
  {
  }

  // Section 3.2.1: two columns are added to each bit.
  lemma ThetaBit(s: State, x: nat, y: nat, z: nat)
    requires x < 5 && y < 5 && z < 64
    ensures Bit(Theta(s), x, y, z) ==
            (Bit(s, x, y, z) != (Parity(s, (x + 4) % 5, z) != Parity(s, (x + 1) % 5, (z + 63) % 64)))
  {
    hide Column, Parity, Rol, Xor, Theta, Mod5, X, Y, At;
    Place(x, y);
    var a, b := Column(s, Mod5(x + 4)), Column(s, Mod5(x + 1));
    ThetaLane(s, At(x, y));
    XorBit(s[At(x, y)], ThetaEffect(s, x), z);
    XorBit(a, Rol(b, 1), z);
    ColumnBit(s, Mod5(x + 4), z);
    ColumnBit(s, Mod5(x + 1), (z + 63) % 64);
    RolBit(b, 1, z);
  }

  lemma ThetaLane(s: State, k: nat)
    requires k < 25
    ensures Theta(s)[k] == Xor(s[k], ThetaEffect(s, X(k)))
  {
  }

  lemma Place(x: nat, y: nat)
    requires x < 5 && y < 5
    ensures X(At(x, y)) == x && Y(At(x, y)) == y
    ensures Mod5(x + 4) == (x + 4) % 5 && Mod5(x + 1) == (x + 1) % 5 && Mod5(x + 2) == (x + 2) % 5
    ensures Mod5(x + 3 * y) == (x + 3 * y) % 5
  {
    hide *;
    AtPlace(x, y);
    Reduced(x + 4);
    Reduced(x + 1);
    Reduced(x + 2);
    Reduced(x + 3 * y);
  }

  lemma AtPlace(x: nat, y: nat)
    requires x < 5 && y < 5
    ensures X(At(x, y)) == x && Y(At(x, y)) == y
  {
  }

  lemma Reduced(n: nat)
    requires n < 20
    ensures Mod5(n) == n % 5
  {
  }

  // Section 3.2.2: every lane is rotated.
  lemma RhoBit(s: State, x: nat, y: nat, z: nat)
    requires x < 5 && y < 5 && z < 64
    ensures Bit(Rho(s), x, y, z) == Bit(s, x, y, (z + 64 - Offset(At(x, y))) % 64)
  {
    hide Offset, Rol;
    RolBit(s[At(x, y)], Offset(At(x, y)), z);
  }

  // Section 3.2.3: the lanes change places.
  lemma PiBit(s: State, x: nat, y: nat, z: nat)
    requires x < 5 && y < 5 && z < 64
    ensures Bit(Pi(s), x, y, z) == Bit(s, (x + 3 * y) % 5, x, z)
  {
    Place(x, y);
    PiSourceFormula(At(x, y));
    hide PiSource;
  }

  // Section 3.2.4: a product of the next two bits of the row is added.
  lemma ChiBit(s: State, x: nat, y: nat, z: nat)
    requires x < 5 && y < 5 && z < 64
    ensures Bit(Chi(s), x, y, z) ==
            (Bit(s, x, y, z) != (!Bit(s, (x + 1) % 5, y, z) && Bit(s, (x + 2) % 5, y, z)))
  {
    Place(x, y);
    assert Chi(s)[At(x, y)] == ChiLane(s, x, y);
  }

  // Section 3.2.5: a constant is added to lane (0, 0).
  lemma IotaBit(s: State, rc: Lane, x: nat, y: nat, z: nat)
    requires x < 5 && y < 5 && z < 64
    ensures Bit(Iota(s, rc), x, y, z) == if x == 0 && y == 0 then s[0][z] != rc[z] else Bit(s, x, y, z)
  {
  }

  // The round constants.
  function RC(i: nat): nat
    requires i < 24
  {
    match i
    case 0 => 0x0000000000000001 case 1 => 0x0000000000008082 case 2 => 0x800000000000808A
    case 3 => 0x8000000080008000 case 4 => 0x000000000000808B case 5 => 0x0000000080000001
    case 6 => 0x8000000080008081 case 7 => 0x8000000000008009 case 8 => 0x000000000000008A
    case 9 => 0x0000000000000088 case 10 => 0x0000000080008009 case 11 => 0x000000008000000A
    case 12 => 0x000000008000808B case 13 => 0x800000000000008B case 14 => 0x8000000000008089
    case 15 => 0x8000000000008003 case 16 => 0x8000000000008002 case 17 => 0x8000000000000080
    case 18 => 0x000000000000800A case 19 => 0x800000008000000A case 20 => 0x8000000080008081
    case 21 => 0x8000000000008080 case 22 => 0x0000000080000001 case 23 => 0x8000000080008008
  }

  function Rounds(s: State, n: nat): State
    requires n <= 24
  {
    if n == 0 then s else Round(Rounds(s, n - 1), Bits(RC(n - 1)))
  }

  function Permute(s: State): State { Rounds(s, 24) }

  // The rotation table is the one Algorithm 2 computes: the lane reached after t steps of the
  // walk is rotated by (t + 1)(t + 2) / 2.
  lemma OffsetsFollowTheWalk(t: nat)
    requires t < 24
    ensures Offset(At(Walk(t).0, Walk(t).1)) == (t + 1) * (t + 2) / 2 % 64
  {
    if t < 6 { OffsetsTo6(t); } else if t < 12 { OffsetsTo12(t); }
    else if t < 18 { OffsetsTo18(t); } else { OffsetsTo24(t); }
  }

  lemma WalkStep(t: nat)
    ensures Walk(t + 1) == (Walk(t).1, (2 * Walk(t).0 + 3 * Walk(t).1) % 5)
  {
  }

  lemma WalkTo6()
    ensures Walk(0) == (1, 0) && Walk(1) == (0, 2) && Walk(2) == (2, 1)
         && Walk(3) == (1, 2) && Walk(4) == (2, 3) && Walk(5) == (3, 3)
  {
  }

  lemma OffsetsTo6(t: nat)
    requires 0 <= t < 6
    ensures Offset(At(Walk(t).0, Walk(t).1)) == (t + 1) * (t + 2) / 2 % 64
  {
    WalkTo6();
    hide Walk;
    match t {
      case 0 => case 1 => case 2 => case 3 => case 4 => case 5 =>
    }
  }

  lemma WalkTo12()
    ensures Walk(6) == (3, 0) && Walk(7) == (0, 1) && Walk(8) == (1, 3)
         && Walk(9) == (3, 1) && Walk(10) == (1, 4) && Walk(11) == (4, 4)
  {
    hide Walk;
    WalkTo6();
    WalkStep(5); WalkStep(6); WalkStep(7); WalkStep(8); WalkStep(9); WalkStep(10);
  }

  lemma OffsetsTo12(t: nat)
    requires 6 <= t < 12
    ensures Offset(At(Walk(t).0, Walk(t).1)) == (t + 1) * (t + 2) / 2 % 64
  {
    WalkTo12();
    hide Walk;
    match t {
      case 6 => case 7 => case 8 => case 9 => case 10 => case 11 =>
    }
  }

  lemma WalkTo18()
    ensures Walk(12) == (4, 0) && Walk(13) == (0, 3) && Walk(14) == (3, 4)
         && Walk(15) == (4, 3) && Walk(16) == (3, 2) && Walk(17) == (2, 2)
  {
    hide Walk;
    WalkTo12();
    WalkStep(11); WalkStep(12); WalkStep(13); WalkStep(14); WalkStep(15); WalkStep(16);
  }

  lemma OffsetsTo18(t: nat)
    requires 12 <= t < 18
    ensures Offset(At(Walk(t).0, Walk(t).1)) == (t + 1) * (t + 2) / 2 % 64
  {
    WalkTo18();
    hide Walk;
    match t {
      case 12 => case 13 => case 14 => case 15 => case 16 => case 17 =>
    }
  }

  lemma WalkTo24()
    ensures Walk(18) == (2, 0) && Walk(19) == (0, 4) && Walk(20) == (4, 2)
         && Walk(21) == (2, 4) && Walk(22) == (4, 1) && Walk(23) == (1, 1)
  {
    hide Walk;
    WalkTo18();
    WalkStep(17); WalkStep(18); WalkStep(19); WalkStep(20); WalkStep(21); WalkStep(22);
  }

  lemma OffsetsTo24(t: nat)
    requires 18 <= t < 24
    ensures Offset(At(Walk(t).0, Walk(t).1)) == (t + 1) * (t + 2) / 2 % 64
  {
    WalkTo24();
    hide Walk;
    match t {
      case 18 => case 19 => case 20 => case 21 => case 22 => case 23 =>
    }
  }

  // ----- the round constants, from the shift register of Algorithm 5

  datatype Lfsr = Lfsr(r0: bool, r1: bool, r2: bool, r3: bool, r4: bool, r5: bool, r6: bool, r7: bool)

  function Shift(r: Lfsr): Lfsr {
    Lfsr(r.r7, r.r0, r.r1, r.r2, r.r3 != r.r7, r.r4 != r.r7, r.r5 != r.r7, r.r6)
  }

  function Shifts(t: nat): Lfsr {
    if t == 0 then Lfsr(true, false, false, false, false, false, false, false) else Shift(Shifts(t - 1))
  }

  // The bit rc(t).
  function Rc(t: nat): bool { Shifts(t).r0 }

  function If(b: bool, v: nat): nat { if b then v else 0 }

  // The constant with bit 2^j - 1 set when the j-th of the seven bits is.
  function RcValue(b0: bool, b1: bool, b2: bool, b3: bool, b4: bool, b5: bool, b6: bool): nat {
    If(b0, 0x1) + If(b1, 0x2) + If(b2, 0x8) + If(b3, 0x80) + If(b4, 0x8000)
    + If(b5, 0x80000000) + If(b6, 0x8000000000000000)
  }

  // The register at the start of round i.
  function Start(i: nat): Lfsr
    requires i <= 24
  {
    match i
    case 0 => Lfsr(true, false, false, false, false, false, false, false)
    case 1 => Lfsr(false, false, false, false, false, false, false, true)
    case 2 => Lfsr(false, false, false, true, true, false, true, true)
    case 3 => Lfsr(false, true, false, true, true, false, false, false)
    case 4 => Lfsr(true, true, true, true, true, false, true, true)
    case 5 => Lfsr(true, false, false, true, false, false, false, false)
    case 6 => Lfsr(true, false, true, false, true, true, false, false)
    case 7 => Lfsr(true, true, true, true, false, false, true, false)
    case 8 => Lfsr(false, true, false, true, false, false, true, true)
    case 9 => Lfsr(false, false, false, false, true, true, true, false)
    case 10 => Lfsr(true, false, false, false, false, false, true, false)
    case 11 => Lfsr(false, false, true, true, false, true, true, true)
    case 12 => Lfsr(true, false, true, false, true, false, true, true)
    case 13 => Lfsr(true, false, true, true, false, false, true, true)
    case 14 => Lfsr(true, true, false, false, false, true, true, false)
    case 15 => Lfsr(true, true, false, true, false, true, false, true)
    case 16 => Lfsr(false, true, false, true, false, true, false, true)
    case 17 => Lfsr(false, true, false, true, false, true, false, false)
    case 18 => Lfsr(false, true, false, false, true, true, true, true)
    case 19 => Lfsr(false, false, false, true, false, true, true, true)
    case 20 => Lfsr(true, true, true, false, true, true, false, false)
    case 21 => Lfsr(false, true, true, true, true, true, false, false)
    case 22 => Lfsr(true, true, false, true, false, false, false, false)
    case 23 => Lfsr(false, false, true, false, false, false, true, false)
    case 24 => Lfsr(false, true, true, true, false, false, false, true)
  }

  function Seven(r: Lfsr): Lfsr { Shift(Shift(Shift(Shift(Shift(Shift(Shift(r))))))) }

  function SevenBits(r: Lfsr): nat {
    RcValue(r.r0, Shift(r).r0, Shift(Shift(r)).r0, Shift(Shift(Shift(r))).r0, Shift(Shift(Shift(Shift(r)))).r0,
            Shift(Shift(Shift(Shift(Shift(r))))).r0, Shift(Shift(Shift(Shift(Shift(Shift(r)))))).r0)
  }

  lemma RoundsFrom0(i: nat)
    requires 0 <= i < 6
    ensures Start(i + 1) == Seven(Start(i)) && RC(i) == SevenBits(Start(i))
  {
    match i {
      case 0 => case 1 => case 2 => case 3 => case 4 => case 5 =>
    }
  }

  lemma RoundsFrom6(i: nat)
    requires 6 <= i < 12
    ensures Start(i + 1) == Seven(Start(i)) && RC(i) == SevenBits(Start(i))
  {
    match i {
      case 6 => case 7 => case 8 => case 9 => case 10 => case 11 =>
    }
  }

  lemma RoundsFrom12(i: nat)
    requires 12 <= i < 18
    ensures Start(i + 1) == Seven(Start(i)) && RC(i) == SevenBits(Start(i))
  {
    match i {
      case 12 => case 13 => case 14 => case 15 => case 16 => case 17 =>
    }
  }

  lemma RoundsFrom18(i: nat)
    requires 18 <= i < 24
    ensures Start(i + 1) == Seven(Start(i)) && RC(i) == SevenBits(Start(i))
  {
    match i {
      case 18 => case 19 => case 20 => case 21 => case 22 => case 23 =>
    }
  }

  lemma RoundFromStart(i: nat)
    requires i < 24
    ensures Start(i + 1) == Seven(Start(i)) && RC(i) == SevenBits(Start(i))
  {
    hide Start, Seven, SevenBits, RC;
    if i < 6 { RoundsFrom0(i); } else if i < 12 { RoundsFrom6(i); }
    else if i < 18 { RoundsFrom12(i); } else { RoundsFrom18(i); }
  }

  lemma ShiftsOnce(t: nat)
    ensures Shifts(t + 1) == Shift(Shifts(t))
  {
  }

  lemma ShiftsSeven(t: nat)
    ensures Shifts(t + 7) == Seven(Shifts(t))
    ensures RcValue(Rc(t), Rc(t + 1), Rc(t + 2), Rc(t + 3), Rc(t + 4), Rc(t + 5), Rc(t + 6)) == SevenBits(Shifts(t))
  {
    ShiftsOnce(t); ShiftsOnce(t + 1); ShiftsOnce(t + 2); ShiftsOnce(t + 3);
    ShiftsOnce(t + 4); ShiftsOnce(t + 5); ShiftsOnce(t + 6);
    hide Shift, Shifts, If;
  }

  lemma {:induction false} StartIsShifts(i: nat)
    requires i <= 24
    ensures Shifts(7 * i) == Start(i)
  {
    hide Seven, SevenBits;
    if i > 0 {
      StartIsShifts(i - 1);
      ShiftsSeven(7 * (i - 1));
      RoundFromStart(i - 1);
      hide Shifts, Start;
    }
  }

  // The constant of round i is made of the bits rc(7i) to rc(7i + 6).
  lemma ConstantsFollowTheRegister(i: nat)
    requires i < 24
    ensures RC(i) == RcValue(Rc(7 * i), Rc(7 * i + 1), Rc(7 * i + 2), Rc(7 * i + 3),
                             Rc(7 * i + 4), Rc(7 * i + 5), Rc(7 * i + 6))
  {
    StartIsShifts(i);
    ShiftsSeven(7 * i);
    RoundFromStart(i);
    hide Rc, RcValue, Shifts, SevenBits, Start;
  }
}

/** The permutation as the code runs it: in place on 25 words, with the lanes renamed from round
    to round instead of moved, and six lanes stored complemented. */
module Keccak {
  import opened Lanes
  import opened KeccakSpec

  // ----- names: which word holds which lane

  // A name xy stands for word x + 5y.
  function Word(xy: nat): nat { xy / 10 + 5 * (xy % 10) }

  type Naming = seq<nat>

  function P0(): Naming {
    [ 0,  1,  2,  3,  4, 10, 11, 12, 13, 14, 20, 21, 22, 23, 24, 30, 31, 32, 33, 34, 40, 41, 42, 43, 44]
  }

  function P1(): Naming {
    [ 0, 30, 10, 40, 20, 11, 41, 21,  1, 31, 22,  2, 32, 12, 42, 33, 13, 43, 23,  3, 44, 24,  4, 34, 14]
  }

  function P2(): Naming {
    [ 0, 33, 11, 44, 22, 41, 24,  2, 30, 13, 32, 10, 43, 21,  4, 23,  1, 34, 12, 40, 14, 42, 20,  3, 31]
  }

  function P3(): Naming {
    [ 0, 23, 41, 14, 32, 24, 42, 10, 33,  1, 43, 11, 34,  2, 20, 12, 30,  3, 21, 44, 31,  4, 22, 40, 13]
  }

  function P4(): Naming {
    [ 0, 12, 24, 31, 43, 42,  4, 11, 23, 30, 34, 41,  3, 10, 22, 21, 33, 40,  2, 14, 13, 20, 32, 44,  1]
  }

  function P5(): Naming {
    [ 0, 21, 42, 13, 34,  4, 20, 41, 12, 33,  3, 24, 40, 11, 32,  2, 23, 44, 10, 31,  1, 22, 43, 14, 30]
  }

  function P6(): Naming {
    [ 0,  2,  4,  1,  3, 20, 22, 24, 21, 23, 40, 42, 44, 41, 43, 10, 12, 14, 11, 13, 30, 32, 34, 31, 33]
  }

  function P7(): Naming {
    [ 0, 10, 20, 30, 40, 22, 32, 42,  2, 12, 44,  4, 14, 24, 34, 11, 21, 31, 41,  1, 33, 43,  3, 13, 23]
  }

  function P8(): Naming {
    [ 0, 11, 22, 33, 44, 32, 43,  4, 10, 21, 14, 20, 31, 42,  3, 41,  2, 13, 24, 30, 23, 34, 40,  1, 12]
  }

  predicate IsNaming(p: Naming) {
    && |p| == 25
    && (forall k :: 0 <= k < 25 ==> Word(p[k]) < 25)
    && (forall j, k :: 0 <= j < k < 25 ==> Word(p[j]) != Word(p[k]))
  }

  // The state that words w hold under naming p.
  function View(w: seq<Lane>, p: Naming): (s: State)
    requires |w| == 25 && IsNaming(p)
  {
    seq(25, k requires 0 <= k < 25 => w[Word(p[k])])
  }

  lemma ViewUpdate(w: seq<Lane>, p: Naming, k: nat, v: Lane)
    requires |w| == 25 && IsNaming(p) && k < 25
    ensures View(w[Word(p[k]) := v], p) == View(w, p)[k := v]
  {
  }

  // The next naming: under q every name means the lane that pi moves there under p.
  predicate Follows(p: Naming, q: Naming) {
    && |p| == 25 && |q| == 25
    && q[0] == p[0] && q[1] == p[15] && q[2] == p[5] && q[3] == p[20] && q[4] == p[10]
    && q[5] == p[6] && q[6] == p[21] && q[7] == p[11] && q[8] == p[1] && q[9] == p[16]
    && q[10] == p[12] && q[11] == p[2] && q[12] == p[17] && q[13] == p[7] && q[14] == p[22]
    && q[15] == p[18] && q[16] == p[8] && q[17] == p[23] && q[18] == p[13] && q[19] == p[3]
    && q[20] == p[24] && q[21] == p[14] && q[22] == p[4] && q[23] == p[19] && q[24] == p[9]
  }

  lemma FollowsPi(p: Naming, q: Naming, k: nat)
    requires Follows(p, q) && k < 25
    ensures q[k] == p[PiSource(k)]
  {
  }

  function PiTarget(j: nat): nat
    requires j < 25
  {
    match j
    case 0 => 0 case 1 => 8 case 2 => 11 case 3 => 19 case 4 => 22
    case 5 => 2 case 6 => 5 case 7 => 13 case 8 => 16 case 9 => 24
    case 10 => 4 case 11 => 7 case 12 => 10 case 13 => 18 case 14 => 21
    case 15 => 1 case 16 => 9 case 17 => 12 case 18 => 15 case 19 => 23
    case 20 => 3 case 21 => 6 case 22 => 14 case 23 => 17 case 24 => 20
  }

  lemma PiUndone(k: nat)
    requires k < 25
    ensures PiTarget(PiSource(k)) == k
  {
  }

  lemma PiInjective(j: nat, k: nat)
    requires j < k < 25
    ensures PiSource(j) != PiSource(k)
  {
    PiUndone(j);
    PiUndone(k);
  }

  lemma FollowingIsNaming(p: Naming, q: Naming)
    requires IsNaming(p) && Follows(p, q)
    ensures IsNaming(q)
  {
    forall k | 0 <= k < 25 ensures Word(q[k]) < 25 {
      FollowsPi(p, q, k);
    }
    forall j, k | 0 <= j < k < 25 ensures Word(q[j]) != Word(q[k]) {
      FollowsPi(p, q, j);
      FollowsPi(p, q, k);
      PiInjective(j, k);
    }
  }

  // Renaming does what pi does.
  lemma Renaming(w: seq<Lane>, p: Naming, q: Naming)
    requires |w| == 25 && IsNaming(p) && IsNaming(q) && Follows(p, q)
    ensures View(w, q) == Pi(View(w, p))
  {
    forall k: nat | k < 25 ensures View(w, q)[k] == Pi(View(w, p))[k] {
      FollowsPi(p, q, k);
    }
  }

  lemma P0Words0()
    ensures |P0()| == 25 && Word(P0()[0]) == 0 && Word(P0()[1]) == 5
         && Word(P0()[2]) == 10 && Word(P0()[3]) == 15 && Word(P0()[4]) == 20
  {
  }

  lemma P0Words1()
    ensures |P0()| == 25 && Word(P0()[5]) == 1 && Word(P0()[6]) == 6
         && Word(P0()[7]) == 11 && Word(P0()[8]) == 16 && Word(P0()[9]) == 21
  {
  }

  lemma P0Words2()
    ensures |P0()| == 25 && Word(P0()[10]) == 2 && Word(P0()[11]) == 7
         && Word(P0()[12]) == 12 && Word(P0()[13]) == 17 && Word(P0()[14]) == 22
  {
  }

  lemma P0Words3()
    ensures |P0()| == 25 && Word(P0()[15]) == 3 && Word(P0()[16]) == 8
         && Word(P0()[17]) == 13 && Word(P0()[18]) == 18 && Word(P0()[19]) == 23
  {
  }

  lemma P0Words4()
    ensures |P0()| == 25 && Word(P0()[20]) == 4 && Word(P0()[21]) == 9
         && Word(P0()[22]) == 14 && Word(P0()[23]) == 19 && Word(P0()[24]) == 24
  {
  }

  lemma P0IsNaming()
    ensures IsNaming(P0())
    ensures forall k: nat :: k < 25 ==> Word(P0()[k]) == X(k) + 5 * Y(k)
  {
    P0Words0(); P0Words1(); P0Words2(); P0Words3(); P0Words4();
    hide Word;
    forall k: nat | k < 25 ensures Word(P0()[k]) == X(k) + 5 * Y(k) {
      match k {
        case 0 => case 1 => case 2 => case 3 => case 4 =>
        case 5 => case 6 => case 7 => case 8 => case 9 =>
        case 10 => case 11 => case 12 => case 13 => case 14 =>
        case 15 => case 16 => case 17 => case 18 => case 19 =>
        case 20 => case 21 => case 22 => case 23 => case 24 =>
      }
    }
  }

  lemma P1Follows()
    ensures Follows(P0(), P1())
  {
  }

  lemma P2Follows()
    ensures Follows(P1(), P2())
  {
  }

  lemma P3Follows()
    ensures Follows(P2(), P3())
  {
  }

  lemma P4Follows()
    ensures Follows(P3(), P4())
  {
  }

  lemma P5Follows()
    ensures Follows(P4(), P5())
  {
  }

  lemma P6Follows()
    ensures Follows(P5(), P6())
  {
  }

  lemma P7Follows()
    ensures Follows(P6(), P7())
  {
  }

  lemma P8Follows()
    ensures Follows(P7(), P8())
  {
  }

  lemma NamingsOk()
    ensures IsNaming(P0()) && IsNaming(P1()) && IsNaming(P2()) && IsNaming(P3()) && IsNaming(P4())
    ensures IsNaming(P5()) && IsNaming(P6()) && IsNaming(P7()) && IsNaming(P8())
    ensures Follows(P0(), P1()) && Follows(P1(), P2()) && Follows(P2(), P3()) && Follows(P3(), P4())
    ensures Follows(P4(), P5()) && Follows(P5(), P6()) && Follows(P6(), P7()) && Follows(P7(), P8())
  {
    hide IsNaming, Follows;
    P0IsNaming();
    P1Follows(); FollowingIsNaming(P0(), P1());
    P2Follows(); FollowingIsNaming(P1(), P2());
    P3Follows(); FollowingIsNaming(P2(), P3());
    P4Follows(); FollowingIsNaming(P3(), P4());
    P5Follows(); FollowingIsNaming(P4(), P5());
    P6Follows(); FollowingIsNaming(P5(), P6());
    P7Follows(); FollowingIsNaming(P6(), P7());
    P8Follows(); FollowingIsNaming(P7(), P8());
  }

  // ----- which lanes are complemented, and when

  datatype Stage = Stored | AfterTheta | BeforeChi

  predicate Masked(m: Stage, k: nat) {
    match m
    case Stored => k == 4 || k == 5 || k == 10 || k == 12 || k == 13 || k == 16
    case AfterTheta => k < 4 || k == 5 || k == 10 || k == 12 || k == 13 || k == 15 || 17 <= k <= 19
    case BeforeChi => k < 3 || k == 4 || k == 8 || 10 <= k <= 12 || k == 15 || k == 18 || k == 19 || k == 23
  }

  // The state with the masked lanes complemented.
  function Comp(s: State, m: Stage): State {
    seq(25, k requires 0 <= k < 25 => if Masked(m, k) then Not(s[k]) else s[k])
  }

  lemma CompComp(s: State, m: Stage)
    ensures Comp(Comp(s, m), m) == s
  {
    forall k | 0 <= k < 25 ensures Comp(Comp(s, m), m)[k] == s[k] {
      NotNot(s[k]);
    }
  }

  lemma XorNots()
    ensures forall a: Lane, b: Lane {:trigger Xor(Not(a), b)} :: Xor(Not(a), b) == Not(Xor(a, b))
    ensures forall a: Lane, b: Lane {:trigger Xor(a, Not(b))} :: Xor(a, Not(b)) == Not(Xor(a, b))
    ensures forall a: Lane {:trigger Not(Not(a))} :: Not(Not(a)) == a
  {
    forall a: Lane, b: Lane { XorNot(a, b); }
    forall a: Lane { NotNot(a); }
  }

  lemma ColumnMask(s: State, x: nat)
    requires x < 5
    ensures Column(Comp(s, Stored), x) == if x < 4 then Not(Column(s, x)) else Column(s, x)
  {
    hide Xor, Not, Rol;
    XorNots();
    match x { case 0 => case 1 => case 2 => case 3 => case 4 => }
  }

  lemma EffectMask(s: State, x: nat)
    requires x < 5
    ensures ThetaEffect(Comp(s, Stored), x) ==
            if x == 0 || x == 3 then Not(ThetaEffect(s, x)) else ThetaEffect(s, x)
  {
    hide Xor, Not, Rol, Column;
    XorNots();
    ColumnMask(s, Mod5(x + 4));
    ColumnMask(s, Mod5(x + 1));
    RolNot(Column(s, Mod5(x + 1)), 1);
    match x { case 0 => case 1 => case 2 => case 3 => case 4 => }
  }

  lemma ThetaMask(s: State)
    ensures Theta(Comp(s, Stored)) == Comp(Theta(s), AfterTheta)
  {
    hide Xor, Not, Rol, ThetaEffect;
    XorNots();
    forall k: nat | k < 25 ensures Theta(Comp(s, Stored))[k] == Comp(Theta(s), AfterTheta)[k] {
      EffectMask(s, X(k));
    }
  }

  lemma RhoMask(s: State)
    ensures Rho(Comp(s, AfterTheta)) == Comp(Rho(s), AfterTheta)
  {
    hide Not, Rol;
    forall k: nat | k < 25 ensures Rho(Comp(s, AfterTheta))[k] == Comp(Rho(s), AfterTheta)[k] {
      RolNot(s[k], Offset(k));
    }
  }

  lemma PiMask(s: State)
    ensures Pi(Comp(s, AfterTheta)) == Comp(Pi(s), BeforeChi)
  {
    hide Not;
    forall k: nat | k < 25 ensures Pi(Comp(s, AfterTheta))[k] == Comp(Pi(s), BeforeChi)[k] {
      assert Masked(AfterTheta, PiSource(k)) == Masked(BeforeChi, k);
    }
  }

  // ----- chi on complemented lanes, row by row as the code writes it

  function WithOr(a: Lane, b: Lane, c: Lane): Lane { Xor(a, Or(b, c)) }

  function WithAnd(a: Lane, b: Lane, c: Lane): Lane { Xor(a, And(b, c)) }

  datatype Row = Row(c0: Lane, c1: Lane, c2: Lane, c3: Lane, c4: Lane)

  function KhiRow(y: nat, b0: Lane, b1: Lane, b2: Lane, b3: Lane, b4: Lane): Row
    requires y < 5
  {
    match y
    case 0 =>
      var bnn := Not(b2);
      Row(WithOr(b0, b1, b2), WithOr(b1, bnn, b3), WithAnd(b2, b3, b4), WithOr(b3, b4, b0), WithAnd(b4, b0, b1))
    case 1 =>
      var bnn := Not(b4);
      Row(WithOr(b0, b1, b2), WithAnd(b1, b2, b3), WithOr(b2, b3, bnn), WithOr(b3, b4, b0), WithAnd(b4, b0, b1))
    case 2 =>
      var bnn := Not(b3);
      Row(WithOr(b0, b1, b2), WithAnd(b1, b2, b3), WithAnd(b2, bnn, b4), WithOr(bnn, b4, b0), WithAnd(b4, b0, b1))
    case 3 =>
      var bnn := Not(b3);
      Row(WithAnd(b0, b1, b2), WithOr(b1, b2, b3), WithOr(b2, bnn, b4), WithAnd(bnn, b4, b0), WithOr(b4, b0, b1))
    case 4 =>
      var bnn := Not(b1);
      Row(WithAnd(b0, bnn, b2), WithOr(bnn, b2, b3), WithAnd(b2, b3, b4), WithOr(b3, b4, b0), WithAnd(b4, b0, b1))
  }

  function RowOf(s: State, y: nat): Row
    requires y < 5
  {
    KhiRow(y, s[At(0, y)], s[At(1, y)], s[At(2, y)], s[At(3, y)], s[At(4, y)])
  }

  function RowLane(r: Row, x: nat): Lane
    requires x < 5
  {
    match x case 0 => r.c0 case 1 => r.c1 case 2 => r.c2 case 3 => r.c3 case 4 => r.c4
  }

  function Khi(s: State): State {
    seq(25, k requires 0 <= k < 25 => RowLane(RowOf(s, Y(k)), X(k)))
  }

  lemma OrIsAnd()
    ensures forall a: Lane, b: Lane {:trigger Or(a, b)} :: Or(a, b) == Not(And(Not(a), Not(b)))
  {
    forall a: Lane, b: Lane { OrIsNotAnd(a, b); }
  }

  lemma ChiRowMask0(s: State, x: nat)
    requires x < 5
    ensures RowLane(RowOf(Comp(s, BeforeChi), 0), x) ==
            if Masked(Stored, At(x, 0)) then Not(ChiLane(s, x, 0)) else ChiLane(s, x, 0)
  {
    hide Xor, Not, And, Or;
    XorNots();
    OrIsAnd();
    match x { case 0 => case 1 => case 2 => case 3 => case 4 => }
  }

  lemma ChiRowMask1(s: State, x: nat)
    requires x < 5
    ensures RowLane(RowOf(Comp(s, BeforeChi), 1), x) ==
            if Masked(Stored, At(x, 1)) then Not(ChiLane(s, x, 1)) else ChiLane(s, x, 1)
  {
    hide Xor, Not, And, Or;
    XorNots();
    OrIsAnd();
    match x { case 0 => case 1 => case 2 => case 3 => case 4 => }
  }

  lemma ChiRowMask2(s: State, x: nat)
    requires x < 5
    ensures RowLane(RowOf(Comp(s, BeforeChi), 2), x) ==
            if Masked(Stored, At(x, 2)) then Not(ChiLane(s, x, 2)) else ChiLane(s, x, 2)
  {
    hide Xor, Not, And, Or;
    XorNots();
    OrIsAnd();
    match x { case 0 => case 1 => case 2 => case 3 => case 4 => }
  }

  lemma ChiRowMask3(s: State, x: nat)
    requires x < 5
    ensures RowLane(RowOf(Comp(s, BeforeChi), 3), x) ==
            if Masked(Stored, At(x, 3)) then Not(ChiLane(s, x, 3)) else ChiLane(s, x, 3)
  {
    hide Xor, Not, And, Or;
    XorNots();
    OrIsAnd();
    match x { case 0 => case 1 => case 2 => case 3 => case 4 => }
  }

  lemma ChiRowMask4(s: State, x: nat)
    requires x < 5
    ensures RowLane(RowOf(Comp(s, BeforeChi), 4), x) ==
            if Masked(Stored, At(x, 4)) then Not(ChiLane(s, x, 4)) else ChiLane(s, x, 4)
  {
    hide Xor, Not, And, Or;
    XorNots();
    OrIsAnd();
    match x { case 0 => case 1 => case 2 => case 3 => case 4 => }
  }

  lemma ChiRowMask(s: State, y: nat, x: nat)
    requires y < 5 && x < 5
    ensures RowLane(RowOf(Comp(s, BeforeChi), y), x) ==
            if Masked(Stored, At(x, y)) then Not(ChiLane(s, x, y)) else ChiLane(s, x, y)
  {
    hide RowLane, RowOf, Comp, Masked, ChiLane, At;
    match y {
      case 0 => ChiRowMask0(s, x);
      case 1 => ChiRowMask1(s, x);
      case 2 => ChiRowMask2(s, x);
      case 3 => ChiRowMask3(s, x);
      case 4 => ChiRowMask4(s, x);
    }
  }

  lemma ChiMask(s: State)
    ensures Khi(Comp(s, BeforeChi)) == Comp(Chi(s), Stored)
  {
    hide Not, RowOf, ChiLane, KhiRow;
    forall k: nat | k < 25 ensures Khi(Comp(s, BeforeChi))[k] == Comp(Chi(s), Stored)[k] {
      ChiRowMask(s, Y(k), X(k));
      assert At(X(k), Y(k)) == k;
    }
  }

  // One round on complemented lanes, as the code computes it.
  function CodeRound(s: State, rc: Lane): State {
    Iota(Khi(Pi(Rho(Theta(s)))), rc)
  }

  lemma RoundMask(s: State, rc: Lane)
    ensures CodeRound(Comp(s, Stored), rc) == Comp(Round(s, rc), Stored)
  {
    hide Theta, Rho, Pi, Chi, Khi, Not, Xor;
    ThetaMask(s);
    RhoMask(Theta(s));
    PiMask(Rho(Theta(s)));
    ChiMask(Pi(Rho(Theta(s))));
  }

  function CodeRounds(s: State, n: nat): State
    requires n <= 24
  {
    if n == 0 then s else CodeRound(CodeRounds(s, n - 1), Bits(RC(n - 1)))
  }

  lemma {:induction false} RoundsMask(s: State, n: nat)
    requires n <= 24
    ensures CodeRounds(Comp(s, Stored), n) == Comp(Rounds(s, n), Stored)
  {
    hide CodeRound, Round, Comp;
    if n > 0 {
      RoundsMask(s, n - 1);
      RoundMask(Rounds(s, n - 1), Bits(RC(n - 1)));
    }
  }

  // ----- the code in place

  // Assigns the word named p[k].
  method Put(w: array<Lane>, p: Naming, k: nat, v: Lane)
    requires w.Length == 25 && IsNaming(p) && k < 25
    modifies w
    ensures View(w[..], p) == View(old(w[..]), p)[k := v]
  {
    ViewUpdate(w[..], p, k, v);
    ghost var before := w[..];
    w[Word(p[k])] := v;
    assert w[..] == before[Word(p[k]) := v];
  }

  function ThElt(c0: Lane, c1: Lane, c2: Lane, c3: Lane, c4: Lane,
                 d0: Lane, d1: Lane, d2: Lane, d3: Lane, d4: Lane): Lane {
    Xor(Xor(Rol(Xor(Xor(Xor(d0, d1), d4), Xor(d2, d3)), 1), c4), Xor(Xor(c0, c1), Xor(c2, c3)))
  }

  lemma Parity(c0: Lane, c1: Lane, c2: Lane, c3: Lane, c4: Lane)
    ensures Xor(Xor(Xor(c0, c1), c4), Xor(c2, c3)) == Xor(Xor(Xor(Xor(c0, c1), c2), c3), c4)
  {
  }

  lemma Regroup(r: Lane, c0: Lane, c1: Lane, c2: Lane, c3: Lane, c4: Lane)
    ensures Xor(Xor(r, c4), Xor(Xor(c0, c1), Xor(c2, c3))) == Xor(Xor(Xor(Xor(Xor(c0, c1), c2), c3), c4), r)
  {
  }

  function ThEltAt(s: State, x: nat): Lane
    requires x < 5
  {
    var c, d := Mod5(x + 4), Mod5(x + 1);
    ThElt(s[At(c, 0)], s[At(c, 1)], s[At(c, 2)], s[At(c, 3)], s[At(c, 4)],
          s[At(d, 0)], s[At(d, 1)], s[At(d, 2)], s[At(d, 3)], s[At(d, 4)])
  }

  lemma ThEltIsEffect(s: State, x: nat)
    requires x < 5
    ensures ThEltAt(s, x) == ThetaEffect(s, x)
  {
    hide Xor, Rol;
    var c, d := Mod5(x + 4), Mod5(x + 1);
    Parity(s[At(d, 0)], s[At(d, 1)], s[At(d, 2)], s[At(d, 3)], s[At(d, 4)]);
    Regroup(Rol(Column(s, d), 1), s[At(c, 0)], s[At(c, 1)], s[At(c, 2)], s[At(c, 3)], s[At(c, 4)]);
  }

  method ThetaInPlace(w: array<Lane>, p: Naming)
    requires w.Length == 25 && IsNaming(p)
    modifies w
    ensures View(w[..], p) == Theta(View(old(w[..]), p))
  {
    hide View, IsNaming, ThElt, Xor, Rol, ThetaEffect;
    ghost var s := View(w[..], p);
    var t: seq<Lane> := [];
    for x := 0 to 5
      invariant View(w[..], p) == s
      invariant |t| == x && forall i: nat :: i < x ==> t[i] == ThetaEffect(s, i)
    {
      ThEltIsEffect(s, x);
      var e := ThEltAt(View(w[..], p), x);
      t := t + [e];
    }
    for k := 0 to 25
      invariant forall i :: 0 <= i < 25 ==> View(w[..], p)[i] == if i < k then Theta(s)[i] else s[i]
    {
      Put(w, p, k, Xor(View(w[..], p)[k], t[X(k)]));
    }
  }

  lemma RolZero(a: Lane)
    ensures Rol(a, 0) == a
  {
  }

  method RhoInPlace(w: array<Lane>, p: Naming)
    requires w.Length == 25 && IsNaming(p)
    modifies w
    ensures View(w[..], p) == Rho(View(old(w[..]), p))
  {
    hide View, IsNaming, Rol;
    ghost var s := View(w[..], p);
    RolZero(s[0]);
    for k := 1 to 25
      invariant forall i :: 0 <= i < 25 ==> View(w[..], p)[i] == if i < k then Rho(s)[i] else s[i]
    {
      Put(w, p, k, Rol(View(w[..], p)[k], Offset(k)));
    }
  }

  function WithRow(s: State, y: nat, c: Row): State
    requires y < 5
  {
    s[y := c.c0][5 + y := c.c1][10 + y := c.c2][15 + y := c.c3][20 + y := c.c4]
  }

  lemma RowWritten(s: State, y: nat, i: nat)
    requires y < 5 && i < 25
    ensures WithRow(s, y, RowOf(s, y))[i] == if Y(i) == y then Khi(s)[i] else s[i]
  {
    hide RowOf;
    assert i == 5 * X(i) + Y(i);
  }

  // One row of chi, taken from its five lanes before any of them is overwritten.
  method KhiRowInPlace(w: array<Lane>, p: Naming, y: nat)
    requires w.Length == 25 && IsNaming(p) && y < 5
    modifies w
    ensures forall i: nat :: i < 25 ==>
              View(w[..], p)[i] == if Y(i) == y then Khi(View(old(w[..]), p))[i] else View(old(w[..]), p)[i]
  {
    hide View, IsNaming, RowOf, RowLane, Khi, X, Y;
    ghost var s := View(w[..], p);
    var c := RowOf(View(w[..], p), y);
    Put(w, p, y, c.c0);
    Put(w, p, 5 + y, c.c1);
    Put(w, p, 10 + y, c.c2);
    Put(w, p, 15 + y, c.c3);
    Put(w, p, 20 + y, c.c4);
    assert View(w[..], p) == WithRow(s, y, c);
    forall i: nat | i < 25 ensures View(w[..], p)[i] == if Y(i) == y then Khi(s)[i] else s[i] {
      RowWritten(s, y, i);
    }
  }

  lemma RowUntouched(s: State, v: State, y: nat)
    requires y < 5 && forall i: nat :: i < 25 && Y(i) == y ==> v[i] == s[i]
    ensures RowOf(v, y) == RowOf(s, y)
  {
    hide KhiRow;
    assert Y(At(0, y)) == Y(At(1, y)) == Y(At(2, y)) == Y(At(3, y)) == Y(At(4, y)) == y;
  }

  method KhiInPlace(w: array<Lane>, p: Naming)
    requires w.Length == 25 && IsNaming(p)
    modifies w
    ensures View(w[..], p) == Khi(View(old(w[..]), p))
  {
    hide View, IsNaming, RowOf, RowLane, X, Y;
    ghost var s := View(w[..], p);
    for y := 0 to 5
      invariant forall i: nat :: i < 25 ==> View(w[..], p)[i] == if Y(i) < y then Khi(s)[i] else s[i]
    {
      RowUntouched(s, View(w[..], p), y);
      KhiRowInPlace(w, p, y);
    }
  }

  // One round: the words keep their places, the names move from p to q.
  method KfElt(w: array<Lane>, p: Naming, q: Naming, rc: Lane)
    requires w.Length == 25 && IsNaming(p) && IsNaming(q) && Follows(p, q) && p[0] == 0
    modifies w
    ensures View(w[..], q) == CodeRound(View(old(w[..]), p), rc)
  {
    hide View, IsNaming, Theta, Rho, Pi, Khi, Xor;
    ThetaInPlace(w, p);
    RhoInPlace(w, p);
    Renaming(w[..], p, q);
    KhiInPlace(w, q);
    IotaWord(w[..], q);
    Put(w, q, 0, Xor(w[0], rc));
  }

  lemma IotaWord(w: seq<Lane>, p: Naming)
    requires |w| == 25 && IsNaming(p) && p[0] == 0
    ensures View(w, p)[0] == w[0]
  {
  }

  method Cycle(w: array<Lane>, i: nat, j: nat, k: nat)
    requires w.Length == 25 && i < 25 && j < 25 && k < 25 && i != j && j != k && i != k
    modifies w
    ensures w[i] == old(w[j]) && w[j] == old(w[k]) && w[k] == old(w[i])
    ensures forall m :: 0 <= m < 25 && m != i && m != j && m != k ==> w[m] == old(w[m])
  {
    var t := w[i];
    w[i] := w[j];
    w[j] := w[k];
    w[k] := t;
  }

  // Words v hold under P0 what words w hold under P8.
  ghost predicate MovedBack(w: seq<Lane>, v: seq<Lane>)
    requires |w| == 25 && |v| == 25
  {
    && v[0] == w[0]
    && v[5] == w[6] && v[6] == w[19] && v[19] == w[5]
    && v[10] == w[12] && v[12] == w[8] && v[8] == w[10]
    && v[15] == w[18] && v[18] == w[22] && v[22] == w[15]
    && v[20] == w[24] && v[24] == w[11] && v[11] == w[20]
    && v[1] == w[13] && v[13] == w[16] && v[16] == w[1]
    && v[21] == w[7] && v[7] == w[2] && v[2] == w[21]
    && v[17] == w[14] && v[14] == w[4] && v[4] == w[17]
    && v[3] == w[9] && v[9] == w[23] && v[23] == w[3]
  }

  method P8ToP0(w: array<Lane>)
    requires w.Length == 25
    modifies w
    ensures MovedBack(old(w[..]), w[..])
  {
    Cycle(w, 5, 6, 19); // a01, a11, a43
    Cycle(w, 10, 12, 8); // a02, a22, a31
    Cycle(w, 15, 18, 22); // a03, a33, a24
    Cycle(w, 20, 24, 11); // a04, a44, a12
    Cycle(w, 1, 13, 16); // a10, a32, a13
    Cycle(w, 21, 7, 2); // a14, a21, a20
    Cycle(w, 17, 14, 4); // a23, a42, a40
    Cycle(w, 3, 9, 23); // a30, a41, a34
  }

  lemma P8Words0()
    ensures |P8()| == 25 && Word(P8()[0]) == 0 && Word(P8()[1]) == 6
         && Word(P8()[2]) == 12 && Word(P8()[3]) == 18 && Word(P8()[4]) == 24
  {
  }

  lemma P8Words1()
    ensures |P8()| == 25 && Word(P8()[5]) == 13 && Word(P8()[6]) == 19
         && Word(P8()[7]) == 20 && Word(P8()[8]) == 1 && Word(P8()[9]) == 7
  {
  }

  lemma P8Words2()
    ensures |P8()| == 25 && Word(P8()[10]) == 21 && Word(P8()[11]) == 2
         && Word(P8()[12]) == 8 && Word(P8()[13]) == 14 && Word(P8()[14]) == 15
  {
  }

  lemma P8Words3()
    ensures |P8()| == 25 && Word(P8()[15]) == 9 && Word(P8()[16]) == 10
         && Word(P8()[17]) == 16 && Word(P8()[18]) == 22 && Word(P8()[19]) == 3
  {
  }

  lemma P8Words4()
    ensures |P8()| == 25 && Word(P8()[20]) == 17 && Word(P8()[21]) == 23
         && Word(P8()[22]) == 4 && Word(P8()[23]) == 5 && Word(P8()[24]) == 11
  {
  }

  lemma MovedRow0(w: seq<Lane>, v: seq<Lane>)
    requires |w| == 25 && |v| == 25 && MovedBack(w, v)
    requires IsNaming(P0()) && IsNaming(P8())
    ensures forall k :: 0 <= k < 5 ==> View(v, P0())[k] == View(w, P8())[k]
  {
    P0Words0(); P8Words0();
    hide P0, P8, Word, IsNaming;
  }

  lemma MovedRow1(w: seq<Lane>, v: seq<Lane>)
    requires |w| == 25 && |v| == 25 && MovedBack(w, v)
    requires IsNaming(P0()) && IsNaming(P8())
    ensures forall k :: 5 <= k < 10 ==> View(v, P0())[k] == View(w, P8())[k]
  {
    P0Words1(); P8Words1();
    hide P0, P8, Word, IsNaming;
  }

  lemma MovedRow2(w: seq<Lane>, v: seq<Lane>)
    requires |w| == 25 && |v| == 25 && MovedBack(w, v)
    requires IsNaming(P0()) && IsNaming(P8())
    ensures forall k :: 10 <= k < 15 ==> View(v, P0())[k] == View(w, P8())[k]
  {
    P0Words2(); P8Words2();
    hide P0, P8, Word, IsNaming;
  }

  lemma MovedRow3(w: seq<Lane>, v: seq<Lane>)
    requires |w| == 25 && |v| == 25 && MovedBack(w, v)
    requires IsNaming(P0()) && IsNaming(P8())
    ensures forall k :: 15 <= k < 20 ==> View(v, P0())[k] == View(w, P8())[k]
  {
    P0Words3(); P8Words3();
    hide P0, P8, Word, IsNaming;
  }

  lemma MovedRow4(w: seq<Lane>, v: seq<Lane>)
    requires |w| == 25 && |v| == 25 && MovedBack(w, v)
    requires IsNaming(P0()) && IsNaming(P8())
    ensures forall k :: 20 <= k < 25 ==> View(v, P0())[k] == View(w, P8())[k]
  {
    P0Words4(); P8Words4();
    hide P0, P8, Word, IsNaming;
  }

  // Moving the words back undoes eight rounds of renaming.
  lemma MovedBackView(w: seq<Lane>, v: seq<Lane>)
    requires |w| == 25 && |v| == 25 && MovedBack(w, v)
    requires IsNaming(P0()) && IsNaming(P8())
    ensures View(v, P0()) == View(w, P8())
  {
    MovedRow0(w, v); MovedRow1(w, v); MovedRow2(w, v); MovedRow3(w, v); MovedRow4(w, v);
    hide MovedBack, View, IsNaming, P0, P8;
  }

  lemma OneMoreRound(s: State, n: nat)
    requires n < 24
    ensures CodeRounds(s, n + 1) == CodeRound(CodeRounds(s, n), Bits(RC(n)))
  {
    hide CodeRound, Bits;
  }

  lemma WordZero()
    ensures |P0()| == |P1()| == |P2()| == |P3()| == |P4()| == |P5()| == |P6()| == |P7()| == |P8()| == 25
    ensures P0()[0] == 0 && P1()[0] == 0 && P2()[0] == 0 && P3()[0] == 0 && P4()[0] == 0
    ensures P5()[0] == 0 && P6()[0] == 0 && P7()[0] == 0 && P8()[0] == 0
  {
  }

  // Rounds 8i to 8i + 7, after which the words have their first names again.
  method EightRounds(w: array<Lane>, j: nat, ghost s: State)
    requires w.Length == 25 && j <= 16 && IsNaming(P0())
    requires View(w[..], P0()) == CodeRounds(s, j)
    modifies w
    ensures View(w[..], P0()) == CodeRounds(s, j + 8)
  {
    NamingsOk();
    WordZero();
    hide IsNaming, Follows, View, CodeRound, CodeRounds, Bits, MovedBack, P0, P1, P2, P3, P4, P5, P6, P7, P8;
    OneMoreRound(s, j); OneMoreRound(s, j + 1); OneMoreRound(s, j + 2); OneMoreRound(s, j + 3);
    OneMoreRound(s, j + 4); OneMoreRound(s, j + 5); OneMoreRound(s, j + 6); OneMoreRound(s, j + 7);
    KfElt(w, P0(), P1(), Bits(RC(j)));
    KfElt(w, P1(), P2(), Bits(RC(j + 1)));
    KfElt(w, P2(), P3(), Bits(RC(j + 2)));
    KfElt(w, P3(), P4(), Bits(RC(j + 3)));
    KfElt(w, P4(), P5(), Bits(RC(j + 4)));
    KfElt(w, P5(), P6(), Bits(RC(j + 5)));
    KfElt(w, P6(), P7(), Bits(RC(j + 6)));
    KfElt(w, P7(), P8(), Bits(RC(j + 7)));
    ghost var v := w[..];
    P8ToP0(w);
    MovedBackView(v, w[..]);
  }

  // The state a hash context stands for: its words with the six complemented lanes put right.
  function Plain(w: seq<Lane>): State
    requires |w| == 25
  {
    Comp(Transpose(w), Stored)
  }

  lemma ViewIsTranspose(w: seq<Lane>)
    requires |w| == 25
    ensures IsNaming(P0()) && View(w, P0()) == Transpose(w)
  {
    P0IsNaming();
    hide P0, IsNaming, Word, X, Y;
  }

  lemma CodeRoundsArePermute(s: State)
    ensures Comp(CodeRounds(s, 24), Stored) == Permute(Comp(s, Stored))
  {
    hide Comp, CodeRounds, Rounds;
    CompComp(s, Stored);
    RoundsMask(Comp(s, Stored), 24);
    CompComp(Rounds(Comp(s, Stored), 24), Stored);
  }

  // The whole unrolled permutation.
  method KeccakF(w: array<Lane>)
    requires w.Length == 25
    modifies w
    ensures Plain(w[..]) == Permute(Plain(old(w[..])))
  {
    P0IsNaming();
    hide IsNaming, View, CodeRounds, Comp, Permute, Transpose, P0;
    ghost var s := View(w[..], P0());
    ViewIsTranspose(w[..]);
    CodeRoundsArePermute(s);
    NoRounds(s);
    EightRounds(w, 0, s);
    EightRounds(w, 8, s);
    EightRounds(w, 16, s);
    ViewIsTranspose(w[..]);
  }

  lemma NoRounds(s: State)
    ensures CodeRounds(s, 0) == s
  {
  }
}

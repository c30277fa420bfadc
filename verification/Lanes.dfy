/** 64-bit words as their bits, lowest first, with the operations the hash code applies to them. */
module Lanes {
  import opened Arith

  type Lane = s: seq<bool> | |s| == 64 witness seq(64, _ => false)

  function Xor(a: Lane, b: Lane): Lane { seq(64, z requires 0 <= z < 64 => a[z] != b[z]) }

  function And(a: Lane, b: Lane): Lane { seq(64, z requires 0 <= z < 64 => a[z] && b[z]) }

  function Or(a: Lane, b: Lane): Lane { seq(64, z requires 0 <= z < 64 => a[z] || b[z]) }

  function Not(a: Lane): Lane { seq(64, z requires 0 <= z < 64 => !a[z]) }

  function ShiftUp(a: Lane, n: nat): Lane { seq(64, z requires 0 <= z < 64 => n <= z && a[z - n]) }

  function ShiftDown(a: Lane, n: nat): Lane { seq(64, z requires 0 <= z < 64 => z + n < 64 && a[z + n]) }

  // Rotation to the left, as the code writes it.
  function Rol(a: Lane, n: nat): Lane
    requires n < 64
  {
    Or(ShiftUp(a, n), ShiftDown(a, 64 - n))
  }

  function Bits(n: nat): Lane { seq(64, z requires 0 <= z < 64 => n / Pow2(z) % 2 == 1) }

  // Bit z of a rotated word is bit z - n of the word, counted modulo 64.
  lemma RolBit(a: Lane, n: nat, z: nat)
    requires n < 64 && z < 64
    ensures Rol(a, n)[z] == a[(z + 64 - n) % 64]
  {
    if z >= n {
      assert (z + 64 - n) % 64 == z - n;
    } else {
      assert (z + 64 - n) % 64 == z + (64 - n);
    }
  }

  lemma XorBit(a: Lane, b: Lane, z: nat)
    requires z < 64
    ensures Xor(a, b)[z] == (a[z] != b[z])
  {
  }

  lemma NotNot(a: Lane)
    ensures Not(Not(a)) == a
  {
  }

  lemma XorNot(a: Lane, b: Lane)
    ensures Xor(Not(a), b) == Not(Xor(a, b))
    ensures Xor(a, Not(b)) == Not(Xor(a, b))
  {
  }

  lemma OrIsNotAnd(a: Lane, b: Lane)
    ensures Or(a, b) == Not(And(Not(a), Not(b)))
  {
  }

  lemma RolNot(a: Lane, n: nat)
    requires n < 64
    ensures Rol(Not(a), n) == Not(Rol(a, n))
  {
    forall z | 0 <= z < 64 ensures Rol(Not(a), n)[z] == Not(Rol(a, n))[z] {
      RolBit(Not(a), n, z);
      RolBit(a, n, z);
    }
  }
}

/** Finite sets: picking a member, comparing sizes, and walking integers in ascending order. */
module FiniteSets {
  lemma AnyOf<T>(s: set<T>) returns (x: T)
    requires s != {}
    ensures x in s
  {
    x :| x in s;
  }

  lemma Fewer<T>(a: set<T>, b: set<T>)
    requires a <= b
    ensures |a| <= |b|
  {
    assert b == a + (b - a);
  }

  lemma OneLess<T>(a: set<T>, b: set<T>, x: T)
    requires a <= b && x in b && x !in a
    ensures |a| < |b|
  {
    Fewer(a, b - {x});
  }

  lemma AtMostOneMore<T>(a: set<T>, b: set<T>, x: T)
    requires a <= b + {x}
    ensures |a| <= |b| + 1
  {
    Fewer(a, b + {x});
    assert |b + {x}| <= |b| + 1 by {
      if x in b { assert b + {x} == b; }
    }
  }

  lemma UnionBound<T>(a: set<T>, b: set<T>, c: set<T>)
    requires a <= b + c
    ensures |a| <= |b| + |c|
  {
    Fewer(a, b + c);
  }

  lemma RangeSize(lo: int, hi: int, s: set<int>)
    requires lo <= hi && forall i :: i in s <==> lo <= i < hi
    ensures |s| == hi - lo
    decreases hi - lo
  {
    if lo == hi {
      if s != {} { var x := AnyOf(s); }
    } else {
      RangeSize(lo, hi - 1, s - {hi - 1});
    }
  }

  lemma {:induction false} RangeBound(s: set<int>, n: nat)
    requires forall x :: x in s ==> 0 <= x < n
    ensures |s| <= n
  {
    if n == 0 {
      if s != {} { var _ := AnyOf(s); }
    } else {
      RangeBound(s - {n - 1}, n - 1);
      AtMostOneMore(s, s - {n - 1}, n - 1);
    }
  }

  // The smallest member of a set, where a walk over an ordered map or set stands next.
  method Least(s: set<int>) returns (x: int)
    requires s != {}
    ensures x in s && forall y :: y in s ==> x <= y
  {
    LeastExists(s);
    x :| x in s && forall y :: y in s ==> x <= y;
  }

  lemma LeastExists(s: set<int>)
    requires s != {}
    ensures exists x :: x in s && forall y :: y in s ==> x <= y
    decreases |s|
  {
    var x := AnyOf(s);
    if exists y :: y in s && y < x {
      var below := Below(s, x);
      OneLess(below, s, x);
      LeastExists(below);
      var m :| m in below && forall z :: z in below ==> m <= z;
      forall z | z in s ensures m <= z { assert z < x ==> z in below; }
    }
  }

  lemma Below(s: set<int>, x: int) returns (below: set<int>)
    requires x in s && exists y :: y in s && y < x
    ensures forall z :: z in below <==> z in s && z < x
    ensures below != {} && below <= s && x !in below
  {
    below := set z | z in s && z < x;
    var y :| y in s && y < x;
    assert y in below;
  }
}

/** Locks on memory pages that stack: a count for every page of the ranges that keep it locked. */
module LockedPages {
  import opened Arith

  // ----- masking

  // The bitwise conjunction.
  function And(a: nat, b: nat): nat {
    if a == 0 || b == 0 then 0 else 2 * And(a / 2, b / 2) + (a % 2) * (b % 2)
  }

  // ~x in words of w bits.
  function Complement(x: nat, w: nat): nat
    requires x < Pow2(w)
  {
    Pow2(w) - 1 - x
  }

  lemma {:induction false} AndOnes(a: nat, w: nat)
    requires a < Pow2(w)
    ensures And(a, Pow2(w) - 1) == a
  {
    if a > 0 {
      var p := Pow2(w - 1);
      assert (2 * p - 1) / 2 == p - 1 && (2 * p - 1) % 2 == 1;
      AndOnes(a / 2, w - 1);
    }
  }

  lemma AndEven(a: nat, half: nat)
    ensures And(a, 2 * half) == 2 * And(a / 2, half)
  {
    assert 2 * half / 2 == half && 2 * half % 2 == 0;
  }

  // Masking with ~(2^k - 1) rounds down to a multiple of 2^k.
  lemma {:induction false} MaskRoundsDown(a: nat, k: nat, w: nat)
    requires k <= w && a < Pow2(w)
    ensures Pow2(k) - 1 < Pow2(w)
    ensures And(a, Complement(Pow2(k) - 1, w)) == a / Pow2(k) * Pow2(k)
  {
    Pow2Grows(k, w);
    if k == 0 {
      AndOnes(a, w);
    } else {
      hide And, Pow2;
      Pow2Step(k);
      Pow2Step(w);
      MaskRoundsDown(a / 2, k - 1, w - 1);
      AndEven(a, Complement(Pow2(k - 1) - 1, w - 1));
      HalfTwice(a, Pow2(k - 1));
    }
  }

  lemma HalfTwice(a: nat, p: nat)
    requires p > 0
    ensures a / (2 * p) * (2 * p) == 2 * (a / 2 / p * p)
  {
    var q, r := a / 2 / p, a / 2 % p;
    assert a / 2 == q * p + r;
    assert a == q * (2 * p) + (2 * r + a % 2);
    ModUnique(a, 2 * p, q, 2 * r + a % 2);
  }

  // The check of the page size: it passes for the powers of two, and for no other positive number.
  lemma {:induction false} PowerOfTwoCheck(p: nat)
    requires p > 0
    ensures And(p, p - 1) == 0 <==> exists k: nat :: p == Pow2(k)
  {
    if p == 1 {
      assert 1 == Pow2(0);
    } else if p % 2 == 0 {
      PowerOfTwoCheck(p / 2);
      assert (p - 1) / 2 == p / 2 - 1;
      if And(p, p - 1) == 0 {
        var k: nat :| p / 2 == Pow2(k);
        assert p == Pow2(k + 1);
      } else {
        forall k: nat ensures p != Pow2(k) {
          assert k > 0 ==> Pow2(k) == 2 * Pow2(k - 1) && p / 2 != Pow2(k - 1);
        }
      }
    } else {
      assert (p - 1) / 2 == p / 2 && p / 2 > 0;
      AndSelf(p / 2);
      forall k: nat ensures p != Pow2(k) {
        assert k > 0 ==> Pow2(k) % 2 == 0;
      }
    }
  }

  lemma {:induction false} AndSelf(a: nat)
    ensures And(a, a) == a
  {
    hide And;
    AndStep(a, a);
    if a > 0 {
      AndSelf(a / 2);
      assert a % 2 * (a % 2) == a % 2 by { if a % 2 == 0 { } else { assert a % 2 == 1; } }
    }
  }

  lemma AndStep(a: nat, b: nat)
    ensures And(a, b) == if a == 0 || b == 0 then 0 else 2 * And(a / 2, b / 2) + a % 2 * (b % 2)
  {
  }

  // ----- ranges and pages

  predicate IsPage(page: nat, size: nat)
    requires size > 0
  {
    page % size == 0
  }

  // Arithmetic in machine words.
  function Wrap(a: nat, range: nat): nat
    requires range > 0
  {
    a % range
  }

  datatype Range = Range(base: nat, size: nat)

  function Down(a: nat, size: nat): nat
    requires size > 0
  {
    a / size * size
  }

  // The page at `page` holds a byte of the range.
  ghost predicate Touches(page: nat, r: Range, pageSize: nat) {
    exists a: nat :: Holds(page, r, pageSize, a)
  }

  predicate Holds(page: nat, r: Range, pageSize: nat, a: nat) {
    page <= a < page + pageSize && r.base <= a < r.base + r.size
  }

  // The pages from that of the first byte to that of the last.
  lemma TouchedPages(page: nat, r: Range, pageSize: nat)
    requires pageSize > 0 && r.size > 0 && IsPage(page, pageSize)
    ensures Touches(page, r, pageSize) <==>
            Down(r.base, pageSize) <= page <= Down(r.base + r.size - 1, pageSize)
  {
    var q, first, last := page / pageSize, r.base, r.base + r.size - 1;
    Aligned(page, pageSize);
    DownBelow(first, pageSize, q);
    DownBelow(last, pageSize, q);
    if Down(first, pageSize) <= page <= Down(last, pageSize) {
      var a := if first <= page then page else first;
      assert Holds(page, r, pageSize, a);
    }
    if Touches(page, r, pageSize) {
      var a: nat :| Holds(page, r, pageSize, a);
    }
  }

  lemma Aligned(page: nat, size: nat)
    requires size > 0 && IsPage(page, size)
    ensures page == page / size * size
  {
  }

  lemma DownBelow(a: nat, size: nat, q: nat)
    requires size > 0
    ensures Down(a, size) <= q * size <==> a < q * size + size
    ensures q * size <= Down(a, size) <==> q * size <= a
  {
    var d := a / size;
    assert a == d * size + a % size;
    if d < q {
      AtLeastOnce(q, d, size);
    } else if d > q {
      AtLeastOnce(d, q, size);
    }
  }

  lemma OneAligned(p: nat, page: nat, size: nat)
    requires size > 0 && IsPage(p, size) && IsPage(page, size) && page <= p < page + size
    ensures p == page
  {
    Aligned(p, size);
    Aligned(page, size);
    var x, y := p / size, page / size;
    if x > y { AtLeastOnce(x, y, size); } else if y > x { AtLeastOnce(y, x, size); }
  }

  // How many of the ranges touch a page.
  ghost function Count(live: seq<Range>, page: nat, pageSize: nat): nat {
    if live == [] then 0
    else Count(live[..|live| - 1], page, pageSize) + if Touches(page, live[|live| - 1], pageSize) then 1 else 0
  }

  function Without(live: seq<Range>, r: Range): (rest: seq<Range>)
    requires r in live
    ensures multiset(rest) == multiset(live) - multiset{r}
  {
    var n := |live| - 1;
    assert live == live[..n] + [live[n]];
    if live[n] == r then live[..n] else Without(live[..n], r) + [live[n]]
  }

  lemma CountMore(live: seq<Range>, r: Range, page: nat, pageSize: nat)
    ensures Count(live + [r], page, pageSize) ==
            Count(live, page, pageSize) + if Touches(page, r, pageSize) then 1 else 0
  {
    assert (live + [r])[..|live|] == live;
  }

  lemma {:induction false} CountLess(live: seq<Range>, r: Range, page: nat, pageSize: nat)
    requires r in live
    ensures Count(live, page, pageSize) ==
            Count(Without(live, r), page, pageSize) + if Touches(page, r, pageSize) then 1 else 0
  {
    hide Touches;
    var n := |live| - 1;
    if live[n] != r {
      CountLess(live[..n], r, page, pageSize);
      CountMore(Without(live[..n], r), live[n], page, pageSize);
    }
  }

  // ----- the walk over the pages

  // The loop counter after n steps, in words that hold numbers below `range`.
  function PageAfter(start: nat, n: nat, pageSize: nat, range: nat): nat
    requires range > 0
  {
    Wrap(start + n * pageSize, range)
  }

  // The walk leaves the pages up to `end` exactly when `end` is not the last page there is.
  lemma WalkEnds(start: nat, end: nat, pageSize: nat, pages: nat)
    requires pageSize > 0 && IsPage(start, pageSize) && IsPage(end, pageSize)
    requires start <= end < pages * pageSize
    ensures (exists n: nat :: PageAfter(start, n, pageSize, pages * pageSize) > end)
            <==> end + pageSize < pages * pageSize
  {
    var range := pages * pageSize;
    Aligned(start, pageSize);
    Aligned(end, pageSize);
    var s, e := start / pageSize, end / pageSize;
    OrderKept(s, e, pageSize);
    OrderKept(e + 1, pages, pageSize);
    if end + pageSize < range {
      var n := e + 1 - s;
      assert start + n * pageSize == end + pageSize by { WalkTo(s, e, pageSize); }
      ModUnique(end + pageSize, range, 0, end + pageSize);
      assert PageAfter(start, n, pageSize, range) > end;
    } else {
      forall n: nat ensures PageAfter(start, n, pageSize, range) <= end {
        NeverBeyond(s, n, pageSize, pages);
      }
    }
  }

  lemma WalkTo(s: nat, e: nat, size: nat)
    requires s <= e
    ensures s * size + (e + 1 - s) * size == e * size + size
  {
  }

  lemma OrderKept(a: nat, b: nat, size: nat)
    requires size > 0
    ensures a < b <==> a * size < b * size
    ensures a <= b <==> a * size <= b * size
  {
    if a < b { AtLeastOnce(b, a, size); } else if b < a { AtLeastOnce(a, b, size); }
  }

  // Counting wraps around to a page again, so it is at most the last one.
  lemma NeverBeyond(s: nat, n: nat, size: nat, pages: nat)
    requires size > 0 && pages > 0
    ensures (s * size + n * size) % (pages * size) + size <= pages * size
  {
    var t := s + n;
    var q, r := t / pages, t % pages;
    assert t == q * pages + r;
    assert s * size + n * size == q * (pages * size) + r * size by { Distribute(s, n, q, pages, r, size); }
    AtLeastOnce(pages, r, size);
    ModUnique(s * size + n * size, pages * size, q, r * size);
  }

  lemma Distribute(s: nat, n: nat, q: nat, pages: nat, r: nat, size: nat)
    requires s + n == q * pages + r
    ensures s * size + n * size == q * (pages * size) + r * size
  {
    assert s * size + n * size == (s + n) * size;
    assert (q * pages + r) * size == q * (pages * size) + r * size;
  }

  // ----- the manager

  function At(h: map<nat, nat>, page: nat): nat { if page in h then h[page] else 0 }

  // The histogram after the pages from `from` up to but not including `to` have been counted up.
  ghost predicate CountedUp(h: map<nat, nat>, h0: map<nat, nat>, from: nat, to: nat, pageSize: nat)
    requires pageSize > 0
  {
    && (forall p :: p in h ==> IsPage(p, pageSize) && h[p] > 0)
    && forall p: nat :: IsPage(p, pageSize) ==> At(h, p) == At(h0, p) + if from <= p < to then 1 else 0
  }

  ghost predicate CountedDown(h: map<nat, nat>, h0: map<nat, nat>, from: nat, to: nat, pageSize: nat)
    requires pageSize > 0
  {
    && (forall p :: p in h ==> IsPage(p, pageSize) && h[p] > 0)
    && forall p: nat :: IsPage(p, pageSize) ==> At(h, p) + (if from <= p < to then 1 else 0) == At(h0, p)
  }

  // One count less, and no entry for none.
  function Dropped(h: map<nat, nat>, page: nat): map<nat, nat>
    requires page in h && h[page] > 0
  {
    if h[page] == 1 then h - {page} else h[page := h[page] - 1]
  }

  // One count more.
  function Counted(h: map<nat, nat>, page: nat): map<nat, nat> {
    if page in h then h[page := h[page] + 1] else h[page := 1]
  }

  lemma CountStep(h: map<nat, nat>, h0: map<nat, nat>, from: nat, page: nat, pageSize: nat)
    requires pageSize > 0 && CountedUp(h, h0, from, page, pageSize) && from <= page && IsPage(page, pageSize)
    requires forall p: nat :: IsPage(p, pageSize) && page <= p < page + pageSize ==> p == page
    ensures CountedUp(Counted(h, page), h0, from, page + pageSize, pageSize)
  {
  }

  lemma DropStep(h: map<nat, nat>, h0: map<nat, nat>, from: nat, page: nat, pageSize: nat)
    requires pageSize > 0 && CountedDown(h, h0, from, page, pageSize) && from <= page
    requires IsPage(page, pageSize) && At(h0, page) > 0
    requires forall p: nat :: IsPage(p, pageSize) && page <= p < page + pageSize ==> p == page
    ensures page in h && h[page] > 0
    ensures CountedDown(Dropped(h, page), h0, from, page + pageSize, pageSize)
  {
    assert At(h, page) == At(h0, page);
  }

  /** The counts of a machine with addresses of `width` bits, and what the system holds locked. */
  class Manager {
    const pageBits: nat
    const width: nat
    const pageSize: nat
    const pageMask: nat
    var histogram: map<nat, nat>
    var locked: set<nat>
    ghost var live: seq<Range>

    predicate Shape() {
      pageBits <= width && pageSize == Pow2(pageBits) && pageSize - 1 < Pow2(width)
      && pageMask == Complement(pageSize - 1, width)
    }

    // A page's count is the number of live ranges that touch it, and exactly the pages with a count
    // are locked.
    ghost predicate Valid()
      reads this
    {
      && Shape()
      && (forall p :: p in histogram ==> IsPage(p, pageSize) && histogram[p] > 0)
      && (forall p: nat :: IsPage(p, pageSize) ==> At(histogram, p) == Count(live, p, pageSize))
      && locked == histogram.Keys
    }

    // The range ends before the last page of the address space.
    predicate Fits(base: nat, size: nat) { base + size + pageSize <= Pow2(width) }

    constructor (pageBits: nat, width: nat)
      requires pageBits <= width
      ensures Valid() && live == [] && this.width == width && this.pageBits == pageBits
    {
      Pow2Grows(pageBits, width);
      this.pageBits, this.width := pageBits, width;
      pageSize := Pow2(pageBits);
      pageMask := Complement(Pow2(pageBits) - 1, width);
      histogram, locked, live := map[], {}, [];
    }

    method Pages(base: nat, size: nat) returns (start: nat, end: nat)
      requires Shape() && size > 0 && Fits(base, size)
      ensures start == Down(base, pageSize) && end == Down(base + size - 1, pageSize)
      ensures IsPage(start, pageSize) && IsPage(end, pageSize) && start <= end && end + pageSize < Pow2(width)
    {
      start := And(base, pageMask);
      end := And(base + size - 1, pageMask);
      MaskRoundsDown(base, pageBits, width);
      MaskRoundsDown(base + size - 1, pageBits, width);
      DownFacts(base, base + size - 1, pageSize);
    }

    // Counts up every page of the walk.
    method LockPages(start: nat, end: nat)
      requires Shape() && IsPage(start, pageSize) && IsPage(end, pageSize)
      requires start <= end && end + pageSize < Pow2(width)
      requires CountedUp(histogram, histogram, start, start, pageSize) && locked == histogram.Keys
      modifies this`histogram, this`locked
      ensures CountedUp(histogram, old(histogram), start, end + pageSize, pageSize) && locked == histogram.Keys
    {
      ghost var h0 := histogram;
      hide CountedUp, IsPage, Wrap, Counted;
      var page := start;
      while page <= end
        invariant start <= page <= end + pageSize && IsPage(page, pageSize)
        invariant CountedUp(histogram, h0, start, page, pageSize) && locked == histogram.Keys
        decreases end + pageSize - page
      {
        NextPage(page, pageSize, Pow2(width));
        CountStep(histogram, h0, start, page, pageSize);
        LockPage(page);
        page := Wrap(page + pageSize, Pow2(width));
      }
      Reached(page, end, pageSize);
    }

    method LockPage(page: nat)
      requires locked == histogram.Keys
      modifies this`histogram, this`locked
      ensures histogram == Counted(old(histogram), page) && locked == histogram.Keys
    {
      if page !in histogram {
        locked := locked + {page};
        histogram := histogram[page := 1];
      } else {
        histogram := histogram[page := histogram[page] + 1];
      }
    }

    method LockRange(base: nat, size: nat)
      requires Valid() && (size > 0 ==> Fits(base, size))
      modifies this
      ensures Valid()
      ensures live == if size == 0 then old(live) else old(live) + [Range(base, size)]
    {
      if size == 0 {
        return;
      }
      ghost var h0, r := histogram, Range(base, size);
      var start, end := Pages(base, size);
      LockPages(start, end);
      forall p: nat | IsPage(p, pageSize) ensures At(histogram, p) == Count(live + [r], p, pageSize) {
        TouchedPages(p, r, pageSize);
        CountMore(live, r, p, pageSize);
        Between(p, start, end, pageSize);
      }
      live := live + [r];
    }

    // Counts down every page of the walk; none of them is without a count.
    method UnlockPages(start: nat, end: nat)
      requires Shape() && IsPage(start, pageSize) && IsPage(end, pageSize)
      requires start <= end && end + pageSize < Pow2(width)
      requires CountedDown(histogram, histogram, start, start, pageSize) && locked == histogram.Keys
      requires forall p: nat :: IsPage(p, pageSize) && start <= p <= end ==> At(histogram, p) > 0
      modifies this`histogram, this`locked
      ensures CountedDown(histogram, old(histogram), start, end + pageSize, pageSize) && locked == histogram.Keys
    {
      ghost var h0 := histogram;
      hide CountedDown, IsPage, Wrap, Dropped;
      var page := start;
      while page <= end
        invariant start <= page <= end + pageSize && IsPage(page, pageSize)
        invariant CountedDown(histogram, h0, start, page, pageSize) && locked == histogram.Keys
        decreases end + pageSize - page
      {
        NextPage(page, pageSize, Pow2(width));
        DropStep(histogram, h0, start, page, pageSize);
        UnlockPage(page);
        page := Wrap(page + pageSize, Pow2(width));
      }
      Reached(page, end, pageSize);
    }

    method UnlockPage(page: nat)
      requires page in histogram && histogram[page] > 0 && locked == histogram.Keys
      modifies this`histogram, this`locked
      ensures histogram == Dropped(old(histogram), page) && locked == histogram.Keys
    {
      histogram := histogram[page := histogram[page] - 1];
      if histogram[page] == 0 {
        locked := locked - {page};
        histogram := histogram - {page};
      }
      assert histogram == Dropped(old(histogram), page);
    }

    // Unlocking has to match a live range.
    method UnlockRange(base: nat, size: nat)
      requires Valid() && (size > 0 ==> Fits(base, size) && Range(base, size) in live)
      modifies this
      ensures Valid()
      ensures live == if size == 0 then old(live) else Without(old(live), Range(base, size))
    {
      if size == 0 {
        return;
      }
      ghost var h0, r := histogram, Range(base, size);
      var start, end := Pages(base, size);
      forall p: nat | IsPage(p, pageSize) && start <= p <= end ensures At(histogram, p) > 0 {
        TouchedPages(p, r, pageSize);
        CountLess(live, r, p, pageSize);
      }
      UnlockPages(start, end);
      forall p: nat | IsPage(p, pageSize) ensures At(histogram, p) == Count(Without(live, r), p, pageSize) {
        TouchedPages(p, r, pageSize);
        CountLess(live, r, p, pageSize);
        Between(p, start, end, pageSize);
      }
      live := Without(live, r);
    }

    method GetLockedPageCount() returns (n: nat)
      requires Valid()
      ensures n == |locked|
    {
      n := |histogram|;
    }

    // The system holds a page locked exactly when a live range has a byte on it.
    lemma LockedExactly(page: nat)
      requires Valid() && IsPage(page, pageSize)
      ensures page in locked <==> exists i :: 0 <= i < |live| && Touches(page, live[i], pageSize)
    {
      CountPositive(live, page, pageSize);
    }
  }

  lemma {:induction false} CountPositive(live: seq<Range>, page: nat, pageSize: nat)
    ensures Count(live, page, pageSize) > 0 <==> exists i :: 0 <= i < |live| && Touches(page, live[i], pageSize)
  {
    hide Touches;
    if live != [] {
      var n := |live| - 1;
      CountPositive(live[..n], page, pageSize);
      assert forall i :: 0 <= i < n ==> live[..n][i] == live[i];
    }
  }

  lemma DownFacts(a: nat, b: nat, size: nat)
    requires size > 0 && a <= b
    ensures IsPage(Down(a, size), size) && IsPage(Down(b, size), size)
    ensures Down(a, size) <= Down(b, size) <= b
  {
    ModUnique(Down(a, size), size, a / size, 0);
    ModUnique(Down(b, size), size, b / size, 0);
    DownBelow(a, size, a / size);
    DownBelow(b, size, a / size);
    DownBelow(b, size, b / size);
  }

  lemma NextPage(page: nat, size: nat, range: nat)
    requires size > 0 && IsPage(page, size) && page + size < range
    ensures Wrap(page + size, range) == page + size && IsPage(page + size, size)
    ensures forall p: nat :: IsPage(p, size) && page <= p < page + size ==> p == page
  {
    ModUnique(page + size, range, 0, page + size);
    Aligned(page, size);
    ModUnique(page + size, size, page / size + 1, 0);
    forall p: nat | IsPage(p, size) && page <= p < page + size ensures p == page {
      OneAligned(p, page, size);
    }
  }

  // The walk stops one page after the last.
  lemma Reached(page: nat, end: nat, size: nat)
    requires size > 0 && IsPage(page, size) && IsPage(end, size) && end < page <= end + size
    ensures page == end + size
  {
    if page < end + size { OneAligned(page, end, size); }
  }

  lemma Between(p: nat, start: nat, end: nat, size: nat)
    requires size > 0 && IsPage(p, size) && IsPage(end, size)
    ensures p < end + size <==> p <= end
  {
    if end <= p < end + size { OneAligned(p, end, size); }
  }
}

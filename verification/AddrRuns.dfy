/** Whole runs of the address manager, seen on the book: what every step keeps. */
module AddrRuns {
  import opened AddrTypes
  import opened AddrBook
  import opened FiniteSets

  datatype Op =
    | Add(addr: Address, source: NetAddr, penalty: int, now: int, clock: Clock, luck: nat, added: bool)
    | Good(svc: Service, time: int)
    | Attempt(svc: Service, time: int)
    | Connect(svc: Service, time: int)
    | GetAddr

  ghost predicate Step(h: Hashing, key: Bytes, v: Book, op: Op, v': Book) {
    match op
    case Add(addr, source, penalty, now, clock, luck, added) =>
      AddStep(h, key, v, addr, source, penalty, now, clock, luck, v', added)
    case Good(svc, time) => time > 0 && GoodStep(h, key, v, svc, time, v')
    case Attempt(svc, time) => time >= 0 && AttemptStep(v, svc, time, v')
    case Connect(svc, time) => ConnectedStep(v, svc, time, v')
    case GetAddr => v' == v
  }

  // books[i] is the book before step i; the first one is empty.
  ghost predicate Run(h: Hashing, key: Bytes, books: seq<Book>, ops: seq<Op>) {
    && |books| == |ops| + 1
    && books[0] == map[]
    && forall i :: 0 <= i < |ops| ==> Step(h, key, books[i], ops[i], books[i + 1])
  }

  // ----- sizes

  ghost predicate SizesOk(h: Hashing, key: Bytes, v: Book) {
    && (forall b: nat :: |TriedIn(h, key, v, b)| <= TRIED_BUCKET_SIZE)
    && (forall b: nat :: |NewIn(v, b)| <= NEW_BUCKET_SIZE)
  }

  ghost predicate AllKnownOk(v: Book) {
    forall a :: a in v ==> KnownOk(a, v[a])
  }

  // A change that moves no address between buckets.
  lemma SamePlacesSizes(h: Hashing, key: Bytes, v: Book, a: NetAddr, k: Known)
    requires SizesOk(h, key, v) && a in v && k.place == v[a].place && k.addr.svc == v[a].addr.svc
    ensures SizesOk(h, key, v[a := k])
  {
    var v' := v[a := k];
    forall b: nat ensures |TriedIn(h, key, v', b)| <= TRIED_BUCKET_SIZE && |NewIn(v', b)| <= NEW_BUCKET_SIZE {
      assert TriedIn(h, key, v', b) == TriedIn(h, key, v, b);
      assert NewIn(v', b) == NewIn(v, b);
    }
  }

  lemma InPlaced(h: Hashing, key: Bytes, v: Book, a: NetAddr, b: nat, c: nat)
    requires a in v && v[a].place.New?
    ensures TriedIn(h, key, Placed(v, a, b), c) <= TriedIn(h, key, v, c)
    ensures NewIn(Placed(v, a, b), c) <= NewIn(v, c) + {a}
    ensures c != b ==> NewIn(Placed(v, a, b), c) <= NewIn(v, c)
  {
  }

  lemma PlacedSizes(h: Hashing, key: Bytes, v: Book, a: NetAddr, b: nat)
    requires SizesOk(h, key, v) && a in v && v[a].place.New? && |NewIn(v, b)| < NEW_BUCKET_SIZE
    ensures SizesOk(h, key, Placed(v, a, b))
  {
    hide TriedIn, NewIn, Placed;
    var v' := Placed(v, a, b);
    forall c: nat ensures |TriedIn(h, key, v', c)| <= TRIED_BUCKET_SIZE && |NewIn(v', c)| <= NEW_BUCKET_SIZE {
      InPlaced(h, key, v, a, b, c);
      Fewer(TriedIn(h, key, v', c), TriedIn(h, key, v, c));
      AtMostOneMore(NewIn(v', c), NewIn(v, c), a);
      if c != b { Fewer(NewIn(v', c), NewIn(v, c)); }
    }
  }

  lemma InDropped(h: Hashing, key: Bytes, v: Book, x: NetAddr, b: nat, c: nat)
    requires x in v && v[x].place.New?
    ensures TriedIn(h, key, Dropped(v, x, b), c) <= TriedIn(h, key, v, c)
    ensures NewIn(Dropped(v, x, b), c) <= NewIn(v, c)
    ensures x !in NewIn(Dropped(v, x, b), b)
  {
  }

  lemma DroppedSizes(h: Hashing, key: Bytes, v: Book, x: NetAddr, b: nat)
    requires SizesOk(h, key, v) && x in NewIn(v, b)
    ensures x in v && v[x].place.New? && SizesOk(h, key, Dropped(v, x, b))
    ensures |NewIn(Dropped(v, x, b), b)| < |NewIn(v, b)|
  {
    assert x in v && v[x].place.New?;
    hide TriedIn, NewIn, Dropped;
    var v' := Dropped(v, x, b);
    forall c: nat ensures |TriedIn(h, key, v', c)| <= TRIED_BUCKET_SIZE && |NewIn(v', c)| <= NEW_BUCKET_SIZE {
      InDropped(h, key, v, x, b, c);
      Fewer(TriedIn(h, key, v', c), TriedIn(h, key, v, c));
      Fewer(NewIn(v', c), NewIn(v, c));
    }
    InDropped(h, key, v, x, b, b);
    OneLess(NewIn(v', b), NewIn(v, b), x);
  }

  lemma PlaceSizes(h: Hashing, key: Bytes, v: Book, a: NetAddr, b: nat, clock: Clock, v': Book)
    requires SizesOk(h, key, v) && a in v && v[a].place.New? && PlaceStep(v, a, b, clock, v')
    ensures SizesOk(h, key, v')
  {
    if b in v[a].place.buckets {
    } else if |NewIn(v, b)| < NEW_BUCKET_SIZE {
      PlacedSizes(h, key, v, a, b);
    } else {
      var victim :| MayDrop(v, b, victim, clock) && v' == Placed(Dropped(v, victim, b), a, b);
      DroppedSizes(h, key, v, victim, b);
      PlacedSizes(h, key, Dropped(v, victim, b), a, b);
    }
  }

  // Address a has just become tried: one more in its tried bucket, none more anywhere else.
  lemma InPromoted(h: Hashing, key: Bytes, v: Book, a: NetAddr, c: nat)
    requires a in v && v[a].place.New?
    ensures var promoted := v[a := v[a].(place := Tried)];
            && TriedIn(h, key, promoted, c) <= TriedIn(h, key, v, c) + {a}
            && (c != h.TriedBucket(key, v[a].addr.svc) ==> TriedIn(h, key, promoted, c) <= TriedIn(h, key, v, c))
            && NewIn(promoted, c) <= NewIn(v, c)
            && a !in NewIn(promoted, c)
  {
  }

  lemma InEvicted(h: Hashing, key: Bytes, v: Book, a: NetAddr, victim: NetAddr, dest: nat, c: nat)
    requires a in v && v[a].place.New?
    requires victim in TriedIn(h, key, v, h.TriedBucket(key, v[a].addr.svc))
    ensures victim in v
    ensures var promoted := v[a := v[a].(place := Tried)];
            var v' := promoted[victim := v[victim].(place := New({dest}))];
            && TriedIn(h, key, v', c) <= (TriedIn(h, key, v, c) - {victim}) + {a}
            && (c != h.TriedBucket(key, v[a].addr.svc) ==> TriedIn(h, key, v', c) <= TriedIn(h, key, v, c))
            && NewIn(v', c) <= NewIn(promoted, c) + {victim}
            && (c != dest ==> NewIn(v', c) <= NewIn(promoted, c))
  {
  }

  lemma PromoteSizes(h: Hashing, key: Bytes, v: Book, a: NetAddr, v': Book)
    requires SizesOk(h, key, v) && a in v && v[a].place.New? && PromoteStep(h, key, v, a, v')
    ensures SizesOk(h, key, v')
  {
    var t := h.TriedBucket(key, v[a].addr.svc);
    var promoted := v[a := v[a].(place := Tried)];
    var peers := TriedIn(h, key, v, t);
    if |peers| < TRIED_BUCKET_SIZE {
      hide TriedIn, NewIn;
      forall c: nat ensures |TriedIn(h, key, v', c)| <= TRIED_BUCKET_SIZE && |NewIn(v', c)| <= NEW_BUCKET_SIZE {
        InPromoted(h, key, v, a, c);
        Fewer(NewIn(v', c), NewIn(v, c));
        AtMostOneMore(TriedIn(h, key, v', c), TriedIn(h, key, v, c), a);
        if c != t { Fewer(TriedIn(h, key, v', c), TriedIn(h, key, v, c)); }
      }
    } else {
      var victim :| victim in peers && Evicts(h, key, promoted, v[a].place.buckets, victim, v');
      var dest := EvictedTo(h, key, v, a, victim, v');
      forall c: nat ensures |TriedIn(h, key, v', c)| <= TRIED_BUCKET_SIZE && |NewIn(v', c)| <= NEW_BUCKET_SIZE {
        EvictedSizes(h, key, v, a, victim, dest, c);
      }
    }
  }

  lemma EvictedSizes(h: Hashing, key: Bytes, v: Book, a: NetAddr, victim: NetAddr, dest: nat, c: nat)
    requires SizesOk(h, key, v) && a in v && v[a].place.New? && victim in v
    requires victim in TriedIn(h, key, v, h.TriedBucket(key, v[a].addr.svc))
    requires |NewIn(v[a := v[a].(place := Tried)], dest)| < NEW_BUCKET_SIZE
    ensures var v' := v[a := v[a].(place := Tried)][victim := v[victim].(place := New({dest}))];
            |TriedIn(h, key, v', c)| <= TRIED_BUCKET_SIZE && |NewIn(v', c)| <= NEW_BUCKET_SIZE
  {
    hide TriedIn, NewIn;
    var promoted := v[a := v[a].(place := Tried)];
    var v' := promoted[victim := v[victim].(place := New({dest}))];
    InPromoted(h, key, v, a, c);
    Fewer(NewIn(promoted, c), NewIn(v, c));
    InEvicted(h, key, v, a, victim, dest, c);
    if c == dest {
      AtMostOneMore(NewIn(v', c), NewIn(promoted, c), victim);
    } else {
      Fewer(NewIn(v', c), NewIn(promoted, c));
    }
    if c == h.TriedBucket(key, v[a].addr.svc) {
      AtMostOneMore(TriedIn(h, key, v', c), TriedIn(h, key, v, c) - {victim}, a);
      OneLess(TriedIn(h, key, v, c) - {victim}, TriedIn(h, key, v, c), victim);
    } else {
      Fewer(TriedIn(h, key, v', c), TriedIn(h, key, v, c));
    }
  }

  // The evicted address goes to one new bucket, and there is room for it there.
  lemma EvictedTo(h: Hashing, key: Bytes, v: Book, a: NetAddr, victim: NetAddr, v': Book) returns (dest: nat)
    requires SizesOk(h, key, v) && a in v && v[a].place.New?
    requires victim in v && v[victim].place.Tried?
    requires Evicts(h, key, v[a := v[a].(place := Tried)], v[a].place.buckets, victim, v')
    ensures v' == v[a := v[a].(place := Tried)][victim := v[victim].(place := New({dest}))]
    ensures |NewIn(v[a := v[a].(place := Tried)], dest)| < NEW_BUCKET_SIZE
    ensures dest < NEW_BUCKET_COUNT || dest in v[a].place.buckets
  {
    var promoted := v[a := v[a].(place := Tried)];
    var home := h.NewBucket(key, victim, v[victim].source);
    if |NewIn(promoted, home)| < NEW_BUCKET_SIZE {
      dest := home;
    } else {
      dest :| dest in v[a].place.buckets && v' == promoted[victim := promoted[victim].(place := New({dest}))];
      InPromoted(h, key, v, a, dest);
      OneLess(NewIn(promoted, dest), NewIn(v, dest), a);
    }
  }

  // ----- every step keeps the book well formed

  lemma DroppedKnownOk(v: Book, x: NetAddr, b: nat)
    requires x in v && v[x].place.New? && b in v[x].place.buckets && KnownOk(x, v[x])
    ensures x in Dropped(v, x, b) ==> KnownOk(x, Dropped(v, x, b)[x])
    ensures forall y :: y in v && y != x ==> y in Dropped(v, x, b) && Dropped(v, x, b)[y] == v[y]
    ensures forall y :: y in Dropped(v, x, b) ==> y in v
  {
    var bs := v[x].place.buckets;
    Fewer(bs - {b}, bs);
    if bs - {b} == {} { assert bs == {b}; }
  }

  lemma PlacedKnownOk(v: Book, a: NetAddr, b: nat)
    requires (forall x :: x in v && x != a ==> KnownOk(x, v[x])) && a in v && v[a].place.New?
    requires v[a].addr.svc.net == a && v[a].addr.lastTry >= 0 && v[a].lastSuccess >= 0
    requires |v[a].place.buckets| < NEW_BUCKETS_PER_ADDRESS
             && forall c :: c in v[a].place.buckets ==> c < NEW_BUCKET_COUNT
    requires b < NEW_BUCKET_COUNT
    ensures AllKnownOk(Placed(v, a, b))
  {
    assert b in v[a].place.buckets + {b};
  }

  lemma PlaceKnownOk(v: Book, a: NetAddr, b: nat, clock: Clock, v': Book)
    requires (forall x :: x in v && x != a ==> KnownOk(x, v[x])) && a in v && v[a].place.New?
    requires v[a].addr.svc.net == a && v[a].addr.lastTry >= 0 && v[a].lastSuccess >= 0
    requires |v[a].place.buckets| < NEW_BUCKETS_PER_ADDRESS
             && forall c :: c in v[a].place.buckets ==> c < NEW_BUCKET_COUNT
    requires b < NEW_BUCKET_COUNT && PlaceStep(v, a, b, clock, v')
    ensures AllKnownOk(v')
  {
    if b in v[a].place.buckets {
      assert v[a].place.buckets != {};
    } else if |NewIn(v, b)| < NEW_BUCKET_SIZE {
      PlacedKnownOk(v, a, b);
    } else {
      var victim :| MayDrop(v, b, victim, clock) && v' == Placed(Dropped(v, victim, b), a, b);
      DroppedKnownOk(v, victim, b);
      hide Dropped;
      PlacedKnownOk(Dropped(v, victim, b), a, b);
    }
  }

  lemma ReferenceKeepsOk(h: Hashing, key: Bytes, v: Book, addr: Address, b: nat, clock: Clock, v': Book)
    requires AllKnownOk(v) && SizesOk(h, key, v) && addr.svc.net in v && b < NEW_BUCKET_COUNT
    requires MayAddReference(v[addr.svc.net], addr) && PlaceStep(v, addr.svc.net, b, clock, v')
    ensures AllKnownOk(v') && SizesOk(h, key, v')
  {
    assert KnownOk(addr.svc.net, v[addr.svc.net]);
    PlaceSizes(h, key, v, addr.svc.net, b, clock, v');
    PlaceKnownOk(v, addr.svc.net, b, clock, v');
  }

  lemma FirstKeepsOk(h: Hashing, key: Bytes, v: Book, a: NetAddr, k: Known, b: nat, clock: Clock,
                    v': Book)
    requires AllKnownOk(v) && SizesOk(h, key, v) && a !in v && b < NEW_BUCKET_COUNT
    requires k.place == New({}) && k.addr.svc.net == a && k.addr.lastTry == 0 && k.lastSuccess == 0
    requires PlaceStep(v[a := k], a, b, clock, v')
    ensures AllKnownOk(v') && SizesOk(h, key, v')
  {
    var v1 := v[a := k];
    assert SizesOk(h, key, v1) by {
      forall c: nat ensures |TriedIn(h, key, v1, c)| <= TRIED_BUCKET_SIZE && |NewIn(v1, c)| <= NEW_BUCKET_SIZE {
        Fewer(TriedIn(h, key, v1, c), TriedIn(h, key, v, c));
        Fewer(NewIn(v1, c), NewIn(v, c));
      }
    }
    PlaceSizes(h, key, v1, a, b, clock, v');
    PlaceKnownOk(v1, a, b, clock, v');
  }

  lemma AddKeepsOk(h: Hashing, key: Bytes, v: Book, op: Op, v': Book)
    requires AllKnownOk(v) && SizesOk(h, key, v) && op.Add? && Step(h, key, v, op, v')
    ensures AllKnownOk(v') && SizesOk(h, key, v')
  {
    hide SizesOk, PlaceStep;
    var Add(addr, source, penalty, now, clock, luck, added) := op;
    var a := addr.svc.net;
    var b := h.NewBucket(key, a, source);
    if h.routable(a) {
      if a in v {
        var k := Reannounced(v[a], addr, penalty, now);
        var v1 := v[a := k];
        assert KnownOk(a, v[a]);
        SamePlacesSizes(h, key, v, a, k);
        if v' != v1 {
          ReferenceKeepsOk(h, key, v1, addr, b, clock, v');
        }
      } else {
        FirstKeepsOk(h, key, v, a, FirstSeen(addr, source, penalty), b, clock, v');
      }
    }
  }

  lemma GoodKeepsOk(h: Hashing, key: Bytes, v: Book, op: Op, v': Book)
    requires AllKnownOk(v) && SizesOk(h, key, v) && op.Good? && Step(h, key, v, op, v')
    ensures AllKnownOk(v') && SizesOk(h, key, v')
  {
    var Good(svc, time) := op;
    if Matches(v, svc) {
      var a := svc.net;
      var v1 := v[a := Succeeded(v[a], time)];
      SamePlacesSizes(h, key, v, a, Succeeded(v[a], time));
      if v1[a].place.New? {
        PromoteSizes(h, key, v1, a, v');
        PromoteKnownOk(h, key, v1, a, v');
      }
    }
  }

  lemma PromoteKnownOk(h: Hashing, key: Bytes, v: Book, a: NetAddr, v': Book)
    requires AllKnownOk(v) && SizesOk(h, key, v) && a in v && v[a].place.New? && v[a].lastSuccess > 0
    requires PromoteStep(h, key, v, a, v')
    ensures AllKnownOk(v')
  {
    hide SizesOk, NewIn, Evicts, KnownOk;
    var peers := TriedIn(h, key, v, h.TriedBucket(key, v[a].addr.svc));
    assert KnownOk(a, v[a]);
    TriedKnownOk(a, v[a]);
    if |peers| >= TRIED_BUCKET_SIZE {
      var victim :| victim in peers && Evicts(h, key, v[a := v[a].(place := Tried)], v[a].place.buckets, victim, v');
      assert victim in v && v[victim].place.Tried?;
      assert KnownOk(victim, v[victim]);
      var dest := EvictedTo(h, key, v, a, victim, v');
      BucketsInRange(a, v[a]);
      EvictedKnownOk(victim, v[victim], dest);
    }
  }

  lemma TriedKnownOk(a: NetAddr, k: Known)
    requires KnownOk(a, k) && k.lastSuccess > 0
    ensures KnownOk(a, k.(place := Tried))
  {
  }

  lemma BucketsInRange(a: NetAddr, k: Known)
    requires KnownOk(a, k) && k.place.New?
    ensures forall b :: b in k.place.buckets ==> b < NEW_BUCKET_COUNT
  {
  }

  lemma EvictedKnownOk(a: NetAddr, k: Known, dest: nat)
    requires KnownOk(a, k) && k.place.Tried? && dest < NEW_BUCKET_COUNT
    ensures KnownOk(a, k.(place := New({dest})))
  {
  }

  lemma StepKeepsOk(h: Hashing, key: Bytes, v: Book, op: Op, v': Book)
    requires BookOk(h, key, v) && Step(h, key, v, op, v')
    ensures BookOk(h, key, v')
  {
    match op
    case Add(_, _, _, _, _, _, _) => AddKeepsOk(h, key, v, op, v');
    case Good(_, _) => GoodKeepsOk(h, key, v, op, v');
    case Attempt(svc, time) =>
      if Matches(v, svc) { SamePlacesSizes(h, key, v, svc.net, Attempted(v[svc.net], time)); }
    case Connect(svc, time) =>
      if Matches(v, svc) { SamePlacesSizes(h, key, v, svc.net, Connected(v[svc.net], time)); }
    case GetAddr =>
  }

  // ----- the promises over whole runs

  lemma {:induction false} RunKeepsOk(h: Hashing, key: Bytes, books: seq<Book>, ops: seq<Op>, i: nat)
    requires Run(h, key, books, ops) && i < |books|
    ensures BookOk(h, key, books[i])
  {
    if i == 0 {
      forall b: nat ensures TriedIn(h, key, map[], b) == {} && NewIn(map[], b) == {} { }
    } else {
      RunKeepsOk(h, key, books, ops, i - 1);
      assert Step(h, key, books[i - 1], ops[i - 1], books[i - 1 + 1]);
      StepKeepsOk(h, key, books[i - 1], ops[i - 1], books[i]);
    }
  }

  // What a success can do to another address: nothing, or send it back to one new bucket.
  lemma GoodOthers(h: Hashing, key: Bytes, v: Book, svc: Service, time: int, v': Book, x: NetAddr)
    requires GoodStep(h, key, v, svc, time, v') && x in v
    ensures x in v'
    ensures x != svc.net ==> v'[x] == v[x] || (v[x].place.Tried? && exists b: nat :: v'[x] == v[x].(place := New({b})))
    ensures x == svc.net && Matches(v, svc) ==> v'[x].place.Tried?
  {
    if Matches(v, svc) && v[svc.net].place.New? {
      var v1 := v[svc.net := Succeeded(v[svc.net], time)];
      var promoted := v1[svc.net := v1[svc.net].(place := Tried)];
      var peers := TriedIn(h, key, v1, h.TriedBucket(key, svc));
      if |peers| >= TRIED_BUCKET_SIZE {
        var victim :| victim in peers && Evicts(h, key, promoted, v1[svc.net].place.buckets, victim, v');
        if |NewIn(promoted, h.NewBucket(key, victim, v[victim].source))| >= NEW_BUCKET_SIZE {
          var origin: nat :| origin in v1[svc.net].place.buckets &&
                             v' == promoted[victim := promoted[victim].(place := New({origin}))];
        }
      }
    }
  }

  ghost predicate Untouched(v: Book, v': Book, x: NetAddr) {
    x in v && x in v' && v'[x] == v[x]
  }

  // x has lost its place in new bucket b, and is forgotten if that was its last one.
  ghost predicate LostPlace(v: Book, v': Book, x: NetAddr, b: nat) {
    && x in v && v[x].place.New? && b in v[x].place.buckets
    && if v[x].place.buckets == {b} then x !in v'
       else x in v' && v'[x] == v[x].(place := New(v[x].place.buckets - {b}))
  }

  lemma PlaceOthers(v: Book, a: NetAddr, b: nat, clock: Clock, v': Book, x: NetAddr, y: NetAddr)
    requires a in v && v[a].place.New? && PlaceStep(v, a, b, clock, v')
    requires x in v && x != a && y in v && y != a
    ensures a in v' && v'[a].place.New?
    ensures Untouched(v, v', x) || (LostPlace(v, v', x, b) && MayDrop(v, b, x, clock) && a !in NewIn(v, b))
    ensures x != y ==> Untouched(v, v', x) || Untouched(v, v', y)
  {
    if b !in v[a].place.buckets && |NewIn(v, b)| >= NEW_BUCKET_SIZE {
      var victim :| MayDrop(v, b, victim, clock) && v' == Placed(Dropped(v, victim, b), a, b);
    }
  }

  // What may go from a bucket does not depend on an address that is not in it.
  lemma DropBefore(v: Book, a: NetAddr, k: Known, b: nat, x: NetAddr, clock: Clock)
    requires a in v ==> k.place == v[a].place
    ensures MayDrop(v[a := k], b, x, clock) && a !in NewIn(v[a := k], b) && x != a ==> MayDrop(v, b, x, clock)
  {
    if a !in NewIn(v[a := k], b) && (a in v || k.place.Tried? || b !in k.place.buckets) {
      assert forall y :: y in NewIn(v[a := k], b) ==> y in NewIn(v, b) && y != a;
      assert forall y :: y in NewIn(v, b) ==> y in NewIn(v[a := k], b) && y != a;
    }
  }

  // An announcement touches at most one other address, and that one loses one place in the
  // bucket the announced address went to: it is terrible, or no address in the bucket is.
  lemma AddOthers(h: Hashing, key: Bytes, v: Book, op: Op, v': Book, x: NetAddr, y: NetAddr)
    requires op.Add? && Step(h, key, v, op, v')
    requires x in v && x != op.addr.svc.net && y in v && y != op.addr.svc.net
    ensures var b := h.NewBucket(key, op.addr.svc.net, op.source);
            Untouched(v, v', x) || (LostPlace(v, v', x, b) && MayDrop(v, b, x, op.clock))
    ensures x != y ==> Untouched(v, v', x) || Untouched(v, v', y)
  {
    var a, b := op.addr.svc.net, h.NewBucket(key, op.addr.svc.net, op.source);
    if h.routable(a) {
      if a in v {
        var v1 := v[a := Reannounced(v[a], op.addr, op.penalty, op.now)];
        if v' != v1 {
          PlaceOthers(v1, a, b, op.clock, v', x, y);
          DropBefore(v, a, v1[a], b, x, op.clock);
        }
      } else {
        var k := FirstSeen(op.addr, op.source, op.penalty);
        PlaceOthers(v[a := k], a, b, op.clock, v', x, y);
        DropBefore(v, a, k, b, x, op.clock);
      }
    }
  }

  // An address is never deleted while tried: only another address's success can move it,
  // and then back to a single new bucket.
  lemma TriedNeverForgotten(h: Hashing, key: Bytes, v: Book, op: Op, v': Book, a: NetAddr)
    requires Step(h, key, v, op, v') && a in v && v[a].place.Tried?
    ensures a in v'
    ensures v'[a].place.Tried? || (op.Good? && exists b: nat :: v'[a] == v[a].(place := New({b})))
  {
    match op
    case Good(svc, time) => GoodOthers(h, key, v, svc, time, v', a);
    case Add(addr, _, _, _, _, _, _) =>
      if a != addr.svc.net {
        AddOthers(h, key, v, op, v', a, a);
      } else {
        KnownStays(h, key, v, op, v');
      }
    case _ =>
  }

  lemma KnownStays(h: Hashing, key: Bytes, v: Book, op: Op, v': Book)
    requires op.Add? && Step(h, key, v, op, v') && op.addr.svc.net in v
    ensures op.addr.svc.net in v' && v'[op.addr.svc.net].place.Tried? == v[op.addr.svc.net].place.Tried?
  {
    var a, b := op.addr.svc.net, h.NewBucket(key, op.addr.svc.net, op.source);
    if h.routable(a) {
      var v1 := v[a := Reannounced(v[a], op.addr, op.penalty, op.now)];
      if v' != v1 && b !in v1[a].place.buckets && |NewIn(v1, b)| >= NEW_BUCKET_SIZE {
        var victim :| MayDrop(v1, b, victim, op.clock) && v' == Placed(Dropped(v1, victim, b), a, b);
      }
    }
  }

  // Only an announcement deletes, and then one address at most: one whose last place was in
  // the full bucket the announced address went to.
  lemma OnlyAddForgets(h: Hashing, key: Bytes, v: Book, op: Op, v': Book, x: NetAddr, y: NetAddr)
    requires Step(h, key, v, op, v') && x in v && x !in v'
    ensures op.Add? && v[x].place == New({h.NewBucket(key, op.addr.svc.net, op.source)})
    ensures MayDrop(v, h.NewBucket(key, op.addr.svc.net, op.source), x, op.clock)
    ensures y in v && y !in v' ==> y == x
  {
    match op
    case Good(svc, time) => GoodOthers(h, key, v, svc, time, v', x);
    case Add(addr, source, _, _, _, _, _) =>
      if addr.svc.net in v { KnownStays(h, key, v, op, v'); }
      if y in v && y != addr.svc.net {
        AddOthers(h, key, v, op, v', x, y);
      } else {
        AddOthers(h, key, v, op, v', x, x);
      }
    case _ =>
  }

  // ----- the total bound

  function TriedBelow(h: Hashing, key: Bytes, v: Book, n: nat): set<NetAddr> {
    set a | a in v && v[a].place.Tried? && h.TriedBucket(key, v[a].addr.svc) < n
  }

  function NewBelow(v: Book, n: nat): set<NetAddr> {
    set a | a in v && v[a].place.New? && exists b: nat :: b in v[a].place.buckets && b < n
  }

  lemma TriedBelowNone(h: Hashing, key: Bytes, v: Book)
    ensures TriedBelow(h, key, v, 0) == {}
  {
  }

  lemma TriedBelowNext(h: Hashing, key: Bytes, v: Book, n: nat)
    ensures TriedBelow(h, key, v, n + 1) <= TriedBelow(h, key, v, n) + TriedIn(h, key, v, n)
  {
  }

  lemma {:induction false} TriedBound(h: Hashing, key: Bytes, v: Book, n: nat)
    requires forall b: nat :: |TriedIn(h, key, v, b)| <= TRIED_BUCKET_SIZE
    ensures |TriedBelow(h, key, v, n)| <= 64 * n
  {
    hide TriedBelow, TriedIn;
    if n == 0 {
      TriedBelowNone(h, key, v);
    } else {
      var m := n - 1;
      TriedBound(h, key, v, m);
      TriedBelowNext(h, key, v, m);
      UnionBound(TriedBelow(h, key, v, m + 1), TriedBelow(h, key, v, m), TriedIn(h, key, v, m));
    }
  }

  lemma {:induction false} NewBound(h: Hashing, key: Bytes, v: Book, n: nat)
    requires SizesOk(h, key, v)
    ensures |NewBelow(v, n)| <= 64 * n
  {
    if n == 0 {
      assert NewBelow(v, n) == {};
    } else {
      NewBound(h, key, v, n - 1);
      UnionBound(NewBelow(v, n), NewBelow(v, n - 1), NewIn(v, n - 1));
    }
  }

  lemma BookBounded(h: Hashing, key: Bytes, v: Book)
    requires BookOk(h, key, v)
    ensures |v| <= 64 * 64 + 256 * 64
  {
    var tried, news := TriedBelow(h, key, v, TRIED_BUCKET_COUNT), NewBelow(v, NEW_BUCKET_COUNT);
    TriedBound(h, key, v, TRIED_BUCKET_COUNT);
    NewBound(h, key, v, NEW_BUCKET_COUNT);
    forall a | a in v ensures a in tried + news {
      assert KnownOk(a, v[a]);
      if v[a].place.New? {
        assert v[a].place.buckets != {};
        var b :| b in v[a].place.buckets;
      }
    }
    assert v.Keys <= tried + news;
    Fewer(v.Keys, tried + news);
    assert |v| == |v.Keys|;
  }

  // In every run every bucket holds at most 64 addresses and the whole book at most 20480.
  lemma RunBounded(h: Hashing, key: Bytes, books: seq<Book>, ops: seq<Op>, i: nat)
    requires Run(h, key, books, ops) && i < |books|
    ensures |books[i]| <= 64 * 64 + 256 * 64
    ensures forall b: nat ::
              |TriedIn(h, key, books[i], b)| <= 64 && |NewIn(books[i], b)| <= 64
  {
    RunKeepsOk(h, key, books, ops, i);
    BookBounded(h, key, books[i]);
  }
}

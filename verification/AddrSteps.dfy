/** What single steps on the book come to for the address they are about, in full. */
module AddrSteps {
  import opened AddrTypes
  import opened Arith
  import opened AddrBook
  import opened AddrRuns

  // When an address may be thrown away: never within a minute of a try; else when it is stamped ten
  // minutes ahead, not seen for thirty days, tried three times without a success, or ten times without
  // one in the last week.
  lemma TerribleExactly(addr: Address, lastSuccess: int, attempts: int, now: int)
    ensures TerribleAt(addr, lastSuccess, attempts, now) <==>
              && (addr.lastTry == 0 || now - addr.lastTry > 60)
              && (addr.time - now > 600 || addr.time == 0 || now - addr.time > 2592000 ||
                  (lastSuccess == 0 && attempts >= 3) || (now - lastSuccess > 604800 && attempts >= 10))
  {
  }

  // An address seen in the last month that has failed less than three times stays.
  lemma FreshStays(v: Book, b: nat, a: NetAddr, clock: Clock)
    requires a in v && v[a].attempts < 3 && v[a].addr.time > 0
    requires clock(a) - 2592000 <= v[a].addr.time <= clock(a) + 600
    requires MayDrop(v, b, a, clock)
    ensures forall x :: x in NewIn(v, b) ==> !Terrible(v, x, clock)
  {
  }

  // ----- a success

  // The address is tried afterwards, with the time of the success and no failures.
  lemma SuccessNoted(h: Hashing, key: Bytes, v: Book, svc: Service, time: nat, v': Book)
    requires GoodStep(h, key, v, svc, time, v') && svc.net in v && v[svc.net].addr.svc == svc
    ensures svc.net in v'
    ensures v'[svc.net] == Known(Address(svc, v[svc.net].addr.services, time % 0x1_0000_0000, time), v[svc.net].source,
                                 time, 0, Tried)
  {
    var v1 := v[svc.net := Succeeded(v[svc.net], time)];
    if v1[svc.net].place.New? {
      var promoted := v1[svc.net := v1[svc.net].(place := Tried)];
      var peers := TriedIn(h, key, v1, h.TriedBucket(key, svc));
      if |peers| >= TRIED_BUCKET_SIZE {
        var victim :| victim in peers && Evicts(h, key, promoted, v1[svc.net].place.buckets, victim, v');
        if |NewIn(promoted, h.NewBucket(key, victim, promoted[victim].source))| >= NEW_BUCKET_SIZE {
          var origin: nat :| origin in v1[svc.net].place.buckets &&
                             v' == promoted[victim := promoted[victim].(place := New({origin}))];
        }
      }
    }
  }

  // How many addresses new bucket b holds besides a.
  function Others(v: Book, b: nat, a: NetAddr): set<NetAddr> { NewIn(v, b) - {a} }

  // An address is sent back only from the full tried bucket of the one that succeeded, and goes to the
  // bucket of its own source unless that is full; then to one that the other has left.
  lemma SentBack(h: Hashing, key: Bytes, v: Book, svc: Service, time: int, v': Book, x: NetAddr)
    requires GoodStep(h, key, v, svc, time, v') && x in v && x != svc.net && x in v' && v'[x] != v[x]
    ensures svc.net in v && v[svc.net].addr.svc == svc && v[svc.net].place.New?
    ensures v[x].place.Tried? && h.TriedBucket(key, v[x].addr.svc) == h.TriedBucket(key, svc)
    ensures |TriedIn(h, key, v, h.TriedBucket(key, svc))| >= 64
    ensures var home := h.NewBucket(key, x, v[x].source);
            if |Others(v, home, svc.net)| < 64 then v'[x] == v[x].(place := New({home}))
            else exists b: nat :: b in v[svc.net].place.buckets && v'[x] == v[x].(place := New({b}))
  {
    var a := svc.net;
    var v1 := v[a := Succeeded(v[a], time)];
    var promoted := v1[a := v1[a].(place := Tried)];
    var peers := TriedIn(h, key, v1, h.TriedBucket(key, svc));
    assert peers == TriedIn(h, key, v, h.TriedBucket(key, svc));
    var victim :| victim in peers && Evicts(h, key, promoted, v1[a].place.buckets, victim, v');
    var home := h.NewBucket(key, victim, promoted[victim].source);
    assert NewIn(promoted, home) == Others(v, home, a);
    if |NewIn(promoted, home)| >= NEW_BUCKET_SIZE {
      var origin: nat :| origin in v1[a].place.buckets &&
                         v' == promoted[victim := promoted[victim].(place := New({origin}))];
    }
  }

  // Room in the tried bucket: nobody is sent back.
  lemma NobodySentBack(h: Hashing, key: Bytes, v: Book, svc: Service, time: int, v': Book)
    requires GoodStep(h, key, v, svc, time, v') && svc.net in v && v[svc.net].addr.svc == svc
    requires |TriedIn(h, key, v, h.TriedBucket(key, svc))| < 64
    ensures v'.Keys == v.Keys && forall x :: x in v && x != svc.net ==> v'[x] == v[x]
  {
    var v1 := v[svc.net := Succeeded(v[svc.net], time)];
    assert TriedIn(h, key, v1, h.TriedBucket(key, svc)) == TriedIn(h, key, v, h.TriedBucket(key, svc));
  }

  // ----- attempts and connections

  lemma AttemptNoted(v: Book, svc: Service, time: int, v': Book)
    requires AttemptStep(v, svc, time, v') && svc.net in v && v[svc.net].addr.svc == svc
    ensures v'.Keys == v.Keys && forall x :: x in v && x != svc.net ==> v'[x] == v[x]
    ensures var k := v[svc.net];
            v'[svc.net] == Known(Address(svc, k.addr.services, k.addr.time, time), k.source, k.lastSuccess,
                                 k.attempts + 1, k.place)
  {
  }

  // The time moves when it is more than twenty minutes behind.
  lemma ConnectionNoted(v: Book, svc: Service, time: nat, v': Book)
    requires ConnectedStep(v, svc, time, v') && svc.net in v && v[svc.net].addr.svc == svc
    ensures v'.Keys == v.Keys && forall x :: x in v && x != svc.net ==> v'[x] == v[x]
    ensures var k := v[svc.net];
            var t := if time - k.addr.time > 1200 then time % 0x1_0000_0000 else k.addr.time;
            v'[svc.net] == Known(Address(svc, k.addr.services, t, k.addr.lastTry), k.source, k.lastSuccess,
                                 k.attempts, k.place)
  {
  }

  // ----- announcements

  // A routable address that was unknown is known afterwards, in the bucket of its source and in no other.
  lemma Announced(h: Hashing, key: Bytes, v: Book, op: Op, v': Book)
    requires op.Add? && Step(h, key, v, op, v') && h.routable(op.addr.svc.net) && op.addr.svc.net !in v
    requires 0 <= op.penalty
    ensures var a, b := op.addr.svc.net, h.NewBucket(key, op.addr.svc.net, op.source);
            var t := if op.addr.time < op.penalty then 0 else (op.addr.time - op.penalty) % 0x1_0000_0000;
            && op.added && a in v'
            && v'[a] == Known(Address(op.addr.svc, op.addr.services, t, 0), op.source, 0, 0, New({b}))
  {
    var a, b := op.addr.svc.net, h.NewBucket(key, op.addr.svc.net, op.source);
    var v1 := v[a := FirstSeen(op.addr, op.source, op.penalty)];
    assert {} + {b} == {b};
    if |NewIn(v1, b)| >= NEW_BUCKET_SIZE {
      var victim :| MayDrop(v1, b, victim, op.clock) && v' == Placed(Dropped(v1, victim, b), a, b);
    }
  }

  lemma NotRoutable(h: Hashing, key: Bytes, v: Book, op: Op, v': Book)
    requires op.Add? && Step(h, key, v, op, v') && !h.routable(op.addr.svc.net)
    ensures v' == v && !op.added
  {
  }

  // Announced again: services are added, and the place is one more bucket exactly when the announcement
  // is later than what is recorded, the address is new in less than four buckets, and the draw is 0.
  lemma AnnouncedAgain(h: Hashing, key: Bytes, v: Book, op: Op, v': Book)
    requires op.Add? && Step(h, key, v, op, v') && h.routable(op.addr.svc.net) && op.addr.svc.net in v
    ensures var a, b := op.addr.svc.net, h.NewBucket(key, op.addr.svc.net, op.source);
            var k, t := v[a], ReannouncedTime(v[a].addr.time, op.addr, op.penalty, op.now);
            var news := op.addr.time != 0 && (t == 0 || op.addr.time > t);
            && !op.added && a in v'
            && v'[a] == Known(Address(k.addr.svc, k.addr.services + op.addr.services, t, k.addr.lastTry), k.source,
                              k.lastSuccess, k.attempts,
                              if news && k.place.New? && |k.place.buckets| != 4 && op.luck == 0
                              then New(k.place.buckets + {b}) else k.place)
  {
    var a, b := op.addr.svc.net, h.NewBucket(key, op.addr.svc.net, op.source);
    var k := Reannounced(v[a], op.addr, op.penalty, op.now);
    var v1 := v[a := k];
    if MayAddReference(k, op.addr) && op.luck == 0 {
      if b in k.place.buckets {
        assert k.place.buckets + {b} == k.place.buckets;
      } else if |NewIn(v1, b)| >= NEW_BUCKET_SIZE {
        var victim :| MayDrop(v1, b, victim, op.clock) && v' == Placed(Dropped(v1, victim, b), a, b);
      }
    }
  }

  // The recorded time: after an announcement it is no more than an hour and the penalty behind an address
  // seen within a day, a day and the penalty behind another; it never goes back or beyond what was
  // announced; and the same announcement does not move it twice.
  lemma TimeRecorded(time: nat, addr: Address, penalty: int, now: int)
    requires 0 <= penalty && time < 0x1_0000_0000 && 0 < addr.time < 0x1_0000_0000
    ensures var t, slack := ReannouncedTime(time, addr, penalty, now), if now - addr.time < 86400 then 3600 else 86400;
            && t >= addr.time - penalty - slack
            && t >= time && (t == time || t == Max(0, addr.time - penalty))
            && (time != 0 && time >= addr.time - penalty - slack ==> t == time)
            && ReannouncedTime(t, addr, penalty, now) == t
  {
  }

  // Each bucket an address is in makes another one half as likely: of 2^n draws one lets it in.
  lemma LuckIsOneIn(h: Hashing, key: Bytes, v: Book, op: Op, v': Book)
    requires op.Add? && Step(h, key, v, op, v') && h.routable(op.addr.svc.net) && op.addr.svc.net in v
    requires BookOk(h, key, v)
    requires MayAddReference(Reannounced(v[op.addr.svc.net], op.addr, op.penalty, op.now), op.addr)
    ensures var n := |v[op.addr.svc.net].place.buckets|;
            1 <= n <= 3 && op.luck < (if n == 1 then 2 else if n == 2 then 4 else 8)
  {
    var n := |v[op.addr.svc.net].place.buckets|;
    assert KnownOk(op.addr.svc.net, v[op.addr.svc.net]);
    assert Pow2(1) == 2 && Pow2(2) == 4 && Pow2(3) == 8;
  }
}

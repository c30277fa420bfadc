/** What the address manager promises, stated on addresses alone: no ids, no random order,
    no reference counts. The class in AddrMan.dfy is proved to take exactly these steps. */
module AddrBook {
  import opened AddrTypes
  import opened Arith

  // A tried address sits in the one bucket its hash names; a new one in the buckets listed.
  datatype Place = Tried | New(buckets: set<nat>)

  datatype Known = Known(addr: Address, source: NetAddr, lastSuccess: int, attempts: int, place: Place)

  type Book = map<NetAddr, Known>

  function TriedIn(h: Hashing, key: Bytes, v: Book, b: nat): set<NetAddr> {
    set a | a in v && v[a].place.Tried? && h.TriedBucket(key, v[a].addr.svc) == b
  }

  function NewIn(v: Book, b: nat): set<NetAddr> {
    set a | a in v && v[a].place.New? && b in v[a].place.buckets
  }

  ghost predicate KnownOk(a: NetAddr, k: Known) {
    && k.addr.svc.net == a
    && k.addr.lastTry >= 0
    && k.lastSuccess >= 0
    && match k.place
       case Tried => k.lastSuccess > 0
       case New(bs) =>
         && 1 <= |bs| <= NEW_BUCKETS_PER_ADDRESS
         && (forall b :: b in bs ==> b < NEW_BUCKET_COUNT)
  }

  ghost predicate BookOk(h: Hashing, key: Bytes, v: Book) {
    && (forall a :: a in v ==> KnownOk(a, v[a]))
    && (forall b: nat :: |TriedIn(h, key, v, b)| <= TRIED_BUCKET_SIZE)
    && (forall b: nat :: |NewIn(v, b)| <= NEW_BUCKET_SIZE)
  }

  // ----- the steps

  predicate Matches(v: Book, svc: Service) {
    svc.net in v && v[svc.net].addr.svc == svc
  }

  function Attempted(k: Known, time: int): Known {
    k.(addr := k.addr.(lastTry := time), attempts := k.attempts + 1)
  }

  function Connected(k: Known, time: int): Known {
    if time - k.addr.time > 20 * 60 then k.(addr := k.addr.(time := ToUint32(time))) else k
  }

  function Succeeded(k: Known, time: int): Known {
    k.(addr := k.addr.(lastTry := time, time := ToUint32(time)), lastSuccess := time, attempts := 0)
  }

  ghost predicate AttemptStep(v: Book, svc: Service, time: int, v': Book) {
    v' == if Matches(v, svc) then v[svc.net := Attempted(v[svc.net], time)] else v
  }

  ghost predicate ConnectedStep(v: Book, svc: Service, time: int, v': Book) {
    v' == if Matches(v, svc) then v[svc.net := Connected(v[svc.net], time)] else v
  }

  // The victim goes to the new bucket of its own source, or else takes the place just vacated.
  ghost predicate Evicts(h: Hashing, key: Bytes, promoted: Book, vacated: set<nat>, victim: NetAddr, v': Book)
    requires victim in promoted
  {
    var k := promoted[victim];
    var home := h.NewBucket(key, victim, k.source);
    if |NewIn(promoted, home)| < NEW_BUCKET_SIZE then
      v' == promoted[victim := k.(place := New({home}))]
    else
      exists origin: nat :: origin in vacated && v' == promoted[victim := k.(place := New({origin}))]
  }

  // A new address becomes tried; if its bucket is full, some tried address there becomes new again.
  ghost predicate PromoteStep(h: Hashing, key: Bytes, v: Book, a: NetAddr, v': Book)
    requires a in v && v[a].place.New?
  {
    var promoted := v[a := v[a].(place := Tried)];
    var peers := TriedIn(h, key, v, h.TriedBucket(key, v[a].addr.svc));
    if |peers| < TRIED_BUCKET_SIZE then v' == promoted
    else exists victim :: victim in peers && Evicts(h, key, promoted, v[a].place.buckets, victim, v')
  }

  ghost predicate GoodStep(h: Hashing, key: Bytes, v: Book, svc: Service, time: int, v': Book) {
    if !Matches(v, svc) then v' == v
    else
      var v1 := v[svc.net := Succeeded(v[svc.net], time)];
      if v1[svc.net].place.Tried? then v' == v1 else PromoteStep(h, key, v1, svc.net, v')
  }

  // The time recorded for an address announced again; it moves only when clearly later.
  function ReannouncedTime(time: nat, addr: Address, penalty: int, now: int): nat {
    var online := now - addr.time < 24 * 60 * 60;
    var interval := if online then 60 * 60 else 24 * 60 * 60;
    if addr.time != 0 && (time == 0 || time < addr.time - interval - penalty)
    then ToUint32(Max(0, addr.time - penalty)) else time
  }

  function Reannounced(k: Known, addr: Address, penalty: int, now: int): Known {
    k.(addr := k.addr.(time := ReannouncedTime(k.addr.time, addr, penalty, now),
                       services := k.addr.services + addr.services))
  }

  function Max(x: int, y: int): int { if x < y then y else x }

  function FirstSeen(addr: Address, source: NetAddr, penalty: int): Known {
    Known(addr.(time := ToUint32(Max(0, addr.time - penalty)), lastTry := 0), source, 0, 0, New({}))
  }

  // Removing an address from one new bucket forgets it when that was its last one.
  function Dropped(v: Book, x: NetAddr, b: nat): Book
    requires x in v && v[x].place.New?
  {
    if v[x].place.buckets == {b} then v - {x}
    else v[x := v[x].(place := New(v[x].place.buckets - {b}))]
  }

  function Placed(v: Book, a: NetAddr, b: nat): Book
    requires a in v && v[a].place.New?
  {
    v[a := v[a].(place := New(v[a].place.buckets + {b}))]
  }

  predicate Terrible(v: Book, a: NetAddr, clock: Clock)
    requires a in v
  {
    TerribleAt(v[a].addr, v[a].lastSuccess, v[a].attempts, clock(a))
  }

  // A full new bucket gives up an address that is terrible; only when none of them is, another one.
  ghost predicate MayDrop(v: Book, b: nat, victim: NetAddr, clock: Clock) {
    && victim in NewIn(v, b)
    && (Terrible(v, victim, clock) || forall x :: x in NewIn(v, b) ==> !Terrible(v, x, clock))
  }

  ghost predicate PlaceStep(v: Book, a: NetAddr, b: nat, clock: Clock, v': Book)
    requires a in v && v[a].place.New?
  {
    if b in v[a].place.buckets then v' == v
    else if |NewIn(v, b)| < NEW_BUCKET_SIZE then v' == Placed(v, a, b)
    else exists victim :: MayDrop(v, b, victim, clock) && v' == Placed(Dropped(v, victim, b), a, b)
  }

  lemma PlacedAlready(v: Book, a: NetAddr, b: nat, clock: Clock)
    requires a in v && v[a].place.New? && b in v[a].place.buckets
    ensures PlaceStep(v, a, b, clock, v)
  {
  }

  // Is an announcement of a known address news, and is there room for one more reference?
  predicate MayAddReference(k: Known, addr: Address) {
    && addr.time != 0
    && (k.addr.time == 0 || addr.time > k.addr.time)
    && k.place.New?
    && |k.place.buckets| != NEW_BUCKETS_PER_ADDRESS
  }

  // luck is the number drawn for one more reference: below 2^n for an address in n buckets, and only 0
  // lets it have another.
  ghost predicate AddStep(h: Hashing, key: Bytes, v: Book, addr: Address, source: NetAddr,
                          penalty: int, now: int, clock: Clock, luck: nat, v': Book, added: bool)
  {
    var a := addr.svc.net;
    var b := h.NewBucket(key, a, source);
    if !h.routable(a) then v' == v && !added
    else if a in v then
      var k := Reannounced(v[a], addr, penalty, now);
      var v1 := v[a := k];
      && !added
      && if !MayAddReference(k, addr) then v' == v1
         else luck < Pow2(|k.place.buckets|) && if luck == 0 then PlaceStep(v1, a, b, clock, v') else v' == v1
    else
      var v1 := v[a := FirstSeen(addr, source, penalty)];
      added && PlaceStep(v1, a, b, clock, v')
  }
}

/** How far one range of the network spreads: over 32 new buckets as a source, and over 4 tried buckets
    as a place of addresses, whatever the hash is. */
module AddrSpread {
  import opened AddrTypes
  import opened AddrBook
  import opened AddrTables
  import opened AddrRuns
  import opened FiniteSets

  // ----- counting

  lemma {:induction false} ListedSize(s: set<nat>, list: seq<nat>)
    requires forall b :: b in s ==> b in list
    ensures |s| <= |list|
    decreases |list|
  {
    if list == [] {
      if s != {} { var b := AnyOf(s); assert false; }
    } else {
      var n := |list| - 1;
      assert list == list[..n] + [list[n]];
      ListedSize(s - {list[n]}, list[..n]);
      AtMostOneMore(s, s - {list[n]}, list[n]);
    }
  }

  // ----- the buckets of one range

  // The bucket with this number among those of a source range.
  function SourceBucket(h: Hashing, key: Bytes, group: Bytes, slot: nat): nat { h.hash([key, group, [slot]]) % 256 }

  // The bucket with this number among those of a range of addresses.
  function RangeBucket(h: Hashing, key: Bytes, group: Bytes, slot: nat): nat { h.hash([key, group, [slot]]) % 64 }

  // A new bucket is one of the 32 of the source's range, and the range of the address says which.
  lemma NewBucketIs(h: Hashing, key: Bytes, net: NetAddr, source: NetAddr)
    ensures h.NewBucket(key, net, source) ==
            SourceBucket(h, key, h.group(source), h.hash([key, h.group(net), h.group(source)]) % 32)
  {
  }

  // A tried bucket is one of the 4 of the address's range, and address and port say which.
  lemma TriedBucketIs(h: Hashing, key: Bytes, svc: Service)
    ensures h.TriedBucket(key, svc) ==
            RangeBucket(h, key, h.group(svc.net), h.hash([key, [svc.net.ip, svc.port / 256, svc.port % 256]]) % 4)
  {
  }

  // All announcements from one range reach at most 32 new buckets.
  lemma SourceSpread(h: Hashing, key: Bytes, announced: set<(NetAddr, NetAddr)>, group: Bytes)
    requires forall p :: p in announced ==> h.group(p.1) == group
    ensures |set p | p in announced :: h.NewBucket(key, p.0, p.1)| <= 32
  {
    hide Hashing.NewBucket, SourceBucket;
    var s := set p | p in announced :: h.NewBucket(key, p.0, p.1);
    var all := seq(32, slot requires 0 <= slot < 32 => SourceBucket(h, key, group, slot));
    forall b | b in s ensures b in all {
      var p :| p in announced && b == h.NewBucket(key, p.0, p.1);
      NewBucketIs(h, key, p.0, p.1);
      assert b == all[h.hash([key, h.group(p.0), h.group(p.1)]) % 32];
    }
    ListedSize(s, all);
  }

  lemma OneSourceSpread(h: Hashing, key: Bytes, nets: set<NetAddr>, source: NetAddr)
    ensures |set net | net in nets :: h.NewBucket(key, net, source)| <= 32
  {
    hide Hashing.NewBucket;
    var announced := set net | net in nets :: (net, source);
    SourceSpread(h, key, announced, h.group(source));
    var s := set net | net in nets :: h.NewBucket(key, net, source);
    forall b | b in s ensures b in set p | p in announced :: h.NewBucket(key, p.0, p.1) {
      var net :| net in nets && b == h.NewBucket(key, net, source);
      assert (net, source) in announced;
    }
    Fewer(s, set p | p in announced :: h.NewBucket(key, p.0, p.1));
  }

  // All services of one range have their places in at most 4 tried buckets.
  lemma TriedSpread(h: Hashing, key: Bytes, svcs: set<Service>, group: Bytes)
    requires forall svc :: svc in svcs ==> h.group(svc.net) == group
    ensures |set svc | svc in svcs :: h.TriedBucket(key, svc)| <= 4
  {
    hide Hashing.TriedBucket, RangeBucket;
    var s := set svc | svc in svcs :: h.TriedBucket(key, svc);
    var all := seq(4, slot requires 0 <= slot < 4 => RangeBucket(h, key, group, slot));
    forall b | b in s ensures b in all {
      var svc :| svc in svcs && b == h.TriedBucket(key, svc);
      TriedBucketIs(h, key, svc);
      assert b == all[h.hash([key, [svc.net.ip, svc.port / 256, svc.port % 256]]) % 4];
    }
    ListedSize(s, all);
  }

  // Addresses of one range announced by sources of one range share a new bucket.
  lemma SameRanges(h: Hashing, key: Bytes, a: NetAddr, b: NetAddr, s: NetAddr, t: NetAddr)
    requires h.group(a) == h.group(b) && h.group(s) == h.group(t)
    ensures h.NewBucket(key, a, s) == h.NewBucket(key, b, t)
  {
  }

  // ----- the limits can be reached

  // A hash that adds the first elements behind the key.
  function Adding(parts: seq<Bytes>): nat {
    if |parts| > 2 && |parts[1]| > 0 && |parts[2]| > 0 then parts[1][0] + parts[2][0]
    else if |parts| > 1 && |parts[1]| > 0 then parts[1][0] else 0
  }

  // Under it the ranges announced by range 0 use the buckets 0 to 31, and the addresses of range 0 the
  // tried buckets 0 to 3.
  lemma SpreadReached(h: Hashing, key: Bytes, net: NetAddr, source: NetAddr, n: nat, svc: Service)
    requires h.hash == Adding && h.group(net) == [n] && h.group(source) == [0] && h.group(svc.net) == [0]
    ensures h.NewBucket(key, net, source) == n % 32
    ensures h.TriedBucket(key, svc) == svc.net.ip % 4
  {
  }

  // ----- the tried addresses of one range

  function TriedOf(h: Hashing, v: Book, group: Bytes): set<NetAddr> {
    set a | a in v && v[a].place.Tried? && h.group(v[a].addr.svc.net) == group
  }

  function ServicesOf(v: Book, nets: set<NetAddr>): set<Service> {
    set a | a in nets && a in v :: v[a].addr.svc
  }

  lemma {:induction false} BucketsHold(h: Hashing, key: Bytes, v: Book, nets: set<NetAddr>, buckets: set<nat>)
    requires forall b: nat :: |TriedIn(h, key, v, b)| <= 64
    requires forall a :: a in nets ==> exists b :: b in buckets && a in TriedIn(h, key, v, b)
    ensures |nets| <= 64 * |buckets|
    decreases |buckets|
  {
    hide TriedIn;
    if buckets == {} {
      if nets != {} { var a := AnyOf(nets); assert false; }
    } else {
      var b := AnyOf(buckets);
      var rest := nets - TriedIn(h, key, v, b);
      forall a | a in rest ensures exists c :: c in buckets - {b} && a in TriedIn(h, key, v, c) {
        var c :| c in buckets && a in TriedIn(h, key, v, c);
        assert c != b;
      }
      BucketsHold(h, key, v, rest, buckets - {b});
      UnionBound(nets, rest, TriedIn(h, key, v, b));
    }
  }

  // A book within its limits holds at most 4 * 64 tried addresses of one range.
  lemma TriedOfRange(h: Hashing, key: Bytes, v: Book, group: Bytes)
    requires BookOk(h, key, v)
    ensures |TriedOf(h, v, group)| <= 256
  {
    hide Hashing.TriedBucket;
    var nets := TriedOf(h, v, group);
    var svcs := ServicesOf(v, nets);
    TriedSpread(h, key, svcs, group);
    var buckets := set svc | svc in svcs :: h.TriedBucket(key, svc);
    forall a | a in nets ensures exists b :: b in buckets && a in TriedIn(h, key, v, b) {
      assert v[a].addr.svc in svcs;
      assert h.TriedBucket(key, v[a].addr.svc) in buckets;
    }
    forall b: nat ensures |TriedIn(h, key, v, b)| <= 64 { }
    BucketsHold(h, key, v, nets, buckets);
  }

  lemma ConsistentSpread(h: Hashing, key: Bytes, t: Tables, group: Bytes)
    requires Inv(h, key, t, NONE)
    ensures |TriedOf(h, View(t), group)| <= 256
  {
    ViewOk(h, key, t);
    TriedOfRange(h, key, View(t), group);
  }

  // In every run no range gets more.
  lemma RunSpread(h: Hashing, key: Bytes, books: seq<Book>, ops: seq<Op>, i: nat, group: Bytes)
    requires Run(h, key, books, ops) && i < |books|
    ensures |TriedOf(h, books[i], group)| <= 256
  {
    RunKeepsOk(h, key, books, ops, i);
    TriedOfRange(h, key, books[i], group);
  }
}

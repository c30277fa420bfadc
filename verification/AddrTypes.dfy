/** The values the address manager handles: addresses, table entries and the bucket functions. */
module AddrTypes {
  const TRIED_BUCKET_COUNT := 64
  const TRIED_BUCKET_SIZE := 64
  const NEW_BUCKET_COUNT := 256
  const NEW_BUCKET_SIZE := 64
  const TRIED_BUCKETS_PER_GROUP := 4
  const NEW_BUCKETS_PER_SOURCE_GROUP := 32
  const NEW_BUCKETS_PER_ADDRESS := 4
  const TRIED_ENTRIES_INSPECTED := 4
  const HORIZON_DAYS := 30
  const RETRIES := 3
  const MAX_FAILURES := 10
  const MIN_FAIL_DAYS := 7
  const GETADDR_MAX_PERCENT := 23
  const GETADDR_MAX := 2500
  const SECONDS_PER_DAY := 86400

  type Bytes = seq<nat>

  // A network address is its sixteen bytes, read here as one number; a service adds the port.
  datatype NetAddr = NetAddr(ip: nat)
  datatype Service = Service(net: NetAddr, port: nat)

  // An address as peers announce it; services is the set of its flag bits.
  datatype Address = Address(svc: Service, services: set<nat>, time: nat, lastTry: int)

  // What is stored about one id. refCount, inTried and pos are memory only.
  datatype Entry = Entry(addr: Address, source: NetAddr, lastSuccess: int, attempts: int,
                         refCount: int, inTried: bool, pos: int)
  {
    function Net(): NetAddr { addr.svc.net }
  }

  // The table of all ids.
  type Entries = map<int, Entry>

  // The hash, the group of an address and its routability are not interpreted.
  datatype Hashing = Hashing(hash: seq<Bytes> -> nat, group: NetAddr -> Bytes, routable: NetAddr -> bool)
  {
    function TriedBucket(key: Bytes, svc: Service): (b: nat)
      ensures b < TRIED_BUCKET_COUNT
    {
      var hash1 := hash([key, [svc.net.ip, svc.port / 0x100, svc.port % 0x100]]);
      var hash2 := hash([key, group(svc.net), [hash1 % TRIED_BUCKETS_PER_GROUP]]);
      hash2 % TRIED_BUCKET_COUNT
    }

    function NewBucket(key: Bytes, net: NetAddr, source: NetAddr): (b: nat)
      ensures b < NEW_BUCKET_COUNT
    {
      var hash1 := hash([key, group(net), group(source)]);
      var hash2 := hash([key, group(source), [hash1 % NEW_BUCKETS_PER_SOURCE_GROUP]]);
      hash2 % NEW_BUCKET_COUNT
    }
  }

  // Conversion of a signed 64-bit time to the unsigned 32-bit field that stores it.
  function ToUint32(x: int): (r: nat)
  {
    x % 0x1_0000_0000
  }

  // The time it is when an address is looked at.
  type Clock = NetAddr -> int

  // May the address be thrown away when its bucket is full?
  predicate TerribleAt(addr: Address, lastSuccess: int, attempts: int, now: int)
  {
    if addr.lastTry != 0 && addr.lastTry >= now - 60 then false
    else if addr.time > now + 10 * 60 then true
    else if addr.time == 0 || now - addr.time > HORIZON_DAYS * SECONDS_PER_DAY then true
    else if lastSuccess == 0 && attempts >= RETRIES then true
    else now - lastSuccess > MIN_FAIL_DAYS * SECONDS_PER_DAY && attempts >= MAX_FAILURES
  }

  predicate IsTerrible(e: Entry, clock: Clock)
  {
    TerribleAt(e.addr, e.lastSuccess, e.attempts, clock(e.Net()))
  }
}

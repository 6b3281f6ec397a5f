/** Values the address manager handles: network addresses, their statistics,
    the keyed bucket choice and the source of random draws. */
module AddrTypes {
  import opened Common

  const TRIED_BUCKET_COUNT := 64
  const TRIED_BUCKET_SIZE := 64
  const NEW_BUCKET_COUNT := 256
  const NEW_BUCKET_SIZE := 64
  const TRIED_BUCKETS_PER_GROUP := 4
  const NEW_BUCKETS_PER_SOURCE_GROUP := 32
  const NEW_BUCKETS_PER_ADDRESS := 4
  const TRIED_ENTRIES_INSPECT_ON_EVICT := 4
  const HORIZON_DAYS := 30
  const RETRIES := 3
  const MAX_FAILURES := 10
  const MIN_FAIL_DAYS := 7
  const GETADDR_MAX_PCT := 23
  const GETADDR_MAX := 2500
  const DAY := 86400

  datatype NetAddr = NetAddr(ip: seq<byte>)

  datatype Service = Service(net: NetAddr, port: nat) {
    function GetKey(): seq<byte> {
      net.ip + [(port / 0x100) % 0x100, port % 0x100]
    }
  }

  /** `nServices` is a bit field, seen as the set of the bits that are on. */
  datatype Address = Address(svc: Service, nServices: set<nat>, nTime: int, nLastTry: int)

  datatype AddrInfo = AddrInfo(
    addr: Address, source: NetAddr, nLastSuccess: int, nAttempts: int,
    nRefCount: int, fInTried: bool, nRandomPos: int)
  {
    function Net(): NetAddr { addr.svc.net }

    predicate IsTerrible(now: int) {
      if addr.nLastTry != 0 && addr.nLastTry >= now - 60 then false
      else if addr.nTime > now + 10 * 60 then true
      else if addr.nTime == 0 || now - addr.nTime > HORIZON_DAYS * DAY then true
      else if nLastSuccess == 0 && nAttempts >= RETRIES then true
      else now - nLastSuccess > MIN_FAIL_DAYS * DAY && nAttempts >= MAX_FAILURES
    }
  }

  /** A fresh record, as its constructor leaves it. */
  function NewInfo(addr: Address, source: NetAddr): AddrInfo {
    AddrInfo(addr.(nLastTry := 0), source, 0, 0, 0, false, -1)
  }

  /** What one hash stream holds: byte vectors and 64-bit words. */
  datatype Item = Blob(bytes: seq<byte>) | Word(value: nat)

  /** Everything the manager takes from elsewhere: the 64-bit hash of a stream,
      the group of an address and the routability test. */
  datatype Network = Network(
    hash: seq<Item> -> nat, group: NetAddr -> seq<byte>, routable: NetAddr -> bool)

  function GetTriedBucket(net: Network, key: seq<byte>, svc: Service): (b: int)
    ensures 0 <= b < TRIED_BUCKET_COUNT
  {
    var hash1 := net.hash([Blob(key), Blob(svc.GetKey())]);
    net.hash([Blob(key), Blob(net.group(svc.net)), Word(hash1 % TRIED_BUCKETS_PER_GROUP)]) % TRIED_BUCKET_COUNT
  }

  function GetNewBucket(net: Network, key: seq<byte>, svc: Service, source: NetAddr): (b: int)
    ensures 0 <= b < NEW_BUCKET_COUNT
  {
    var hash1 := net.hash([Blob(key), Blob(net.group(svc.net)), Blob(net.group(source))]);
    net.hash([Blob(key), Blob(net.group(source)), Word(hash1 % NEW_BUCKETS_PER_SOURCE_GROUP)]) % NEW_BUCKET_COUNT
  }

  /** The answers a random source gives during one call, in the order of its draws. */
  type Draws = seq<nat>

  /** Draw number `k` from the range [0, n); a missing answer, or one outside
      the range, counts as 0. */
  function RandInt(rnd: Draws, k: nat, n: nat): (r: nat)
    ensures n > 0 ==> r < n
  {
    if k < |rnd| && rnd[k] < n then rnd[k] else 0
  }

  /** Conversion of a signed 64-bit time to the unsigned 32-bit time field. */
  function ToUint32(t: int): (u: int)
    ensures 0 <= u < 0x1_0000_0000
    ensures 0 <= t < 0x1_0000_0000 ==> u == t
  {
    t % 0x1_0000_0000
  }

  function Max(a: int, b: int): int { if a > b then a else b }

  function Pow2(n: nat): nat { if n == 0 then 1 else 2 * Pow2(n - 1) }
}

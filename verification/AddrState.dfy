/** The address manager's state as one value, and what each operation makes of
    it. `AddrManager` proves that its in-place methods compute these. */
module AddrState {
  import opened Common
  import opened AddrTypes

  datatype State = State(
    nKey: seq<byte>, nIdCount: int, mapInfo: map<int, AddrInfo>, mapAddr: map<NetAddr, int>,
    vRandom: seq<int>, nTried: int, vvTried: seq<seq<int>>, nNew: int, vvNew: seq<set<int>>)

  function Empty(key: seq<byte>): State {
    State(key, 0, map[], map[], [], 0, seq(TRIED_BUCKET_COUNT, _ => []),
          0, seq(NEW_BUCKET_COUNT, _ => {}))
  }

  // ----- the consistency invariant ---------------------------------------

  ghost function TriedIds(m: map<int, AddrInfo>): set<int> {
    set id | id in m && m[id].fInTried
  }

  ghost function NewIds(m: map<int, AddrInfo>): set<int> {
    set id | id in m && !m[id].fInTried
  }

  /** In how many of the buckets an id occurs. */
  ghost function Occurrences(vv: seq<set<int>>, id: int): nat {
    if vv == [] then 0
    else Occurrences(vv[..|vv| - 1], id) + if id in vv[|vv| - 1] then 1 else 0
  }

  ghost predicate PlacedAt(m: map<int, AddrInfo>, id: int, i: int) {
    id in m && m[id].nRandomPos == i
  }

  ghost predicate Holds(r: seq<int>, i: int, id: int) {
    0 <= i < |r| && r[i] == id
  }

  /** `vRandom` lists every id once and `nRandomPos` is its inverse. */
  ghost predicate RandomOk(m: map<int, AddrInfo>, r: seq<int>) {
    && (forall id | id in m :: Holds(r, m[id].nRandomPos, id))
    && (forall i | 0 <= i < |r| :: PlacedAt(m, r[i], i))
  }

  ghost predicate KnownAs(m: map<int, AddrInfo>, id: int, n: NetAddr) {
    id in m && m[id].Net() == n
  }

  /** `mapAddr` is the exact inverse of id to network address. */
  ghost predicate AddrOk(m: map<int, AddrInfo>, a: map<NetAddr, int>) {
    && (forall id <- m :: m[id].Net() in a && a[m[id].Net()] == id)
    && (forall n <- a :: KnownAs(m, a[n], n))
  }

  ghost predicate IdsOk(m: map<int, AddrInfo>, nIdCount: int) {
    0 <= nIdCount && forall id <- m :: 0 <= id < nIdCount
  }

  ghost predicate BucketOk(net: Network, key: seq<byte>, m: map<int, AddrInfo>, b: int, bucket: seq<int>) {
    && |bucket| <= TRIED_BUCKET_SIZE
    && NoDup(bucket)
    && forall id <- bucket ::
         id in m && m[id].fInTried && GetTriedBucket(net, key, m[id].addr.svc) == b
  }

  /** Every tried entry is in one slot: one position of the bucket its hash names. */
  ghost predicate TriedOk(net: Network, key: seq<byte>, m: map<int, AddrInfo>, vv: seq<seq<int>>) {
    && |vv| == TRIED_BUCKET_COUNT
    && (forall b | 0 <= b < |vv| :: BucketOk(net, key, m, b, vv[b]))
    && (forall id <- m :: m[id].fInTried ==> id in vv[GetTriedBucket(net, key, m[id].addr.svc)])
  }

  /** No id: what `pending` is outside the middle of an insertion. */
  const NOBODY := -1

  /** Each record's reference count is the number of new buckets it is in, plus
      one for the record whose insertion is under way. */
  ghost predicate NewOk(m: map<int, AddrInfo>, vv: seq<set<int>>, pending: int) {
    && |vv| == NEW_BUCKET_COUNT
    && (forall b | 0 <= b < |vv| :: |vv[b]| <= NEW_BUCKET_SIZE && vv[b] <= m.Keys)
    && (forall id <- m ::
          && m[id].nRefCount == Occurrences(vv, id) + (if id == pending then 1 else 0)
          && m[id].nRefCount <= NEW_BUCKETS_PER_ADDRESS
          && (m[id].fInTried <==> m[id].nRefCount == 0))
  }

  ghost predicate CountsOk(m: map<int, AddrInfo>, nTried: int, nNew: int) {
    nTried == |TriedIds(m)| && nNew == |NewIds(m)|
  }

  ghost predicate Coherent(net: Network, s: State, pending: int) {
    && IdsOk(s.mapInfo, s.nIdCount)
    && RandomOk(s.mapInfo, s.vRandom)
    && AddrOk(s.mapInfo, s.mapAddr)
    && TriedOk(net, s.nKey, s.mapInfo, s.vvTried)
    && NewOk(s.mapInfo, s.vvNew, pending)
    && CountsOk(s.mapInfo, s.nTried, s.nNew)
  }

  ghost predicate Consistent(net: Network, s: State) {
    Coherent(net, s, NOBODY)
  }

  /** The time stamps the debug check also looks at. */
  ghost predicate Stamped(s: State) {
    forall id <- s.mapInfo :: InfoStamped(s.mapInfo[id])
  }

  predicate InfoStamped(info: AddrInfo) {
    && info.addr.nLastTry >= 0
    && info.nLastSuccess >= 0
    && (info.fInTried ==> info.nLastSuccess != 0)
  }

  // ----- primitive steps --------------------------------------------------

  function Find(s: State, n: NetAddr): (id: Option<int>)
    ensures id.Some? ==> id.value in s.mapInfo && n in s.mapAddr && s.mapAddr[n] == id.value
  {
    if n in s.mapAddr && s.mapAddr[n] in s.mapInfo then Some(s.mapAddr[n]) else None
  }

  function Created(s: State, addr: Address, source: NetAddr): State {
    var id := s.nIdCount;
    s.(nIdCount := id + 1,
       mapInfo := s.mapInfo[id := NewInfo(addr, source).(nRandomPos := |s.vRandom|)],
       mapAddr := s.mapAddr[addr.svc.net := id],
       vRandom := s.vRandom + [id])
  }

  function Swapped(s: State, i: nat, j: nat): State
    requires i != j ==>
      i < |s.vRandom| && j < |s.vRandom| && s.vRandom[i] in s.mapInfo && s.vRandom[j] in s.mapInfo
  {
    if i == j then s
    else
      var a, b := s.vRandom[i], s.vRandom[j];
      var m := s.mapInfo[a := s.mapInfo[a].(nRandomPos := j)];
      s.(mapInfo := m[b := m[b].(nRandomPos := i)],
         vRandom := s.vRandom[i := b][j := a])
  }

  lemma SwappedKnown(s: State, i: nat, j: nat, id: int)
    requires i < |s.vRandom| && j < |s.vRandom| && s.vRandom[i] in s.mapInfo && s.vRandom[j] in s.mapInfo
    ensures |Swapped(s, i, j).vRandom| == |s.vRandom| && (id in s.mapInfo ==> id in Swapped(s, i, j).mapInfo)
  {
  }

  /** Swapping two positions keeps list and positions inverse to each other. */
  lemma SwapKeeps(s: State, i: nat, j: nat)
    requires RandomOk(s.mapInfo, s.vRandom) && i < |s.vRandom| && j < |s.vRandom|
    ensures PlacedAt(s.mapInfo, s.vRandom[i], i) && PlacedAt(s.mapInfo, s.vRandom[j], j)
    ensures var t := Swapped(s, i, j); RandomOk(t.mapInfo, t.vRandom)
  {
    assert PlacedAt(s.mapInfo, s.vRandom[i], i) && PlacedAt(s.mapInfo, s.vRandom[j], j);
    var t := Swapped(s, i, j);
    forall x | 0 <= x < |t.vRandom| ensures PlacedAt(t.mapInfo, t.vRandom[x], x) {
      assert PlacedAt(s.mapInfo, s.vRandom[x], x);
    }
    forall id | id in t.mapInfo ensures Holds(t.vRandom, t.mapInfo[id].nRandomPos, id) {
      assert Holds(s.vRandom, s.mapInfo[id].nRandomPos, id);
    }
  }

  /** Delete a record for good. */
  function Forgotten(s: State, id: int): State
    requires id in s.mapInfo && RandomOk(s.mapInfo, s.vRandom)
  {
    var last := |s.vRandom| - 1;
    assert Holds(s.vRandom, s.mapInfo[id].nRandomPos, id);
    assert PlacedAt(s.mapInfo, s.vRandom[last], last);
    var t := Swapped(s, s.mapInfo[id].nRandomPos, last);
    t.(vRandom := t.vRandom[..last],
       mapAddr := t.mapAddr - {t.mapInfo[id].Net()},
       mapInfo := t.mapInfo - {id},
       nNew := t.nNew - 1)
  }

  /** A record may change in anything but its position. */
  lemma TouchedRandom(m: map<int, AddrInfo>, r: seq<int>, id: int, info: AddrInfo)
    requires RandomOk(m, r) && id in m && info.nRandomPos == m[id].nRandomPos
    ensures RandomOk(m[id := info], r)
  {
    var m' := m[id := info];
    forall x | x in m' ensures Holds(r, m'[x].nRandomPos, x) {
      assert Holds(r, m[x].nRandomPos, x);
    }
    forall i | 0 <= i < |r| ensures PlacedAt(m', r[i], i) {
      assert PlacedAt(m, r[i], i);
    }
  }

  /** Take one record out of one new bucket, deleting it with its last reference. */
  function Released(s: State, b: nat, id: int): State
    requires b < |s.vvNew| && id in s.mapInfo && RandomOk(s.mapInfo, s.vRandom)
  {
    var info := s.mapInfo[id].(nRefCount := s.mapInfo[id].nRefCount - 1);
    var t := s.(mapInfo := s.mapInfo[id := info]);
    TouchedRandom(s.mapInfo, s.vRandom, id, info);
    var u := if info.nRefCount == 0 then Forgotten(t, id) else t;
    u.(vvNew := u.vvNew[b := u.vvNew[b] - {id}])
  }

  // ----- choosing what leaves a full new bucket ---------------------------

  /** The first record, in id order, that is bad enough to delete. */
  function FirstTerrible(m: map<int, AddrInfo>, ids: seq<int>, now: int): Option<int> {
    if ids == [] then None
    else if ids[0] in m && m[ids[0]].IsTerrible(now) then Some(ids[0])
    else FirstTerrible(m, ids[1..], now)
  }

  predicate Picked(rnd: Draws, k: nat, n: nat, i: nat) {
    i == RandInt(rnd, k, n) || i == RandInt(rnd, k + 1, n) || i == RandInt(rnd, k + 2, n) || i == RandInt(rnd, k + 3, n)
  }

  /** The oldest of the picked ones among the first `i` records. */
  function OldestPicked(m: map<int, AddrInfo>, ids: seq<int>, rnd: Draws, k: nat, i: nat): int
    requires i <= |ids|
  {
    if i == 0 then NOBODY
    else
      var o := OldestPicked(m, ids, rnd, k, i - 1);
      var id := ids[i - 1];
      if Picked(rnd, k, |ids|, i - 1) && (o == NOBODY || (id in m && o in m && m[id].addr.nTime < m[o].addr.nTime))
      then id else o
  }

  function Victim(m: map<int, AddrInfo>, bucket: set<int>, now: int, rnd: Draws, k: nat): int {
    var ids := InOrder(bucket);
    match FirstTerrible(m, ids, now)
    case Some(id) => id
    case None => OldestPicked(m, ids, rnd, k, |ids|)
  }

  lemma {:induction false} OldestPickedMember(m: map<int, AddrInfo>, ids: seq<int>, rnd: Draws, k: nat, i: nat, j: nat)
    requires i <= |ids| && NOBODY !in ids
    ensures OldestPicked(m, ids, rnd, k, i) == NOBODY || OldestPicked(m, ids, rnd, k, i) in ids
    ensures j < i && Picked(rnd, k, |ids|, j) ==> OldestPicked(m, ids, rnd, k, i) != NOBODY
  {
    if i > 0 {
      OldestPickedMember(m, ids, rnd, k, i - 1, j);
      assert ids[i - 1] in ids;
    }
  }

  /** A record reported is bad enough, and none before it is. */
  lemma {:induction false} FirstTerribleLeast(m: map<int, AddrInfo>, ids: seq<int>, now: int, j: nat)
    requires Ascending(ids) && j < |ids| && ids[j] in m && m[ids[j]].IsTerrible(now)
    ensures FirstTerrible(m, ids, now).Some? && FirstTerrible(m, ids, now).value <= ids[j]
  {
    if j > 0 && !(ids[0] in m && m[ids[0]].IsTerrible(now)) {
      FirstTerribleLeast(m, ids[1..], now, j - 1);
    }
  }

  ghost predicate OnRecord(m: map<int, AddrInfo>, ids: seq<int>) {
    forall id <- ids :: id in m
  }

  function TimeOf(m: map<int, AddrInfo>, id: int): int { if id in m then m[id].addr.nTime else 0 }

  /** Of the first `i` records, `o` was picked, none picked is older, and none picked
      before it is as old. */
  ghost predicate OldestOf(m: map<int, AddrInfo>, ids: seq<int>, rnd: Draws, k: nat, i: nat, o: int) {
    exists j | 0 <= j < i && j < |ids| :: Picked(rnd, k, |ids|, j) && ids[j] == o && NoneOlder(m, ids, rnd, k, i, j)
  }

  ghost predicate NoneOlder(m: map<int, AddrInfo>, ids: seq<int>, rnd: Draws, k: nat, i: nat, j: nat)
    requires j < |ids|
  {
    forall j' | 0 <= j' < i && j' < |ids| && Picked(rnd, k, |ids|, j') ::
      TimeOf(m, ids[j]) < TimeOf(m, ids[j']) || (TimeOf(m, ids[j]) == TimeOf(m, ids[j']) && j <= j')
  }

  lemma {:induction false} OldestPickedMeaning(m: map<int, AddrInfo>, ids: seq<int>, rnd: Draws, k: nat, i: nat)
    requires i <= |ids| && NOBODY !in ids && OnRecord(m, ids)
    ensures var o := OldestPicked(m, ids, rnd, k, i);
      if o == NOBODY then forall j | 0 <= j < i :: !Picked(rnd, k, |ids|, j) else OldestOf(m, ids, rnd, k, i, o)
  {
    hide Picked;
    if i > 0 {
      OldestPickedMeaning(m, ids, rnd, k, i - 1);
      var id := ids[i - 1];
      assert id in ids;
      var o := OldestPicked(m, ids, rnd, k, i - 1);
      if o != NOBODY {
        var j :| 0 <= j < i - 1 && Picked(rnd, k, |ids|, j) && ids[j] == o && NoneOlder(m, ids, rnd, k, i - 1, j);
        assert o in ids;
        if !Picked(rnd, k, |ids|, i - 1) || TimeOf(m, o) <= TimeOf(m, id) {
          assert NoneOlder(m, ids, rnd, k, i, j);
        } else {
          assert NoneOlder(m, ids, rnd, k, i, i - 1);
        }
      } else if Picked(rnd, k, |ids|, i - 1) {
        assert NoneOlder(m, ids, rnd, k, i, i - 1);
      }
    }
  }

  /** What must leave a bucket: the bad record with the least id, if there is a bad
      one, and else the oldest of the records at the positions drawn. */
  ghost predicate Leaves(m: map<int, AddrInfo>, bucket: set<int>, now: int, rnd: Draws, k: nat, id: int) {
    && id in bucket && id in m
    && (if exists x <- bucket :: x in m && m[x].IsTerrible(now)
        then m[id].IsTerrible(now) && forall x <- bucket :: x in m && m[x].IsTerrible(now) ==> id <= x
        else OldestOf(m, InOrder(bucket), rnd, k, |bucket|, id))
  }

  lemma {:induction false} FirstTerribleMeaning(m: map<int, AddrInfo>, ids: seq<int>, now: int)
    ensures var r := FirstTerrible(m, ids, now);
      if r.Some? then r.value in ids && r.value in m && m[r.value].IsTerrible(now)
      else forall x <- ids :: !(x in m && m[x].IsTerrible(now))
  {
    if ids != [] { FirstTerribleMeaning(m, ids[1..], now); }
  }

  /** The record that must leave is one of the bucket's own, and the one it should be. */
  lemma VictimMember(m: map<int, AddrInfo>, bucket: set<int>, now: int, rnd: Draws, k: nat)
    requires bucket != {} && NOBODY !in bucket && bucket <= m.Keys
    ensures Victim(m, bucket, now, rnd, k) in bucket && Leaves(m, bucket, now, rnd, k, Victim(m, bucket, now, rnd, k))
  {
    hide OldestOf, AddrInfo.IsTerrible, FirstTerrible, OldestPicked;
    var ids := InOrder(bucket);
    forall x ensures x in ids <==> x in bucket { assert x in Elements(ids) <==> x in ids; }
    FirstTerribleMeaning(m, ids, now);
    forall x | x in bucket && m[x].IsTerrible(now)
      ensures FirstTerrible(m, ids, now).Some? && FirstTerrible(m, ids, now).value <= x
    {
      var j :| 0 <= j < |ids| && ids[j] == x;
      FirstTerribleLeast(m, ids, now, j);
    }
    OldestPickedMeaning(m, ids, rnd, k, |ids|);
    OldestPickedMember(m, ids, rnd, k, |ids|, RandInt(rnd, k, |ids|));
  }

  // ----- choosing what leaves a full tried bucket -------------------------

  /** The shuffled bucket, the entry judged oldest, the position returned for
      it and the round in which it was met. */
  datatype Inspection = Inspection(bucket: seq<int>, oldest: int, pos: int, round: int)

  function LastSuccess(m: map<int, AddrInfo>, id: int): int {
    if id in m then m[id].nLastSuccess else 0
  }

  /** One round: bring the entry at `at` forward to `i` and compare it. */
  function InspectRound(m: map<int, AddrInfo>, p: Inspection, i: nat, at: nat): (r: Inspection)
    requires i < |p.bucket| && at < |p.bucket|
    ensures |r.bucket| == |p.bucket|
  {
    var temp := p.bucket[at];
    var shuffled := p.bucket[at := p.bucket[i]][i := temp];
    if p.oldest == -1 || LastSuccess(m, temp) < LastSuccess(m, p.oldest)
    then Inspection(shuffled, temp, at, i)
    else p.(bucket := shuffled)
  }

  function Inspect(m: map<int, AddrInfo>, bucket: seq<int>, rnd: Draws, k: nat, i: nat): (r: Inspection)
    requires i <= |bucket|
    ensures |r.bucket| == |bucket|
    ensures i > 0 ==> 0 <= r.pos < |bucket|
  {
    if i == 0 then Inspection(bucket, -1, -1, -1)
    else
      InspectRound(m, Inspect(m, bucket, rnd, k, i - 1), i - 1,
                   RandInt(rnd, k + i - 1, |bucket| - (i - 1)) + (i - 1))
  }

  lemma ExchangeElements(xs: seq<int>, i: nat, j: nat)
    requires i < |xs| && j < |xs|
    ensures Elements(xs[i := xs[j]][j := xs[i]]) == Elements(xs)
  {
    var ys := xs[i := xs[j]][j := xs[i]];
    forall x ensures x in xs <==> x in ys {
      if x in xs {
        var a :| 0 <= a < |xs| && xs[a] == x;
        assert ys[if a == i then j else if a == j then i else a] == x;
      }
    }
  }

  /** Inspection only reorders the bucket. */
  lemma {:induction false} InspectElements(m: map<int, AddrInfo>, bucket: seq<int>, rnd: Draws, k: nat, i: nat)
    requires i <= |bucket|
    ensures Elements(Inspect(m, bucket, rnd, k, i).bucket) == Elements(bucket)
  {
    if i > 0 {
      InspectElements(m, bucket, rnd, k, i - 1);
      var p := Inspect(m, bucket, rnd, k, i - 1);
      ExchangeElements(p.bucket, RandInt(rnd, k + i - 1, |bucket| - (i - 1)) + (i - 1), i - 1);
    }
  }

  function InspectFully(m: map<int, AddrInfo>, bucket: seq<int>, rnd: Draws, k: nat): (r: Inspection)
    ensures |r.bucket| == |bucket| && Elements(r.bucket) == Elements(bucket)
    ensures bucket != [] ==> 0 <= r.pos < |bucket|
  {
    var i := if |bucket| < TRIED_ENTRIES_INSPECT_ON_EVICT then |bucket| else TRIED_ENTRIES_INSPECT_ON_EVICT;
    InspectElements(m, bucket, rnd, k, i);
    Inspect(m, bucket, rnd, k, i)
  }

  // ----- the public operations ---------------------------------------------

  function Erased(vv: seq<set<int>>, id: int): (r: seq<set<int>>)
    ensures |r| == |vv| && forall b | 0 <= b < |vv| :: r[b] == vv[b] - {id}
  {
    seq(|vv|, b requires 0 <= b < |vv| => vv[b] - {id})
  }

  /** The record is in no new bucket any more. */
  function Uprooted(s: State, id: int): State
    requires id in s.mapInfo
  {
    s.(mapInfo := s.mapInfo[id := s.mapInfo[id].(nRefCount := 0)],
       vvNew := Erased(s.vvNew, id), nNew := s.nNew - 1)
  }

  /** Give a record the slot of another one, which returns to a new bucket: the
      one its source names if there is room, else `origin`. */
  function Evicted(net: Network, s: State, id: int, origin: nat, kb: nat, bucket: seq<int>, pos: nat): State
    requires id in s.mapInfo && origin < NEW_BUCKET_COUNT == |s.vvNew|
    requires kb < |s.vvTried| && pos < |bucket| && bucket[pos] in s.mapInfo && bucket[pos] != id
  {
    var out := bucket[pos];
    var infoOld := s.mapInfo[out];
    var ub := GetNewBucket(net, s.nKey, infoOld.addr.svc, infoOld.source);
    var dest := if |s.vvNew[ub]| < NEW_BUCKET_SIZE then ub else origin;
    s.(mapInfo := s.mapInfo[out := infoOld.(nRefCount := 1, fInTried := false)]
                           [id := s.mapInfo[id].(fInTried := true)],
       vvNew := s.vvNew[dest := s.vvNew[dest] + {out}], nNew := s.nNew + 1,
       vvTried := s.vvTried[kb := bucket[pos := id]])
  }

  /** Move a record from the new table, where `origin` holds it, to the tried table. */
  function MadeTried(net: Network, s: State, id: int, origin: nat, rnd: Draws, k: nat): State
    requires id in s.mapInfo && !s.mapInfo[id].fInTried && origin < NEW_BUCKET_COUNT == |s.vvNew|
    requires TriedOk(net, s.nKey, s.mapInfo, s.vvTried)
  {
    var u := Uprooted(s, id);
    var kb := GetTriedBucket(net, s.nKey, s.mapInfo[id].addr.svc);
    var bucket := s.vvTried[kb];
    if |bucket| < TRIED_BUCKET_SIZE then
      u.(mapInfo := u.mapInfo[id := u.mapInfo[id].(fInTried := true)],
         vvTried := u.vvTried[kb := bucket + [id]], nTried := u.nTried + 1)
    else
      var seen := InspectFully(s.mapInfo, bucket, rnd, k);
      InspectedMember(net, s, kb, seen);
      Evicted(net, u, id, origin, kb, seen.bucket, seen.pos)
  }

  lemma InspectedMember(net: Network, s: State, kb: nat, seen: Inspection)
    requires TriedOk(net, s.nKey, s.mapInfo, s.vvTried) && kb < |s.vvTried|
    requires Elements(seen.bucket) == Elements(s.vvTried[kb]) && 0 <= seen.pos < |seen.bucket|
    ensures var out := seen.bucket[seen.pos];
      out in s.vvTried[kb] && out in s.mapInfo && s.mapInfo[out].fInTried
  {
    var out := seen.bucket[seen.pos];
    assert BucketOk(net, s.nKey, s.mapInfo, kb, s.vvTried[kb]);
    assert out in Elements(seen.bucket) && out in s.vvTried[kb];
  }

  function Around(n: nat, start: nat, size: nat): (b: nat)
    requires size > 0
    ensures b < size
  {
    (n + start) % size
  }

  /** The first new bucket holding the id, searching round from `start`. */
  function Origin(vv: seq<set<int>>, id: int, start: nat, n: nat): (r: Option<nat>)
    ensures r.Some? ==> r.value < |vv| && id in vv[r.value]
    ensures r.None? ==> forall i | n <= i < |vv| :: id !in vv[Around(i, start, |vv|)]
    decreases |vv| - n
  {
    if n >= |vv| then None
    else if id in vv[Around(n, start, |vv|)] then Some(Around(n, start, |vv|))
    else Origin(vv, id, start, n + 1)
  }

  function Succeeded(info: AddrInfo, time: int): AddrInfo {
    info.(nLastSuccess := time, nAttempts := 0,
          addr := info.addr.(nLastTry := time, nTime := ToUint32(time)))
  }

  /** Move a record to the tried table from whichever new bucket a search finds
      it in, unless it is there already. */
  function Settled(net: Network, s: State, id: int, rnd: Draws): State
    requires id in s.mapInfo && |s.vvNew| == NEW_BUCKET_COUNT && TriedOk(net, s.nKey, s.mapInfo, s.vvTried)
  {
    if s.mapInfo[id].fInTried then s
    else
      match Origin(s.vvNew, id, RandInt(rnd, 0, NEW_BUCKET_COUNT), 0)
      case None => s
      case Some(origin) => MadeTried(net, s, id, origin, rnd, 1)
  }

  lemma TouchedTried(net: Network, key: seq<byte>, m: map<int, AddrInfo>, vv: seq<seq<int>>, id: int, info: AddrInfo)
    requires TriedOk(net, key, m, vv) && id in m
    requires info.fInTried == m[id].fInTried && info.addr.svc == m[id].addr.svc
    ensures TriedOk(net, key, m[id := info], vv)
  {
    forall b | 0 <= b < |vv| ensures BucketOk(net, key, m[id := info], b, vv[b]) {
      assert BucketOk(net, key, m, b, vv[b]);
    }
  }

  function Good(net: Network, s: State, svc: Service, time: int, rnd: Draws): State
    requires Consistent(net, s)
  {
    match Find(s, svc.net)
    case None => s
    case Some(id) =>
      if s.mapInfo[id].addr.svc != svc then s
      else
        var info := Succeeded(s.mapInfo[id], time);
        TouchedTried(net, s.nKey, s.mapInfo, s.vvTried, id, info);
        Settled(net, s.(mapInfo := s.mapInfo[id := info]), id, rnd)
  }

  function Bumped(m: map<int, AddrInfo>, id: int): map<int, AddrInfo>
    requires id in m
  {
    m[id := m[id].(nRefCount := m[id].nRefCount + 1)]
  }

  /** Put a record into one more new bucket, making room there first. */
  function Filed(net: Network, s: State, id: int, b: nat, now: int, rnd: Draws, k: nat): State
    requires id in s.mapInfo && b < |s.vvNew| && RandomOk(s.mapInfo, s.vRandom)
    requires s.vvNew[b] <= s.mapInfo.Keys && NOBODY !in s.mapInfo
  {
    if id in s.vvNew[b] then s
    else
      var t := s.(mapInfo := Bumped(s.mapInfo, id));
      TouchedRandom(s.mapInfo, s.vRandom, id, t.mapInfo[id]);
      var u :=
        if |s.vvNew[b]| == NEW_BUCKET_SIZE then
          VictimMember(t.mapInfo, s.vvNew[b], now, rnd, k);
          Released(t, b, Victim(t.mapInfo, s.vvNew[b], now, rnd, k))
        else t;
      u.(vvNew := u.vvNew[b := u.vvNew[b] + {id}])
  }

  /** What hearing of a known address again does to its record. */
  function Refreshed(info: AddrInfo, addr: Address, penalty: int, now: int): AddrInfo {
    var online := now - addr.nTime < DAY;
    var interval := if online then 60 * 60 else DAY;
    var time :=
      if addr.nTime != 0 && (info.addr.nTime == 0 || info.addr.nTime < addr.nTime - interval - penalty)
      then ToUint32(Max(0, addr.nTime - penalty)) else info.addr.nTime;
    info.(addr := info.addr.(nTime := time, nServices := info.addr.nServices + addr.nServices))
  }

  /** Whether a known address gets a chance of one more new bucket. */
  predicate Promoted(info: AddrInfo, addr: Address, rnd: Draws) {
    && addr.nTime != 0
    && (info.addr.nTime == 0 || addr.nTime > info.addr.nTime)
    && !info.fInTried
    && info.nRefCount != NEW_BUCKETS_PER_ADDRESS
    && (info.nRefCount <= 0 || RandInt(rnd, 0, Pow2(info.nRefCount)) == 0)
  }

  /** The record of an address never heard of before, already counted. */
  function Discovered(s: State, addr: Address, source: NetAddr, penalty: int): State {
    var t := Created(s, addr, source);
    var id := s.nIdCount;
    var info := t.mapInfo[id];
    t.(mapInfo := t.mapInfo[id := info.(addr := info.addr.(nTime := ToUint32(Max(0, info.addr.nTime - penalty))))],
       nNew := t.nNew + 1)
  }

  lemma NewcomerRandom(s: State, info: AddrInfo)
    requires RandomOk(s.mapInfo, s.vRandom) && s.nIdCount !in s.mapInfo && info.nRandomPos == |s.vRandom|
    ensures RandomOk(s.mapInfo[s.nIdCount := info], s.vRandom + [s.nIdCount])
  {
    var m, r := s.mapInfo[s.nIdCount := info], s.vRandom + [s.nIdCount];
    forall x | x in m ensures Holds(r, m[x].nRandomPos, x) {
      if x != s.nIdCount { assert Holds(s.vRandom, s.mapInfo[x].nRandomPos, x); }
    }
    forall i | 0 <= i < |r| ensures PlacedAt(m, r[i], i) {
      if i < |s.vRandom| { assert PlacedAt(s.mapInfo, s.vRandom[i], i); }
    }
  }

  lemma DiscoveredRandom(s: State, addr: Address, source: NetAddr, penalty: int)
    requires RandomOk(s.mapInfo, s.vRandom) && IdsOk(s.mapInfo, s.nIdCount)
    ensures var t := Discovered(s, addr, source, penalty);
      RandomOk(t.mapInfo, t.vRandom) && IdsOk(t.mapInfo, t.nIdCount)
  {
    var t := Discovered(s, addr, source, penalty);
    NewcomerRandom(s, t.mapInfo[s.nIdCount]);
    assert t.mapInfo == s.mapInfo[s.nIdCount := t.mapInfo[s.nIdCount]];
  }

  /** The new state, and whether the address was unknown before. */
  function Add(net: Network, s: State, addr: Address, source: NetAddr, penalty: int, now: int, rnd: Draws)
    : (State, bool)
    requires Consistent(net, s)
  {
    if !net.routable(addr.svc.net) then (s, false)
    else
      match Find(s, addr.svc.net)
      case Some(id) =>
        var info := Refreshed(s.mapInfo[id], addr, penalty, now);
        var t := s.(mapInfo := s.mapInfo[id := info]);
        TouchedRandom(s.mapInfo, s.vRandom, id, info);
        if !Promoted(info, addr, rnd) then (t, false)
        else (Filed(net, t, id, GetNewBucket(net, s.nKey, info.addr.svc, source), now, rnd, 1), false)
      case None =>
        var t := Discovered(s, addr, source, penalty);
        var id := s.nIdCount;
        DiscoveredRandom(s, addr, source, penalty);
        (Filed(net, t, id, GetNewBucket(net, s.nKey, addr.svc, source), now, rnd, 1), true)
  }

  function Attempt(s: State, svc: Service, time: int): State {
    match Find(s, svc.net)
    case None => s
    case Some(id) =>
      var info := s.mapInfo[id];
      if info.addr.svc != svc then s
      else s.(mapInfo := s.mapInfo[id := info.(nAttempts := info.nAttempts + 1, addr := info.addr.(nLastTry := time))])
  }

  function Connected(s: State, svc: Service, time: int): State {
    match Find(s, svc.net)
    case None => s
    case Some(id) =>
      var info := s.mapInfo[id];
      if info.addr.svc != svc || time - info.addr.nTime <= 20 * 60 then s
      else s.(mapInfo := s.mapInfo[id := info.(addr := info.addr.(nTime := ToUint32(time)))])
  }

  /** How many addresses one request returns. */
  function GetAddrCount(size: nat): (n: nat)
    ensures n <= size
  {
    var n := GETADDR_MAX_PCT * size / 100;
    if n > GETADDR_MAX then GETADDR_MAX else n
  }

  function Shuffled(s: State, n: nat, rnd: Draws): (r: State)
    requires n <= |s.vRandom| && RandomOk(s.mapInfo, s.vRandom)
    ensures |r.vRandom| == |s.vRandom| && RandomOk(r.mapInfo, r.vRandom)
  {
    if n == 0 then s
    else ShuffleRound(Shuffled(s, n - 1, rnd), n - 1, rnd)
  }

  function ShuffleRound(s: State, n: nat, rnd: Draws): (r: State)
    requires n < |s.vRandom| && RandomOk(s.mapInfo, s.vRandom)
    ensures |r.vRandom| == |s.vRandom| && RandomOk(r.mapInfo, r.vRandom)
  {
    var j := RandInt(rnd, n, |s.vRandom| - n) + n;
    SwapKeeps(s, n, j);
    Swapped(s, n, j)
  }
}

/** What the debug consistency check of the address manager establishes. */
module AddrCheck {
  import opened Common
  import opened AddrTypes
  import opened AddrState
  import opened AddrInvariant
  import opened AddrTheorems

  /** The tried slots in the order the check visits them. */
  function Flat(vv: seq<seq<int>>): seq<int> {
    if vv == [] then [] else Flat(vv[..|vv| - 1]) + vv[|vv| - 1]
  }

  /** A lookup that inserts 0 for an absent key, as indexing a map does. */
  function Lookup(a: map<NetAddr, int>, n: NetAddr): int {
    if n in a then a[n] else 0
  }

  /** What such a lookup leaves behind. */
  function Entered(a: map<NetAddr, int>, n: NetAddr): (r: map<NetAddr, int>)
    ensures forall x :: Lookup(r, x) == Lookup(a, x)
  {
    if n in a then a else a[n := 0]
  }

  ghost predicate RecordPasses(s: State, id: int)
    requires id in s.mapInfo
  {
    var info := s.mapInfo[id];
    && InfoStamped(info)
    && (if info.fInTried then info.nRefCount == 0 else 0 < info.nRefCount <= NEW_BUCKETS_PER_ADDRESS)
    && Lookup(s.mapAddr, info.Net()) == id
    && Holds(s.vRandom, info.nRandomPos, id)
  }

  ghost predicate TriedPasses(s: State) {
    NoDup(Flat(s.vvTried)) && Elements(Flat(s.vvTried)) == TriedIds(s.mapInfo)
  }

  ghost predicate NewPasses(s: State) {
    && (forall b | 0 <= b < |s.vvNew| :: s.vvNew[b] <= NewIds(s.mapInfo))
    && (forall id <- NewIds(s.mapInfo) :: s.mapInfo[id].nRefCount == Occurrences(s.vvNew, id))
  }

  /** What a result of 0 means. */
  ghost predicate Passes(s: State) {
    && |s.vRandom| == s.nTried + s.nNew
    && (forall id <- s.mapInfo :: RecordPasses(s, id))
    && CountsOk(s.mapInfo, s.nTried, s.nNew)
    && TriedPasses(s)
    && NewPasses(s)
  }

  /** What the check does not look at. */
  ghost predicate Unchecked(net: Network, s: State) {
    && IdsOk(s.mapInfo, s.nIdCount)
    && |s.vvTried| == TRIED_BUCKET_COUNT && |s.vvNew| == NEW_BUCKET_COUNT
    && (forall b | 0 <= b < |s.vvTried| :: |s.vvTried[b]| <= TRIED_BUCKET_SIZE)
    && (forall b | 0 <= b < |s.vvNew| :: |s.vvNew[b]| <= NEW_BUCKET_SIZE)
    && (forall b | 0 <= b < |s.vvTried| :: forall id <- s.vvTried[b] ::
          id in s.mapInfo ==> GetTriedBucket(net, s.nKey, s.mapInfo[id].addr.svc) == b)
    && (forall n <- s.mapAddr :: KnownAs(s.mapInfo, s.mapAddr[n], n))
    && (0 in s.mapInfo ==> s.mapInfo[0].Net() in s.mapAddr)
  }

  /** Some record has a given defect. */
  ghost predicate Defective(s: State, code: int, id: int)
    requires id in s.mapInfo
  {
    var info := s.mapInfo[id];
    match code
    case -1 => info.fInTried && info.nLastSuccess == 0
    case -2 => info.fInTried && info.nRefCount != 0
    case -3 => !info.fInTried && (info.nRefCount < 0 || info.nRefCount > NEW_BUCKETS_PER_ADDRESS)
    case -4 => !info.fInTried && info.nRefCount == 0
    case -5 => Lookup(s.mapAddr, info.Net()) != id
    case -14 => !Holds(s.vRandom, info.nRandomPos, id)
    case -6 => info.addr.nLastTry < 0
    case -8 => info.nLastSuccess < 0
    case _ => false
  }

  /** What each error code reports. */
  ghost predicate Fault(s: State, code: int) {
    match code
    case -7 => |s.vRandom| != s.nTried + s.nNew
    case -9 => s.nTried != |TriedIds(s.mapInfo)|
    case -10 => s.nNew != |NewIds(s.mapInfo)|
    case -11 => !(NoDup(Flat(s.vvTried)) && Elements(Flat(s.vvTried)) <= TriedIds(s.mapInfo))
    case -12 => !NewWithin(s)
    case -13 => !(TriedIds(s.mapInfo) <= Elements(Flat(s.vvTried)))
    case -15 => exists id <- NewIds(s.mapInfo) :: Occurrences(s.vvNew, id) < s.mapInfo[id].nRefCount
    case _ => exists id <- s.mapInfo :: Defective(s, code, id)
  }

  /** Only new ids are in the new buckets, none in more than its count. */
  ghost predicate NewWithin(s: State) {
    && (forall b | 0 <= b < |s.vvNew| :: s.vvNew[b] <= NewIds(s.mapInfo))
    && (forall id <- NewIds(s.mapInfo) :: Occurrences(s.vvNew, id) <= s.mapInfo[id].nRefCount)
  }

  /** Entering absent addresses changes no verdict. */
  lemma SameVerdict(s: State, a: map<NetAddr, int>, code: int, id: int)
    requires id in s.mapInfo && forall x :: Lookup(a, x) == Lookup(s.mapAddr, x)
    ensures RecordPasses(s.(mapAddr := a), id) == RecordPasses(s, id)
    ensures Defective(s.(mapAddr := a), code, id) == Defective(s, code, id)
  {
  }

  /** A reported fault is real. */
  lemma FaultFails(s: State, code: int)
    requires Fault(s, code)
    ensures !Passes(s)
  {
    if exists id <- s.mapInfo :: Defective(s, code, id) {
      var id :| id in s.mapInfo && Defective(s, code, id);
      assert !RecordPasses(s, id);
    }
  }

  /** The order in which one record is tested. */
  function Turn(code: int): nat {
    match code
    case -1 => 1
    case -2 => 2
    case -3 => 3
    case -4 => 4
    case -5 => 5
    case -14 => 6
    case -6 => 7
    case -8 => 8
    case _ => 9
  }

  /** The first of the tests that a record fails. */
  ghost predicate FirstFailed(s: State, code: int, id: int)
    requires id in s.mapInfo
  {
    Defective(s, code, id) && forall c :: Turn(c) < Turn(code) ==> !Defective(s, c, id)
  }

  /** What each code tells about the tables. */
  lemma CodeMeaning(s: State, code: int)
    requires Fault(s, code)
    ensures -15 <= code <= -1
    ensures code == -1 ==> exists id <- s.mapInfo :: s.mapInfo[id].fInTried && s.mapInfo[id].nLastSuccess == 0
    ensures code == -2 ==> exists id <- s.mapInfo :: s.mapInfo[id].fInTried && s.mapInfo[id].nRefCount != 0
    ensures code == -3 ==>
      exists id <- s.mapInfo :: !s.mapInfo[id].fInTried && !(0 <= s.mapInfo[id].nRefCount <= 4)
    ensures code == -4 ==> exists id <- s.mapInfo :: !s.mapInfo[id].fInTried && s.mapInfo[id].nRefCount == 0
    ensures code == -5 ==>
      exists id <- s.mapInfo :: (var n := s.mapInfo[id].Net(); if n in s.mapAddr then s.mapAddr[n] != id else id != 0)
    ensures code == -6 ==> exists id <- s.mapInfo :: s.mapInfo[id].addr.nLastTry < 0
    ensures code == -7 ==> |s.vRandom| != s.nTried + s.nNew
    ensures code == -8 ==> exists id <- s.mapInfo :: s.mapInfo[id].nLastSuccess < 0
    ensures code == -9 ==> s.nTried != |TriedIds(s.mapInfo)|
    ensures code == -10 ==> s.nNew != |NewIds(s.mapInfo)|
    ensures code == -13 ==> exists id <- TriedIds(s.mapInfo) :: forall b | 0 <= b < |s.vvTried| :: id !in s.vvTried[b]
    ensures code == -14 ==>
      exists id <- s.mapInfo :: (var i := s.mapInfo[id].nRandomPos; !(0 <= i < |s.vRandom|) || s.vRandom[i] != id)
  {
    if code == -13 {
      var id := OneMissing(TriedIds(s.mapInfo), Elements(Flat(s.vvTried)));
      forall b | 0 <= b < |s.vvTried| ensures id !in s.vvTried[b] {
        if id in s.vvTried[b] { FlatContains(s.vvTried, b, id); }
      }
    } else if code == -5 || code == -14 {
      var id :| id in s.mapInfo && Defective(s, code, id);
    }
  }

  lemma OneMissing<T>(s: set<T>, t: set<T>) returns (x: T)
    requires !(s <= t)
    ensures x in s && x !in t
  {
    x :| x in s && x !in t;
  }

  // ----- the flattened tried table -----------------------------------------

  lemma {:induction false} FlatHolds(vv: seq<seq<int>>, id: int) returns (b: nat)
    requires id in Flat(vv)
    ensures b < |vv| && id in vv[b]
  {
    var last := |vv| - 1;
    if id in vv[last] { b := last; } else { b := FlatHolds(vv[..last], id); }
  }

  lemma {:induction false} FlatContains(vv: seq<seq<int>>, b: nat, id: int)
    requires b < |vv| && id in vv[b]
    ensures id in Flat(vv)
  {
    if b < |vv| - 1 { FlatContains(vv[..|vv| - 1], b, id); }
  }

  lemma ConcatNoDup(xs: seq<int>, ys: seq<int>)
    ensures NoDup(xs + ys) <==> NoDup(xs) && NoDup(ys) && forall x :: !(x in xs && x in ys)
  {
    var zs := xs + ys;
    if NoDup(zs) {
      assert forall i | 0 <= i < |xs| :: xs[i] == zs[i];
      assert forall j | 0 <= j < |ys| :: ys[j] == zs[|xs| + j];
    } else {
      var i, j :| 0 <= i < j < |zs| && zs[i] == zs[j];
      if i < |xs| <= j { assert xs[i] in xs && ys[j - |xs|] in ys; }
    }
  }

  /** No id twice in the flattened table: none twice in a bucket, none in two. */
  lemma {:induction false} FlatNoDup(vv: seq<seq<int>>)
    requires forall b | 0 <= b < |vv| :: NoDup(vv[b])
    requires forall b, c, id | 0 <= b < c < |vv| && id in vv[b] :: id !in vv[c]
    ensures NoDup(Flat(vv))
  {
    if vv != [] {
      var last := |vv| - 1;
      FlatNoDup(vv[..last]);
      forall x ensures !(x in Flat(vv[..last]) && x in vv[last]) {
        if x in Flat(vv[..last]) {
          var b := FlatHolds(vv[..last], x);
        }
      }
      ConcatNoDup(Flat(vv[..last]), vv[last]);
    }
  }

  lemma {:induction false} NoDupFlat(vv: seq<seq<int>>, b: nat)
    requires NoDup(Flat(vv)) && b < |vv|
    ensures NoDup(vv[b])
  {
    var last := |vv| - 1;
    ConcatNoDup(Flat(vv[..last]), vv[last]);
    if b < last { NoDupFlat(vv[..last], b); }
  }

  /** What has been visited is a prefix of what will be. */
  lemma {:induction false} FlatPrefix(vv: seq<seq<int>>, n: nat, j: nat)
    requires n < |vv| && j < |vv[n]|
    ensures var seen := Flat(vv[..n]) + vv[n][..j];
      seen + [vv[n][j]] <= Flat(vv)
  {
    var seen := Flat(vv[..n]) + vv[n][..j];
    var last := |vv| - 1;
    if n == last {
      assert Flat(vv)[|seen|] == vv[n][j];
    } else {
      assert vv[..last][..n] == vv[..n];
      FlatPrefix(vv[..last], n, j);
      assert Flat(vv[..last]) <= Flat(vv);
    }
  }

  lemma {:induction false} OccurrencesPrefix(vv: seq<set<int>>, n: nat, id: int)
    requires n <= |vv|
    ensures Occurrences(vv[..n], id) <= Occurrences(vv, id)
  {
    if n == |vv| {
      assert vv[..n] == vv;
    } else {
      assert vv[..|vv| - 1][..n] == vv[..n];
      OccurrencesPrefix(vv[..|vv| - 1], n, id);
    }
  }

  /** Meeting an id that is not tried, or one met before, proves the table faulty. */
  lemma SlotFault(s: State, n: nat, j: nat)
    requires n < |s.vvTried| && j < |s.vvTried[n]|
    requires s.vvTried[n][j] !in TriedIds(s.mapInfo) || s.vvTried[n][j] in Flat(s.vvTried[..n]) + s.vvTried[n][..j]
    ensures Fault(s, -11)
  {
    var id, flat := s.vvTried[n][j], Flat(s.vvTried);
    var seen := Flat(s.vvTried[..n]) + s.vvTried[n][..j];
    FlatPrefix(s.vvTried, n, j);
    assert flat[|seen|] == id;
    if id in seen {
      var i :| 0 <= i < |seen| && seen[i] == id;
      assert flat[i] == flat[|seen|];
    } else {
      assert id in Elements(flat);
    }
  }

  /** How often an id has been met, `ids[..j]` being what was seen of bucket `n`. */
  ghost function Met(s: State, n: nat, ids: seq<int>, id: int): nat
    requires n <= |s.vvNew|
  {
    Occurrences(s.vvNew[..n], id) + if id in ids then 1 else 0
  }

  /** What is left to be met of each new id. */
  ghost predicate Remaining(s: State, n: nat, ids: seq<int>, left: map<int, int>)
    requires n <= |s.vvNew|
  {
    && (forall id <- left ::
          id in NewIds(s.mapInfo) && left[id] == s.mapInfo[id].nRefCount - Met(s, n, ids, id) && left[id] > 0)
    && (forall id <- NewIds(s.mapInfo) :: Met(s, n, ids, id) <= s.mapInfo[id].nRefCount
                                        && (id !in left ==> Met(s, n, ids, id) == s.mapInfo[id].nRefCount))
    && (forall b | 0 <= b < n :: s.vvNew[b] <= NewIds(s.mapInfo))
    && (forall id <- ids :: id in NewIds(s.mapInfo))
  }

  lemma NextBucket(s: State, n: nat, ids: seq<int>, left: map<int, int>)
    requires n < |s.vvNew| && (forall id :: id in ids <==> id in s.vvNew[n]) && Remaining(s, n, ids, left)
    ensures Remaining(s, n + 1, [], left)
  {
    assert s.vvNew[..n + 1][..n] == s.vvNew[..n];
    forall id ensures Met(s, n + 1, [], id) == Met(s, n, ids, id) {
    }
    forall b | 0 <= b < n + 1 ensures s.vvNew[b] <= NewIds(s.mapInfo) {
      if b == n {
        forall id | id in s.vvNew[n] ensures id in NewIds(s.mapInfo) { assert id in ids; }
      }
    }
  }

  lemma FirstBucket(s: State, left: map<int, int>)
    requires forall id <- s.mapInfo :: !s.mapInfo[id].fInTried ==> s.mapInfo[id].nRefCount > 0
    requires left.Keys == NewIds(s.mapInfo) && forall id <- left :: left[id] == s.mapInfo[id].nRefCount
    ensures Remaining(s, 0, [], left)
  {
    forall id ensures id in left <==> id in NewIds(s.mapInfo) {
      assert id in left <==> id in left.Keys;
    }
  }

  /** One more id met: its count goes down, and it goes when none is left. */
  lemma NextId(s: State, n: nat, ids: seq<int>, left: map<int, int>, id: int)
    requires n < |s.vvNew| && Remaining(s, n, ids, left) && id in left && id !in ids
    ensures Remaining(s, n, ids + [id], if left[id] == 1 then left - {id} else left[id := left[id] - 1])
  {
    forall x ensures Met(s, n, ids + [id], x) == Met(s, n, ids, x) + if x == id then 1 else 0 {
    }
  }

  /** Meeting an id that is not new, or that nothing is left of, proves the table faulty. */
  lemma EntryFault(s: State, n: nat, ids: seq<int>, left: map<int, int>, id: int)
    requires n < |s.vvNew| && Remaining(s, n, ids, left) && id !in left && id in s.vvNew[n] && id !in ids
    ensures Fault(s, -12)
  {
    if id in NewIds(s.mapInfo) {
      assert s.vvNew[..n + 1][..n] == s.vvNew[..n];
      OccurrencesPrefix(s.vvNew, n + 1, id);
    }
  }

  lemma NoneMissing<T>(a: set<T>, b: set<T>)
    requires a <= b && b - a == {}
    ensures a == b
  {
    forall x | x in b ensures x in a {
      assert x !in b - a;
    }
  }

  /** Nothing left over, and no fault met on the way, is what passing means. */
  lemma NothingLeft(s: State)
    requires |s.vRandom| == s.nTried + s.nNew && CountsOk(s.mapInfo, s.nTried, s.nNew)
    requires forall id <- s.mapInfo :: RecordPasses(s, id)
    requires NoDup(Flat(s.vvTried)) && Elements(Flat(s.vvTried)) <= TriedIds(s.mapInfo)
    requires TriedIds(s.mapInfo) - Elements(Flat(s.vvTried)) == {}
    requires Remaining(s, |s.vvNew|, [], map[])
    ensures Passes(s)
  {
    NoneMissing(Elements(Flat(s.vvTried)), TriedIds(s.mapInfo));
    assert s.vvNew[..|s.vvNew|] == s.vvNew;
    forall id | id in NewIds(s.mapInfo) ensures Met(s, |s.vvNew|, [], id) == Occurrences(s.vvNew, id) {
    }
  }

  lemma SomethingLeft(s: State, left: map<int, int>, id: int)
    requires Remaining(s, |s.vvNew|, [], left) && id in left
    ensures Fault(s, -15)
  {
    assert s.vvNew[..|s.vvNew|] == s.vvNew;
    assert Met(s, |s.vvNew|, [], id) == Occurrences(s.vvNew, id);
  }

  /** The faults of the tables have nothing to do with the address index. */
  lemma FaultElsewhere(s: State, a: map<NetAddr, int>, code: int)
    requires code in {-9, -10, -11, -12, -13, -15}
    ensures Fault(s.(mapAddr := a), code) <==> Fault(s, code)
  {
  }

  lemma RemainingElsewhere(s: State, a: map<NetAddr, int>, left: map<int, int>)
    ensures Remaining(s.(mapAddr := a), |s.vvNew|, [], left) <==> Remaining(s, |s.vvNew|, [], left)
  {
    forall id ensures Met(s.(mapAddr := a), |s.vvNew|, [], id) == Met(s, |s.vvNew|, [], id) {
    }
  }

  // ----- collecting the ids -----------------------------------------------------

  /** What the first loop has collected of the records no longer to do. */
  ghost predicate Collected(m: map<int, AddrInfo>, todo: set<int>, setTried: set<int>, mapNew: map<int, int>) {
    && setTried == TriedIds(m) - todo && mapNew.Keys == NewIds(m) - todo
    && forall id <- mapNew :: mapNew[id] == m[id].nRefCount
  }

  lemma CollectedNone(m: map<int, AddrInfo>)
    ensures Collected(m, m.Keys, {}, map[])
  {
    assert TriedIds(m) - m.Keys == {} && NewIds(m) - m.Keys == {};
  }

  lemma CollectedNext(m: map<int, AddrInfo>, todo: set<int>, setTried: set<int>, mapNew: map<int, int>, n: int)
    requires Collected(m, todo, setTried, mapNew) && n in todo && n in m
    ensures if m[n].fInTried then Collected(m, todo - {n}, setTried + {n}, mapNew)
            else Collected(m, todo - {n}, setTried, mapNew[n := m[n].nRefCount])
  {
    if m[n].fInTried {
      assert TriedIds(m) - (todo - {n}) == setTried + {n};
      assert NewIds(m) - (todo - {n}) == NewIds(m) - todo;
    } else {
      assert TriedIds(m) - (todo - {n}) == setTried;
      assert NewIds(m) - (todo - {n}) == (NewIds(m) - todo) + {n};
      assert mapNew[n := m[n].nRefCount].Keys == mapNew.Keys + {n};
    }
  }

  lemma CollectedAll(m: map<int, AddrInfo>, setTried: set<int>, mapNew: map<int, int>)
    requires Collected(m, {}, setTried, mapNew)
    ensures setTried == TriedIds(m) && mapNew.Keys == NewIds(m)
    ensures forall id <- mapNew :: mapNew[id] == m[id].nRefCount
  {
  }

  // ----- soundness -----------------------------------------------------------

  /** The pigeonhole: as many places as ids, every id in its place, so every
      place holds an id and `vRandom` is a permutation of the ids. */
  lemma CheckedPermutation(s: State)
    requires Passes(s)
    ensures RandomOk(s.mapInfo, s.vRandom)
  {
    var m, r := s.mapInfo, s.vRandom;
    StatusPartition(m);
    forall id | id in m.Keys ensures id in Elements(r) {
      assert RecordPasses(s, id);
    }
    ElementsSize(r);
    SubsetSize(m.Keys, Elements(r));
    SubsetEqual(m.Keys, Elements(r));
    forall id | id in m ensures Holds(r, m[id].nRandomPos, id) {
      assert RecordPasses(s, id);
    }
    forall i | 0 <= i < |r| ensures PlacedAt(m, r[i], i) {
      var id := r[i];
      assert id in Elements(r) && id in m.Keys;
      assert RecordPasses(s, id);
    }
  }

  lemma CheckedTried(net: Network, s: State)
    requires Passes(s) && Unchecked(net, s)
    ensures TriedOk(net, s.nKey, s.mapInfo, s.vvTried)
  {
    var m, vv := s.mapInfo, s.vvTried;
    forall id ensures id in Flat(vv) <==> id in m && m[id].fInTried {
      assert id in Elements(Flat(vv)) <==> id in TriedIds(m);
    }
    forall b | 0 <= b < |vv| ensures BucketOk(net, s.nKey, m, b, vv[b]) {
      NoDupFlat(vv, b);
      forall id | id in vv[b] ensures id in Flat(vv) { FlatContains(vv, b, id); }
    }
    forall id | id in m && m[id].fInTried
      ensures id in vv[GetTriedBucket(net, s.nKey, m[id].addr.svc)]
    {
      var b := FlatHolds(vv, id);
    }
  }

  lemma CheckedNew(s: State)
    requires Passes(s) && |s.vvNew| == NEW_BUCKET_COUNT && NOBODY !in s.mapInfo
    requires forall b | 0 <= b < |s.vvNew| :: |s.vvNew[b]| <= NEW_BUCKET_SIZE
    ensures NewOk(s.mapInfo, s.vvNew, NOBODY)
  {
    forall id | id in s.mapInfo
      ensures s.mapInfo[id].nRefCount == Occurrences(s.vvNew, id)
      ensures s.mapInfo[id].nRefCount <= NEW_BUCKETS_PER_ADDRESS
      ensures s.mapInfo[id].fInTried <==> s.mapInfo[id].nRefCount == 0
    {
      assert RecordPasses(s, id);
      if s.mapInfo[id].fInTried {
        assert id !in NewIds(s.mapInfo);
        OccurrencesNone(s.vvNew, id);
      } else {
        assert id in NewIds(s.mapInfo);
      }
    }
  }

  lemma ConsistentTriedPasses(net: Network, s: State)
    requires Consistent(net, s)
    ensures TriedPasses(s)
  {
    var m, vv := s.mapInfo, s.vvTried;
    forall b | 0 <= b < |vv| ensures BucketOk(net, s.nKey, m, b, vv[b]) {
    }
    FlatNoDup(vv);
    forall id ensures id in Flat(vv) <==> id in TriedIds(m) {
      if id in Flat(vv) { var b := FlatHolds(vv, id); }
      if id in TriedIds(m) { FlatContains(vv, GetTriedBucket(net, s.nKey, m[id].addr.svc), id); }
    }
    assert forall id :: id in Elements(Flat(vv)) <==> id in Flat(vv);
  }

  lemma ConsistentNewPasses(net: Network, s: State)
    requires Consistent(net, s)
    ensures NewPasses(s)
  {
    forall b | 0 <= b < |s.vvNew| ensures s.vvNew[b] <= NewIds(s.mapInfo) {
      forall id | id in s.vvNew[b] ensures id in NewIds(s.mapInfo) { OccurrencesPositive(s.vvNew, id, b); }
    }
  }

  /** A consistent, stamped state is exactly one that passes the check and has
      what the check does not look at. */
  lemma CheckExact(net: Network, s: State)
    ensures Consistent(net, s) && Stamped(s) <==> Passes(s) && Unchecked(net, s)
  {
    if Consistent(net, s) && Stamped(s) {
      SizeBound(net, s);
      ConsistentTriedPasses(net, s);
      ConsistentNewPasses(net, s);
      ConsistentRecordsPass(net, s);
    }
    if Passes(s) && Unchecked(net, s) {
      CheckedPermutation(s);
      CheckedTried(net, s);
      CheckedNew(s);
      CheckedRecords(net, s);
    }
  }

  lemma ConsistentRecordsPass(net: Network, s: State)
    requires Consistent(net, s) && Stamped(s)
    ensures Unchecked(net, s) && forall id <- s.mapInfo :: RecordPasses(s, id)
  {
    forall id | id in s.mapInfo ensures RecordPasses(s, id) {
      assert Holds(s.vRandom, s.mapInfo[id].nRandomPos, id);
    }
    forall b | 0 <= b < |s.vvTried| ensures BucketOk(net, s.nKey, s.mapInfo, b, s.vvTried[b]) {
    }
  }

  lemma CheckedRecords(net: Network, s: State)
    requires Passes(s) && Unchecked(net, s)
    ensures AddrOk(s.mapInfo, s.mapAddr) && Stamped(s)
  {
    forall id | id in s.mapInfo
      ensures s.mapInfo[id].Net() in s.mapAddr && s.mapAddr[s.mapInfo[id].Net()] == id && InfoStamped(s.mapInfo[id])
    {
      assert RecordPasses(s, id);
    }
  }
}

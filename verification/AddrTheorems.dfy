/** What holds of the address manager over whole runs. */
module AddrTheorems {
  import opened Common
  import opened AddrTypes
  import opened AddrState
  import opened AddrInvariant

  // ----- Good_ ----------------------------------------------------------------

  /** The search for a bucket cannot fail on a record that is not tried. */
  lemma OriginFound(net: Network, s: State, id: int, start: nat)
    requires Consistent(net, s) && id in s.mapInfo && !s.mapInfo[id].fInTried && start < NEW_BUCKET_COUNT
    ensures Origin(s.vvNew, id, start, 0).Some?
  {
    if forall b | 0 <= b < |s.vvNew| :: id !in s.vvNew[b] {
      OccurrencesNone(s.vvNew, id);
    } else {
      var b :| 0 <= b < |s.vvNew| && id in s.vvNew[b];
      var i := (b + NEW_BUCKET_COUNT - start) % NEW_BUCKET_COUNT;
      assert Around(i, start, |s.vvNew|) == b;
    }
  }

  /** The service is on record with this very port. */
  ghost predicate Matches(s: State, svc: Service) {
    Find(s, svc.net).Some? && s.mapInfo[Find(s, svc.net).value].addr.svc == svc
  }

  lemma GoodMatched(net: Network, s: State, id: int, svc: Service, time: int, rnd: Draws)
    requires Consistent(net, s) && Find(s, svc.net) == Some(id) && s.mapInfo[id].addr.svc == svc
    ensures var u := s.(mapInfo := s.mapInfo[id := Succeeded(s.mapInfo[id], time)]);
      Promotion(net, u, Good(net, s, svc, time, rnd), id)
      && Good(net, s, svc, time, rnd).mapInfo[id].addr.svc == svc
  {
    hide Coherent, MadeTried, Origin;
    var info := Succeeded(s.mapInfo[id], time);
    var u := s.(mapInfo := s.mapInfo[id := info]);
    TouchKeeps(net, s, id, info);
    if !info.fInTried {
      var start := RandInt(rnd, 0, NEW_BUCKET_COUNT);
      OriginFound(net, u, id, start);
      var origin := Origin(u.vvNew, id, start, 0).value;
      MadeTriedPromotes(net, u, id, origin, rnd, 1);
      MadeTriedRecord(net, u, id, origin, rnd, 1);
    }
  }

  /** A good report on a known service makes it tried and forgets no address;
      on any other service it does nothing. */
  lemma GoodKeeps(net: Network, s: State, svc: Service, time: int, rnd: Draws)
    requires Consistent(net, s)
    ensures var t := Good(net, s, svc, time, rnd);
      && Consistent(net, t) && t.mapAddr == s.mapAddr && t.mapInfo.Keys == s.mapInfo.Keys
      && (if Matches(s, svc) then Matches(t, svc) && t.mapInfo[s.mapAddr[svc.net]].fInTried else t == s)
  {
    if Matches(s, svc) {
      GoodMatched(net, s, Find(s, svc.net).value, svc, time, rnd);
    }
    hide Coherent, MadeTried, Origin;
  }

  lemma GoodConsistent(net: Network, s: State, svc: Service, time: int, rnd: Draws)
    requires Consistent(net, s)
    ensures Consistent(net, Good(net, s, svc, time, rnd))
  {
    GoodKeeps(net, s, svc, time, rnd);
    hide *;
  }

  lemma AddConsistent(net: Network, s: State, addr: Address, source: NetAddr, penalty: int, now: int, rnd: Draws)
    requires Consistent(net, s)
    ensures Consistent(net, Add(net, s, addr, source, penalty, now, rnd).0)
  {
    AddKeeps(net, s, addr, source, penalty, now, rnd);
    hide *;
  }

  /** A new address is on record with its source and its penalized time, untried,
      in the new bucket that it and its source choose. */
  lemma NewcomerFiled(net: Network, s: State, addr: Address, source: NetAddr, penalty: int, now: int, rnd: Draws)
    requires Consistent(net, s) && net.routable(addr.svc.net) && addr.svc.net !in s.mapAddr
    ensures var t := Add(net, s, addr, source, penalty, now, rnd).0;
      var id := s.nIdCount;
      && Find(t, addr.svc.net) == Some(id) && |t.vvNew| == NEW_BUCKET_COUNT
      && id in t.vvNew[GetNewBucket(net, s.nKey, addr.svc, source)]
      && !t.mapInfo[id].fInTried && t.mapInfo[id].source == source && t.mapInfo[id].nAttempts == 0
      && t.mapInfo[id].addr == addr.(nLastTry := 0, nTime := ToUint32(Max(0, addr.nTime - penalty)))
  {
    var id, b := s.nIdCount, GetNewBucket(net, s.nKey, addr.svc, source);
    var u := Discovered(s, addr, source, penalty);
    var t := Add(net, s, addr, source, penalty, now, rnd).0;
    assert id !in s.mapInfo && id !in s.vvNew[b];
    hide Coherent, Filed;
    DiscoveryKeeps(net, s, addr, source, penalty);
    var lost := FiledKeeps(net, u, id, b, now, rnd, 1);
    FiledRecords(net, u, id, b, now, rnd, 1);
    FindExact(net, t, addr.svc.net);
  }

  /** The promoted record itself keeps everything but its status. */
  lemma MadeTriedRecord(net: Network, s: State, id: int, origin: nat, rnd: Draws, k: nat)
    requires Consistent(net, s) && id in s.mapInfo && !s.mapInfo[id].fInTried && origin < |s.vvNew|
    ensures var t := MadeTried(net, s, id, origin, rnd, k);
      && id in t.mapInfo && t.mapInfo[id] == s.mapInfo[id].(nRefCount := 0, fInTried := true)
      && (forall x <- t.mapInfo :: x in s.mapInfo &&
            (x == id || t.mapInfo[x] == s.mapInfo[x]
             || t.mapInfo[x] == s.mapInfo[x].(nRefCount := 1, fInTried := false)))
  {
    if |s.vvTried[GetTriedBucket(net, s.nKey, s.mapInfo[id].addr.svc)]| < TRIED_BUCKET_SIZE {
      PushShape(net, s, id, origin, rnd, k);
    } else {
      var seen, out := EvictShape(net, s, id, origin, rnd, k);
    }
    hide MadeTried, Coherent, InspectFully;
  }

  // ----- Attempt_, Connected_, GetAddr_ --------------------------------------------

  lemma AttemptKeeps(net: Network, s: State, svc: Service, time: int)
    requires Consistent(net, s)
    ensures var t := Attempt(s, svc, time);
      Consistent(net, t) && t.mapAddr == s.mapAddr && Alike(s.mapInfo, t.mapInfo)
  {
    hide Coherent;
    if Matches(s, svc) {
      var id := Find(s, svc.net).value;
      TouchKeeps(net, s, id, Attempt(s, svc, time).mapInfo[id]);
    }
  }

  lemma AttemptConsistent(net: Network, s: State, svc: Service, time: int)
    requires Consistent(net, s)
    ensures Consistent(net, Attempt(s, svc, time))
  {
    AttemptKeeps(net, s, svc, time);
    hide *;
  }

  lemma ConnectedKeeps(net: Network, s: State, svc: Service, time: int)
    requires Consistent(net, s)
    ensures var t := Connected(s, svc, time);
      Consistent(net, t) && t.mapAddr == s.mapAddr && Alike(s.mapInfo, t.mapInfo)
  {
    hide Coherent;
    if Matches(s, svc) {
      var id := Find(s, svc.net).value;
      TouchKeeps(net, s, id, Connected(s, svc, time).mapInfo[id]);
    }
  }

  lemma ConnectedConsistent(net: Network, s: State, svc: Service, time: int)
    requires Consistent(net, s)
    ensures Consistent(net, Connected(s, svc, time))
  {
    ConnectedKeeps(net, s, svc, time);
    hide *;
  }

  ghost predicate SameTables(s: State, t: State) {
    && t.nKey == s.nKey && t.nIdCount == s.nIdCount && t.mapAddr == s.mapAddr
    && t.nTried == s.nTried && t.vvTried == s.vvTried && t.nNew == s.nNew && t.vvNew == s.vvNew
  }

  /** Only the order of `vRandom`, and the positions with it, may differ. */
  ghost predicate Reordered(net: Network, s: State, t: State) {
    && Consistent(net, t) && Alike(s.mapInfo, t.mapInfo) && SameRecords(s.mapInfo, t.mapInfo)
    && |t.vRandom| == |s.vRandom| && SameTables(s, t)
  }

  lemma SwapReorders(net: Network, s: State, i: nat, j: nat)
    requires Consistent(net, s) && i < |s.vRandom| && j < |s.vRandom|
    ensures PlacedAt(s.mapInfo, s.vRandom[i], i) && PlacedAt(s.mapInfo, s.vRandom[j], j)
    ensures Reordered(net, s, Swapped(s, i, j))
  {
    SwapRecords(s, i, j);
    SwapKeeps(s, i, j);
    var t := Swapped(s, i, j);
    AlikeKeeps(net, s, t.mapInfo, t.vRandom, NOBODY);
  }

  lemma ReorderedTransitive(net: Network, s: State, t: State, u: State)
    requires Reordered(net, s, t) && Reordered(net, t, u)
    ensures Reordered(net, s, u)
  {
    RecordsTransitive(s.mapInfo, t.mapInfo, u.mapInfo);
  }

  lemma RoundReorders(net: Network, s: State, t: State, n: nat, rnd: Draws)
    requires Reordered(net, s, t) && n < |t.vRandom|
    ensures Reordered(net, s, ShuffleRound(t, n, rnd))
  {
    hide Swapped, RandomOk, Coherent, Alike, SameRecords;
    var j := RandInt(rnd, n, |t.vRandom| - n) + n;
    SwapReorders(net, t, n, j);
    ReorderedTransitive(net, s, t, Swapped(t, n, j));
  }

  lemma ShuffledUnfold(s: State, n: nat, rnd: Draws)
    requires RandomOk(s.mapInfo, s.vRandom) && 0 < n <= |s.vRandom|
    ensures Shuffled(s, n, rnd) == ShuffleRound(Shuffled(s, n - 1, rnd), n - 1, rnd)
  {
    hide Swapped, RandomOk;
  }

  lemma ShuffledNone(net: Network, s: State, rnd: Draws)
    requires Consistent(net, s)
    ensures Reordered(net, s, Shuffled(s, 0, rnd))
  {
  }

  lemma {:induction false} ShuffleKeeps(net: Network, s: State, n: nat, rnd: Draws)
    requires Consistent(net, s) && n <= |s.vRandom|
    ensures Reordered(net, s, Shuffled(s, n, rnd))
  {
    hide Shuffled, ShuffleRound, Alike, SameRecords, RandomOk, AddrOk, IdsOk, TriedOk, NewOk, CountsOk;
    if n == 0 {
      ShuffledNone(net, s, rnd);
    } else {
      ShuffleKeeps(net, s, n - 1, rnd);
      RoundReorders(net, s, Shuffled(s, n - 1, rnd), n - 1, rnd);
      ShuffledUnfold(s, n, rnd);
    }
  }

  lemma RoundFixed(s: State, n: nat, rnd: Draws, i: nat)
    requires RandomOk(s.mapInfo, s.vRandom) && i < n - 1 && n <= |s.vRandom|
    ensures Shuffled(s, n, rnd).vRandom[i] == Shuffled(s, n - 1, rnd).vRandom[i]
  {
    ShuffledUnfold(s, n, rnd);
  }

  /** Later rounds leave the positions already filled alone. */
  lemma {:induction false} ShuffleFixed(s: State, n: nat, n': nat, rnd: Draws, i: nat)
    requires RandomOk(s.mapInfo, s.vRandom) && i < n <= n' <= |s.vRandom|
    ensures Shuffled(s, n', rnd).vRandom[i] == Shuffled(s, n, rnd).vRandom[i]
    decreases n'
  {
    hide *;
    if n < n' {
      ShuffleFixed(s, n, n' - 1, rnd, i);
      RoundFixed(s, n', rnd, i);
    }
  }

  /** The addresses picked in the first `n` rounds, each read when picked. */
  function Picks(s: State, n: nat, rnd: Draws): (r: seq<Address>)
    requires n <= |s.vRandom| && RandomOk(s.mapInfo, s.vRandom)
    ensures |r| == n
  {
    if n == 0 then []
    else
      var t := Shuffled(s, n, rnd);
      assert PlacedAt(t.mapInfo, t.vRandom[n - 1], n - 1);
      Picks(s, n - 1, rnd) + [t.mapInfo[t.vRandom[n - 1]].addr]
  }

  lemma SwapStep(s: State, n: nat, rnd: Draws)
    requires RandomOk(s.mapInfo, s.vRandom) && n < |s.vRandom|
    ensures var t, j := Shuffled(s, n, rnd), RandInt(rnd, n, |s.vRandom| - n) + n;
      && n <= j < |t.vRandom| == |s.vRandom| && t.vRandom[n] in t.mapInfo && t.vRandom[j] in t.mapInfo
      && Shuffled(s, n + 1, rnd) == Swapped(t, n, j)
  {
    hide Shuffled, Swapped;
    ShuffledUnfold(s, n + 1, rnd);
    var t, j := Shuffled(s, n, rnd), RandInt(rnd, n, |s.vRandom| - n) + n;
    assert PlacedAt(t.mapInfo, t.vRandom[n], n) && PlacedAt(t.mapInfo, t.vRandom[j], j);
  }

  lemma PickStart(s: State, rnd: Draws)
    requires RandomOk(s.mapInfo, s.vRandom)
    ensures Shuffled(s, 0, rnd) == s && Picks(s, 0, rnd) == []
  {
  }

  lemma PickStep(s: State, n: nat, rnd: Draws)
    requires RandomOk(s.mapInfo, s.vRandom) && n < |s.vRandom|
    ensures var u := Shuffled(s, n + 1, rnd);
      && |u.vRandom| == |s.vRandom| && u.vRandom[n] in u.mapInfo
      && Picks(s, n + 1, rnd) == Picks(s, n, rnd) + [u.mapInfo[u.vRandom[n]].addr]
  {
    hide Shuffled;
    var u := Shuffled(s, n + 1, rnd);
    assert PlacedAt(u.mapInfo, u.vRandom[n], n);
    hide RandomOk;
  }

  /** The picks are the records the shuffle leaves in front, as they were before it. */
  lemma {:induction false} PicksAre(net: Network, s: State, n: nat, n': nat, rnd: Draws, i: nat)
    requires Consistent(net, s) && i < n <= n' <= |s.vRandom|
    ensures var id := Shuffled(s, n', rnd).vRandom[i];
      id in s.mapInfo && Picks(s, n, rnd)[i] == s.mapInfo[id].addr
    decreases n
  {
    hide Shuffled, Picks, Coherent, Alike, RandomOk;
    Parts(net, s, NOBODY);
    PickStep(s, n - 1, rnd);
    if i == n - 1 {
      ShuffleKeeps(net, s, n, rnd);
      ShuffleFixed(s, n, n', rnd, i);
    } else {
      PicksAre(net, s, n - 1, n', rnd, i);
    }
  }

  /** One request: 23 percent of the table, at most 2500, all known, no address twice. */
  lemma GetAddrMeaning(net: Network, s: State, rnd: Draws)
    requires Consistent(net, s)
    ensures var n := GetAddrCount(|s.vRandom|);
      var picks := Picks(s, n, rnd);
      && |picks| == n && n == Min(23 * |s.vRandom| / 100, 2500)
      && (forall i | 0 <= i < n :: Find(s, picks[i].svc.net).Some?
            && picks[i] == s.mapInfo[Find(s, picks[i].svc.net).value].addr)
      && (forall i, j | 0 <= i < j < n :: picks[i].svc.net != picks[j].svc.net)
  {
    var n := GetAddrCount(|s.vRandom|);
    var t := Shuffled(s, n, rnd);
    var picks := Picks(s, n, rnd);
    forall i | 0 <= i < n
      ensures t.vRandom[i] in s.mapInfo && picks[i] == s.mapInfo[t.vRandom[i]].addr
      ensures Find(s, picks[i].svc.net) == Some(t.vRandom[i])
    {
      PicksAre(net, s, n, n, rnd, i);
    }
    forall i, j | 0 <= i < j < n ensures picks[i].svc.net != picks[j].svc.net {
      assert PlacedAt(t.mapInfo, t.vRandom[i], i) && PlacedAt(t.mapInfo, t.vRandom[j], j);
      assert Find(s, picks[i].svc.net) == Some(t.vRandom[i]) && Find(s, picks[j].svc.net) == Some(t.vRandom[j]);
    }
  }

  function Min(a: int, b: int): int { if a < b then a else b }

  // ----- capacity ---------------------------------------------------------------

  /** Everything held by a row of buckets. */
  ghost function Pool(vv: seq<set<int>>): set<int> {
    if vv == [] then {} else Pool(vv[..|vv| - 1]) + vv[|vv| - 1]
  }

  lemma {:induction false} PoolHolds(vv: seq<set<int>>, b: nat, id: int)
    requires b < |vv| && id in vv[b]
    ensures id in Pool(vv)
  {
    if b < |vv| - 1 { PoolHolds(vv[..|vv| - 1], b, id); }
  }

  lemma {:induction false} PoolSize(vv: seq<set<int>>)
    requires forall b | 0 <= b < |vv| :: |vv[b]| <= 64
    ensures |Pool(vv)| <= 64 * |vv|
  {
    if vv != [] {
      PoolSize(vv[..|vv| - 1]);
      UnionSize(Pool(vv[..|vv| - 1]), vv[|vv| - 1]);
    }
  }

  lemma RandomSize(m: map<int, AddrInfo>, r: seq<int>)
    requires RandomOk(m, r)
    ensures NoDup(r) && Elements(r) == m.Keys && |r| == |m.Keys|
  {
    forall i, j | 0 <= i < j < |r| ensures r[i] != r[j] {
      assert PlacedAt(m, r[i], i) && PlacedAt(m, r[j], j);
    }
    forall id ensures id in r <==> id in m {
      if id in m { assert Holds(r, m[id].nRandomPos, id); }
      if id in r { var i :| 0 <= i < |r| && r[i] == id; assert PlacedAt(m, r[i], i); }
    }
    ElementsSize(r);
  }

  lemma StatusPartition(m: map<int, AddrInfo>)
    ensures m.Keys == TriedIds(m) + NewIds(m) && |m.Keys| == |TriedIds(m)| + |NewIds(m)|
  {
    assert TriedIds(m) * NewIds(m) == {};
  }

  lemma TriedCapacity(net: Network, s: State)
    requires Consistent(net, s)
    ensures |TriedIds(s.mapInfo)| <= 64 * TRIED_BUCKET_COUNT
  {
    var vv := seq(|s.vvTried|, b requires 0 <= b < |s.vvTried| => Elements(s.vvTried[b]));
    forall b | 0 <= b < |vv| ensures |vv[b]| <= 64 {
      assert BucketOk(net, s.nKey, s.mapInfo, b, s.vvTried[b]);
      ElementsSize(s.vvTried[b]);
    }
    PoolSize(vv);
    forall id | id in TriedIds(s.mapInfo) ensures id in Pool(vv) {
      var b := GetTriedBucket(net, s.nKey, s.mapInfo[id].addr.svc);
      assert id in s.vvTried[b];
      PoolHolds(vv, b, id);
    }
    SubsetSize(TriedIds(s.mapInfo), Pool(vv));
  }

  lemma NewCapacity(net: Network, s: State)
    requires Consistent(net, s)
    ensures |NewIds(s.mapInfo)| <= 64 * NEW_BUCKET_COUNT
  {
    PoolSize(s.vvNew);
    forall id | id in NewIds(s.mapInfo) ensures id in Pool(s.vvNew) {
      if forall b | 0 <= b < |s.vvNew| :: id !in s.vvNew[b] {
        OccurrencesNone(s.vvNew, id);
      } else {
        var b :| 0 <= b < |s.vvNew| && id in s.vvNew[b];
        PoolHolds(s.vvNew, b, id);
      }
    }
    SubsetSize(NewIds(s.mapInfo), Pool(s.vvNew));
  }

  /** The tables never outgrow the design limits. */
  lemma SizeBound(net: Network, s: State)
    requires Consistent(net, s)
    ensures |s.vRandom| == s.nTried + s.nNew
    ensures s.nTried <= 64 * 64 && s.nNew <= 256 * 64 && |s.vRandom| <= 64 * 64 + 256 * 64
  {
    RandomSize(s.mapInfo, s.vRandom);
    StatusPartition(s.mapInfo);
    TriedCapacity(net, s);
    NewCapacity(net, s);
  }

  // ----- bucket spread ------------------------------------------------------------

  /** The buckets reachable from one group: the hash of the key, the group and a
      word below `words`, reduced to a bucket number. */
  function Reachable(net: Network, key: seq<byte>, group: seq<byte>, words: nat, buckets: nat): (r: seq<int>)
    requires buckets > 0
    ensures |r| == words
  {
    seq(words, (x: nat) => net.hash([Blob(key), Blob(group), Word(x)]) % buckets)
  }

  /** All addresses of one group share four tried buckets, and all addresses
      heard of from one group share 32 new buckets; which one it is depends on the
      address with its port, and on the groups of address and source. */
  lemma GroupsSpread(net: Network, key: seq<byte>, svc: Service, source: NetAddr)
    ensures var tried := Reachable(net, key, net.group(svc.net), 4, 64);
      && |Elements(tried)| <= 4 && GetTriedBucket(net, key, svc) in Elements(tried)
      && GetTriedBucket(net, key, svc) == tried[net.hash([Blob(key), Blob(svc.GetKey())]) % 4]
    ensures var new_ := Reachable(net, key, net.group(source), 32, 256);
      && |Elements(new_)| <= 32 && GetNewBucket(net, key, svc, source) in Elements(new_)
      && GetNewBucket(net, key, svc, source)
         == new_[net.hash([Blob(key), Blob(net.group(svc.net)), Blob(net.group(source))]) % 32]
  {
    var tried := Reachable(net, key, net.group(svc.net), 4, 64);
    var new_ := Reachable(net, key, net.group(source), 32, 256);
    ElementsSize(tried);
    ElementsSize(new_);
    var x := net.hash([Blob(key), Blob(svc.GetKey())]) % 4;
    assert tried[x] == GetTriedBucket(net, key, svc);
    var y := net.hash([Blob(key), Blob(net.group(svc.net)), Blob(net.group(source))]) % 32;
    assert new_[y] == GetNewBucket(net, key, svc, source);
  }

  /** What is hashed of a service: its address and its port, most significant byte
      first, so that no two services are hashed alike. */
  lemma ServiceKeys(svc: Service, svc': Service)
    requires svc.port < 0x1_0000 && svc'.port < 0x1_0000
    ensures var k: seq<int> := svc.GetKey();
      |k| == |svc.net.ip| + 2 && svc.net.ip <= k && svc.port == k[|k| - 2] * 256 + k[|k| - 1]
    ensures svc.GetKey() == svc'.GetKey() ==> svc == svc'
  {
    var k, k' := svc.GetKey(), svc'.GetKey();
    assert k[..|k| - 2] == svc.net.ip && k'[..|k'| - 2] == svc'.net.ip;
    assert k[|k| - 2] == svc.port / 0x100 && k[|k| - 1] == svc.port % 0x100;
    assert k'[|k'| - 2] == svc'.port / 0x100 && k'[|k'| - 1] == svc'.port % 0x100;
  }
}

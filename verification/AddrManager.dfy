/** The stochastic address manager: five redundant tables updated in place.
    Every method computes what `AddrState` specifies for it. */
module AddrManager {
  import opened Common
  import opened AddrTypes
  import opened AddrState
  import opened AddrInvariant
  import opened AddrTheorems
  import opened AddrRecords
  import opened AddrCheck

  class AddrMan {
    const net: Network
    var nKey: seq<byte>
    var nIdCount: int
    var mapInfo: map<int, AddrInfo>
    var mapAddr: map<NetAddr, int>
    var vRandom: seq<int>
    var nTried: int
    var vvTried: seq<seq<int>>
    var nNew: int
    var vvNew: seq<set<int>>

    ghost function View(): State
      reads this
    {
      State(nKey, nIdCount, mapInfo, mapAddr, vRandom, nTried, vvTried, nNew, vvNew)
    }

    ghost predicate Valid()
      reads this
    {
      Consistent(net, View())
    }

    constructor (net: Network, key: seq<byte>)
      ensures this.net == net && View() == Empty(key) && Valid()
    {
      this.net, nKey := net, key;
      nIdCount, mapInfo, mapAddr, vRandom := 0, map[], map[], [];
      nTried, vvTried := 0, seq(TRIED_BUCKET_COUNT, _ => []);
      nNew, vvNew := 0, seq(NEW_BUCKET_COUNT, _ => {});
    }

    // ----- internal steps ---------------------------------------------------

    method Lookup(addr: NetAddr) returns (id: Option<int>)
      ensures id == Find(View(), addr)
    {
      if addr !in mapAddr { return None; }
      var nId := mapAddr[addr];
      if nId in mapInfo { return Some(nId); }
      return None;
    }

    method Create(addr: Address, source: NetAddr) returns (nId: int)
      modifies this
      ensures nId == old(nIdCount) && View() == Created(old(View()), addr, source)
    {
      nId := nIdCount;
      nIdCount := nIdCount + 1;
      mapInfo := mapInfo[nId := NewInfo(addr, source)];
      mapAddr := mapAddr[addr.svc.net := nId];
      mapInfo := mapInfo[nId := mapInfo[nId].(nRandomPos := |vRandom|)];
      vRandom := vRandom + [nId];
    }

    method SwapRandom(nRndPos1: nat, nRndPos2: nat)
      requires nRndPos1 != nRndPos2 ==>
        && nRndPos1 < |vRandom| && nRndPos2 < |vRandom|
        && vRandom[nRndPos1] in mapInfo && vRandom[nRndPos2] in mapInfo
      modifies this
      ensures View() == Swapped(old(View()), nRndPos1, nRndPos2)
    {
      if nRndPos1 == nRndPos2 { return; }
      var nId1, nId2 := vRandom[nRndPos1], vRandom[nRndPos2];
      mapInfo := mapInfo[nId1 := mapInfo[nId1].(nRandomPos := nRndPos2)];
      mapInfo := mapInfo[nId2 := mapInfo[nId2].(nRandomPos := nRndPos1)];
      vRandom := vRandom[nRndPos1 := nId2];
      vRandom := vRandom[nRndPos2 := nId1];
    }

    /** Shuffle the front of a tried bucket and report a position to replace. */
    method SelectTried(nKBucket: nat, rnd: Draws, k: nat) returns (nOldestPos: int)
      requires nKBucket < |vvTried| && forall id <- vvTried[nKBucket] :: id in mapInfo
      modifies `vvTried
      ensures var seen := InspectFully(mapInfo, old(vvTried[nKBucket]), rnd, k);
        && nOldestPos == seen.pos
        && View() == old(View()).(vvTried := old(vvTried)[nKBucket := seen.bucket])
    {
      hide Inspect, LastSuccess;
      ghost var bucket, round := vvTried[nKBucket], -1;
      var vTried := vvTried[nKBucket];
      var nOldest := -1;
      nOldestPos := -1;
      var i := 0;
      InspectNothing(mapInfo, bucket, rnd, k);
      while i < TRIED_ENTRIES_INSPECT_ON_EVICT && i < |vTried|
        invariant i <= TRIED_ENTRIES_INSPECT_ON_EVICT && i <= |bucket| == |vTried|
        invariant vvTried == old(vvTried)[nKBucket := vTried]
        invariant Inspection(vTried, nOldest, nOldestPos, round) == Inspect(mapInfo, bucket, rnd, k, i)
      {
        InspectUnfold(mapInfo, bucket, rnd, k, i + 1);
        var nPos := RandInt(rnd, k + i, |vTried| - i) + i;
        var nTemp := vTried[nPos];
        vTried := vTried[nPos := vTried[i]];
        vTried := vTried[i := nTemp];
        vvTried := vvTried[nKBucket := vTried];
        if nOldest == -1 || LastSuccess(mapInfo, nTemp) < LastSuccess(mapInfo, nOldest) {
          nOldest := nTemp;
          nOldestPos := nPos;
          round := i;
        }
        i := i + 1;
      }
    }

    /** Take one record out of a new bucket, deleting it with its last reference. */
    method Release(nUBucket: nat, nId: int)
      requires nUBucket < |vvNew| && nId in mapInfo && RandomOk(mapInfo, vRandom)
      modifies this
      ensures View() == Released(old(View()), nUBucket, nId) && |vvNew| == |old(vvNew)|
    {
      hide RandomOk, Forgotten;
      var info := mapInfo[nId].(nRefCount := mapInfo[nId].nRefCount - 1);
      TouchedRandom(mapInfo, vRandom, nId, info);
      mapInfo := mapInfo[nId := info];
      if info.nRefCount == 0 { Delete(nId); }
      vvNew := vvNew[nUBucket := vvNew[nUBucket] - {nId}];
    }

    /** Swap a record's place to the end of the random order, and drop it. */
    method Delete(nId: int)
      requires nId in mapInfo && RandomOk(mapInfo, vRandom)
      modifies this
      ensures View() == Forgotten(old(View()), nId) && vvNew == old(vvNew)
    {
      assert Holds(vRandom, mapInfo[nId].nRandomPos, nId);
      assert PlacedAt(mapInfo, vRandom[|vRandom| - 1], |vRandom| - 1);
      hide RandomOk, Swapped;
      SwappedKnown(View(), mapInfo[nId].nRandomPos, |vRandom| - 1, nId);
      SwapRandom(mapInfo[nId].nRandomPos, |vRandom| - 1);
      vRandom := vRandom[..|vRandom| - 1];
      mapAddr := mapAddr - {mapInfo[nId].Net()};
      mapInfo := mapInfo - {nId};
      nNew := nNew - 1;
    }

    method FindTerrible(ids: seq<int>, now: int) returns (id: Option<int>)
      requires forall x <- ids :: x in mapInfo
      ensures id == FirstTerrible(mapInfo, ids, now)
      ensures id.None? ==> forall x <- ids :: !mapInfo[x].IsTerrible(now)
      ensures id.Some? ==> id.value in ids && id.value in mapInfo && mapInfo[id.value].IsTerrible(now)
      ensures id.Some? ==>
        exists i | 0 <= i < |ids| :: ids[i] == id.value && forall x <- ids[..i] :: !mapInfo[x].IsTerrible(now)
    {
      for i := 0 to |ids|
        invariant FirstTerrible(mapInfo, ids, now) == FirstTerrible(mapInfo, ids[i..], now)
        invariant forall x <- ids[..i] :: !mapInfo[x].IsTerrible(now)
      {
        var id := ids[i];
        assert id in ids;
        if mapInfo[id].IsTerrible(now) {
          return Some(id);
        }
      }
      assert ids[..|ids|] == ids;
      return None;
    }

    method PickOldest(ids: seq<int>, rnd: Draws, k: nat) returns (nOldest: int)
      requires forall x <- ids :: x in mapInfo
      ensures nOldest == OldestPicked(mapInfo, ids, rnd, k, |ids|)
      ensures ids != [] && NOBODY !in ids ==> OldestOf(mapInfo, ids, rnd, k, |ids|, nOldest)
    {
      hide OldestOf;
      if NOBODY !in ids {
        OldestPickedMeaning(mapInfo, ids, rnd, k, |ids|);
        OldestPickedMember(mapInfo, ids, rnd, k, |ids|, RandInt(rnd, k, |ids|));
      }
      nOldest := NOBODY;
      for nI := 0 to |ids|
        invariant nOldest == OldestPicked(mapInfo, ids, rnd, k, nI)
        invariant nOldest == NOBODY || nOldest in mapInfo
      {
        var id := ids[nI];
        assert id in ids;
        if Picked(rnd, k, |ids|, nI) {
          if nOldest == NOBODY || mapInfo[id].addr.nTime < mapInfo[nOldest].addr.nTime {
            nOldest := id;
          }
        }
      }
    }

    /** Make room in a new bucket: the first deletable record goes, or else the
        oldest of four picked at random. */
    method ShrinkNew(nUBucket: nat, now: int, rnd: Draws, k: nat) returns (code: int)
      requires nUBucket < |vvNew| && vvNew[nUBucket] != {} && NOBODY !in vvNew[nUBucket]
      requires vvNew[nUBucket] <= mapInfo.Keys && RandomOk(mapInfo, vRandom)
      modifies this
      ensures old(Leaves(mapInfo, vvNew[nUBucket], now, rnd, k, Victim(mapInfo, vvNew[nUBucket], now, rnd, k)))
      ensures View() == Released(old(View()), nUBucket, old(Victim(mapInfo, vvNew[nUBucket], now, rnd, k)))
      ensures |vvNew| == |old(vvNew)|
      ensures code == if exists id <- old(vvNew[nUBucket]) :: old(mapInfo)[id].IsTerrible(now) then 0 else 1
    {
      hide RandomOk, Released, FirstTerrible, OldestPicked, AddrInfo.IsTerrible, OldestOf;
      VictimMember(mapInfo, vvNew[nUBucket], now, rnd, k);
      var ids := InOrder(vvNew[nUBucket]);
      forall id ensures id in ids <==> id in vvNew[nUBucket] { assert id in Elements(ids) <==> id in ids; }
      var terrible := FindTerrible(ids, now);
      if terrible.Some? {
        Release(nUBucket, terrible.value);
        return 0;
      }
      var nOldest := PickOldest(ids, rnd, k);
      Release(nUBucket, nOldest);
      return 1;
    }

    /** Move a record from the new table to the tried table. */
    method MakeTried(nId: int, nOrigin: nat, rnd: Draws, k: nat)
      requires Valid() && nId in mapInfo && !mapInfo[nId].fInTried
      requires nOrigin < |vvNew| && nId in vvNew[nOrigin]
      modifies this
      ensures View() == MadeTried(net, old(View()), nId, nOrigin, rnd, k)
    {
      hide Coherent, Evicted, Uprooted, InspectFully, TriedOk;
      ghost var s := View();
      Parts(net, s, NOBODY);
      UprootedShape(s, nId);
      Uproot(nId);
      var nKBucket := GetTriedBucket(net, nKey, mapInfo[nId].addr.svc);
      if |vvTried[nKBucket]| < TRIED_BUCKET_SIZE {
        vvTried := vvTried[nKBucket := vvTried[nKBucket] + [nId]];
        nTried := nTried + 1;
        mapInfo := mapInfo[nId := mapInfo[nId].(fInTried := true)];
        return;
      }
      EvictReady(net, s, nId, nKBucket, rnd, k);
      ghost var u := View();
      var nPos := SelectTried(nKBucket, rnd, k);
      EvictedShuffled(net, u, nId, nOrigin, nKBucket, vvTried[nKBucket], nPos);
      Evict(nId, nKBucket, nPos, nOrigin);
    }

    /** Remove a record from all new buckets, counting its references down to none. */
    method Uproot(nId: int)
      requires nId in mapInfo && mapInfo[nId].nRefCount == Occurrences(vvNew, nId)
      modifies `mapInfo, `vvNew, `nNew
      ensures View() == Uprooted(old(View()), nId)
    {
      ghost var vv := vvNew;
      var b := 0;
      while b < |vvNew|
        invariant b <= |vvNew| == |vv|
        invariant nNew == old(nNew)
        invariant forall c | 0 <= c < |vv| :: vvNew[c] == if c < b then vv[c] - {nId} else vv[c]
        invariant mapInfo == old(mapInfo)[nId := old(mapInfo)[nId].(
                    nRefCount := old(mapInfo)[nId].nRefCount - Occurrences(vv[..b], nId))]
      {
        assert vv[..b + 1][..b] == vv[..b];
        if nId in vvNew[b] {
          vvNew := vvNew[b := vvNew[b] - {nId}];
          mapInfo := mapInfo[nId := mapInfo[nId].(nRefCount := mapInfo[nId].nRefCount - 1)];
        }
        b := b + 1;
      }
      assert vv[..b] == vv;
      assert vvNew == Erased(vv, nId);
      nNew := nNew - 1;
    }

    /** Put a record into the slot of another, which returns to a new bucket. */
    method Evict(nId: int, nKBucket: nat, nPos: int, nOrigin: nat)
      requires nKBucket < |vvTried| && 0 <= nPos < |vvTried[nKBucket]| && nOrigin < |vvNew| == NEW_BUCKET_COUNT
      requires vvTried[nKBucket][nPos] in mapInfo && nId in mapInfo && vvTried[nKBucket][nPos] != nId
      modifies this
      ensures View() == Evicted(net, old(View()), nId, nOrigin, nKBucket, old(vvTried[nKBucket]), nPos)
    {
      var nOut := vvTried[nKBucket][nPos];
      var nUBucket := GetNewBucket(net, nKey, mapInfo[nOut].addr.svc, mapInfo[nOut].source);
      mapInfo := mapInfo[nOut := mapInfo[nOut].(fInTried := false, nRefCount := 1)];
      if |vvNew[nUBucket]| < NEW_BUCKET_SIZE {
        vvNew := vvNew[nUBucket := vvNew[nUBucket] + {nOut}];
      } else {
        vvNew := vvNew[nOrigin := vvNew[nOrigin] + {nOut}];
      }
      nNew := nNew + 1;
      vvTried := vvTried[nKBucket := vvTried[nKBucket][nPos := nId]];
      mapInfo := mapInfo[nId := mapInfo[nId].(fInTried := true)];
    }

    /** The bucket a record is in now, searching round from a random one. */
    method FindOrigin(nId: int, nRnd: nat) returns (nUBucket: Option<nat>)
      ensures nUBucket == Origin(vvNew, nId, nRnd, 0)
    {
      var n := 0;
      while n < |vvNew|
        invariant n <= |vvNew| && Origin(vvNew, nId, nRnd, 0) == Origin(vvNew, nId, nRnd, n)
      {
        var nB := Around(n, nRnd, |vvNew|);
        if nId in vvNew[nB] {
          return Some(nB);
        }
        n := n + 1;
      }
      return None;
    }

    /** Put a record into one more new bucket. */
    method File(nId: int, nUBucket: nat, now: int, rnd: Draws, k: nat)
      requires nId in mapInfo && nUBucket < |vvNew| && RandomOk(mapInfo, vRandom)
      requires vvNew[nUBucket] <= mapInfo.Keys && NOBODY !in mapInfo
      modifies this
      ensures View() == Filed(net, old(View()), nId, nUBucket, now, rnd, k)
    {
      hide Released, Victim, RandomOk;
      if nId in vvNew[nUBucket] { return; }
      ghost var s := View();
      TouchedRandom(mapInfo, vRandom, nId, Bumped(mapInfo, nId)[nId]);
      mapInfo := mapInfo[nId := mapInfo[nId].(nRefCount := mapInfo[nId].nRefCount + 1)];
      ghost var t := View();
      assert t == s.(mapInfo := Bumped(s.mapInfo, nId));
      if |vvNew[nUBucket]| == NEW_BUCKET_SIZE {
        var code := ShrinkNew(nUBucket, now, rnd, k);
        assert View() == Released(t, nUBucket, Victim(t.mapInfo, s.vvNew[nUBucket], now, rnd, k));
      }
      vvNew := vvNew[nUBucket := vvNew[nUBucket] + {nId}];
    }

    /** Move a record to the tried table unless it is there already. */
    method Settle(nId: int, rnd: Draws)
      requires Valid() && nId in mapInfo
      modifies this
      ensures View() == Settled(net, old(View()), nId, rnd)
    {
      hide MadeTried, Origin;
      if mapInfo[nId].fInTried { return; }
      var nUBucket := FindOrigin(nId, RandInt(rnd, 0, NEW_BUCKET_COUNT));
      if nUBucket.None? { return; }
      MakeTried(nId, nUBucket.value, rnd, 1);
    }

    /** Update the record of an address heard of again. */
    method Refresh(nId: int, addr: Address, nTimePenalty: int, now: int)
      requires nId in mapInfo
      modifies `mapInfo
      ensures mapInfo == old(mapInfo)[nId := Refreshed(old(mapInfo)[nId], addr, nTimePenalty, now)]
      ensures Heard(old(mapInfo)[nId], mapInfo[nId], addr, nTimePenalty, now)
      ensures mapInfo[nId].nRefCount == old(mapInfo)[nId].nRefCount
      ensures mapInfo[nId].nRandomPos == old(mapInfo)[nId].nRandomPos
    {
      RefreshedHeard(mapInfo[nId], addr, nTimePenalty, now);
      var info := mapInfo[nId];
      var fCurrentlyOnline := now - addr.nTime < 24 * 60 * 60;
      var nUpdateInterval := if fCurrentlyOnline then 60 * 60 else 24 * 60 * 60;
      if addr.nTime != 0 {
        if info.addr.nTime == 0 || info.addr.nTime < addr.nTime - nUpdateInterval - nTimePenalty {
          info := info.(addr := info.addr.(nTime := ToUint32(Max(0, addr.nTime - nTimePenalty))));
        }
      }
      info := info.(addr := info.addr.(nServices := info.addr.nServices + addr.nServices));
      mapInfo := mapInfo[nId := info];
    }

    /** Whether a known address gets a chance of one more new bucket. */
    method MayPromote(nId: int, addr: Address, rnd: Draws) returns (ok: bool)
      requires nId in mapInfo
      ensures ok == Promoted(mapInfo[nId], addr, rnd)
    {
      var info := mapInfo[nId];
      if addr.nTime == 0 || (info.addr.nTime != 0 && addr.nTime <= info.addr.nTime) { return false; }
      if info.fInTried { return false; }
      if info.nRefCount == NEW_BUCKETS_PER_ADDRESS { return false; }
      var nFactor, n := 1, 0;
      while n < info.nRefCount
        invariant 0 <= n && (n <= info.nRefCount || n == 0)
        invariant nFactor == Pow2(n)
      {
        nFactor := nFactor * 2;
        n := n + 1;
      }
      if nFactor > 1 && RandInt(rnd, 0, nFactor) != 0 { return false; }
      return true;
    }

    /** Record an address never heard of before. */
    method Discover(addr: Address, source: NetAddr, nTimePenalty: int) returns (nId: int)
      modifies this
      ensures nId == old(nIdCount) && View() == Discovered(old(View()), addr, source, nTimePenalty)
    {
      nId := Create(addr, source);
      var info := mapInfo[nId];
      mapInfo := mapInfo[nId := info.(addr := info.addr.(nTime := ToUint32(Max(0, info.addr.nTime - nTimePenalty))))];
      nNew := nNew + 1;
    }

    // ----- the public operations ----------------------------------------------

    method AddOne(addr: Address, source: NetAddr, nTimePenalty: int, now: int, rnd: Draws) returns (fNew: bool)
      requires Valid()
      modifies this
      ensures Valid() && (View(), fNew) == Add(net, old(View()), addr, source, nTimePenalty, now, rnd)
      ensures !net.routable(addr.svc.net) ==> View() == old(View()) && !fNew
      ensures net.routable(addr.svc.net) ==>
        match Find(old(View()), addr.svc.net)
        case Some(id) => !fNew && AddedAgain(net, old(View()), View(), id, addr, source, nTimePenalty, now, rnd)
        case None => fNew && AddedNew(net, old(View()), View(), addr, source, nTimePenalty, now, rnd)
    {
      hide AddedAgain, AddedNew, Heard;
      ghost var s := View();
      AddConsistent(net, s, addr, source, nTimePenalty, now, rnd);
      AddRecord(net, s, addr, source, nTimePenalty, now, rnd);
      if !net.routable(addr.svc.net) { return false; }
      fNew := false;
      var nId;
      var found := Lookup(addr.svc.net);
      if found.Some? {
        nId := found.value;
        TouchedRandom(mapInfo, vRandom, nId, Refreshed(mapInfo[nId], addr, nTimePenalty, now));
        Refresh(nId, addr, nTimePenalty, now);
        var ok := MayPromote(nId, addr, rnd);
        if !ok { return false; }
      } else {
        DiscoveredRandom(s, addr, source, nTimePenalty);
        nId := Discover(addr, source, nTimePenalty);
        fNew := true;
      }
      hide Filed, Discovered, Promoted, Refreshed;
      var nUBucket := GetNewBucket(net, nKey, mapInfo[nId].addr.svc, source);
      File(nId, nUBucket, now, rnd, 1);
    }

    /** Note a success in a record. */
    method Succeed(nId: int, nTime: int)
      requires nId in mapInfo
      modifies `mapInfo
      ensures mapInfo == old(mapInfo)[nId := Succeeded(old(mapInfo)[nId], nTime)]
      ensures mapInfo[nId].nAttempts == 0 && mapInfo[nId].nLastSuccess == nTime
      ensures mapInfo[nId].addr.nLastTry == nTime && mapInfo[nId].addr.nTime == nTime % 0x1_0000_0000
    {
      var info := mapInfo[nId];
      info := info.(nLastSuccess := nTime);
      info := info.(addr := info.addr.(nLastTry := nTime));
      info := info.(addr := info.addr.(nTime := ToUint32(nTime)));
      info := info.(nAttempts := 0);
      mapInfo := mapInfo[nId := info];
    }

    method MarkGood(addr: Service, nTime: int, rnd: Draws)
      requires Valid()
      modifies this
      ensures Valid() && View() == Good(net, old(View()), addr, nTime, rnd)
      ensures
        if Matches(old(View()), addr) then
          GoodWritten(old(View()), View(), Find(old(View()), addr.net).value, nTime)
          && Placed(net, old(View()), View(), Find(old(View()), addr.net).value, rnd)
        else View() == old(View())
    {
      hide Coherent, Settled, GoodWritten, Placed;
      ghost var s := View();
      GoodConsistent(net, s, addr, nTime, rnd);
      if Matches(s, addr) {
        GoodRecord(net, s, addr, nTime, rnd);
        GoodPlaced(net, s, addr, nTime, rnd);
      }
      var found := Lookup(addr.net);
      if found.None? { return; }
      var nId := found.value;
      if mapInfo[nId].addr.svc != addr { return; }
      TouchKeeps(net, s, nId, Succeeded(mapInfo[nId], nTime));
      Succeed(nId, nTime);
      Settle(nId, rnd);
    }

    method Attempted(addr: Service, nTime: int)
      requires Valid()
      modifies this
      ensures Valid() && View() == Attempt(old(View()), addr, nTime)
      ensures
        if Matches(old(View()), addr)
        then AttemptWritten(old(View()), View(), Find(old(View()), addr.net).value, nTime)
        else View() == old(View())
    {
      hide Coherent, AttemptWritten;
      AttemptRecord(View(), addr, nTime);
      AttemptConsistent(net, View(), addr, nTime);
      var found := Lookup(addr.net);
      if found.None? { return; }
      var nId := found.value;
      if mapInfo[nId].addr.svc != addr { return; }
      var info := mapInfo[nId];
      info := info.(addr := info.addr.(nLastTry := nTime));
      info := info.(nAttempts := info.nAttempts + 1);
      mapInfo := mapInfo[nId := info];
    }

    method MarkConnected(addr: Service, nTime: int)
      requires Valid()
      modifies this
      ensures Valid() && View() == Connected(old(View()), addr, nTime)
      ensures
        if Matches(old(View()), addr)
        then ConnectedWritten(old(View()), View(), Find(old(View()), addr.net).value, nTime)
        else View() == old(View())
    {
      hide Coherent, ConnectedWritten;
      ConnectedRecord(View(), addr, nTime);
      ConnectedConsistent(net, View(), addr, nTime);
      var found := Lookup(addr.net);
      if found.None? { return; }
      var nId := found.value;
      if mapInfo[nId].addr.svc != addr { return; }
      if nTime - mapInfo[nId].addr.nTime > 20 * 60 {
        mapInfo := mapInfo[nId := mapInfo[nId].(addr := mapInfo[nId].addr.(nTime := ToUint32(nTime)))];
      }
    }

    /** One round of the shuffle that `s` started, and the address it brings forward. */
    method Pick(n: nat, rnd: Draws, ghost s: State) returns (a: Address)
      requires RandomOk(s.mapInfo, s.vRandom) && n < |s.vRandom| && View() == Shuffled(s, n, rnd)
      modifies this
      ensures View() == Shuffled(s, n + 1, rnd) && Picks(s, n + 1, rnd) == Picks(s, n, rnd) + [a]
    {
      hide Shuffled, Swapped, RandomOk, Picks;
      SwapStep(s, n, rnd);
      PickStep(s, n, rnd);
      SwapRandom(n, RandInt(rnd, n, |vRandom| - n) + n);
      a := mapInfo[vRandom[n]].addr;
    }

    /** The random addresses one peer is told. */
    method GetAddr(rnd: Draws) returns (vAddr: seq<Address>)
      requires Valid()
      modifies this
      ensures Valid() && View() == Shuffled(old(View()), GetAddrCount(|old(vRandom)|), rnd)
      ensures vAddr == Picks(old(View()), GetAddrCount(|old(vRandom)|), rnd)
    {
      vAddr := [];
      var nNodes := GetAddrCount(|vRandom|);
      ghost var s := View();
      PickStart(s, rnd);
      ShuffleKeeps(net, s, nNodes, rnd);
      hide Shuffled, Picks;
      var n := 0;
      while n < nNodes
        invariant n <= nNodes && View() == Shuffled(s, n, rnd) && vAddr == Picks(s, n, rnd)
      {
        var a := Pick(n, rnd, s);
        vAddr := vAddr + [a];
        n := n + 1;
      }
    }

    // ----- the debug consistency check -------------------------------------------

    /** The tests of one record, in their order. Looking an address up inserts
        it with id 0 if it is not there. */
    method CheckRecord(n: int) returns (code: int)
      requires n in mapInfo
      modifies `mapAddr
      ensures if code == 0 then RecordPasses(old(View()), n) else Defective(old(View()), code, n)
      ensures code != 0 ==> FirstFailed(old(View()), code, n)
      ensures mapAddr == old(mapAddr) || mapAddr == Entered(old(mapAddr), mapInfo[n].Net())
      ensures code == 0 ==> mapAddr == if n == 0 then Entered(old(mapAddr), mapInfo[n].Net()) else old(mapAddr)
    {
      var info := mapInfo[n];
      if info.fInTried {
        if info.nLastSuccess == 0 { return -1; }
        if info.nRefCount != 0 { return -2; }
      } else {
        if info.nRefCount < 0 || info.nRefCount > NEW_BUCKETS_PER_ADDRESS { return -3; }
        if info.nRefCount == 0 { return -4; }
      }
      if info.Net() !in mapAddr {
        mapAddr := mapAddr[info.Net() := 0];
      }
      if mapAddr[info.Net()] != n { return -5; }
      if info.nRandomPos < 0 || info.nRandomPos >= |vRandom| || vRandom[info.nRandomPos] != n { return -14; }
      if info.addr.nLastTry < 0 { return -6; }
      if info.nLastSuccess < 0 { return -8; }
      return 0;
    }

    /** The first part: one record after another. */
    method CheckRecords() returns (code: int, setTried: set<int>, mapNew: map<int, int>)
      modifies `mapAddr
      ensures code == 0 ==>
        && (forall id <- mapInfo :: RecordPasses(old(View()), id))
        && setTried == TriedIds(mapInfo) && mapNew.Keys == NewIds(mapInfo)
        && (forall id <- mapNew :: mapNew[id] == mapInfo[id].nRefCount)
        && mapAddr == if 0 in mapInfo then Entered(old(mapAddr), mapInfo[0].Net()) else old(mapAddr)
      ensures code != 0 ==> exists id <- mapInfo :: Defective(old(View()), code, id)
      ensures forall n :: AddrCheck.Lookup(mapAddr, n) == AddrCheck.Lookup(old(mapAddr), n)
    {
      hide RecordPasses, Defective, AddrCheck.Lookup, Entered, Collected;
      setTried, mapNew := {}, map[];
      var todo := mapInfo.Keys;
      ghost var s := View();
      CollectedNone(mapInfo);
      while todo != {}
        invariant todo <= mapInfo.Keys
        invariant forall id <- mapInfo.Keys - todo :: RecordPasses(s, id)
        invariant Collected(mapInfo, todo, setTried, mapNew)
        invariant forall n :: AddrCheck.Lookup(mapAddr, n) == AddrCheck.Lookup(s.mapAddr, n)
        invariant mapAddr == if 0 in mapInfo && 0 !in todo then Entered(s.mapAddr, mapInfo[0].Net()) else s.mapAddr
        decreases |todo|
      {
        var n := Least(todo);
        var info := mapInfo[n];
        ghost var a := mapAddr;
        code := CheckRecord(n);
        SameVerdict(s, a, code, n);
        assert s.(mapAddr := a) == State(nKey, nIdCount, mapInfo, a, vRandom, nTried, vvTried, nNew, vvNew);
        if code != 0 { return; }
        CollectedNext(mapInfo, todo, setTried, mapNew, n);
        if info.fInTried {
          setTried := setTried + {n};
        } else {
          mapNew := mapNew[n := info.nRefCount];
        }
        todo := todo - {n};
      }
      code := 0;
      CollectedAll(mapInfo, setTried, mapNew);
    }

    /** The second part: strike out each tried slot once. */
    method CheckTriedTable(setTried: set<int>) returns (code: int, rest: set<int>)
      requires setTried == TriedIds(mapInfo)
      ensures code == 0 ==> NoDup(Flat(vvTried)) && Elements(Flat(vvTried)) <= setTried
      ensures code == 0 ==> rest == setTried - Elements(Flat(vvTried))
      ensures code != 0 ==> code == -11 && Fault(View(), code)
    {
      rest := setTried;
      for n := 0 to |vvTried|
        invariant NoDup(Flat(vvTried[..n])) && Elements(Flat(vvTried[..n])) <= setTried
        invariant rest == setTried - Elements(Flat(vvTried[..n]))
      {
        ghost var before := Flat(vvTried[..n]);
        var vTried := vvTried[n];
        for j := 0 to |vTried|
          invariant NoDup(before + vTried[..j]) && Elements(before + vTried[..j]) <= setTried
          invariant rest == setTried - Elements(before + vTried[..j])
        {
          if vTried[j] !in rest {
            assert vTried[j] in Elements(before + vTried[..j]) ==> vTried[j] in before + vTried[..j];
            SlotFault(View(), n, j);
            return -11, rest;
          }
          AppendElements(before + vTried[..j], vTried[j]);
          assert before + vTried[..j + 1] == before + vTried[..j] + [vTried[j]];
          rest := rest - {vTried[j]};
        }
        assert vTried[..|vTried|] == vTried && vvTried[..n + 1][..n] == vvTried[..n];
      }
      assert vvTried[..|vvTried|] == vvTried;
      code := 0;
    }

    /** The third part: count each new id down, once for each bucket it is in. */
    method CheckNewTable(mapNew: map<int, int>) returns (code: int, left: map<int, int>)
      requires forall id <- mapInfo :: !mapInfo[id].fInTried ==> mapInfo[id].nRefCount > 0
      requires mapNew.Keys == NewIds(mapInfo) && forall id <- mapNew :: mapNew[id] == mapInfo[id].nRefCount
      ensures code == 0 ==> Remaining(View(), |vvNew|, [], left)
      ensures code != 0 ==> code == -12 && Fault(View(), code)
    {
      left := mapNew;
      FirstBucket(View(), left);
      hide Remaining, Fault;
      for n := 0 to |vvNew|
        invariant Remaining(View(), n, [], left)
      {
        code, left := CheckNewBucket(n, left);
        if code != 0 { return; }
      }
      code := 0;
    }

    method CheckNewBucket(n: nat, before: map<int, int>) returns (code: int, left: map<int, int>)
      requires n < |vvNew| && Remaining(View(), n, [], before)
      ensures code == 0 ==> Remaining(View(), n + 1, [], left)
      ensures code != 0 ==> code == -12 && Fault(View(), code)
    {
      hide Remaining, Fault;
      left := before;
      var ids := InOrder(vvNew[n]);
      forall id ensures id in ids <==> id in vvNew[n] { assert id in Elements(ids) <==> id in ids; }
      assert ids[..0] == [];
      for j := 0 to |ids|
        invariant Remaining(View(), n, ids[..j], left)
      {
        var id := ids[j];
        assert id in ids && id !in ids[..j] && ids[..j + 1] == ids[..j] + [id];
        if id !in left {
          EntryFault(View(), n, ids[..j], left, id);
          return -12, left;
        }
        NextId(View(), n, ids[..j], left, id);
        left := if left[id] == 1 then left - {id} else left[id := left[id] - 1];
      }
      assert ids[..|ids|] == ids;
      NextBucket(View(), n, ids, left);
      code := 0;
    }

    /** The whole check: 0 exactly when the tables pass it, and otherwise the
        code of a fault they really have. */
    method Check() returns (code: int)
      modifies `mapAddr
      ensures code == 0 <==> Passes(old(View()))
      ensures code != 0 ==> Fault(old(View()), code)
      ensures forall n :: AddrCheck.Lookup(mapAddr, n) == AddrCheck.Lookup(old(mapAddr), n)
      ensures code == 0 ==>
        mapAddr == if 0 in mapInfo then Entered(old(mapAddr), mapInfo[0].Net()) else old(mapAddr)
    {
      ghost var s := View();
      hide Passes, RecordPasses, Defective, Remaining, NewWithin;
      code := CheckTables();
      if code != 0 { FaultFails(s, code); }
    }

    method CheckTables() returns (code: int)
      modifies `mapAddr
      ensures if code == 0 then Passes(old(View())) else Fault(old(View()), code)
      ensures forall n :: AddrCheck.Lookup(mapAddr, n) == AddrCheck.Lookup(old(mapAddr), n)
      ensures code == 0 ==>
        mapAddr == if 0 in mapInfo then Entered(old(mapAddr), mapInfo[0].Net()) else old(mapAddr)
    {
      ghost var s := View();
      if |vRandom| != nTried + nNew { return -7; }
      var setTried, mapNew;
      code, setTried, mapNew := CheckRecords();
      if code != 0 { return; }
      forall id | id in mapInfo && !mapInfo[id].fInTried ensures mapInfo[id].nRefCount > 0 {
        assert RecordPasses(s, id);
      }
      assert |mapNew| == |mapNew.Keys|;
      code := CheckCounts(setTried, mapNew);
      assert View() == s.(mapAddr := mapAddr);
      if code != 0 {
        FaultElsewhere(s, mapAddr, code);
      } else {
        RemainingElsewhere(s, mapAddr, map[]);
        NothingLeft(s);
      }
      hide *;
    }

    /** The two totals, then the tables. */
    method CheckCounts(setTried: set<int>, mapNew: map<int, int>) returns (code: int)
      requires setTried == TriedIds(mapInfo)
      requires forall id <- mapInfo :: !mapInfo[id].fInTried ==> mapInfo[id].nRefCount > 0
      requires mapNew.Keys == NewIds(mapInfo) && forall id <- mapNew :: mapNew[id] == mapInfo[id].nRefCount
      ensures code == 0 ==>
        && CountsOk(mapInfo, nTried, nNew) && Remaining(View(), |vvNew|, [], map[])
        && NoDup(Flat(vvTried)) && Elements(Flat(vvTried)) <= setTried && setTried - Elements(Flat(vvTried)) == {}
      ensures code != 0 ==> code in {-9, -10, -11, -12, -13, -15} && Fault(View(), code)
    {
      var rest, left;
      if |setTried| != nTried { return -9; }
      assert |mapNew| == |mapNew.Keys|;
      if |mapNew| != nNew { return -10; }
      code, rest := CheckTriedTable(setTried);
      if code != 0 { return; }
      code, left := CheckNewTable(mapNew);
      if code != 0 { return; }
      hide Remaining, NewWithin;
      if |rest| > 0 { return -13; }
      if |left| > 0 {
        var id := Least(left.Keys);
        SomethingLeft(View(), left, id);
        return -15;
      }
    }
  }
}
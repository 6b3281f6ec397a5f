/** What each operation of the address manager writes, field by field: into the
    record it is about, into the others, and into the buckets. */
module AddrRecords {
  import opened Common
  import opened AddrTypes
  import opened AddrState
  import opened AddrInvariant
  import opened AddrTheorems

  // ----- which records are bad -----------------------------------------------------

  /** A record is bad unless it was tried in the last minute, and if its time lies
      over ten minutes ahead, is missing or over 30 days old, or if it failed three
      times without a success or ten times since one over a week ago. */
  lemma TerribleExactly(info: AddrInfo, now: int)
    ensures info.IsTerrible(now) <==>
      && !(info.addr.nLastTry != 0 && now - info.addr.nLastTry <= 60)
      && (|| info.addr.nTime - now > 600
          || info.addr.nTime == 0
          || now - info.addr.nTime > 2592000
          || (info.nLastSuccess == 0 && info.nAttempts >= 3)
          || (now - info.nLastSuccess > 604800 && info.nAttempts >= 10))
  {
  }

  // ----- Good_ ---------------------------------------------------------------------

  /** All but status and reference count. */
  ghost predicate SameButStatus(o: AddrInfo, n: AddrInfo) {
    && n.addr == o.addr && n.source == o.source && n.nLastSuccess == o.nLastSuccess
    && n.nAttempts == o.nAttempts && n.nRandomPos == o.nRandomPos
  }

  /** The record shows the success and is tried; nobody is lost or moved in the
      random order, and the other records keep all but status and reference count. */
  ghost predicate GoodWritten(s: State, t: State, id: int, time: int) {
    && id in s.mapInfo && t.mapInfo.Keys == s.mapInfo.Keys && id in t.mapInfo
    && (var o, n := s.mapInfo[id], t.mapInfo[id];
        && n.nAttempts == 0 && n.nLastSuccess == time
        && n.addr.nLastTry == time && n.addr.nTime == time % 0x1_0000_0000
        && n.addr.svc == o.addr.svc && n.addr.nServices == o.addr.nServices && n.source == o.source
        && n.nRandomPos == o.nRandomPos && n.fInTried && n.nRefCount == 0)
    && (forall x <- s.mapInfo :: x != id ==> x in t.mapInfo && SameButStatus(s.mapInfo[x], t.mapInfo[x]))
    && t.nKey == s.nKey && t.nIdCount == s.nIdCount && t.mapAddr == s.mapAddr && t.vRandom == s.vRandom
  }

  /** How far a bucket is from where the search starts, going round. */
  function Distance(start: nat, b: nat, size: nat): nat
    requires b < size && start < size
  {
    if b >= start then b - start else b + size - start
  }

  /** The first bucket with the id on the way round from `start`. */
  ghost predicate FirstFrom(vv: seq<set<int>>, id: int, start: nat, b: nat) {
    && b < |vv| && start < |vv| && id in vv[b]
    && forall c: nat | c < |vv| && id in vv[c] :: Distance(start, b, |vv|) <= Distance(start, c, |vv|)
  }

  /** How a record takes the slot that the inspection of its full bucket selects:
      the one in it returns to its own new bucket, or where that holds 64 to `origin`. */
  ghost predicate TakesSlot(net: Network, s: State, t: State, id: int, origin: nat, rnd: Draws, k: nat) {
    && id in s.mapInfo && |s.vvTried| == 64 && |s.vvNew| == 256 && origin < 256
    && (var kb := GetTriedBucket(net, s.nKey, s.mapInfo[id].addr.svc);
        var seen := InspectFully(s.mapInfo, s.vvTried[kb], rnd, k);
        && 0 <= seen.pos < |seen.bucket|
        && (var out, ww := seen.bucket[seen.pos], Erased(s.vvNew, id);
            && out in s.vvTried[kb] && out in s.mapInfo && out != id
            && TriedIds(t.mapInfo) == TriedIds(s.mapInfo) - {out} + {id}
            && t.vvTried == s.vvTried[kb := seen.bucket[seen.pos := id]]
            && (var own := GetNewBucket(net, s.nKey, s.mapInfo[out].addr.svc, s.mapInfo[out].source);
                var dest := if |ww[own]| < 64 then own else origin;
                t.vvNew == ww[dest := ww[dest] + {out}])))
  }

  /** Where a record that becomes tried goes: behind the others of its bucket if
      these are fewer than 64, and else into the slot of one that becomes untried. */
  ghost predicate Placed(net: Network, s: State, t: State, id: int, rnd: Draws) {
    && id in s.mapInfo && |s.vvTried| == |t.vvTried| == 64
    && (var kb := GetTriedBucket(net, s.nKey, s.mapInfo[id].addr.svc);
        if s.mapInfo[id].fInTried then
          t.vvTried == s.vvTried && t.vvNew == s.vvNew && TriedIds(t.mapInfo) == TriedIds(s.mapInfo)
        else if |s.vvTried[kb]| < 64 then
          && t.vvTried == s.vvTried[kb := s.vvTried[kb] + [id]] && t.vvNew == Erased(s.vvNew, id)
          && TriedIds(t.mapInfo) == TriedIds(s.mapInfo) + {id}
        else
          exists origin | 0 <= origin < 256 ::
            FirstFrom(s.vvNew, id, RandInt(rnd, 0, 256), origin) && TakesSlot(net, s, t, id, origin, rnd, 1))
  }

  lemma PromotedRecord(net: Network, s: State, id: int, origin: nat, rnd: Draws, k: nat)
    requires Consistent(net, s) && id in s.mapInfo && !s.mapInfo[id].fInTried
    requires origin < |s.vvNew| && id in s.vvNew[origin]
    ensures var t := MadeTried(net, s, id, origin, rnd, k);
      && t.mapInfo.Keys == s.mapInfo.Keys && id in t.mapInfo
      && SameButStatus(s.mapInfo[id], t.mapInfo[id]) && t.mapInfo[id].nRefCount == 0 && t.mapInfo[id].fInTried
      && (forall x <- s.mapInfo :: x != id ==> x in t.mapInfo && SameButStatus(s.mapInfo[x], t.mapInfo[x]))
      && SameBook(s, t)
  {
    hide MadeTried, Coherent, InspectFully, TriedOk;
    Parts(net, s, NOBODY);
    MadeTriedPromotes(net, s, id, origin, rnd, k);
    MadeTriedRecord(net, s, id, origin, rnd, k);
    MadeTriedBook(net, s, id, origin, rnd, k);
    var t := MadeTried(net, s, id, origin, rnd, k);
    forall x | x in s.mapInfo ensures x in t.mapInfo { assert x in t.mapInfo.Keys; }
  }

  lemma MadeTriedBook(net: Network, s: State, id: int, origin: nat, rnd: Draws, k: nat)
    requires id in s.mapInfo && !s.mapInfo[id].fInTried && origin < NEW_BUCKET_COUNT == |s.vvNew|
    requires TriedOk(net, s.nKey, s.mapInfo, s.vvTried)
    ensures SameBook(s, MadeTried(net, s, id, origin, rnd, k))
  {
    if |s.vvTried[GetTriedBucket(net, s.nKey, s.mapInfo[id].addr.svc)]| < TRIED_BUCKET_SIZE {
      PushShape(net, s, id, origin, rnd, k);
    } else {
      var seen, out := EvictShape(net, s, id, origin, rnd, k);
    }
    hide MadeTried, InspectFully, TriedOk;
  }

  /** What a good report on a known service writes. */
  lemma GoodRecord(net: Network, s: State, svc: Service, time: int, rnd: Draws)
    requires Consistent(net, s) && Matches(s, svc)
    ensures GoodWritten(s, Good(net, s, svc, time, rnd), Find(s, svc.net).value, time)
  {
    hide Coherent, MadeTried, Origin;
    var id := Find(s, svc.net).value;
    var info := Succeeded(s.mapInfo[id], time);
    var u := s.(mapInfo := s.mapInfo[id := info]);
    TouchKeeps(net, s, id, info);
    if info.fInTried {
      TriedUnreferenced(net, s, id);
    } else {
      var start := RandInt(rnd, 0, NEW_BUCKET_COUNT);
      OriginFound(net, u, id, start);
      PromotedRecord(net, u, id, Origin(u.vvNew, id, start, 0).value, rnd, 1);
    }
  }

  lemma TriedUnreferenced(net: Network, s: State, id: int)
    requires Consistent(net, s) && id in s.mapInfo && s.mapInfo[id].fInTried
    ensures s.mapInfo[id].nRefCount == 0
  {
  }

  lemma {:induction false} OriginFirst(vv: seq<set<int>>, id: int, start: nat, n: nat)
    requires start < |vv| && n <= |vv| && Origin(vv, id, start, n).Some?
    requires forall m: nat | m < n :: id !in vv[Around(m, start, |vv|)]
    ensures FirstFrom(vv, id, start, Origin(vv, id, start, n).value)
    decreases |vv| - n
  {
    var b := Around(n, start, |vv|);
    if id in vv[b] {
      AroundDistance(start, b, n, |vv|);
      forall c: nat | c < |vv| && id in vv[c] ensures Distance(start, b, |vv|) <= Distance(start, c, |vv|) {
        AroundDistance(start, c, Distance(start, c, |vv|), |vv|);
      }
    } else {
      OriginFirst(vv, id, start, n + 1);
    }
  }

  lemma AroundDistance(start: nat, b: nat, n: nat, size: nat)
    requires start < size && b < size && n < size
    ensures Around(n, start, size) == b <==> n == Distance(start, b, size)
  {
    OnceRound(n + start, size);
  }

  lemma OnceRound(n: nat, size: nat)
    requires n < 2 * size
    ensures n % size == if n < size then n else n - size
  {
    if n >= size { assert n == 1 * size + (n - size); }
  }

  /** The inspection looks at nothing but the records of its bucket. */
  lemma {:induction false} InspectSame(m: map<int, AddrInfo>, m': map<int, AddrInfo>, bucket: seq<int>, rnd: Draws,
                                       k: nat, i: nat)
    requires i <= |bucket| && forall x <- bucket :: LastSuccess(m', x) == LastSuccess(m, x)
    ensures Inspect(m', bucket, rnd, k, i) == Inspect(m, bucket, rnd, k, i)
    ensures Inside(Inspect(m, bucket, rnd, k, i), bucket)
  {
    hide LastSuccess, RandInt, Inside, InspectRound;
    if i > 0 {
      InspectSame(m, m', bucket, rnd, k, i - 1);
      var at := RandInt(rnd, k + i - 1, |bucket| - (i - 1)) + (i - 1);
      RoundSame(m, m', Inspect(m, bucket, rnd, k, i - 1), bucket, i - 1, at);
    } else {
      NothingInside(bucket);
    }
  }

  ghost predicate Inside(p: Inspection, bucket: seq<int>) {
    (p.oldest == -1 || p.oldest in bucket) && forall x <- p.bucket :: x in bucket
  }

  lemma NothingInside(bucket: seq<int>)
    ensures Inside(Inspection(bucket, -1, -1, -1), bucket)
  {
  }

  lemma RoundSame(m: map<int, AddrInfo>, m': map<int, AddrInfo>, p: Inspection, bucket: seq<int>, i: nat, at: nat)
    requires i < |p.bucket| && at < |p.bucket| && Inside(p, bucket)
    requires forall x <- bucket :: LastSuccess(m', x) == LastSuccess(m, x)
    ensures InspectRound(m', p, i, at) == InspectRound(m, p, i, at) && Inside(InspectRound(m, p, i, at), bucket)
  {
    hide LastSuccess;
    assert p.bucket[at] in p.bucket && p.bucket[i] in p.bucket;
  }

  lemma InspectFullySame(m: map<int, AddrInfo>, m': map<int, AddrInfo>, bucket: seq<int>, rnd: Draws, k: nat)
    requires forall x <- bucket :: LastSuccess(m', x) == LastSuccess(m, x)
    ensures InspectFully(m', bucket, rnd, k) == InspectFully(m, bucket, rnd, k)
  {
    InspectSame(m, m', bucket, rnd, k, if |bucket| < 4 then |bucket| else 4);
    hide Inspect, LastSuccess;
  }

  lemma EvictPlaced(net: Network, s: State, id: int, origin: nat, rnd: Draws, k: nat)
    requires id in s.mapInfo && !s.mapInfo[id].fInTried && origin < 256 == |s.vvNew| && |s.vvTried| == 64
    requires TriedOk(net, s.nKey, s.mapInfo, s.vvTried)
    requires |s.vvTried[GetTriedBucket(net, s.nKey, s.mapInfo[id].addr.svc)]| >= 64
    ensures TakesSlot(net, s, MadeTried(net, s, id, origin, rnd, k), id, origin, rnd, k)
  {
    hide MadeTried, InspectFully, TriedOk, TriedIds, NewIds, NoDup;
    var kb := GetTriedBucket(net, s.nKey, s.mapInfo[id].addr.svc);
    var info := s.mapInfo[id].(nRefCount := 0, fInTried := true);
    var seen, out := EvictShape(net, s, id, origin, rnd, k);
    var infoOld := s.mapInfo[out].(nRefCount := 1, fInTried := false);
    StatusUpdate(s.mapInfo, id, info);
    StatusUpdate(s.mapInfo[id := info], out, infoOld);
    assert Elements(seen.bucket) == Elements(s.vvTried[kb]);
    assert out in Elements(seen.bucket);
    assert out in s.vvTried[kb];
    assert TriedIds(s.mapInfo) + {id} - {out} == TriedIds(s.mapInfo) - {out} + {id};
  }

  /** A success noted in the record before does not change the slot it takes. */
  lemma SlotBefore(net: Network, s: State, u: State, t: State, id: int, origin: nat, rnd: Draws, k: nat)
    requires TakesSlot(net, u, t, id, origin, rnd, k)
    requires id in s.mapInfo && id in u.mapInfo && u == s.(mapInfo := s.mapInfo[id := u.mapInfo[id]])
    requires u.mapInfo[id].addr.svc == s.mapInfo[id].addr.svc && TriedIds(u.mapInfo) == TriedIds(s.mapInfo)
    requires id !in s.vvTried[GetTriedBucket(net, s.nKey, s.mapInfo[id].addr.svc)]
    ensures TakesSlot(net, s, t, id, origin, rnd, k) && |t.vvTried| == 64
  {
    var kb := GetTriedBucket(net, s.nKey, s.mapInfo[id].addr.svc);
    InspectFullySame(s.mapInfo, u.mapInfo, s.vvTried[kb], rnd, k);
    hide InspectFully, TriedIds, GetTriedBucket;
  }

  lemma TableSizes(net: Network, s: State, pending: int)
    requires Coherent(net, s, pending)
    ensures |s.vvTried| == 64 && |s.vvNew| == 256
    ensures forall b | 0 <= b < |s.vvNew| :: |s.vvNew[b]| <= 64
  {
  }

  /** Where a good report leaves a record in the tables. */
  lemma GoodPlaced(net: Network, s: State, svc: Service, time: int, rnd: Draws)
    requires Consistent(net, s) && Matches(s, svc)
    ensures Placed(net, s, Good(net, s, svc, time, rnd), Find(s, svc.net).value, rnd)
  {
    hide Coherent, MadeTried, Origin, TriedIds, TakesSlot, FirstFrom;
    TableSizes(net, s, NOBODY);
    var id := Find(s, svc.net).value;
    var info := Succeeded(s.mapInfo[id], time);
    var u := s.(mapInfo := s.mapInfo[id := info]);
    TouchKeeps(net, s, id, info);
    AlikeKeepsIds(s.mapInfo, u.mapInfo);
    if !info.fInTried {
      var start := RandInt(rnd, 0, NEW_BUCKET_COUNT);
      OriginFound(net, u, id, start);
      OriginFirst(u.vvNew, id, start, 0);
      PromotedPlaced(net, s, u, id, Origin(u.vvNew, id, start, 0).value, rnd);
    }
  }

  lemma PromotedPlaced(net: Network, s: State, u: State, id: int, origin: nat, rnd: Draws)
    requires Consistent(net, s) && Consistent(net, u) && id in s.mapInfo && !s.mapInfo[id].fInTried
    requires id in u.mapInfo && u == s.(mapInfo := s.mapInfo[id := u.mapInfo[id]])
    requires TriedIds(u.mapInfo) == TriedIds(s.mapInfo)
    requires u.mapInfo[id].addr.svc == s.mapInfo[id].addr.svc && !u.mapInfo[id].fInTried
    requires origin < |s.vvNew| && FirstFrom(s.vvNew, id, RandInt(rnd, 0, 256), origin)
    ensures Placed(net, s, MadeTried(net, u, id, origin, rnd, 1), id, rnd)
  {
    hide MadeTried, Coherent, TakesSlot, FirstFrom, TriedIds;
    Parts(net, u, NOBODY);
    TableSizes(net, s, NOBODY);
    var kb := GetTriedBucket(net, s.nKey, s.mapInfo[id].addr.svc);
    if |s.vvTried[kb]| < 64 {
      PushShape(net, u, id, origin, rnd, 1);
      StatusUpdate(u.mapInfo, id, u.mapInfo[id].(nRefCount := 0, fInTried := true));
    } else {
      EvictPlaced(net, u, id, origin, rnd, 1);
      UntriedOutside(net, s, kb, id);
      SlotBefore(net, s, u, MadeTried(net, u, id, origin, rnd, 1), id, origin, rnd, 1);
    }
  }

  lemma UntriedOutside(net: Network, s: State, kb: nat, id: int)
    requires Consistent(net, s) && kb < |s.vvTried| && id in s.mapInfo && !s.mapInfo[id].fInTried
    ensures id !in s.vvTried[kb]
  {
    assert BucketOk(net, s.nKey, s.mapInfo, kb, s.vvTried[kb]);
  }

  // ----- filing in a new bucket ----------------------------------------------------

  ghost predicate OlderOrFirst(m: map<int, AddrInfo>, x: int, y: int)
    requires x in m && y in m
  {
    m[x].addr.nTime < m[y].addr.nTime || (m[x].addr.nTime == m[y].addr.nTime && x <= y)
  }

  /** Which of the records of a full bucket leaves it: the bad one with the least id,
      or else the oldest of those at four drawn positions, the first of them if several
      are as old. */
  ghost predicate GivesWay(m: map<int, AddrInfo>, bucket: set<int>, now: int, rnd: Draws, k: nat, out: int) {
    && out in bucket && out in m
    && (if exists x <- bucket :: x in m && m[x].IsTerrible(now) then
          m[out].IsTerrible(now) && forall x <- bucket :: x in m && m[x].IsTerrible(now) ==> out <= x
        else
          var n, ids := |bucket|, InOrder(bucket);
          var drawn := {ids[RandInt(rnd, k, n)], ids[RandInt(rnd, k + 1, n)],
                        ids[RandInt(rnd, k + 2, n)], ids[RandInt(rnd, k + 3, n)]};
          out in drawn && forall x <- drawn :: x in m ==> OlderOrFirst(m, out, x))
  }

  lemma LeavesGivesWay(m: map<int, AddrInfo>, bucket: set<int>, now: int, rnd: Draws, k: nat, out: int)
    requires bucket != {} && bucket <= m.Keys && Leaves(m, bucket, now, rnd, k, out)
    ensures GivesWay(m, bucket, now, rnd, k, out)
  {
    hide AddrInfo.IsTerrible, OldestOf;
    if !exists x <- bucket :: x in m && m[x].IsTerrible(now) {
      OldestDrawn(m, bucket, rnd, k, out);
    }
  }

  lemma OldestDrawn(m: map<int, AddrInfo>, bucket: set<int>, rnd: Draws, k: nat, out: int)
    requires bucket != {} && bucket <= m.Keys && OldestOf(m, InOrder(bucket), rnd, k, |bucket|, out)
    ensures var n, ids := |bucket|, InOrder(bucket);
      var drawn := {ids[RandInt(rnd, k, n)], ids[RandInt(rnd, k + 1, n)],
                    ids[RandInt(rnd, k + 2, n)], ids[RandInt(rnd, k + 3, n)]};
      out in drawn && forall x <- drawn :: x in m ==> OlderOrFirst(m, out, x)
  {
    var n, ids := |bucket|, InOrder(bucket);
    hide InOrder, RandInt;
    var a, b, c, d := RandInt(rnd, k, n), RandInt(rnd, k + 1, n), RandInt(rnd, k + 2, n), RandInt(rnd, k + 3, n);
    assert Picked(rnd, k, n, a) && Picked(rnd, k, n, b) && Picked(rnd, k, n, c) && Picked(rnd, k, n, d);
    var j :| 0 <= j < n && Picked(rnd, k, n, j) && ids[j] == out && NoneOlder(m, ids, rnd, k, n, j);
    forall x | x in ids ensures x in m { assert x in Elements(ids); }
    assert Ascending(ids);
  }

  /** What filing a record in a bucket does: nothing where it is there already;
      where the bucket has fewer than 64 entries one more entry and reference; and
      where it is full also one entry and reference less, of another record. */
  ghost predicate FiledIn(s: State, t: State, id: int, b: nat, now: int, rnd: Draws, k: nat) {
    && id in s.mapInfo && id in t.mapInfo && b < |s.vvNew|
    && t.vvTried == s.vvTried && t.nTried == s.nTried && t.nKey == s.nKey && t.nIdCount == s.nIdCount
    && (if id in s.vvNew[b] then t == s
        else
          && t.mapInfo[id].nRefCount == s.mapInfo[id].nRefCount + 1
          && SameRecords(s.mapInfo, t.mapInfo)
          && (if |s.vvNew[b]| < 64 then
                && t.vvNew == s.vvNew[b := s.vvNew[b] + {id}] && t.mapAddr == s.mapAddr && t.vRandom == s.vRandom
                && t.mapInfo.Keys == s.mapInfo.Keys
                && forall x <- t.mapInfo :: x != id ==> x in s.mapInfo && t.mapInfo[x] == s.mapInfo[x]
              else exists out <- s.vvNew[b] ::
                && out in s.mapInfo && GivesWay(s.mapInfo, s.vvNew[b], now, rnd, k, out)
                && t.vvNew == s.vvNew[b := s.vvNew[b] - {out} + {id}]
                && (out in t.mapInfo <==> s.mapInfo[out].nRefCount != 1)
                && (out in t.mapInfo ==> t.mapInfo[out].nRefCount == s.mapInfo[out].nRefCount - 1)
                && t.mapAddr == (if out in t.mapInfo then s.mapAddr else s.mapAddr - {s.mapInfo[out].Net()})
                && (forall x <- s.mapInfo :: x != id && x != out ==>
                      x in t.mapInfo && t.mapInfo[x].nRefCount == s.mapInfo[x].nRefCount)))
  }

  lemma SameGivesWay(m: map<int, AddrInfo>, m': map<int, AddrInfo>, bucket: set<int>, now: int, rnd: Draws, k: nat,
                     out: int)
    requires GivesWay(m', bucket, now, rnd, k, out) && bucket != {}
    requires forall x <- bucket :: x in m && x in m' && m'[x] == m[x]
    ensures GivesWay(m, bucket, now, rnd, k, out)
  {
    hide AddrInfo.IsTerrible, RandInt;
    var ids := InOrder(bucket);
    forall i | 0 <= i < |ids| ensures ids[i] in bucket { assert ids[i] in Elements(ids); }
  }

  /** Filing a record whose count already includes the new reference to come. */
  lemma FiledRecord(net: Network, s: State, id: int, b: nat, now: int, rnd: Draws, k: nat)
    requires id in s.mapInfo && b < |s.vvNew| && id !in s.vvNew[b]
    requires Coherent(net, s.(mapInfo := Bumped(s.mapInfo, id)), id)
    ensures RandomOk(s.mapInfo, s.vRandom) && s.vvNew[b] <= s.mapInfo.Keys && NOBODY !in s.mapInfo
    ensures FiledIn(s, Filed(net, s, id, b, now, rnd, k), id, b, now, rnd, k)
  {
    hide Coherent, RandomOk, FiledIn, Filed, TriedIds;
    var lost := FiledKeeps(net, s, id, b, now, rnd, k);
    TableSizes(net, s.(mapInfo := Bumped(s.mapInfo, id)), id);
    if |s.vvNew[b]| == 64 {
      FiledFull(net, s, id, b, now, rnd, k);
    } else {
      FiledRoom(net, s, id, b, now, rnd, k);
    }
  }

  lemma FiledRoom(net: Network, s: State, id: int, b: nat, now: int, rnd: Draws, k: nat)
    requires id in s.mapInfo && b < |s.vvNew| && id !in s.vvNew[b] && |s.vvNew[b]| < 64
    requires RandomOk(s.mapInfo, s.vRandom) && s.vvNew[b] <= s.mapInfo.Keys && NOBODY !in s.mapInfo
    ensures FiledIn(s, Filed(net, s, id, b, now, rnd, k), id, b, now, rnd, k)
  {
    hide RandomOk, GivesWay, Released, Victim;
  }

  lemma FiledFull(net: Network, s: State, id: int, b: nat, now: int, rnd: Draws, k: nat)
    requires id in s.mapInfo && b < |s.vvNew| && id !in s.vvNew[b] && |s.vvNew[b]| == 64
    requires Coherent(net, s.(mapInfo := Bumped(s.mapInfo, id)), id)
    requires RandomOk(s.mapInfo, s.vRandom) && s.vvNew[b] <= s.mapInfo.Keys && NOBODY !in s.mapInfo
    ensures FiledIn(s, Filed(net, s, id, b, now, rnd, k), id, b, now, rnd, k)
  {
    hide Coherent, Victim, Leaves, GivesWay, SameRecords, RandomOk, TriedIds;
    var m, bucket := Bumped(s.mapInfo, id), s.vvNew[b];
    var u, t := s.(mapInfo := m), Filed(net, s, id, b, now, rnd, k);
    VictimMember(m, bucket, now, rnd, k);
    var v := Victim(m, bucket, now, rnd, k);
    LeavesGivesWay(m, bucket, now, rnd, k, v);
    SameGivesWay(s.mapInfo, m, bucket, now, rnd, k, v);
    FiledRecords(net, s, id, b, now, rnd, k);
    ReleaseCounts(net, u, b, v, id);
    ReleaseKeeps(net, u, b, v, id);
    FullShape(net, s, id, b, now, rnd, k);
    hide Filed, Released;
  }

  lemma FullShape(net: Network, s: State, id: int, b: nat, now: int, rnd: Draws, k: nat)
    requires id in s.mapInfo && b < |s.vvNew| && id !in s.vvNew[b] && |s.vvNew[b]| == NEW_BUCKET_SIZE
    requires RandomOk(s.mapInfo, s.vRandom) && s.vvNew[b] <= s.mapInfo.Keys && NOBODY !in s.mapInfo
    ensures var m := Bumped(s.mapInfo, id);
      var u := s.(mapInfo := m);
      && RandomOk(m, s.vRandom) && Victim(m, s.vvNew[b], now, rnd, k) in m
      && (var r := Released(u, b, Victim(m, s.vvNew[b], now, rnd, k));
          |r.vvNew| == |s.vvNew| && Filed(net, s, id, b, now, rnd, k) == r.(vvNew := r.vvNew[b := r.vvNew[b] + {id}]))
  {
    var m := Bumped(s.mapInfo, id);
    TouchedRandom(s.mapInfo, s.vRandom, id, m[id]);
    VictimMember(m, s.vvNew[b], now, rnd, k);
    hide Victim, Leaves, RandomOk;
  }

  lemma ReleaseCounts(net: Network, s: State, b: nat, id: int, pending: int)
    requires Coherent(net, s, pending) && b < |s.vvNew| && id in s.vvNew[b] && id != pending
    ensures id in s.mapInfo && RandomOk(s.mapInfo, s.vRandom)
    ensures var t := Released(s, b, id);
      && (id in t.mapInfo <==> s.mapInfo[id].nRefCount != 1)
      && (id in t.mapInfo ==> t.mapInfo[id].nRefCount == s.mapInfo[id].nRefCount - 1)
      && (forall x <- s.mapInfo :: x != id ==> x in t.mapInfo && t.mapInfo[x].nRefCount == s.mapInfo[x].nRefCount)
  {
    hide Forgotten, Alike, TriedOk, NewOk, AddrOk, IdsOk;
    Parts(net, s, pending);
    Referenced(s.mapInfo, s.vvNew, b, id, pending);
    var info := s.mapInfo[id].(nRefCount := s.mapInfo[id].nRefCount - 1);
    var t := s.(mapInfo := s.mapInfo[id := info]);
    TouchedRandom(s.mapInfo, s.vRandom, id, info);
    if info.nRefCount == 0 {
      ForgetKeeps(t, id);
      AlikeCounts(t.mapInfo, Forgotten(t, id).mapInfo, id);
    }
  }

  lemma AlikeCounts(m: map<int, AddrInfo>, m': map<int, AddrInfo>, id: int)
    requires Alike(m - {id}, m')
    ensures id !in m' && forall x <- m :: x != id ==> x in m' && m'[x].nRefCount == m[x].nRefCount
  {
    AlikeMembers(m, m', id);
  }

  // ----- Add_ ------------------------------------------------------------------------

  /** A time less a penalty, as a record keeps it. */
  function Penalized(time: int, penalty: int): int {
    (if time > penalty then time - penalty else 0) % 0x1_0000_0000
  }

  /** A record `o` becomes `n` when its address is heard of again: it has the announced
      time, less the penalty, where that is news, and the services announced too. */
  ghost predicate Heard(o: AddrInfo, n: AddrInfo, addr: Address, penalty: int, now: int) {
    var interval := if now - addr.nTime < 86400 then 3600 else 86400;
    var news := addr.nTime != 0 && (o.addr.nTime == 0 || o.addr.nTime < addr.nTime - interval - penalty);
    && n.addr.nTime == (if news then Penalized(addr.nTime, penalty) else o.addr.nTime)
    && n.addr.nServices == o.addr.nServices + addr.nServices
    && n.addr.svc == o.addr.svc && n.addr.nLastTry == o.addr.nLastTry && n.source == o.source
    && n.nLastSuccess == o.nLastSuccess && n.nAttempts == o.nAttempts && n.fInTried == o.fInTried
  }

  /** The chance of one more bucket, with odds of 1 in 2, 4 and 8. */
  ghost predicate Lucky(n: AddrInfo, addr: Address, rnd: Draws) {
    && addr.nTime != 0 && (n.addr.nTime == 0 || n.addr.nTime < addr.nTime) && !n.fInTried
    && 1 <= n.nRefCount <= 3 && RandInt(rnd, 0, [2, 4, 8][n.nRefCount - 1]) == 0
  }

  /** What hearing of a known address again writes. */
  ghost predicate AddedAgain(net: Network, s: State, t: State, id: int, addr: Address, source: NetAddr,
                             penalty: int, now: int, rnd: Draws)
  {
    && id in s.mapInfo && id in t.mapInfo
    && Heard(s.mapInfo[id], t.mapInfo[id], addr, penalty, now)
    && (var info := t.mapInfo[id].(nRefCount := s.mapInfo[id].nRefCount, nRandomPos := s.mapInfo[id].nRandomPos);
        var u := s.(mapInfo := s.mapInfo[id := info]);
        if Lucky(info, addr, rnd)
        then FiledIn(u, t, id, GetNewBucket(net, s.nKey, info.addr.svc, source), now, rnd, 1)
        else t == u)
  }

  lemma AddKnownRecord(net: Network, s: State, id: int, addr: Address, source: NetAddr, penalty: int, now: int,
                       rnd: Draws)
    requires Consistent(net, s) && net.routable(addr.svc.net) && Find(s, addr.svc.net) == Some(id)
    ensures AddedAgain(net, s, Add(net, s, addr, source, penalty, now, rnd).0, id, addr, source, penalty, now, rnd)
  {
    hide Coherent, Filed, FiledIn, Refreshed, Promoted, Lucky, Heard;
    RefreshedHeard(s.mapInfo[id], addr, penalty, now);
    var info := Refreshed(s.mapInfo[id], addr, penalty, now);
    var u := s.(mapInfo := s.mapInfo[id := info]);
    TouchKeeps(net, s, id, info);
    Counted(net, u, id);
    PromotedLucky(info, addr, rnd);
    if Promoted(info, addr, rnd) {
      var b := GetNewBucket(net, s.nKey, info.addr.svc, source);
      KnownFiled(net, u, id, b, now, rnd);
      var t := Filed(net, u, id, b, now, rnd, 1);
      FiledOther(u, t, id, b, now, rnd);
      assert t.mapInfo[id].(nRefCount := info.nRefCount, nRandomPos := info.nRandomPos) == info;
      HeardOther(s.mapInfo[id], info, t.mapInfo[id], addr, penalty, now);
    }
  }

  lemma RefreshedHeard(o: AddrInfo, addr: Address, penalty: int, now: int)
    ensures var n := Refreshed(o, addr, penalty, now);
      Heard(o, n, addr, penalty, now) && n.nRefCount == o.nRefCount && n.nRandomPos == o.nRandomPos
      && n.addr.svc == o.addr.svc && n.fInTried == o.fInTried
  {
  }

  lemma HeardOther(o: AddrInfo, n: AddrInfo, n': AddrInfo, addr: Address, penalty: int, now: int)
    requires Heard(o, n, addr, penalty, now)
    requires n' == n.(nRefCount := n'.nRefCount, nRandomPos := n'.nRandomPos)
    ensures Heard(o, n', addr, penalty, now)
  {
  }

  lemma Counted(net: Network, s: State, id: int)
    requires Consistent(net, s) && id in s.mapInfo
    ensures 0 <= s.mapInfo[id].nRefCount <= 4 && (s.mapInfo[id].fInTried <==> s.mapInfo[id].nRefCount == 0)
  {
  }

  lemma PromotedLucky(info: AddrInfo, addr: Address, rnd: Draws)
    requires 0 <= info.nRefCount <= 4 && (info.fInTried <==> info.nRefCount == 0)
    ensures Promoted(info, addr, rnd) <==> Lucky(info, addr, rnd)
    ensures Lucky(info, addr, rnd) ==> !info.fInTried && info.nRefCount != NEW_BUCKETS_PER_ADDRESS
  {
    assert Pow2(1) == 2 && Pow2(2) == 4 && Pow2(3) == 8;
  }

  lemma KnownFiled(net: Network, s: State, id: int, b: nat, now: int, rnd: Draws)
    requires Consistent(net, s) && id in s.mapInfo && b < NEW_BUCKET_COUNT
    requires !s.mapInfo[id].fInTried && s.mapInfo[id].nRefCount != NEW_BUCKETS_PER_ADDRESS
    ensures RandomOk(s.mapInfo, s.vRandom) && b < |s.vvNew| && s.vvNew[b] <= s.mapInfo.Keys && NOBODY !in s.mapInfo
    ensures FiledIn(s, Filed(net, s, id, b, now, rnd, 1), id, b, now, rnd, 1)
  {
    Counted(net, s, id);
    if id !in s.vvNew[b] {
      BumpKeeps(net, s, id);
      FiledRecord(net, s, id, b, now, rnd, 1);
    }
    hide FiledIn;
  }

  lemma FiledOther(s: State, t: State, id: int, b: nat, now: int, rnd: Draws)
    requires FiledIn(s, t, id, b, now, rnd, 1)
    ensures id in s.mapInfo && id in t.mapInfo
    ensures var n := t.mapInfo[id]; n == s.mapInfo[id].(nRefCount := n.nRefCount, nRandomPos := n.nRandomPos)
  {
    hide GivesWay;
  }

  /** What an address never heard of before adds. */
  ghost predicate AddedNew(net: Network, s: State, t: State, addr: Address, source: NetAddr, penalty: int, now: int,
                           rnd: Draws)
  {
    var id := s.nIdCount;
    var first := addr.(nTime := Penalized(addr.nTime, penalty), nLastTry := 0);
    var info := AddrInfo(first, source, 0, 0, 0, false, |s.vRandom|);
    var u := s.(nIdCount := id + 1, nNew := s.nNew + 1, vRandom := s.vRandom + [id],
                mapInfo := s.mapInfo[id := info], mapAddr := s.mapAddr[addr.svc.net := id]);
    FiledIn(u, t, id, GetNewBucket(net, s.nKey, addr.svc, source), now, rnd, 1)
  }

  lemma AddUnknownRecord(net: Network, s: State, addr: Address, source: NetAddr, penalty: int, now: int, rnd: Draws)
    requires Consistent(net, s) && net.routable(addr.svc.net) && Find(s, addr.svc.net) == None
    ensures AddedNew(net, s, Add(net, s, addr, source, penalty, now, rnd).0, addr, source, penalty, now, rnd)
  {
    hide Coherent, Filed, FiledIn, Discovered, RandomOk;
    FindExact(net, s, addr.svc.net);
    DiscoveryKeeps(net, s, addr, source, penalty);
    var b := GetNewBucket(net, s.nKey, addr.svc, source);
    NobodyIn(net, s, b);
    DiscoveredRandom(s, addr, source, penalty);
    DiscoveredIs(s, addr, source, penalty);
    FiledRecord(net, Discovered(s, addr, source, penalty), s.nIdCount, b, now, rnd, 1);
  }

  lemma DiscoveredIs(s: State, addr: Address, source: NetAddr, penalty: int)
    ensures var id := s.nIdCount;
      var first := addr.(nTime := Penalized(addr.nTime, penalty), nLastTry := 0);
      var info := AddrInfo(first, source, 0, 0, 0, false, |s.vRandom|);
      Discovered(s, addr, source, penalty)
        == s.(nIdCount := id + 1, nNew := s.nNew + 1, vRandom := s.vRandom + [id],
              mapInfo := s.mapInfo[id := info], mapAddr := s.mapAddr[addr.svc.net := id])
  {
    var id, t := s.nIdCount, Discovered(s, addr, source, penalty);
    assert t.mapInfo == s.mapInfo[id := t.mapInfo[id]];
  }

  lemma NobodyIn(net: Network, s: State, b: nat)
    requires Consistent(net, s) && b < NEW_BUCKET_COUNT
    ensures b < |s.vvNew| && s.nIdCount !in s.vvNew[b] && RandomOk(s.mapInfo, s.vRandom) && IdsOk(s.mapInfo, s.nIdCount)
  {
  }

  /** The whole operation, whatever the address. */
  lemma AddRecord(net: Network, s: State, addr: Address, source: NetAddr, penalty: int, now: int, rnd: Draws)
    requires Consistent(net, s)
    ensures var (t, isNew) := Add(net, s, addr, source, penalty, now, rnd);
      if !net.routable(addr.svc.net) then t == s && !isNew
      else
        match Find(s, addr.svc.net)
        case Some(id) => !isNew && AddedAgain(net, s, t, id, addr, source, penalty, now, rnd)
        case None => isNew && AddedNew(net, s, t, addr, source, penalty, now, rnd)
  {
    hide Coherent, AddedAgain, AddedNew, Filed;
    if net.routable(addr.svc.net) {
      match Find(s, addr.svc.net)
      case Some(id) => AddKnownRecord(net, s, id, addr, source, penalty, now, rnd);
      case None => AddUnknownRecord(net, s, addr, source, penalty, now, rnd);
    }
  }

  // ----- Attempt_, Connected_ -----------------------------------------------------------

  /** What an attempt writes: it is counted and timed, and nothing else changes. */
  ghost predicate AttemptWritten(s: State, t: State, id: int, time: int) {
    && id in s.mapInfo
    && t == s.(mapInfo := t.mapInfo) && t.mapInfo.Keys == s.mapInfo.Keys && id in t.mapInfo
    && (var o, n := s.mapInfo[id], t.mapInfo[id];
        && n.nAttempts == o.nAttempts + 1
        && n.addr == Address(o.addr.svc, o.addr.nServices, o.addr.nTime, time)
        && n.source == o.source && n.nLastSuccess == o.nLastSuccess && n.nRefCount == o.nRefCount
        && n.fInTried == o.fInTried && n.nRandomPos == o.nRandomPos)
    && (forall x <- s.mapInfo :: x != id ==> x in t.mapInfo && t.mapInfo[x] == s.mapInfo[x])
  }

  lemma AttemptRecord(s: State, svc: Service, time: int)
    ensures var t := Attempt(s, svc, time);
      if Matches(s, svc) then AttemptWritten(s, t, Find(s, svc.net).value, time) else t == s
  {
  }

  /** What a connection writes: the time of a record last seen over 20 minutes ago. */
  ghost predicate ConnectedWritten(s: State, t: State, id: int, time: int) {
    && id in s.mapInfo
    && (if time - s.mapInfo[id].addr.nTime <= 1200 then t == s
        else
          && t == s.(mapInfo := t.mapInfo) && t.mapInfo.Keys == s.mapInfo.Keys && id in t.mapInfo
          && (var o, n := s.mapInfo[id], t.mapInfo[id];
              && n.addr == Address(o.addr.svc, o.addr.nServices, time % 0x1_0000_0000, o.addr.nLastTry)
              && n == AddrInfo(n.addr, o.source, o.nLastSuccess, o.nAttempts, o.nRefCount, o.fInTried, o.nRandomPos))
          && (forall x <- s.mapInfo :: x != id ==> x in t.mapInfo && t.mapInfo[x] == s.mapInfo[x]))
  }

  lemma ConnectedRecord(s: State, svc: Service, time: int)
    ensures var t := Connected(s, svc, time);
      if Matches(s, svc) then ConnectedWritten(s, t, Find(s, svc.net).value, time) else t == s
  {
  }

  // ----- reports in a row ---------------------------------------------------------------

  /** Attempts on one service at the given times, one after the other. */
  function Attempts(s: State, svc: Service, times: seq<int>): State {
    if times == [] then s else Attempt(Attempts(s, svc, times[..|times| - 1]), svc, times[|times| - 1])
  }

  lemma {:induction false} AttemptsCounted(s: State, svc: Service, times: seq<int>)
    requires Matches(s, svc)
    ensures var t, id := Attempts(s, svc, times), Find(s, svc.net).value;
      && Matches(t, svc) && Find(t, svc.net) == Some(id)
      && t.mapInfo[id].nAttempts == s.mapInfo[id].nAttempts + |times|
      && t.mapInfo[id].nLastSuccess == s.mapInfo[id].nLastSuccess
      && t.mapInfo[id].addr.nLastTry == (if times == [] then s.mapInfo[id].addr.nLastTry else times[|times| - 1])
  {
    if times != [] { AttemptsCounted(s, svc, times[..|times| - 1]); }
  }

  /** Three attempts and never a success make a record bad, a minute after the last. */
  lemma FailuresDoom(s: State, svc: Service, times: seq<int>, now: int)
    requires Matches(s, svc) && times != [] && now - times[|times| - 1] > 60
    requires var info := s.mapInfo[Find(s, svc.net).value]; info.nLastSuccess == 0 && info.nAttempts + |times| >= 3
    ensures var t := Attempts(s, svc, times);
      Matches(t, svc) && t.mapInfo[Find(t, svc.net).value].IsTerrible(now)
  {
    AttemptsCounted(s, svc, times);
    hide Attempts;
  }

  /** After a good report a record is good for just thirty days, whatever it was before. */
  lemma GoodRedeems(net: Network, s: State, svc: Service, time: int, rnd: Draws, now: int)
    requires Consistent(net, s) && Matches(s, svc) && 0 < time < 0x1_0000_0000 && time <= now
    ensures var t, id := Good(net, s, svc, time, rnd), Find(s, svc.net).value;
      id in t.mapInfo && (t.mapInfo[id].IsTerrible(now) <==> now - time > 30 * 24 * 60 * 60)
  {
    GoodRecord(net, s, svc, time, rnd);
    hide Good, Coherent;
  }
}

/** Every operation of the address manager keeps its indexes consistent. */
module AddrInvariant {
  import opened Common
  import opened AddrTypes
  import opened AddrState

  // ----- occurrences in the new buckets ------------------------------------

  lemma {:induction false} OccurrencesUpdate(vv: seq<set<int>>, b: nat, bucket: set<int>, id: int)
    requires b < |vv|
    ensures Occurrences(vv[b := bucket], id)
         == Occurrences(vv, id) - (if id in vv[b] then 1 else 0) + (if id in bucket then 1 else 0)
  {
    var last := |vv| - 1;
    var ww := vv[b := bucket];
    if b == last {
      assert ww[..last] == vv[..last];
    } else {
      assert ww[..last] == vv[..last][b := bucket];
      OccurrencesUpdate(vv[..last], b, bucket, id);
    }
  }

  lemma {:induction false} OccurrencesPositive(vv: seq<set<int>>, id: int, b: nat)
    requires b < |vv| && id in vv[b]
    ensures Occurrences(vv, id) > 0
  {
    if b < |vv| - 1 { OccurrencesPositive(vv[..|vv| - 1], id, b); }
  }

  lemma {:induction false} OccurrencesNone(vv: seq<set<int>>, id: int)
    requires forall b | 0 <= b < |vv| :: id !in vv[b]
    ensures Occurrences(vv, id) == 0
  {
    if vv != [] { OccurrencesNone(vv[..|vv| - 1], id); }
  }

  lemma {:induction false} OccurrencesErased(vv: seq<set<int>>, gone: int, id: int)
    ensures Occurrences(Erased(vv, gone), id) == if id == gone then 0 else Occurrences(vv, id)
  {
    if vv != [] {
      var init := vv[..|vv| - 1];
      assert Erased(vv, gone)[..|vv| - 1] == Erased(init, gone);
      OccurrencesErased(init, gone, id);
    }
  }

  // ----- changes no index depends on ----------------------------------------

  /** Same ids, and for each the same address, status and reference count. */
  ghost predicate Alike(m: map<int, AddrInfo>, m': map<int, AddrInfo>) {
    && m'.Keys == m.Keys
    && forall id {:trigger id in m} {:trigger m'[id]} | id in m ::
         && m'[id].addr.svc == m[id].addr.svc && m'[id].fInTried == m[id].fInTried
         && m'[id].nRefCount == m[id].nRefCount
  }

  /** No record is new, and none differs but in position and reference count. */
  ghost predicate SameRecords(m: map<int, AddrInfo>, m': map<int, AddrInfo>) {
    forall id {:trigger id in m'} {:trigger m'[id]} | id in m' ::
      id in m && m'[id] == m[id].(nRandomPos := m'[id].nRandomPos, nRefCount := m'[id].nRefCount)
  }

  lemma RecordsTransitive(m: map<int, AddrInfo>, m': map<int, AddrInfo>, m'': map<int, AddrInfo>)
    requires Alike(m, m') && SameRecords(m, m') && Alike(m', m'') && SameRecords(m', m'')
    ensures Alike(m, m'') && SameRecords(m, m'')
  {
    forall id ensures id in m <==> id in m' {
      assert id in m.Keys <==> id in m'.Keys;
    }
  }

  /** How one record's status moves its id between the two sets. */
  lemma StatusUpdate(m: map<int, AddrInfo>, id: int, info: AddrInfo)
    ensures TriedIds(m[id := info]) == if info.fInTried then TriedIds(m) + {id} else TriedIds(m) - {id}
    ensures NewIds(m[id := info]) == if info.fInTried then NewIds(m) - {id} else NewIds(m) + {id}
  {
    var m' := m[id := info];
    forall x
      ensures x in TriedIds(m') <==> if x == id then info.fInTried else x in TriedIds(m)
      ensures x in NewIds(m') <==> if x == id then !info.fInTried else x in NewIds(m)
    {
      assert x in m' <==> x == id || x in m;
    }
  }

  lemma AlikeKeepsIds(m: map<int, AddrInfo>, m': map<int, AddrInfo>)
    requires Alike(m, m')
    ensures TriedIds(m') == TriedIds(m) && NewIds(m') == NewIds(m)
  {
    forall id
      ensures id in TriedIds(m') <==> id in TriedIds(m)
      ensures id in NewIds(m') <==> id in NewIds(m)
    {
      assert id in m'.Keys <==> id in m.Keys;
    }
  }

  lemma AlikeKeeps(net: Network, s: State, m': map<int, AddrInfo>, r': seq<int>, pending: int)
    requires Coherent(net, s, pending)
    requires Alike(s.mapInfo, m') && RandomOk(m', r')
    ensures Coherent(net, s.(mapInfo := m', vRandom := r'), pending)
  {
    hide RandomOk;
    AlikeKeepsIds(s.mapInfo, m');
    forall id ensures id in m' <==> id in s.mapInfo {
      assert id in m'.Keys <==> id in s.mapInfo.Keys;
    }
    forall b | 0 <= b < |s.vvTried| ensures BucketOk(net, s.nKey, m', b, s.vvTried[b]) {
      assert BucketOk(net, s.nKey, s.mapInfo, b, s.vvTried[b]);
    }
  }

  lemma TouchKeeps(net: Network, s: State, id: int, info: AddrInfo)
    requires Consistent(net, s) && id in s.mapInfo
    requires Alike(s.mapInfo, s.mapInfo[id := info]) && info.nRandomPos == s.mapInfo[id].nRandomPos
    ensures Consistent(net, s.(mapInfo := s.mapInfo[id := info]))
  {
    TouchedRandom(s.mapInfo, s.vRandom, id, info);
    AlikeKeeps(net, s, s.mapInfo[id := info], s.vRandom, NOBODY);
  }

  // ----- SwapRandom, deletion ------------------------------------------------

  lemma SwapRecords(s: State, i: nat, j: nat)
    requires RandomOk(s.mapInfo, s.vRandom) && i < |s.vRandom| && j < |s.vRandom|
    ensures PlacedAt(s.mapInfo, s.vRandom[i], i) && PlacedAt(s.mapInfo, s.vRandom[j], j)
    ensures var t := Swapped(s, i, j);
      && Alike(s.mapInfo, t.mapInfo) && SameRecords(s.mapInfo, t.mapInfo)
      && |t.vRandom| == |s.vRandom|
      && t.vRandom[i] == s.vRandom[j] && t.vRandom[j] == s.vRandom[i]
      && (forall x | 0 <= x < |s.vRandom| && x != i && x != j :: t.vRandom[x] == s.vRandom[x])
      && t == s.(mapInfo := t.mapInfo, vRandom := t.vRandom)
  {
    assert PlacedAt(s.mapInfo, s.vRandom[i], i) && PlacedAt(s.mapInfo, s.vRandom[j], j);
  }

  /** Deleting a record leaves everything else as it was, positions aside. */
  lemma ForgetKeeps(s: State, id: int)
    requires RandomOk(s.mapInfo, s.vRandom) && id in s.mapInfo
    ensures var t := Forgotten(s, id);
      && RandomOk(t.mapInfo, t.vRandom)
      && Alike(s.mapInfo - {id}, t.mapInfo) && SameRecords(s.mapInfo, t.mapInfo)
      && t.mapAddr == s.mapAddr - {s.mapInfo[id].Net()}
      && t == s.(mapInfo := t.mapInfo, vRandom := t.vRandom, mapAddr := t.mapAddr, nNew := s.nNew - 1)
  {
    hide Swapped, Alike, SameRecords;
    var last := |s.vRandom| - 1;
    var i := s.mapInfo[id].nRandomPos;
    assert Holds(s.vRandom, i, id);
    SwapRecords(s, i, last);
    SwapKeeps(s, i, last);
    var u, t := Swapped(s, i, last), Forgotten(s, id);
    AlikeWithout(s.mapInfo, u.mapInfo, id);
    AlikeNet(s.mapInfo, u.mapInfo, id);
    forall x | 0 <= x < last ensures PlacedAt(t.mapInfo, t.vRandom[x], x) {
      assert PlacedAt(u.mapInfo, u.vRandom[x], x);
      assert PlacedAt(u.mapInfo, u.vRandom[last], last);
    }
    forall x | x in t.mapInfo ensures Holds(t.vRandom, t.mapInfo[x].nRandomPos, x) {
      assert Holds(u.vRandom, u.mapInfo[x].nRandomPos, x);
    }
  }

  lemma AlikeNet(m: map<int, AddrInfo>, m': map<int, AddrInfo>, id: int)
    requires Alike(m, m') && id in m
    ensures id in m' && m'[id].Net() == m[id].Net()
  {
    assert id in m.Keys;
  }

  lemma RemovalKeepsIds(m: map<int, AddrInfo>, m': map<int, AddrInfo>, id: int)
    requires id in m && !m[id].fInTried && Alike(m - {id}, m')
    ensures TriedIds(m') == TriedIds(m) && NewIds(m') == NewIds(m) - {id}
    ensures |NewIds(m')| == |NewIds(m)| - 1
  {
    AlikeKeepsIds(m - {id}, m');
    assert id in NewIds(m);
    assert TriedIds(m - {id}) == TriedIds(m);
    assert NewIds(m - {id}) == NewIds(m) - {id};
  }

  lemma RemovalKeepsAddr(m: map<int, AddrInfo>, m': map<int, AddrInfo>, a: map<NetAddr, int>, id: int)
    requires id in m && AddrOk(m, a) && Alike(m - {id}, m')
    ensures AddrOk(m', a - {m[id].Net()})
  {
    forall x ensures x in m' <==> x in m && x != id {
      assert x in m'.Keys <==> x in (m - {id}).Keys;
    }
    var a' := a - {m[id].Net()};
    forall n | n in a' ensures KnownAs(m', a'[n], n) {
      assert KnownAs(m, a[n], n);
    }
  }

  lemma RemovalKeepsTried(net: Network, key: seq<byte>, m: map<int, AddrInfo>, m': map<int, AddrInfo>,
                          vv: seq<seq<int>>, id: int)
    requires id in m && !m[id].fInTried && TriedOk(net, key, m, vv) && Alike(m - {id}, m')
    ensures TriedOk(net, key, m', vv)
  {
    forall x ensures x in m' <==> x in m && x != id {
      assert x in m'.Keys <==> x in (m - {id}).Keys;
    }
    forall b | 0 <= b < |vv| ensures BucketOk(net, key, m', b, vv[b]) {
      assert BucketOk(net, key, m, b, vv[b]);
    }
  }

  /** The last reference to a record goes, and the record with it. */
  lemma RemovalKeepsNew(m: map<int, AddrInfo>, m': map<int, AddrInfo>, vv: seq<set<int>>, b: nat, id: int, pending: int)
    requires NewOk(m, vv, pending) && b < |vv| && id in vv[b] && id in m && id != pending
    requires m[id].nRefCount == 1 && Alike(m - {id}, m')
    ensures NewOk(m', vv[b := vv[b] - {id}], pending)
  {
    var ww := vv[b := vv[b] - {id}];
    forall x { OccurrencesUpdate(vv, b, vv[b] - {id}, x); }
    forall x ensures x in m' <==> x in m && x != id {
      assert x in m'.Keys <==> x in (m - {id}).Keys;
    }
    forall c | 0 <= c < |ww| ensures ww[c] <= m'.Keys && |ww[c]| <= NEW_BUCKET_SIZE {
      if id in ww[c] { OccurrencesPositive(ww, id, c); }
      assert ww[c] <= vv[c];
    }
  }

  lemma ReferenceDropKeepsNew(m: map<int, AddrInfo>, info: AddrInfo, vv: seq<set<int>>, b: nat, id: int, pending: int)
    requires NewOk(m, vv, pending) && b < |vv| && id in vv[b] && id in m && id != pending
    requires m[id].nRefCount > 1 && info == m[id].(nRefCount := m[id].nRefCount - 1)
    ensures NewOk(m[id := info], vv[b := vv[b] - {id}], pending)
  {
    forall x { OccurrencesUpdate(vv, b, vv[b] - {id}, x); }
  }

  /** What consistency says of the parts, for proofs that hide them. */
  lemma Parts(net: Network, s: State, pending: int)
    requires Coherent(net, s, pending)
    ensures IdsOk(s.mapInfo, s.nIdCount) && RandomOk(s.mapInfo, s.vRandom) && AddrOk(s.mapInfo, s.mapAddr)
    ensures TriedOk(net, s.nKey, s.mapInfo, s.vvTried) && NewOk(s.mapInfo, s.vvNew, pending)
    ensures CountsOk(s.mapInfo, s.nTried, s.nNew)
    ensures |s.vvNew| == NEW_BUCKET_COUNT && |s.vvTried| == TRIED_BUCKET_COUNT && NOBODY !in s.mapInfo
  {
  }

  lemma Referenced(m: map<int, AddrInfo>, vv: seq<set<int>>, b: nat, id: int, pending: int)
    requires NewOk(m, vv, pending) && b < |vv| && id in vv[b]
    ensures id in m && m[id].nRefCount > 0 && !m[id].fInTried
  {
    OccurrencesPositive(vv, id, b);
  }

  lemma AlikeWithout(m: map<int, AddrInfo>, m': map<int, AddrInfo>, id: int)
    requires Alike(m, m') && SameRecords(m, m')
    ensures Alike(m - {id}, m' - {id}) && SameRecords(m, m' - {id})
  {
    assert (m' - {id}).Keys == m'.Keys - {id} && (m - {id}).Keys == m.Keys - {id};
  }

  /** The rest of the ids, when one record is gone. */
  lemma AlikeMembers(m: map<int, AddrInfo>, m': map<int, AddrInfo>, id: int)
    requires Alike(m - {id}, m')
    ensures forall x :: x in m' <==> x in m && x != id
  {
    forall x ensures x in m' <==> x in m && x != id {
      assert x in m'.Keys <==> x in (m - {id}).Keys;
    }
  }

  /** Taking one record out of a new bucket, with or without its deletion. */
  lemma ReleaseKeeps(net: Network, s: State, b: nat, id: int, pending: int)
    requires Coherent(net, s, pending)
    requires b < |s.vvNew| && id in s.vvNew[b] && id != pending
    ensures var t := Released(s, b, id);
      && Coherent(net, t, pending)
      && t.vvNew == s.vvNew[b := s.vvNew[b] - {id}]
      && TriedIds(t.mapInfo) == TriedIds(s.mapInfo)
      && t.mapAddr == (if s.mapInfo[id].nRefCount == 1 then s.mapAddr - {s.mapInfo[id].Net()} else s.mapAddr)
      && (forall x <- s.mapInfo :: x != id ==> x in t.mapInfo)
      && t.vvTried == s.vvTried && t.nTried == s.nTried && t.nKey == s.nKey && t.nIdCount == s.nIdCount
  {
    hide IdsOk, RandomOk, AddrOk, TriedOk, NewOk, TriedIds, NewIds, Alike, SameRecords, Forgotten;
    Parts(net, s, pending);
    Referenced(s.mapInfo, s.vvNew, b, id, pending);
    var m := s.mapInfo;
    var info := m[id].(nRefCount := m[id].nRefCount - 1);
    var t := s.(mapInfo := m[id := info]);
    TouchedRandom(m, s.vRandom, id, info);
    if info.nRefCount == 0 {
      ForgetKeeps(t, id);
      var m' := Forgotten(t, id).mapInfo;
      assert t.mapInfo - {id} == m - {id};
      RemovalKeepsIds(m, m', id);
      RemovalKeepsAddr(m, m', s.mapAddr, id);
      RemovalKeepsTried(net, s.nKey, m, m', s.vvTried, id);
      RemovalKeepsNew(m, m', s.vvNew, b, id, pending);
      AlikeMembers(m, m', id);
      FewerIds(m, m', s.nIdCount);
    } else {
      ReferenceDropKeepsNew(m, info, s.vvNew, b, id, pending);
      CountKeepsRest(net, s, id, info);
    }
  }

  lemma FewerIds(m: map<int, AddrInfo>, m': map<int, AddrInfo>, nIdCount: int)
    requires IdsOk(m, nIdCount) && forall x :: x in m' ==> x in m
    ensures IdsOk(m', nIdCount)
  {
  }

  /** Only the new table depends on the reference counts. */
  lemma CountKeepsRest(net: Network, s: State, id: int, info: AddrInfo)
    requires id in s.mapInfo && info == s.mapInfo[id].(nRefCount := info.nRefCount)
    requires IdsOk(s.mapInfo, s.nIdCount) && RandomOk(s.mapInfo, s.vRandom) && AddrOk(s.mapInfo, s.mapAddr)
    requires TriedOk(net, s.nKey, s.mapInfo, s.vvTried)
    ensures var m := s.mapInfo[id := info];
      && IdsOk(m, s.nIdCount) && RandomOk(m, s.vRandom) && AddrOk(m, s.mapAddr)
      && TriedOk(net, s.nKey, m, s.vvTried)
      && TriedIds(m) == TriedIds(s.mapInfo) && NewIds(m) == NewIds(s.mapInfo)
  {
    hide IdsOk, RandomOk, AddrOk, TriedOk, TriedIds, NewIds;
    var m := s.mapInfo[id := info];
    TouchedRandom(s.mapInfo, s.vRandom, id, info);
    TouchedTried(net, s.nKey, s.mapInfo, s.vvTried, id, info);
    TriedKeepsAddr(s.mapInfo, info, s.mapAddr, id);
    FewerIds(s.mapInfo, m, s.nIdCount);
    SameStatus(s.mapInfo, id, info);
  }

  lemma SameStatus(m: map<int, AddrInfo>, id: int, info: AddrInfo)
    requires id in m && info.fInTried == m[id].fInTried
    ensures TriedIds(m[id := info]) == TriedIds(m) && NewIds(m[id := info]) == NewIds(m)
  {
  }

  // ----- Add_ -----------------------------------------------------------------

  lemma InsertKeepsNew(m: map<int, AddrInfo>, vv: seq<set<int>>, b: nat, id: int)
    requires NewOk(m, vv, id) && b < |vv| && id in m && id !in vv[b] && |vv[b]| < NEW_BUCKET_SIZE
    requires NOBODY !in m
    ensures NewOk(m, vv[b := vv[b] + {id}], NOBODY)
  {
    forall x { OccurrencesUpdate(vv, b, vv[b] + {id}, x); }
  }

  /** What may leave the address book, and what must not. */
  ghost predicate LosesAtMostOne(s: State, t: State, kept: NetAddr) {
    && |s.mapAddr.Keys - t.mapAddr.Keys| <= 1
    && (forall n <- s.mapAddr :: n !in t.mapAddr ==>
          n != kept && s.mapAddr[n] in s.mapInfo && !s.mapInfo[s.mapAddr[n]].fInTried)
    && (forall n <- t.mapAddr :: n == kept || (n in s.mapAddr && t.mapAddr[n] == s.mapAddr[n]))
  }

  /** `t` knows what `a` does, except for the one address that was lost, if any. */
  ghost predicate Keeps(s: State, a: map<NetAddr, int>, t: State, lost: Option<NetAddr>) {
    match lost
    case None => t.mapAddr == a
    case Some(n) =>
      && n in s.mapAddr && s.mapAddr[n] in s.mapInfo && !s.mapInfo[s.mapAddr[n]].fInTried
      && t.mapAddr == a - {n}
  }

  /** Filing a record whose count already includes the new reference to come. */
  lemma FiledKeeps(net: Network, s: State, id: int, b: nat, now: int, rnd: Draws, k: nat)
    returns (lost: Option<NetAddr>)
    requires id in s.mapInfo && b < |s.vvNew| && id !in s.vvNew[b]
    requires Coherent(net, s.(mapInfo := Bumped(s.mapInfo, id)), id)
    ensures RandomOk(s.mapInfo, s.vRandom) && s.vvNew[b] <= s.mapInfo.Keys && NOBODY !in s.mapInfo
    ensures var t := Filed(net, s, id, b, now, rnd, k);
      && Consistent(net, t)
      && id in t.vvNew[b]
      && TriedIds(t.mapInfo) == TriedIds(s.mapInfo)
      && t.vvTried == s.vvTried && t.nIdCount == s.nIdCount
      && Keeps(s, s.mapAddr, t, lost) && (lost.Some? ==> s.mapAddr[lost.value] != id)
  {
    hide Released, Victim, Leaves, Occurrences, BucketOk;
    var m := Bumped(s.mapInfo, id);
    var t := s.(mapInfo := m);
    TouchedRandom(m, s.vRandom, id, s.mapInfo[id]);
    assert m[id := s.mapInfo[id]] == s.mapInfo;
    assert m.Keys == s.mapInfo.Keys;
    assert TriedIds(m) == TriedIds(s.mapInfo);
    lost := None;
    if |s.vvNew[b]| == NEW_BUCKET_SIZE {
      VictimMember(m, s.vvNew[b], now, rnd, k);
      var v := Victim(m, s.vvNew[b], now, rnd, k);
      assert v in s.mapInfo && s.mapInfo[v] == m[v];
      ReleaseKeeps(net, t, b, v, id);
      OccurrencesPositive(s.vvNew, v, b);
      if m[v].nRefCount == 1 { lost := Some(m[v].Net()); }
      var u := Released(t, b, v);
      InsertKeepsNew(u.mapInfo, u.vvNew, b, id);
    } else {
      InsertKeepsNew(m, s.vvNew, b, id);
    }
  }

  lemma ReleasedRecords(s: State, b: nat, id: int)
    requires RandomOk(s.mapInfo, s.vRandom) && b < |s.vvNew| && id in s.mapInfo
    ensures SameRecords(s.mapInfo, Released(s, b, id).mapInfo)
  {
    var m := s.mapInfo;
    var info := m[id].(nRefCount := m[id].nRefCount - 1);
    TouchedRandom(m, s.vRandom, id, info);
    if info.nRefCount == 0 {
      ForgetKeeps(s.(mapInfo := m[id := info]), id);
    }
  }

  lemma FiledRecords(net: Network, s: State, id: int, b: nat, now: int, rnd: Draws, k: nat)
    requires RandomOk(s.mapInfo, s.vRandom) && id in s.mapInfo && b < |s.vvNew|
    requires s.vvNew[b] <= s.mapInfo.Keys && NOBODY !in s.mapInfo
    ensures SameRecords(s.mapInfo, Filed(net, s, id, b, now, rnd, k).mapInfo)
  {
    var t := s.(mapInfo := Bumped(s.mapInfo, id));
    TouchedRandom(s.mapInfo, s.vRandom, id, t.mapInfo[id]);
    if id !in s.vvNew[b] && |s.vvNew[b]| == NEW_BUCKET_SIZE {
      VictimMember(t.mapInfo, s.vvNew[b], now, rnd, k);
      ReleasedRecords(t, b, Victim(t.mapInfo, s.vvNew[b], now, rnd, k));
    }
  }

  lemma BumpKeeps(net: Network, s: State, id: int)
    requires Consistent(net, s) && id in s.mapInfo
    requires !s.mapInfo[id].fInTried && s.mapInfo[id].nRefCount < NEW_BUCKETS_PER_ADDRESS
    ensures Coherent(net, s.(mapInfo := Bumped(s.mapInfo, id)), id)
  {
    CountKeepsRest(net, s, id, Bumped(s.mapInfo, id)[id]);
  }

  /** A record with a fresh id, one counted reference and the last position. */
  lemma NewcomerKeeps(net: Network, s: State, info: AddrInfo)
    requires Consistent(net, s) && info.Net() !in s.mapAddr
    requires info.nRefCount == 1 && !info.fInTried && info.nRandomPos == |s.vRandom|
    ensures var id := s.nIdCount;
      && Coherent(net, s.(nIdCount := id + 1, mapInfo := s.mapInfo[id := info], mapAddr := s.mapAddr[info.Net() := id],
                          vRandom := s.vRandom + [id], nNew := s.nNew + 1), id)
      && TriedIds(s.mapInfo[id := info]) == TriedIds(s.mapInfo)
  {
    assert s.nIdCount !in s.mapInfo;
    hide RandomOk, AddrOk, TriedOk, NewOk;
    NewcomerKeepsTables(net, s, info);
    NewcomerRandom(s, info);
    NewcomerAddr(s.mapInfo, s.mapAddr, s.nIdCount, info);
    NewcomerCounts(s.mapInfo, s.nIdCount, info);
  }

  lemma NewcomerAddr(m: map<int, AddrInfo>, a: map<NetAddr, int>, id: int, info: AddrInfo)
    requires AddrOk(m, a) && info.Net() !in a && id !in m
    ensures AddrOk(m[id := info], a[info.Net() := id])
  {
    var a' := a[info.Net() := id];
    forall n | n in a' ensures KnownAs(m[id := info], a'[n], n) {
      if n != info.Net() { assert KnownAs(m, a[n], n); }
    }
  }

  lemma NewcomerCounts(m: map<int, AddrInfo>, id: int, info: AddrInfo)
    requires id !in m && !info.fInTried
    ensures TriedIds(m[id := info]) == TriedIds(m) && |NewIds(m[id := info])| == |NewIds(m)| + 1
  {
    StatusUpdate(m, id, info);
    assert TriedIds(m) - {id} == TriedIds(m);
    hide TriedIds, NewIds;
    OneMore(NewIds(m), id);
  }

  lemma NewcomerKeepsTables(net: Network, s: State, info: AddrInfo)
    requires Consistent(net, s) && info.nRefCount == 1 && !info.fInTried
    ensures var m := s.mapInfo[s.nIdCount := info];
      TriedOk(net, s.nKey, m, s.vvTried) && NewOk(m, s.vvNew, s.nIdCount)
  {
    var m := s.mapInfo[s.nIdCount := info];
    assert s.nIdCount !in s.mapInfo;
    OccurrencesNone(s.vvNew, s.nIdCount);
    forall b | 0 <= b < |s.vvTried| ensures BucketOk(net, s.nKey, m, b, s.vvTried[b]) {
      assert BucketOk(net, s.nKey, s.mapInfo, b, s.vvTried[b]);
    }
  }

  lemma DiscoveryKeeps(net: Network, s: State, addr: Address, source: NetAddr, penalty: int)
    requires Consistent(net, s) && addr.svc.net !in s.mapAddr
    ensures var t := Discovered(s, addr, source, penalty);
      && Coherent(net, t.(mapInfo := Bumped(t.mapInfo, s.nIdCount)), s.nIdCount)
      && TriedIds(t.mapInfo) == TriedIds(s.mapInfo)
  {
    hide Coherent, TriedIds;
    var t := Discovered(s, addr, source, penalty);
    var id := s.nIdCount;
    var m := Bumped(t.mapInfo, id);
    FreshId(net, s);
    NewcomerKeeps(net, s, m[id]);
    assert m == s.mapInfo[id := m[id]];
    NewcomerTried(s.mapInfo, id, t.mapInfo[id]);
    assert t.mapInfo == s.mapInfo[id := t.mapInfo[id]];
  }

  lemma FreshId(net: Network, s: State)
    requires Consistent(net, s)
    ensures s.nIdCount !in s.mapInfo
  {
  }

  lemma NewcomerTried(m: map<int, AddrInfo>, id: int, info: AddrInfo)
    requires id !in m && !info.fInTried
    ensures TriedIds(m[id := info]) == TriedIds(m)
  {
    StatusUpdate(m, id, info);
    assert TriedIds(m) - {id} == TriedIds(m);
  }

  lemma LosingOne(s: State, a: map<NetAddr, int>, t: State, lost: Option<NetAddr>, kept: NetAddr)
    requires Keeps(s, a, t, lost) && lost != Some(kept) && kept in a
    requires a == s.mapAddr || a == s.mapAddr[kept := a[kept]]
    ensures LosesAtMostOne(s, t, kept) && kept in t.mapAddr
  {
    var gone := s.mapAddr.Keys - t.mapAddr.Keys;
    var bound := if lost.Some? then {lost.value} else {};
    assert gone <= bound;
    SubsetSize(gone, bound);
  }

  /** What `AddKeeps` claims of the outcome, whichever way it came about. */
  ghost predicate AddOutcome(net: Network, s: State, t: State, n: NetAddr) {
    && Consistent(net, t) && LosesAtMostOne(s, t, n) && n in t.mapAddr
    && TriedIds(t.mapInfo) == TriedIds(s.mapInfo) && t.vvTried == s.vvTried
  }

  lemma PromotionKeeps(net: Network, s: State, id: int, b: nat, now: int, rnd: Draws)
    requires Consistent(net, s) && id in s.mapInfo && b < NEW_BUCKET_COUNT
    requires !s.mapInfo[id].fInTried && s.mapInfo[id].nRefCount != NEW_BUCKETS_PER_ADDRESS
    ensures RandomOk(s.mapInfo, s.vRandom) && s.vvNew[b] <= s.mapInfo.Keys && NOBODY !in s.mapInfo
    ensures AddOutcome(net, s, Filed(net, s, id, b, now, rnd, 1), s.mapInfo[id].Net())
  {
    var n := s.mapInfo[id].Net();
    assert n in s.mapAddr && s.mapAddr[n] == id;
    if id in s.vvNew[b] {
      LosingOne(s, s.mapAddr, s, None, n);
    } else {
      BumpKeeps(net, s, id);
      var lost := FiledKeeps(net, s, id, b, now, rnd, 1);
      LosingOne(s, s.mapAddr, Filed(net, s, id, b, now, rnd, 1), lost, n);
    }
  }

  lemma NoOutcome(net: Network, s: State, n: NetAddr)
    requires Consistent(net, s) && n in s.mapAddr
    ensures AddOutcome(net, s, s, n)
  {
    LosingOne(s, s.mapAddr, s, None, n);
  }

  lemma OutcomeFrom(net: Network, s: State, u: State, t: State, n: NetAddr)
    requires AddOutcome(net, u, t, n) && Alike(s.mapInfo, u.mapInfo)
    requires Consistent(net, s) && u.mapAddr == s.mapAddr && u.vvTried == s.vvTried
    ensures AddOutcome(net, s, t, n)
  {
    AlikeKeepsIds(s.mapInfo, u.mapInfo);
    forall x | x in s.mapAddr ensures s.mapAddr[x] in s.mapInfo && s.mapAddr[x] in u.mapInfo {
      assert KnownAs(s.mapInfo, s.mapAddr[x], x);
      assert s.mapAddr[x] in u.mapInfo.Keys;
    }
  }

  lemma AddKnownKeeps(net: Network, s: State, id: int, addr: Address, source: NetAddr, penalty: int, now: int,
                      rnd: Draws)
    requires Consistent(net, s) && net.routable(addr.svc.net) && Find(s, addr.svc.net) == Some(id)
    ensures AddOutcome(net, s, Add(net, s, addr, source, penalty, now, rnd).0, addr.svc.net)
  {
    FindExact(net, s, addr.svc.net);
    hide Coherent, Filed, AddOutcome, LosesAtMostOne;
    var info := Refreshed(s.mapInfo[id], addr, penalty, now);
    var u := s.(mapInfo := s.mapInfo[id := info]);
    TouchKeeps(net, s, id, info);
    var b := GetNewBucket(net, s.nKey, info.addr.svc, source);
    if Promoted(info, addr, rnd) {
      PromotionKeeps(net, u, id, b, now, rnd);
      OutcomeFrom(net, s, u, Filed(net, u, id, b, now, rnd, 1), addr.svc.net);
    } else {
      NoOutcome(net, u, addr.svc.net);
      OutcomeFrom(net, s, u, u, addr.svc.net);
    }
  }

  lemma DiscoveredFiled(net: Network, s: State, addr: Address, source: NetAddr, penalty: int, b: nat, now: int,
                        rnd: Draws)
    requires Consistent(net, s) && addr.svc.net !in s.mapAddr && b < |s.vvNew|
    ensures var u := Discovered(s, addr, source, penalty);
      && RandomOk(u.mapInfo, u.vRandom) && u.vvNew[b] <= u.mapInfo.Keys && NOBODY !in u.mapInfo
      && AddOutcome(net, s, Filed(net, u, s.nIdCount, b, now, rnd, 1), addr.svc.net)
  {
    var n, id := addr.svc.net, s.nIdCount;
    var u := Discovered(s, addr, source, penalty);
    assert id !in s.mapInfo && id !in s.vvNew[b];
    DiscoveryKeeps(net, s, addr, source, penalty);
    DiscoveryShape(s, addr, source, penalty);
    var lost := FiledKeeps(net, u, id, b, now, rnd, 1);
    var t := Filed(net, u, id, b, now, rnd, 1);
    KeepsFrom(s, u, t, lost, id, n);
    LosingOne(s, u.mapAddr, t, lost, n);
  }

  lemma KeepsFrom(s: State, u: State, t: State, lost: Option<NetAddr>, id: int, n: NetAddr)
    requires Keeps(u, u.mapAddr, t, lost) && (lost.Some? ==> u.mapAddr[lost.value] != id)
    requires u.mapInfo.Keys == s.mapInfo.Keys + {id} && u.mapAddr == s.mapAddr[n := id]
    requires forall x <- s.mapInfo :: u.mapInfo[x] == s.mapInfo[x]
    ensures Keeps(s, u.mapAddr, t, lost) && lost != Some(n)
  {
    if lost.Some? {
      assert u.mapAddr[lost.value] in u.mapInfo.Keys;
      assert s.mapAddr[lost.value] in s.mapInfo.Keys;
    }
  }

  lemma DiscoveryShape(s: State, addr: Address, source: NetAddr, penalty: int)
    requires s.nIdCount !in s.mapInfo
    ensures var u := Discovered(s, addr, source, penalty);
      && u.mapInfo.Keys == s.mapInfo.Keys + {s.nIdCount} && u.mapAddr == s.mapAddr[addr.svc.net := s.nIdCount]
      && (forall x <- s.mapInfo :: u.mapInfo[x] == s.mapInfo[x])
      && u.vvNew == s.vvNew && u.vvTried == s.vvTried
  {
  }

  lemma AddUnknownKeeps(net: Network, s: State, addr: Address, source: NetAddr, penalty: int, now: int, rnd: Draws)
    requires Consistent(net, s) && net.routable(addr.svc.net) && addr.svc.net !in s.mapAddr
    ensures AddOutcome(net, s, Add(net, s, addr, source, penalty, now, rnd).0, addr.svc.net)
  {
    DiscoveredFiled(net, s, addr, source, penalty, GetNewBucket(net, s.nKey, addr.svc, source), now, rnd);
  }

  /** Adding keeps every index consistent, makes a routable address known, and
      forgets at most one other address, which was not a tried one. */
  lemma AddKeeps(net: Network, s: State, addr: Address, source: NetAddr, penalty: int, now: int, rnd: Draws)
    requires Consistent(net, s)
    ensures var (t, isNew) := Add(net, s, addr, source, penalty, now, rnd);
      && Consistent(net, t)
      && LosesAtMostOne(s, t, addr.svc.net)
      && (net.routable(addr.svc.net) ==> addr.svc.net in t.mapAddr)
      && TriedIds(t.mapInfo) == TriedIds(s.mapInfo) && t.vvTried == s.vvTried
      && (isNew <==> net.routable(addr.svc.net) && addr.svc.net !in s.mapAddr)
  {
    FindExact(net, s, addr.svc.net);
    if net.routable(addr.svc.net) {
      match Find(s, addr.svc.net)
      case Some(id) => AddKnownKeeps(net, s, id, addr, source, penalty, now, rnd);
      case None => AddUnknownKeeps(net, s, addr, source, penalty, now, rnd);
    }
  }

  lemma FindExact(net: Network, s: State, n: NetAddr)
    requires Consistent(net, s)
    ensures Find(s, n) == if n in s.mapAddr then Some(s.mapAddr[n]) else None
    ensures n in s.mapAddr ==> s.mapInfo[s.mapAddr[n]].Net() == n
  {
    if n in s.mapAddr { assert KnownAs(s.mapInfo, s.mapAddr[n], n); }
  }

  // ----- SelectTried -----------------------------------------------------------

  /** What is known after `i` rounds: the oldest inspected entry sits at the
      index of the round that met it, and the position reported for it is the
      one it was drawn from. */
  ghost predicate Inspected(m: map<int, AddrInfo>, r: Inspection, rnd: Draws, k: nat, i: nat) {
    && i <= |r.bucket| && NoDup(r.bucket) && -1 !in r.bucket
    && (i == 0 ==> r.oldest == -1)
    && (i > 0 ==>
          && 0 <= r.round < i && r.bucket[r.round] == r.oldest
          && r.pos == r.round + RandInt(rnd, k + r.round, |r.bucket| - r.round)
          && (forall j | 0 <= j < i :: LastSuccess(m, r.oldest) <= LastSuccess(m, r.bucket[j]))
          && (forall j | 0 <= j < r.round :: LastSuccess(m, r.oldest) < LastSuccess(m, r.bucket[j])))
  }

  lemma InspectRoundMeaning(m: map<int, AddrInfo>, p: Inspection, rnd: Draws, k: nat, i: nat)
    requires Inspected(m, p, rnd, k, i) && i < |p.bucket|
    ensures Inspected(m, InspectRound(m, p, i, RandInt(rnd, k + i, |p.bucket| - i) + i), rnd, k, i + 1)
  {
    var at := RandInt(rnd, k + i, |p.bucket| - i) + i;
    var r := InspectRound(m, p, i, at);
    assert NoDup(r.bucket);
    assert forall j | 0 <= j < i :: r.bucket[j] == p.bucket[j];
    assert r.bucket[i] == p.bucket[at];
    assert i > 0 ==> p.bucket[p.round] in p.bucket;
  }

  /** The shuffle permutes the bucket and finds the least recently successful of
      the inspected entries. */
  lemma {:induction false} InspectMeaning(m: map<int, AddrInfo>, bucket: seq<int>, rnd: Draws, k: nat, i: nat)
    requires i <= |bucket| && NoDup(bucket) && -1 !in bucket
    ensures Inspected(m, Inspect(m, bucket, rnd, k, i), rnd, k, i)
  {
    hide *;
    if i == 0 {
      InspectNone(m, bucket, rnd, k);
    } else {
      InspectMeaning(m, bucket, rnd, k, i - 1);
      InspectUnfold(m, bucket, rnd, k, i);
      InspectRoundMeaning(m, Inspect(m, bucket, rnd, k, i - 1), rnd, k, i - 1);
    }
  }

  lemma InspectNone(m: map<int, AddrInfo>, bucket: seq<int>, rnd: Draws, k: nat)
    requires NoDup(bucket) && -1 !in bucket
    ensures Inspected(m, Inspect(m, bucket, rnd, k, 0), rnd, k, 0)
  {
  }

  lemma InspectNothing(m: map<int, AddrInfo>, bucket: seq<int>, rnd: Draws, k: nat)
    ensures Inspect(m, bucket, rnd, k, 0) == Inspection(bucket, -1, -1, -1)
  {
  }

  lemma InspectUnfold(m: map<int, AddrInfo>, bucket: seq<int>, rnd: Draws, k: nat, i: nat)
    requires 0 < i <= |bucket|
    ensures var p := Inspect(m, bucket, rnd, k, i - 1);
      && |p.bucket| == |bucket|
      && Inspect(m, bucket, rnd, k, i)
         == InspectRound(m, p, i - 1, RandInt(rnd, k + i - 1, |p.bucket| - (i - 1)) + (i - 1))
  {
  }

  /** Inspection looks at nothing but the times of the last successes. */
  lemma {:induction false} SameInspect(m: map<int, AddrInfo>, m': map<int, AddrInfo>, bucket: seq<int>, rnd: Draws,
                                       k: nat, i: nat)
    requires i <= |bucket| && forall id :: LastSuccess(m', id) == LastSuccess(m, id)
    ensures Inspect(m', bucket, rnd, k, i) == Inspect(m, bucket, rnd, k, i)
  {
    if i > 0 { SameInspect(m, m', bucket, rnd, k, i - 1); }
  }

  lemma SameInspection(m: map<int, AddrInfo>, m': map<int, AddrInfo>, bucket: seq<int>, rnd: Draws, k: nat)
    requires forall id :: LastSuccess(m', id) == LastSuccess(m, id)
    ensures InspectFully(m', bucket, rnd, k) == InspectFully(m, bucket, rnd, k)
  {
    SameInspect(m, m', bucket, rnd, k,
                if |bucket| < TRIED_ENTRIES_INSPECT_ON_EVICT then |bucket| else TRIED_ENTRIES_INSPECT_ON_EVICT);
  }

  // ----- MakeTried, Good_ --------------------------------------------------------

  lemma ErasedKeepsNew(m: map<int, AddrInfo>, info: AddrInfo, vv: seq<set<int>>, id: int)
    requires NewOk(m, vv, NOBODY) && id in m && NOBODY !in m
    requires info == m[id].(nRefCount := 0, fInTried := true)
    ensures NewOk(m[id := info], Erased(vv, id), NOBODY)
  {
    forall x { OccurrencesErased(vv, id, x); }
    var ww := Erased(vv, id);
    forall b | 0 <= b < |ww| ensures |ww[b]| <= NEW_BUCKET_SIZE && ww[b] <= m.Keys {
      SubsetSize(ww[b], vv[b]);
    }
  }

  lemma TriedKeepsAddr(m: map<int, AddrInfo>, info: AddrInfo, a: map<NetAddr, int>, id: int)
    requires id in m && AddrOk(m, a) && info.Net() == m[id].Net()
    ensures AddrOk(m[id := info], a)
  {
    forall n | n in a ensures KnownAs(m[id := info], a[n], n) {
      assert KnownAs(m, a[n], n);
    }
  }

  lemma PushKeepsTried(net: Network, key: seq<byte>, m: map<int, AddrInfo>, vv: seq<seq<int>>, id: int, info: AddrInfo)
    requires TriedOk(net, key, m, vv) && id in m && !m[id].fInTried
    requires info.fInTried && info.addr.svc == m[id].addr.svc
    requires |vv[GetTriedBucket(net, key, info.addr.svc)]| < TRIED_BUCKET_SIZE
    ensures var kb := GetTriedBucket(net, key, info.addr.svc);
      TriedOk(net, key, m[id := info], vv[kb := vv[kb] + [id]])
  {
    var kb := GetTriedBucket(net, key, info.addr.svc);
    var ww := vv[kb := vv[kb] + [id]];
    forall b | 0 <= b < |ww| ensures BucketOk(net, key, m[id := info], b, ww[b]) {
      assert BucketOk(net, key, m, b, vv[b]);
    }
    assert ww[kb][|vv[kb]|] == id;
  }

  /** The incoming record takes the slot of the evicted one. */
  lemma EvictKeepsTried(net: Network, key: seq<byte>, m: map<int, AddrInfo>, info: AddrInfo, infoOld: AddrInfo,
                        vv: seq<seq<int>>, id: int, bucket: seq<int>, pos: nat)
    requires TriedOk(net, key, m, vv) && id in m && !m[id].fInTried && pos < |bucket|
    requires var kb := GetTriedBucket(net, key, m[id].addr.svc);
      NoDup(bucket) && Elements(bucket) == Elements(vv[kb]) && |bucket| == |vv[kb]|
    requires info.fInTried && info.addr.svc == m[id].addr.svc && !infoOld.fInTried
    ensures var kb := GetTriedBucket(net, key, m[id].addr.svc);
      TriedOk(net, key, m[id := info][bucket[pos] := infoOld], vv[kb := bucket[pos := id]])
  {
    var m' := m[id := info][bucket[pos] := infoOld];
    var kb := GetTriedBucket(net, key, m[id].addr.svc);
    var out := bucket[pos];
    var swapped := bucket[pos := id];
    var ww := vv[kb := swapped];
    assert BucketOk(net, key, m, kb, vv[kb]);
    forall x ensures x in bucket <==> x in vv[kb] {
      assert x in Elements(bucket) <==> x in Elements(vv[kb]);
    }
    forall x ensures x in swapped <==> x == id || (x in bucket && x != out) {
      if x in bucket && x != out {
        var j :| 0 <= j < |bucket| && bucket[j] == x;
        assert swapped[j] == x;
      }
      assert swapped[pos] == id;
    }
    assert NoDup(swapped);
    forall b | 0 <= b < |ww| ensures BucketOk(net, key, m', b, ww[b]) {
      assert BucketOk(net, key, m, b, vv[b]);
      if b != kb { assert out !in vv[b] && id !in vv[b]; }
    }
  }

  /** The evicted record returns to one new bucket, which has room for it. */
  lemma EvictHasRoom(vv: seq<set<int>>, id: int, ub: nat, origin: nat)
    requires ub < |vv| && origin < |vv| && id in vv[origin] && |vv[origin]| <= NEW_BUCKET_SIZE
    ensures var ww := Erased(vv, id);
      |ww[if |ww[ub]| < NEW_BUCKET_SIZE then ub else origin]| < NEW_BUCKET_SIZE
  {
    OneLess(vv[origin], id);
  }

  lemma ReturnKeepsNew(m: map<int, AddrInfo>, info: AddrInfo, vv: seq<set<int>>, dest: nat, out: int)
    requires NewOk(m, vv, NOBODY) && out in m && m[out].nRefCount == 0 && NOBODY !in m
    requires !info.fInTried && info.nRefCount == 1 && dest < |vv| && |vv[dest]| < NEW_BUCKET_SIZE
    ensures NewOk(m[out := info], vv[dest := vv[dest] + {out}], NOBODY)
  {
    if out in vv[dest] { OccurrencesPositive(vv, out, dest); }
    OneMore(vv[dest], out);
    forall x { OccurrencesUpdate(vv, dest, vv[dest] + {out}, x); }
  }

  lemma EvictKeepsNew(m: map<int, AddrInfo>, info: AddrInfo, infoOld: AddrInfo, vv: seq<set<int>>,
                      id: int, out: int, ub: nat, origin: nat)
    requires NewOk(m, vv, NOBODY) && NOBODY !in m && id in m && out in m && out != id && m[out].fInTried
    requires info == m[id].(nRefCount := 0, fInTried := true) && !infoOld.fInTried && infoOld.nRefCount == 1
    requires ub < |vv| && origin < |vv| && id in vv[origin]
    ensures var ww := Erased(vv, id);
      var dest := if |ww[ub]| < NEW_BUCKET_SIZE then ub else origin;
      NewOk(m[id := info][out := infoOld], ww[dest := ww[dest] + {out}], NOBODY)
  {
    var ww := Erased(vv, id);
    ErasedKeepsNew(m, info, vv, id);
    EvictHasRoom(vv, id, ub, origin);
    ReturnKeepsNew(m[id := info], infoOld, ww, if |ww[ub]| < NEW_BUCKET_SIZE then ub else origin, out);
  }

  lemma EvictKeepsCounts(m: map<int, AddrInfo>, info: AddrInfo, infoOld: AddrInfo, id: int, out: int)
    requires id in m && out in m && id != out && !m[id].fInTried && m[out].fInTried
    requires info.fInTried && !infoOld.fInTried
    ensures var m' := m[id := info][out := infoOld];
      |TriedIds(m')| == |TriedIds(m)| && |NewIds(m')| == |NewIds(m)|
  {
    StatusUpdate(m, id, info);
    StatusUpdate(m[id := info], out, infoOld);
    OneMore(TriedIds(m), id);
    OneLess(TriedIds(m) + {id}, out);
    OneLess(NewIds(m), id);
    OneMore(NewIds(m) - {id}, out);
  }

  /** What `MadeTried` promises: the record is tried, nothing else is lost. */
  ghost predicate Promotion(net: Network, s: State, t: State, id: int) {
    && Consistent(net, t) && t.mapInfo.Keys == s.mapInfo.Keys && t.mapAddr == s.mapAddr
    && id in t.mapInfo && t.mapInfo[id].fInTried
  }

  ghost predicate SameBook(s: State, t: State) {
    t.nKey == s.nKey && t.nIdCount == s.nIdCount && t.mapAddr == s.mapAddr && t.vRandom == s.vRandom
  }

  /** Promotion where the tried bucket has room. */
  lemma PushShape(net: Network, s: State, id: int, origin: nat, rnd: Draws, k: nat)
    requires id in s.mapInfo && !s.mapInfo[id].fInTried && origin < 256 == |s.vvNew|
    requires TriedOk(net, s.nKey, s.mapInfo, s.vvTried)
    requires |s.vvTried[GetTriedBucket(net, s.nKey, s.mapInfo[id].addr.svc)]| < 64
    ensures var t, kb := MadeTried(net, s, id, origin, rnd, k), GetTriedBucket(net, s.nKey, s.mapInfo[id].addr.svc);
      && SameBook(s, t) && t.nNew == s.nNew - 1 && t.nTried == s.nTried + 1 && t.vvNew == Erased(s.vvNew, id)
      && t.mapInfo == s.mapInfo[id := s.mapInfo[id].(nRefCount := 0, fInTried := true)]
      && t.vvTried == s.vvTried[kb := s.vvTried[kb] + [id]]
  {
  }

  lemma UprootedShape(s: State, id: int)
    requires id in s.mapInfo
    ensures var u := Uprooted(s, id);
      && u.mapInfo.Keys == s.mapInfo.Keys && u.mapInfo[id].addr == s.mapInfo[id].addr && |u.vvNew| == |s.vvNew|
      && u.vvTried == s.vvTried && u.nTried == s.nTried && u.nKey == s.nKey
  {
  }

  /** The slot is all that the eviction takes over of the bucket it is given. */
  lemma EvictedShuffled(net: Network, s: State, id: int, origin: nat, kb: nat, bucket: seq<int>, pos: nat)
    requires id in s.mapInfo && origin < NEW_BUCKET_COUNT == |s.vvNew|
    requires kb < |s.vvTried| && pos < |bucket| && bucket[pos] in s.mapInfo && bucket[pos] != id
    ensures Evicted(net, s.(vvTried := s.vvTried[kb := bucket]), id, origin, kb, bucket, pos)
         == Evicted(net, s, id, origin, kb, bucket, pos)
  {
  }

  /** Uprooting a record does not disturb the choice of the one to evict. */
  lemma EvictReady(net: Network, s: State, id: int, kb: nat, rnd: Draws, k: nat)
    requires id in s.mapInfo && !s.mapInfo[id].fInTried && kb < |s.vvTried| && s.vvTried[kb] != []
    requires TriedOk(net, s.nKey, s.mapInfo, s.vvTried)
    ensures var m := Uprooted(s, id).mapInfo;
      && (forall x <- s.vvTried[kb] :: x in m)
      && InspectFully(m, s.vvTried[kb], rnd, k) == InspectFully(s.mapInfo, s.vvTried[kb], rnd, k)
    ensures var seen := InspectFully(s.mapInfo, s.vvTried[kb], rnd, k);
      && 0 <= seen.pos < |seen.bucket| && seen.bucket[seen.pos] in Uprooted(s, id).mapInfo
      && seen.bucket[seen.pos] != id
  {
    assert BucketOk(net, s.nKey, s.mapInfo, kb, s.vvTried[kb]);
    SameInspection(s.mapInfo, Uprooted(s, id).mapInfo, s.vvTried[kb], rnd, k);
    InspectedMember(net, s, kb, InspectFully(s.mapInfo, s.vvTried[kb], rnd, k));
  }

  /** Promotion where another tried record gives way. */
  lemma EvictShape(net: Network, s: State, id: int, origin: nat, rnd: Draws, k: nat)
    returns (seen: Inspection, out: int)
    requires id in s.mapInfo && !s.mapInfo[id].fInTried && origin < 256 == |s.vvNew|
    requires TriedOk(net, s.nKey, s.mapInfo, s.vvTried)
    requires |s.vvTried[GetTriedBucket(net, s.nKey, s.mapInfo[id].addr.svc)]| >= 64
    ensures var kb := GetTriedBucket(net, s.nKey, s.mapInfo[id].addr.svc);
      && seen == InspectFully(s.mapInfo, s.vvTried[kb], rnd, k)
      && 0 <= seen.pos < |seen.bucket| && out == seen.bucket[seen.pos]
      && out in s.mapInfo && s.mapInfo[out].fInTried && out != id
    ensures var t, kb := MadeTried(net, s, id, origin, rnd, k), GetTriedBucket(net, s.nKey, s.mapInfo[id].addr.svc);
      && SameBook(s, t) && t.nNew == s.nNew && t.nTried == s.nTried
      && t.mapInfo == s.mapInfo[id := s.mapInfo[id].(nRefCount := 0, fInTried := true)]
                               [out := s.mapInfo[out].(nRefCount := 1, fInTried := false)]
      && t.vvTried == s.vvTried[kb := seen.bucket[seen.pos := id]]
    ensures var t, ww := MadeTried(net, s, id, origin, rnd, k), Erased(s.vvNew, id);
      var ub := GetNewBucket(net, s.nKey, s.mapInfo[out].addr.svc, s.mapInfo[out].source);
      var dest := if |ww[ub]| < 64 then ub else origin;
      t.vvNew == ww[dest := ww[dest] + {out}]
  {
    var kb := GetTriedBucket(net, s.nKey, s.mapInfo[id].addr.svc);
    seen := InspectFully(s.mapInfo, s.vvTried[kb], rnd, k);
    out := seen.bucket[seen.pos];
    InspectedMember(net, s, kb, seen);
    hide BucketOk, TriedOk, InspectFully;
  }

  lemma PushPromotes(net: Network, s: State, id: int, origin: nat, rnd: Draws, k: nat)
    requires Consistent(net, s) && id in s.mapInfo && !s.mapInfo[id].fInTried
    requires origin < |s.vvNew| && id in s.vvNew[origin]
    requires |s.vvTried[GetTriedBucket(net, s.nKey, s.mapInfo[id].addr.svc)]| < TRIED_BUCKET_SIZE
    ensures Promotion(net, s, MadeTried(net, s, id, origin, rnd, k), id)
  {
    hide MadeTried, RandomOk, TriedOk, NewOk, AddrOk, TriedIds, NewIds;
    var info := s.mapInfo[id].(nRefCount := 0, fInTried := true);
    NewBuckets(s.mapInfo, s.vvNew, NOBODY);
    PushShape(net, s, id, origin, rnd, k);
    TouchedRandom(s.mapInfo, s.vRandom, id, info);
    TriedKeepsAddr(s.mapInfo, info, s.mapAddr, id);
    PushKeepsTried(net, s.nKey, s.mapInfo, s.vvTried, id, info);
    ErasedKeepsNew(s.mapInfo, info, s.vvNew, id);
    PushKeepsCounts(s.mapInfo, info, id);
  }

  lemma NewBuckets(m: map<int, AddrInfo>, vv: seq<set<int>>, pending: int)
    requires NewOk(m, vv, pending)
    ensures |vv| == NEW_BUCKET_COUNT
  {
  }

  lemma PushKeepsCounts(m: map<int, AddrInfo>, info: AddrInfo, id: int)
    requires id in m && !m[id].fInTried && info.fInTried
    ensures |TriedIds(m[id := info])| == |TriedIds(m)| + 1 && |NewIds(m[id := info])| == |NewIds(m)| - 1
  {
    StatusUpdate(m, id, info);
    OneMore(TriedIds(m), id);
    OneLess(NewIds(m), id);
  }

  lemma EvictPromotes(net: Network, s: State, id: int, origin: nat, rnd: Draws, k: nat)
    requires Consistent(net, s) && id in s.mapInfo && !s.mapInfo[id].fInTried
    requires origin < |s.vvNew| && id in s.vvNew[origin]
    requires |s.vvTried[GetTriedBucket(net, s.nKey, s.mapInfo[id].addr.svc)]| >= TRIED_BUCKET_SIZE
    ensures Promotion(net, s, MadeTried(net, s, id, origin, rnd, k), id)
  {
    hide MadeTried, InspectFully, BucketOk, NoDup, RandomOk, AddrOk, TriedOk, NewOk, TriedIds, NewIds;
    Parts(net, s, NOBODY);
    var m := s.mapInfo;
    var info := m[id].(nRefCount := 0, fInTried := true);
    var kb := GetTriedBucket(net, s.nKey, m[id].addr.svc);
    var seen, out := EvictShape(net, s, id, origin, rnd, k);
    SeenBucket(net, s, kb, rnd, k);
    var m1 := m[id := info];
    var infoOld := m[out].(nRefCount := 1, fInTried := false);
    TouchedRandom(m, s.vRandom, id, info);
    TouchedRandom(m1, s.vRandom, out, infoOld);
    TriedKeepsAddr(m, info, s.mapAddr, id);
    TriedKeepsAddr(m1, infoOld, s.mapAddr, out);
    EvictKeepsTried(net, s.nKey, m, info, infoOld, s.vvTried, id, seen.bucket, seen.pos);
    var ub := GetNewBucket(net, s.nKey, m[out].addr.svc, m[out].source);
    EvictKeepsNew(m, info, infoOld, s.vvNew, id, out, ub, origin);
    EvictKeepsCounts(m, info, infoOld, id, out);
  }

  /** A full bucket as the inspection leaves it. */
  lemma SeenBucket(net: Network, s: State, kb: nat, rnd: Draws, k: nat)
    requires TriedOk(net, s.nKey, s.mapInfo, s.vvTried) && NOBODY !in s.mapInfo && kb < |s.vvTried|
    requires |s.vvTried[kb]| >= TRIED_ENTRIES_INSPECT_ON_EVICT
    ensures NoDup(InspectFully(s.mapInfo, s.vvTried[kb], rnd, k).bucket)
  {
    assert BucketOk(net, s.nKey, s.mapInfo, kb, s.vvTried[kb]);
    InspectMeaning(s.mapInfo, s.vvTried[kb], rnd, k, TRIED_ENTRIES_INSPECT_ON_EVICT);
    hide Inspect;
  }

  /** The fallback bucket always has room, and an eviction loses nobody. */
  lemma MadeTriedPromotes(net: Network, s: State, id: int, origin: nat, rnd: Draws, k: nat)
    requires Consistent(net, s) && id in s.mapInfo && !s.mapInfo[id].fInTried
    requires origin < |s.vvNew| && id in s.vvNew[origin]
    ensures Promotion(net, s, MadeTried(net, s, id, origin, rnd, k), id)
  {
    if |s.vvTried[GetTriedBucket(net, s.nKey, s.mapInfo[id].addr.svc)]| < TRIED_BUCKET_SIZE {
      PushPromotes(net, s, id, origin, rnd, k);
    } else {
      EvictPromotes(net, s, id, origin, rnd, k);
    }
  }
}

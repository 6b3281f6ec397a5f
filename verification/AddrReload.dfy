/** Reading the address manager back: the indexes the disk form drops are
    rebuilt, with new ids, around the same addresses. */
module AddrReload {
  import opened Common
  import opened AddrTypes
  import opened AddrState
  import opened AddrInvariant
  import opened AddrTheorems
  import opened AddrManager
  import opened AddrDisk
  import opened AddrCheck

  /** What is left of a record, under its new id: everything but the time of the
      last try and the old position. */
  function Kept(info: AddrInfo, i: int): AddrInfo {
    info.(addr := info.addr.(nLastTry := 0), nRandomPos := i)
  }

  /** The new ids of the members of a set of old ones. */
  function Image(order: seq<int>, ids: set<int>): set<int> {
    set i | 0 <= i < |order| && order[i] in ids
  }

  /** New id `i` has the record of `order[i]`, with `count` references. */
  ghost predicate Carries(s: State, order: seq<int>, m: map<int, AddrInfo>, i: int, count: int) {
    && 0 <= i < |order| && order[i] in s.mapInfo && i in m
    && m[i] == Kept(s.mapInfo[order[i]], i).(nRefCount := count)
  }

  ghost predicate CarriesAll(s: State, order: seq<int>, m: map<int, AddrInfo>, i: int) {
    0 <= i < |order| && order[i] in s.mapInfo && Carries(s, order, m, i, s.mapInfo[order[i]].nRefCount)
  }

  ghost predicate Stands(order: seq<int>, i: int, id: int) {
    0 <= i < |order| && order[i] == id
  }

  ghost predicate KeysBelow(m: map<int, AddrInfo>, n: nat) {
    forall i :: i in m <==> 0 <= i < n
  }

  /** A list of all ids, those of untried records first. */
  ghost predicate Enumerates(s: State, order: seq<int>) {
    && NoDup(order)
    && (forall id <- s.mapInfo :: id in order)
    && (forall i | 0 <= i < |order| :: ListedAt(s, order[i], i))
  }

  ghost predicate ListedAt(s: State, id: int, i: int) {
    id in s.mapInfo && (s.mapInfo[id].fInTried <==> i >= s.nNew)
  }

  /** `t` is `s` under the renaming that makes `order[i]` into `i`. */
  ghost predicate Renamed(s: State, t: State, order: seq<int>) {
    && t.nKey == s.nKey && t.nNew == s.nNew && t.nTried == s.nTried && t.nIdCount == |order|
    && t.vRandom == Upto(|order|)
    && KeysBelow(t.mapInfo, |order|)
    && (forall i | 0 <= i < |order| :: CarriesAll(s, order, t.mapInfo, i))
    && t.mapAddr.Keys == s.mapAddr.Keys
    && (forall n <- s.mapAddr :: Stands(order, t.mapAddr[n], s.mapAddr[n]))
    && |t.vvNew| == |s.vvNew| && |t.vvTried| == |s.vvTried|
    && (forall b | 0 <= b < |s.vvNew| :: t.vvNew[b] == Image(order, s.vvNew[b]))
    && (forall b | 0 <= b < |s.vvTried| ::
          NoDup(t.vvTried[b]) && Elements(t.vvTried[b]) == Image(order, Elements(s.vvTried[b])))
  }

  lemma OrderEnumerates(net: Network, s: State)
    requires Consistent(net, s)
    ensures Enumerates(s, Order(s)) && |Order(s)| == s.nNew + s.nTried && s.nNew >= 0 && s.nTried >= 0
  {
    hide NewOrder, TriedOrder, NoDup, Coherent;
    OrderMeaning(net, s);
    var order := Order(s);
    forall i | 0 <= i < |order| ensures ListedAt(s, order[i], i) {
      var id := order[i];
      assert id in order;
      if i < |NewOrder(s)| {
        assert id == NewOrder(s)[i] && id in NewOrder(s);
      } else {
        assert id == TriedOrder(s)[i - |NewOrder(s)|] && id in TriedOrder(s);
      }
    }
    forall id | id in s.mapInfo ensures id in order { }
  }

  // ----- sizes under the renaming -------------------------------------------------

  /** Renaming is injective, so what it maps into a set is no larger than it. */
  lemma MappedSize(order: seq<int>, xs: seq<int>, target: set<int>)
    requires NoDup(order) && NoDup(xs)
    requires forall x <- xs :: 0 <= x < |order| && order[x] in target
    ensures |xs| <= |target|
  {
    var ys := seq(|xs|, i requires 0 <= i < |xs| => if 0 <= xs[i] < |order| then order[xs[i]] else 0);
    forall i | 0 <= i < |xs| ensures 0 <= xs[i] < |order| && ys[i] == order[xs[i]] && ys[i] in target {
      var x := xs[i];
      assert x in xs;
    }
    ElementsSize(ys);
    SubsetSize(Elements(ys), target);
  }

  lemma ImageSize(order: seq<int>, ids: set<int>)
    requires NoDup(order)
    ensures |Image(order, ids)| <= |ids|
  {
    var xs := InOrder(Image(order, ids));
    AscendingNoDup(xs);
    forall x | x in xs ensures 0 <= x < |order| && order[x] in ids { assert x in Elements(xs); }
    MappedSize(order, xs, ids);
  }

  lemma {:induction false} ImageOccurrences(order: seq<int>, vv: seq<set<int>>, ww: seq<set<int>>, i: int)
    requires |ww| == |vv| && 0 <= i < |order| && forall b | 0 <= b < |vv| :: ww[b] == Image(order, vv[b])
    ensures Occurrences(ww, i) == Occurrences(vv, order[i])
  {
    if vv != [] {
      var last := |vv| - 1;
      ImageOccurrences(order, vv[..last], ww[..last], i);
      assert ww[last] == Image(order, vv[last]);
    }
  }

  // ----- a renamed state is consistent again -----------------------------------------

  lemma RenamedCounts(s: State, t: State, order: seq<int>)
    requires Enumerates(s, order) && Renamed(s, t, order) && 0 <= s.nNew <= |order| == s.nNew + s.nTried
    ensures CountsOk(t.mapInfo, t.nTried, t.nNew)
  {
    var m := t.mapInfo;
    forall i ensures i in NewIds(m) <==> i in Elements(Upto(s.nNew)) {
      if i in m { assert CarriesAll(s, order, m, i) && ListedAt(s, order[i], i); }
      assert i in Upto(s.nNew) <==> 0 <= i < s.nNew by { if 0 <= i < s.nNew { assert Upto(s.nNew)[i] == i; } }
    }
    assert NewIds(m) == Elements(Upto(s.nNew));
    forall i ensures i in m.Keys <==> i in Elements(Upto(|order|)) {
      assert i in Upto(|order|) <==> 0 <= i < |order| by { if 0 <= i < |order| { assert Upto(|order|)[i] == i; } }
    }
    assert m.Keys == Elements(Upto(|order|));
    StatusPartition(m);
    ElementsSize(Upto(s.nNew));
    ElementsSize(Upto(|order|));
  }

  lemma RenamedRandom(s: State, t: State, order: seq<int>)
    requires Renamed(s, t, order)
    ensures RandomOk(t.mapInfo, t.vRandom)
  {
    var m := t.mapInfo;
    forall i | i in m ensures Holds(t.vRandom, m[i].nRandomPos, i) {
      assert CarriesAll(s, order, m, i);
    }
    forall i | 0 <= i < |t.vRandom| ensures PlacedAt(m, t.vRandom[i], i) {
      assert CarriesAll(s, order, m, i);
    }
  }

  lemma RenamedAddr(s: State, t: State, order: seq<int>)
    requires Enumerates(s, order) && AddrOk(s.mapInfo, s.mapAddr) && Renamed(s, t, order)
    ensures AddrOk(t.mapInfo, t.mapAddr)
  {
    var m := t.mapInfo;
    forall n ensures n in t.mapAddr <==> n in s.mapAddr { assert n in t.mapAddr.Keys <==> n in s.mapAddr.Keys; }
    forall i | i in m ensures m[i].Net() in t.mapAddr && t.mapAddr[m[i].Net()] == i {
      var id := order[i];
      assert CarriesAll(s, order, m, i);
      var n := m[i].Net();
      assert n == s.mapInfo[id].Net() && s.mapAddr[n] == id;
      assert Stands(order, t.mapAddr[n], s.mapAddr[n]);
    }
    forall n | n in t.mapAddr ensures KnownAs(m, t.mapAddr[n], n) {
      assert Stands(order, t.mapAddr[n], s.mapAddr[n]);
      assert KnownAs(s.mapInfo, s.mapAddr[n], n);
      assert CarriesAll(s, order, m, t.mapAddr[n]);
    }
  }

  lemma RenamedNew(s: State, t: State, order: seq<int>)
    requires Enumerates(s, order) && NewOk(s.mapInfo, s.vvNew, NOBODY) && NOBODY !in s.mapInfo && Renamed(s, t, order)
    ensures NewOk(t.mapInfo, t.vvNew, NOBODY)
  {
    var m := t.mapInfo;
    forall b | 0 <= b < |t.vvNew| ensures |t.vvNew[b]| <= NEW_BUCKET_SIZE && t.vvNew[b] <= m.Keys {
      ImageSize(order, s.vvNew[b]);
    }
    forall i | i in m
      ensures m[i].nRefCount == Occurrences(t.vvNew, i) && m[i].nRefCount <= NEW_BUCKETS_PER_ADDRESS
      ensures m[i].fInTried <==> m[i].nRefCount == 0
    {
      assert CarriesAll(s, order, m, i);
      ImageOccurrences(order, s.vvNew, t.vvNew, i);
    }
  }

  lemma RenamedTried(net: Network, s: State, t: State, order: seq<int>)
    requires Enumerates(s, order) && TriedOk(net, s.nKey, s.mapInfo, s.vvTried) && Renamed(s, t, order)
    ensures TriedOk(net, t.nKey, t.mapInfo, t.vvTried)
  {
    var m := t.mapInfo;
    forall b | 0 <= b < |t.vvTried| ensures BucketOk(net, t.nKey, m, b, t.vvTried[b]) {
      assert BucketOk(net, s.nKey, s.mapInfo, b, s.vvTried[b]);
      RenamedBucket(net, s, t, order, b);
    }
    forall i | i in m && m[i].fInTried ensures i in t.vvTried[GetTriedBucket(net, t.nKey, m[i].addr.svc)] {
      assert CarriesAll(s, order, m, i);
      var b := GetTriedBucket(net, t.nKey, m[i].addr.svc);
      assert order[i] in Elements(s.vvTried[b]);
      assert i in Elements(t.vvTried[b]);
    }
  }

  lemma RenamedBucket(net: Network, s: State, t: State, order: seq<int>, b: nat)
    requires NoDup(order) && Renamed(s, t, order) && b < |s.vvTried|
    requires BucketOk(net, s.nKey, s.mapInfo, b, s.vvTried[b])
    ensures BucketOk(net, t.nKey, t.mapInfo, b, t.vvTried[b])
  {
    var m := t.mapInfo;
    forall i | i in t.vvTried[b]
      ensures 0 <= i < |order| && order[i] in Elements(s.vvTried[b])
      ensures i in m && m[i].fInTried && GetTriedBucket(net, t.nKey, m[i].addr.svc) == b
    {
      assert i in Elements(t.vvTried[b]);
      assert CarriesAll(s, order, m, i);
      var id := order[i];
      assert id in s.vvTried[b];
    }
    MappedSize(order, t.vvTried[b], Elements(s.vvTried[b]));
    ElementsSize(s.vvTried[b]);
  }

  /** Whatever a renaming leaves of a consistent state is consistent. */
  lemma RenamedConsistent(net: Network, s: State, t: State)
    requires Consistent(net, s) && Renamed(s, t, Order(s))
    ensures Consistent(net, t)
  {
    var order := Order(s);
    OrderEnumerates(net, s);
    hide Order, Renamed, Enumerates, RandomOk, AddrOk, TriedOk, NewOk;
    RenamedShape(s, t, order);
    RenamedCounts(s, t, order);
    RenamedRandom(s, t, order);
    RenamedAddr(s, t, order);
    RenamedNew(s, t, order);
    RenamedTried(net, s, t, order);
  }

  lemma RenamedShape(s: State, t: State, order: seq<int>)
    requires Renamed(s, t, order)
    ensures IdsOk(t.mapInfo, t.nIdCount) && t.nNew == s.nNew && t.nTried == s.nTried
  {
  }

  /** The debug check still passes after a round trip. */
  lemma RenamedStamped(s: State, t: State, order: seq<int>)
    requires Stamped(s) && Renamed(s, t, order)
    ensures Stamped(t)
  {
    var m := t.mapInfo;
    forall i | i in m ensures InfoStamped(m[i]) {
      assert CarriesAll(s, order, m, i);
      var id := order[i];
      assert InfoStamped(s.mapInfo[id]);
    }
  }

  // ----- where things are in the stream -----------------------------------------------

  lemma RecordsJoin(m: map<int, AddrInfo>, xs: seq<int>, ys: seq<int>, i: nat)
    requires i < |xs + ys| && (xs + ys)[i] in m
    ensures (Records(m, xs) + Records(m, ys))[i] == Record(Save(m[(xs + ys)[i]]))
  {
    if i < |xs| {
      assert xs[i] == (xs + ys)[i];
    } else {
      assert ys[i - |xs|] == (xs + ys)[i];
    }
  }

  lemma RecordAt(s: State, i: nat)
    requires i < |Order(s)| && ListedAt(s, Order(s)[i], i)
    ensures |Stream(s)| >= 5 + |Order(s)|
    ensures Stream(s)[5 + i] == Record(Save(s.mapInfo[Order(s)[i]]))
  {
    hide NewOrder, TriedOrder, BucketTokens, Records, Save, NoDup;
    RecordsJoin(s.mapInfo, NewOrder(s), TriedOrder(s), i);
    var records := Records(s.mapInfo, NewOrder(s)) + Records(s.mapInfo, TriedOrder(s));
    var stream := Header(s) + records + BucketTokens(NewOrder(s), s.vvNew);
    assert Stream(s) == stream;
    assert stream[5 + i] == records[i];
  }

  /** The stream starts with a version of 0, the key, the two counters and the number
      of new buckets, and goes on with six fields of each record. */
  lemma StreamMeaning(net: Network, s: State, i: nat)
    requires Consistent(net, s) && i < |Order(s)|
    ensures |Stream(s)| > 5 + i && Order(s)[i] in s.mapInfo
    ensures Stream(s)[..5] == [Num(0), Key(s.nKey), Num(s.nNew), Num(s.nTried), Num(256)]
    ensures var info := s.mapInfo[Order(s)[i]];
      Stream(s)[5 + i] == Record(DiskInfo(info.addr.svc, info.addr.nServices, info.addr.nTime, info.source,
                                          info.nLastSuccess, info.nAttempts))
  {
    hide Order, Stream, Coherent, Enumerates, ListedAt;
    OrderEnumerates(net, s);
    OrderListed(s, i);
    RecordAt(s, i);
    BucketsAt(s);
  }

  lemma OrderListed(s: State, i: nat)
    requires Enumerates(s, Order(s)) && i < |Order(s)|
    ensures ListedAt(s, Order(s)[i], i) && Order(s)[i] in s.mapInfo
  {
    assert ListedAt(s, Order(s)[i], i);
  }

  lemma BucketsAt(s: State)
    ensures Stream(s) == Stream(s)[..5 + |Order(s)|] + BucketTokens(NewOrder(s), s.vvNew)
    ensures |Stream(s)| >= 5 + |Order(s)|
    ensures Stream(s)[..5] == Header(s)
  {
    hide NewOrder, TriedOrder, BucketTokens, Records;
    var front := Header(s) + Records(s.mapInfo, NewOrder(s)) + Records(s.mapInfo, TriedOrder(s));
    assert |front| == 5 + |Order(s)|;
    assert Stream(s)[..|front|] == front;
  }

  /** Bucket `b` starts where the ones before it end. */
  lemma {:induction false} ChunkAt(order: seq<int>, vv: seq<set<int>>, b: nat)
    requires b < |vv|
    ensures BucketTokens(order, vv[..b]) + Chunk(order, vv[b]) <= BucketTokens(order, vv)
    ensures BucketTokens(order, vv[..b + 1]) == BucketTokens(order, vv[..b]) + Chunk(order, vv[b])
  {
    assert vv[..b + 1][..b] == vv[..b];
    if b == |vv| - 1 {
      assert vv[..b + 1] == vv;
    } else {
      var init := vv[..|vv| - 1];
      assert init[..b] == vv[..b];
      ChunkAt(order, init, b);
    }
  }

  lemma ChunkToken(s: State, b: nat, j: nat)
    requires b < |s.vvNew| && j <= |s.vvNew[b]|
    ensures var order := NewOrder(s);
      var p := 5 + |Order(s)| + |BucketTokens(order, s.vvNew[..b])|;
      p + j < |Stream(s)| && Stream(s)[p + j] == Chunk(order, s.vvNew[b])[j]
  {
    hide NewOrder, TriedOrder, BucketTokens, Records, Stream, Chunk;
    BucketsAt(s);
    var order := NewOrder(s);
    ChunkAt(order, s.vvNew, b);
    PrefixAt(BucketTokens(order, s.vvNew), BucketTokens(order, s.vvNew[..b]), Chunk(order, s.vvNew[b]), j);
  }

  lemma PrefixAt(all: seq<Token>, before: seq<Token>, chunk: seq<Token>, j: nat)
    requires before + chunk <= all && j < |chunk|
    ensures |before| + j < |all| && all[|before| + j] == chunk[j]
  {
    assert all[|before| + j] == (before + chunk)[|before| + j];
  }

  // ----- reading the records -----------------------------------------------------------

  /** The first `n` records of `order` are in: every index but the new buckets
      and the counts is built for them. */
  ghost predicate Loaded(net: Network, s: State, t: State, order: seq<int>, n: nat) {
    && n <= |order|
    && t.nKey == s.nKey && t.nNew == s.nNew && t.nTried == s.nTried
    && KeysBelow(t.mapInfo, n)
    && (forall i | 0 <= i < n :: Fresh(s, order, t.mapInfo, i))
    && t.vRandom == Upto(n)
    && AddrOk(t.mapInfo, t.mapAddr)
    && t.vvNew == Empty([]).vvNew
    && |t.vvTried| == TRIED_BUCKET_COUNT
    && (forall b | 0 <= b < TRIED_BUCKET_COUNT :: Rebuilt(net, s, order, n, b, t.vvTried[b]))
  }

  /** A record just read: no references, and tried only if it is beyond the new ones. */
  ghost predicate Fresh(s: State, order: seq<int>, m: map<int, AddrInfo>, i: int) {
    && 0 <= i < |order| && order[i] in s.mapInfo && i in m
    && m[i] == Kept(s.mapInfo[order[i]], i).(nRefCount := 0)
  }

  /** A tried bucket holds the tried ones among the first `n` that hash to it. */
  ghost predicate Rebuilt(net: Network, s: State, order: seq<int>, n: nat, b: int, bucket: seq<int>) {
    && NoDup(bucket)
    && (forall i :: i in bucket <==> s.nNew <= i < n && Hashes(net, s, order, i, b))
  }

  ghost predicate Hashes(net: Network, s: State, order: seq<int>, i: int, b: int) {
    0 <= i < |order| && order[i] in s.mapInfo && GetTriedBucket(net, s.nKey, s.mapInfo[order[i]].addr.svc) == b
  }

  /** There is always room for the next tried record: no record is lost. */
  lemma RoomLeft(net: Network, s: State, order: seq<int>, n: nat, b: int, bucket: seq<int>)
    requires Enumerates(s, order) && TriedOk(net, s.nKey, s.mapInfo, s.vvTried) && 0 <= s.nNew <= n < |order|
    requires Hashes(net, s, order, n, b) && Rebuilt(net, s, order, n, b, bucket)
    ensures |bucket| < TRIED_BUCKET_SIZE
  {
    var home := s.vvTried[b];
    assert BucketOk(net, s.nKey, s.mapInfo, b, home);
    assert ListedAt(s, order[n], n);
    forall i | i in bucket ensures 0 <= i < |order| && order[i] in Elements(home) - {order[n]} {
      assert ListedAt(s, order[i], i);
      var id := order[i];
      assert id in home;
    }
    var id := order[n];
    assert id in home;
    MappedSize(order, bucket, Elements(home) - {id});
    OneLess(Elements(home), id);
    ElementsSize(home);
  }

  /** One more record is in. */
  lemma LoadNext(net: Network, s: State, t: State, order: seq<int>, n: nat, u: State)
    requires Enumerates(s, order) && AddrOk(s.mapInfo, s.mapAddr) && n < |order| && Loaded(net, s, t, order, n)
    requires ListedAt(s, order[n], n)
    requires var info := Kept(s.mapInfo[order[n]], n).(nRefCount := 0);
      && u.mapInfo == t.mapInfo[n := info] && u.mapAddr == t.mapAddr[info.Net() := n] && u.vRandom == t.vRandom + [n]
    requires u.nKey == t.nKey && u.nNew == t.nNew && u.nTried == t.nTried && u.vvNew == t.vvNew
    requires var b := GetTriedBucket(net, s.nKey, s.mapInfo[order[n]].addr.svc);
      if n < s.nNew then u.vvTried == t.vvTried else u.vvTried == t.vvTried[b := t.vvTried[b] + [n]]
    ensures Loaded(net, s, u, order, n + 1)
  {
    LoadNextAddr(net, s, t, order, n, u);
    forall i | 0 <= i < n + 1 ensures Fresh(s, order, u.mapInfo, i) {
      if i < n { assert Fresh(s, order, t.mapInfo, i); }
    }
    assert u.vRandom == Upto(n + 1);
    hide AddrOk, Enumerates, NoDup;
    forall b | 0 <= b < TRIED_BUCKET_COUNT ensures Rebuilt(net, s, order, n + 1, b, u.vvTried[b]) {
      assert Rebuilt(net, s, order, n, b, t.vvTried[b]);
      RebuildNext(net, s, order, n, b, t.vvTried[b]);
    }
  }

  lemma RebuildNext(net: Network, s: State, order: seq<int>, n: nat, b: int, bucket: seq<int>)
    requires Rebuilt(net, s, order, n, b, bucket) && n < |order|
    ensures if n >= s.nNew && Hashes(net, s, order, n, b) then Rebuilt(net, s, order, n + 1, b, bucket + [n])
            else Rebuilt(net, s, order, n + 1, b, bucket)
  {
    AppendElements(bucket, n);
    forall i ensures i in bucket + [n] <==> i in bucket || i == n { assert (bucket + [n])[|bucket|] == n; }
  }

  lemma LoadNextAddr(net: Network, s: State, t: State, order: seq<int>, n: nat, u: State)
    requires Enumerates(s, order) && AddrOk(s.mapInfo, s.mapAddr) && n < |order| && Loaded(net, s, t, order, n)
    requires ListedAt(s, order[n], n)
    requires var info := Kept(s.mapInfo[order[n]], n).(nRefCount := 0);
      && u.mapInfo == t.mapInfo[n := info] && u.mapAddr == t.mapAddr[info.Net() := n]
    ensures AddrOk(u.mapInfo, u.mapAddr)
  {
    var id := order[n];
    var a := s.mapInfo[id].Net();
    forall i | i in t.mapInfo ensures t.mapInfo[i].Net() != a {
      assert Fresh(s, order, t.mapInfo, i);
      var other := order[i];
      assert other != id && s.mapAddr[s.mapInfo[other].Net()] == other;
    }
    assert a in t.mapAddr ==> KnownAs(t.mapInfo, t.mapAddr[a], a);
    forall x | x in u.mapAddr ensures KnownAs(u.mapInfo, u.mapAddr[x], x) {
      if x != a { assert KnownAs(t.mapInfo, t.mapAddr[x], x); }
    }
  }

  // ----- the reader -----------------------------------------------------------------------

  /** The first passes of the reader: `am` starts out cleared, and takes in the
      new records and then the tried ones. */
  method ReadNewRecords(am: AddrMan, stream: seq<Token>, ghost s: State)
    requires Consistent(am.net, s) && stream == Stream(s) && Loaded(am.net, s, am.View(), Order(s), 0)
    modifies am
    ensures Loaded(am.net, s, am.View(), Order(s), s.nNew) && am.nIdCount == old(am.nIdCount)
  {
    hide Order, Stream, Loaded, Coherent, Enumerates, Load, Save, Kept;
    ghost var order := Order(s);
    OrderEnumerates(am.net, s);
    LoadedTotals(am.net, s, am.View(), order, 0);
    for n := 0 to am.nNew
      invariant am.nNew == s.nNew && Loaded(am.net, s, am.View(), order, n) && am.nIdCount == old(am.nIdCount)
    {
      ReadNewRecord(am, stream, n, s);
    }
  }

  /** Enter a record read from disk under id `n`, at the end of `vRandom`. */
  method Enter(am: AddrMan, n: int, info: AddrInfo)
    modifies am`mapInfo, am`mapAddr, am`vRandom
    ensures am.mapInfo == old(am.mapInfo)[n := info.(nRandomPos := |old(am.vRandom)|)]
    ensures am.mapAddr == old(am.mapAddr)[info.Net() := n] && am.vRandom == old(am.vRandom) + [n]
  {
    am.mapAddr := am.mapAddr[info.Net() := n];
    am.mapInfo := am.mapInfo[n := info.(nRandomPos := |am.vRandom|)];
    am.vRandom := am.vRandom + [n];
  }

  method ReadNewRecord(am: AddrMan, stream: seq<Token>, n: nat, ghost s: State)
    requires Consistent(am.net, s) && stream == Stream(s)
    requires n < s.nNew && Loaded(am.net, s, am.View(), Order(s), n)
    modifies am
    ensures Loaded(am.net, s, am.View(), Order(s), n + 1) && am.nNew == s.nNew && am.nIdCount == old(am.nIdCount)
  {
    hide Order, Stream, Loaded, Coherent, Enumerates, Load, Save, Kept, GetTriedBucket;
    ghost var order, t := Order(s), am.View();
    OrderEnumerates(am.net, s);
    LoadReady(am.net, s, t, n);
    var info := Load(stream[5 + n].info);
    Enter(am, n, info);
    LoadNext(am.net, s, t, order, n, am.View());
  }

  /** The next passes: the tried records, each into the bucket it hashes to. */
  method ReadTriedRecords(am: AddrMan, stream: seq<Token>, ghost s: State) returns (nLost: int)
    requires Consistent(am.net, s) && stream == Stream(s) && Loaded(am.net, s, am.View(), Order(s), s.nNew)
    requires am.nIdCount == s.nNew
    modifies am
    ensures Loaded(am.net, s, am.View(), Order(s), |Order(s)|) && am.nIdCount == |Order(s)| && nLost == 0
  {
    hide Order, Stream, Loaded, Coherent, Enumerates, Load, Save, Kept, GetTriedBucket;
    ghost var order := Order(s);
    OrderEnumerates(am.net, s);
    LoadedTotals(am.net, s, am.View(), order, s.nNew);
    nLost := 0;
    for n := 0 to am.nTried
      invariant am.nTried == s.nTried && am.nIdCount == s.nNew + n && nLost == 0
      invariant Loaded(am.net, s, am.View(), order, s.nNew + n)
    {
      var lost := ReadTriedRecord(am, stream, am.nIdCount, s);
      if lost { nLost := nLost + 1; }
    }
  }

  method ReadTriedRecord(am: AddrMan, stream: seq<Token>, n: nat, ghost s: State) returns (lost: bool)
    requires Consistent(am.net, s) && stream == Stream(s) && n == am.nIdCount
    requires s.nNew <= n < |Order(s)| && Loaded(am.net, s, am.View(), Order(s), n)
    modifies am
    ensures Loaded(am.net, s, am.View(), Order(s), n + 1) && am.nIdCount == n + 1 && am.nTried == s.nTried && !lost
  {
    hide Order, Stream, Loaded, Coherent, Enumerates, Load, Save, Kept, GetTriedBucket;
    ghost var order, t := Order(s), am.View();
    LoadReady(am.net, s, t, n);
    var info := Load(stream[5 + n].info);
    var b := GetTriedBucket(am.net, am.nKey, info.addr.svc);
    if |am.vvTried[b]| >= TRIED_BUCKET_SIZE { return true; }
    Enter(am, n, info.(fInTried := true));
    am.vvTried := am.vvTried[b := am.vvTried[b] + [n]];
    am.nIdCount := am.nIdCount + 1;
    LoadNext(am.net, s, t, order, n, am.View());
    lost := false;
  }

  lemma LoadedTotals(net: Network, s: State, t: State, order: seq<int>, n: nat)
    requires Loaded(net, s, t, order, n)
    ensures t.nNew == s.nNew && t.nTried == s.nTried && t.nKey == s.nKey && |t.vRandom| == n
    ensures |t.vvTried| == TRIED_BUCKET_COUNT
  {
  }

  /** The next record in the stream, and the room for it. */
  lemma LoadReady(net: Network, s: State, t: State, n: nat)
    requires Consistent(net, s) && n < |Order(s)| && Loaded(net, s, t, Order(s), n)
    ensures Enumerates(s, Order(s)) && AddrOk(s.mapInfo, s.mapAddr) && ListedAt(s, Order(s)[n], n)
    ensures t.nNew == s.nNew && t.nTried == s.nTried && t.nKey == s.nKey && |t.vRandom| == n
    ensures |t.vvTried| == TRIED_BUCKET_COUNT && 5 + n < |Stream(s)| && Stream(s)[5 + n].Record?
    ensures Order(s)[n] in s.mapInfo
    ensures var old_, info := s.mapInfo[Order(s)[n]], Load(Stream(s)[5 + n].info);
      && info.addr.svc == old_.addr.svc && info.Net() == Kept(old_, n).Net() && !info.fInTried
      && info.(nRandomPos := n, fInTried := n >= s.nNew) == Kept(old_, n).(nRefCount := 0)
    ensures n >= s.nNew ==>
      |t.vvTried[GetTriedBucket(net, s.nKey, s.mapInfo[Order(s)[n]].addr.svc)]| < TRIED_BUCKET_SIZE
  {
    var order := Order(s);
    OrderEnumerates(net, s);
    hide Order;
    var b := GetTriedBucket(net, s.nKey, s.mapInfo[order[n]].addr.svc);
    assert Rebuilt(net, s, order, n, b, t.vvTried[b]);
    if n >= s.nNew { RoomLeft(net, s, order, n, b, t.vvTried[b]); }
    hide Loaded, Coherent, Enumerates, Stream;
    RecordAt(s, n);
  }

  // ----- reading the new buckets ----------------------------------------------------------

  /** All records are in, and the new buckets up to `ids`, which is what has been
      read of bucket `b`. */
  ghost predicate Filled(net: Network, s: State, t: State, order: seq<int>, b: nat, ids: seq<int>) {
    && b <= |s.vvNew| == |t.vvNew| == NEW_BUCKET_COUNT
    && t.nKey == s.nKey && t.nNew == s.nNew && t.nTried == s.nTried
    && KeysBelow(t.mapInfo, |order|)
    && (forall i | 0 <= i < |order| :: Counted(s, order, t.mapInfo, i, b, ids))
    && t.vRandom == Upto(|order|)
    && AddrOk(t.mapInfo, t.mapAddr)
    && (forall c | 0 <= c < |t.vvNew| :: t.vvNew[c] == ReadOf(s, order, c, b, ids))
    && |t.vvTried| == TRIED_BUCKET_COUNT
    && (forall c | 0 <= c < TRIED_BUCKET_COUNT :: Rebuilt(net, s, order, |order|, c, t.vvTried[c]))
  }

  ghost predicate Counted(s: State, order: seq<int>, m: map<int, AddrInfo>, i: int, b: nat, ids: seq<int>)
    requires b <= |s.vvNew|
  {
    0 <= i < |order| && Carries(s, order, m, i, Met(s, b, ids, order[i]))
  }

  ghost function ReadOf(s: State, order: seq<int>, c: int, b: nat, ids: seq<int>): set<int>
    requires 0 <= c < |s.vvNew|
  {
    if c < b then Image(order, s.vvNew[c]) else if c == b then Image(order, Elements(ids)) else {}
  }

  lemma FillStart(net: Network, s: State, t: State, order: seq<int>)
    requires Consistent(net, s) && Loaded(net, s, t, order, |order|)
    ensures Filled(net, s, t, order, 0, [])
  {
    forall i | 0 <= i < |order| ensures Counted(s, order, t.mapInfo, i, 0, []) {
      assert Fresh(s, order, t.mapInfo, i);
    }
    assert Image(order, Elements([])) == {};
  }

  lemma FillBucket(net: Network, s: State, t: State, order: seq<int>, b: nat, ids: seq<int>)
    requires Filled(net, s, t, order, b, ids) && b < |s.vvNew| && Elements(ids) == s.vvNew[b]
    ensures Filled(net, s, t, order, b + 1, [])
  {
    assert s.vvNew[..b + 1][..b] == s.vvNew[..b];
    var c := b + 1;
    forall i | 0 <= i < |order| ensures Counted(s, order, t.mapInfo, i, c, []) {
      assert Counted(s, order, t.mapInfo, i, b, ids);
      var id := order[i];
      assert id in ids <==> id in Elements(ids);
    }
    assert Image(order, Elements([])) == {};
  }

  /** The cap on references never drops an entry the writer had. */
  lemma FillRoom(net: Network, s: State, t: State, order: seq<int>, b: nat, ids: seq<int>, i: int)
    requires Filled(net, s, t, order, b, ids) && NewOk(s.mapInfo, s.vvNew, NOBODY) && NOBODY !in s.mapInfo
    requires b < |s.vvNew| && 0 <= i < |order| && order[i] in s.vvNew[b] && order[i] !in ids
    ensures i in t.mapInfo && t.mapInfo[i].nRefCount < NEW_BUCKETS_PER_ADDRESS
  {
    assert Counted(s, order, t.mapInfo, i, b, ids);
    var id := order[i];
    assert s.vvNew[..b + 1][..b] == s.vvNew[..b];
    OccurrencesPrefix(s.vvNew, b + 1, id);
    assert id in s.mapInfo;
  }

  lemma FillNext(net: Network, s: State, t: State, order: seq<int>, b: nat, ids: seq<int>, i: int, u: State)
    requires Filled(net, s, t, order, b, ids) && NoDup(order) && b < |s.vvNew|
    requires 0 <= i < |order| && order[i] !in ids && i in t.mapInfo
    requires u == t.(mapInfo := Bumped(t.mapInfo, i), vvNew := t.vvNew[b := t.vvNew[b] + {i}])
    ensures Filled(net, s, u, order, b, ids + [order[i]])
  {
    var id := order[i];
    var more := ids + [id];
    AppendElements(ids, id);
    forall j | 0 <= j < |order| ensures Counted(s, order, u.mapInfo, j, b, more) {
      assert Counted(s, order, t.mapInfo, j, b, ids);
      var other := order[j];
      assert other in more <==> other in ids || j == i;
    }
    TriedKeepsAddr(t.mapInfo, u.mapInfo[i], t.mapAddr, i);
    hide AddrOk, NoDup;
    assert Image(order, Elements(more)) == Image(order, Elements(ids)) + {i};
    forall c | 0 <= c < |u.vvNew| ensures u.vvNew[c] == ReadOf(s, order, c, b, more) {
      assert t.vvNew[c] == ReadOf(s, order, c, b, ids);
    }
  }

  lemma FillDone(net: Network, s: State, t: State, order: seq<int>)
    requires Consistent(net, s) && Enumerates(s, order) && Filled(net, s, t, order, |s.vvNew|, [])
    requires t.nIdCount == |order|
    ensures Renamed(s, t, order)
  {
    assert s.vvNew[..|s.vvNew|] == s.vvNew;
    forall i | 0 <= i < |order| ensures CarriesAll(s, order, t.mapInfo, i) {
      assert Counted(s, order, t.mapInfo, i, |s.vvNew|, []);
    }
    FilledAddr(net, s, t, order);
    forall b | 0 <= b < |s.vvTried|
      ensures NoDup(t.vvTried[b]) && Elements(t.vvTried[b]) == Image(order, Elements(s.vvTried[b]))
    {
      assert Rebuilt(net, s, order, |order|, b, t.vvTried[b]);
      FilledTried(net, s, order, b, t.vvTried[b]);
    }
    forall b | 0 <= b < |s.vvNew| ensures t.vvNew[b] == Image(order, s.vvNew[b]) {
      assert t.vvNew[b] == ReadOf(s, order, b, |s.vvNew|, []);
    }
  }

  lemma FilledTried(net: Network, s: State, order: seq<int>, b: nat, bucket: seq<int>)
    requires Enumerates(s, order) && TriedOk(net, s.nKey, s.mapInfo, s.vvTried) && b < |s.vvTried|
    requires Rebuilt(net, s, order, |order|, b, bucket)
    ensures Elements(bucket) == Image(order, Elements(s.vvTried[b]))
  {
    var home := s.vvTried[b];
    assert BucketOk(net, s.nKey, s.mapInfo, b, home);
    forall i ensures i in Elements(bucket) <==> i in Image(order, Elements(home)) {
      assert i in Elements(bucket) <==> i in bucket;
      if 0 <= i < |order| {
        var id := order[i];
        assert ListedAt(s, id, i);
        assert id in Elements(home) <==> id in home;
      }
    }
  }

  lemma FilledAddr(net: Network, s: State, t: State, order: seq<int>)
    requires Consistent(net, s) && Enumerates(s, order) && KeysBelow(t.mapInfo, |order|)
    requires AddrOk(t.mapInfo, t.mapAddr) && forall i | 0 <= i < |order| :: CarriesAll(s, order, t.mapInfo, i)
    ensures t.mapAddr.Keys == s.mapAddr.Keys
    ensures forall n <- s.mapAddr :: Stands(order, t.mapAddr[n], s.mapAddr[n])
  {
    forall n | n in s.mapAddr ensures n in t.mapAddr && Stands(order, t.mapAddr[n], s.mapAddr[n]) {
      assert KnownAs(s.mapInfo, s.mapAddr[n], n);
      var id := s.mapAddr[n];
      assert id in order;
      var i :| 0 <= i < |order| && order[i] == id;
      assert CarriesAll(s, order, t.mapInfo, i);
      assert t.mapInfo[i].Net() == n;
    }
    forall n | n in t.mapAddr ensures n in s.mapAddr {
      assert KnownAs(t.mapInfo, t.mapAddr[n], n);
      var i := t.mapAddr[n];
      assert CarriesAll(s, order, t.mapInfo, i);
      var id := order[i];
      assert s.mapInfo[id].Net() == n;
    }
  }

  /** The last pass of the reader: the new buckets, entry by entry. */
  method ReadBuckets(am: AddrMan, stream: seq<Token>, ghost s: State)
    requires Consistent(am.net, s) && stream == Stream(s) && Filled(am.net, s, am.View(), Order(s), 0, [])
    requires am.nIdCount == |Order(s)|
    modifies am
    ensures Renamed(s, am.View(), Order(s))
  {
    ghost var order := Order(s);
    hide Order, Stream, Filled, Coherent, Enumerates, BucketTokens, Renamed;
    OrderEnumerates(am.net, s);
    NewTableSize(am.net, s);
    BucketsAt(s);
    var p := 5 + am.nIdCount;
    for b := 0 to NEW_BUCKET_COUNT
      invariant Filled(am.net, s, am.View(), order, b, []) && am.nIdCount == |order|
      invariant p == 5 + |order| + |BucketTokens(NewOrder(s), s.vvNew[..b])|
    {
      p := ReadBucket(am, stream, b, p, s);
    }
    FillDone(am.net, s, am.View(), order);
  }

  lemma NewTableSize(net: Network, s: State)
    requires Consistent(net, s)
    ensures |s.vvNew| == NEW_BUCKET_COUNT && s.vvNew[..0] == []
    ensures BucketTokens(NewOrder(s), s.vvNew[..0]) == []
  {
  }

  ghost function BucketStart(s: State, b: nat): nat
    requires b <= |s.vvNew|
  {
    5 + |Order(s)| + |BucketTokens(NewOrder(s), s.vvNew[..b])|
  }

  lemma ChunkEntry(order: seq<int>, bucket: set<int>, j: nat)
    requires j < |bucket|
    ensures Chunk(order, bucket)[j + 1] == Num(Rank(order, InOrder(bucket)[j])) && InOrder(bucket)[j] in bucket
  {
    var ids := InOrder(bucket);
    assert ids[j] in Elements(ids);
    assert Chunk(order, bucket)[j + 1] == Indices(order, ids)[j];
    hide Rank;
  }

  lemma OrderFront(s: State, id: int)
    requires id in NewOrder(s)
    ensures Stands(Order(s), Rank(NewOrder(s), id), id)
  {
    hide NewOrder, TriedOrder;
  }

  /** A bucket in the stream: its size, and for each entry where its record was written. */
  lemma EntryAt(net: Network, s: State, b: nat, j: nat, ids: seq<int>)
    requires Consistent(net, s) && b < |s.vvNew| && ids == InOrder(s.vvNew[b]) && j < |ids|
    ensures var p := BucketStart(s, b) + 1 + j;
      && p < |Stream(s)| && Stream(s)[p].Num? && Stands(Order(s), Stream(s)[p].value, ids[j]) && ids[j] in s.vvNew[b]
    ensures ids[..j + 1] == ids[..j] + [ids[j]] && ids[j] !in ids[..j]
  {
    hide NewOrder, TriedOrder, Order, InOrder, BucketTokens, Stream, Coherent, Chunk, Rank;
    NewBucketsOrdered(net, s);
    ChunkEntry(NewOrder(s), s.vvNew[b], j);
    ChunkToken(s, b, j + 1);
    OrderFront(s, ids[j]);
  }

  lemma SizeAt(s: State, b: nat)
    requires b < |s.vvNew|
    ensures BucketStart(s, b) < |Stream(s)| && Stream(s)[BucketStart(s, b)] == Num(|s.vvNew[b]|)
    ensures BucketStart(s, b + 1) == BucketStart(s, b) + 1 + |s.vvNew[b]|
  {
    ChunkToken(s, b, 0);
    ChunkAt(NewOrder(s), s.vvNew, b);
  }

  method ReadBucket(am: AddrMan, stream: seq<Token>, b: nat, start: nat, ghost s: State) returns (p: nat)
    requires Consistent(am.net, s) && stream == Stream(s) && b < |s.vvNew| && start == BucketStart(s, b)
    requires Filled(am.net, s, am.View(), Order(s), b, [])
    modifies am
    ensures Filled(am.net, s, am.View(), Order(s), b + 1, []) && am.nIdCount == old(am.nIdCount)
    ensures p == BucketStart(s, b + 1)
  {
    hide Order, Stream, Filled, Coherent, BucketTokens, BucketStart, Elements, InOrder, Stands, Ascending;
    ghost var order, ids := Order(s), InOrder(s.vvNew[b]);
    SizeAt(s, b);
    var nSize := stream[start].value;
    p := start + 1;
    assert ids[..0] == [];
    for n := 0 to nSize
      invariant p == start + 1 + n && am.nIdCount == old(am.nIdCount)
      invariant Filled(am.net, s, am.View(), order, b, ids[..n])
    {
      EntryAt(am.net, s, b, n, ids);
      ReadEntry(am, stream[p].value, b, s, ids[..n], ids[n]);
      p := p + 1;
    }
    assert ids[..nSize] == ids;
    FillBucket(am.net, s, am.View(), order, b, ids);
  }

  method ReadEntry(am: AddrMan, nIndex: int, b: nat, ghost s: State, ghost ids: seq<int>, ghost id: int)
    requires Consistent(am.net, s) && b < |s.vvNew| && Filled(am.net, s, am.View(), Order(s), b, ids)
    requires Stands(Order(s), nIndex, id) && id in s.vvNew[b] && id !in ids
    modifies am
    ensures Filled(am.net, s, am.View(), Order(s), b, ids + [id]) && am.nIdCount == old(am.nIdCount)
  {
    hide Order, Filled, Coherent, Enumerates;
    ghost var order, t := Order(s), am.View();
    EntryReady(am.net, s, t, b, ids, nIndex);
    var info := am.mapInfo[nIndex];
    if info.nRefCount < NEW_BUCKETS_PER_ADDRESS {
      am.mapInfo := am.mapInfo[nIndex := info.(nRefCount := info.nRefCount + 1)];
      am.vvNew := am.vvNew[b := am.vvNew[b] + {nIndex}];
    }
    FillNext(am.net, s, t, order, b, ids, nIndex, am.View());
  }

  lemma EntryReady(net: Network, s: State, t: State, b: nat, ids: seq<int>, i: int)
    requires Consistent(net, s) && b < |s.vvNew| && Filled(net, s, t, Order(s), b, ids)
    requires 0 <= i < |Order(s)| && Order(s)[i] in s.vvNew[b] && Order(s)[i] !in ids
    ensures i in t.mapInfo && t.mapInfo[i].nRefCount < NEW_BUCKETS_PER_ADDRESS && b < |t.vvNew| && NoDup(Order(s))
  {
    OrderEnumerates(net, s);
    FillRoom(net, s, t, Order(s), b, ids, i);
    hide Order;
  }

  /** Reading what a consistent manager wrote, into any manager with the same
      bucket hash: no tried record is lost, and the result is the written state
      up to the renaming, hence consistent. */
  method Unserialize(am: AddrMan, stream: seq<Token>, ghost s: State) returns (nLost: int)
    requires Consistent(am.net, s) && stream == Stream(s)
    modifies am
    ensures nLost == 0
    ensures Renamed(s, am.View(), Order(s)) && am.Valid()
  {
    hide Order, Stream, Loaded, Filled, Renamed, Coherent, Enumerates;
    ghost var order := Order(s);
    OrderEnumerates(am.net, s);
    ReadHeader(am, stream, s);
    ReadNewRecords(am, stream, s);
    LoadedTotals(am.net, s, am.View(), order, s.nNew);
    ghost var before := am.View();
    am.nIdCount := am.nNew;
    assert am.View().(nIdCount := 0) == before;
    LoadedElsewhere(am.net, s, order, s.nNew, am.View());
    nLost := ReadTriedRecords(am, stream, s);
    am.nTried := am.nTried - nLost;
    FillStart(am.net, s, am.View(), order);
    ReadBuckets(am, stream, s);
    RenamedConsistent(am.net, s, am.View());
  }

  lemma LoadedElsewhere(net: Network, s: State, order: seq<int>, n: nat, u: State)
    requires Loaded(net, s, u.(nIdCount := 0), order, n)
    ensures Loaded(net, s, u, order, n)
  {
  }

  method ReadHeader(am: AddrMan, stream: seq<Token>, ghost s: State)
    requires stream == Stream(s)
    modifies am
    ensures Loaded(am.net, s, am.View(), Order(s), 0) && am.nIdCount == 0
  {
    BucketsAt(s);
    hide Stream, Order, Loaded;
    assert stream[1] == stream[..5][1] && stream[2] == stream[..5][2] && stream[3] == stream[..5][3];
    am.nKey := stream[1].bytes;
    am.nNew := stream[2].value;
    am.nTried := stream[3].value;
    am.nIdCount := 0;
    am.mapInfo, am.mapAddr, am.vRandom := map[], map[], [];
    am.vvTried := seq(TRIED_BUCKET_COUNT, _ => []);
    am.vvNew := seq(NEW_BUCKET_COUNT, _ => {});
    Cleared(am.net, s, am.View(), Order(s));
  }

  lemma Cleared(net: Network, s: State, t: State, order: seq<int>)
    requires t == Empty(s.nKey).(nNew := s.nNew, nTried := s.nTried)
    ensures Loaded(net, s, t, order, 0)
  {
  }

  // ----- writing, then reading -----------------------------------------------------

  lemma SameBuckets(s: State, t: State, order: seq<int>, i: int, id: int)
    requires Renamed(s, t, order) && Stands(order, i, id)
    ensures forall b | 0 <= b < |s.vvNew| :: b < |t.vvNew| && (i in t.vvNew[b] <==> id in s.vvNew[b])
    ensures forall b | 0 <= b < |s.vvTried| :: b < |t.vvTried| && (i in t.vvTried[b] <==> id in s.vvTried[b])
  {
    hide CarriesAll, KeysBelow;
    forall b | 0 <= b < |s.vvTried| ensures i in t.vvTried[b] <==> id in s.vvTried[b] {
      assert i in t.vvTried[b] <==> i in Elements(t.vvTried[b]);
      assert id in s.vvTried[b] <==> id in Elements(s.vvTried[b]);
    }
  }

  lemma SameRecord(s: State, t: State, order: seq<int>, n: NetAddr)
    requires Renamed(s, t, order) && n in s.mapAddr
    ensures n in t.mapAddr && Stands(order, t.mapAddr[n], s.mapAddr[n])
    ensures s.mapAddr[n] in s.mapInfo && t.mapAddr[n] in t.mapInfo
    ensures t.mapInfo[t.mapAddr[n]] == Kept(s.mapInfo[s.mapAddr[n]], t.mapAddr[n])
  {
    hide Image, KeysBelow;
    var i := t.mapAddr[n];
    assert Stands(order, i, s.mapAddr[n]) && CarriesAll(s, order, t.mapInfo, i);
  }

  lemma SameDomain(s: State, t: State, order: seq<int>, n: NetAddr)
    requires Renamed(s, t, order)
    ensures n in t.mapAddr <==> n in s.mapAddr
  {
    hide CarriesAll, KeysBelow, Image, Stands;
    assert n in t.mapAddr <==> n in t.mapAddr.Keys;
  }

  /** In terms of addresses: the same ones are known, each with its record but for
      the position and the time of the last try, and in the same buckets. */
  lemma SameAddresses(net: Network, s: State, t: State, n: NetAddr)
    requires Consistent(net, s) && Renamed(s, t, Order(s))
    ensures Find(s, n).None? <==> Find(t, n).None?
    ensures Find(s, n).Some? ==>
      var id, i := Find(s, n).value, Find(t, n).value;
      && (var o := s.mapInfo[id];
          t.mapInfo[i] == AddrInfo(Address(o.addr.svc, o.addr.nServices, o.addr.nTime, 0), o.source, o.nLastSuccess,
                                   o.nAttempts, o.nRefCount, o.fInTried, i))
      && (forall b | 0 <= b < |s.vvNew| :: b < |t.vvNew| && (i in t.vvNew[b] <==> id in s.vvNew[b]))
      && (forall b | 0 <= b < |s.vvTried| :: b < |t.vvTried| && (i in t.vvTried[b] <==> id in s.vvTried[b]))
  {
    hide Coherent, Order, Find, Renamed, Stands;
    RenamedConsistent(net, s, t);
    FindExact(net, s, n);
    FindExact(net, t, n);
    SameDomain(s, t, Order(s), n);
    if n in s.mapAddr {
      SameRecord(s, t, Order(s), n);
      SameBuckets(s, t, Order(s), t.mapAddr[n], s.mapAddr[n]);
    }
  }

  /** A manager written out and read back into another one. */
  method Restore(am: AddrMan, into: AddrMan) returns (nLost: int)
    requires am.Valid() && into != am && into.net == am.net
    modifies into
    ensures nLost == 0 && into.Valid() && Renamed(am.View(), into.View(), Order(am.View()))
  {
    hide Stream, Renamed;
    var stream := Serialize(am);
    nLost := Unserialize(into, stream, am.View());
  }
}

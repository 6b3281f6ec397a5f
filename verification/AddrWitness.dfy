/** A consistent manager in which a good report sends the most recently successful
    tried record back to the new table. */
module AddrWitness {
  import opened Common
  import opened AddrTypes
  import opened AddrState
  import opened AddrInvariant
  import opened AddrSelection

  /** A network in which every hash is 0: one tried bucket and one new bucket. */
  function OneBucket(): Network {
    Network(_ => 0, _ => [], _ => true)
  }

  function Place(i: int): NetAddr
    requires 0 <= i < 256
  {
    NetAddr([i])
  }

  /** Record number 0 succeeded last of all, and the others in the order of their numbers. */
  function SuccessOf(i: int): int { if i == 0 then 1000 else i }

  function Entry(i: int, n: nat): AddrInfo
    requires 0 <= i < 256
  {
    RecordOf(Place(i), if i < n then SuccessOf(i) else 0, i < n).(nRefCount := if i < n then 0 else 1, nRandomPos := i)
  }

  /** A row of empty buckets but for the first one. */
  function TriedTable(bucket: seq<int>): (vv: seq<seq<int>>)
    ensures |vv| == TRIED_BUCKET_COUNT && forall b | 0 <= b < |vv| :: vv[b] == if b == 0 then bucket else []
  {
    seq(TRIED_BUCKET_COUNT, b => if b == 0 then bucket else [])
  }

  function NewTable(bucket: set<int>): (vv: seq<set<int>>)
    ensures |vv| == NEW_BUCKET_COUNT && forall b | 0 <= b < |vv| :: vv[b] == if b == 0 then bucket else {}
  {
    seq(NEW_BUCKET_COUNT, b => if b == 0 then bucket else {})
  }

  /** `n` tried records in the one bucket, and one more record that is new. */
  function Crowded(n: nat): State
    requires n < 255
  {
    State([], n + 1, map i: int | 0 <= i <= n :: Entry(i, n), map i: int | 0 <= i <= n :: Place(i) := i, Upto(n + 1),
          n, TriedTable(Upto(n)), 1, NewTable({n as int}))
  }

  lemma UptoNoDup(n: nat)
    ensures NoDup(Upto(n)) && |Elements(Upto(n))| == n && forall x :: x in Upto(n) <==> 0 <= x < n
  {
    forall x | 0 <= x < n ensures x in Upto(n) { assert Upto(n)[x] == x; }
    ElementsSize(Upto(n));
  }

  lemma CrowdedCounts(n: nat)
    requires n < 255
    ensures var s := Crowded(n); CountsOk(s.mapInfo, s.nTried, s.nNew)
  {
    var s := Crowded(n);
    UptoNoDup(n);
    assert TriedIds(s.mapInfo) == Elements(Upto(n));
    assert NewIds(s.mapInfo) == {n as int};
  }

  lemma CrowdedNew(n: nat)
    requires n < 255
    ensures var s := Crowded(n); NewOk(s.mapInfo, s.vvNew, NOBODY)
  {
    var s := Crowded(n);
    var none := NewTable({});
    assert s.vvNew == none[0 := {n as int}];
    forall id | id in s.mapInfo ensures Occurrences(s.vvNew, id) == if id == n then 1 else 0 {
      OccurrencesNone(none, id);
      OccurrencesUpdate(none, 0, {n as int}, id);
    }
  }

  lemma CrowdedTried(n: nat)
    requires n <= TRIED_BUCKET_SIZE
    ensures var s := Crowded(n); TriedOk(OneBucket(), s.nKey, s.mapInfo, s.vvTried)
  {
    UptoNoDup(n);
    hide Upto;
    var s := Crowded(n);
    assert BucketOk(OneBucket(), s.nKey, s.mapInfo, 0, Upto(n));
  }

  lemma CrowdedIds(n: nat)
    requires n < 255
    ensures var s := Crowded(n); IdsOk(s.mapInfo, s.nIdCount) && RandomOk(s.mapInfo, s.vRandom) && Stamped(s)
  {
  }

  lemma CrowdedIndexes(n: nat)
    requires n < 255
    ensures var s := Crowded(n); AddrOk(s.mapInfo, s.mapAddr)
  {
    var s := Crowded(n);
    forall i | 0 <= i <= n ensures Place(i) in s.mapAddr && s.mapAddr[Place(i)] == i {}
  }

  lemma CrowdedConsistent(n: nat)
    requires n <= TRIED_BUCKET_SIZE
    ensures Consistent(OneBucket(), Crowded(n)) && Stamped(Crowded(n))
  {
    hide Crowded, IdsOk, RandomOk, AddrOk, TriedOk, NewOk, CountsOk, Stamped;
    CrowdedIds(n);
    CrowdedIndexes(n);
    CrowdedTried(n);
    CrowdedNew(n);
    CrowdedCounts(n);
  }

  lemma ExchangedStill(bucket: seq<int>, rnd: Draws, k: nat, n: nat)
    requires n < |bucket| && Reach(bucket, rnd, k, n) == 0
    ensures Exchanged(bucket, rnd, k, n + 1) == Exchanged(bucket, rnd, k, n)
  {
  }

  /** Of the four draws only the first moves anything: it swaps the first two entries. */
  lemma FirstTwoSwapped(bucket: seq<int>, rnd: Draws)
    requires |bucket| >= TRIED_ENTRIES_INSPECT_ON_EVICT && rnd == [0, 1]
    ensures Reach(bucket, rnd, 1, 0) == 1
    ensures Exchanged(bucket, rnd, 1, Rounds(bucket)) == bucket[0 := bucket[1]][1 := bucket[0]]
  {
    assert Exchanged(bucket, rnd, 1, 1) == bucket[1 := bucket[0]][0 := bucket[1]];
    ExchangedStill(bucket, rnd, 1, 1);
    ExchangedStill(bucket, rnd, 1, 2);
    ExchangedStill(bucket, rnd, 1, 3);
    hide Exchanged;
  }

  /** A full bucket whose first entry is the most recent: the position returned is
      that entry's, although the oldest of all is inspected. */
  lemma MostRecentSelected(m: map<int, AddrInfo>, n: nat)
    requires n >= TRIED_ENTRIES_INSPECT_ON_EVICT
    requires forall i | 0 <= i < n :: LastSuccess(m, i) == SuccessOf(i)
    ensures var r := InspectFully(m, Upto(n), [0, 1], 1);
      && r.pos == 1 && r.bucket[r.pos] == 0
      && (n < 1000 ==> !Kept(m, Upto(n), [0, 1], 1))
  {
    var bucket, rnd := Upto(n), [0, 1];
    UptoNoDup(n);
    FirstTwoSwapped(bucket, rnd);
    hide Exchanged, NoDup, LastSuccess;
    var xs := Exchanged(bucket, rnd, 1, Rounds(bucket));
    assert MetFirst(m, xs, Rounds(bucket), 0);
    SelectedExactly(m, bucket, rnd, 1, 0);
    var w := Selected(m, bucket, rnd, 1);
    hide InspectFully;
  }

  lemma ZeroReturns(net: Network, u: State, id: int)
    requires Consistent(net, u) && id in u.mapInfo && !u.mapInfo[id].fInTried
    requires u.vvTried[GetTriedBucket(net, u.nKey, u.mapInfo[id].addr.svc)] == Upto(TRIED_BUCKET_SIZE)
    requires forall i | 0 <= i < TRIED_BUCKET_SIZE :: LastSuccess(u.mapInfo, i) == SuccessOf(i)
    ensures TriedIds(MadeTried(net, u, id, 0, [0, 1], 1).mapInfo) == TriedIds(u.mapInfo) - {0} + {id}
  {
    hide Coherent, MadeTried, Exchanged, InspectFully, LastSuccess, TriedOk, TriedIds, NewIds, Upto;
    Parts(net, u, NOBODY);
    var seen, out := EvictShape(net, u, id, 0, [0, 1], 1);
    MostRecentSelected(u.mapInfo, TRIED_BUCKET_SIZE);
    assert out == 0;
    TriedExchanged(u.mapInfo, id, u.mapInfo[id].(nRefCount := 0, fInTried := true),
                   0, u.mapInfo[0].(nRefCount := 1, fInTried := false));
  }

  lemma TriedExchanged(m: map<int, AddrInfo>, id: int, info: AddrInfo, out: int, infoOld: AddrInfo)
    requires info.fInTried && !infoOld.fInTried && id != out
    ensures TriedIds(m[id := info][out := infoOld]) == TriedIds(m) - {out} + {id}
  {
    StatusUpdate(m, id, info);
    StatusUpdate(m[id := info], out, infoOld);
    hide TriedIds, NewIds;
  }

  /** What a good report makes of the record before it is promoted. */
  lemma ReportedFirst(net: Network, s: State, id: int, svc: Service, time: int, rnd: Draws)
    requires Consistent(net, s) && Find(s, svc.net) == Some(id) && s.mapInfo[id].addr.svc == svc
    requires !s.mapInfo[id].fInTried && id in s.vvNew[0] && RandInt(rnd, 0, NEW_BUCKET_COUNT) == 0
    ensures var info := Succeeded(s.mapInfo[id], time);
      var u := s.(mapInfo := s.mapInfo[id := info]);
      Consistent(net, u) && Good(net, s, svc, time, rnd) == MadeTried(net, u, id, 0, rnd, 1)
  {
    var info := Succeeded(s.mapInfo[id], time);
    TouchKeeps(net, s, id, info);
    assert Around(0, 0, NEW_BUCKET_COUNT) == 0;
    assert Origin(s.vvNew, id, 0, 0) == Some(0);
    hide Coherent, MadeTried, Origin;
  }

  lemma CrowdedShape(n: nat)
    requires n <= TRIED_BUCKET_SIZE
    ensures var s := Crowded(n);
      && s.vvTried[0] == Upto(n) && n in s.vvNew[0] && Find(s, Place(n)) == Some(n)
      && (forall i | 0 <= i <= n :: i in s.mapInfo && s.mapInfo[i] == Entry(i, n))
      && (forall x <- s.mapInfo :: 0 <= x <= n)
  {
    CrowdedIndexes(n);
  }

  lemma FirstBucketOnly(key: seq<byte>, svc: Service)
    ensures GetTriedBucket(OneBucket(), key, svc) == 0
  {
  }

  /** The state in which the new record has its report but is not tried yet. */
  lemma CrowdedReported(n: nat, u: State)
    requires n <= TRIED_BUCKET_SIZE
    requires var s := Crowded(n); n in s.mapInfo && u == s.(mapInfo := s.mapInfo[n := Succeeded(s.mapInfo[n], 2000)])
    ensures n in u.mapInfo && !u.mapInfo[n].fInTried && u.vvTried[0] == Upto(n)
    ensures TriedIds(u.mapInfo) == TriedIds(Crowded(n).mapInfo)
    ensures forall i | 0 <= i < n :: LastSuccess(u.mapInfo, i) == SuccessOf(i)
  {
    CrowdedShape(n);
    hide Crowded, Upto, Find;
    var s := Crowded(n);
    StatusUpdate(s.mapInfo, n, u.mapInfo[n]);
    assert TriedIds(s.mapInfo) - {n} == TriedIds(s.mapInfo);
  }

  lemma CrowdedRecent(n: nat)
    requires 0 < n <= TRIED_BUCKET_SIZE
    ensures var m := Crowded(n).mapInfo;
      0 in TriedIds(m) && forall x <- TriedIds(m) :: x != 0 ==> m[x].nLastSuccess < m[0].nLastSuccess
  {
    CrowdedShape(n);
    hide Crowded, Upto, Find;
  }

  /** In a consistent manager with a full tried bucket, a good report on a new
      record returns the most recently successful tried record to the new table. */
  lemma MostRecentEvicted() returns (s: State, t: State)
    ensures s == Crowded(TRIED_BUCKET_SIZE) && Consistent(OneBucket(), s) && Stamped(s)
    ensures t == Good(OneBucket(), s, Service(Place(TRIED_BUCKET_SIZE), 0), 2000, [0, 1])
    ensures 0 in TriedIds(s.mapInfo)
    ensures forall x <- TriedIds(s.mapInfo) :: x != 0 ==> s.mapInfo[x].nLastSuccess < s.mapInfo[0].nLastSuccess
    ensures TriedIds(t.mapInfo) == TriedIds(s.mapInfo) - {0} + {TRIED_BUCKET_SIZE}
  {
    hide Crowded, Coherent, MadeTried, Find, Good, LastSuccess, Stamped, TriedIds, Upto, GetTriedBucket;
    var net, n := OneBucket(), TRIED_BUCKET_SIZE;
    var svc := Service(Place(n), 0);
    CrowdedConsistent(n);
    CrowdedShape(n);
    CrowdedRecent(n);
    s := Crowded(n);
    t := Good(net, s, svc, 2000, [0, 1]);
    ReportedFirst(net, s, n, svc, 2000, [0, 1]);
    var u := s.(mapInfo := s.mapInfo[n := Succeeded(s.mapInfo[n], 2000)]);
    CrowdedReported(n, u);
    FirstBucketOnly(u.nKey, u.mapInfo[n].addr.svc);
    ZeroReturns(net, u, n);
  }
}

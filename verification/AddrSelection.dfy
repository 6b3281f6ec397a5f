/** When the entry a full tried bucket gives up is the least recently successful
    of those inspected. */
module AddrSelection {
  import opened Common
  import opened AddrTypes
  import opened AddrState
  import opened AddrInvariant

  // ----- the shuffle alone ----------------------------------------------------------

  function Rounds(bucket: seq<int>): (n: nat)
    ensures n <= |bucket| && (bucket != [] ==> n > 0)
  {
    if |bucket| < TRIED_ENTRIES_INSPECT_ON_EVICT then |bucket| else TRIED_ENTRIES_INSPECT_ON_EVICT
  }

  /** The draw of one round: how far behind the round's own index it reaches. */
  function Reach(bucket: seq<int>, rnd: Draws, k: nat, i: nat): (d: nat)
    requires i < |bucket|
    ensures i + d < |bucket|
  {
    RandInt(rnd, k + i, |bucket| - i)
  }

  /** What the first `n` exchanges make of the bucket, whatever the records say. */
  function Exchanged(bucket: seq<int>, rnd: Draws, k: nat, n: nat): (r: seq<int>)
    requires n <= |bucket|
    ensures |r| == |bucket|
  {
    if n == 0 then bucket
    else
      var xs := Exchanged(bucket, rnd, k, n - 1);
      var at := n - 1 + Reach(bucket, rnd, k, n - 1);
      xs[at := xs[n - 1]][n - 1 := xs[at]]
  }

  lemma {:induction false} InspectExchanges(m: map<int, AddrInfo>, bucket: seq<int>, rnd: Draws, k: nat, n: nat)
    requires n <= |bucket|
    ensures Inspect(m, bucket, rnd, k, n).bucket == Exchanged(bucket, rnd, k, n)
  {
    hide Inspect, LastSuccess, Exchanged;
    if n == 0 {
      InspectNothing(m, bucket, rnd, k);
      ExchangedNone(bucket, rnd, k);
    } else {
      InspectExchanges(m, bucket, rnd, k, n - 1);
      InspectUnfold(m, bucket, rnd, k, n);
      ExchangedUnfold(bucket, rnd, k, n);
    }
  }

  lemma ExchangedNone(bucket: seq<int>, rnd: Draws, k: nat)
    ensures Exchanged(bucket, rnd, k, 0) == bucket
  {
  }

  lemma ExchangedUnfold(bucket: seq<int>, rnd: Draws, k: nat, n: nat)
    requires 0 < n <= |bucket|
    ensures var xs, at := Exchanged(bucket, rnd, k, n - 1), n - 1 + Reach(bucket, rnd, k, n - 1);
      Exchanged(bucket, rnd, k, n) == xs[at := xs[n - 1]][n - 1 := xs[at]]
  {
  }

  // ----- the promise ------------------------------------------------------------------

  /** No inspected entry is less recently successful than `id`. */
  ghost predicate LeastRecent(m: map<int, AddrInfo>, inspected: seq<int>, id: int) {
    forall x <- inspected :: LastSuccess(m, id) <= LastSuccess(m, x)
  }

  /** The position returned holds a least recently successful entry of those inspected. */
  ghost predicate Kept(m: map<int, AddrInfo>, bucket: seq<int>, rnd: Draws, k: nat)
    requires bucket != []
  {
    var r := InspectFully(m, bucket, rnd, k);
    LeastRecent(m, r.bucket[..Rounds(bucket)], r.bucket[r.pos])
  }

  /** The first round that met a least recently successful entry of those inspected. */
  ghost predicate MetFirst(m: map<int, AddrInfo>, xs: seq<int>, n: nat, w: nat) {
    && w < n <= |xs|
    && (forall j | 0 <= j < n :: LastSuccess(m, xs[w]) <= LastSuccess(m, xs[j]))
    && (forall j | 0 <= j < w :: LastSuccess(m, xs[w]) < LastSuccess(m, xs[j]))
  }

  lemma Selected(m: map<int, AddrInfo>, bucket: seq<int>, rnd: Draws, k: nat) returns (w: nat)
    requires bucket != [] && NoDup(bucket) && -1 !in bucket
    ensures var n, r := Rounds(bucket), InspectFully(m, bucket, rnd, k);
      && r.bucket == Exchanged(bucket, rnd, k, n) && MetFirst(m, r.bucket, n, w)
      && r.pos == w + Reach(bucket, rnd, k, w)
  {
    var n := Rounds(bucket);
    InspectMeaning(m, bucket, rnd, k, n);
    InspectExchanges(m, bucket, rnd, k, n);
    w := Inspect(m, bucket, rnd, k, n).round;
    hide Inspect, Exchanged, LastSuccess;
  }

  /** The promise is kept exactly when the draw of the round that first met a least
      recently successful entry left it in place, or the entry it reached is as old. */
  lemma SelectedExactly(m: map<int, AddrInfo>, bucket: seq<int>, rnd: Draws, k: nat, w: nat)
    requires bucket != [] && NoDup(bucket) && -1 !in bucket
    requires MetFirst(m, Exchanged(bucket, rnd, k, Rounds(bucket)), Rounds(bucket), w)
    ensures var xs, d := Exchanged(bucket, rnd, k, Rounds(bucket)), Reach(bucket, rnd, k, w);
      && InspectFully(m, bucket, rnd, k).pos == w + d
      && (Kept(m, bucket, rnd, k) <==> d == 0 || LastSuccess(m, xs[w + d]) <= LastSuccess(m, xs[w]))
  {
    hide Exchanged, LastSuccess, InspectFully, NoDup;
    var w' := Selected(m, bucket, rnd, k);
    var n, r := Rounds(bucket), InspectFully(m, bucket, rnd, k);
    assert w' == w;
    assert r.bucket[..n][w] == r.bucket[w];
    forall x | x in r.bucket[..n] ensures LastSuccess(m, r.bucket[w]) <= LastSuccess(m, x) {}
  }

  // ----- every history ------------------------------------------------------------------

  /** Every entry of the bucket is a tried record with sound time stamps. */
  ghost predicate TriedRecords(m: map<int, AddrInfo>, bucket: seq<int>) {
    forall id <- bucket :: id in m && m[id].fInTried && InfoStamped(m[id])
  }

  function RecordOf(n: NetAddr, success: int, tried: bool): AddrInfo {
    NewInfo(Address(Service(n, 0), {}, 0, 0), n).(nLastSuccess := success, fInTried := tried)
  }

  /** Records of which one alone is older than the rest. */
  function OneOlder(bucket: seq<int>, oldest: int): map<int, AddrInfo> {
    map id | id in bucket :: RecordOf(NetAddr([]), if id == oldest then 1 else 2, true)
  }

  /** Whatever the records say, the promise is kept: exactly when no draw of the
      inspection moves anything. */
  lemma SelectedIsOldest(bucket: seq<int>, rnd: Draws, k: nat)
    requires bucket != [] && NoDup(bucket) && -1 !in bucket
    ensures (forall m | TriedRecords(m, bucket) :: Kept(m, bucket, rnd, k))
      <==> (forall i | 0 <= i < Rounds(bucket) :: Reach(bucket, rnd, k, i) == 0)
    ensures Rounds(bucket) == if |bucket| < 4 then |bucket| else 4
  {
    hide Exchanged, NoDup, Kept, TriedRecords, Reach;
    if forall i | 0 <= i < Rounds(bucket) :: Reach(bucket, rnd, k, i) == 0 {
      forall m | TriedRecords(m, bucket) ensures Kept(m, bucket, rnd, k) {
        var w := Selected(m, bucket, rnd, k);
        SelectedExactly(m, bucket, rnd, k, w);
      }
    } else {
      var i :| 0 <= i < Rounds(bucket) && Reach(bucket, rnd, k, i) != 0;
      MovedFails(bucket, rnd, k, i);
    }
  }

  /** A round that moves an entry, when that entry is the only old one. */
  lemma MovedFails(bucket: seq<int>, rnd: Draws, k: nat, i: nat)
    requires NoDup(bucket) && -1 !in bucket && i < Rounds(bucket) && Reach(bucket, rnd, k, i) != 0
    ensures var m := OneOlder(bucket, Exchanged(bucket, rnd, k, Rounds(bucket))[i]);
      TriedRecords(m, bucket) && !Kept(m, bucket, rnd, k)
  {
    hide Exchanged, Kept, InspectFully;
    var n := Rounds(bucket);
    var xs := Exchanged(bucket, rnd, k, n);
    var m := OneOlder(bucket, xs[i]);
    ExchangedElements(bucket, rnd, k, n);
    forall j | 0 <= j < |xs| ensures LastSuccess(m, xs[j]) == if j == i then 1 else 2 {
      assert xs[j] in xs;
    }
    hide NoDup, LastSuccess;
    SelectedExactly(m, bucket, rnd, k, i);
  }

  lemma {:induction false} ExchangedElements(bucket: seq<int>, rnd: Draws, k: nat, n: nat)
    requires n <= |bucket| && NoDup(bucket)
    ensures NoDup(Exchanged(bucket, rnd, k, n))
    ensures forall x :: x in Exchanged(bucket, rnd, k, n) <==> x in bucket
  {
    if n > 0 {
      ExchangedElements(bucket, rnd, k, n - 1);
      var xs, at := Exchanged(bucket, rnd, k, n - 1), n - 1 + Reach(bucket, rnd, k, n - 1);
      ExchangeElements(xs, at, n - 1);
      var ys := Exchanged(bucket, rnd, k, n);
      assert ys == xs[at := xs[n - 1]][n - 1 := xs[at]];
      forall x ensures x in ys <==> x in xs {
        assert x in Elements(ys) <==> x in ys;
        assert x in Elements(xs) <==> x in xs;
      }
    }
  }
}

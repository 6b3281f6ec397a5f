/** The on-disk form of the address manager: what is written, what is dropped,
    and what a reader rebuilds from it. */
module AddrDisk {
  import opened Common
  import opened AddrTypes
  import opened AddrState
  import opened AddrInvariant
  import opened AddrManager

  /** The fields of a record that reach the disk. */
  datatype DiskInfo = DiskInfo(
    svc: Service, nServices: set<nat>, nTime: int, source: NetAddr, nLastSuccess: int, nAttempts: int)

  /** The primitive values of the stream. */
  datatype Token = Num(value: int) | Key(bytes: seq<byte>) | Record(info: DiskInfo)

  function Save(info: AddrInfo): DiskInfo {
    DiskInfo(info.addr.svc, info.addr.nServices, info.addr.nTime, info.source, info.nLastSuccess, info.nAttempts)
  }

  function Load(d: DiskInfo): AddrInfo {
    NewInfo(Address(d.svc, d.nServices, d.nTime, 0), d.source)
      .(nLastSuccess := d.nLastSuccess, nAttempts := d.nAttempts)
  }

  /** Which records a pass over `mapInfo` writes: those with references, or the tried ones. */
  predicate Selects(info: AddrInfo, tried: bool) {
    if tried then info.fInTried else info.nRefCount != 0
  }

  function Chosen(m: map<int, AddrInfo>, ids: seq<int>, tried: bool): seq<int> {
    if ids == [] then []
    else
      var id := ids[|ids| - 1];
      Chosen(m, ids[..|ids| - 1], tried) + if id in m && Selects(m[id], tried) then [id] else []
  }

  /** The ids in the order their records are written. */
  function NewOrder(s: State): seq<int> { Chosen(s.mapInfo, InOrder(s.mapInfo.Keys), false) }

  function TriedOrder(s: State): seq<int> { Chosen(s.mapInfo, InOrder(s.mapInfo.Keys), true) }

  /** The renaming a round trip brings about: `Order(s)[i]` becomes `i`. */
  function Order(s: State): seq<int> { NewOrder(s) + TriedOrder(s) }

  /** The position of an id in a list. */
  function Rank(xs: seq<int>, id: int): (r: nat)
    ensures id in xs ==> r < |xs| && xs[r] == id
  {
    if xs == [] || xs[0] == id then 0 else 1 + Rank(xs[1..], id)
  }

  function Records(m: map<int, AddrInfo>, ids: seq<int>): (r: seq<Token>)
    ensures |r| == |ids|
  {
    seq(|ids|, i requires 0 <= i < |ids| =>
      if ids[i] in m then Record(Save(m[ids[i]])) else Num(0))
  }

  function Indices(order: seq<int>, ids: seq<int>): (r: seq<Token>)
    ensures |r| == |ids|
  {
    seq(|ids|, i requires 0 <= i < |ids| => Num(Rank(order, ids[i])))
  }

  /** Each bucket is its size and then the written position of each entry. */
  function BucketTokens(order: seq<int>, vv: seq<set<int>>): seq<Token> {
    if vv == [] then []
    else
      BucketTokens(order, vv[..|vv| - 1]) + Chunk(order, vv[|vv| - 1])
  }

  function Chunk(order: seq<int>, bucket: set<int>): (r: seq<Token>)
    ensures |r| == |bucket| + 1
  {
    [Num(|bucket|)] + Indices(order, InOrder(bucket))
  }

  function Header(s: State): seq<Token> {
    [Num(0), Key(s.nKey), Num(s.nNew), Num(s.nTried), Num(NEW_BUCKET_COUNT)]
  }

  function Stream(s: State): seq<Token> {
    Header(s) + Records(s.mapInfo, NewOrder(s)) + Records(s.mapInfo, TriedOrder(s))
    + BucketTokens(NewOrder(s), s.vvNew)
  }

  // ----- the order of writing ---------------------------------------------------

  lemma {:induction false} ChosenMeaning(m: map<int, AddrInfo>, ids: seq<int>, tried: bool)
    requires Ascending(ids) && forall id <- ids :: id in m
    ensures Ascending(Chosen(m, ids, tried))
    ensures forall id :: id in Chosen(m, ids, tried) <==> id in ids && Selects(m[id], tried)
  {
    if ids != [] {
      var last := |ids| - 1;
      ChosenMeaning(m, ids[..last], tried);
      assert ids == ids[..last] + [ids[last]];
      var front := Chosen(m, ids[..last], tried);
      forall i | 0 <= i < |front| ensures front[i] < ids[last] {
        assert front[i] in front && front[i] in ids[..last];
      }
    }
  }

  lemma AscendingNoDup(xs: seq<int>)
    requires Ascending(xs)
    ensures NoDup(xs)
  {
  }

  lemma OrderMembers(s: State)
    requires NewOk(s.mapInfo, s.vvNew, NOBODY)
    ensures forall id :: id in NewOrder(s) <==> id in NewIds(s.mapInfo)
    ensures forall id :: id in TriedOrder(s) <==> id in TriedIds(s.mapInfo)
    ensures NoDup(NewOrder(s)) && NoDup(TriedOrder(s))
  {
    var m, ids := s.mapInfo, InOrder(s.mapInfo.Keys);
    forall id ensures id in ids <==> id in m { assert id in Elements(ids) <==> id in m.Keys; }
    hide Chosen, InOrder, Occurrences;
    ChosenMeaning(m, ids, false);
    ChosenMeaning(m, ids, true);
    AscendingNoDup(NewOrder(s));
    AscendingNoDup(TriedOrder(s));
  }

  lemma OrderMeaning(net: Network, s: State)
    requires Consistent(net, s)
    ensures NoDup(Order(s)) && (forall id :: id in Order(s) <==> id in s.mapInfo)
    ensures forall id :: id in NewOrder(s) <==> id in NewIds(s.mapInfo)
    ensures forall id :: id in TriedOrder(s) <==> id in TriedIds(s.mapInfo)
    ensures |NewOrder(s)| == s.nNew && |TriedOrder(s)| == s.nTried
  {
    OrderMembers(s);
    hide NewOrder, TriedOrder, NoDup, RandomOk, AddrOk, IdsOk, TriedOk, NewOk;
    ElementsSize(NewOrder(s));
    ElementsSize(TriedOrder(s));
    SameElements(NewOrder(s), NewIds(s.mapInfo));
    SameElements(TriedOrder(s), TriedIds(s.mapInfo));
    JoinNoDup(NewOrder(s), TriedOrder(s));
  }

  lemma JoinNoDup(xs: seq<int>, ys: seq<int>)
    requires NoDup(xs) && NoDup(ys) && forall x <- xs :: x !in ys
    ensures NoDup(xs + ys)
  {
    forall i, j | 0 <= i < j < |xs + ys| ensures (xs + ys)[i] != (xs + ys)[j] {
      if i < |xs| <= j { assert xs[i] in xs && ys[j - |xs|] in ys; }
    }
  }

  lemma {:induction false} ChosenPrefix(m: map<int, AddrInfo>, ids: seq<int>, n: nat, tried: bool)
    requires n <= |ids|
    ensures Chosen(m, ids[..n], tried) <= Chosen(m, ids, tried)
  {
    if n == |ids| {
      assert ids[..n] == ids;
    } else {
      assert ids[..|ids| - 1][..n] == ids[..n];
      ChosenPrefix(m, ids[..|ids| - 1], n, tried);
    }
  }

  lemma ChosenNext(m: map<int, AddrInfo>, ids: seq<int>, n: nat, tried: bool)
    requires n < |ids| && ids[n] in m
    ensures Chosen(m, ids[..n + 1], tried)
         == Chosen(m, ids[..n], tried) + if Selects(m[ids[n]], tried) then [ids[n]] else []
  {
    assert ids[..n + 1][..n] == ids[..n];
  }

  // ----- writing ------------------------------------------------------------------

  /** The positions at which records were written. */
  ghost predicate Positions(mapUnkIds: map<int, int>, order: seq<int>) {
    forall i | 0 <= i < |order| :: order[i] in mapUnkIds && mapUnkIds[order[i]] == i
  }

  lemma PositionsNext(mapUnkIds: map<int, int>, order: seq<int>, id: int, selected: bool)
    requires Positions(mapUnkIds, order) && id !in order
    ensures Positions(mapUnkIds[id := |order|], order + if selected then [id] else [])
  {
    forall i | 0 <= i < |order| ensures order[i] != id { assert order[i] in order; }
  }

  /** One record further in a pass. */
  lemma PassStep(m: map<int, AddrInfo>, ids: seq<int>, n: nat, tried: bool)
    requires n < |ids| && ids[n] in m
    ensures Records(m, Chosen(m, ids[..n + 1], tried))
         == Records(m, Chosen(m, ids[..n], tried)) + if Selects(m[ids[n]], tried) then [Record(Save(m[ids[n]]))] else []
    ensures |Chosen(m, ids[..n + 1], tried)|
         == |Chosen(m, ids[..n], tried)| + if Selects(m[ids[n]], tried) then 1 else 0
  {
    ChosenNext(m, ids, n, tried);
    hide Chosen;
    var xs, id := Chosen(m, ids[..n], tried), ids[n];
    if Selects(m[id], tried) {
      assert Records(m, xs + [id]) == Records(m, xs) + [Record(Save(m[id]))];
    } else {
      assert xs + [] == xs;
    }
  }

  /** A pass may stop as soon as it has met as many records as there are. */
  lemma PassDone(m: map<int, AddrInfo>, ids: seq<int>, n: nat, tried: bool)
    requires n <= |ids| && (n == |ids| || |Chosen(m, ids[..n], tried)| == |Chosen(m, ids, tried)|)
    ensures Chosen(m, ids[..n], tried) == Chosen(m, ids, tried)
  {
    ChosenPrefix(m, ids, n, tried);
    hide Chosen;
    if n == |ids| { assert ids[..n] == ids; }
  }

  /** The first pass: the records with references, and the position of each. */
  method WriteNew(am: AddrMan, ids: seq<int>) returns (stream: seq<Token>, mapUnkIds: map<int, int>)
    requires ids == InOrder(am.mapInfo.Keys) && am.nNew == |NewOrder(am.View())|
    ensures stream == Records(am.mapInfo, NewOrder(am.View()))
    ensures Positions(mapUnkIds, NewOrder(am.View()))
  {
    var m := am.mapInfo;
    forall id ensures id in ids <==> id in m { assert id in Elements(ids) <==> id in m.Keys; }
    stream, mapUnkIds := [], map[];
    assert ids[..0] == [];
    var nIds, i := 0, 0;
    while i < |ids|
      invariant i <= |ids| && nIds == |Chosen(m, ids[..i], false)|
      invariant stream == Records(m, Chosen(m, ids[..i], false))
      invariant Positions(mapUnkIds, Chosen(m, ids[..i], false))
    {
      hide Chosen, Records, Positions, InOrder;
      if nIds == am.nNew { break; }
      var id := ids[i];
      assert id in ids && id !in ids[..i];
      PassStep(m, ids, i, false);
      ChosenNext(m, ids, i, false);
      ChosenMember(m, ids[..i], false, id);
      PositionsNext(mapUnkIds, Chosen(m, ids[..i], false), id, Selects(m[id], false));
      mapUnkIds := mapUnkIds[id := nIds];
      if m[id].nRefCount != 0 {
        stream := stream + [Record(Save(m[id]))];
        nIds := nIds + 1;
      }
      i := i + 1;
    }
    PassDone(m, ids, i, false);
  }

  lemma {:induction false} ChosenMember(m: map<int, AddrInfo>, ids: seq<int>, tried: bool, id: int)
    requires id !in ids
    ensures id !in Chosen(m, ids, tried)
  {
    if ids != [] { ChosenMember(m, ids[..|ids| - 1], tried, id); }
  }

  /** The second pass: the tried records. */
  method WriteTried(am: AddrMan, ids: seq<int>) returns (stream: seq<Token>)
    requires ids == InOrder(am.mapInfo.Keys) && am.nTried == |TriedOrder(am.View())|
    ensures stream == Records(am.mapInfo, TriedOrder(am.View()))
  {
    var m := am.mapInfo;
    forall id ensures id in ids <==> id in m { assert id in Elements(ids) <==> id in m.Keys; }
    stream := [];
    assert ids[..0] == [];
    var nIds, i := 0, 0;
    while i < |ids|
      invariant i <= |ids| && nIds == |Chosen(m, ids[..i], true)|
      invariant stream == Records(m, Chosen(m, ids[..i], true))
    {
      hide Chosen, Records, InOrder;
      if nIds == am.nTried { break; }
      var id := ids[i];
      assert id in ids;
      PassStep(m, ids, i, true);
      if m[id].fInTried {
        stream := stream + [Record(Save(m[id]))];
        nIds := nIds + 1;
      }
      i := i + 1;
    }
    PassDone(m, ids, i, true);
  }

  /** The third pass: the new buckets, by written positions. */
  method WriteBuckets(am: AddrMan, mapUnkIds: map<int, int>) returns (stream: seq<Token>)
    requires Positions(mapUnkIds, NewOrder(am.View())) && NoDup(NewOrder(am.View()))
    requires forall b | 0 <= b < |am.vvNew| :: forall id <- am.vvNew[b] :: id in NewOrder(am.View())
    ensures stream == BucketTokens(NewOrder(am.View()), am.vvNew)
  {
    ghost var order := NewOrder(am.View());
    hide NewOrder, Positions, Chunk;
    stream := [];
    for b := 0 to |am.vvNew|
      invariant stream == BucketTokens(order, am.vvNew[..b])
    {
      var chunk := WriteBucket(am.vvNew[b], mapUnkIds, order);
      assert am.vvNew[..b + 1][..b] == am.vvNew[..b];
      stream := stream + chunk;
    }
    assert am.vvNew[..|am.vvNew|] == am.vvNew;
  }

  lemma PositionIsRank(mapUnkIds: map<int, int>, order: seq<int>, id: int)
    requires Positions(mapUnkIds, order) && NoDup(order) && id in order
    ensures id in mapUnkIds && mapUnkIds[id] == Rank(order, id)
  {
    var i := Rank(order, id);
    assert order[i] == id;
  }

  lemma IndicesNone(order: seq<int>, ids: seq<int>)
    ensures Indices(order, ids[..0]) == []
  {
  }

  lemma IndicesNext(order: seq<int>, ids: seq<int>, j: nat)
    requires j < |ids|
    ensures Indices(order, ids[..j + 1]) == Indices(order, ids[..j]) + [Num(Rank(order, ids[j]))]
  {
    hide Rank;
    assert ids[..j + 1] == ids[..j] + [ids[j]];
  }

  method WriteBucket(vNew: set<int>, mapUnkIds: map<int, int>, ghost order: seq<int>) returns (stream: seq<Token>)
    requires Positions(mapUnkIds, order) && NoDup(order) && forall id <- vNew :: id in order
    ensures stream == Chunk(order, vNew)
  {
    hide Rank, NoDup, Indices;
    var ids := InOrder(vNew);
    stream := [Num(|vNew|)];
    IndicesNone(order, ids);
    for j := 0 to |ids|
      invariant stream == [Num(|vNew|)] + Indices(order, ids[..j])
    {
      var id := ids[j];
      assert id in Elements(ids) && id in order;
      PositionIsRank(mapUnkIds, order, id);
      IndicesNext(order, ids, j);
      stream := stream + [Num(mapUnkIds[id])];
    }
    assert ids[..|ids|] == ids;
  }

  method Serialize(am: AddrMan) returns (stream: seq<Token>)
    requires am.Valid()
    ensures stream == Stream(am.View())
  {
    ghost var s := am.View();
    OrderMeaning(am.net, s);
    NewBucketsOrdered(am.net, s);
    stream := [Num(0), Key(am.nKey), Num(am.nNew), Num(am.nTried), Num(NEW_BUCKET_COUNT)];
    var ids := InOrder(am.mapInfo.Keys);
    hide Coherent, Records, Chosen, BucketTokens, Positions;
    var news, mapUnkIds := WriteNew(am, ids);
    var trieds := WriteTried(am, ids);
    var buckets := WriteBuckets(am, mapUnkIds);
    stream := stream + news + trieds + buckets;
  }

  lemma NewBucketsOrdered(net: Network, s: State)
    requires Consistent(net, s)
    ensures NoDup(NewOrder(s))
    ensures forall b | 0 <= b < |s.vvNew| :: forall id <- s.vvNew[b] :: id in NewOrder(s)
  {
    OrderMeaning(net, s);
    var xs := NewOrder(s);
    forall i, j | 0 <= i < j < |xs| ensures xs[i] != xs[j] { assert Order(s)[i] != Order(s)[j]; }
    forall b | 0 <= b < |s.vvNew| ensures forall id <- s.vvNew[b] :: id in NewOrder(s) {
      forall id | id in s.vvNew[b] ensures id in NewOrder(s) { OccurrencesPositive(s.vvNew, id, b); }
    }
  }
}

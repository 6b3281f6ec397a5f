/** Whole runs of the address manager, from its construction on. */
module AddrRuns {
  import opened Common
  import opened AddrTypes
  import opened AddrState
  import opened AddrInvariant
  import opened AddrTheorems

  datatype Operation =
    | AddOne(addr: Address, source: NetAddr, penalty: int)
    | MarkGood(svc: Service)
    | MarkAttempt(svc: Service)
    | MarkConnected(svc: Service)
    | GetAddr

  /** One public call: what is asked, at what time, and with what random answers. */
  datatype Call = Call(op: Operation, time: int, rnd: Draws)

  function Step(net: Network, s: State, c: Call): (t: State)
    requires Consistent(net, s)
    ensures Consistent(net, t)
  {
    match c.op
    case AddOne(addr, source, penalty) =>
      AddKeeps(net, s, addr, source, penalty, c.time, c.rnd);
      Add(net, s, addr, source, penalty, c.time, c.rnd).0
    case MarkGood(svc) => GoodKeeps(net, s, svc, c.time, c.rnd); Good(net, s, svc, c.time, c.rnd)
    case MarkAttempt(svc) => AttemptKeeps(net, s, svc, c.time); Attempt(s, svc, c.time)
    case MarkConnected(svc) => ConnectedKeeps(net, s, svc, c.time); Connected(s, svc, c.time)
    case GetAddr =>
      ShuffleKeeps(net, s, GetAddrCount(|s.vRandom|), c.rnd);
      Shuffled(s, GetAddrCount(|s.vRandom|), c.rnd)
  }

  lemma EmptyConsistent(net: Network, key: seq<byte>)
    ensures Consistent(net, Empty(key)) && Stamped(Empty(key))
    ensures var s := Empty(key); s.mapInfo == map[] && s.nIdCount == 0 && s.nKey == key
  {
  }

  /** Every finite run, with any random answers, ends in a consistent state. */
  function Run(net: Network, key: seq<byte>, calls: seq<Call>): (t: State)
    ensures Consistent(net, t)
  {
    EmptyConsistent(net, key);
    if calls == [] then Empty(key)
    else Step(net, Run(net, key, calls[..|calls| - 1]), calls[|calls| - 1])
  }

  // ----- time stamps -----------------------------------------------------------

  /** The times at which reports make sense: a success at a positive one, an
      attempt at a non-negative one. */
  predicate Timely(c: Call) {
    && (c.op.MarkGood? ==> c.time > 0)
    && (c.op.MarkAttempt? ==> c.time >= 0)
  }

  lemma SameRecordsStamped(s: State, t: State)
    requires Stamped(s) && SameRecords(s.mapInfo, t.mapInfo)
    ensures Stamped(t)
  {
  }

  lemma AddStamped(net: Network, s: State, addr: Address, source: NetAddr, penalty: int, now: int, rnd: Draws)
    requires Consistent(net, s) && Stamped(s)
    ensures Stamped(Add(net, s, addr, source, penalty, now, rnd).0)
  {
    FindExact(net, s, addr.svc.net);
    if net.routable(addr.svc.net) {
      match Find(s, addr.svc.net)
      case Some(id) =>
        var info := Refreshed(s.mapInfo[id], addr, penalty, now);
        var u := s.(mapInfo := s.mapInfo[id := info]);
        TouchedRandom(s.mapInfo, s.vRandom, id, info);
        var b := GetNewBucket(net, s.nKey, info.addr.svc, source);
        FiledRecords(net, u, id, b, now, rnd, 1);
        SameRecordsStamped(u, Filed(net, u, id, b, now, rnd, 1));
      case None =>
        var u := Discovered(s, addr, source, penalty);
        var b := GetNewBucket(net, s.nKey, addr.svc, source);
        DiscoveredRandom(s, addr, source, penalty);
        FiledRecords(net, u, s.nIdCount, b, now, rnd, 1);
        SameRecordsStamped(u, Filed(net, u, s.nIdCount, b, now, rnd, 1));
    }
  }

  lemma MadeTriedStamped(net: Network, s: State, id: int, origin: nat, rnd: Draws, k: nat)
    requires Consistent(net, s) && Stamped(s) && origin < |s.vvNew|
    requires id in s.mapInfo && !s.mapInfo[id].fInTried && s.mapInfo[id].nLastSuccess != 0
    ensures Stamped(MadeTried(net, s, id, origin, rnd, k))
  {
    MadeTriedRecord(net, s, id, origin, rnd, k);
    hide MadeTried, Coherent;
  }

  lemma GoodStamped(net: Network, s: State, svc: Service, time: int, rnd: Draws)
    requires Consistent(net, s) && Stamped(s) && time > 0
    ensures Stamped(Good(net, s, svc, time, rnd))
  {
    hide Coherent, MadeTried, Origin;
    if Matches(s, svc) {
      var id := Find(s, svc.net).value;
      var info := Succeeded(s.mapInfo[id], time);
      var u := s.(mapInfo := s.mapInfo[id := info]);
      TouchKeeps(net, s, id, info);
      if !info.fInTried {
        var start := RandInt(rnd, 0, NEW_BUCKET_COUNT);
        OriginFound(net, u, id, start);
        MadeTriedStamped(net, u, id, Origin(u.vvNew, id, start, 0).value, rnd, 1);
      }
    }
  }

  lemma StepStamped(net: Network, s: State, c: Call)
    requires Consistent(net, s) && Stamped(s) && Timely(c)
    ensures Stamped(Step(net, s, c))
  {
    hide Coherent, Add, Good, Shuffled, Attempt, Connected, Stamped;
    match c.op
    case AddOne(addr, source, penalty) => AddStamped(net, s, addr, source, penalty, c.time, c.rnd);
    case MarkGood(svc) => GoodStamped(net, s, svc, c.time, c.rnd);
    case MarkAttempt(svc) => AttemptStamped(s, svc, c.time);
    case MarkConnected(svc) => ConnectedStamped(s, svc, c.time);
    case GetAddr => ShuffleStamped(net, s, c.rnd);
  }

  lemma AttemptStamped(s: State, svc: Service, time: int)
    requires Stamped(s) && time >= 0
    ensures Stamped(Attempt(s, svc, time))
  {
  }

  lemma ConnectedStamped(s: State, svc: Service, time: int)
    requires Stamped(s)
    ensures Stamped(Connected(s, svc, time))
  {
  }

  lemma ShuffleStamped(net: Network, s: State, rnd: Draws)
    requires Consistent(net, s) && Stamped(s)
    ensures RandomOk(s.mapInfo, s.vRandom) && Stamped(Shuffled(s, GetAddrCount(|s.vRandom|), rnd))
  {
    hide Coherent, Shuffled, Stamped, Alike, RandomOk;
    Parts(net, s, NOBODY);
    ShuffleKeeps(net, s, GetAddrCount(|s.vRandom|), rnd);
    SameRecordsStamped(s, Shuffled(s, GetAddrCount(|s.vRandom|), rnd));
  }

  lemma {:induction false} RunStamped(net: Network, key: seq<byte>, calls: seq<Call>)
    requires forall c <- calls :: Timely(c)
    ensures Stamped(Run(net, key, calls))
  {
    if calls == [] {
      EmptyConsistent(net, key);
    } else {
      var init := calls[..|calls| - 1];
      RunStamped(net, key, init);
      assert calls[|calls| - 1] in calls;
      StepStamped(net, Run(net, key, init), calls[|calls| - 1]);
    }
  }

  /** No run ever outgrows the design limits. */
  lemma RunBounded(net: Network, key: seq<byte>, calls: seq<Call>)
    ensures |Run(net, key, calls).vRandom| <= 64 * 64 + 256 * 64
  {
    SizeBound(net, Run(net, key, calls));
  }
}

/** The table of signed alerts, in which an alert can cancel earlier ones and be
    refused because of them. Whether a signature is good, and the adjusted time of
    a call, are taken as given. */
module Alerts {
  import opened Common

  const MAX_INT: Int32 := 0x7fff_ffff
  const URGENT := "URGENT: Alert key compromised, upgrade required"

  type Int32 = n: int | -0x8000_0000 <= n < 0x8000_0000

  /** An alert as decoded from its signed message, with the hash of that. */
  datatype Alert = Alert(
    hash: int, nExpiration: int, nID: Int32, nCancel: Int32, setCancel: set<Int32>,
    nMinVer: Int32, nMaxVer: Int32, setSubVer: set<string>, nPriority: Int32, strStatusBar: string)

  type Table = map<int, Alert>

  predicate InEffect(a: Alert, now: int) { now < a.nExpiration }

  /** `a` names the identity of `b` as cancelled, expired or not. */
  predicate Names(a: Alert, nID: Int32) { nID <= a.nCancel || nID in a.setCancel }

  predicate Cancels(a: Alert, b: Alert, now: int) { InEffect(a, now) && Names(a, b.nID) }

  /** The one form an alert with the greatest identity may have. */
  predicate Reserved(a: Alert) {
    && a.nExpiration == MAX_INT && a.nCancel == MAX_INT - 1
    && a.nMinVer == 0 && a.nMaxVer == MAX_INT && a.setSubVer == {}
    && a.nPriority == MAX_INT && a.strStatusBar == URGENT
  }

  /** Whether an alert gets as far as the table. */
  predicate Effective(a: Alert, signed: bool, now: int) {
    signed && InEffect(a, now) && (a.nID == MAX_INT ==> Reserved(a))
  }

  predicate Stays(a: Alert, b: Alert, now: int) { !Cancels(a, b, now) && InEffect(b, now) }

  /** What is left of the table once `a` has cancelled what it cancels and what
      expired is gone. */
  ghost function Kept(t: Table, a: Alert, now: int): Table {
    map h | h in t && Stays(a, t[h], now) :: t[h]
  }

  /** The same when only the entries in `seen` have been looked at. */
  ghost function KeptFrom(t: Table, a: Alert, now: int, seen: set<int>): Table {
    map h | h in t && (h in seen ==> Stays(a, t[h], now)) :: t[h]
  }

  lemma KeptNone(t: Table, a: Alert, now: int)
    ensures KeptFrom(t, a, now, Elements([])) == t
  {
  }

  lemma KeptAll(t: Table, a: Alert, now: int)
    ensures KeptFrom(t, a, now, t.Keys) == Kept(t, a, now)
  {
    hide Stays;
  }

  lemma KeptStep(t: Table, a: Alert, now: int, order: seq<int>, i: nat)
    requires i < |order| && Ascending(order) && Elements(order) == t.Keys
    ensures var h := order[i]; var kept := KeptFrom(t, a, now, Elements(order[..i]));
      && h in kept && kept[h] == t[h]
      && KeptFrom(t, a, now, Elements(order[..i + 1])) ==
        if !Cancels(a, t[h], now) && InEffect(t[h], now) then kept else kept - {h}
  {
    hide Cancels, InEffect;
    var h := order[i];
    assert h in Elements(order) && h !in order[..i];
    assert order[..i + 1] == order[..i] + [h];
    AppendElements(order[..i], h);
  }

  ghost predicate Refused(t: Table, a: Alert, now: int) {
    exists h :: h in t && Cancels(t[h], a, now)
  }

  /** The verdict on an alert. */
  ghost predicate Accepted(t: Table, a: Alert, signed: bool, now: int) {
    Effective(a, signed, now) && !Refused(Kept(t, a, now), a, now)
  }

  /** The table after an alert; a hash that is there keeps its entry. */
  ghost function Processed(t: Table, a: Alert, signed: bool, now: int): Table {
    if !Effective(a, signed, now) then t
    else
      var kept := Kept(t, a, now);
      if Refused(kept, a, now) || a.hash in kept then kept else kept[a.hash := a]
  }

  // ----- one call, spelled out ------------------------------------------------------------

  /** Whether an alert gets to the table: signed, in effect, and in the one form that
      is reserved for the identity 2^31 - 1, if it has that. */
  predicate Reaches(a: Alert, signed: bool, now: int) {
    && signed && now < a.nExpiration
    && (a.nID == 0x7fff_ffff ==>
          && a.nExpiration == 0x7fff_ffff && a.nCancel == 0x7fff_fffe
          && a.nMinVer == 0 && a.nMaxVer == 0x7fff_ffff && a.setSubVer == {}
          && a.nPriority == 0x7fff_ffff && a.strStatusBar == "URGENT: Alert key compromised, upgrade required")
  }

  /** A stored alert not expired and not named by another. */
  predicate Outlives(b: Alert, a: Alert, now: int) {
    now < b.nExpiration && b.nID > a.nCancel && b.nID !in a.setCancel
  }

  /** The table `t'` and the verdict after an alert comes to the table `t`. */
  ghost predicate Outcome(t: Table, t': Table, a: Alert, signed: bool, now: int, accepted: bool) {
    if !Reaches(a, signed, now) then t' == t && !accepted
    else
      && (accepted <==>
            forall h :: h in t && Outlives(t[h], a, now) ==> a.nID > t[h].nCancel && a.nID !in t[h].setCancel)
      && (forall h :: h in t' <==> (h in t && Outlives(t[h], a, now)) || (h == a.hash && accepted))
      && (forall h :: h in t' ==> t'[h] == if h in t && Outlives(t[h], a, now) then t[h] else a)
  }

  lemma ProcessedExactly(t: Table, a: Alert, signed: bool, now: int)
    ensures Outcome(t, Processed(t, a, signed, now), a, signed, now, Accepted(t, a, signed, now))
  {
    var kept := Kept(t, a, now);
    assert Effective(a, signed, now) <==> Reaches(a, signed, now);
    if Effective(a, signed, now) {
      forall h | h in t ensures h in kept <==> Outlives(t[h], a, now) {
        assert Stays(a, t[h], now) <==> Outlives(t[h], a, now);
      }
    }
    hide Reaches, Effective;
  }

  // ----- what every table satisfies ------------------------------------------------------

  /** No two alerts stored name one another, even ignoring expiry, and one with the
      greatest identity has the reserved form. */
  ghost predicate Peaceful(t: Table) {
    && (forall g, h :: g in t && h in t && g != h ==> !Names(t[g], t[h].nID))
    && (forall h :: h in t && t[h].nID == MAX_INT ==> Reserved(t[h]))
  }

  lemma ProcessedPeaceful(t: Table, a: Alert, signed: bool, now: int)
    requires Peaceful(t)
    ensures Peaceful(Processed(t, a, signed, now))
  {
    hide Reserved, InEffect, Names;
  }

  /** An entry survives a call exactly when the alert does not get to the table, or
      does not name it and it has not expired. */
  lemma Survives(t: Table, a: Alert, signed: bool, now: int, h: int)
    requires h in t && h != a.hash
    ensures h in Processed(t, a, signed, now) <==>
      !Effective(a, signed, now) || (!Names(a, t[h].nID) && InEffect(t[h], now))
    ensures h in Processed(t, a, signed, now) ==> Processed(t, a, signed, now)[h] == t[h]
  {
  }

  /** Whatever gets to the table leaves only alerts in effect in it, and an alert
      accepted with a hash not stored before is there. */
  lemma ProcessedInEffect(t: Table, a: Alert, signed: bool, now: int)
    requires Effective(a, signed, now)
    ensures forall h :: h in Processed(t, a, signed, now) ==> InEffect(Processed(t, a, signed, now)[h], now)
    ensures Accepted(t, a, signed, now) && a.hash !in t ==>
      a.hash in Processed(t, a, signed, now) && Processed(t, a, signed, now)[a.hash] == a
  {
  }

  /** An alert of the greatest identity leaves no other identity in the table. */
  lemma MaximumClears(t: Table, a: Alert, signed: bool, now: int)
    requires Effective(a, signed, now) && a.nID == MAX_INT
    ensures forall h :: h in Processed(t, a, signed, now) ==> Processed(t, a, signed, now)[h].nID == MAX_INT
  {
  }

  // ----- runs -------------------------------------------------------------------------------

  datatype Call = Call(alert: Alert, signed: bool, now: int)

  ghost function Run(calls: seq<Call>): Table {
    if calls == [] then map[]
    else
      var c := calls[|calls| - 1];
      Processed(Run(calls[..|calls| - 1]), c.alert, c.signed, c.now)
  }

  lemma {:induction false} RunPeaceful(calls: seq<Call>)
    ensures Peaceful(Run(calls))
  {
    hide Peaceful, Processed;
    if calls == [] {
      EmptyPeaceful();
    } else {
      RunPeaceful(calls[..|calls| - 1]);
      var c := calls[|calls| - 1];
      ProcessedPeaceful(Run(calls[..|calls| - 1]), c.alert, c.signed, c.now);
    }
  }

  lemma EmptyPeaceful()
    ensures Peaceful(map[])
  {
  }

  /** A call that cannot remove a stored alert of the greatest identity: it comes
      before that expires, and its alert, if it gets to the table, does not name it. */
  predicate Harmless(c: Call) {
    c.now < MAX_INT && (Effective(c.alert, c.signed, c.now) ==> !Names(c.alert, MAX_INT))
  }

  ghost predicate Holds(t: Table, h: int) {
    h in t && t[h].nID == MAX_INT && Reserved(t[h])
  }

  lemma HarmlessKeeps(t: Table, c: Call, h: int)
    requires Holds(t, h) && Harmless(c)
    ensures Holds(Processed(t, c.alert, c.signed, c.now), h)
    ensures c.alert.nID < MAX_INT ==> !Accepted(t, c.alert, c.signed, c.now)
  {
    var a := c.alert;
    if Effective(a, c.signed, c.now) {
      var kept := Kept(t, a, c.now);
      assert h in kept && kept[h] == t[h];
      if a.nID < MAX_INT { assert Cancels(kept[h], a, c.now); }
    }
  }

  /** Once an alert with the greatest identity is stored, it stays and no alert with
      a smaller one is accepted, until it expires or some alert names it. */
  lemma {:induction false} MaximumBlocks(calls: seq<Call>, j: nat, k: nat, h: int)
    requires j <= k < |calls|
    requires h in Run(calls[..j]) && Run(calls[..j])[h].nID == MAX_INT
    requires forall i | j <= i <= k :: Harmless(calls[i])
    ensures Holds(Run(calls[..k + 1]), h)
    ensures var c := calls[k];
      c.alert.nID < MAX_INT ==> !Accepted(Run(calls[..k]), c.alert, c.signed, c.now)
    decreases k
  {
    hide Harmless, Processed, Accepted, Reserved;
    if j == k {
      RunPeaceful(calls[..j]);
    } else {
      MaximumBlocks(calls, j, k - 1, h);
    }
    assert calls[..k + 1][..k] == calls[..k];
    HarmlessKeeps(Run(calls[..k]), calls[k], h);
  }

  // ----- the table in place --------------------------------------------------------------------

  class AlertTable {
    var mapAlerts: Table

    constructor ()
      ensures mapAlerts == Run([])
    {
      mapAlerts := map[];
    }

    method ProcessAlert(a: Alert, signed: bool, now: int) returns (accepted: bool)
      modifies this
      ensures accepted <==> Accepted(old(mapAlerts), a, signed, now)
      ensures mapAlerts == Processed(old(mapAlerts), a, signed, now)
      ensures Outcome(old(mapAlerts), mapAlerts, a, signed, now, accepted)
    {
      ProcessedExactly(mapAlerts, a, signed, now);
      hide Outcome;
      if !signed { return false; }
      if !InEffect(a, now) { return false; }
      if a.nID == MAX_INT {
        if !Reserved(a) { return false; }
      }
      CancelPrevious(a, now);
      var refused := FindCanceller(a, now);
      if refused { return false; }
      if a.hash !in mapAlerts { mapAlerts := mapAlerts[a.hash := a]; }
      return true;
    }

    method CancelPrevious(a: Alert, now: int)
      modifies this
      ensures mapAlerts == Kept(old(mapAlerts), a, now)
    {
      hide Stays, KeptFrom;
      ghost var t := mapAlerts;
      var order := InOrder(mapAlerts.Keys);
      var mi := 0;
      KeptNone(t, a, now);
      while mi < |order|
        invariant mi <= |order| && mapAlerts == KeptFrom(t, a, now, Elements(order[..mi]))
      {
        var h := order[mi];
        KeptStep(t, a, now, order, mi);
        var cancelled := Cancels(a, mapAlerts[h], now);
        if cancelled {
          mapAlerts := mapAlerts - {h};
        } else if !InEffect(mapAlerts[h], now) {
          mapAlerts := mapAlerts - {h};
        }
        mi := mi + 1;
      }
      assert order[..mi] == order;
      KeptAll(t, a, now);
    }

    method FindCanceller(a: Alert, now: int) returns (found: bool)
      ensures found <==> Refused(mapAlerts, a, now)
    {
      hide InEffect, Names;
      var order := InOrder(mapAlerts.Keys);
      for i := 0 to |order|
        invariant forall k | 0 <= k < i :: order[k] in mapAlerts && !Cancels(mapAlerts[order[k]], a, now)
      {
        var h := order[i];
        assert h in Elements(order);
        if Cancels(mapAlerts[h], a, now) { return true; }
      }
      assert forall h :: h in mapAlerts ==> h in Elements(order);
      return false;
    }
  }
}

/**
 What a whole successful synchronisation means: for the rights of the servers that remain, for what
 was added, and when it cannot succeed at all.
 */
module AccessOutcome {
  import opened Ids
  import opened Instances
  import opened AccessMask
  import opened AccessPurge
  import opened AclValidation
  import opened DataModel
  import opened AccessRepair
  import opened AccessSteps
  import opened NotifyQueue

  // ----- Rights -----

  /** With distinct readable targets, whatever has a target is what a lookup finds. */
  lemma OnlyOneGoverns(ac: seq<Inst>, y: Inst, oid: Id, iid: Id)
    requires ListOk(AC, ac) && DistinctTargets(ac) && AllReadable(ac)
    requires y in ac && Targets(y, oid, iid)
    ensures Governs(ac, y, oid, iid)
  {
    var k: nat :| k < |ac| && ac[k] == y;
    UniqueIid(AC, ac, k);
    forall i | 0 <= i < k
      ensures ac[i].AccessControl? && ac[i].oiid != UNSET && !Targets(ac[i], oid, iid)
    {
      assert ac[i] in ac && ac[i].iid != y.iid;
      assert Targets(ac[i], oid, iid) ==> SameTarget(ac[i], y);
    }
    assert FirstAt(ac, k, oid, iid);
  }

  /** What governed an allowed target before is what is kept for it. */
  lemma GoverningIsKept(before: Objects, pruned: Objects, x: Inst, oid: Id, iid: Id)
    requires WellFormed(before) && Pruned(before, pruned)
    requires Governs(before[AC], x, oid, iid) && Allowed(before, oid, iid)
    ensures x in pruned[AC]
  {
    var k: nat :| k < |before[AC]| && before[AC][k] == x && FirstAt(before[AC], k, oid, iid);
    assert FirstAllowed(before, before[AC], k);
    assert KeptByPrune(before, before[AC], x);
  }

  lemma PrunedIsReadable(before: Objects, pruned: Objects)
    requires Pruned(before, pruned) && AllReadable(before[AC])
    ensures AllReadable(pruned[AC])
  {
    forall x | x in pruned[AC]
      ensures x in before[AC]
    {
      assert KeptByPrune(before, before[AC], x);
    }
  }

  lemma PurgedIsReadable(before: Objects, after: Objects, q: seq<ObjectEntry>)
    requires PurgeStep(before, after, q) && AllReadable(before[AC])
    ensures AllReadable(after[AC])
  {
    if MightOrphan(q) {
      forall y | y in after[AC]
        ensures y.AccessControl? && y.oiid != UNSET
      {
        assert SurvivesAs(before[AC], LiveSsids(before), y);
      }
    }
  }

  lemma AddedIsReadable(before: Objects, after: Objects, q: seq<ObjectEntry>, origin: Id)
    requires AddStep(before, after, q, origin) && AllReadable(before[AC])
    ensures AllReadable(after[AC])
  {
    if HaveAdds(q, origin) {
      forall y | y in after[AC]
        ensures y.AccessControl? && y.oiid != UNSET
      {
        assert y in before[AC] || NewGrant(before[AC], y, q, origin);
      }
    }
  }

  /** The form in which an instance comes out of the purge, if there is one. */
  ghost function Outcome(x: Inst, before: Objects, q: seq<ObjectEntry>): Inst
    requires WellFormed(before) && x.AccessControl?
  {
    if MightOrphan(q) then Rewritten(x, LiveSsids(before)) else x
  }

  /**
   A synchronisation leaves the rights of the servers that remain alone. The lookup for a governed
   target finds the same Access Control instance as before, up to what the purge made of it, and
   that allows a live server the same as before; unless it was an orphan, or its target is gone and
   was looked for.
   */
  lemma SyncKeepsRights(before: Objects, pruned: Objects, purged: Objects, after: Objects, q: seq<ObjectEntry>, origin: Id,
                        x: Inst, oid: Id, iid: Id, ssid: Id, mask: Mask)
    requires Steps(before, pruned, purged, after, q, origin)
    requires Governs(before[AC], x, oid, iid) && (MightRemove(q) ==> Allowed(before, oid, iid))
    requires MightOrphan(q) ==> !Orphan(x, LiveSsids(before)) && Keepable(ssid, LiveSsids(before))
    ensures Governs(after[AC], Outcome(x, before, q), oid, iid)
    ensures MayDo(x.acl, x.owner, ssid, mask)
      <==> MayDo(Outcome(x, before, q).acl, Outcome(x, before, q).owner, ssid, mask)
  {
    PruneKeepsGoverning(before, pruned, q, x, oid, iid);
    assert LiveSsids(pruned) == LiveSsids(before);
    if MightOrphan(q) {
      PurgeKeepsRights(pruned, purged, LiveSsids(before), x, oid, iid, ssid, mask);
    }
    if HaveAdds(q, origin) {
      AddsComeWithRemoves(q, origin);
      PrunedIsSound(before, pruned);
      PrunedIsReadable(before, pruned);
      PurgedIsReadable(pruned, purged, q);
      AddedIsReadable(purged, after, q, origin);
      TargetsAfterRepair(pruned, purged, after, q, origin);
      OnlyOneGoverns(after[AC], Outcome(x, before, q), oid, iid);
    }
  }

  lemma PruneKeepsGoverning(before: Objects, pruned: Objects, q: seq<ObjectEntry>, x: Inst, oid: Id, iid: Id)
    requires PruneStep(before, pruned, q)
    requires Governs(before[AC], x, oid, iid) && (MightRemove(q) ==> Allowed(before, oid, iid))
    ensures Governs(pruned[AC], x, oid, iid)
  {
    if MightRemove(q) {
      GoverningIsKept(before, pruned, x, oid, iid);
      PrunedIsSound(before, pruned);
      PrunedIsReadable(before, pruned);
      OnlyOneGoverns(pruned[AC], x, oid, iid);
    }
  }

  /** What governs a target afterwards governed it before, in another form maybe, unless it is new. */
  lemma NothingElseGoverned(before: Objects, pruned: Objects, purged: Objects, after: Objects, q: seq<ObjectEntry>,
                            origin: Id, y: Inst, oid: Id, iid: Id)
    requires Steps(before, pruned, purged, after, q, origin)
    requires Governs(after[AC], y, oid, iid) && !(HaveAdds(q, origin) && KnownAdded(q, oid, iid))
    ensures exists x :: Governs(before[AC], x, oid, iid)
  {
    AddsComeWithRemoves(q, origin);
    if MightRemove(q) || MightOrphan(q) {
      assert y in purged[AC];
      CameFrom(before, pruned, purged, q, y);
      var x :| x in before[AC] && SameTarget(x, y);
      FirstOneGoverns(before[AC], x, oid, iid);
    }
  }

  /** An instance that is left was there before, with the same target. */
  lemma CameFrom(before: Objects, pruned: Objects, purged: Objects, q: seq<ObjectEntry>, y: Inst)
    requires PruneStep(before, pruned, q) && PurgeStep(pruned, purged, q) && y in purged[AC] && y.AccessControl?
    ensures exists x :: x in before[AC] && SameTarget(x, y)
  {
    if MightOrphan(q) {
      var live := LiveSsids(pruned);
      assert SurvivesAs(pruned[AC], live, y);
      var x :| x in pruned[AC] && x.AccessControl? && !Orphan(x, live) && y == Rewritten(x, live);
      WasThere(before, pruned, q, x);
      assert SameTarget(x, y);
    } else {
      WasThere(before, pruned, q, y);
      assert SameTarget(y, y);
    }
  }

  lemma WasThere(before: Objects, pruned: Objects, q: seq<ObjectEntry>, x: Inst)
    requires PruneStep(before, pruned, q) && x in pruned[AC]
    ensures x in before[AC]
  {
    assert MightRemove(q) ==> KeptByPrune(before, before[AC], x);
  }

  /** Among readable instances the first with a target is what a lookup finds. */
  lemma FirstOneGoverns(ac: seq<Inst>, x: Inst, oid: Id, iid: Id)
    requires AllReadable(ac) && x in ac && Targets(x, oid, iid)
    ensures exists z :: Governs(ac, z, oid, iid)
  {
    var k: nat :| k < |ac| && ac[k] == x;
    while exists i: nat :: i < k && Targets(ac[i], oid, iid)
      invariant k < |ac| && Targets(ac[k], oid, iid)
      decreases k
    {
      var i: nat :| i < k && Targets(ac[i], oid, iid);
      k := i;
    }
    forall i | 0 <= i < k
      ensures ac[i].AccessControl? && ac[i].oiid != UNSET && !Targets(ac[i], oid, iid)
    {
      assert ac[i] in ac;
    }
    assert FirstAt(ac, k, oid, iid) && Governs(ac, ac[k], oid, iid);
  }

  // ----- What an instance can be afterwards -----

  /** A grant of Read, Write, Execute and Delete for something new, to the server that has added it. */
  ghost predicate IsNewGrant(y: Inst, q: seq<ObjectEntry>, origin: Id) {
    && y.AccessControl? && origin != 65535 && KnownAdded(q, y.oid, y.oiid)
    && y.owner == origin && y.acl == [AclEntry(origin, 15)]
  }

  /**
   The instance as it was, except that if Security, Server or Access Control Instances have come or
   gone, just the entries of SSIDs 0 and 65535 and of live servers are left.
   */
  ghost predicate IsLeftOf(x: Inst, y: Inst, q: seq<ObjectEntry>, live: set<Id>) {
    && x.AccessControl? && y.AccessControl? && y.iid == x.iid && y.oid == x.oid && y.oiid == x.oiid
    && forall e :: e in y.acl <==> e in x.acl && (
        SetChanged(q, 0) || SetChanged(q, 1) || SetChanged(q, 2) ==> e.ssid == 0 || e.ssid == 65535 || e.ssid in live)
  }

  lemma FormIsLeftOf(x: Inst, y: Inst, q: seq<ObjectEntry>, live: set<Id>)
    requires x.AccessControl? && ValidQueue(q)
    requires if MightOrphan(q) then !Orphan(x, live) && y == Rewritten(x, live) else y == x
    ensures IsLeftOf(x, y, q, live)
  {
    FlagsMean(q, SSID_BOOTSTRAP);
    if MightOrphan(q) {
      RewrittenIsPurged(x, live);
    }
  }

  lemma EachIsLeftOrNew(before: Objects, pruned: Objects, purged: Objects, after: Objects, q: seq<ObjectEntry>, origin: Id,
                        y: Inst)
    requires Steps(before, pruned, purged, after, q, origin) && ValidQueue(q) && y in after[2]
    ensures IsNewGrant(y, q, origin) || exists x :: x in before[2] && IsLeftOf(x, y, q, LiveSsids(before))
  {
    FlagsMean(q, origin);
    assert LiveSsids(pruned) == LiveSsids(before);
    AcElement(after, y);
    if y in purged[AC] {
      if MightOrphan(q) {
        var live := LiveSsids(before);
        assert SurvivesAs(pruned[AC], live, y);
        var x :| x in pruned[AC] && x.AccessControl? && !Orphan(x, live) && y == Rewritten(x, live);
        WasThere(before, pruned, q, x);
        FormIsLeftOf(x, y, q, live);
      } else {
        WasThere(before, pruned, q, y);
        FormIsLeftOf(y, y, q, LiveSsids(before));
      }
    } else {
      assert NewGrant(purged[AC], y, q, origin);
    }
  }

  // ----- What was added -----

  /** Every new Instance is governed by exactly one Access Control instance. */
  lemma NewOnesGovernedOnce(before: Objects, after: Objects, q: seq<ObjectEntry>, origin: Id, oid: Id, iid: int)
    requires Synchronised(before, after, q, origin) && HaveAdds(q, origin) && KnownAdded(q, oid, iid)
    ensures exists y :: y in after[AC] && Targets(y, oid, iid) &&
              (forall z :: z in after[AC] && Targets(z, oid, iid) ==> z == y)
  {
    AddsComeWithRemoves(q, origin);
    GovernedOnce(after[AC], oid, iid);
  }

  lemma GovernedOnce(ac: seq<Inst>, oid: Id, iid: int)
    requires DistinctTargets(ac) && Governed(ac, oid, iid)
    ensures exists y :: y in ac && Targets(y, oid, iid) && (forall z :: z in ac && Targets(z, oid, iid) ==> z == y)
  {
    var y :| y in ac && Targets(y, oid, iid);
    forall z | z in ac && Targets(z, oid, iid)
      ensures z == y
    {
      assert SameTarget(z, y);
    }
  }

  /** Reported as new and really there, and not about to be removed along with an orphan. */
  ghost predicate StaysAdded(before: Objects, pruned: Objects, q: seq<ObjectEntry>, oid: Id, iid: int)
    requires WellFormed(before) && AC in pruned
  {
    && Allowed(before, oid, iid)
    && (MightOrphan(q) && iid != ID_INVALID ==> !Condemned(pruned[AC], LiveSsids(before), oid, iid))
  }

  /** Whether all targets exist in the end can be told from the state before the purge. */
  lemma AllTargetsExist(before: Objects, pruned: Objects, purged: Objects, after: Objects, q: seq<ObjectEntry>, origin: Id)
    requires Steps(before, pruned, purged, after, q, origin) && HaveAdds(q, origin)
    ensures TargetsAllowed(after)
      <==> forall oid: Id, iid: int :: KnownAdded(q, oid, iid) ==> StaysAdded(before, pruned, q, oid, iid)
  {
    AddsComeWithRemoves(q, origin);
    SyncResult(before, pruned, purged, after, q, origin);
    assert LiveSsids(pruned) == LiveSsids(before);
    forall oid: Id, iid: int | KnownAdded(q, oid, iid)
      ensures Allowed(after, oid, iid) <==> StaysAdded(before, pruned, q, oid, iid)
    {
      if MightOrphan(q) {
        SurvivesUnlessCondemned(pruned, purged, LiveSsids(before), oid, iid);
      }
    }
  }

  // ----- When it cannot succeed -----

  /** Exactly which instances no purge can get past. */
  lemma DoomedMeans(x: Inst, live: set<Id>)
    requires AcceptableAc(x)
    ensures Doomed(x, live) <==>
      (OwnerDropped(x.acl, x.owner, live) && var p := Purged(x.acl, live);
       p != [] && p[0].ssid == SSID_ANY && forall j :: 0 < j < |p| ==> Rank(p[j]) < Rank(p[0]))
  {
    var p := Purged(x.acl, live);
    PurgedAscending(x.acl, live);
    if p != [] {
      NobodyElected(p);
    }
    if OwnerDropped(x.acl, x.owner, live) {
      ListedEntry(x.acl, x.owner);
      assert !NothingToPurge(x.acl, live);
    }
  }

  /** The owner is gone and everybody has the default rights: there is nobody to elect. */
  lemma DefaultRightsAreDoomed()
    ensures Doomed(AccessControl(0, 3, 0, 7, true, [AclEntry(SSID_ANY, MASK_READ), AclEntry(7, MASK_FULL_BUT_CREATE)]), {1})
  {
    var dflt, own := AclEntry(SSID_ANY, MASK_READ), AclEntry(7, MASK_FULL_BUT_CREATE);
    var acl := [dflt, own];
    assert acl[1..] == [own] && acl[1..][1..] == [];
    assert Purged(acl[1..], {1}) == [];
    assert Purged(acl, {1}) == [dflt];
    assert Lists(acl, 7);
    assert Best([dflt]) == 0;
  }

  // ----- Instances that were written to -----

  /** There is an instance with the ID that is neither dangling nor repeated nor an orphan. */
  ghost predicate Survives(before: Objects, q: seq<ObjectEntry>, iid: Id)
    requires WellFormed(before) && AC in before
  {
    exists k: nat :: k < |before[AC]| && before[AC][k].iid == iid && KeptAt(before, q, k)
  }

  ghost predicate KeptAt(before: Objects, q: seq<ObjectEntry>, k: nat)
    requires WellFormed(before) && AC in before && k < |before[AC]|
  {
    var x := before[AC][k];
    && (MightRemove(q) ==> FirstAllowed(before, before[AC], k))
    && (MightOrphan(q) ==> x.AccessControl? && !Orphan(x, LiveSsids(before)))
  }

  /** The ID has been given to an instance for something new. */
  ghost predicate Reused(purged: Objects, after: Objects, q: seq<ObjectEntry>, origin: Id, iid: Id)
    requires AC in purged && AC in after
  {
    HaveAdds(q, origin) && exists y :: y in after[AC] && y.iid == iid && NewGrant(purged[AC], y, q, origin)
  }

  lemma KeptThroughPrune(before: Objects, pruned: Objects, q: seq<ObjectEntry>, k: nat)
    requires PruneStep(before, pruned, q) && k < |before[AC]|
    ensures before[AC][k] in pruned[AC] <==> (MightRemove(q) ==> FirstAllowed(before, before[AC], k))
  {
    UniqueIid(AC, before[AC], k);
    if MightRemove(q) {
      assert FirstAllowed(before, before[AC], k) ==> KeptByPrune(before, before[AC], before[AC][k]);
    }
  }

  lemma KeptThroughPurge(pruned: Objects, purged: Objects, q: seq<ObjectEntry>, iid: Id)
    requires PurgeStep(pruned, purged, q)
    ensures Has(purged[AC], iid) <==>
      exists x :: x in pruned[AC] && x.iid == iid && (MightOrphan(q) ==> x.AccessControl? && !Orphan(x, LiveSsids(pruned)))
  {
    HasMeans(purged[AC], iid);
    if MightOrphan(q) {
      var live := LiveSsids(pruned);
      if Has(purged[AC], iid) {
        var y :| y in purged[AC] && y.iid == iid;
        assert SurvivesAs(pruned[AC], live, y);
      }
      if x :| x in pruned[AC] && x.iid == iid && x.AccessControl? && !Orphan(x, live) {
        assert SurvivesAs(pruned[AC], live, Rewritten(x, live));
      }
    }
  }

  lemma KeptThroughAdds(purged: Objects, after: Objects, q: seq<ObjectEntry>, origin: Id, iid: Id)
    requires AddStep(purged, after, q, origin)
    ensures Has(after[AC], iid) <==> Has(purged[AC], iid) || Reused(purged, after, q, origin, iid)
  {
    HasMeans(purged[AC], iid);
    HasMeans(after[AC], iid);
  }

  lemma SurvivorIsLeft(before: Objects, pruned: Objects, purged: Objects, q: seq<ObjectEntry>, iid: Id)
    requires PruneStep(before, pruned, q) && PurgeStep(pruned, purged, q) && Survives(before, q, iid)
    ensures Has(purged[AC], iid)
  {
    KeptThroughPurge(pruned, purged, q, iid);
    assert LiveSsids(pruned) == LiveSsids(before);
    var k: nat :| k < |before[AC]| && before[AC][k].iid == iid && KeptAt(before, q, k);
    KeptThroughPrune(before, pruned, q, k);
  }

  lemma WhatIsLeftSurvived(before: Objects, pruned: Objects, purged: Objects, q: seq<ObjectEntry>, iid: Id)
    requires PruneStep(before, pruned, q) && PurgeStep(pruned, purged, q) && Has(purged[AC], iid)
    ensures Survives(before, q, iid)
  {
    KeptThroughPurge(pruned, purged, q, iid);
    assert LiveSsids(pruned) == LiveSsids(before);
    var x :| x in pruned[AC] && x.iid == iid && (MightOrphan(q) ==> x.AccessControl? && !Orphan(x, LiveSsids(pruned)));
    assert x in before[AC] by {
      assert MightRemove(q) ==> KeptByPrune(before, before[AC], x);
    }
    var k: nat :| k < |before[AC]| && before[AC][k] == x;
    KeptThroughPrune(before, pruned, q, k);
    assert KeptAt(before, q, k);
  }

  /** Which IDs of Access Control instances are still taken after the repairs. */
  lemma StillTaken(before: Objects, pruned: Objects, purged: Objects, after: Objects, q: seq<ObjectEntry>, origin: Id, iid: Id)
    requires PruneStep(before, pruned, q) && PurgeStep(pruned, purged, q) && AddStep(purged, after, q, origin)
    ensures Has(after[AC], iid) <==> Survives(before, q, iid) || Reused(purged, after, q, origin, iid)
  {
    KeptThroughAdds(purged, after, q, origin, iid);
    if Has(purged[AC], iid) {
      WhatIsLeftSurvived(before, pruned, purged, q, iid);
    } else if Survives(before, q, iid) {
      SurvivorIsLeft(before, pruned, purged, q, iid);
    }
  }

  ghost predicate MayGoOn(before: Objects, q: seq<ObjectEntry>, changed: seq<ResourceEntry>, n: nat)
    requires WellFormed(before) && AC in before && n < |changed|
  {
    Survives(before, q, changed[n].iid) || forall j :: 0 <= j <= n ==> changed[j].iid == ID_INVALID
  }

  ghost predicate AllSurvive(before: Objects, q: seq<ObjectEntry>, changed: seq<ResourceEntry>)
    requires WellFormed(before) && AC in before
  {
    forall n: nat :: n < |changed| ==> MayGoOn(before, q, changed, n)
  }

  /**
   Where nothing is added, a synchronisation whose repairs work succeeds exactly if no Access
   Control instance that was written to is dropped by it. (An invalid ID is skipped as long as no
   other has come.)
   */
  lemma WrittenMustSurvive(before: Objects, pruned: Objects, purged: Objects, after: Objects, q: seq<ObjectEntry>, origin: Id)
    requires PruneStep(before, pruned, q) && PurgeStep(pruned, purged, q) && AddStep(purged, after, q, origin)
    requires !HaveAdds(q, origin)
    ensures Steps(before, pruned, purged, after, q, origin) <==> AllSurvive(before, q, About(q, AC).resourcesChanged)
  {
    var changed := About(q, AC).resourcesChanged;
    forall n: nat | n < |changed|
      ensures StillThere(after[AC], changed, n) <==> MayGoOn(before, q, changed, n)
    {
      StillTaken(before, pruned, purged, after, q, origin, changed[n].iid);
    }
    assert AllStillThere(after[AC], changed) <==> forall n: nat :: n < |changed| ==> StillThere(after[AC], changed, n);
  }

  // ----- When it succeeds -----

  /**
   What it takes, told from before: targets and SSIDs can be read, nothing that is kept has nobody to
   elect, there are IDs for what is new, and what was written to survives.
   */
  ghost predicate Feasible(before: Objects, q: seq<ObjectEntry>, origin: Id)
    requires WellFormed(before) && AC in before
  {
    && (MightRemove(q) ==> AllReadable(before[AC]))
    && (MightOrphan(q) ==> ReadableSsids(before) && forall k: nat :: k < |before[AC]| ==> PurgesAt(before, q, k))
    && (HaveAdds(q, origin) ==> origin != SSID_ANY && CanGovern(q) && |before[AC]| + Additions(q) <= 65535)
    && AllSurvive(before, q, About(q, AC).resourcesChanged)
  }

  ghost predicate PurgesAt(before: Objects, q: seq<ObjectEntry>, k: nat)
    requires WellFormed(before) && AC in before && k < |before[AC]|
  {
    (MightRemove(q) ==> FirstAllowed(before, before[AC], k)) ==> Purges(before[AC][k], LiveSsids(before))
  }

  lemma FeasiblePurge(before: Objects, pruned: Objects, q: seq<ObjectEntry>, origin: Id)
    requires PruneStep(before, pruned, q) && Feasible(before, q, origin) && MightOrphan(q)
    ensures CanPurge(pruned)
  {
    assert LiveSsids(pruned) == LiveSsids(before);
    forall i | 0 <= i < |pruned[AC]|
      ensures Purges(pruned[AC][i], LiveSsids(before))
    {
      var x := pruned[AC][i];
      WasThere(before, pruned, q, x);
      var k: nat :| k < |before[AC]| && before[AC][k] == x;
      KeptThroughPrune(before, pruned, q, k);
      assert PurgesAt(before, q, k);
    }
  }

  lemma FeasibleAdds(before: Objects, pruned: Objects, purged: Objects, q: seq<ObjectEntry>, origin: Id)
    requires PruneStep(before, pruned, q) && PurgeStep(pruned, purged, q) && |purged[AC]| <= |before[AC]|
    requires Feasible(before, q, origin) && HaveAdds(q, origin)
    ensures Roomy(purged[AC], Additions(q))
  {
    AddsComeWithRemoves(q, origin);
    PrunedIsReadable(before, pruned);
    PurgedIsReadable(pruned, purged, q);
  }

  lemma FeasibleEnd(before: Objects, pruned: Objects, purged: Objects, after: Objects, q: seq<ObjectEntry>, origin: Id)
    requires PruneStep(before, pruned, q) && PurgeStep(pruned, purged, q) && AddStep(purged, after, q, origin)
    requires Feasible(before, q, origin)
    ensures AllStillThere(after[AC], About(q, AC).resourcesChanged)
  {
    var changed := About(q, AC).resourcesChanged;
    forall n: nat | n < |changed|
      ensures StillThere(after[AC], changed, n)
    {
      assert MayGoOn(before, q, changed, n);
      StillTaken(before, pruned, purged, after, q, origin, changed[n].iid);
    }
  }

  /** Where nothing is added, it takes all of that. */
  lemma FeasibleIsNeeded(before: Objects, pruned: Objects, purged: Objects, after: Objects, q: seq<ObjectEntry>, origin: Id)
    requires Steps(before, pruned, purged, after, q, origin) && !HaveAdds(q, origin)
    ensures Feasible(before, q, origin)
  {
    WrittenMustSurvive(before, pruned, purged, after, q, origin);
    assert LiveSsids(pruned) == LiveSsids(before);
    forall k: nat | MightOrphan(q) && k < |before[AC]|
      ensures PurgesAt(before, q, k)
    {
      KeptThroughPrune(before, pruned, q, k);
      ElementRight(AC, before[AC], k);
    }
  }

  /** Whatever repair comes out of it, the Access Control object finds it valid. */
  ghost predicate OutcomesValid(before: Objects, q: seq<ObjectEntry>, origin: Id, read: SsidReader) {
    forall pruned: Objects, purged: Objects, after: Objects ::
      Steps(before, pruned, purged, after, q, origin) ==> AcValid(after, read)
  }

  /**
   Enough for that, told from before: no SSID is unknown to the Server object, targets are sound or
   looked at, no Server Instance goes, and what is new is there to stay.
   */
  ghost predicate SoundEnough(before: Objects, q: seq<ObjectEntry>, origin: Id, read: SsidReader)
    requires WellFormed(before) && AC in before
  {
    && (forall x :: x in before[AC] ==> x.AccessControl? && TargetOidValid(x.oid) && SsidsValid(x, Servers(before, read)))
    && (MightRemove(q) || (DistinctTargets(before[AC]) && TargetsAllowed(before)))
    && (MightOrphan(q) ==> forall x :: x in before[AC] && Orphan(x, LiveSsids(before)) ==> x.oid != OID_SERVER)
    && (HaveAdds(q, origin) ==> SsidValid(origin, Servers(before, read)) && AdditionsStay(before, q))
  }

  ghost predicate AdditionsStay(before: Objects, q: seq<ObjectEntry>)
    requires WellFormed(before) && AC in before
  {
    forall oid: Id, iid: int :: KnownAdded(q, oid, iid) ==>
      && oid != 0xFFFF && Allowed(before, oid, iid)
      && (MightOrphan(q) && iid != ID_INVALID ==> !Condemned(before[AC], LiveSsids(before), oid, iid))
  }

  lemma SoundOutcomes(before: Objects, q: seq<ObjectEntry>, origin: Id, read: SsidReader)
    requires WellFormed(before) && AC in before && SoundEnough(before, q, origin, read)
    ensures OutcomesValid(before, q, origin, read)
  {
    forall pruned: Objects, purged: Objects, after: Objects | Steps(before, pruned, purged, after, q, origin)
      ensures AcValid(after, read)
    {
      TargetsStaySound(before, pruned, purged, after, q, origin, read);
      SameServers(before, pruned, purged, after, q, origin, read);
      forall y | y in after[AC]
        ensures y.AccessControl? && TargetOidValid(y.oid) && SsidsValid(y, Servers(after, read))
      {
        StaysFit(before, pruned, purged, after, q, origin, read, y);
      }
      SoundIsValid(after, read);
    }
  }

  lemma TargetsStaySound(before: Objects, pruned: Objects, purged: Objects, after: Objects, q: seq<ObjectEntry>, origin: Id,
                         read: SsidReader)
    requires Steps(before, pruned, purged, after, q, origin) && SoundEnough(before, q, origin, read)
    ensures DistinctTargets(after[AC]) && TargetsAllowed(after)
  {
    if MightRemove(q) {
      PrunedIsSound(before, pruned);
    }
    TargetsAfterRepair(pruned, purged, after, q, origin);
    if HaveAdds(q, origin) {
      AllTargetsExist(before, pruned, purged, after, q, origin);
      forall oid: Id, iid: int | KnownAdded(q, oid, iid)
        ensures StaysAdded(before, pruned, q, oid, iid)
      {
        if Condemned(pruned[AC], LiveSsids(before), oid, iid) {
          var x :| x in pruned[AC] && Targets(x, oid, iid) && Orphan(x, LiveSsids(before));
          WasThere(before, pruned, q, x);
        }
      }
    }
  }

  /** The Server object is left alone unless an orphan governs one of its Instances. */
  lemma SameServers(before: Objects, pruned: Objects, purged: Objects, after: Objects, q: seq<ObjectEntry>, origin: Id,
                    read: SsidReader)
    requires Steps(before, pruned, purged, after, q, origin) && SoundEnough(before, q, origin, read)
    ensures Servers(after, read) == Servers(before, read)
  {
    if OID_SERVER in before {
      var live := LiveSsids(pruned);
      assert live == LiveSsids(before);
      if MightOrphan(q) {
        assert Spared(pruned[OID_SERVER], purged[OID_SERVER], pruned[AC], live, OID_SERVER);
        forall x | x in pruned[OID_SERVER]
          ensures !Condemned(pruned[AC], live, OID_SERVER, x.iid)
        {
          if w :| w in pruned[AC] && Targets(w, OID_SERVER, x.iid) && Orphan(w, live) {
            WasThere(before, pruned, q, w);
          }
        }
        SameElements(OID_SERVER, pruned[OID_SERVER], purged[OID_SERVER]);
      }
      assert after[OID_SERVER] == before[OID_SERVER];
    }
  }

  lemma HeadOnce(oid: Id, s: seq<Inst>)
    requires ListOk(oid, s) && s != []
    ensures s[0] !in s[1..]
  {
    UniqueIid(oid, s, 0);
  }

  /** An ascending list is determined by its elements. */
  lemma {:induction false} SameElements(oid: Id, s: seq<Inst>, t: seq<Inst>)
    requires ListOk(oid, s) && ListOk(oid, t) && forall x :: x in s <==> x in t
    ensures s == t
  {
    assert s == [] || s[0] in s;
    assert t == [] || t[0] in t;
    if s != [] {
      ListOkMeans(oid, s);
      ListOkMeans(oid, t);
      assert s == [s[0]] + s[1..] && t == [t[0]] + t[1..];
      assert s[0] == t[0];
      HeadOnce(oid, s);
      HeadOnce(oid, t);
      forall x
        ensures x in s[1..] <==> x in t[1..]
      {
        assert x in s <==> x == s[0] || x in s[1..];
        assert x in t <==> x == t[0] || x in t[1..];
      }
      SameElements(oid, s[1..], t[1..]);
    }
  }

  lemma StaysFit(before: Objects, pruned: Objects, purged: Objects, after: Objects, q: seq<ObjectEntry>, origin: Id,
                 read: SsidReader, y: Inst)
    requires Steps(before, pruned, purged, after, q, origin) && SoundEnough(before, q, origin, read) && y in after[AC]
    ensures y.AccessControl? && TargetOidValid(y.oid) && SsidsValid(y, Servers(before, read))
  {
    if y in purged[AC] {
      if MightOrphan(q) {
        var live := LiveSsids(pruned);
        assert SurvivesAs(pruned[AC], live, y);
        var x :| x in pruned[AC] && x.AccessControl? && !Orphan(x, live) && y == Rewritten(x, live);
        WasThere(before, pruned, q, x);
        RewrittenFit(x, live, Servers(before, read));
      } else {
        WasThere(before, pruned, q, y);
      }
    } else {
      assert NewGrant(purged[AC], y, q, origin);
    }
  }

  lemma RewrittenFit(x: Inst, live: set<Id>, servers: set<Id>)
    requires x.AccessControl? && SsidsValid(x, servers)
    ensures SsidsValid(Rewritten(x, live), servers)
  {
    var p := Purged(x.acl, live);
    forall i | 0 <= i < |p|
      ensures SsidValid(p[i].ssid, servers)
    {
      assert p[i] in p && p[i] in x.acl;
    }
  }

  lemma SoundIsValid(objs: Objects, read: SsidReader)
    requires WellFormed(objs) && AC in objs && DistinctTargets(objs[AC]) && TargetsAllowed(objs)
    requires forall y :: y in objs[AC] ==> y.AccessControl? && TargetOidValid(y.oid) && SsidsValid(y, Servers(objs, read))
    ensures AcValid(objs, read)
  {
    var ac := objs[AC];
    assert forall i :: 0 <= i < |ac| ==> ac[i] in ac;
    forall k: nat | k < |ac|
      ensures TargetValid(objs, ac, k) && SsidsValid(ac[k], Servers(objs, read))
    {
      UniqueIid(AC, ac, k);
      ListOkMeans(ac[k].oid, if ac[k].oid in objs then objs[ac[k].oid] else []);
      assert TargetAllowed(objs, ac[k]);
      forall i | 0 <= i < k
        ensures (ac[i].oid, ac[i].oiid) != (ac[k].oid, ac[k].oiid)
      {
        assert !SameTarget(ac[i], ac[k]);
      }
    }
  }

  lemma DroppedThoughWritten(before: Objects, pruned: Objects, purged: Objects, after: Objects, q: seq<ObjectEntry>,
                             origin: Id, n: nat)
    requires WellFormed(before) && AC in before && !HaveAdds(q, origin)
    requires n < |About(q, AC).resourcesChanged| && !MayGoOn(before, q, About(q, AC).resourcesChanged, n)
    ensures !Steps(before, pruned, purged, after, q, origin)
  {
    if Steps(before, pruned, purged, after, q, origin) {
      WrittenMustSurvive(before, pruned, purged, after, q, origin);
      assert false;
    }
  }

  lemma OneRight(oid: Id, x: Inst)
    requires RightKind(oid, x)
    ensures ListOk(oid, [x])
  {
    assert [x][1..] == [];
  }

  const DANGLING: Objects := map[AC := [AccessControl(0, 3, 5, 1, true, [AclEntry(1, MASK_READ)])], 3 := []]
  const DANGLING_WRITTEN := [ObjectEntry(AC, false, [], [ResourceEntry(0, RID_ACL)]), ObjectEntry(3, true, [], [])]

  /** A written instance whose target is gone. */
  lemma DanglingWrittenFails(pruned: Objects, purged: Objects, after: Objects)
    ensures WellFormed(DANGLING) && ValidQueue(DANGLING_WRITTEN)
    ensures !Steps(DANGLING, pruned, purged, after, DANGLING_WRITTEN, SSID_BOOTSTRAP)
  {
    var q := DANGLING_WRITTEN;
    OneRight(AC, DANGLING[AC][0]);
    EntryIsAbout(q, 0);
    assert MightRemove(q) by {
      assert q[1].instanceSetChanged && Governable(q[1].oid);
    }
    assert !Survives(DANGLING, q, 0);
    DroppedThoughWritten(DANGLING, pruned, purged, after, q, SSID_BOOTSTRAP, 0);
  }

  /** The only server that is granted anything has a Server Instance, but no Security Instance. */
  const STRANDED: Objects :=
    map[OID_SECURITY := [], OID_SERVER := [Plain(0, 5)],
        AC := [AccessControl(0, 3, 0, SSID_BOOTSTRAP, true, [AclEntry(5, MASK_READ)])], 3 := [Plain(0, 0)]]
  const STRANDED_WRITTEN :=
    [ObjectEntry(OID_SERVER, true, [], []), ObjectEntry(AC, true, [0], [ResourceEntry(0, RID_ACL)])]

  lemma StrandedIsValid()
    ensures WellFormed(STRANDED) && ValidQueue(STRANDED_WRITTEN) && AcValid(STRANDED, contents => Some(contents))
  {
    var read: SsidReader := contents => Some(contents);
    OneRight(AC, STRANDED[AC][0]);
    OneRight(OID_SERVER, Plain(0, 5));
    OneRight(3, Plain(0, 0));
    assert FoundAt(STRANDED[OID_SERVER], read, 5, 0) && ServerExists(STRANDED, read, 5);
    assert STRANDED[3][0].iid == 0;
  }

  /** The Access Control object's own validation accepts that; the purge takes the server for dead. */
  lemma OrphanWrittenFails(pruned: Objects, purged: Objects, after: Objects)
    ensures !Steps(STRANDED, pruned, purged, after, STRANDED_WRITTEN, SSID_BOOTSTRAP)
  {
    var q := STRANDED_WRITTEN;
    StrandedIsValid();
    assert Purged(STRANDED[AC][0].acl, LiveSsids(STRANDED)) == [];
    EntryIsAbout(q, 1);
    assert MightOrphan(q) by {
      assert q[0].instanceSetChanged && Governing(q[0].oid);
    }
    assert !Survives(STRANDED, q, 0);
    DroppedThoughWritten(STRANDED, pruned, purged, after, q, SSID_BOOTSTRAP, 0);
  }

  // ----- Commits that fail -----

  /**
   Where there was an orphan, a repair that worked shows however its commit went: Access Control is
   always committed. So nobody can take what is half committed for what there was before.
   */
  lemma RepairShows(before: Objects, pruned: Objects, purged: Objects, repaired: Objects, after: Objects, mishaps: set<Id>,
                    q: seq<ObjectEntry>, origin: Id, x: Inst)
    requires Steps(before, pruned, purged, repaired, q, origin) && MightOrphan(q) && LiveOrigin(before, q, origin)
    requires x in before[AC] && x.AccessControl? && Orphan(x, LiveSsids(before))
    requires AC !in mishaps && AgreeOutside(after, repaired, mishaps)
    ensures !AgreeOutside(after, before, mishaps)
  {
    SecurityAfterRepair(before, pruned, purged, repaired, q, origin);
    NoOrphanAmong(repaired[AC], LiveSsids(before), x);
  }

  /** So whatever the failing commit of an Object at risk does to it, a failure has changed something. */
  lemma RiskIsReal(before: Objects, pruned: Objects, purged: Objects, repaired: Objects, after: Objects, mishaps: set<Id>,
                   q: seq<ObjectEntry>, origin: Id, oid: Id)
    requires Steps(before, pruned, purged, repaired, q, origin) && LiveOrigin(before, q, origin)
    requires oid in AtRisk(before, q) && AC !in mishaps && AgreeOutside(after, repaired, mishaps)
    ensures after != before
  {
    var ac := AcOf(before);
    var k: nat :| k < |ac| && Takes(ac, k, before, LiveSsids(before), oid);
    assert ac[k] in before[AC];
    RepairShows(before, pruned, purged, repaired, after, mishaps, q, origin, ac[k]);
  }

  lemma NoOrphanAmong(ac: seq<Inst>, live: set<Id>, x: Inst)
    requires AclsKeepable(ac, live) && x.AccessControl? && Orphan(x, live)
    ensures x !in ac
  {
    assert x.acl[0] in x.acl;
  }

  /** Server 5 is gone, and Object 3 has an Instance that only it may use. */
  const ABANDONED: Objects :=
    map[OID_SECURITY := [], AC := [AccessControl(0, 3, 0, SSID_BOOTSTRAP, true, [AclEntry(5, MASK_READ)])], 3 := [Plain(0, 0)]]
  const SERVER_GONE := [ObjectEntry(OID_SECURITY, true, [], [])]
  const CLEARED: Objects := map[OID_SECURITY := [], AC := [], 3 := []]
  /** The commit handler of Object 3 has failed and put its Instance back. */
  const UNGOVERNED: Objects := map[OID_SECURITY := [], AC := [], 3 := [Plain(0, 0)]]

  /**
   A repair that works, and a failing commit after which the data model is neither what it was nor
   the outcome of any repair: the Instance is back, and nothing governs it any more.
   */
  lemma CommitFailureShows(origin: Id, pruned: Objects, purged: Objects)
    ensures WellFormed(ABANDONED) && ValidQueue(SERVER_GONE) && AtRisk(ABANDONED, SERVER_GONE) == {3}
    ensures Steps(ABANDONED, ABANDONED, CLEARED, CLEARED, SERVER_GONE, origin)
    ensures AgreeOutside(UNGOVERNED, CLEARED, {3}) && !AgreeOutside(UNGOVERNED, ABANDONED, {3})
    ensures !Steps(ABANDONED, pruned, purged, UNGOVERNED, SERVER_GONE, origin)
  {
    AbandonedIsPurged(origin);
    assert CLEARED[AC] == UNGOVERNED[AC];
    assert UNGOVERNED[3][0].iid == 0;
    CondemnedGoes(ABANDONED, pruned, purged, UNGOVERNED, SERVER_GONE, origin, 3, 0);
  }

  /** Where what an orphan governs is still there, no repair has worked. */
  lemma CondemnedGoes(before: Objects, pruned: Objects, purged: Objects, after: Objects, q: seq<ObjectEntry>, origin: Id,
                      oid: Id, iid: Id)
    requires WellFormed(before) && AC in before && MightOrphan(q) && !MightRemove(q)
    requires oid != AC && Condemned(before[AC], LiveSsids(before), oid, iid) && Exists(after, oid, iid)
    ensures !Steps(before, pruned, purged, after, q, origin)
  {
    if Steps(before, pruned, purged, after, q, origin) {
      SurvivesUnlessCondemned(pruned, purged, LiveSsids(before), oid, iid);
    }
  }

  lemma AbandonedIsPurged(origin: Id)
    ensures WellFormed(ABANDONED) && WellFormed(CLEARED) && WellFormed(UNGOVERNED) && ValidQueue(SERVER_GONE)
    ensures LiveSsids(ABANDONED) == {} && Orphan(ABANDONED[AC][0], {}) && Condemned(ABANDONED[AC], {}, 3, 0)
    ensures MightOrphan(SERVER_GONE) && !MightRemove(SERVER_GONE) && !HaveAdds(SERVER_GONE, origin)
    ensures AtRisk(ABANDONED, SERVER_GONE) == {3}
    ensures Steps(ABANDONED, ABANDONED, CLEARED, CLEARED, SERVER_GONE, origin)
  {
    AbandonedStates();
    var x := ABANDONED[AC][0];
    assert SERVER_GONE[0].instanceSetChanged && Governing(SERVER_GONE[0].oid);
    assert x in ABANDONED[AC] && Targets(x, 3, 0);
    assert Takes(ABANDONED[AC], 0, ABANDONED, {}, 3);
    NothingAbout(SERVER_GONE, AC);
    EntryIsAbout(SERVER_GONE, 0);
  }

  /** There is nothing in the way of that repair, and nothing wrong with what comes of it. */
  lemma AbandonedIsFeasible(origin: Id, read: SsidReader)
    ensures WellFormed(ABANDONED) && Feasible(ABANDONED, SERVER_GONE, origin)
    ensures OutcomesValid(ABANDONED, SERVER_GONE, origin, read)
  {
    AbandonedIsPurged(origin);
    NothingAbout(SERVER_GONE, AC);
    assert PurgesAt(ABANDONED, SERVER_GONE, 0);
    forall pruned: Objects, purged: Objects, after: Objects | Steps(ABANDONED, pruned, purged, after, SERVER_GONE, origin)
      ensures AcValid(after, read)
    {
      FirstIsIn(after[AC]);
    }
  }

  lemma AbandonedStates()
    ensures WellFormed(ABANDONED) && WellFormed(CLEARED) && WellFormed(UNGOVERNED)
    ensures LiveSsids(ABANDONED) == {} && Orphan(ABANDONED[AC][0], {}) && Exists(ABANDONED, 3, 0)
  {
    OneRight(AC, ABANDONED[AC][0]);
    OneRight(3, Plain(0, 0));
    assert ABANDONED[3][0].iid == 0;
  }

  // ----- Owners -----

  /**
   A dead owner stays if it has no entry of its own to be dropped. The Access Control object then
   finds the outcome invalid, so that the synchronisation fails unless it has written nothing.
   */
  lemma StaleOwnerStays(before: Objects, pruned: Objects, purged: Objects, after: Objects, q: seq<ObjectEntry>, origin: Id,
                        k: nat, read: SsidReader)
    requires Steps(before, pruned, purged, after, q, origin)
    requires k < |before[AC]| && KeptAt(before, q, k)
    requires before[AC][k].AccessControl? && !Lists(before[AC][k].acl, before[AC][k].owner)
    requires before[AC][k].owner != SSID_BOOTSTRAP && !SsidValid(before[AC][k].owner, Servers(after, read))
    ensures Outcome(before[AC][k], before, q) in after[AC] && !AcValid(after, read)
  {
    var x := before[AC][k];
    var y := Outcome(x, before, q);
    KeptThroughPrune(before, pruned, q, k);
    assert LiveSsids(pruned) == LiveSsids(before);
    if MightOrphan(q) {
      assert SurvivesAs(pruned[AC], LiveSsids(before), y);
    }
    assert y in after[AC] && y.owner == x.owner;
    var j: nat :| j < |after[AC]| && after[AC][j] == y;
    assert !SsidsValid(after[AC][j], Servers(after, read));
  }
}

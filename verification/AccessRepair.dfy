/**
 What the three repairs of Access Control synchronisation do to the data model, and what follows
 from that: every target exists and is governed once, no ACL mentions a dead server, every new
 Instance is governed, and nobody's rights change on the way.
 */
module AccessRepair {
  import opened Ids
  import opened Instances
  import opened AccessMask
  import opened AccessPurge
  import opened AclValidation
  import opened NotifyQueue

  const AC: Id := OID_ACCESS_CONTROL

  // ----- The Access Control instances as a whole -----

  ghost predicate SameTarget(x: Inst, y: Inst) {
    x.AccessControl? && y.AccessControl? && x.oid == y.oid && x.oiid == y.oiid
  }

  ghost predicate DistinctTargets(ac: seq<Inst>) {
    forall x, y :: x in ac && y in ac && SameTarget(x, y) ==> x == y
  }

  ghost predicate TargetAllowed(objs: Objects, x: Inst) {
    x.AccessControl? && Allowed(objs, x.oid, x.oiid)
  }

  ghost predicate TargetsAllowed(objs: Objects)
    requires AC in objs
  {
    forall x :: x in objs[AC] ==> TargetAllowed(objs, x)
  }

  ghost predicate AclsKeepable(ac: seq<Inst>, live: set<Id>) {
    forall x, e :: x in ac && x.AccessControl? && e in x.acl ==> Keepable(e.ssid, live)
  }

  lemma AcElement(objs: Objects, x: Inst)
    requires WellFormed(objs) && AC in objs && x in objs[AC]
    ensures AcceptableAc(x)
  {
    var k: nat :| k < |objs[AC]| && objs[AC][k] == x;
    ElementRight(AC, objs[AC], k);
  }

  /** The SSIDs of the servers that the Security object knows. */
  ghost function LiveSsids(objs: Objects): set<Id>
    requires WellFormed(objs)
  {
    if OID_SECURITY !in objs then {}
    else
      AllAreSecurity(objs[OID_SECURITY]);
      SsidsIn(objs[OID_SECURITY])
  }

  /** Which those are: 65535 for the Bootstrap Server's account, else what the Resource says if it is in range. */
  lemma LiveMeans(objs: Objects, ssid: Id)
    requires WellFormed(objs)
    ensures ssid in LiveSsids(objs) <==> (
      && 0 in objs
      && exists x :: x in objs[0] && x.Security? && (if x.bootstrap then ssid == 0xFFFF else x.ssid == Some(ssid) && ssid != 0))
  {
    if OID_SECURITY in objs {
      var sec := objs[OID_SECURITY];
      AllAreSecurity(sec);
      if ssid in LiveSsids(objs) {
        var i :| 0 <= i < |sec| && SsidOf(sec[i]) == Some(ssid);
        assert sec[i] in sec;
      }
    }
  }

  lemma AllAreSecurity(sec: seq<Inst>)
    requires ListOk(OID_SECURITY, sec)
    ensures AllSecurity(sec)
  {
    ListOkMeans(OID_SECURITY, sec);
    assert forall i :: 0 <= i < |sec| ==> RightKind(OID_SECURITY, sec[i]);
  }

  // ----- Dropping dangling and repeated instances -----

  /** The `k`th instance refers to something that is allowed, and none before it to the same. */
  ghost predicate FirstAllowed(objs: Objects, ac: seq<Inst>, k: nat)
    requires k < |ac|
  {
    TargetAllowed(objs, ac[k]) && forall i :: 0 <= i < k ==> !SameTarget(ac[i], ac[k])
  }

  ghost predicate KeptByPrune(objs: Objects, ac: seq<Inst>, x: Inst) {
    exists k: nat :: k < |ac| && ac[k] == x && FirstAllowed(objs, ac, k)
  }

  ghost predicate Pruned(before: Objects, after: Objects) {
    && AC in before && OnlyObject(before, after, AC)
    && forall x :: x in after[AC] <==> KeptByPrune(before, before[AC], x)
  }

  lemma AllowedElsewhere(before: Objects, after: Objects, x: Inst)
    requires OnlyObject(before, after, AC) && AcceptableAc(x)
    ensures TargetAllowed(before, x) <==> TargetAllowed(after, x)
  {
  }

  lemma PrunedIsSound(before: Objects, after: Objects)
    requires WellFormed(before) && Pruned(before, after)
    ensures DistinctTargets(after[AC]) && TargetsAllowed(after)
  {
    var ac := before[AC];
    forall x | x in after[AC]
      ensures TargetAllowed(after, x)
    {
      AcElement(before, x);
      AllowedElsewhere(before, after, x);
    }
    forall x, y | x in after[AC] && y in after[AC] && SameTarget(x, y)
      ensures x == y
    {
      var k: nat :| k < |ac| && ac[k] == x && FirstAllowed(before, ac, k);
      var j: nat :| j < |ac| && ac[j] == y && FirstAllowed(before, ac, j);
      assert !(k < j) && !(j < k);
    }
  }

  // ----- Purging dead servers -----

  /** An orphaned Access Control instance takes the Instance it governs with it. */
  ghost predicate Condemned(ac: seq<Inst>, live: set<Id>, oid: Id, iid: int) {
    exists x :: x in ac && Targets(x, oid, iid) && Orphan(x, live)
  }

  ghost predicate SurvivesAs(ac: seq<Inst>, live: set<Id>, y: Inst) {
    exists x :: x in ac && x.AccessControl? && !Orphan(x, live) && y == Rewritten(x, live)
  }

  /** The Instances of an Object that no orphan governs. */
  ghost predicate Spared(before: seq<Inst>, after: seq<Inst>, ac: seq<Inst>, live: set<Id>, oid: Id) {
    forall x :: x in after <==> x in before && !Condemned(ac, live, oid, x.iid)
  }

  ghost predicate PurgedOf(before: Objects, after: Objects, live: set<Id>) {
    && AC in before && before.Keys == after.Keys
    && (forall oid :: oid in before && oid != AC ==> Spared(before[oid], after[oid], before[AC], live, oid))
    && forall y :: y in after[AC] <==> SurvivesAs(before[AC], live, y)
  }

  /** An Instance survives unless an orphan governs it. */
  lemma SurvivesUnlessCondemned(before: Objects, after: Objects, live: set<Id>, oid: Id, iid: int)
    requires PurgedOf(before, after, live) && oid != AC
    ensures Exists(after, oid, iid) <==> Exists(before, oid, iid) && !Condemned(before[AC], live, oid, iid)
  {
    if oid in before {
      assert Spared(before[oid], after[oid], before[AC], live, oid);
      HasMeans(before[oid], iid);
      HasMeans(after[oid], iid);
    }
  }

  lemma PurgeLeavesLive(before: Objects, after: Objects, live: set<Id>)
    requires PurgedOf(before, after, live)
    ensures AclsKeepable(after[AC], live)
  {
    forall y | y in after[AC]
      ensures y.AccessControl? && forall e :: e in y.acl ==> Keepable(e.ssid, live)
    {
      assert SurvivesAs(before[AC], live, y);
      var x :| x in before[AC] && x.AccessControl? && !Orphan(x, live) && y == Rewritten(x, live);
      RewrittenIsPurged(x, live);
    }
  }

  lemma PurgeKeepsDistinct(before: Objects, after: Objects, live: set<Id>)
    requires PurgedOf(before, after, live) && DistinctTargets(before[AC])
    ensures DistinctTargets(after[AC])
  {
    forall y, z | y in after[AC] && z in after[AC] && SameTarget(y, z)
      ensures y == z
    {
      assert SurvivesAs(before[AC], live, y) && SurvivesAs(before[AC], live, z);
      var x :| x in before[AC] && x.AccessControl? && !Orphan(x, live) && y == Rewritten(x, live);
      var w :| w in before[AC] && w.AccessControl? && !Orphan(w, live) && z == Rewritten(w, live);
      assert SameTarget(x, w);
    }
  }

  lemma PurgeKeepsAllowed(before: Objects, after: Objects, live: set<Id>)
    requires WellFormed(before) && PurgedOf(before, after, live)
    requires DistinctTargets(before[AC]) && TargetsAllowed(before)
    ensures TargetsAllowed(after)
  {
    forall y | y in after[AC]
      ensures TargetAllowed(after, y)
    {
      assert SurvivesAs(before[AC], live, y);
      var x :| x in before[AC] && x.AccessControl? && !Orphan(x, live) && y == Rewritten(x, live);
      AcElement(before, x);
      SurvivorStaysAllowed(before, after, live, x);
    }
  }

  /** The target of an instance that stays cannot be condemned by another one. */
  lemma SurvivorStaysAllowed(before: Objects, after: Objects, live: set<Id>, x: Inst)
    requires PurgedOf(before, after, live) && DistinctTargets(before[AC])
    requires x in before[AC] && AcceptableAc(x) && !Orphan(x, live) && TargetAllowed(before, x)
    ensures Allowed(after, x.oid, x.oiid)
  {
    SurvivesUnlessCondemned(before, after, live, x.oid, x.oiid);
    assert forall w :: w in before[AC] && SameTarget(x, w) ==> x == w;
  }

  /** The Security object is untouched unless something governs one of its Instances. */
  lemma SameLiveSsids(before: Objects, after: Objects, live: set<Id>)
    requires WellFormed(before) && WellFormed(after) && PurgedOf(before, after, live)
    requires forall x :: x in before[AC] && x.AccessControl? ==> x.oid != OID_SECURITY
    ensures LiveSsids(after) == LiveSsids(before)
  {
    if OID_SECURITY in before {
      var s, t := before[OID_SECURITY], after[OID_SECURITY];
      AllAreSecurity(s);
      AllAreSecurity(t);
      assert Spared(s, t, before[AC], live, OID_SECURITY);
      SameSsids(s, t);
      SameSsids(t, s);
    }
  }

  lemma SameSsids(s: seq<Inst>, t: seq<Inst>)
    requires AllSecurity(s) && AllSecurity(t) && forall x :: x in s ==> x in t
    ensures SsidsIn(s) <= SsidsIn(t)
  {
    forall ssid | ssid in SsidsIn(s)
      ensures ssid in SsidsIn(t)
    {
      var i :| 0 <= i < |s| && SsidOf(s[i]) == Some(ssid);
      assert s[i] in t;
      var j :| 0 <= j < |t| && t[j] == s[i];
    }
  }

  /** What comes before the instance that a lookup finds is not what it looks for. */
  lemma ComesBefore(ac: seq<Inst>, w: Inst, x: Inst, oid: Id, iid: Id)
    requires ListOk(AC, ac) && w in ac && w.iid < x.iid && Governs(ac, x, oid, iid)
    ensures w.AccessControl? && w.oiid != UNSET && !Targets(w, oid, iid)
  {
    ListOkMeans(AC, ac);
    var k: nat :| k < |ac| && ac[k] == x && FirstAt(ac, k, oid, iid);
    var j: nat :| j < |ac| && ac[j] == w;
    assert j < k;
  }

  /**
   Purging changes nothing for the servers that remain: whatever governs a target governs it
   afterwards, in its rewritten form, and allows every live server the same as before.
   */
  lemma PurgeKeepsRights(before: Objects, after: Objects, live: set<Id>, x: Inst, oid: Id, iid: Id, ssid: Id, mask: Mask)
    requires WellFormed(before) && WellFormed(after) && PurgedOf(before, after, live)
    requires forall z :: z in before[AC] ==> z.AccessControl? && z.oiid != UNSET
    requires Governs(before[AC], x, oid, iid) && !Orphan(x, live) && Keepable(ssid, live)
    ensures Governs(after[AC], Rewritten(x, live), oid, iid)
    ensures MayDo(x.acl, x.owner, ssid, mask)
      <==> MayDo(Rewritten(x, live).acl, Rewritten(x, live).owner, ssid, mask)
  {
    SameRights(x, live, ssid, mask);
    var y := Rewritten(x, live);
    assert SurvivesAs(before[AC], live, y);
    var k: nat :| k < |after[AC]| && after[AC][k] == y;
    ListOkMeans(AC, after[AC]);
    forall i | 0 <= i < k
      ensures after[AC][i].AccessControl? && after[AC][i].oiid != UNSET && !Targets(after[AC][i], oid, iid)
    {
      assert SurvivesAs(before[AC], live, after[AC][i]);
      var w :| w in before[AC] && w.AccessControl? && !Orphan(w, live) && after[AC][i] == Rewritten(w, live);
      ComesBefore(before[AC], w, x, oid, iid);
    }
    assert FirstAt(after[AC], k, oid, iid);
  }

  // ----- Governing what is new -----

  /** The queue reports the Instance as new, in an Object that Access Control applies to. */
  ghost predicate KnownAdded(q: seq<ObjectEntry>, oid: Id, iid: int) {
    && oid != OID_SECURITY && oid != AC
    && exists k: nat :: k < |q| && q[k].oid == oid && iid in q[k].knownAdded
  }

  /** Full rights but Create for the server that made the change, which becomes the owner. */
  ghost predicate NewGrant(ac: seq<Inst>, y: Inst, q: seq<ObjectEntry>, origin: Id) {
    && y.AccessControl? && y.owner == origin && y.acl == [AclEntry(origin, MASK_FULL_BUT_CREATE)]
    && KnownAdded(q, y.oid, y.oiid)
    && forall x :: x in ac ==> !SameTarget(x, y)
  }

  ghost predicate Governed(ac: seq<Inst>, oid: Id, iid: int) {
    exists y :: y in ac && Targets(y, oid, iid)
  }

  ghost predicate AddedTo(before: Objects, after: Objects, q: seq<ObjectEntry>, origin: Id) {
    && AC in before && OnlyObject(before, after, AC)
    && (forall x :: x in before[AC] ==> x in after[AC])
    && (forall y :: y in after[AC] ==> y in before[AC] || NewGrant(before[AC], y, q, origin))
    && (forall oid: Id, iid: int :: KnownAdded(q, oid, iid) ==> Governed(after[AC], oid, iid))
    && (DistinctTargets(before[AC]) ==> DistinctTargets(after[AC]))
  }

  /** Exactly when what the queue reports as new is really there. */
  ghost predicate NewOnesExist(objs: Objects, q: seq<ObjectEntry>) {
    forall oid: Id, iid: int :: KnownAdded(q, oid, iid) ==> Allowed(objs, oid, iid)
  }

  lemma AddingIsSound(before: Objects, after: Objects, q: seq<ObjectEntry>, origin: Id)
    requires WellFormed(before) && WellFormed(after) && AddedTo(before, after, q, origin)
    ensures TargetsAllowed(before) ==> (TargetsAllowed(after) <==> NewOnesExist(after, q))
    ensures forall live: set<Id> :: AclsKeepable(before[AC], live) && Keepable(origin, live) ==> AclsKeepable(after[AC], live)
  {
    if TargetsAllowed(before) {
      forall y | y in after[AC] && NewOnesExist(after, q)
        ensures TargetAllowed(after, y)
      {
        AcElement(after, y);
        AllowedElsewhere(before, after, y);
      }
      forall oid: Id, iid: int | TargetsAllowed(after) && KnownAdded(q, oid, iid)
        ensures Allowed(after, oid, iid)
      {
        assert Governed(after[AC], oid, iid);
      }
    }
  }
}

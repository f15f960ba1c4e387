/**
 The steps of Access Control synchronisation on values: which repairs a change calls for, what each
 of them has done so far while it is under way, and what they establish together.
 */
module AccessSteps {
  import opened Ids
  import opened Instances
  import opened DataModel
  import opened AccessMask
  import opened AccessPurge
  import opened AclValidation
  import opened AccessRepair
  import opened NotifyQueue

  const RID_ACL: Id := 2
  const RID_OWNER: Id := 3

  // ----- What has to be repaired -----

  /** A change of their instances may leave Access Control instances without a valid server. */
  predicate Governing(oid: Id) {
    oid == OID_SECURITY || oid == OID_SERVER || oid == OID_ACCESS_CONTROL
  }

  /** Access Control applies to the Object. */
  predicate Governable(oid: Id) {
    oid != OID_SECURITY && oid != OID_ACCESS_CONTROL
  }

  predicate AddsTo(e: ObjectEntry) {
    e.instanceSetChanged && Governable(e.oid) && e.knownAdded != []
  }

  ghost predicate MightOrphan(q: seq<ObjectEntry>) {
    exists k: nat :: k < |q| && q[k].instanceSetChanged && Governing(q[k].oid)
  }

  ghost predicate MightRemove(q: seq<ObjectEntry>) {
    exists k: nat :: k < |q| && q[k].instanceSetChanged && Governable(q[k].oid)
  }

  ghost predicate HaveAdds(q: seq<ObjectEntry>, origin: Id) {
    origin != SSID_BOOTSTRAP && exists k: nat :: k < |q| && AddsTo(q[k])
  }

  lemma AddsComeWithRemoves(q: seq<ObjectEntry>, origin: Id)
    ensures HaveAdds(q, origin) ==> MightRemove(q)
  {
    if HaveAdds(q, origin) {
      var k: nat :| k < |q| && AddsTo(q[k]);
    }
  }

  /** Instances of the Object have come or gone. */
  ghost predicate SetChanged(q: seq<ObjectEntry>, oid: Id) {
    exists k: nat :: k < |q| && q[k].oid == oid && q[k].instanceSetChanged
  }

  /** What calls for which repair, in Object IDs: 0 is Security, 1 Server and 2 Access Control. */
  lemma FlagsMean(q: seq<ObjectEntry>, origin: Id)
    requires ValidQueue(q)
    ensures MightOrphan(q) <==> SetChanged(q, 0) || SetChanged(q, 1) || SetChanged(q, 2)
    ensures MightRemove(q) <==> exists oid: Id :: oid != 0 && oid != 2 && SetChanged(q, oid)
    ensures HaveAdds(q, origin) <==> origin != 0xFFFF && exists oid: Id, iid: int :: KnownAdded(q, oid, iid)
  {
    if MightOrphan(q) {
      var k: nat :| k < |q| && q[k].instanceSetChanged && Governing(q[k].oid);
      assert SetChanged(q, q[k].oid);
    }
    if MightRemove(q) {
      var k: nat :| k < |q| && q[k].instanceSetChanged && Governable(q[k].oid);
      assert SetChanged(q, q[k].oid);
    }
    if HaveAdds(q, origin) {
      var k: nat :| k < |q| && AddsTo(q[k]);
      assert q[k].knownAdded[0] in q[k].knownAdded;
      assert KnownAdded(q, q[k].oid, q[k].knownAdded[0]);
    }
    if oid: Id, iid: int :| origin != 0xFFFF && KnownAdded(q, oid, iid) {
      var k: nat :| k < |q| && q[k].oid == oid && iid in q[k].knownAdded;
      assert ValidEntry(q[k]);
      assert AddsTo(q[k]);
    }
  }

  lemma ChangesStep(q: seq<ObjectEntry>, i: nat, origin: Id)
    requires i < |q|
    ensures MightOrphan(q[..i + 1]) <==> MightOrphan(q[..i]) || (q[i].instanceSetChanged && Governing(q[i].oid))
    ensures MightRemove(q[..i + 1]) <==> MightRemove(q[..i]) || (q[i].instanceSetChanged && Governable(q[i].oid))
    ensures HaveAdds(q[..i + 1], origin) <==> (HaveAdds(q[..i], origin) || (origin != SSID_BOOTSTRAP && AddsTo(q[i])))
  {
    var now := q[..i + 1];
    assert now[i] == q[i] && forall k: nat :: k < i ==> now[k] == q[..i][k];
  }

  lemma ChangesStay(q: seq<ObjectEntry>, i: nat, origin: Id)
    requires i <= |q|
    ensures MightOrphan(q[..i]) ==> MightOrphan(q)
    ensures MightRemove(q[..i]) ==> MightRemove(q)
    ensures HaveAdds(q[..i], origin) ==> HaveAdds(q, origin)
  {
    assert forall k: nat :: k < i ==> q[..i][k] == q[k];
  }

  // ----- What the new notifications say -----

  ghost predicate SameIds(a: seq<Inst>, b: seq<Inst>) {
    forall i :: Has(a, i) <==> Has(b, i)
  }

  /** Every Object whose set of Instances differs is reported as changed. */
  ghost predicate Announces(before: Objects, after: Objects, q: seq<ObjectEntry>) {
    && before.Keys == after.Keys
    && forall oid :: oid in before && !About(q, oid).instanceSetChanged ==> SameIds(before[oid], after[oid])
  }

  lemma AnnouncesOne(a: Objects, b: Objects, c: Objects, q: seq<ObjectEntry>, q': seq<ObjectEntry>, oid: Id)
    requires Announces(a, b, q) && OnlyObject(b, c, oid)
    requires OthersUnchanged(q, q', oid) && About(q', oid).instanceSetChanged
    ensures Announces(a, c, q')
  {
  }

  ghost predicate SameResources(q: seq<ObjectEntry>, q': seq<ObjectEntry>) {
    forall oid: Id :: About(q', oid).resourcesChanged == About(q, oid).resourcesChanged
  }

  lemma SameAndSame(a: seq<ObjectEntry>, b: seq<ObjectEntry>, c: seq<ObjectEntry>)
    requires SameResources(a, b) && SameResources(b, c)
    ensures SameResources(a, c)
  {
  }

  lemma SameResourcesOne(q: seq<ObjectEntry>, q': seq<ObjectEntry>, oid: Id)
    requires OthersUnchanged(q, q', oid) && About(q', oid).resourcesChanged == About(q, oid).resourcesChanged
    ensures SameResources(q, q')
  {
  }

  /** Nothing reported is forgotten. */
  ghost predicate MoreResources(q: seq<ObjectEntry>, q': seq<ObjectEntry>) {
    && (forall oid: Id, e :: e in About(q, oid).resourcesChanged ==> e in About(q', oid).resourcesChanged)
    && (forall oid: Id :: About(q', oid).instanceSetChanged == About(q, oid).instanceSetChanged)
  }

  lemma MoreAndMore(a: seq<ObjectEntry>, b: seq<ObjectEntry>, c: seq<ObjectEntry>)
    requires MoreResources(a, b) && MoreResources(b, c)
    ensures MoreResources(a, c)
  {
  }

  /** A Resource of an Access Control instance is reported as changed. */
  ghost predicate Reported(q: seq<ObjectEntry>, iid: Id, rid: Id) {
    ResourceEntry(iid, rid) in About(q, AC).resourcesChanged
  }

  // ----- Dangling and repeated instances -----

  ghost predicate AllReadable(ac: seq<Inst>) {
    forall x :: x in ac ==> x.AccessControl? && x.oiid != UNSET
  }

  ghost predicate ReadableUpTo(ac: seq<Inst>, n: nat) {
    n <= |ac| && forall i :: 0 <= i < n ==> ac[i].AccessControl? && ac[i].oiid != UNSET
  }

  lemma AllReadableUpTo(ac: seq<Inst>)
    ensures ReadableUpTo(ac, |ac|) <==> AllReadable(ac)
  {
    assert forall i :: 0 <= i < |ac| ==> ac[i] in ac;
  }

  /** What is left when the Instances `iids` are gone. */
  ghost predicate LeftOver(before: seq<Inst>, after: seq<Inst>, iids: seq<Id>) {
    forall x :: x in after <==> x in before && x.iid !in iids
  }

  lemma LeftOverStep(before: seq<Inst>, now: seq<Inst>, iids: seq<Id>, n: nat)
    requires n < |iids| && LeftOver(before, now, iids[..n])
    ensures LeftOver(before, Without(now, iids[n]), iids[..n + 1])
  {
    assert iids[..n + 1] == iids[..n] + [iids[n]];
  }

  /** Of the first `n` instances, those whose target is not allowed or was met before are listed. */
  ghost predicate ToRemove(objs: Objects, ac: seq<Inst>, n: nat, iids: seq<Id>) {
    && n <= |ac|
    && (forall k: nat :: k < n ==> (ac[k].iid in iids <==> !FirstAllowed(objs, ac, k)))
    && (forall iid :: iid in iids ==> exists k: nat :: k < n && ac[k].iid == iid)
    && NoneTwice(iids)
  }

  ghost predicate NoneTwice(iids: seq<Id>) {
    forall i, j :: 0 <= i < j < |iids| ==> iids[i] != iids[j]
  }

  /** From the `n`th on, all are there to be removed one after the other. */
  ghost predicate Removable(s: seq<Inst>, iids: seq<Id>, n: nat) {
    n <= |iids| && NoneTwice(iids) && forall i :: n <= i < |iids| ==> Has(s, iids[i])
  }

  lemma RemovableStep(s: seq<Inst>, iids: seq<Id>, n: nat)
    requires n < |iids| && Removable(s, iids, n)
    ensures Removable(Without(s, iids[n]), iids, n + 1)
  {
    forall i | n + 1 <= i < |iids|
      ensures Has(Without(s, iids[n]), iids[i])
    {
      HasMeans(s, iids[i]);
      HasMeans(Without(s, iids[n]), iids[i]);
    }
  }

  lemma ToRemoveIsRemovable(objs: Objects, ac: seq<Inst>, iids: seq<Id>)
    requires ToRemove(objs, ac, |ac|, iids)
    ensures Removable(ac, iids, 0)
  {
    assert forall i :: 0 <= i < |iids| ==> iids[i] in iids;
  }

  lemma OneMoreOnce(iids: seq<Id>, iid: Id)
    requires NoneTwice(iids) && iid !in iids
    ensures NoneTwice([iid] + iids)
  {
    assert forall i :: 0 <= i < |iids| ==> iids[i] in iids;
  }

  lemma ToRemoveStep(objs: Objects, ac: seq<Inst>, n: nat, iids: seq<Id>)
    requires ListOk(AC, ac) && n < |ac| && ToRemove(objs, ac, n, iids)
    ensures ToRemove(objs, ac, n + 1, if FirstAllowed(objs, ac, n) then iids else [ac[n].iid] + iids)
  {
    UniqueIid(AC, ac, n);
    StillListed(ac, n, iids);
    if !FirstAllowed(objs, ac, n) {
      OneMoreListed(objs, ac, n, iids);
    }
  }

  lemma StillListed(ac: seq<Inst>, n: nat, iids: seq<Id>)
    requires n < |ac| && forall iid :: iid in iids ==> exists k: nat :: k < n && ac[k].iid == iid
    requires forall i :: 0 <= i < |ac| && i != n ==> ac[i].iid != ac[n].iid
    ensures ac[n].iid !in iids && forall iid :: iid in iids ==> exists k: nat :: k < n + 1 && ac[k].iid == iid
  {
    forall iid | iid in iids
      ensures exists k: nat :: k < n + 1 && ac[k].iid == iid
    {
      var k: nat :| k < n && ac[k].iid == iid;
      assert k < n + 1;
    }
  }

  lemma OneMoreListed(objs: Objects, ac: seq<Inst>, n: nat, iids: seq<Id>)
    requires n < |ac| && ToRemove(objs, ac, n, iids) && !FirstAllowed(objs, ac, n)
    requires forall i :: 0 <= i < |ac| && i != n ==> ac[i].iid != ac[n].iid
    ensures ToRemove(objs, ac, n + 1, [ac[n].iid] + iids)
  {
    var more := [ac[n].iid] + iids;
    StillListed(ac, n, iids);
    OneMoreOnce(iids, ac[n].iid);
    forall k: nat | k < n + 1
      ensures ac[k].iid in more <==> !FirstAllowed(objs, ac, k)
    {
      assert k < n ==> ac[k].iid != ac[n].iid && (ac[k].iid in iids <==> !FirstAllowed(objs, ac, k));
    }
    forall iid | iid in more
      ensures exists k: nat :: k < n + 1 && ac[k].iid == iid
    {
      assert iid == ac[n].iid || iid in iids;
    }
  }

  lemma FirstAllowedMeans(objs: Objects, ac: seq<Inst>, k: nat)
    requires k < |ac| && forall i :: 0 <= i < |ac| ==> ac[i].AccessControl?
    requires 0 <= ac[k].oiid <= 0xFFFF
    ensures FirstAllowed(objs, ac, k) <==>
      Allowed(objs, ac[k].oid, ac[k].oiid) && !TargetAmong(ac[..k], ac[k].oid, ac[k].oiid)
  {
  }

  lemma PruneResult(before: Objects, after: Objects, iids: seq<Id>)
    requires WellFormed(before) && AC in before && OnlyObject(before, after, AC)
    requires ToRemove(before, before[AC], |before[AC]|, iids)
    requires LeftOver(before[AC], after[AC], iids)
    ensures Pruned(before, after)
  {
    var ac := before[AC];
    forall x
      ensures x in after[AC] <==> KeptByPrune(before, ac, x)
    {
      if x in ac {
        var k: nat :| k < |ac| && ac[k] == x;
        UniqueIid(AC, ac, k);
        assert FirstAllowed(before, ac, k) ==> KeptByPrune(before, ac, x);
      }
    }
  }

  // ----- Rewriting an instance -----

  lemma ReplacedAt(before: Objects, after: Objects, k: nat, w: AcWrite)
    requires WellFormed(before) && AC in before && k < |before[AC]| && Replaces(before, after, before[AC][k].iid, w)
    ensures ReplacesAt(before, after, k, before[AC][k].iid, w) && OnlyObject(before, after, AC)
  {
    var iid := before[AC][k].iid;
    var j: nat :| ReplacesAt(before, after, j, iid, w);
    UniqueIid(AC, before[AC], k);
  }

  lemma UpdatedTwice(s: seq<Inst>, k: nat, a: Inst, b: Inst)
    requires k < |s|
    ensures s[k := a][k := b] == s[k := b]
  {
  }

  ghost function NewOwner(x: Inst, acl: seq<AclEntry>, ownerValid: bool): Inst
    requires x.AccessControl? && acl != []
  {
    x.(owner := if ownerValid then x.owner else Elected(acl))
  }

  ghost function WithAcl(x: Inst, acl: seq<AclEntry>): Inst
    requires x.AccessControl?
  {
    x.(hasAcl := true, acl := acl)
  }

  lemma ResetGives(x: Inst, acl: seq<AclEntry>)
    requires AcceptableAc(x)
    ensures Written(x, ResetAcl) == Some(WithAcl(x, acl[..0]))
  {
  }

  lemma AclSetAtEnd(acl: seq<AclEntry>, n: nat)
    requires AscendingSsids(acl) && n < |acl|
    ensures AclSet(acl[..n], acl[n].ssid, acl[n].mask) == acl[..n + 1]
  {
    var k := AclPosition(acl[..n], acl[n].ssid);
    assert k == n;
  }

  lemma AppendEntry(ac: seq<Inst>, k: nat, acl: seq<AclEntry>, n: nat)
    requires k < |ac| && ac[k].AccessControl? && AscendingSsids(acl) && n < |acl|
    ensures var now := ac[k := WithAcl(ac[k], acl[..n])];
      var w := Acl(acl[n].ssid, acl[n].mask);
      AcceptableAc(now[k]) ==>
        (Written(now[k], w).Some? && now[k := Written(now[k], w).value] == ac[k := WithAcl(ac[k], acl[..n + 1])])
  {
    AclSetAtEnd(acl, n);
  }

  // ----- Purging the instances -----

  /** A rewritten ACL, and a new owner, are reported. */
  ghost predicate Told(x: Inst, live: set<Id>, q: seq<ObjectEntry>)
    requires x.AccessControl?
  {
    && (Affected(x, live) ==> Reported(q, x.iid, RID_ACL))
    && (Affected(x, live) && OwnerDropped(x.acl, x.owner, live) ==> Reported(q, x.iid, RID_OWNER))
  }

  /** The `k`th instance has been dealt with, and what was done to it is reported. */
  ghost predicate Processed(ac: seq<Inst>, k: nat, live: set<Id>, now: seq<Inst>, orphan: bool, q: seq<ObjectEntry>)
    requires k < |ac|
  {
    && AcceptableAc(ac[k]) && ac[k].oiid != UNSET && !Doomed(ac[k], live)
    && orphan == Orphan(ac[k], live) && now == ac[k := Rewritten(ac[k], live)]
    && Told(ac[k], live, q)
  }

  datatype OrphanInfo = OrphanInfo(acIid: Id, oid: Id, oiid: int)

  ghost predicate MarkedFor(x: Inst, live: set<Id>, m: OrphanInfo) {
    x.AccessControl? && Orphan(x, live) && m == OrphanInfo(x.iid, x.oid, x.oiid)
  }

  ghost predicate ProcessedAt(x: Inst, live: set<Id>, y: Inst, marked: seq<OrphanInfo>, q: seq<ObjectEntry>) {
    && AcceptableAc(x) && x.oiid != UNSET && !Doomed(x, live) && y == Rewritten(x, live) && Told(x, live, q)
    && (Orphan(x, live) ==> OrphanInfo(x.iid, x.oid, x.oiid) in marked)
  }

  /** The first `k` instances have been dealt with, each orphan marked once. */
  ghost predicate AllProcessed(ac: seq<Inst>, k: nat, live: set<Id>, now: seq<Inst>, marked: seq<OrphanInfo>,
                               q: seq<ObjectEntry>)
  {
    ProcessedTo(ac, k, live, now, marked, q) && NoneTwice(AcIids(marked))
  }

  ghost predicate ProcessedTo(ac: seq<Inst>, k: nat, live: set<Id>, now: seq<Inst>, marked: seq<OrphanInfo>,
                               q: seq<ObjectEntry>)
  {
    && k <= |ac| && |now| == |ac| && (forall i :: k <= i < |ac| ==> now[i] == ac[i])
    && (forall i :: 0 <= i < k ==> ProcessedAt(ac[i], live, now[i], marked, q))
    && (forall m :: m in marked ==> exists i: nat :: i < k && MarkedFor(ac[i], live, m))
  }

  ghost function AcIids(marked: seq<OrphanInfo>): (r: seq<Id>)
    ensures |r| == |marked| && forall i :: 0 <= i < |r| ==> r[i] == marked[i].acIid
  {
    seq(|marked|, i requires 0 <= i < |marked| => marked[i].acIid)
  }

  lemma MarkedTwice(ac: seq<Inst>, k: nat, live: set<Id>, marked: seq<OrphanInfo>)
    requires ListOk(AC, ac) && k < |ac| && ac[k].AccessControl? && NoneTwice(AcIids(marked))
    requires forall m :: m in marked ==> exists i: nat :: i < k && MarkedFor(ac[i], live, m)
    ensures NoneTwice(AcIids(marked + [OrphanInfo(ac[k].iid, ac[k].oid, ac[k].oiid)]))
  {
    UniqueIid(AC, ac, k);
    forall i | 0 <= i < |marked|
      ensures marked[i].acIid != ac[k].iid
    {
      assert marked[i] in marked;
      var j: nat :| j < k && MarkedFor(ac[j], live, marked[i]);
    }
    forall i, j | 0 <= i < j < |marked|
      ensures marked[i].acIid != marked[j].acIid
    {
      assert AcIids(marked)[i] != AcIids(marked)[j];
    }
  }

  lemma MarkedIsRemovable(before: Objects, live: set<Id>, now: seq<Inst>, marked: seq<OrphanInfo>, q: seq<ObjectEntry>)
    requires AC in before && AllProcessed(before[AC], |before[AC]|, live, now, marked, q)
    ensures Removable(now, AcIids(marked), 0)
  {
    var ac, iids := before[AC], AcIids(marked);
    forall n | 0 <= n < |iids|
      ensures Has(now, iids[n])
    {
      assert marked[n] in marked;
      var i: nat :| i < |ac| && MarkedFor(ac[i], live, marked[n]);
      assert ProcessedAt(ac[i], live, now[i], marked, q) && now[i].iid == iids[n];
    }
  }

  /** Nothing keeps the instance from being purged. */
  ghost predicate Purges(x: Inst, live: set<Id>) {
    x.AccessControl? && x.oiid != UNSET && !Doomed(x, live)
  }

  ghost predicate AllPurge(ac: seq<Inst>, live: set<Id>) {
    forall i :: 0 <= i < |ac| ==> Purges(ac[i], live)
  }

  lemma ProcessedStep(ac: seq<Inst>, k: nat, live: set<Id>, now: seq<Inst>, after: seq<Inst>, marked: seq<OrphanInfo>,
                      orphan: bool, q: seq<ObjectEntry>, q': seq<ObjectEntry>)
    requires ListOk(AC, ac) && k < |ac| && AllProcessed(ac, k, live, now, marked, q) && MoreResources(q, q')
    requires Processed(now, k, live, after, orphan, q')
    ensures ac[k].AccessControl? && now[k] == ac[k]
    ensures AllProcessed(ac, k + 1, live, after,
                         if orphan then marked + [OrphanInfo(ac[k].iid, ac[k].oid, ac[k].oiid)] else marked, q')
  {
    OneMoreProcessed(ac, k, live, now, after, marked, orphan, q, q');
    MarkedTwice(ac, k, live, marked);
  }

  lemma OneMoreProcessed(ac: seq<Inst>, k: nat, live: set<Id>, now: seq<Inst>, after: seq<Inst>, marked: seq<OrphanInfo>,
                         orphan: bool, q: seq<ObjectEntry>, q': seq<ObjectEntry>)
    requires k < |ac| && ProcessedTo(ac, k, live, now, marked, q) && MoreResources(q, q')
    requires Processed(now, k, live, after, orphan, q')
    ensures ac[k].AccessControl? && now[k] == ac[k]
    ensures ProcessedTo(ac, k + 1, live, after,
                        if orphan then marked + [OrphanInfo(ac[k].iid, ac[k].oid, ac[k].oiid)] else marked, q')
  {
    var marked' := if orphan then marked + [OrphanInfo(ac[k].iid, ac[k].oid, ac[k].oiid)] else marked;
    forall i | 0 <= i < k
      ensures ProcessedAt(ac[i], live, after[i], marked', q')
    {
      assert ProcessedAt(ac[i], live, now[i], marked, q);
    }
    forall m | m in marked'
      ensures exists i: nat :: i < k + 1 && MarkedFor(ac[i], live, m)
    {
      if m in marked {
        var i: nat :| i < k && MarkedFor(ac[i], live, m);
      } else {
        assert MarkedFor(ac[k], live, m);
      }
    }
  }

  /** Every instance could be read and purged, and what was rewritten is reported. */
  ghost predicate Purgeable(ac: seq<Inst>, live: set<Id>, q: seq<ObjectEntry>) {
    forall x :: x in ac ==> x.AccessControl? && x.oiid != UNSET && !Doomed(x, live) && Told(x, live, q)
  }

  ghost predicate ReadableSsids(objs: Objects) {
    OID_SECURITY in objs ==>
      forall i :: 0 <= i < |objs[OID_SECURITY]| ==>
        objs[OID_SECURITY][i].Security? && SsidOf(objs[OID_SECURITY][i]).Some?
  }

  ghost predicate CanPurge(objs: Objects)
    requires WellFormed(objs) && AC in objs
  {
    ReadableSsids(objs) && AllPurge(objs[AC], LiveSsids(objs))
  }

  // ----- Removing the orphans -----

  ghost function Last(gone: seq<OrphanInfo>): OrphanInfo
    requires gone != []
  {
    gone[|gone| - 1]
  }

  ghost predicate TakenAlong(gone: seq<OrphanInfo>, oid: Id, iid: int) {
    gone != [] && ((Last(gone).oid == oid && Last(gone).oiid == iid) || TakenAlong(gone[..|gone| - 1], oid, iid))
  }

  ghost predicate Marked(gone: seq<OrphanInfo>, iid: Id) {
    gone != [] && (Last(gone).acIid == iid || Marked(gone[..|gone| - 1], iid))
  }

  lemma {:induction false} MarkedMeans(gone: seq<OrphanInfo>)
    ensures forall oid, iid: int :: TakenAlong(gone, oid, iid) <==> exists m :: m in gone && m.oid == oid && m.oiid == iid
    ensures forall iid :: Marked(gone, iid) <==> exists m :: m in gone && m.acIid == iid
  {
    if gone == [] {
    } else {
      MarkedMeans(gone[..|gone| - 1]);
      assert gone == gone[..|gone| - 1] + [Last(gone)];
    }
  }

  ghost predicate LeftIn(before: seq<Inst>, after: seq<Inst>, gone: seq<OrphanInfo>, oid: Id) {
    forall x :: x in after <==> x in before && !TakenAlong(gone, oid, x.iid)
  }

  /** What is left when the marked orphans and what they govern are gone. */
  ghost predicate Gone(mid: Objects, now: Objects, gone: seq<OrphanInfo>) {
    && mid.Keys == now.Keys && AC in mid
    && (forall oid :: oid in mid && oid != AC ==> LeftIn(mid[oid], now[oid], gone, oid))
    && forall x :: x in now[AC] <==> x in mid[AC] && !Marked(gone, x.iid)
  }

  lemma PrefixStep(s: seq<OrphanInfo>, n: nat)
    requires n < |s|
    ensures s[..n + 1] == s[..n] + [s[n]]
  {
  }

  lemma PrefixEnds(s: seq<OrphanInfo>)
    ensures s[..0] == [] && s[..|s|] == s
  {
  }

  lemma GoneStep(mid: Objects, b: Objects, c: Objects, d: Objects, gone: seq<OrphanInfo>, m: OrphanInfo)
    requires Gone(mid, b, gone) && m.oid != AC && OnlyObject(b, c, m.oid)
    requires m.oid in c ==> forall x :: x in c[m.oid] <==> x in b[m.oid] && x.iid != m.oiid
    requires d == c[AC := Without(c[AC], m.acIid)]
    ensures Gone(mid, d, gone + [m])
  {
    assert (gone + [m])[..|gone|] == gone && Last(gone + [m]) == m;
    forall oid | oid in mid && oid != AC
      ensures LeftIn(mid[oid], d[oid], gone + [m], oid)
    {
      assert LeftIn(mid[oid], b[oid], gone, oid);
    }
    forall x
      ensures x in d[AC] <==> x in mid[AC] && !Marked(gone + [m], x.iid)
    {
      assert x in b[AC] <==> x in mid[AC] && !Marked(gone, x.iid);
    }
  }

  lemma NothingGoneYet(start: Objects, before: Objects, mid: Objects, live: set<Id>, marked: seq<OrphanInfo>,
                       q0: seq<ObjectEntry>, q: seq<ObjectEntry>)
    requires AC in before && OnlyObject(before, mid, AC) && Announces(start, before, q0) && MoreResources(q0, q)
    requires AllProcessed(before[AC], |before[AC]|, live, mid[AC], marked, q)
    ensures Announces(start, mid, q)
    ensures forall m :: m in marked ==> m.oid != AC && 0 <= m.oiid <= 0xFFFF
  {
    var ac, now := before[AC], mid[AC];
    forall i | 0 <= i < |ac|
      ensures now[i].iid == ac[i].iid && AcceptableAc(ac[i]) && ac[i].oiid != UNSET
    {
      assert ProcessedAt(ac[i], live, now[i], marked, q);
    }
    forall m | m in marked
      ensures m.oid != AC && 0 <= m.oiid <= 0xFFFF
    {
      var i: nat :| i < |ac| && MarkedFor(ac[i], live, m);
    }
    assert SameIds(ac, now) by {
      forall i
        ensures Has(ac, i) <==> Has(now, i)
      {
      }
    }
  }

  lemma StillTold(ac: seq<Inst>, now: seq<Inst>, live: set<Id>, marked: seq<OrphanInfo>, q: seq<ObjectEntry>,
                  q': seq<ObjectEntry>)
    requires AllProcessed(ac, |ac|, live, now, marked, q) && SameResources(q, q')
    ensures Purgeable(ac, live, q')
  {
    forall x | x in ac
      ensures x.AccessControl? && x.oiid != UNSET && !Doomed(x, live) && Told(x, live, q')
    {
      var i :| 0 <= i < |ac| && ac[i] == x;
      assert ProcessedAt(ac[i], live, now[i], marked, q);
    }
  }

  lemma TakenAlongIsCondemned(ac: seq<Inst>, live: set<Id>, now: seq<Inst>, marked: seq<OrphanInfo>,
                              q: seq<ObjectEntry>, oid: Id, iid: int)
    requires AllProcessed(ac, |ac|, live, now, marked, q)
    ensures TakenAlong(marked, oid, iid) <==> Condemned(ac, live, oid, iid)
  {
    MarkedMeans(marked);
    if TakenAlong(marked, oid, iid) {
      var m :| m in marked && m.oid == oid && m.oiid == iid;
      var i: nat :| i < |ac| && MarkedFor(ac[i], live, m);
      assert ac[i] in ac;
    }
    if Condemned(ac, live, oid, iid) {
      var x :| x in ac && Targets(x, oid, iid) && Orphan(x, live);
      var i :| 0 <= i < |ac| && ac[i] == x;
      assert ProcessedAt(ac[i], live, now[i], marked, q);
    }
  }

  lemma MarkedIsOrphan(before: Objects, live: set<Id>, now: seq<Inst>, marked: seq<OrphanInfo>, q: seq<ObjectEntry>, i: nat)
    requires WellFormed(before) && AC in before && i < |before[AC]|
    requires AllProcessed(before[AC], |before[AC]|, live, now, marked, q)
    ensures before[AC][i].AccessControl? && (Marked(marked, before[AC][i].iid) <==> Orphan(before[AC][i], live))
  {
    var ac := before[AC];
    MarkedMeans(marked);
    assert ProcessedAt(ac[i], live, now[i], marked, q);
    UniqueIid(AC, ac, i);
    if Marked(marked, ac[i].iid) {
      var m :| m in marked && m.acIid == ac[i].iid;
      var j: nat :| j < |ac| && MarkedFor(ac[j], live, m);
    }
  }

  lemma SurvivorAt(before: Objects, live: set<Id>, now: seq<Inst>, marked: seq<OrphanInfo>, q: seq<ObjectEntry>, i: nat,
                   y: Inst)
    requires WellFormed(before) && AC in before && i < |before[AC]|
    requires AllProcessed(before[AC], |before[AC]|, live, now, marked, q) && now[i] == y
    ensures !Marked(marked, y.iid) ==> SurvivesAs(before[AC], live, y)
  {
    MarkedIsOrphan(before, live, now, marked, q, i);
    assert ProcessedAt(before[AC][i], live, now[i], marked, q);
    assert before[AC][i] in before[AC];
  }

  lemma PurgeResult(before: Objects, mid: Objects, after: Objects, live: set<Id>, marked: seq<OrphanInfo>,
                    q: seq<ObjectEntry>)
    requires WellFormed(before) && AC in before && OnlyObject(before, mid, AC)
    requires AllProcessed(before[AC], |before[AC]|, live, mid[AC], marked, q)
    requires Gone(mid, after, marked)
    ensures PurgedOf(before, after, live)
  {
    OthersSpared(before, mid, after, live, marked, q);
    SurvivorsLeft(before, mid, after, live, marked, q);
  }

  lemma OthersSpared(before: Objects, mid: Objects, after: Objects, live: set<Id>, marked: seq<OrphanInfo>,
                     q: seq<ObjectEntry>)
    requires AC in before && OnlyObject(before, mid, AC)
    requires AllProcessed(before[AC], |before[AC]|, live, mid[AC], marked, q)
    requires Gone(mid, after, marked)
    ensures forall oid :: oid in before && oid != AC ==> Spared(before[oid], after[oid], before[AC], live, oid)
  {
    var ac := before[AC];
    forall oid | oid in before && oid != AC
      ensures Spared(before[oid], after[oid], ac, live, oid)
    {
      assert LeftIn(mid[oid], after[oid], marked, oid);
      forall x
        ensures x in after[oid] <==> x in before[oid] && !Condemned(ac, live, oid, x.iid)
      {
        TakenAlongIsCondemned(ac, live, mid[AC], marked, q, oid, x.iid);
      }
    }
  }

  lemma SurvivorsLeft(before: Objects, mid: Objects, after: Objects, live: set<Id>, marked: seq<OrphanInfo>,
                      q: seq<ObjectEntry>)
    requires WellFormed(before) && AC in before && OnlyObject(before, mid, AC)
    requires AllProcessed(before[AC], |before[AC]|, live, mid[AC], marked, q)
    requires Gone(mid, after, marked)
    ensures forall y :: y in after[AC] <==> SurvivesAs(before[AC], live, y)
  {
    var ac := before[AC];
    forall y
      ensures y in after[AC] <==> SurvivesAs(ac, live, y)
    {
      if i: nat :| i < |ac| && mid[AC][i] == y {
        MarkedIsOrphan(before, live, mid[AC], marked, q, i);
        assert ProcessedAt(ac[i], live, mid[AC][i], marked, q);
        SurvivorAt(before, live, mid[AC], marked, q, i, y);
      }
      if SurvivesAs(ac, live, y) {
        var x :| x in ac && x.AccessControl? && !Orphan(x, live) && y == Rewritten(x, live);
        var i: nat :| i < |ac| && ac[i] == x;
        assert ProcessedAt(ac[i], live, mid[AC][i], marked, q);
        MarkedIsOrphan(before, live, mid[AC], marked, q, i);
      }
    }
  }

  // ----- Governing what is new -----

  /** All targets can be read, and there are IDs left for `n` more instances. */
  ghost predicate Roomy(ac: seq<Inst>, n: nat) {
    AllReadable(ac) && |ac| + n <= 65535
  }

  /** How many Instances are reported as new. */
  ghost function Additions(q: seq<ObjectEntry>): nat {
    if q == [] then 0 else (if Governable(q[0].oid) then |q[0].knownAdded| else 0) + Additions(q[1..])
  }

  /** Access Control instances may be about the Objects that have got new Instances. */
  ghost predicate CanGovern(q: seq<ObjectEntry>) {
    forall k :: 0 <= k < |q| && Governable(q[k].oid) && q[k].knownAdded != [] ==> q[k].oid != 0xFFFF
  }

  lemma AdditionsStep(q: seq<ObjectEntry>, n: nat)
    requires n < |q|
    ensures Additions(q[n..]) == (if Governable(q[n].oid) then |q[n].knownAdded| else 0) + Additions(q[n + 1..])
  {
    assert q[n..][1..] == q[n + 1..];
  }

  lemma GrantedRoom(before: seq<Inst>, after: seq<Inst>, oid: Id, iid: Id, origin: Id, n: nat)
    requires Granted(before, after, oid, iid, origin) && Roomy(before, n + 1)
    ensures Roomy(after, n)
  {
    if !Governed(before, oid, iid) {
      var free: Id :| after == Inserted(before, Grant(free, oid, iid, origin));
      InsertedMeans(before, Grant(free, oid, iid, origin));
    }
  }

  ghost function Pairs(oid: Id, iids: seq<Id>): set<(Id, int)> {
    if iids == [] then {} else Pairs(oid, iids[..|iids| - 1]) + {(oid, iids[|iids| - 1] as int)}
  }

  lemma {:induction false} PairsMean(oid: Id, iids: seq<Id>)
    ensures forall p :: p in Pairs(oid, iids) <==> p.0 == oid && p.1 in iids
  {
    if iids == [] {
    } else {
      PairsMean(oid, iids[..|iids| - 1]);
      assert iids == iids[..|iids| - 1] + [iids[|iids| - 1]];
    }
  }

  lemma PairsStep(oid: Id, iids: seq<Id>, n: nat, done: set<(Id, int)>)
    requires n < |iids|
    ensures done + Pairs(oid, iids[..n + 1]) == done + Pairs(oid, iids[..n]) + {(oid, iids[n] as int)}
  {
    assert iids[..n + 1][..n] == iids[..n];
  }

  lemma PairsEnds(oid: Id, iids: seq<Id>, done: set<(Id, int)>)
    ensures done + Pairs(oid, iids[..0]) == done
    ensures iids[..|iids|] == iids
  {
  }

  ghost function AllPairs(q: seq<ObjectEntry>): set<(Id, int)> {
    if q == [] then {}
    else
      var last := q[|q| - 1];
      AllPairs(q[..|q| - 1]) + if Governable(last.oid) then Pairs(last.oid, last.knownAdded) else {}
  }

  lemma AllPairsStep(q: seq<ObjectEntry>, n: nat)
    requires n < |q|
    ensures AllPairs(q[..n + 1]) ==
      AllPairs(q[..n]) + if Governable(q[n].oid) then Pairs(q[n].oid, q[n].knownAdded) else {}
  {
    assert q[..n + 1][..n] == q[..n];
  }

  lemma {:induction false} AllPairsMeans(q: seq<ObjectEntry>, oid: Id, iid: int)
    ensures (oid, iid) in AllPairs(q) <==> KnownAdded(q, oid, iid)
  {
    if q == [] {
    } else {
      var last := |q| - 1;
      AllPairsMeans(q[..last], oid, iid);
      PairsMean(q[last].oid, q[last].knownAdded);
      assert forall k: nat :: k < last ==> q[..last][k] == q[k];
    }
  }

  ghost predicate NewFor(ac: seq<Inst>, y: Inst, done: set<(Id, int)>, origin: Id) {
    && y.AccessControl? && y.owner == origin && y.acl == [AclEntry(origin, MASK_FULL_BUT_CREATE)]
    && (y.oid, y.oiid) in done
    && forall x :: x in ac ==> !SameTarget(x, y)
  }

  /** The targets in `done` are governed, by instances that were there or by new grants. */
  ghost predicate AddedFor(before: Objects, now: Objects, done: set<(Id, int)>, origin: Id) {
    && AC in before && OnlyObject(before, now, AC)
    && (forall x :: x in before[AC] ==> x in now[AC])
    && (forall y :: y in now[AC] ==> y in before[AC] || NewFor(before[AC], y, done, origin))
    && (forall p :: p in done ==> Governed(now[AC], p.0, p.1))
    && (DistinctTargets(before[AC]) ==> DistinctTargets(now[AC]))
  }

  lemma NewAmong(before: Objects, now: Objects, after: Objects, done: set<(Id, int)>, p: (Id, int), g: Inst, origin: Id)
    requires AddedFor(before, now, done, origin) && OnlyObject(now, after, AC)
    requires forall y :: y in after[AC] <==> y in now[AC] || y == g
    requires g.AccessControl? && p == (g.oid, g.oiid) && g.owner == origin
    requires g.acl == [AclEntry(origin, MASK_FULL_BUT_CREATE)] && !Governed(now[AC], g.oid, g.oiid)
    ensures AddedFor(before, after, done + {p}, origin)
  {
    forall x | x in now[AC]
      ensures !SameTarget(x, g)
    {
    }
    assert NewFor(before[AC], g, done + {p}, origin);
    forall y | y in after[AC]
      ensures y in before[AC] || NewFor(before[AC], y, done + {p}, origin)
    {
      assert y in now[AC] && y !in before[AC] ==> NewFor(before[AC], y, done, origin);
    }
    forall d | d in done + {p}
      ensures Governed(after[AC], d.0, d.1)
    {
      if d in done {
        assert Governed(now[AC], d.0, d.1);
      } else {
        assert g in after[AC] && Targets(g, d.0, d.1);
      }
    }
  }

  /** Full rights but Create for the server that made the change, which is the owner. */
  ghost function Grant(free: Id, oid: Id, iid: Id, origin: Id): Inst {
    AccessControl(free, oid, iid, origin, true, [AclEntry(origin, MASK_FULL_BUT_CREATE)])
  }

  /** The target was governed already, or it is now, by a new grant. */
  ghost predicate Granted(before: seq<Inst>, after: seq<Inst>, oid: Id, iid: Id, origin: Id) {
    if Governed(before, oid, iid) then after == before
    else exists free: Id :: after == Inserted(before, Grant(free, oid, iid, origin))
  }

  lemma AddedOne(before: Objects, now: Objects, after: Objects, done: set<(Id, int)>, oid: Id, iid: Id, origin: Id)
    requires AddedFor(before, now, done, origin) && OnlyObject(now, after, AC)
    requires Granted(now[AC], after[AC], oid, iid, origin)
    ensures AddedFor(before, after, done + {(oid, iid as int)}, origin)
  {
    var p := (oid, iid as int);
    if Governed(now[AC], oid, iid) {
      assert Governed(now[AC], p.0, p.1);
    } else {
      var free: Id :| after[AC] == Inserted(now[AC], Grant(free, oid, iid, origin));
      var g := Grant(free, oid, iid, origin);
      InsertedMeans(now[AC], g);
      NewAmong(before, now, after, done, p, g, origin);
    }
  }

  lemma AddsResult(before: Objects, after: Objects, q: seq<ObjectEntry>, origin: Id)
    requires AddedFor(before, after, AllPairs(q), origin)
    ensures AddedTo(before, after, q, origin)
  {
    forall y | y in after[AC] && y !in before[AC]
      ensures NewGrant(before[AC], y, q, origin)
    {
      assert NewFor(before[AC], y, AllPairs(q), origin);
      AllPairsMeans(q, y.oid, y.oiid);
    }
    forall oid: Id, iid: int | KnownAdded(q, oid, iid)
      ensures Governed(after[AC], oid, iid)
    {
      AllPairsMeans(q, oid, iid);
      assert (oid, iid) in AllPairs(q);
    }
  }

  lemma FoundIsGoverned(ac: seq<Inst>, r: int, k: nat, oid: Id, iid: Id)
    requires r == OK ==> k < |ac| && Targets(ac[k], oid, iid)
    requires r == ERR_NOT_FOUND ==> k == |ac|
    requires forall i :: 0 <= i < k <= |ac| ==> !Targets(ac[i], oid, iid)
    ensures r == OK ==> Governed(ac, oid, iid)
    ensures r == ERR_NOT_FOUND ==> !Governed(ac, oid, iid)
  {
    if r == ERR_NOT_FOUND {
      forall y | y in ac
        ensures !Targets(y, oid, iid)
      {
        var i :| 0 <= i < |ac| && ac[i] == y;
      }
    }
  }

  lemma FirstEntry(x: Inst, origin: Id)
    requires x.AccessControl? && x.acl == []
    ensures AcceptableAc(x) ==>
      Written(x, Acl(origin, MASK_FULL_BUT_CREATE)) == Some(x.(hasAcl := true, acl := [AclEntry(origin, MASK_FULL_BUT_CREATE)]))
  {
    assert AclSet([], origin, MASK_FULL_BUT_CREATE) == [AclEntry(origin, MASK_FULL_BUT_CREATE)];
  }

  /** Instances that differ in contents only go to the same place. */
  lemma SamePlace(ac: seq<Inst>, x: Inst, y: Inst)
    requires x.iid == y.iid
    ensures Inserted(ac, x)[Position(ac, x.iid) := y] == Inserted(ac, y)
  {
  }

  // ----- Instances that were written to -----

  /** The Instance of the `k`th entry is there, or the entry is skipped because no valid ID has come yet. */
  ghost predicate StillThere(ac: seq<Inst>, changed: seq<ResourceEntry>, k: nat)
    requires k < |changed|
  {
    Has(ac, changed[k].iid) || forall j :: 0 <= j <= k ==> changed[j].iid == ID_INVALID
  }

  ghost predicate StillThereUpTo(ac: seq<Inst>, changed: seq<ResourceEntry>, n: nat) {
    n <= |changed| && forall k: nat :: k < n ==> StillThere(ac, changed, k)
  }

  ghost predicate AllStillThere(ac: seq<Inst>, changed: seq<ResourceEntry>) {
    StillThereUpTo(ac, changed, |changed|)
  }

  /** The last Instance ID that was looked up, and where; none while all of them are invalid. */
  ghost predicate LastSeen(ac: seq<Inst>, changed: seq<ResourceEntry>, n: nat, last: Id, at: nat) {
    && n <= |changed|
    && if last == ID_INVALID then forall k :: 0 <= k < n ==> changed[k].iid == ID_INVALID
       else at < n && changed[at].iid == last && Has(ac, last)
  }

  lemma SeenBefore(ac: seq<Inst>, changed: seq<ResourceEntry>, n: nat, last: Id, at: nat)
    requires n < |changed| && LastSeen(ac, changed, n, last, at)
    ensures changed[n].iid == last ==> StillThere(ac, changed, n) && LastSeen(ac, changed, n + 1, last, at)
    ensures changed[n].iid != last ==> (StillThere(ac, changed, n) <==> Has(ac, changed[n].iid))
  {
    if changed[n].iid != last {
      assert changed[if changed[n].iid == ID_INVALID then at else n].iid != ID_INVALID;
    }
  }

  ghost predicate TargetTold(ac: seq<Inst>, iid: Id, q: seq<ObjectEntry>) {
    forall x :: x in ac && x.iid == iid ==> x.AccessControl? && About(q, x.oid).instanceSetChanged
  }

  ghost predicate AllTold(ac: seq<Inst>, changed: seq<ResourceEntry>, n: nat, q: seq<ObjectEntry>) {
    n <= |changed| && forall k :: 0 <= k < n ==> TargetTold(ac, changed[k].iid, q)
  }

  lemma ToldMore(ac: seq<Inst>, changed: seq<ResourceEntry>, n: nat, q: seq<ObjectEntry>)
    requires n < |changed| && AllTold(ac, changed, n, q) && TargetTold(ac, changed[n].iid, q)
    requires StillThereUpTo(ac, changed, n) && StillThere(ac, changed, n)
    ensures AllTold(ac, changed, n + 1, q) && StillThereUpTo(ac, changed, n + 1)
  {
  }

  lemma ToldStays(ac: seq<Inst>, changed: seq<ResourceEntry>, n: nat, q: seq<ObjectEntry>, q': seq<ObjectEntry>)
    requires AllTold(ac, changed, n, q)
    requires forall o :: About(q, o).instanceSetChanged ==> About(q', o).instanceSetChanged
    ensures AllTold(ac, changed, n, q')
  {
    forall k | 0 <= k < n
      ensures TargetTold(ac, changed[k].iid, q')
    {
      assert TargetTold(ac, changed[k].iid, q);
    }
  }

  lemma NoSuchElement(s: seq<Inst>, iid: Id)
    requires !Has(s, iid)
    ensures forall x :: x in s ==> x.iid != iid
  {
  }

  lemma NoInvalidIid(ac: seq<Inst>, iid: Id, q: seq<ObjectEntry>)
    requires ListOk(AC, ac)
    ensures iid == ID_INVALID ==> TargetTold(ac, iid, q)
  {
    ListOkMeans(AC, ac);
    forall x | x in ac
      ensures x.iid != ID_INVALID
    {
      var i :| 0 <= i < |ac| && ac[i] == x;
      assert RightKind(AC, ac[i]);
    }
  }

  // ----- Objects that the purge takes something from -----

  /** The Objects that lose an Instance along with an orphan. */
  ghost function Losing(objs: Objects): (r: set<Id>)
    requires WellFormed(objs)
    ensures forall oid :: oid in r <==> Loses(AcOf(objs), objs, LiveSsids(objs), oid)
  {
    set oid | oid in objs.Keys && Loses(AcOf(objs), objs, LiveSsids(objs), oid)
  }

  /** Something in the Object is there and governed by an orphan. */
  ghost predicate Loses(ac: seq<Inst>, objs: Objects, live: set<Id>, oid: Id) {
    exists x :: x in ac && x.AccessControl? && Orphan(x, live) && x.oid == oid && Exists(objs, oid, x.oiid)
  }

  /** The same told from before the repairs: dangling and repeated instances may be dropped first. */
  ghost function AtRisk(objs: Objects, q: seq<ObjectEntry>): (r: set<Id>)
    requires WellFormed(objs)
    ensures forall oid :: oid in r <==> MightOrphan(q) && TakenFrom(AcOf(objs), objs, q, oid)
  {
    if MightOrphan(q) then set oid | oid in objs.Keys && TakenFrom(AcOf(objs), objs, q, oid) else {}
  }

  ghost predicate TakenFrom(ac: seq<Inst>, objs: Objects, q: seq<ObjectEntry>, oid: Id)
    requires WellFormed(objs)
  {
    exists k: nat :: k < |ac| && Takes(ac, k, objs, LiveSsids(objs), oid) && (MightRemove(q) ==> FirstAllowed(objs, ac, k))
  }

  ghost predicate Takes(ac: seq<Inst>, k: nat, objs: Objects, live: set<Id>, oid: Id)
    requires k < |ac|
  {
    ac[k].AccessControl? && Orphan(ac[k], live) && ac[k].oid == oid && Exists(objs, oid, ac[k].oiid)
  }

  lemma RiskIsLosing(objs: Objects, q: seq<ObjectEntry>)
    requires WellFormed(objs)
    ensures AtRisk(objs, q) <= Losing(objs)
  {
    forall oid | oid in AtRisk(objs, q)
      ensures oid in Losing(objs)
    {
      var ac := AcOf(objs);
      var k: nat :| k < |ac| && Takes(ac, k, objs, LiveSsids(objs), oid);
      assert ac[k] in ac;
    }
  }

  /** The Objects that the marked orphans take something from. */
  ghost function MarkedTargets(objs: Objects, marked: seq<OrphanInfo>): set<Id> {
    set m | m in marked && Exists(objs, m.oid, m.oiid) :: m.oid
  }

  lemma MarkedAreLosing(before: Objects, mid: Objects, marked: seq<OrphanInfo>, q: seq<ObjectEntry>)
    requires WellFormed(before) && AC in before && OnlyObject(before, mid, AC)
    requires AllProcessed(before[AC], |before[AC]|, LiveSsids(before), mid[AC], marked, q)
    requires forall m :: m in marked ==> m.oid != AC
    ensures MarkedTargets(mid, marked) <= Losing(before)
  {
    var ac, live := before[AC], LiveSsids(before);
    forall oid | oid in MarkedTargets(mid, marked)
      ensures oid in Losing(before)
    {
      var m :| m in marked && Exists(mid, m.oid, m.oiid) && m.oid == oid;
      var i: nat :| i < |ac| && MarkedFor(ac[i], live, m);
      assert ac[i] in ac && Exists(before, oid, ac[i].oiid);
    }
  }

  /** Removing marked orphans brings nothing back. */
  lemma StillTarget(mid: Objects, now: Objects, gone: seq<OrphanInfo>, oid: Id, iid: int)
    requires Gone(mid, now, gone) && oid != AC && Exists(now, oid, iid)
    ensures Exists(mid, oid, iid)
  {
    assert LeftIn(mid[oid], now[oid], gone, oid);
    HasMeans(now[oid], iid);
    HasMeans(mid[oid], iid);
  }

  // ----- The whole -----

  ghost predicate PruneStep(before: Objects, after: Objects, q: seq<ObjectEntry>) {
    && WellFormed(before) && WellFormed(after) && AC in before
    && if MightRemove(q) then AllReadable(before[AC]) && Pruned(before, after) else after == before
  }

  /** What is at risk is exactly what the purge then takes from. */
  lemma RiskAfterPrune(before: Objects, pruned: Objects, q: seq<ObjectEntry>)
    requires PruneStep(before, pruned, q)
    ensures AtRisk(before, q) == if MightOrphan(q) then Losing(pruned) else {}
  {
    if MightOrphan(q) {
      forall oid: Id
        ensures oid in Losing(pruned) <==> oid in AtRisk(before, q)
      {
        RiskAfterPruneOf(before, pruned, q, oid);
      }
    }
  }

  lemma RiskAfterPruneOf(before: Objects, pruned: Objects, q: seq<ObjectEntry>, oid: Id)
    requires PruneStep(before, pruned, q)
    ensures Loses(pruned[AC], pruned, LiveSsids(pruned), oid) <==> TakenFrom(before[AC], before, q, oid)
  {
    var ac, live := before[AC], LiveSsids(before);
    assert LiveSsids(pruned) == live;
    if Loses(pruned[AC], pruned, live, oid) {
      var x :| x in pruned[AC] && x.AccessControl? && Orphan(x, live) && x.oid == oid && Exists(pruned, oid, x.oiid);
      AcElement(pruned, x);
      assert MightRemove(q) ==> KeptByPrune(before, ac, x);
      var k: nat :| k < |ac| && ac[k] == x && (MightRemove(q) ==> FirstAllowed(before, ac, k));
      assert Takes(ac, k, before, live, oid);
    }
    if TakenFrom(ac, before, q, oid) {
      var k: nat :| k < |ac| && Takes(ac, k, before, live, oid) && (MightRemove(q) ==> FirstAllowed(before, ac, k));
      AcElement(before, ac[k]);
      assert MightRemove(q) ==> KeptByPrune(before, ac, ac[k]);
      assert ac[k] in pruned[AC] && Exists(pruned, oid, ac[k].oiid);
    }
  }

  ghost predicate NoneDoomed(ac: seq<Inst>, live: set<Id>) {
    forall x :: x in ac && x.AccessControl? ==> !Doomed(x, live)
  }

  ghost predicate PurgeStep(before: Objects, after: Objects, q: seq<ObjectEntry>) {
    && WellFormed(before) && WellFormed(after) && AC in before
    && (if MightOrphan(q) then PurgedOf(before, after, LiveSsids(before)) else after == before)
    && (MightOrphan(q) ==> AllReadable(before[AC]) && ReadableSsids(before) && NoneDoomed(before[AC], LiveSsids(before)))
  }

  ghost predicate AddStep(before: Objects, after: Objects, q: seq<ObjectEntry>, origin: Id) {
    && WellFormed(before) && WellFormed(after) && AC in before
    && if HaveAdds(q, origin) then AddedTo(before, after, q, origin) else after == before
  }

  /** A successful synchronisation, step by step. */
  ghost predicate Steps(before: Objects, pruned: Objects, purged: Objects, after: Objects, q: seq<ObjectEntry>, origin: Id) {
    && PruneStep(before, pruned, q) && PurgeStep(pruned, purged, q) && AddStep(purged, after, q, origin)
    && AC in after && AllStillThere(after[AC], About(q, AC).resourcesChanged)
  }

  ghost predicate NoneGovernsSecurity(objs: Objects)
    requires AC in objs
  {
    forall x :: x in objs[AC] && x.AccessControl? ==> x.oid != OID_SECURITY
  }

  /** Every target is governed once, and all of them exist if the new ones do. */
  ghost predicate TargetsSound(after: Objects, q: seq<ObjectEntry>, origin: Id)
    requires AC in after
  {
    && DistinctTargets(after[AC])
    && (TargetsAllowed(after) <==> (HaveAdds(q, origin) ==> NewOnesExist(after, q)))
  }

  /** No ACL mentions a dead server. */
  ghost predicate AclsSound(after: Objects)
    requires WellFormed(after) && AC in after
  {
    AclsKeepable(after[AC], LiveSsids(after))
  }

  ghost predicate NewOnesGoverned(after: Objects, q: seq<ObjectEntry>)
    requires AC in after
  {
    forall oid: Id, iid: int :: KnownAdded(q, oid, iid) ==> Governed(after[AC], oid, iid)
  }

  /** No other Object gains an Instance, or has one changed. */
  ghost predicate OnlyLosses(before: Objects, after: Objects) {
    before.Keys == after.Keys && forall oid :: oid in before && oid != AC ==> PartOf(after[oid], before[oid])
  }

  /** A server that adds something is a live one. */
  ghost predicate LiveOrigin(before: Objects, q: seq<ObjectEntry>, origin: Id)
    requires WellFormed(before)
  {
    HaveAdds(q, origin) ==> Keepable(origin, LiveSsids(before))
  }

  /** No ACL mentions a server that was dead before; nor one that is now, if nothing governs a Security Instance. */
  ghost predicate OnlyLiveListed(before: Objects, after: Objects)
    requires WellFormed(before) && WellFormed(after) && AC in before && AC in after
  {
    AclsKeepable(after[AC], LiveSsids(before)) && (NoneGovernsSecurity(before) ==> AclsSound(after))
  }

  /**
   The same by Object and Instance. Where Instances of an Object other than Security and Access
   Control have come or gone, targets are sound. Where those of Security, Server or Access Control
   have, only live servers are listed. And what anybody but the Bootstrap Server has added is governed.
   */
  ghost predicate RepairedFor(before: Objects, after: Objects, q: seq<ObjectEntry>, origin: Id)
    requires WellFormed(before) && WellFormed(after) && 2 in before && 2 in after
  {
    && (forall oid: Id :: SetChanged(q, oid) && oid != 0 && oid != 2 ==>
          DistinctTargets(after[2]) && (TargetsAllowed(after) <==> (origin != 0xFFFF ==> NewOnesExist(after, q))))
    && (forall oid: Id :: SetChanged(q, oid) && oid <= 2 && (origin == 0xFFFF || origin in LiveSsids(before)) ==>
          OnlyLiveListed(before, after))
    && (origin != 0xFFFF ==> forall oid: Id, iid: int :: KnownAdded(q, oid, iid) ==> Governed(after[2], oid, iid))
  }

  lemma RepairedByFlags(before: Objects, after: Objects, q: seq<ObjectEntry>, origin: Id)
    requires ValidQueue(q) && WellFormed(before) && WellFormed(after) && AC in before && AC in after
    requires MightRemove(q) ==> TargetsSound(after, q, origin)
    requires MightOrphan(q) && LiveOrigin(before, q, origin) ==> OnlyLiveListed(before, after)
    requires HaveAdds(q, origin) ==> NewOnesGoverned(after, q)
    ensures RepairedFor(before, after, q, origin)
  {
    FlagsMean(q, origin);
    forall oid: Id | SetChanged(q, oid) && oid != 0 && oid != 2
      ensures DistinctTargets(after[2]) && (TargetsAllowed(after) <==> (origin != 0xFFFF ==> NewOnesExist(after, q)))
    {
      assert MightRemove(q);
      if !HaveAdds(q, origin) && origin != 0xFFFF {
        assert NewOnesExist(after, q);
      }
    }
  }

  /** What a successful synchronisation establishes, by what had changed. */
  ghost predicate Synchronised(before: Objects, after: Objects, q: seq<ObjectEntry>, origin: Id) {
    && WellFormed(before) && WellFormed(after) && OnlyLosses(before, after) && AC in after
    && (MightRemove(q) ==> TargetsSound(after, q, origin))
    && (MightOrphan(q) && LiveOrigin(before, q, origin) ==> OnlyLiveListed(before, after))
    && (HaveAdds(q, origin) ==> NewOnesGoverned(after, q))
    && AC in before && (ValidQueue(q) ==> RepairedFor(before, after, q, origin))
  }

  lemma TargetsAfterRepair(pruned: Objects, purged: Objects, after: Objects, q: seq<ObjectEntry>, origin: Id)
    requires PurgeStep(pruned, purged, q) && AddStep(purged, after, q, origin)
    requires DistinctTargets(pruned[AC]) && TargetsAllowed(pruned)
    ensures DistinctTargets(after[AC])
    ensures TargetsAllowed(after) <==> (HaveAdds(q, origin) ==> NewOnesExist(after, q))
  {
    if MightOrphan(q) {
      PurgeKeepsDistinct(pruned, purged, LiveSsids(pruned));
      PurgeKeepsAllowed(pruned, purged, LiveSsids(pruned));
    }
    if HaveAdds(q, origin) {
      AddingIsSound(purged, after, q, origin);
    }
  }

  lemma SecurityAfterRepair(before: Objects, pruned: Objects, purged: Objects, after: Objects, q: seq<ObjectEntry>, origin: Id)
    requires PruneStep(before, pruned, q) && PurgeStep(pruned, purged, q) && AddStep(purged, after, q, origin)
    requires MightOrphan(q) && LiveOrigin(before, q, origin)
    ensures OnlyLiveListed(before, after)
  {
    var live := LiveSsids(pruned);
    assert forall x :: x in pruned[AC] ==> x in before[AC];
    assert LiveSsids(before) == live;
    PurgeLeavesLive(pruned, purged, live);
    if HaveAdds(q, origin) {
      AddingIsSound(purged, after, q, origin);
    }
    if NoneGovernsSecurity(before) {
      SameLiveSsids(pruned, purged, live);
    }
  }

  lemma PurgeOnlyLoses(before: Objects, after: Objects, q: seq<ObjectEntry>)
    requires PurgeStep(before, after, q)
    ensures OnlyLosses(before, after)
  {
    forall oid | oid in before && oid != AC
      ensures PartOf(after[oid], before[oid])
    {
      if MightOrphan(q) {
        assert Spared(before[oid], after[oid], before[AC], LiveSsids(before), oid);
      }
    }
  }

  lemma OnlyLossesInAll(before: Objects, pruned: Objects, purged: Objects, after: Objects, q: seq<ObjectEntry>, origin: Id)
    requires PruneStep(before, pruned, q) && PurgeStep(pruned, purged, q) && AddStep(purged, after, q, origin)
    ensures OnlyLosses(before, after)
  {
    assert forall oid :: oid in before && oid != AC ==> pruned[oid] == before[oid];
    assert forall oid :: oid in before && oid != AC ==> after[oid] == purged[oid];
    PurgeOnlyLoses(pruned, purged, q);
  }

  /** A repair that worked has been committed, but for the mishaps. */
  ghost predicate HalfCommitted(before: Objects, after: Objects, mishaps: set<Id>, q: seq<ObjectEntry>, origin: Id) {
    mishaps != {} && exists repaired: Objects :: Synchronised(before, repaired, q, origin) && AgreeOutside(after, repaired, mishaps)
  }

  /**
   A synchronisation at the outermost level has succeeded, or it has been rolled back or committed,
   either of them but for the mishaps, which only Objects that the purge takes something from have.
   */
  ghost predicate Concluded(before: Objects, after: Objects, mishaps: set<Id>, faulty: set<Id>, q: seq<ObjectEntry>,
                            origin: Id)
  {
    && WellFormed(before)
    && (AgreeOutside(after, before, mishaps) || Synchronised(before, after, q, origin)
        || HalfCommitted(before, after, mishaps, q, origin))
    && (faulty * AtRisk(before, q) == {} ==> after == before || Synchronised(before, after, q, origin))
  }

  /** Only what a synchronisation may include can go wrong, and Access Control cannot. */
  lemma MishapsAtRisk(mishaps: set<Id>, faulty: AppObjects, included: set<Id>, risk: set<Id>)
    requires mishaps <= faulty * included && included <= {AC} + risk
    ensures mishaps <= faulty * risk
  {
  }

  lemma FailureConcluded(before: Objects, repaired: Objects, after: Objects, mishaps: set<Id>, faulty: set<Id>,
                         q: seq<ObjectEntry>, origin: Id)
    requires WellFormed(before) && mishaps <= faulty * AtRisk(before, q)
    requires AgreeOutside(after, before, mishaps)
      || (mishaps != {} && Synchronised(before, repaired, q, origin) && AgreeOutside(after, repaired, mishaps))
    ensures Concluded(before, after, mishaps, faulty, q, origin)
    ensures faulty * AtRisk(before, q) == {} ==> after == before
  {
  }

  lemma SyncResult(before: Objects, pruned: Objects, purged: Objects, after: Objects, q: seq<ObjectEntry>, origin: Id)
    requires Steps(before, pruned, purged, after, q, origin)
    ensures Synchronised(before, after, q, origin)
  {
    if MightRemove(q) {
      PrunedIsSound(before, pruned);
      TargetsAfterRepair(pruned, purged, after, q, origin);
    }
    if MightOrphan(q) && LiveOrigin(before, q, origin) {
      SecurityAfterRepair(before, pruned, purged, after, q, origin);
    }
    OnlyLossesInAll(before, pruned, purged, after, q, origin);
    if ValidQueue(q) {
      RepairedByFlags(before, after, q, origin);
    }
  }
}

/**
 Access Control synchronisation: after the data model has changed, the Access Control instances are
 repaired inside a transaction of their own.
 */
module AccessSync {
  import opened Ids
  import opened Instances
  import opened DataModel
  import opened AccessMask
  import opened AccessPurge
  import opened AclValidation
  import opened AccessRepair
  import opened AccessSteps
  import opened AccessOutcome
  import opened NotifyQueue

  /** Stops as soon as nothing more can turn up; the flags are exact all the same. */
  method WhatChanged(origin: Id, q: seq<ObjectEntry>) returns (orphans: bool, adds: bool, removes: bool)
    ensures orphans == MightOrphan(q) && adds == HaveAdds(q, origin) && removes == MightRemove(q)
    ensures orphans <==> exists k :: 0 <= k < |q| && q[k].instanceSetChanged && q[k].oid <= 2
    ensures removes <==> exists k :: 0 <= k < |q| && q[k].instanceSetChanged && q[k].oid != 0 && q[k].oid != 2
    ensures adds <==> (
      && origin != 0xFFFF
      && exists k :: 0 <= k < |q| && q[k].instanceSetChanged && q[k].oid != 0 && q[k].oid != 2 && q[k].knownAdded != [])
  {
    orphans, adds, removes := false, false, false;
    var i: nat := 0;
    while i < |q|
      invariant i <= |q|
      invariant orphans == MightOrphan(q[..i]) && adds == HaveAdds(q[..i], origin) && removes == MightRemove(q[..i])
    {
      ChangesStep(q, i, origin);
      if q[i].instanceSetChanged {
        if q[i].oid == OID_SECURITY || q[i].oid == OID_SERVER || q[i].oid == OID_ACCESS_CONTROL {
          orphans := true;
        }
        if q[i].oid != OID_SECURITY && q[i].oid != OID_ACCESS_CONTROL {
          removes := true;
          if q[i].knownAdded != [] && origin != SSID_BOOTSTRAP {
            adds := true;
          }
        }
      }
      i := i + 1;
      if orphans && removes && (adds || origin == SSID_BOOTSTRAP) {
        ChangesStay(q, i, origin);
        return;
      }
    }
    assert q[..|q|] == q;
  }

  /** Reports a changed Resource of an Access Control instance. */
  method Tell(queue: Queue, iid: Id, rid: Id)
    requires queue.Valid()
    modifies queue
    ensures queue.Valid() && Reported(queue.entries, iid, rid)
    ensures MoreResources(old(queue.entries), queue.entries)
  {
    queue.ResourceChange(AC, iid, rid);
  }

  class AccessControl {
    const dm: Dm
    /** Servers can always be reloaded, and the callbacks of other modules do not fail. */
    const calm: bool
    var syncInProgress: bool

    constructor (dm: Dm, calm: bool)
      ensures this.dm == dm && this.calm == calm && !syncInProgress
    {
      this.dm, this.calm, syncInProgress := dm, calm, false;
    }

    ghost predicate Ready(queue: Queue)
      reads this, dm, queue
    {
      dm.Valid() && dm.depth > 0 && AC in dm.objs && queue.Valid()
    }

    /** No other Object has been changed or included. */
    ghost predicate OnlyAcTouched(objs: Objects, saved: Objects)
      reads dm
    {
      OnlyObject(objs, dm.objs, AC) && dm.saved.Keys <= saved.Keys + {AC}
    }

    ghost predicate Untouched(objs: Objects, saved: Objects, mishaps: set<Id>, needsValidation: bool)
      reads dm
    {
      dm.objs == objs && dm.saved == saved && dm.mishaps == mishaps && dm.needsValidation == needsValidation
    }

    // ----- Dangling and repeated instances -----

    /** Finds the instances whose target is not allowed or was met before. */
    method EnumerateInstancesToRemove(objs: Objects) returns (r: int, iids: seq<Id>)
      requires WellFormed(objs) && AC in objs
      ensures r == OK ==> ToRemove(objs, objs[AC], |objs[AC]|, iids)
      ensures r == OK <==> AllReadable(objs[AC])
    {
      var ac := objs[AC];
      AllAc(ac);
      var ctx := new ValidationContext(objs);
      iids := [];
      assert ac[..0] == [];
      for k := 0 to |ac|
        invariant fresh(ctx) && Enumerated(ctx, objs, ac, k, iids)
      {
        if ac[k].oiid == UNSET {
          assert ac[k] in ac;
          return ERR, iids;
        }
        iids := EnumerateNext(ctx, objs, ac, k, iids);
      }
      AllReadableUpTo(ac);
      r := OK;
    }

    /** The first `k` instances have been looked at, and those to remove listed. */
    ghost predicate Enumerated(ctx: ValidationContext, objs: Objects, ac: seq<Inst>, k: nat, iids: seq<Id>)
      reads ctx
    {
      && k <= |ac| && ctx.Valid(objs) && AcceptedAre(ctx.accepted, objs, ac[..k]) && ToRemove(objs, ac, k, iids)
      && ReadableUpTo(ac, k)
    }

    method EnumerateNext(ctx: ValidationContext, objs: Objects, ac: seq<Inst>, k: nat, iids: seq<Id>) returns (iids': seq<Id>)
      requires WellFormed(objs) && AC in objs && ac == objs[AC] && k < |ac| && Enumerated(ctx, objs, ac, k, iids)
      requires (forall i :: 0 <= i < |ac| ==> ac[i].AccessControl?) && ac[k].oiid != UNSET
      modifies ctx
      ensures Enumerated(ctx, objs, ac, k + 1, iids')
    {
      iids' := iids;
      ElementRight(AC, ac, k);
      ghost var accepted := ctx.accepted;
      var v := ctx.ValidateInstRef(objs, ac[k].oid, ac[k].oiid);
      AcceptedStep(accepted, objs, ac, k);
      FirstAllowedMeans(objs, ac, k);
      ToRemoveStep(objs, ac, k, iids);
      if v != OK {
        iids' := [ac[k].iid] + iids;
      }
    }

    /** Removes an Instance and tells the queue. */
    method RemoveInstance(oid: Id, iid: Id, queue: Queue, ghost start: Objects) returns (r: int)
      requires Ready(queue) && oid in dm.objs && Announces(start, dm.objs, queue.entries)
      modifies dm`objs, dm`saved, dm`needsValidation, queue
      ensures Ready(queue) && OnlyObject(old(dm.objs), dm.objs, oid)
      ensures r == OK ==> dm.objs == old(dm.objs)[oid := Without(old(dm.objs)[oid], iid)]
      ensures r == OK ==> Announces(start, dm.objs, queue.entries)
      ensures SameResources(old(queue.entries), queue.entries)
      ensures dm.saved.Keys <= old(dm.saved).Keys + {oid}
      ensures dm.Works(oid) && Has(old(dm.objs)[oid], iid) ==> r == OK
    {
      ghost var b, q := dm.objs, queue.entries;
      r := dm.InstanceRemove(oid, iid);
      if r != OK {
        return;
      }
      queue.InstanceRemoved(oid, iid);
      AnnouncesOne(start, b, dm.objs, q, queue.entries, oid);
      SameResourcesOne(q, queue.entries, oid);
    }

    /** Removes them one by one until one fails. */
    method RemoveAccessControls(iids: seq<Id>, queue: Queue) returns (r: int)
      requires Ready(queue)
      modifies dm`objs, dm`saved, dm`needsValidation, queue
      ensures Ready(queue) && OnlyAcTouched(old(dm.objs), old(dm.saved))
      ensures r == OK ==> LeftOver(old(dm.objs)[AC], dm.objs[AC], iids)
      ensures r == OK ==> Announces(old(dm.objs), dm.objs, queue.entries)
      ensures r == OK ==> |dm.objs[AC]| <= |old(dm.objs)[AC]|
      ensures dm.memory && Removable(old(dm.objs)[AC], iids, 0) ==> r == OK
    {
      r := OK;
      var n: nat := 0;
      ghost var o, c := dm.objs, dm.saved;
      assert iids[..0] == [];
      while n < |iids| && r == OK
        invariant n <= |iids| && Ready(queue) && RemovingAcs(iids, n, queue, o, c, r == OK)
      {
        r := RemoveNextAc(iids, n, queue, o, c);
        n := n + 1;
      }
      assert iids[..|iids|] == iids;
    }

    /** The first `n` instances have been removed, unless something has failed. */
    ghost predicate RemovingAcs(iids: seq<Id>, n: nat, queue: Queue, o: Objects, saved: Objects, ok: bool)
      reads dm, queue
    {
      && n <= |iids| && AC in o && OnlyAcTouched(o, saved)
      && (ok ==> LeftOver(o[AC], dm.objs[AC], iids[..n]) && Announces(o, dm.objs, queue.entries) && |dm.objs[AC]| <= |o[AC]|)
      && (dm.memory && Removable(o[AC], iids, 0) ==> ok && Removable(dm.objs[AC], iids, n))
    }

    method RemoveNextAc(iids: seq<Id>, n: nat, queue: Queue, ghost o: Objects, ghost saved: Objects) returns (r: int)
      requires Ready(queue) && n < |iids| && RemovingAcs(iids, n, queue, o, saved, true)
      modifies dm`objs, dm`saved, dm`needsValidation, queue
      ensures Ready(queue) && RemovingAcs(iids, n + 1, queue, o, saved, r == OK)
    {
      ghost var b := dm.objs[AC];
      r := RemoveInstance(AC, iids[n], queue, o);
      LeftOverStep(o[AC], b, iids, n);
      if Removable(b, iids, n) {
        RemovableStep(b, iids, n);
      }
    }

    /** Afterwards every target is allowed and governed once; nothing but that is removed. */
    method PerformRemoves(queue: Queue) returns (r: int)
      requires Ready(queue)
      modifies dm`objs, dm`saved, dm`needsValidation, queue
      ensures Ready(queue) && OnlyAcTouched(old(dm.objs), old(dm.saved))
      ensures r == OK ==> AllReadable(old(dm.objs)[AC]) && Pruned(old(dm.objs), dm.objs)
      ensures r == OK ==> Announces(old(dm.objs), dm.objs, queue.entries)
      ensures r == OK ==> |dm.objs[AC]| <= |old(dm.objs)[AC]|
      ensures dm.memory && AllReadable(old(dm.objs)[AC]) ==> r == OK
    {
      ghost var o := dm.objs;
      var iids;
      r, iids := EnumerateInstancesToRemove(dm.objs);
      if r != OK {
        return;
      }
      ToRemoveIsRemovable(o, o[AC], iids);
      r := RemoveAccessControls(iids, queue);
      if r == OK {
        PruneResult(o, dm.objs, iids);
      }
    }

    // ----- Dead servers -----

    /** Writes to the `k`th instance. */
    method WriteAt(k: nat, w: AcWrite, ghost ac: seq<Inst>) returns (r: int)
      requires dm.Valid() && dm.depth > 0 && AC in dm.objs && dm.objs[AC] == ac && k < |ac| && ValidWrite(w)
      modifies dm`objs, dm`saved, dm`needsValidation
      ensures dm.Valid() && OnlyAcTouched(old(dm.objs), old(dm.saved)) && AcceptableAc(ac[k])
      ensures r == OK ==> Written(ac[k], w).Some? && dm.objs[AC] == ac[k := Written(ac[k], w).value]
      ensures dm.memory && Written(ac[k], w).Some? ==> r == OK
    {
      ghost var o := dm.objs;
      ElementRight(AC, ac, k);
      assert Written(ac[k], w).Some? ==> CanReplace(o, ac[k].iid, w, ac[k]);
      r := dm.AcResourceWrite(dm.objs[AC][k].iid, w);
      if r == OK {
        ReplacedAt(o, dm.objs, k, w);
      }
    }

    /** Replaces the ACL of the `k`th instance: reset, then entry by entry. */
    method RewriteAcl(k: nat, acl: seq<AclEntry>, ghost ac: seq<Inst>) returns (r: int)
      requires dm.Valid() && dm.depth > 0 && AC in dm.objs && dm.objs[AC] == ac
      requires k < |ac| && ac[k].AccessControl? && AscendingSsids(acl) && RiidsValid(acl)
      modifies dm`objs, dm`saved, dm`needsValidation
      ensures dm.Valid() && OnlyAcTouched(old(dm.objs), old(dm.saved))
      ensures r == OK ==> dm.objs[AC] == ac[k := WithAcl(ac[k], acl)]
      ensures dm.memory ==> r == OK
    {
      ghost var o, c := dm.objs, dm.saved;
      ElementRight(AC, ac, k);
      ResetGives(ac[k], acl);
      r := WriteAt(k, ResetAcl, ac);
      var n: nat := 0;
      while n < |acl| && r == OK
        invariant n <= |acl| && dm.Valid() && Rewriting(k, acl, n, ac, o, c, r == OK)
      {
        r := RewriteNext(k, acl, n, ac, o, c);
        n := n + 1;
      }
      assert acl[..|acl|] == acl;
    }

    /** The first `n` entries are there, unless something has failed. */
    ghost predicate Rewriting(k: nat, acl: seq<AclEntry>, n: nat, ac: seq<Inst>, o: Objects, saved: Objects, ok: bool)
      reads dm
    {
      && n <= |acl| && OnlyAcTouched(o, saved) && AC in o && k < |ac| && ac[k].AccessControl? && AscendingSsids(acl)
      && RiidsValid(acl) && (ok ==> dm.objs[AC] == ac[k := WithAcl(ac[k], acl[..n])]) && (dm.memory ==> ok)
    }

    method RewriteNext(k: nat, acl: seq<AclEntry>, n: nat, ghost ac: seq<Inst>, ghost o: Objects, ghost saved: Objects)
      returns (r: int)
      requires dm.Valid() && dm.depth > 0 && n < |acl| && Rewriting(k, acl, n, ac, o, saved, true)
      modifies dm`objs, dm`saved, dm`needsValidation
      ensures dm.Valid() && Rewriting(k, acl, n + 1, ac, o, saved, r == OK)
    {
      AppendEntry(ac, k, acl, n);
      r := WriteAt(k, Acl(acl[n].ssid, acl[n].mask), ac[k := WithAcl(ac[k], acl[..n])]);
    }

    /** Elects a new owner for the `k`th instance. */
    method ReplaceOwner(k: nat, acl: seq<AclEntry>, queue: Queue, ghost ac: seq<Inst>) returns (r: int)
      requires Ready(queue) && dm.objs[AC] == ac && k < |ac| && ac[k].AccessControl? && acl != []
      modifies dm`objs, dm`saved, dm`needsValidation, queue
      ensures Ready(queue) && OnlyAcTouched(old(dm.objs), old(dm.saved))
      ensures r == OK ==> Elected(acl) != SSID_ANY && dm.objs[AC] == ac[k := ac[k].(owner := Elected(acl))]
      ensures r == OK ==> Reported(queue.entries, ac[k].iid, RID_OWNER)
      ensures MoreResources(old(queue.entries), queue.entries)
      ensures dm.memory && Elected(acl) != SSID_ANY ==> r == OK
    {
      var iid := dm.objs[AC][k].iid;
      var owner := ElectInstanceOwner(acl);
      r := WriteAt(k, Owner(owner), ac);
      if r == OK {
        assert owner != SSID_ANY && dm.objs[AC] == ac[k := ac[k].(owner := owner)];
        Tell(queue, iid, RID_OWNER);
      }
    }

    /** Purges the `k`th instance, unless it is an orphan. */
    method ProcessOrphaned(k: nat, ssids: seq<Id>, queue: Queue, ghost ac: seq<Inst>) returns (r: int, orphan: bool)
      requires Ready(queue) && dm.objs[AC] == ac && k < |ac|
      modifies dm`objs, dm`saved, dm`needsValidation, queue
      ensures Ready(queue) && OnlyAcTouched(old(dm.objs), old(dm.saved))
      ensures r == OK ==> Processed(ac, k, AsSet(ssids), dm.objs[AC], orphan, queue.entries)
      ensures MoreResources(old(queue.entries), queue.entries)
      ensures dm.memory && Purges(ac[k], AsSet(ssids)) ==> r == OK
    {
      var x := dm.objs[AC][k];
      ElementRight(AC, ac, k);
      orphan := false;
      if x.oiid == UNSET {
        return ERR, false;
      }
      ghost var live := AsSet(ssids);
      var acl, modified, ownerValid := PurgeAcl(x.acl, x.owner, ssids);
      PurgedAscending(x.acl, live);
      r := OK;
      if modified {
        if acl == [] {
          orphan := true;
        } else {
          r := RewriteInstance(k, acl, ownerValid, queue, ac);
        }
      }
    }

    /** A new owner if need be, and the new ACL. */
    method RewriteInstance(k: nat, acl: seq<AclEntry>, ownerValid: bool, queue: Queue, ghost ac: seq<Inst>) returns (r: int)
      requires Ready(queue) && dm.objs[AC] == ac && k < |ac| && ac[k].AccessControl?
      requires acl != [] && AscendingSsids(acl) && RiidsValid(acl)
      modifies dm`objs, dm`saved, dm`needsValidation, queue
      ensures Ready(queue) && OnlyAcTouched(old(dm.objs), old(dm.saved))
      ensures r == OK && !ownerValid ==> Elected(acl) != SSID_ANY
      ensures r == OK ==> dm.objs[AC] == ac[k := WithAcl(NewOwner(ac[k], acl, ownerValid), acl)]
      ensures r == OK ==> Reported(queue.entries, ac[k].iid, RID_ACL)
      ensures r == OK && !ownerValid ==> Reported(queue.entries, ac[k].iid, RID_OWNER)
      ensures MoreResources(old(queue.entries), queue.entries)
      ensures dm.memory && (ownerValid || Elected(acl) != SSID_ANY) ==> r == OK
    {
      var iid := dm.objs[AC][k].iid;
      ghost var mid := ac[k := NewOwner(ac[k], acl, ownerValid)];
      r := OK;
      if !ownerValid {
        r := ReplaceOwner(k, acl, queue, ac);
      }
      if r == OK {
        r := RewriteAcl(k, acl, mid);
        UpdatedTwice(ac, k, NewOwner(ac[k], acl, ownerValid), WithAcl(mid[k], acl));
        if r == OK {
          ghost var q := queue.entries;
          Tell(queue, iid, RID_ACL);
          MoreAndMore(old(queue.entries), q, queue.entries);
        }
      }
    }

    /** Purges every instance and marks the orphans; no Instance goes yet. */
    method ProcessAll(ssids: seq<Id>, queue: Queue) returns (r: int, marked: seq<OrphanInfo>)
      requires Ready(queue)
      modifies dm`objs, dm`saved, dm`needsValidation, queue
      ensures Ready(queue) && OnlyAcTouched(old(dm.objs), old(dm.saved))
      ensures r == OK ==> AllProcessed(old(dm.objs)[AC], |old(dm.objs)[AC]|, AsSet(ssids), dm.objs[AC], marked, queue.entries)
      ensures MoreResources(old(queue.entries), queue.entries)
      ensures dm.memory && AllPurge(old(dm.objs)[AC], AsSet(ssids)) ==> r == OK
    {
      ghost var o, c, q, ac := dm.objs, dm.saved, queue.entries, dm.objs[AC];
      r, marked := OK, [];
      var k: nat := 0;
      AllAc(ac);
      while k < |dm.objs[AC]| && r == OK
        invariant Ready(queue) && ProcessedUpTo(k, AsSet(ssids), marked, queue, o, c, q, r == OK)
        invariant dm.memory && AllPurge(ac, AsSet(ssids)) ==> r == OK
        decreases |ac| - k, r == OK
      {
        r, marked := ProcessNext(k, ssids, marked, queue, o, c, q);
        k := if r == OK then k + 1 else k;
      }
    }

    /** The first `k` instances have been dealt with, unless something has failed. */
    ghost predicate ProcessedUpTo(k: nat, live: set<Id>, marked: seq<OrphanInfo>, queue: Queue, objs: Objects, saved: Objects,
                                  q: seq<ObjectEntry>, ok: bool)
      reads dm, queue
    {
      && AC in objs && OnlyAcTouched(objs, saved) && MoreResources(q, queue.entries) && k <= |objs[AC]|
      && (ok ==> AllProcessed(objs[AC], k, live, dm.objs[AC], marked, queue.entries))
    }

    method ProcessNext(k: nat, ssids: seq<Id>, marked: seq<OrphanInfo>, queue: Queue, ghost objs: Objects,
                       ghost saved: Objects, ghost q: seq<ObjectEntry>)
      returns (r: int, marked': seq<OrphanInfo>)
      requires Ready(queue) && k < |dm.objs[AC]| && ProcessedUpTo(k, AsSet(ssids), marked, queue, objs, saved, q, true)
      requires ListOk(AC, objs[AC])
      modifies dm`objs, dm`saved, dm`needsValidation, queue
      ensures Ready(queue)
      ensures ProcessedUpTo(if r == OK then k + 1 else k, AsSet(ssids), marked', queue, objs, saved, q, r == OK)
      ensures dm.memory && AllPurge(objs[AC], AsSet(ssids)) ==> r == OK
    {
      ghost var now, mid := dm.objs[AC], queue.entries;
      marked' := marked;
      var x := dm.objs[AC][k];
      var orphan;
      r, orphan := ProcessOrphaned(k, ssids, queue, now);
      MoreAndMore(q, mid, queue.entries);
      if r == OK {
        ProcessedStep(objs[AC], k, AsSet(ssids), now, dm.objs[AC], marked, orphan, mid, queue.entries);
        if orphan {
          marked' := marked + [OrphanInfo(x.iid, x.oid, x.oiid)];
        }
      }
    }

    /** Removes what an orphan governs, if it is there. */
    method RemoveReferred(m: OrphanInfo, queue: Queue, ghost start: Objects) returns (r: int)
      requires Ready(queue) && m.oid != AC && 0 <= m.oiid <= 0xFFFF && Announces(start, dm.objs, queue.entries)
      modifies dm`objs, dm`saved, dm`needsValidation, queue
      ensures Ready(queue) && OnlyObject(old(dm.objs), dm.objs, m.oid)
      ensures r == OK && m.oid in dm.objs ==>
        forall x :: x in dm.objs[m.oid] <==> x in old(dm.objs)[m.oid] && x.iid != m.oiid
      ensures r == OK ==> Announces(start, dm.objs, queue.entries)
      ensures SameResources(old(queue.entries), queue.entries)
      ensures dm.saved.Keys <= old(dm.saved).Keys + if Exists(old(dm.objs), m.oid, m.oiid) then {m.oid} else {}
      ensures (Exists(old(dm.objs), m.oid, m.oiid) ==> dm.Works(m.oid)) ==> r == OK
    {
      r := OK;
      if m.oid in dm.objs {
        var present := dm.InstancePresent(m.oid, m.oiid);
        HasMeans(dm.objs[m.oid], m.oiid);
        if present {
          r := RemoveInstance(m.oid, m.oiid, queue, start);
        }
      }
    }

    /** Removes one orphan and what it governs. */
    method RemoveOrphan(m: OrphanInfo, queue: Queue, ghost start: Objects, ghost mid: Objects, ghost gone: seq<OrphanInfo>)
      returns (r: int)
      requires Ready(queue) && m.oid != AC && 0 <= m.oiid <= 0xFFFF && Announces(start, dm.objs, queue.entries)
      requires Gone(mid, dm.objs, gone)
      modifies dm`objs, dm`saved, dm`needsValidation, queue
      ensures Ready(queue) && dm.objs.Keys == old(dm.objs).Keys
      ensures r == OK ==> Gone(mid, dm.objs, gone + [m]) && Announces(start, dm.objs, queue.entries)
      ensures r == OK ==> dm.objs[AC] == Without(old(dm.objs)[AC], m.acIid)
      ensures dm.memory && (Exists(mid, m.oid, m.oiid) ==> dm.Works(m.oid)) && Has(old(dm.objs)[AC], m.acIid) ==> r == OK
      ensures SameResources(old(queue.entries), queue.entries)
      ensures dm.saved.Keys <= old(dm.saved).Keys + {AC} + if Exists(mid, m.oid, m.oiid) then {m.oid} else {}
    {
      ghost var b, q := dm.objs, queue.entries;
      if Exists(dm.objs, m.oid, m.oiid) {
        StillTarget(mid, dm.objs, gone, m.oid, m.oiid);
      }
      r := RemoveReferred(m, queue, start);
      if r != OK {
        return;
      }
      ghost var c, q' := dm.objs, queue.entries;
      r := RemoveInstance(AC, m.acIid, queue, start);
      SameAndSame(q, q', queue.entries);
      if r == OK {
        GoneStep(mid, b, c, dm.objs, gone, m);
      }
    }

    /** Removes the marked orphans, in order, until something fails. */
    method RemoveMarked(marked: seq<OrphanInfo>, queue: Queue, ghost start: Objects) returns (r: int)
      requires Ready(queue) && Announces(start, dm.objs, queue.entries)
      requires forall m :: m in marked ==> m.oid != AC && 0 <= m.oiid <= 0xFFFF
      modifies dm`objs, dm`saved, dm`needsValidation, queue
      ensures Ready(queue) && dm.objs.Keys == old(dm.objs).Keys
      ensures r == OK ==> Gone(old(dm.objs), dm.objs, marked) && Announces(start, dm.objs, queue.entries)
      ensures r == OK ==> |dm.objs[AC]| <= |old(dm.objs)[AC]|
      ensures CanRemove(old(dm.objs), marked) ==> r == OK
      ensures SameResources(old(queue.entries), queue.entries)
      ensures dm.saved.Keys <= old(dm.saved).Keys + {AC} + MarkedTargets(old(dm.objs), marked)
    {
      ghost var mid, q, c := dm.objs, queue.entries, dm.saved;
      r := OK;
      var n: nat := 0;
      RemovingStarts(marked, queue, start);
      while n < |marked| && r == OK
        invariant n <= |marked| && Ready(queue) && RemovingMarked(marked, n, queue, start, mid, q, c, r == OK)
      {
        r := RemoveNextMarked(marked, n, queue, start, mid, q, c);
        n := n + 1;
      }
      PrefixEnds(marked);
    }

    lemma RemovingStarts(marked: seq<OrphanInfo>, queue: Queue, start: Objects)
      requires Ready(queue) && Announces(start, dm.objs, queue.entries)
      ensures RemovingMarked(marked, 0, queue, start, dm.objs, queue.entries, dm.saved, true)
    {
      PrefixEnds(marked);
      assert forall oid :: oid in dm.objs ==> LeftIn(dm.objs[oid], dm.objs[oid], [], oid);
    }

    /** The first `n` marked orphans have been removed, unless something has failed. */
    ghost predicate RemovingMarked(marked: seq<OrphanInfo>, n: nat, queue: Queue, start: Objects, mid: Objects,
                                   q: seq<ObjectEntry>, saved: Objects, ok: bool)
      reads dm, queue
    {
      && n <= |marked| && dm.objs.Keys == mid.Keys && AC in mid && SameResources(q, queue.entries)
      && dm.saved.Keys <= saved.Keys + {AC} + MarkedTargets(mid, marked)
      && (ok ==> Gone(mid, dm.objs, marked[..n]) && Announces(start, dm.objs, queue.entries) && |dm.objs[AC]| <= |mid[AC]|)
      && (CanRemove(mid, marked) ==> ok && Removable(dm.objs[AC], AcIids(marked), n))
    }

    ghost predicate AllWork(oids: set<Id>) {
      forall oid :: oid in oids ==> dm.Works(oid)
    }

    /** Nothing keeps the marked orphans, and what they govern, from being removed. */
    ghost predicate CanRemove(mid: Objects, marked: seq<OrphanInfo>)
      requires AC in mid
    {
      dm.memory && AllWork(MarkedTargets(mid, marked)) && Removable(mid[AC], AcIids(marked), 0)
    }

    method RemoveNextMarked(marked: seq<OrphanInfo>, n: nat, queue: Queue, ghost start: Objects, ghost mid: Objects,
                            ghost q: seq<ObjectEntry>, ghost saved: Objects)
      returns (r: int)
      requires Ready(queue) && n < |marked| && RemovingMarked(marked, n, queue, start, mid, q, saved, true)
      requires forall m :: m in marked ==> m.oid != AC && 0 <= m.oiid <= 0xFFFF
      modifies dm`objs, dm`saved, dm`needsValidation, queue
      ensures Ready(queue) && RemovingMarked(marked, n + 1, queue, start, mid, q, saved, r == OK)
    {
      ghost var q', b := queue.entries, dm.objs[AC];
      assert marked[n] in marked;
      r := RemoveOrphan(marked[n], queue, start, mid, marked[..n]);
      if Removable(b, AcIids(marked), n) {
        RemovableStep(b, AcIids(marked), n);
      }
      SameAndSame(q, q', queue.entries);
      PrefixStep(marked, n);
    }

    /**
     Afterwards no ACL mentions a dead server. It fails if an SSID or a target cannot be read, and
     if the default entry would be the only candidate for a new owner.
     */
    method RemoveOrphanedInstances(queue: Queue, ghost start: Objects) returns (r: int)
      requires Ready(queue) && Announces(start, dm.objs, queue.entries)
      modifies dm`objs, dm`saved, dm`needsValidation, queue
      ensures Ready(queue) && dm.objs.Keys == old(dm.objs).Keys
      ensures r == OK ==> ReadableSsids(old(dm.objs)) && PurgedOf(old(dm.objs), dm.objs, LiveSsids(old(dm.objs)))
      ensures r == OK ==> Purgeable(old(dm.objs)[AC], LiveSsids(old(dm.objs)), queue.entries)
      ensures r == OK ==> Announces(start, dm.objs, queue.entries)
      ensures dm.saved.Keys <= old(dm.saved).Keys + {AC} + Losing(old(dm.objs))
      ensures r == OK ==> |dm.objs[AC]| <= |old(dm.objs)[AC]|
      ensures dm.memory && AllWork(Losing(old(dm.objs))) && CanPurge(old(dm.objs)) ==> r == OK
    {
      ghost var o, live := dm.objs, LiveSsids(dm.objs);
      var ssids: seq<Id> := [];
      r := OK;
      if OID_SECURITY in dm.objs {
        AllAreSecurity(dm.objs[OID_SECURITY]);
        r, ssids := EnumerateValidSsids(dm.objs[OID_SECURITY]);
        if r != OK {
          return;
        }
      }
      assert AsSet(ssids) == live;
      var marked;
      r, marked := ProcessAll(ssids, queue);
      if r != OK {
        return;
      }
      ghost var mid, q := dm.objs, queue.entries;
      NothingGoneYet(start, o, mid, live, marked, old(queue.entries), q);
      MarkedAreLosing(o, mid, marked, q);
      MarkedIsRemovable(o, live, mid[AC], marked, q);
      r := RemoveMarked(marked, queue, start);
      if r == OK {
        PurgeResult(o, mid, dm.objs, live, marked, q);
        StillTold(o[AC], mid[AC], live, marked, q, queue.entries);
      }
    }

    // ----- New Instances -----

    /**
     Makes sure that something governs the target. A new Access Control instance is created blank
     under the first free ID and filled in Resource by Resource.
     */
    method EnsureGoverned(oid: Id, iid: Id, origin: Id, queue: Queue, ghost start: Objects) returns (r: int)
      requires origin != SSID_BOOTSTRAP
      requires Ready(queue) && Announces(start, dm.objs, queue.entries)
      modifies dm`objs, dm`saved, dm`needsValidation, queue
      ensures Ready(queue) && OnlyAcTouched(old(dm.objs), old(dm.saved))
      ensures r == OK ==> Granted(old(dm.objs)[AC], dm.objs[AC], oid, iid, origin)
      ensures r == OK ==> Announces(start, dm.objs, queue.entries)
      ensures dm.memory && TargetOidValid(oid) && origin != SSID_ANY && Roomy(old(dm.objs)[AC], 1) ==> r == OK
    {
      var k;
      ghost var b, q := dm.objs, queue.entries;
      r, k := FindByTarget(dm.objs[AC], oid, iid);
      FoundIsGoverned(dm.objs[AC], r, k, oid, iid);
      if r != ERR_NOT_FOUND {
        return;
      }
      var free;
      r, free := CreateGrant(oid, iid, origin);
      if r == OK {
        queue.InstanceCreated(AC, free);
        AnnouncesOne(start, b, dm.objs, q, queue.entries, AC);
      }
    }

    method CreateGrant(oid: Id, iid: Id, origin: Id) returns (r: int, free: Id)
      requires origin != SSID_BOOTSTRAP && dm.Valid() && dm.depth > 0 && AC in dm.objs
      modifies dm`objs, dm`saved, dm`needsValidation
      ensures dm.Valid() && OnlyAcTouched(old(dm.objs), old(dm.saved))
      ensures r == OK ==> dm.objs[AC] == Inserted(old(dm.objs)[AC], Grant(free, oid, iid, origin))
      ensures dm.memory && TargetOidValid(oid) && origin != SSID_ANY && |old(dm.objs)[AC]| < 65535 ==> r == OK
    {
      r, free := dm.SelectFreeIid(AC);
      if r != OK {
        return;
      }
      ghost var ac := dm.objs[AC];
      var k := Position(dm.objs[AC], free);
      var x;
      r, x := dm.InstanceCreate(AC, free);
      if r == OK {
        r := FillIn(k, oid, iid, origin, ac, free);
      }
    }

    method FillIn(k: nat, oid: Id, iid: Id, origin: Id, ghost ac: seq<Inst>, free: Id) returns (r: int)
      requires origin != SSID_BOOTSTRAP && Filling(k, ac, AccessControl(free, 0, UNSET, SSID_BOOTSTRAP, false, []))
      modifies dm`objs, dm`saved, dm`needsValidation
      ensures dm.Valid() && OnlyAcTouched(old(dm.objs), old(dm.saved))
      ensures r == OK ==> dm.objs[AC] == Inserted(ac, Grant(free, oid, iid, origin))
      ensures dm.memory && TargetOidValid(oid) && origin != SSID_ANY ==> r == OK
    {
      ghost var x0 := AccessControl(free, 0, UNSET, SSID_BOOTSTRAP, false, []);
      ghost var x2 := AccessControl(free, oid, iid, SSID_BOOTSTRAP, false, []);
      r := FillInTarget(k, oid, iid, ac, x0, x2);
      if r == OK {
        r := FillInRights(k, origin, ac, x2, Grant(free, oid, iid, origin));
      }
    }

    method FillInTarget(k: nat, oid: Id, iid: Id, ghost ac: seq<Inst>, ghost x: Inst, ghost y: Inst) returns (r: int)
      requires Filling(k, ac, x) && x.AccessControl? && y == x.(oid := oid, oiid := iid)
      modifies dm`objs, dm`saved, dm`needsValidation
      ensures dm.Valid() && OnlyAcTouched(old(dm.objs), old(dm.saved))
      ensures r == OK ==> Filling(k, ac, y)
      ensures dm.memory && TargetOidValid(oid) ==> r == OK
    {
      r := FillInOne(k, TargetOid(oid), ac, x, x.(oid := oid));
      if r == OK {
        r := FillInOne(k, TargetOiid(iid), ac, x.(oid := oid), y);
      }
    }

    method FillInRights(k: nat, origin: Id, ghost ac: seq<Inst>, ghost x: Inst, ghost y: Inst) returns (r: int)
      requires origin != SSID_BOOTSTRAP && Filling(k, ac, x) && x.AccessControl? && x.acl == []
      requires y == x.(owner := origin, hasAcl := true, acl := [AclEntry(origin, MASK_FULL_BUT_CREATE)])
      modifies dm`objs, dm`saved, dm`needsValidation
      ensures dm.Valid() && OnlyAcTouched(old(dm.objs), old(dm.saved))
      ensures r == OK ==> Filling(k, ac, y)
      ensures dm.memory && origin != SSID_ANY ==> r == OK
    {
      ghost var z := x.(hasAcl := true, acl := [AclEntry(origin, MASK_FULL_BUT_CREATE)]);
      FirstEntry(x, origin);
      r := FillInOne(k, Acl(origin, MASK_FULL_BUT_CREATE), ac, x, z);
      if r == OK {
        r := FillInOne(k, Owner(origin), ac, z, y);
      }
    }

    ghost predicate Filling(k: nat, ac: seq<Inst>, x: Inst)
      reads this, dm
    {
      && dm.Valid() && dm.depth > 0 && AC in dm.objs
      && k == Position(ac, x.iid) && dm.objs[AC] == Inserted(ac, x)
    }

    method FillInOne(k: nat, w: AcWrite, ghost ac: seq<Inst>, ghost x: Inst, ghost y: Inst) returns (r: int)
      requires Filling(k, ac, x) && x.iid == y.iid && ValidWrite(w)
      requires AcceptableAc(x) && Written(x, w).Some? ==> Written(x, w).value == y
      modifies dm`objs, dm`saved, dm`needsValidation
      ensures dm.Valid() && OnlyAcTouched(old(dm.objs), old(dm.saved))
      ensures r == OK ==> Filling(k, ac, y)
      ensures AcceptableAc(x) && (dm.memory && Written(x, w).Some? ==> r == OK)
    {
      assert Inserted(ac, x)[k] == x;
      r := WriteAt(k, w, Inserted(ac, x));
      SamePlace(ac, x, y);
    }

    /** Makes sure that all the Instances are governed. */
    method GovernAll(oid: Id, iids: seq<Id>, origin: Id, queue: Queue, ghost start: Objects, ghost before: Objects,
                     ghost done: set<(Id, int)>, ghost more: nat)
      returns (r: int)
      requires origin != SSID_BOOTSTRAP
      requires Ready(queue) && Announces(start, dm.objs, queue.entries) && AddedFor(before, dm.objs, done, origin)
      modifies dm`objs, dm`saved, dm`needsValidation, queue
      ensures Ready(queue) && OnlyAcTouched(old(dm.objs), old(dm.saved))
      ensures r == OK ==> AddedFor(before, dm.objs, done + Pairs(oid, iids), origin)
      ensures r == OK ==> Announces(start, dm.objs, queue.entries)
      ensures CanGrant(oid, iids, origin) && Roomy(old(dm.objs)[AC], |iids| + more) ==> r == OK && Roomy(dm.objs[AC], more)
    {
      r := OK;
      var n: nat := 0;
      ghost var o, c := dm.objs, dm.saved;
      PairsEnds(oid, iids, done);
      while n < |iids| && r == OK
        invariant n <= |iids| && Ready(queue) && GoverningAll(oid, iids, n, origin, queue, start, before, done, more, o, c, r == OK)
      {
        r := GovernNext(oid, iids, n, origin, queue, start, before, done, more, o, c);
        n := n + 1;
      }
    }

    /** The first `n` are governed, unless something has failed. */
    ghost predicate GoverningAll(oid: Id, iids: seq<Id>, n: nat, origin: Id, queue: Queue, start: Objects, before: Objects,
                                 done: set<(Id, int)>, more: nat, objs: Objects, saved: Objects, ok: bool)
      reads dm, queue
    {
      && n <= |iids| && OnlyAcTouched(objs, saved) && AC in objs
      && (ok ==> AddedFor(before, dm.objs, done + Pairs(oid, iids[..n]), origin) && Announces(start, dm.objs, queue.entries))
      && (CanGrant(oid, iids, origin) && Roomy(objs[AC], |iids| + more) ==> ok && Roomy(dm.objs[AC], |iids| - n + more))
    }

    /** Access Control instances can be about the Object, and the server may own them. */
    ghost predicate CanGrant(oid: Id, iids: seq<Id>, origin: Id) {
      dm.memory && (iids != [] ==> TargetOidValid(oid)) && origin != SSID_ANY
    }

    method GovernNext(oid: Id, iids: seq<Id>, n: nat, origin: Id, queue: Queue, ghost start: Objects, ghost before: Objects,
                      ghost done: set<(Id, int)>, ghost more: nat, ghost objs: Objects, ghost saved: Objects)
      returns (r: int)
      requires origin != SSID_BOOTSTRAP && Ready(queue) && n < |iids|
      requires GoverningAll(oid, iids, n, origin, queue, start, before, done, more, objs, saved, true)
      modifies dm`objs, dm`saved, dm`needsValidation, queue
      ensures Ready(queue) && GoverningAll(oid, iids, n + 1, origin, queue, start, before, done, more, objs, saved, r == OK)
    {
      ghost var now := dm.objs;
      r := EnsureGoverned(oid, iids[n], origin, queue, start);
      if r == OK {
        AddedOne(before, now, dm.objs, done + Pairs(oid, iids[..n]), oid, iids[n], origin);
        if Roomy(now[AC], |iids| - n + more) {
          GrantedRoom(now[AC], dm.objs[AC], oid, iids[n], origin, |iids| - n - 1 + more);
        }
      }
      PairsStep(oid, iids, n, done);
    }

    /** Afterwards every Instance reported as new is governed. */
    method PerformAdds(q: seq<ObjectEntry>, origin: Id, queue: Queue, ghost start: Objects) returns (r: int)
      requires origin != SSID_BOOTSTRAP
      requires Ready(queue) && Announces(start, dm.objs, queue.entries)
      modifies dm`objs, dm`saved, dm`needsValidation, queue
      ensures Ready(queue) && OnlyAcTouched(old(dm.objs), old(dm.saved))
      ensures r == OK ==> AddedTo(old(dm.objs), dm.objs, q, origin)
      ensures r == OK ==> Announces(start, dm.objs, queue.entries)
      ensures dm.memory && origin != SSID_ANY && CanGovern(q) && Roomy(old(dm.objs)[AC], Additions(q)) ==> r == OK
    {
      r := OK;
      var n: nat := 0;
      ghost var o, c := dm.objs, dm.saved;
      AddingStarts(q, origin, queue, start);
      while n < |q| && r == OK
        invariant n <= |q| && Ready(queue) && Adding(q, n, origin, queue, start, o, c, r == OK)
      {
        r := AddNext(q, n, origin, queue, start, o, c);
        n := n + 1;
      }
      assert q[..|q|] == q;
      if r == OK {
        AddsResult(o, dm.objs, q, origin);
      }
    }

    lemma AddingStarts(q: seq<ObjectEntry>, origin: Id, queue: Queue, start: Objects)
      requires Ready(queue) && Announces(start, dm.objs, queue.entries)
      ensures Adding(q, 0, origin, queue, start, dm.objs, dm.saved, true)
    {
      assert q[0..] == q && q[..0] == [];
      assert AddedFor(dm.objs, dm.objs, {}, origin);
    }

    /** What the first `n` entries report is governed, unless something has failed. */
    ghost predicate Adding(q: seq<ObjectEntry>, n: nat, origin: Id, queue: Queue, start: Objects, o: Objects, saved: Objects,
                           ok: bool)
      reads dm, queue
    {
      && n <= |q| && AC in o && OnlyAcTouched(o, saved)
      && (ok ==> AddedFor(o, dm.objs, AllPairs(q[..n]), origin) && Announces(start, dm.objs, queue.entries))
      && (dm.memory && origin != SSID_ANY && CanGovern(q) && Roomy(o[AC], Additions(q)) ==>
            ok && Roomy(dm.objs[AC], Additions(q[n..])))
    }

    method AddNext(q: seq<ObjectEntry>, n: nat, origin: Id, queue: Queue, ghost start: Objects, ghost o: Objects,
                   ghost saved: Objects)
      returns (r: int)
      requires origin != SSID_BOOTSTRAP && Ready(queue) && n < |q| && Adding(q, n, origin, queue, start, o, saved, true)
      modifies dm`objs, dm`saved, dm`needsValidation, queue
      ensures Ready(queue) && Adding(q, n + 1, origin, queue, start, o, saved, r == OK)
    {
      AllPairsStep(q, n);
      AdditionsStep(q, n);
      r := OK;
      if Governable(q[n].oid) {
        r := GovernAll(q[n].oid, q[n].knownAdded, origin, queue, start, o, AllPairs(q[..n]), Additions(q[n + 1..]));
      }
    }

    /**
     Reports a change of every Object whose Access Control instances were changed directly. It
     fails exactly when one of those is not there any more.
     */
    method GenerateApparent(q: seq<ObjectEntry>, queue: Queue, ghost start: Objects) returns (r: int)
      requires Ready(queue) && ValidQueue(q) && Announces(start, dm.objs, queue.entries)
      modifies queue
      ensures Ready(queue) && Announces(start, dm.objs, queue.entries)
      ensures r == OK <==> AllStillThere(dm.objs[AC], About(q, AC).resourcesChanged)
      ensures r == OK ==> forall e, x :: e in About(q, AC).resourcesChanged && x in dm.objs[AC] && x.iid == e.iid ==>
        x.AccessControl? && About(queue.entries, x.oid).instanceSetChanged
    {
      var i: nat := 0;
      while i < |q|
        invariant i <= |q| && forall j :: 0 <= j < i ==> q[j].oid < AC
      {
        if q[i].oid >= AC {
          break;
        }
        i := i + 1;
      }
      if i == |q| || q[i].oid != AC {
        NothingAbout(q, AC);
        return OK;
      }
      EntryIsAbout(q, i);
      r := TellTargets(q[i].resourcesChanged, queue, start);
    }

    method TellTargets(changed: seq<ResourceEntry>, queue: Queue, ghost start: Objects) returns (r: int)
      requires Ready(queue) && Announces(start, dm.objs, queue.entries)
      modifies queue
      ensures Ready(queue) && Announces(start, dm.objs, queue.entries)
      ensures r == OK <==> AllStillThere(dm.objs[AC], changed)
      ensures r == OK ==> AllTold(dm.objs[AC], changed, |changed|, queue.entries)
    {
      var last: Id := ID_INVALID;
      ghost var at: nat := 0;
      var n: nat := 0;
      while n < |changed|
        invariant n <= |changed| && Ready(queue) && Announces(start, dm.objs, queue.entries)
        invariant LastSeen(dm.objs[AC], changed, n, last, at)
        invariant StillThereUpTo(dm.objs[AC], changed, n)
        invariant AllTold(dm.objs[AC], changed, n, queue.entries)
      {
        var iid := changed[n].iid;
        ghost var q := queue.entries;
        SeenBefore(dm.objs[AC], changed, n, last, at);
        if iid == last {
          NoInvalidIid(dm.objs[AC], iid, queue.entries);
        } else {
          var told := TellTarget(iid, queue, start);
          if !told {
            return ERR_NOT_FOUND;
          }
          last, at := iid, n;
          ToldStays(dm.objs[AC], changed, n, q, queue.entries);
        }
        ToldMore(dm.objs[AC], changed, n, queue.entries);
        n := n + 1;
      }
      r := OK;
    }

    method TellTarget(iid: Id, queue: Queue, ghost start: Objects) returns (told: bool)
      requires Ready(queue) && Announces(start, dm.objs, queue.entries)
      modifies queue
      ensures Ready(queue) && Announces(start, dm.objs, queue.entries)
      ensures told <==> Has(dm.objs[AC], iid)
      ensures iid == ID_INVALID ==> !told
      ensures told ==> TargetTold(dm.objs[AC], iid, queue.entries)
      ensures forall o :: About(old(queue.entries), o).instanceSetChanged ==> About(queue.entries, o).instanceSetChanged
    {
      var s := dm.objs[AC];
      var k := Position(s, iid);
      PositionIsExact(AC, s, iid);
      told := k < |s| && s[k].iid == iid;
      if told {
        ElementRight(AC, s, k);
        UniqueIid(AC, s, k);
        queue.InstanceSetUnknownChange(s[k].oid);
      } else {
        NoSuchElement(s, iid);
      }
    }

    // ----- The whole -----

    method RepairRemoves(removes: bool, q: seq<ObjectEntry>, queue: Queue) returns (r: int)
      requires Ready(queue) && removes == MightRemove(q)
      modifies dm`objs, dm`saved, dm`needsValidation, queue
      ensures Ready(queue) && OnlyAcTouched(old(dm.objs), old(dm.saved))
      ensures r == OK ==> PruneStep(old(dm.objs), dm.objs, q) && Announces(old(dm.objs), dm.objs, queue.entries)
      ensures r == OK ==> |dm.objs[AC]| <= |old(dm.objs)[AC]|
      ensures dm.memory && (removes ==> AllReadable(old(dm.objs)[AC])) ==> r == OK
    {
      r := OK;
      if removes {
        r := PerformRemoves(queue);
      }
    }

    method RepairOrphans(orphans: bool, q: seq<ObjectEntry>, queue: Queue, ghost start: Objects) returns (r: int)
      requires Ready(queue) && orphans == MightOrphan(q) && Announces(start, dm.objs, queue.entries)
      modifies dm`objs, dm`saved, dm`needsValidation, queue
      ensures Ready(queue) && dm.saved.Keys <= old(dm.saved).Keys + {AC} + if orphans then Losing(old(dm.objs)) else {}
      ensures r == OK ==> PurgeStep(old(dm.objs), dm.objs, q) && Announces(start, dm.objs, queue.entries)
      ensures r == OK ==> |dm.objs[AC]| <= |old(dm.objs)[AC]|
      ensures dm.memory && (orphans ==> AllWork(Losing(old(dm.objs))) && CanPurge(old(dm.objs))) ==> r == OK
    {
      r := OK;
      if orphans {
        r := RemoveOrphanedInstances(queue, start);
      }
    }

    method RepairAdds(adds: bool, q: seq<ObjectEntry>, origin: Id, queue: Queue, ghost start: Objects) returns (r: int)
      requires Ready(queue) && adds == HaveAdds(q, origin) && Announces(start, dm.objs, queue.entries)
      modifies dm`objs, dm`saved, dm`needsValidation, queue
      ensures Ready(queue) && OnlyAcTouched(old(dm.objs), old(dm.saved))
      ensures r == OK ==> AddStep(old(dm.objs), dm.objs, q, origin) && Announces(start, dm.objs, queue.entries)
      ensures dm.memory && (adds ==> origin != SSID_ANY && CanGovern(q) && Roomy(old(dm.objs)[AC], Additions(q))) ==> r == OK
    {
      r := OK;
      if adds {
        r := PerformAdds(q, origin, queue, start);
      }
    }

    /** There is memory, and no handler that can fail is going to be called. */
    ghost predicate Unhindered(objs: Objects, q: seq<ObjectEntry>)
      requires WellFormed(objs)
    {
      dm.memory && AllWork(AtRisk(objs, q))
    }

    /** The repairs, in order, as far as the changes call for them; stops at the first failure. */
    method Repair(q: seq<ObjectEntry>, origin: Id, queue: Queue)
      returns (r: int, ghost pruned: Objects, ghost purged: Objects)
      requires Ready(queue) && ValidQueue(q)
      modifies dm`objs, dm`saved, dm`needsValidation, queue
      ensures Ready(queue) && dm.saved.Keys <= old(dm.saved).Keys + {AC} + AtRisk(old(dm.objs), q)
      ensures r == OK ==> Steps(old(dm.objs), pruned, purged, dm.objs, q, origin)
      ensures r == OK ==> Announces(old(dm.objs), dm.objs, queue.entries)
      ensures Unhindered(old(dm.objs), q) && Feasible(old(dm.objs), q, origin) ==> r == OK
    {
      ghost var o := dm.objs;
      pruned, purged := o, o;
      var orphans, adds, removes := WhatChanged(origin, q);
      r, pruned := RepairLosses(removes, orphans, q, origin, queue);
      if r != OK { return; }
      purged := dm.objs;
      if adds && Feasible(o, q, origin) {
        FeasibleAdds(o, pruned, purged, q, origin);
      }
      r := RepairAdds(adds, q, origin, queue, o);
      if r != OK { return; }
      if Feasible(o, q, origin) {
        FeasibleEnd(o, pruned, purged, dm.objs, q, origin);
      }
      r := GenerateApparent(q, queue, o);
    }

    /** Drops what dangles or is repeated, and then what belongs to dead servers. */
    method RepairLosses(removes: bool, orphans: bool, q: seq<ObjectEntry>, ghost origin: Id, queue: Queue)
      returns (r: int, ghost pruned: Objects)
      requires Ready(queue) && removes == MightRemove(q) && orphans == MightOrphan(q)
      modifies dm`objs, dm`saved, dm`needsValidation, queue
      ensures Ready(queue) && dm.saved.Keys <= old(dm.saved).Keys + {AC} + AtRisk(old(dm.objs), q)
      ensures r == OK ==> PruneStep(old(dm.objs), pruned, q) && PurgeStep(pruned, dm.objs, q)
      ensures r == OK ==> |dm.objs[AC]| <= |old(dm.objs)[AC]|
      ensures r == OK ==> Announces(old(dm.objs), dm.objs, queue.entries)
      ensures Unhindered(old(dm.objs), q) && Feasible(old(dm.objs), q, origin) ==> r == OK
    {
      ghost var o := dm.objs;
      pruned := o;
      r := RepairRemoves(removes, q, queue);
      if r != OK { return; }
      pruned := dm.objs;
      RiskAfterPrune(o, pruned, q);
      if orphans && Feasible(o, q, origin) {
        FeasiblePurge(o, pruned, q, origin);
      }
      r := RepairOrphans(orphans, q, queue, o);
    }

    /** Nothing keeps a synchronisation from succeeding; at the outermost level it is validated and committed as well. */
    ghost predicate WillSync(objs: Objects, q: seq<ObjectEntry>, origin: Id, outermost: bool)
      requires WellFormed(objs)
    {
      AC in objs ==>
        && calm && Unhindered(objs, q) && Feasible(objs, q, origin)
        && (outermost ==> AtRisk(objs, q) !! dm.faulty && OutcomesValid(objs, q, origin, dm.serverSsid))
    }

    lemma OutcomeFine(before: Objects, pruned: Objects, purged: Objects, after: Objects, q: seq<ObjectEntry>, origin: Id,
                      included: set<Id>)
      requires WellFormed(before) && AC in before && WillSync(before, q, origin, true)
      requires Steps(before, pruned, purged, after, q, origin) && included <= {AC} + AtRisk(before, q)
      ensures included !! dm.shaky && included !! dm.faulty && AcValid(after, dm.serverSsid)
    {
    }

    /**
     Repairs the Access Control instances inside a transaction. What comes out when it succeeds is
     stated by `Synchronised`, and the Access Control object then finds the instances valid unless
     none is new or rewritten. When it fails at the outermost level, the data model is as it was, or
     as `repaired`, either of them but for the mishaps. Those can befall only faulty Objects that the
     purge takes something from; where there is none of these, a failure changes nothing.
     While it runs, the notifications it sends itself do not start it again.
     */
    method Sync(q: seq<ObjectEntry>, origin: Id)
      returns (r: int, ghost pruned: Objects, ghost purged: Objects, ghost repaired: Objects)
      requires dm.Valid() && ValidQueue(q) && (syncInProgress || dm.depth < 63)
      modifies this, dm
      ensures dm.Valid() && dm.depth == old(dm.depth) && syncInProgress == old(syncInProgress)
      ensures dm.depth > 0 ==> dm.base == old(dm.base) && dm.mishaps == old(dm.mishaps) && dm.vetted == old(dm.vetted)
      ensures dm.depth > 0 ==> dm.saved.Keys <= old(dm.saved).Keys + {AC} + AtRisk(old(dm.objs), q)
      ensures old(syncInProgress) || AC !in old(dm.objs) ==>
        r == OK && Untouched(old(dm.objs), old(dm.saved), old(dm.mishaps), old(dm.needsValidation))
      ensures r == OK && !old(syncInProgress) && AC in old(dm.objs) ==>
        Steps(old(dm.objs), pruned, purged, dm.objs, q, origin) && Synchronised(old(dm.objs), dm.objs, q, origin)
      ensures dm.depth == 0 && r == OK && !PartOf(AcOf(dm.objs), AcOf(old(dm.objs))) ==> AcValid(dm.objs, dm.serverSsid)
      ensures dm.depth == 0 && r != OK ==>
        AgreeOutside(dm.objs, old(dm.objs), dm.mishaps)
        || (dm.mishaps != {} && Steps(old(dm.objs), pruned, purged, repaired, q, origin)
            && AgreeOutside(dm.objs, repaired, dm.mishaps))
      ensures dm.depth == 0 && r != OK ==> dm.mishaps <= dm.faulty * AtRisk(old(dm.objs), q)
      ensures dm.depth == 0 && r != OK && dm.faulty * AtRisk(old(dm.objs), q) == {} ==> dm.objs == old(dm.objs)
      ensures dm.depth == 0 ==> Concluded(old(dm.objs), dm.objs, dm.mishaps, dm.faulty, q, origin)
      ensures WillSync(old(dm.objs), q, origin, dm.depth == 0) && !old(syncInProgress) ==> r == OK
      decreases if syncInProgress then 0 else 1, 0
    {
      r, pruned, purged, repaired := OK, dm.objs, dm.objs, dm.objs;
      if syncInProgress || AC !in dm.objs {
        return;
      }
      ghost var sure := WillSync(dm.objs, q, origin, dm.depth == 0);
      syncInProgress := true;
      dm.Begin();
      r, pruned, purged := RepairAndNotify(q, origin);
      ghost var included := dm.saved.Keys;
      repaired := dm.objs;
      if sure && dm.depth == 1 {
        OutcomeFine(old(dm.objs), pruned, purged, repaired, q, origin, included);
      }
      r := dm.Finish(r);
      if dm.depth == 0 && r != OK {
        MishapsAtRisk(dm.mishaps, dm.faulty, included, AtRisk(old(dm.objs), q));
        FailureConcluded(old(dm.objs), repaired, dm.objs, dm.mishaps, dm.faulty, q, origin);
      }
      syncInProgress := false;
    }

    method RepairAndNotify(q: seq<ObjectEntry>, origin: Id) returns (r: int, ghost pruned: Objects, ghost purged: Objects)
      requires dm.Valid() && ValidQueue(q) && dm.depth > 0 && syncInProgress && AC in dm.objs
      modifies this, dm
      ensures dm.Valid() && dm.depth == old(dm.depth) && syncInProgress
      ensures dm.base == old(dm.base) && dm.mishaps == old(dm.mishaps) && dm.vetted == old(dm.vetted)
      ensures dm.saved.Keys <= old(dm.saved).Keys + {AC} + AtRisk(old(dm.objs), q)
      ensures r == OK ==> Steps(old(dm.objs), pruned, purged, dm.objs, q, origin)
      ensures r == OK ==> Synchronised(old(dm.objs), dm.objs, q, origin)
      ensures calm && Unhindered(old(dm.objs), q) && Feasible(old(dm.objs), q, origin) ==> r == OK
      decreases 0, 3
    {
      ghost var o := dm.objs;
      var queue := new Queue();
      r, pruned, purged := Repair(q, origin, queue);
      if r == OK {
        SyncResult(o, pruned, purged, dm.objs, q, origin);
        r := NotifyFlush(queue, origin);
      }
    }

    /**
     Acts upon the queued notifications: reloads servers and notifies observers, which may fail but
     does not change the data model, and synchronises Access Control.
     */
    method NotifyPerform(q: seq<ObjectEntry>, origin: Id) returns (r: int)
      requires dm.Valid() && ValidQueue(q) && (syncInProgress || dm.depth < 63)
      modifies this, dm
      ensures dm.Valid() && dm.depth == old(dm.depth) && syncInProgress == old(syncInProgress)
      ensures dm.depth > 0 ==> dm.base == old(dm.base) && dm.mishaps == old(dm.mishaps) && dm.vetted == old(dm.vetted)
      ensures old(syncInProgress) || q == [] || AC !in old(dm.objs) ==>
        Untouched(old(dm.objs), old(dm.saved), old(dm.mishaps), old(dm.needsValidation))
      ensures r == OK && !old(syncInProgress) && AC in old(dm.objs) && q != [] ==>
        Synchronised(old(dm.objs), dm.objs, q, origin)
      ensures dm.depth > 0 ==> dm.saved.Keys <= old(dm.saved).Keys + {AC} + AtRisk(old(dm.objs), q)
      ensures dm.depth == 0 ==> Concluded(old(dm.objs), dm.objs, dm.mishaps, dm.faulty, q, origin)
      ensures calm && (old(syncInProgress) || q == [] || WillSync(old(dm.objs), q, origin, dm.depth == 0)) ==> r == OK
      ensures r == OK && !old(syncInProgress) && AC in old(dm.objs) && q != [] ==>
        exists pruned, purged :: Steps(old(dm.objs), pruned, purged, dm.objs, q, origin)
      decreases if syncInProgress then 0 else 1, 1
    {
      if q == [] {
        return OK;
      }
      var reloaded: int, callbacks: int := *, *;
      var synced, pruned, purged, repaired := Sync(q, origin);
      r := if calm then synced else if reloaded != OK then reloaded else if synced != OK then synced else callbacks;
    }

    /** Acts upon the notifications and forgets them. */
    method NotifyFlush(queue: Queue, origin: Id) returns (r: int)
      requires dm.Valid() && queue.Valid() && syncInProgress
      modifies this, dm, queue
      ensures dm.Valid() && dm.depth == old(dm.depth) && syncInProgress
      ensures Untouched(old(dm.objs), old(dm.saved), old(dm.mishaps), old(dm.needsValidation))
      ensures dm.depth > 0 ==> dm.base == old(dm.base) && dm.vetted == old(dm.vetted)
      ensures queue.entries == [] && (calm ==> r == OK)
      decreases 0, 2
    {
      r := NotifyPerform(queue.entries, origin);
      queue.entries := [];
    }
  }
}

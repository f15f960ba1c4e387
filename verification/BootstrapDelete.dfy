/**
 Bootstrap Delete: removing Instances on behalf of the Bootstrap Server, together with everything
 that was queued about them.
 */
module BootstrapDelete {
  import opened Ids
  import opened Instances
  import opened DataModel
  import opened NotifyQueue

  /** The Bootstrap Server's own account, which the Bootstrap Server does not delete along. */
  predicate OwnAccount(oid: Id, x: Inst) {
    oid == OID_SECURITY && x.Security? && x.bootstrap
  }

  ghost predicate Ready(dm: Dm, queue: Queue)
    reads dm, queue
  {
    dm.Valid() && dm.depth > 0 && queue.Valid()
  }

  // ----- What the queue says afterwards -----

  /** What was queued about the Instances `gone` of an Object is dropped, and only that. */
  ghost predicate Forgotten(was: ObjectEntry, now: ObjectEntry, gone: set<Id>) {
    && now.oid == was.oid
    && now.instanceSetChanged == (was.instanceSetChanged || gone != {})
    && (forall r :: r in now.resourcesChanged <==> r in was.resourcesChanged && r.iid !in gone)
    && (forall i :: i in now.knownAdded <==> i in was.knownAdded && i !in gone)
  }

  lemma ForgetOne(was: ObjectEntry, mid: ObjectEntry, dropped: ObjectEntry, now: ObjectEntry, gone: set<Id>, iid: Id)
    requires Forgotten(was, mid, gone)
    requires dropped == mid.(resourcesChanged := dropped.resourcesChanged)
    requires forall r :: r in dropped.resourcesChanged <==> r in mid.resourcesChanged && r.iid != iid
    requires now == dropped.(instanceSetChanged := true, knownAdded := now.knownAdded)
    requires forall x :: x in now.knownAdded <==> x in dropped.knownAdded && x != iid
    ensures Forgotten(was, now, gone + {iid})
  {
    assert iid in gone + {iid};
  }

  lemma NothingForgotten(was: ObjectEntry)
    ensures Forgotten(was, was, {})
  {
  }

  // ----- One Instance -----

  /** Removes the Instance, and if that works, whatever was queued about it. */
  method DeleteInstance(dm: Dm, queue: Queue, oid: Id, iid: Id, ghost was: ObjectEntry, ghost gone: set<Id>)
    returns (r: int, ghost gone': set<Id>)
    requires Ready(dm, queue) && oid in dm.objs && Forgotten(was, About(queue.entries, oid), gone)
    modifies dm`objs, dm`saved, queue
    ensures Ready(dm, queue) && OnlyObject(old(dm.objs), dm.objs, oid)
    ensures OthersUnchanged(old(queue.entries), queue.entries, oid)
    ensures r == OK ==> dm.objs == old(dm.objs)[oid := Without(old(dm.objs)[oid], iid)]
    ensures gone' == if r == OK then gone + {iid} else gone
    ensures r != OK ==> queue.entries == old(queue.entries)
    ensures Forgotten(was, About(queue.entries, oid), gone')
    ensures r == ERR_METHOD_NOT_ALLOWED ==> oid in dm.fixed
    ensures dm.Works(oid) && Has(old(dm.objs)[oid], iid) ==> r == OK
    ensures dm.Sound(oid) && oid in dm.fixed ==> r == OK || r == ERR_METHOD_NOT_ALLOWED
  {
    gone' := gone;
    r := dm.InstanceRemove(oid, iid);
    if r == OK {
      ghost var mid := About(queue.entries, oid);
      queue.DropResourceChanges(oid, iid);
      ghost var dropped := About(queue.entries, oid);
      queue.InstanceRemoved(oid, iid);
      ForgetOne(was, mid, dropped, About(queue.entries, oid), gone, iid);
      gone' := gone + {iid};
    }
  }

  /** Does the Security object have such an account of the Bootstrap Server? */
  method IsBootstrapInstance(dm: Dm, oid: Id, iid: Id) returns (b: bool)
    requires dm.Valid() && oid in dm.objs
    ensures b <==> exists x :: x in dm.objs[oid] && x.iid == iid && OwnAccount(oid, x)
    ensures b <==> oid == 0 && exists x :: x in dm.objs[oid] && x.iid == iid && x.Security? && x.bootstrap
  {
    var s := dm.objs[oid];
    var k := Position(s, iid);
    PositionIsExact(oid, s, iid);
    b := k < |s| && s[k].iid == iid && OwnAccount(oid, s[k]);
    if k < |s| && s[k].iid == iid {
      UniqueIid(oid, s, k);
    }
  }

  // ----- All Instances of an Object -----

  /** The IDs of the Instances to delete: all but, in Security, the Bootstrap Server's own account. */
  ghost function ToDelete(s: seq<Inst>, oid: Id): (r: set<Id>)
    ensures forall i: Id :: i in r <==> exists x :: x in s && x.iid == i && !OwnAccount(oid, x)
  {
    set x | x in s && !(oid == 0 && x.Security? && x.bootstrap) :: x.iid
  }

  /** Of the first `n` Instances, only the Bootstrap Server's own account is left. */
  ghost predicate Cleared(s: seq<Inst>, n: nat, now: seq<Inst>, oid: Id) {
    n <= |s| && forall x :: x in now <==> x in s && (OwnAccount(oid, x) || x !in s[..n])
  }

  /** The next Instance is still there; what happens to it leads to the next state. */
  lemma ClearedStep(s: seq<Inst>, n: nat, now: seq<Inst>, oid: Id)
    requires ListOk(oid, s) && n < |s| && Cleared(s, n, now, oid)
    ensures (exists x :: x in now && x.iid == s[n].iid && OwnAccount(oid, x)) <==> OwnAccount(oid, s[n])
    ensures Has(now, s[n].iid)
    ensures OwnAccount(oid, s[n]) ==> Cleared(s, n + 1, now, oid) && ToDelete(s[..n + 1], oid) == ToDelete(s[..n], oid)
    ensures !OwnAccount(oid, s[n]) ==>
      (Cleared(s, n + 1, Without(now, s[n].iid), oid)
       && ToDelete(s[..n + 1], oid) == ToDelete(s[..n], oid) + {s[n].iid})
  {
    UniqueIid(oid, s, n);
    assert s[..n + 1] == s[..n] + [s[n]];
    assert s[n] !in s[..n];
    assert s[n] in now;
    forall x | x in s && x.iid == s[n].iid
      ensures x == s[n]
    {
    }
  }

  /** The first `n` Instances have been dealt with. */
  ghost predicate Deleting(s: seq<Inst>, n: nat, now: seq<Inst>, oid: Id, gone: set<Id>) {
    n <= |s| && Cleared(s, n, now, oid) && gone == ToDelete(s[..n], oid)
  }

  lemma AllDeleted(s: seq<Inst>, now: seq<Inst>, oid: Id, gone: set<Id>)
    requires Deleting(s, |s|, now, oid, gone)
    ensures ClearedObject(s, now, oid) && gone == ToDelete(s, oid)
  {
    assert s[..|s|] == s;
    assert now == [] || now[0] in now;
  }

  /** Nothing is left, but in Security the Bootstrap Server's own account. */
  ghost predicate ClearedObject(before: seq<Inst>, after: seq<Inst>, oid: Id) {
    if oid == 0 then forall x :: x in after <==> x in before && x.Security? && x.bootstrap else after == []
  }

  ghost predicate AreIds(iids: seq<Id>, s: seq<Inst>) {
    |iids| == |s| && forall k :: 0 <= k < |iids| ==> iids[k] == s[k].iid
  }

  method SortedInstanceList(dm: Dm, oid: Id) returns (iids: seq<Id>)
    requires dm.Valid() && oid in dm.objs
    ensures AreIds(iids, dm.objs[oid])
  {
    iids := [];
    for k := 0 to |dm.objs[oid]|
      invariant |iids| == k && forall j :: 0 <= j < k ==> iids[j] == dm.objs[oid][j].iid
    {
      iids := iids + [dm.objs[oid][k].iid];
    }
  }

  /** Instances of the Object; of one that can be modified, all up to some point that are to be deleted. */
  ghost predicate DeletedSome(s: seq<Inst>, oid: Id, gone: set<Id>, fixed: set<Id>) {
    && (forall i :: i in gone ==> Has(s, i))
    && (oid !in fixed ==> exists n: nat :: DeletedUpTo(s, n, oid, gone))
  }

  ghost predicate DeletedUpTo(s: seq<Inst>, n: nat, oid: Id, gone: set<Id>) {
    n <= |s| && gone == ToDelete(s[..n], oid)
  }

  lemma DeletedStep(s: seq<Inst>, n: nat, oid: Id, gone: set<Id>, gone': set<Id>, fixed: set<Id>)
    requires n < |s| && DeletedSome(s, oid, gone, fixed) && (gone' == gone || gone' == gone + {s[n].iid})
    requires oid !in fixed ==> DeletedUpTo(s, n, oid, gone') || DeletedUpTo(s, n + 1, oid, gone')
    ensures DeletedSome(s, oid, gone', fixed)
  {
  }

  /** The same about the data model and the queue: nothing else has changed in either. */
  ghost predicate DeletingIn(before: Objects, now: Objects, q: seq<ObjectEntry>, q': seq<ObjectEntry>, oid: Id, n: nat,
                             gone: set<Id>, ok: bool, fixed: set<Id>)
    requires oid in before
  {
    && OnlyObject(before, now, oid) && OthersUnchanged(q, q', oid)
    && Forgotten(About(q, oid), About(q', oid), gone) && DeletedSome(before[oid], oid, gone, fixed)
    && (ok && oid !in fixed ==> Deleting(before[oid], n, now[oid], oid, gone))
  }

  /** Nothing but 4.05, which is put up with, keeps the Object's handlers from working. */
  predicate CanDelete(dm: Dm, oid: Id) {
    dm.memory && oid !in dm.shaky
  }

  /** Spares the Bootstrap Server's account, and puts up with an Object that cannot be modified. */
  method DeleteNext(dm: Dm, queue: Queue, oid: Id, iids: seq<Id>, n: nat, ghost o: Objects, ghost q: seq<ObjectEntry>,
                    ghost gone: set<Id>)
    returns (r: int, ghost gone': set<Id>)
    requires Ready(dm, queue) && oid in o && ListOk(oid, o[oid]) && AreIds(iids, o[oid]) && n < |iids|
    requires DeletingIn(o, dm.objs, q, queue.entries, oid, n, gone, true, dm.fixed)
    modifies dm`objs, dm`saved, queue
    ensures Ready(dm, queue)
    ensures DeletingIn(o, dm.objs, q, queue.entries, oid, n + 1, gone', r == OK, dm.fixed)
    ensures CanDelete(dm, oid) ==> r == OK
  {
    if oid !in dm.fixed {
      ClearedStep(o[oid], n, dm.objs[oid], oid);
    }
    r, gone' := OK, gone;
    var iid := iids[n];
    var own := IsBootstrapInstance(dm, oid, iid);
    if !(oid == OID_SECURITY && own) {
      r, gone' := DeleteInstance(dm, queue, oid, iid, About(q, oid), gone);
      if r == ERR_METHOD_NOT_ALLOWED {
        r := OK;
      }
    }
    DeletedStep(o[oid], n, oid, gone, gone', dm.fixed);
  }

  /** Deletes one by one until something fails. */
  method DeleteEach(dm: Dm, queue: Queue, oid: Id, iids: seq<Id>) returns (r: int, ghost gone: set<Id>)
    requires Ready(dm, queue) && oid in dm.objs && AreIds(iids, dm.objs[oid])
    modifies dm`objs, dm`saved, queue
    ensures Ready(dm, queue)
    ensures DeletingIn(old(dm.objs), dm.objs, old(queue.entries), queue.entries, oid, |iids|, gone, r == OK,
                       dm.fixed)
    ensures CanDelete(dm, oid) ==> r == OK
  {
    ghost var o, q := dm.objs, queue.entries;
    r, gone := OK, {};
    NothingForgotten(About(q, oid));
    assert DeletedUpTo(o[oid], 0, oid, gone);
    var n: nat := 0;
    while n < |iids| && r == OK
      invariant n <= |iids| && Ready(dm, queue)
      invariant DeletingIn(o, dm.objs, q, queue.entries, oid, n, gone, r == OK, dm.fixed)
      invariant CanDelete(dm, oid) ==> r == OK
    {
      r, gone := DeleteNext(dm, queue, oid, iids, n, o, q, gone);
      n := n + 1;
    }
  }

  /**
   Deletes the Instances of an Object; one that cannot be modified stays as it is. Whatever comes of
   it, the queue loses exactly what it said about the Instances that are deleted, which if it ends
   early are those up to some point.
   */
  method DeleteObject(dm: Dm, queue: Queue, oid: Id) returns (r: int, ghost gone: set<Id>)
    requires Ready(dm, queue) && oid in dm.objs
    modifies dm`objs, dm`saved, queue
    ensures Ready(dm, queue) && OnlyObject(old(dm.objs), dm.objs, oid)
    ensures OthersUnchanged(old(queue.entries), queue.entries, oid)
    ensures Forgotten(About(old(queue.entries), oid), About(queue.entries, oid), gone)
    ensures DeletedSome(old(dm.objs)[oid], oid, gone, dm.fixed)
    ensures r == OK && oid !in dm.fixed ==>
      ClearedObject(old(dm.objs)[oid], dm.objs[oid], oid) && gone == ToDelete(old(dm.objs)[oid], oid)
    ensures CanDelete(dm, oid) ==> r == OK
  {
    ghost var s := dm.objs[oid];
    var iids := SortedInstanceList(dm, oid);
    r, gone := DeleteEach(dm, queue, oid, iids);
    if r == OK && oid !in dm.fixed {
      AllDeleted(s, dm.objs[oid], oid, gone);
    }
  }

  // ----- All Objects -----

  /** Nothing but the Bootstrap Server's account is left, and nothing is queued about what is gone. */
  ghost predicate Wiped(before: Objects, after: Objects, q: seq<ObjectEntry>, q': seq<ObjectEntry>, oid: Id)
    requires oid in before && oid in after
  {
    && ClearedObject(before[oid], after[oid], oid)
    && Forgotten(About(q, oid), About(q', oid), ToDelete(before[oid], oid))
  }

  ghost predicate AllWiped(o: Objects, now: Objects, q: seq<ObjectEntry>, e: seq<ObjectEntry>, except: set<Id>) {
    o.Keys == now.Keys && forall oid :: oid in o && oid !in except ==> Wiped(o, now, q, e, oid)
  }

  ghost predicate Unwiped(o: Objects, now: Objects, q: seq<ObjectEntry>, e: seq<ObjectEntry>, rest: set<Id>) {
    o.Keys == now.Keys && forall oid :: oid in rest && oid in o ==> now[oid] == o[oid] && About(e, oid) == About(q, oid)
  }

  /** What is queued no more was about Instances of the Object. */
  ghost predicate LostSome(s: seq<Inst>, was: ObjectEntry, now: ObjectEntry, oid: Id, fixed: set<Id>) {
    exists gone: set<Id> :: Forgotten(was, now, gone) && DeletedSome(s, oid, gone, fixed)
  }

  ghost predicate AllLostSome(o: Objects, q: seq<ObjectEntry>, e: seq<ObjectEntry>, fixed: set<Id>) {
    forall oid :: oid in o ==> LostSome(o[oid], About(q, oid), About(e, oid), oid, fixed)
  }

  lemma NothingLost(o: Objects, q: seq<ObjectEntry>, fixed: set<Id>)
    ensures AllLostSome(o, q, q, fixed)
  {
    forall oid | oid in o
      ensures LostSome(o[oid], About(q, oid), About(q, oid), oid, fixed)
    {
      NothingForgotten(About(q, oid));
      assert DeletedUpTo(o[oid], 0, oid, {});
      assert DeletedSome(o[oid], oid, {}, fixed);
    }
  }

  /** The Objects in `rest` are untouched, and the others wiped unless they have failed or are fixed. */
  ghost predicate Wiping(o: Objects, now: Objects, q: seq<ObjectEntry>, e: seq<ObjectEntry>, rest: set<Id>, fixed: set<Id>,
                         failed: set<Id>)
  {
    && Unwiped(o, now, q, e, rest) && AllWiped(o, now, q, e, rest + fixed + failed)
    && AllLostSome(o, q, e, fixed) && failed <= o.Keys
  }

  lemma WipedStep(o: Objects, b: Objects, now: Objects, q: seq<ObjectEntry>, e: seq<ObjectEntry>, e': seq<ObjectEntry>,
                  rest: set<Id>, rest': set<Id>, fixed: set<Id>, failed: set<Id>, failed': set<Id>, oid: Id, gone: set<Id>)
    requires oid in rest && rest <= o.Keys && rest' == rest - {oid} && Wiping(o, b, q, e, rest, fixed, failed)
    requires OnlyObject(b, now, oid) && OthersUnchanged(e, e', oid)
    requires Forgotten(About(e, oid), About(e', oid), gone) && DeletedSome(b[oid], oid, gone, fixed)
    requires failed' == failed + {oid} || (failed' == failed
      && (oid !in fixed ==> ClearedObject(b[oid], now[oid], oid) && gone == ToDelete(b[oid], oid)))
    ensures Wiping(o, now, q, e', rest', fixed, failed')
  {
    forall x | x in o && x !in rest' + fixed + failed'
      ensures Wiped(o, now, q, e', x)
    {
      if x != oid {
        assert Wiped(o, b, q, e, x);
      }
    }
    forall x | x in o
      ensures LostSome(o[x], About(q, x), About(e', x), x, fixed)
    {
      if x != oid {
        assert LostSome(o[x], About(q, x), About(e, x), x, fixed);
      }
    }
  }

  /** Likewise after one Object only. */
  lemma OneLost(o: Objects, q: seq<ObjectEntry>, e: seq<ObjectEntry>, fixed: set<Id>, oid: Id, gone: set<Id>)
    requires oid in o && OthersUnchanged(q, e, oid)
    requires Forgotten(About(q, oid), About(e, oid), gone) && DeletedSome(o[oid], oid, gone, fixed)
    ensures AllLostSome(o, q, e, fixed)
  {
    NothingLost(o, q, fixed);
    forall x | x in o
      ensures LostSome(o[x], About(q, x), About(e, x), x, fixed)
    {
      if x != oid {
        assert LostSome(o[x], About(q, x), About(q, x), x, fixed);
      }
    }
  }

  method DeleteNextObject(dm: Dm, queue: Queue, oid: Id, result: int, ghost o: Objects, ghost q: seq<ObjectEntry>,
                          ghost rest: set<Id>, ghost rest': set<Id>, ghost failed: set<Id>)
    returns (r: int, ghost failed': set<Id>)
    requires Ready(dm, queue) && oid in rest && rest' == rest - {oid} && rest <= o.Keys
    requires Wiping(o, dm.objs, q, queue.entries, rest, dm.fixed, failed) && (result == OK <==> failed == {})
    modifies dm`objs, dm`saved, queue
    ensures Ready(dm, queue) && Wiping(o, dm.objs, q, queue.entries, rest', dm.fixed, failed')
    ensures r == OK <==> failed' == {}
    ensures failed' == failed || (failed' == failed + {oid} && !CanDelete(dm, oid))
  {
    ghost var b, e := dm.objs, queue.entries;
    ghost var gone;
    r, gone := DeleteObject(dm, queue, oid);
    failed' := if r == OK then failed else failed + {oid};
    WipedStep(o, b, dm.objs, q, e, queue.entries, rest, rest', dm.fixed, failed, failed', oid, gone);
    if result != OK {
      r := result;
    }
  }

  /** Goes through all Objects, whatever happens; the first failure is the result. */
  method DeleteAll(dm: Dm, queue: Queue) returns (r: int, ghost failed: set<Id>)
    requires Ready(dm, queue)
    modifies dm`objs, dm`saved, queue
    ensures Ready(dm, queue) && dm.objs.Keys == old(dm.objs).Keys
    ensures (r == OK <==> failed == {}) && failed <= dm.objs.Keys && forall oid :: oid in failed ==> !CanDelete(dm, oid)
    ensures AllWiped(old(dm.objs), dm.objs, old(queue.entries), queue.entries, dm.fixed + failed)
    ensures AllLostSome(old(dm.objs), old(queue.entries), queue.entries, dm.fixed)
  {
    ghost var o, q := dm.objs, queue.entries;
    NothingLost(o, q, dm.fixed);
    r, failed := DeleteObjects(dm, queue, o, q);
    WipedAll(o, dm.objs, q, queue.entries, dm.fixed, failed);
  }

  lemma WipedAll(o: Objects, now: Objects, q: seq<ObjectEntry>, e: seq<ObjectEntry>, fixed: set<Id>, failed: set<Id>)
    requires Wiping(o, now, q, e, {}, fixed, failed)
    ensures AllWiped(o, now, q, e, fixed + failed)
  {
    assert {} + fixed + failed == fixed + failed;
  }

  method DeleteObjects(dm: Dm, queue: Queue, ghost o: Objects, ghost q: seq<ObjectEntry>)
    returns (r: int, ghost failed: set<Id>)
    requires Ready(dm, queue) && Wiping(o, dm.objs, q, queue.entries, dm.objs.Keys, dm.fixed, {})
    modifies dm`objs, dm`saved, queue
    ensures Ready(dm, queue) && Wiping(o, dm.objs, q, queue.entries, {}, dm.fixed, failed)
    ensures (r == OK <==> failed == {}) && forall oid :: oid in failed ==> !CanDelete(dm, oid)
  {
    r, failed := OK, {};
    var rest := dm.objs.Keys;
    while rest != {}
      invariant Ready(dm, queue) && rest <= o.Keys && (r == OK <==> failed == {})
      invariant forall oid :: oid in failed ==> !CanDelete(dm, oid)
      invariant Wiping(o, dm.objs, q, queue.entries, rest, dm.fixed, failed)
      decreases |rest|
    {
      var oid :| oid in rest;
      var left := rest - {oid};
      r, failed := DeleteNextObject(dm, queue, oid, r, o, q, rest, left, failed);
      rest := left;
    }
  }

  // ----- The whole -----

  /** What a Bootstrap Delete is about. */
  datatype Target = Everything | AnObject(oid: Id) | AnInstance(oid: Id, iid: Id) | Deeper

  /** The Instance is not there any more, nor what was queued about it; all else is. */
  ghost predicate InstanceGone(before: Objects, after: Objects, q: seq<ObjectEntry>, q': seq<ObjectEntry>, oid: Id, iid: Id) {
    && OnlyObject(before, after, oid) && (oid in before ==> after[oid] == Without(before[oid], iid))
    && OthersUnchanged(q, q', oid)
    && Forgotten(About(q, oid), About(q', oid), if Exists(before, oid, iid) then {iid} else {})
  }

  /** What a successful Bootstrap Delete has done. */
  ghost predicate DeleteDone(target: Target, fixed: set<Id>, before: Objects, after: Objects, q: seq<ObjectEntry>,
                       q': seq<ObjectEntry>)
  {
    match target
    case Everything => AllWiped(before, after, q, q', fixed)
    case AnObject(oid) =>
      && OnlyObject(before, after, oid) && OthersUnchanged(q, q', oid)
      && (oid in before && oid !in fixed ==> Wiped(before, after, q, q', oid))
    case AnInstance(oid, iid) => InstanceGone(before, after, q, q', oid, iid)
    case Deeper => false
  }

  /** Nothing keeps the delete from working; there may be nothing to do. */
  ghost predicate WillDelete(dm: Dm, target: Target, isBsUri: bool, oids: set<Id>) {
    !isBsUri && match target
    case Everything => forall oid :: oid in oids ==> CanDelete(dm, oid)
    case AnObject(oid) => oid in oids ==> CanDelete(dm, oid)
    case AnInstance(oid, iid) => oid in oids ==> dm.Works(oid)
    case Deeper => false
  }

  /**
   Carries out a Bootstrap Delete. If it succeeds, each Object it is about has lost all its
   Instances but the Bootstrap Server's own account, unless its handlers may answer 4.05, and the
   queue has lost exactly what it said about them.
   */
  method Delete(dm: Dm, queue: Queue, target: Target, isBsUri: bool) returns (r: int, ghost failed: set<Id>)
    requires Ready(dm, queue)
    modifies dm`objs, dm`saved, queue
    ensures Ready(dm, queue) && dm.objs.Keys == old(dm.objs).Keys
    ensures isBsUri || target.Deeper? ==> r == ERR_BAD_REQUEST && dm.objs == old(dm.objs) && queue.entries == old(queue.entries)
    ensures target.AnObject? || target.AnInstance? ==> OnlyObject(old(dm.objs), dm.objs, target.oid)
    ensures target.AnObject? || target.AnInstance? ==> OthersUnchanged(old(queue.entries), queue.entries, target.oid)
    ensures r == OK ==> DeleteDone(target, dm.fixed, old(dm.objs), dm.objs, old(queue.entries), queue.entries)
    ensures !target.AnInstance? ==> AllLostSome(old(dm.objs), old(queue.entries), queue.entries, dm.fixed)
    ensures target.AnInstance? && r != OK ==> queue.entries == old(queue.entries)
    ensures target.Everything? && !isBsUri ==>
      (r == OK <==> failed == {}) && AllWiped(old(dm.objs), dm.objs, old(queue.entries), queue.entries, dm.fixed + failed)
    ensures WillDelete(dm, target, isBsUri, old(dm.objs).Keys) ==> r == OK
  {
    failed := {};
    ghost var o, q := dm.objs, queue.entries;
    NothingLost(o, q, dm.fixed);
    if isBsUri || target.Deeper? {
      return ERR_BAD_REQUEST, failed;
    }
    match target
    case Everything =>
      r, failed := DeleteAll(dm, queue);
    case AnObject(oid) =>
      r := OK;
      if oid in dm.objs {
        ghost var gone;
        r, gone := DeleteObject(dm, queue, oid);
        OneLost(o, q, queue.entries, dm.fixed, oid, gone);
      }
    case AnInstance(oid, iid) =>
      r := DeleteOne(dm, queue, oid, iid);
  }

  method DeleteOne(dm: Dm, queue: Queue, oid: Id, iid: Id) returns (r: int)
    requires Ready(dm, queue)
    modifies dm`objs, dm`saved, queue
    ensures Ready(dm, queue) && OnlyObject(old(dm.objs), dm.objs, oid)
    ensures OthersUnchanged(old(queue.entries), queue.entries, oid)
    ensures r == OK ==> InstanceGone(old(dm.objs), dm.objs, old(queue.entries), queue.entries, oid, iid)
    ensures r != OK ==> queue.entries == old(queue.entries)
    ensures (oid in old(dm.objs) ==> dm.Works(oid)) ==> r == OK
  {
    r := OK;
    if oid in dm.objs {
      var present := dm.InstancePresent(oid, iid);
      if present {
        r := DeletePresent(dm, queue, oid, iid);
      } else {
        WithoutAbsent(dm.objs[oid], iid);
      }
    }
  }

  method DeletePresent(dm: Dm, queue: Queue, oid: Id, iid: Id) returns (r: int)
    requires Ready(dm, queue) && Exists(dm.objs, oid, iid)
    modifies dm`objs, dm`saved, queue
    ensures Ready(dm, queue) && OnlyObject(old(dm.objs), dm.objs, oid)
    ensures OthersUnchanged(old(queue.entries), queue.entries, oid)
    ensures r == OK ==> InstanceGone(old(dm.objs), dm.objs, old(queue.entries), queue.entries, oid, iid)
    ensures r != OK ==> queue.entries == old(queue.entries)
    ensures dm.Works(oid) ==> r == OK
  {
    ghost var gone;
    NothingForgotten(About(queue.entries, oid));
    r, gone := DeleteInstance(dm, queue, oid, iid, About(queue.entries, oid), {});
    assert {} + {iid} == {iid};
  }
}

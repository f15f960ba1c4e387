/**
 The data model and the nested transactions over it.

 Only the outermost transaction has an effect. An Object is saved the first time something is about
 to change it, and the outermost finish commits or rolls back every saved Object. The ghost field
 `base` is the data model as it was at the outermost begin; the class invariant is what makes a
 rollback restore exactly that, whatever happened in between and at whatever depth.

 The built-in Access Control object is modelled exactly, its validation included. The handlers of
 every other Object belong to the application: they may fail, and a failing one may leave its own
 Object in any shape. What the application's handlers may answer is fixed for each data model.
 */
module DataModel {
  import opened Ids
  import opened Instances
  import opened AclValidation

  const INT_MIN: int := -0x8000_0000

  /** Objects whose handlers the application provides: any but Access Control. */
  type AppObjects = s: set<Id> | OID_ACCESS_CONTROL !in s

  /** What is saved is as it was at the beginning, and what is not saved still is. */
  ghost predicate Covered(objs: Objects, saved: Objects, base: Objects) {
    && WellFormed(base) && SavedAsIn(saved, base)
    && AgreeOutside(objs, base, saved.Keys)
  }

  ghost predicate SavedAsIn(saved: Objects, base: Objects) {
    saved.Keys <= base.Keys && forall oid :: oid in saved ==> saved[oid] == base[oid]
  }

  lemma Shrinks(saved: Objects, oid: Id)
    requires oid in saved
    ensures (saved - {oid}).Keys == saved.Keys - {oid} && |(saved - {oid}).Keys| < |saved.Keys|
  {
    assert (saved - {oid}).Keys == saved.Keys - {oid};
  }

  ghost predicate AgreeOutside(objs: Objects, base: Objects, except: set<Id>) {
    objs.Keys == base.Keys && forall oid :: oid in objs && oid !in except ==> objs[oid] == base[oid]
  }

  lemma AgreeEverywhere(objs: Objects, base: Objects)
    requires AgreeOutside(objs, base, {})
    ensures objs == base
  {
  }

  /** What is still saved is to be rolled back; the rest is, but for the mishaps. */
  ghost predicate RollingBack(objs: Objects, base: Objects, saved: Objects, mishaps: set<Id>, faulty: set<Id>, all: set<Id>) {
    && SavedAsIn(saved, base) && AgreeOutside(objs, base, saved.Keys + mishaps)
    && saved.Keys <= all && mishaps <= faulty * all
  }

  lemma RollingBackStarts(objs: Objects, base: Objects, saved: Objects, faulty: set<Id>)
    requires SavedAsIn(saved, base) && AgreeOutside(objs, base, saved.Keys)
    ensures RollingBack(objs, base, saved, {}, faulty, saved.Keys)
  {
    assert saved.Keys + {} == saved.Keys;
  }

  lemma SavedRight(objs: Objects, base: Objects, saved: Objects, oid: Id, mishaps: set<Id>, faulty: set<Id>, all: set<Id>)
    requires WellFormed(base) && oid in saved && RollingBack(objs, base, saved, mishaps, faulty, all)
    ensures oid in objs && ListOk(oid, saved[oid])
  {
    assert oid in base;
  }

  lemma RolledBack(before: Objects, after: Objects, base: Objects, saved: Objects, oid: Id, rest: Objects,
                   mishaps: set<Id>, mishaps': set<Id>, faulty: set<Id>, all: set<Id>)
    requires oid in saved && rest == saved - {oid}
    requires RollingBack(before, base, saved, mishaps, faulty, all) && OnlyObject(before, after, oid)
    requires if mishaps' == mishaps then after[oid] == saved[oid] || oid in mishaps
             else oid in faulty && mishaps' == mishaps + {oid}
    ensures rest.Keys == saved.Keys - {oid} && |rest.Keys| < |saved.Keys|
    ensures RollingBack(after, base, rest, mishaps', faulty, all)
  {
    Shrinks(saved, oid);
  }

  /** What is still to be committed is as it was, and so is the rest, but for the mishaps. */
  ghost predicate Committing(before: Objects, now: Objects, saved: Objects, mishaps: set<Id>, faulty: set<Id>, all: set<Id>) {
    && AgreeOutside(now, before, mishaps) && saved.Keys <= all <= now.Keys && mishaps <= faulty * all
  }

  lemma CommittedOne(before: Objects, b: Objects, now: Objects, saved: Objects, oid: Id, rest: Objects,
                     mishaps: set<Id>, mishaps': set<Id>, faulty: set<Id>, all: set<Id>)
    requires oid in saved && rest == saved - {oid} && Committing(before, b, saved, mishaps, faulty, all)
    requires OnlyObject(b, now, oid)
    requires (now == b && mishaps' == mishaps) || (oid in faulty && mishaps' == mishaps + {oid})
    ensures rest.Keys == saved.Keys - {oid} && |rest.Keys| < |saved.Keys|
    ensures Committing(before, now, rest, mishaps', faulty, all)
  {
    Shrinks(saved, oid);
  }

  /** The Access Control instances. */
  ghost function AcOf(objs: Objects): seq<Inst> {
    if OID_ACCESS_CONTROL in objs then objs[OID_ACCESS_CONTROL] else []
  }

  /** There is such an instance, and it accepts the write. */
  ghost predicate CanReplace(objs: Objects, iid: Id, w: AcWrite, x: Inst) {
    x in AcOf(objs) && x.iid == iid && AcceptableAc(x) && Written(x, w).Some?
  }

  /** The Access Control instance `iid` has been written to, and nothing else has changed. */
  ghost predicate Replaces(before: Objects, after: Objects, iid: Id, w: AcWrite) {
    OID_ACCESS_CONTROL in before && exists k: nat :: ReplacesAt(before, after, k, iid, w)
  }

  ghost predicate ReplacesAt(before: Objects, after: Objects, k: nat, iid: Id, w: AcWrite)
    requires OID_ACCESS_CONTROL in before
  {
    var s := before[OID_ACCESS_CONTROL];
    && k < |s| && s[k].iid == iid && AcceptableAc(s[k]) && Written(s[k], w).Some?
    && after == before[OID_ACCESS_CONTROL := s[k := Written(s[k], w).value]]
  }

  class Dm {
    /** The Objects whose commit and rollback handlers may fail. */
    const faulty: AppObjects
    /** The Objects that cannot be modified: their begin and remove handlers may answer 4.05. */
    const fixed: AppObjects
    /** The Objects whose write handlers may answer 4.04 or 5.01. */
    const partial: AppObjects
    /** The Objects whose other handlers may fail in other ways as well. */
    const shaky: AppObjects
    /** Whether there is always memory. */
    const memory: bool
    const serverSsid: SsidReader

    var objs: Objects
    var saved: Objects
    var depth: nat
    /** The Access Control object has been written to since it was last validated. */
    var needsValidation: bool
    ghost var base: Objects
    /** The Access Control instances as they last were when there was nothing to validate. */
    ghost var vetted: seq<Inst>
    /** The Objects whose commit or rollback handler failed in the last outermost finish. */
    ghost var mishaps: set<Id>

    constructor (objs: Objects, faulty: AppObjects, fixed: AppObjects, partial: AppObjects, shaky: AppObjects, memory: bool,
                 serverSsid: SsidReader)
      requires WellFormed(objs)
      ensures Valid() && depth == 0 && this.objs == objs && mishaps == {}
      ensures this.faulty == faulty && this.fixed == fixed && this.partial == partial && this.shaky == shaky
      ensures this.memory == memory && this.serverSsid == serverSsid
    {
      this.faulty, this.fixed, this.partial, this.shaky := faulty, fixed, partial, shaky;
      this.memory, this.serverSsid := memory, serverSsid;
      this.objs, saved, depth, needsValidation := objs, map[], 0, false;
      base, vetted, mishaps := objs, AcOf(objs), {};
    }

    ghost predicate Valid()
      reads this
    {
      && WellFormed(objs)
      && (depth == 0 ==> saved == map[])
      && (depth > 0 ==> Covered(objs, saved, base))
      && (needsValidation ==> OID_ACCESS_CONTROL in saved)
      && mishaps <= faulty
      && (depth > 0 ==> needsValidation || PartOf(AcOf(objs), vetted))
    }

    /** Starts a transaction, possibly inside another. At most 63 may be open. */
    method Begin()
      requires Valid() && depth < 63
      modifies this
      ensures Valid() && depth == old(depth) + 1
      ensures objs == old(objs) && saved == old(saved) && mishaps == old(mishaps)
      ensures needsValidation == old(needsValidation)
      ensures base == if old(depth) == 0 then old(objs) else old(base)
      ensures vetted == if old(depth) == 0 then AcOf(old(objs)) else old(vetted)
    {
      if depth == 0 {
        base := objs;
        vetted := AcOf(objs);
      }
      depth := depth + 1;
    }

    /** Nothing but 4.05, if that may be answered, keeps the handlers of the Object from working. */
    predicate Sound(oid: Id) {
      memory && oid !in shaky
    }

    /** Nothing at all does. */
    predicate Works(oid: Id) {
      Sound(oid) && oid !in fixed
    }

    /** What a handler of the application answers: anything unless it works. */
    method AnswerOf(works: bool) returns (r: int)
      ensures works ==> r == OK
    {
      r := *;
      if works {
        r := OK;
      }
    }

    /** What a begin or remove handler answers: 4.05 only if it may, and nothing else if it is sound. */
    method AnswerOrNotAllowed(oid: Id) returns (r: int)
      ensures Works(oid) ==> r == OK
      ensures Sound(oid) ==> r == OK || r == ERR_METHOD_NOT_ALLOWED
      ensures r == ERR_METHOD_NOT_ALLOWED ==> oid in fixed
    {
      r := AnswerOf(Works(oid));
      if r != OK && Sound(oid) {
        r := ERR_METHOD_NOT_ALLOWED;
      } else if r == ERR_METHOD_NOT_ALLOWED && oid !in fixed {
        r := ERR;
      }
    }

    /** Saves an Object unless it has been saved in this transaction; its begin handler may refuse. */
    method IncludeObject(oid: Id) returns (r: int)
      requires Valid() && depth > 0 && oid in objs
      modifies this`saved
      ensures Valid()
      ensures r == OK ==> oid in saved
      ensures Works(oid) ==> r == OK
      ensures Sound(oid) ==> r == OK || r == ERR_METHOD_NOT_ALLOWED
      ensures oid in old(saved) ==> r == OK && saved == old(saved)
      ensures oid !in old(saved) ==> saved == if r == OK then old(saved)[oid := objs[oid]] else old(saved)
      ensures r == ERR_METHOD_NOT_ALLOWED ==> oid in fixed
      ensures oid == OID_ACCESS_CONTROL ==> r == OK || r == ERR_INTERNAL
    {
      if oid in saved {
        return OK;
      }
      r := AnswerOrNotAllowed(oid);
      if oid == OID_ACCESS_CONTROL && r != OK {
        // it can only run out of memory
        r := ERR_INTERNAL;
      }
      if r == OK {
        saved := saved[oid := objs[oid]];
      }
    }

    /** Is there such an Instance? The list is ascending, so the search stops early. */
    method InstancePresent(oid: Id, iid: int) returns (present: bool)
      requires Valid() && oid in objs
      ensures present <==> Exists(objs, oid, iid)
    {
      var s := objs[oid];
      var k: nat := 0;
      while k < |s| && s[k].iid < iid
        invariant k <= |s| && forall i :: 0 <= i < k ==> s[i].iid < iid
      {
        k := k + 1;
      }
      present := k < |s| && s[k].iid == iid;
      PositionIsExact(oid, s, iid);
    }

    /** A handler of another Object has run and failed: its Object may look like anything. */
    method Disturb(oid: Id)
      requires Valid() && depth > 0 && oid in saved && oid != OID_ACCESS_CONTROL
      modifies this`objs
      ensures Valid() && OnlyObject(old(objs), objs, oid)
    {
      var s: seq<Inst> := *;
      if ListOk(oid, s) {
        objs := objs[oid := s];
      }
    }

    method InstanceRemove(oid: Id, iid: Id) returns (r: int)
      requires Valid() && depth > 0 && oid in objs
      modifies this`objs, this`saved
      ensures Valid()
      ensures r == OK ==> objs == old(objs)[oid := Without(old(objs)[oid], iid)]
      ensures OnlyObject(old(objs), objs, oid)
      ensures r != OK && oid == OID_ACCESS_CONTROL ==> objs == old(objs)
      ensures oid == OID_ACCESS_CONTROL && r == OK ==> Has(old(objs)[oid], iid)
      ensures saved.Keys <= old(saved).Keys + {oid}
      ensures r == ERR_METHOD_NOT_ALLOWED ==> oid in fixed
      ensures Works(oid) && Has(old(objs)[oid], iid) ==> r == OK
      ensures Sound(oid) && oid in fixed ==> r == OK || r == ERR_METHOD_NOT_ALLOWED
    {
      r := IncludeObject(oid);
      if r != OK {
        return;
      }
      if oid == OID_ACCESS_CONTROL {
        r := AcInstanceRemove(iid);
      } else {
        r := OtherInstanceRemove(oid, iid);
      }
    }

    method OtherInstanceRemove(oid: Id, iid: Id) returns (r: int)
      requires Valid() && depth > 0 && oid in saved && oid != OID_ACCESS_CONTROL
      modifies this`objs
      ensures Valid()
      ensures r == OK ==> objs == old(objs)[oid := Without(old(objs)[oid], iid)]
      ensures OnlyObject(old(objs), objs, oid)
      ensures r == ERR_METHOD_NOT_ALLOWED ==> oid in fixed
      ensures Works(oid) ==> r == OK
      ensures Sound(oid) ==> r == OK || r == ERR_METHOD_NOT_ALLOWED
    {
      r := AnswerOrNotAllowed(oid);
      if r == OK {
        WithoutListOk(oid, objs[oid], iid);
        objs := objs[oid := Without(objs[oid], iid)];
      } else {
        Disturb(oid);
      }
    }

    /** The Access Control object's remove handler. */
    method AcInstanceRemove(iid: Id) returns (r: int)
      requires Valid() && depth > 0 && OID_ACCESS_CONTROL in saved
      modifies this`objs
      ensures Valid() && (r == OK <==> Has(old(objs)[OID_ACCESS_CONTROL], iid)) && (r == OK || r == ERR_NOT_FOUND)
      ensures r == OK ==> objs == old(objs)[OID_ACCESS_CONTROL := Without(old(objs)[OID_ACCESS_CONTROL], iid)]
      ensures r != OK ==> objs == old(objs)
    {
      var s := objs[OID_ACCESS_CONTROL];
      PositionIsExact(OID_ACCESS_CONTROL, s, iid);
      var k := Position(s, iid);
      if k == |s| || s[k].iid != iid {
        return ERR_NOT_FOUND;
      }
      RemovedAt(OID_ACCESS_CONTROL, s, k);
      objs := objs[OID_ACCESS_CONTROL := s[..k] + s[k + 1..]];
      r := OK;
    }

    /** The Access Control object's handlers have changed something. */
    method AcStore(s: seq<Inst>)
      requires Valid() && depth > 0 && OID_ACCESS_CONTROL in saved && ListOk(OID_ACCESS_CONTROL, s)
      modifies this`objs, this`needsValidation
      ensures Valid() && objs == old(objs)[OID_ACCESS_CONTROL := s] && needsValidation
    {
      objs := objs[OID_ACCESS_CONTROL := s];
      needsValidation := true;
    }

    /** Creates a blank Instance, `x` of other Objects being what the handler makes of it. */
    method InstanceCreate(oid: Id, iid: Id) returns (r: int, x: Inst)
      requires Valid() && depth > 0 && oid in objs && iid != ID_INVALID && !Has(objs[oid], iid)
      modifies this`objs, this`saved, this`needsValidation
      ensures Valid() && x.iid == iid && (old(needsValidation) ==> needsValidation)
      ensures r == OK ==> RightKind(oid, x) && objs == old(objs)[oid := Inserted(old(objs)[oid], x)]
      ensures r != OK ==> OnlyObject(old(objs), objs, oid)
      ensures oid == OID_ACCESS_CONTROL ==> x == AccessControl(iid, 0, UNSET, SSID_BOOTSTRAP, false, [])
      ensures r != OK && oid == OID_ACCESS_CONTROL ==> objs == old(objs)
      ensures r == OK && oid == OID_ACCESS_CONTROL ==> needsValidation
      ensures saved.Keys <= old(saved).Keys + {oid}
      ensures Works(oid) ==> r == OK
    {
      x := AccessControl(iid, 0, UNSET, SSID_BOOTSTRAP, false, []);
      if oid == OID_SECURITY {
        var bootstrap: bool, ssid: Option<int> := *, *;
        x := Security(iid, bootstrap, ssid);
      } else if oid != OID_ACCESS_CONTROL {
        var contents: int := *;
        x := Plain(iid, contents);
      }
      r := IncludeObject(oid);
      if r != OK {
        return;
      }
      InsertedListOk(oid, objs[oid], x);
      if oid == OID_ACCESS_CONTROL {
        AcStore(Inserted(objs[oid], x));
      } else {
        r := OtherInstanceCreate(oid, x);
      }
    }

    method OtherInstanceCreate(oid: Id, x: Inst) returns (r: int)
      requires Valid() && depth > 0 && oid in saved && oid != OID_ACCESS_CONTROL && ListOk(oid, Inserted(objs[oid], x))
      modifies this`objs
      ensures Valid()
      ensures r == OK ==> objs == old(objs)[oid := Inserted(old(objs)[oid], x)]
      ensures r != OK ==> OnlyObject(old(objs), objs, oid)
      ensures Works(oid) ==> r == OK
    {
      r := AnswerOf(Works(oid));
      if r == OK {
        objs := objs[oid := Inserted(objs[oid], x)];
      } else {
        Disturb(oid);
      }
    }

    /** Writes Resources of an Instance of any Object but Access Control, or some of them. */
    method WriteContents(oid: Id, iid: Id) returns (r: int)
      requires Valid() && depth > 0 && oid in objs && oid != OID_ACCESS_CONTROL
      modifies this`objs, this`saved
      ensures Valid() && OnlyObject(old(objs), objs, oid)
      ensures r == OK ==> forall i :: Has(objs[oid], i) <==> Has(old(objs)[oid], i)
      ensures r == ERR_NOT_FOUND || r == ERR_NOT_IMPLEMENTED ==> oid in partial
      ensures saved.Keys <= old(saved).Keys + {oid}
      ensures Works(oid) ==> r == OK
    {
      r := IncludeObject(oid);
      if r == OK {
        r := AnswerOf(Works(oid));
        if r != OK {
          Disturb(oid);
        } else {
          ReplaceContents(oid, iid);
        }
      }
      if (r == ERR_NOT_FOUND || r == ERR_NOT_IMPLEMENTED) && oid !in partial {
        r := ERR;
      }
    }

    method ReplaceContents(oid: Id, iid: Id)
      requires Valid() && depth > 0 && oid in saved && oid != OID_ACCESS_CONTROL
      modifies this`objs
      ensures Valid() && OnlyObject(old(objs), objs, oid)
      ensures forall i :: Has(objs[oid], i) <==> Has(old(objs)[oid], i)
    {
      var x: Inst := *;
      var s := objs[oid];
      var k := Position(s, iid);
      if k < |s| && s[k].iid == iid == x.iid && RightKind(oid, x) {
        ReplacedKeepsIds(s, k, x);
        ReplacedListOk(oid, s, k, x);
        objs := objs[oid := s[k := x]];
      }
    }

    /**
     Writes or resets a Resource of an Access Control instance. Once the object is included, that
     works exactly if there is such an instance and it accepts the value.
     */
    method AcResourceWrite(iid: Id, w: AcWrite) returns (r: int)
      requires Valid() && depth > 0 && OID_ACCESS_CONTROL in objs && ValidWrite(w)
      modifies this`objs, this`saved, this`needsValidation
      ensures Valid()
      ensures r == OK ==> Replaces(old(objs), objs, iid, w) && needsValidation
      ensures r != OK ==> objs == old(objs) && needsValidation == old(needsValidation)
      ensures (r == ERR_NOT_FOUND ==> !Has(old(objs)[OID_ACCESS_CONTROL], iid)) && r != ERR_NOT_IMPLEMENTED
      ensures saved.Keys <= old(saved).Keys + {OID_ACCESS_CONTROL}
      ensures (memory || OID_ACCESS_CONTROL in old(saved)) && (exists x :: CanReplace(old(objs), iid, w, x)) ==> r == OK
    {
      r := IncludeObject(OID_ACCESS_CONTROL);
      if r == OK {
        r := AcWriteHandler(iid, w);
      }
    }

    method AcWriteHandler(iid: Id, w: AcWrite) returns (r: int)
      requires Valid() && depth > 0 && OID_ACCESS_CONTROL in saved && ValidWrite(w)
      modifies this`objs, this`needsValidation
      ensures Valid()
      ensures r == OK ==> Replaces(old(objs), objs, iid, w) && needsValidation
      ensures r != OK ==> objs == old(objs) && needsValidation == old(needsValidation)
      ensures r == OK <==> exists x :: CanReplace(old(objs), iid, w, x)
      ensures (r == ERR_NOT_FOUND ==> !Has(old(objs)[OID_ACCESS_CONTROL], iid)) && r != ERR_NOT_IMPLEMENTED
    {
      var s := objs[OID_ACCESS_CONTROL];
      var k := Position(s, iid);
      OnlyOneWith(OID_ACCESS_CONTROL, s, iid, k);
      PositionIsExact(OID_ACCESS_CONTROL, s, iid);
      if k == |s| || s[k].iid != iid {
        return ERR_NOT_FOUND;
      }
      ElementRight(OID_ACCESS_CONTROL, s, k);
      var x := Written(s[k], w);
      if x.None? {
        return ERR_BAD_REQUEST;
      }
      assert CanReplace(objs, iid, w, s[k]);
      assert ReplacesAt(objs, objs[OID_ACCESS_CONTROL := s[k := x.value]], k, iid, w);
      WrittenAcceptable(s[k], w);
      ReplacedListOk(OID_ACCESS_CONTROL, s, k, x.value);
      AcStore(s[k := x.value]);
      r := OK;
    }

    /** The first Instance ID that is not taken. */
    method SelectFreeIid(oid: Id) returns (r: int, iid: Id)
      requires Valid() && oid in objs
      ensures r == OK ==> iid != ID_INVALID && !Has(objs[oid], iid) && forall i: Id :: i < iid ==> Has(objs[oid], i)
      ensures r != OK ==> r == ERR_BAD_REQUEST && forall i: Id :: i != ID_INVALID ==> Has(objs[oid], i)
      ensures |objs[oid]| < 65535 ==> r == OK
    {
      var s := objs[oid];
      iid := 0;
      ListOkMeans(oid, s);
      while iid < |s| && s[iid].iid == iid
        invariant iid <= |s| && forall i :: 0 <= i < iid ==> s[i].iid == i
      {
        assert RightKind(oid, s[iid]);
        iid := iid + 1;
      }
      forall i: Id | i < iid
        ensures Has(s, i)
      {
        assert s[i].iid == i;
      }
      if iid == ID_INVALID {
        return ERR_BAD_REQUEST, iid;
      }
      NoneBetween(s, iid);
      r := OK;
    }

    /**
     Asks every included Object to validate; the handlers only look. That of Access Control looks
     only if there has been a write.
     */
    method Validate() returns (r: int)
      requires Valid() && depth > 0
      modifies this`needsValidation, this`vetted
      ensures Valid() && Vetted(old(needsValidation), old(vetted))
      ensures r == OK ==> !needsValidation
      ensures r == OK && old(needsValidation) ==> AcValid(objs, serverSsid)
      ensures saved.Keys !! shaky ==> (r == OK <==> (old(needsValidation) ==> AcValid(objs, serverSsid)))
    {
      var rest := saved.Keys;
      r := OK;
      while rest != {} && r == OK
        invariant Valid() && rest <= saved.Keys && Vetted(old(needsValidation), old(vetted))
        invariant needsValidation ==> OID_ACCESS_CONTROL in rest || r != OK
        invariant saved.Keys !! shaky && r != OK ==> old(needsValidation) && !AcValid(objs, serverSsid)
        decreases |rest|
      {
        var oid :| oid in rest;
        r := ValidateObject(oid);
        rest := rest - {oid};
      }
    }

    /** Nothing has been validated, or Access Control has and is sound. */
    ghost predicate Vetted(needed: bool, before: seq<Inst>)
      reads this
    {
      if needsValidation == needed then vetted == before
      else needed && AcValid(objs, serverSsid)
    }

    method ValidateObject(oid: Id) returns (r: int)
      requires Valid() && depth > 0 && oid in objs
      modifies this`needsValidation, this`vetted
      ensures Valid() && Vetted(old(needsValidation), old(vetted))
      ensures r == OK && oid == OID_ACCESS_CONTROL ==> !needsValidation
      ensures r != OK && oid !in shaky ==> old(needsValidation) && !AcValid(objs, serverSsid)
    {
      if oid == OID_ACCESS_CONTROL {
        r := TransactionValidate(objs, serverSsid, needsValidation);
        if r == OK && needsValidation {
          needsValidation := false;
          vetted := AcOf(objs);
        }
      } else {
        r := AnswerOf(oid !in shaky);
      }
    }

    /**
     Closes one level. The last one commits or rolls back each included Object; only a failing
     handler can keep an Object from being what it should be then.
     */
    method FinishWithoutValidation(result: int) returns (r: int)
      requires Valid() && depth > 0
      modifies this
      ensures Valid() && depth == old(depth) - 1 && base == old(base) && vetted == old(vetted)
      ensures depth > 0 ==> r == result && Unfinished(old(objs), old(saved), old(mishaps), old(needsValidation))
      ensures depth == 0 ==> mishaps <= faulty * old(saved).Keys
      ensures depth == 0 && result == OK ==> AgreeOutside(objs, old(objs), mishaps) && (r == OK <==> mishaps == {})
      ensures depth == 0 && result == OK && old(saved).Keys !! faulty ==> r == OK
      ensures r == OK ==> objs == old(objs)
      ensures depth == 0 && result != OK ==> r == result && AgreeOutside(objs, base, mishaps)
    {
      depth := depth - 1;
      if depth != 0 {
        r := result;
      } else if result == OK {
        r := CommitAll();
      } else {
        RollBackAll();
        r := result;
      }
    }

    /** An inner level has been closed, which changes nothing. */
    ghost predicate Unfinished(objs: Objects, saved: Objects, mishaps: set<Id>, needsValidation: bool)
      reads this
    {
      && this.objs == objs && this.saved == saved && this.mishaps == mishaps
      && this.needsValidation == needsValidation
    }

    /**
     Commits each included Object; the first failure is the result, but does not stop the others.
     Whatever the handler of an Object does when it fails, it does to that Object.
     */
    method CommitAll() returns (r: int)
      requires WellFormed(objs) && saved.Keys <= objs.Keys && (needsValidation ==> OID_ACCESS_CONTROL in saved)
      modifies this`objs, this`saved, this`mishaps, this`needsValidation
      ensures saved == map[] && WellFormed(objs) && AgreeOutside(objs, old(objs), mishaps) && !needsValidation
      ensures (r == OK <==> mishaps == {}) && mishaps <= faulty * old(saved).Keys
    {
      r, mishaps := OK, {};
      ghost var o, all := objs, saved.Keys;
      while saved != map[]
        invariant WellFormed(objs) && Committing(o, objs, saved, mishaps, faulty, all)
        invariant r == OK <==> mishaps == {}
        invariant needsValidation ==> OID_ACCESS_CONTROL in saved
        decreases |saved.Keys|
      {
        var oid :| oid in saved.Keys;
        var answer := CommitNext(oid, o, all);
        if r == OK {
          r := answer;
        }
      }
    }

    method CommitNext(oid: Id, ghost o: Objects, ghost all: set<Id>) returns (answer: int)
      requires WellFormed(objs) && oid in saved && Committing(o, objs, saved, mishaps, faulty, all)
      requires needsValidation ==> OID_ACCESS_CONTROL in saved
      modifies this`objs, this`saved, this`mishaps, this`needsValidation
      ensures WellFormed(objs) && Committing(o, objs, saved, mishaps, faulty, all)
      ensures mishaps == if answer == OK then old(mishaps) else old(mishaps) + {oid}
      ensures needsValidation ==> OID_ACCESS_CONTROL in saved
      ensures |saved.Keys| < |old(saved).Keys|
    {
      ghost var b, m := objs, mishaps;
      var rest := saved - {oid};
      answer := CommitObject(oid);
      CommittedOne(o, b, objs, saved, oid, rest, m, mishaps, faulty, all);
      saved := rest;
    }

    /** Calls the commit handler, which leaves the Object alone unless it fails. */
    method CommitObject(oid: Id) returns (answer: int)
      requires WellFormed(objs) && oid in objs
      modifies this`objs, this`mishaps, this`needsValidation
      ensures WellFormed(objs) && OnlyObject(old(objs), objs, oid)
      ensures needsValidation == (old(needsValidation) && oid != OID_ACCESS_CONTROL)
      ensures answer == OK ==> objs == old(objs) && mishaps == old(mishaps)
      ensures answer != OK ==> oid in faulty && mishaps == old(mishaps) + {oid}
    {
      if oid == OID_ACCESS_CONTROL {
        needsValidation := false;
      }
      answer := *;
      if oid !in faulty {
        answer := OK;
      }
      if answer != OK {
        mishaps := mishaps + {oid};
        Scramble(oid);
      }
    }

    /** A failing handler has left its Object in any shape. */
    method Scramble(oid: Id)
      requires WellFormed(objs) && oid in objs
      modifies this`objs
      ensures WellFormed(objs) && OnlyObject(old(objs), objs, oid)
    {
      var s: seq<Inst> := *;
      if ListOk(oid, s) {
        objs := objs[oid := s];
      }
    }

    /** Rolls back each included Object. */
    method RollBackAll()
      requires Covered(objs, saved, base) && WellFormed(objs) && (needsValidation ==> OID_ACCESS_CONTROL in saved)
      modifies this`objs, this`saved, this`mishaps, this`needsValidation
      ensures saved == map[] && WellFormed(objs) && AgreeOutside(objs, base, mishaps) && !needsValidation
      ensures mishaps <= faulty * old(saved).Keys
    {
      mishaps := {};
      ghost var all := saved.Keys;
      RollingBackStarts(objs, base, saved, faulty);
      while saved != map[]
        invariant WellFormed(objs) && RollingBack(objs, base, saved, mishaps, faulty, all)
        invariant needsValidation ==> OID_ACCESS_CONTROL in saved
        decreases |saved.Keys|
      {
        var oid :| oid in saved.Keys;
        RollBackNext(oid, all);
      }
    }

    method RollBackNext(oid: Id, ghost all: set<Id>)
      requires WellFormed(objs) && WellFormed(base) && oid in saved && RollingBack(objs, base, saved, mishaps, faulty, all)
      requires needsValidation ==> OID_ACCESS_CONTROL in saved
      modifies this`objs, this`saved, this`mishaps, this`needsValidation
      ensures WellFormed(objs) && RollingBack(objs, base, saved, mishaps, faulty, all)
      ensures needsValidation ==> OID_ACCESS_CONTROL in saved
      ensures |saved.Keys| < |old(saved).Keys|
    {
      ghost var o, m := objs, mishaps;
      var rest := saved - {oid};
      SavedRight(objs, base, saved, oid, mishaps, faulty, all);
      RollBackObject(oid);
      RolledBack(o, objs, base, saved, oid, rest, m, mishaps, faulty, all);
      saved := rest;
    }

    /** Calls the rollback handler, which does its work unless it fails. */
    method RollBackObject(oid: Id)
      requires WellFormed(objs) && oid in saved && oid in objs && ListOk(oid, saved[oid])
      modifies this`objs, this`mishaps, this`needsValidation
      ensures WellFormed(objs) && OnlyObject(old(objs), objs, oid)
      ensures needsValidation == (old(needsValidation) && oid != OID_ACCESS_CONTROL)
      ensures if mishaps == old(mishaps) then objs[oid] == saved[oid] || oid in old(mishaps)
              else oid in faulty && mishaps == old(mishaps) + {oid}
    {
      if oid == OID_ACCESS_CONTROL {
        needsValidation := false;
      }
      var answer: int := *;
      if answer == OK || oid !in faulty {
        objs := objs[oid := saved[oid]];
      } else {
        mishaps := mishaps + {oid};
        Scramble(oid);
      }
    }

    /**
     As above; a successful outermost transaction is validated first. What comes out nonzero has
     been rolled back or committed, either of them but for mishaps.
     */
    method Finish(result: int) returns (r: int)
      requires Valid() && depth > 0
      modifies this
      ensures Valid() && depth == old(depth) - 1 && base == old(base)
      ensures depth > 0 ==> r == result && Unfinished(old(objs), old(saved), old(mishaps), old(needsValidation))
      ensures depth > 0 ==> vetted == old(vetted)
      ensures depth == 0 ==> mishaps <= faulty * old(saved).Keys
      ensures result != OK ==> r == result
      ensures r == OK ==> objs == old(objs)
      ensures depth == 0 && r == OK ==> mishaps == {}
      ensures depth == 0 && r == OK && old(needsValidation) ==> AcValid(objs, serverSsid)
      ensures depth == 0 && r != OK ==>
        AgreeOutside(objs, base, mishaps) || (result == OK && mishaps != {} && AgreeOutside(objs, old(objs), mishaps))
      ensures depth == 0 && r != OK && mishaps == {} ==> objs == base
      ensures depth == 0 && result != OK ==> AgreeOutside(objs, base, mishaps)
      ensures depth == 0 && result == OK && old(saved).Keys !! shaky && old(saved).Keys !! faulty ==>
        (r == OK <==> (old(needsValidation) ==> AcValid(old(objs), serverSsid)))
    {
      r := result;
      if r == OK && depth == 1 {
        r := Validate();
      }
      r := FinishWithoutValidation(r);
      if depth == 0 && r != OK && mishaps == {} {
        AgreeEverywhere(objs, base);
      }
    }

    /**
     Gives up the transaction. At the outermost level everything is as it was at the beginning, the
     Access Control object in any case.
     */
    method Rollback() returns (r: int)
      requires Valid() && depth > 0
      modifies this
      ensures Valid() && depth == old(depth) - 1 && base == old(base) && r == OK
      ensures depth > 0 ==> Unfinished(old(objs), old(saved), old(mishaps), old(needsValidation))
      ensures depth == 0 ==> AgreeOutside(objs, base, faulty * old(saved).Keys)
      ensures depth == 0 && faulty == {} ==> objs == base
      ensures depth == 0 && OID_ACCESS_CONTROL in objs ==> AcOf(objs) == AcOf(base)
    {
      r := Finish(INT_MIN);
      if r == INT_MIN {
        r := OK;
      }
    }
  }
}

/**
 The data that the data model holds: Objects with ascending lists of Instances, and what the
 handlers of the Access Control object make of one of its instances.
 */
module Instances {
  import opened Ids

  /** An access mask of an ACL entry. */
  type Mask = bv16

  datatype AclEntry = AclEntry(ssid: Id, mask: Mask)

  /** An Instance; of the other Objects, everything but the Instance ID is opaque contents. */
  datatype Inst =
    | Security(iid: Id, bootstrap: bool, ssid: Option<int>)
    | AccessControl(iid: Id, oid: Id, oiid: int, owner: Id, hasAcl: bool, acl: seq<AclEntry>)
    | Plain(iid: Id, contents: int)

  /** A target Instance ID that is not set yet. */
  const UNSET: int := -1

  type Objects = map<Id, seq<Inst>>

  predicate TargetOidValid(oid: int) {
    1 <= oid < 0xFFFF && oid != OID_ACCESS_CONTROL
  }

  predicate AscendingIids(s: seq<Inst>) {
    forall i, j :: 0 <= i < j < |s| ==> s[i].iid < s[j].iid
  }

  predicate AscendingSsids(acl: seq<AclEntry>) {
    forall i, j :: 0 <= i < j < |acl| ==> acl[i].ssid < acl[j].ssid
  }

  /** The entries are Resource Instances, whose IDs are never the invalid one. */
  predicate RiidsValid(acl: seq<AclEntry>) {
    forall i :: 0 <= i < |acl| ==> acl[i].ssid != ID_INVALID
  }

  /** What the write handlers of the Access Control object let through. */
  predicate AcceptableAc(x: Inst) {
    && x.AccessControl? && UNSET <= x.oiid <= 0xFFFF
    && (x.oid == 0 || TargetOidValid(x.oid))
    && AscendingSsids(x.acl) && RiidsValid(x.acl) && (!x.hasAcl ==> x.acl == [])
  }

  predicate RightKind(oid: Id, x: Inst) {
    && x.iid != ID_INVALID
    && (if oid == OID_SECURITY then x.Security?
        else if oid == OID_ACCESS_CONTROL then AcceptableAc(x)
        else x.Plain?)
  }

  /** A list of Instances in strictly ascending order, each fit for the Object. */
  predicate ListOk(oid: Id, s: seq<Inst>) {
    s == [] || (ListOk(oid, s[1..]) && RightKind(oid, s[0]) && (|s| > 1 ==> s[0].iid < s[1].iid))
  }

  predicate EachRight(oid: Id, s: seq<Inst>) {
    forall i :: 0 <= i < |s| ==> RightKind(oid, s[i])
  }

  lemma {:induction false} ListOkMeans(oid: Id, s: seq<Inst>)
    ensures ListOk(oid, s) <==> AscendingIids(s) && EachRight(oid, s)
  {
    if s == [] {
    } else {
      ListOkMeans(oid, s[1..]);
      assert s == [s[0]] + s[1..];
      if AscendingIids(s[1..]) && (|s| > 1 ==> s[0].iid < s[1].iid) {
        forall j | 0 < j < |s|
          ensures s[0].iid < s[j].iid
        {
          assert s[j] == s[1..][j - 1];
        }
      }
      if EachRight(oid, s) {
        forall i | 0 <= i < |s| - 1
          ensures RightKind(oid, s[1..][i])
        {
          assert RightKind(oid, s[i + 1]);
        }
      }
    }
  }

  ghost predicate WellFormed(objs: Objects) {
    forall oid :: oid in objs ==> ListOk(oid, objs[oid])
  }

  ghost predicate Has(s: seq<Inst>, iid: int) {
    exists i :: 0 <= i < |s| && s[i].iid == iid
  }

  lemma HasMeans(s: seq<Inst>, iid: int)
    ensures Has(s, iid) <==> exists x :: x in s && x.iid == iid
  {
    if Has(s, iid) {
      var i :| 0 <= i < |s| && s[i].iid == iid;
      assert s[i] in s;
    }
  }

  ghost predicate PartOf(a: seq<Inst>, b: seq<Inst>) {
    forall x :: x in a ==> x in b
  }

  /** There is such an Instance in the data model. */
  ghost predicate Exists(objs: Objects, oid: Id, iid: int) {
    oid in objs && Has(objs[oid], iid)
  }

  function Without(s: seq<Inst>, iid: Id): (r: seq<Inst>)
    ensures forall x :: x in r <==> x in s && x.iid != iid
    ensures |r| <= |s|
  {
    if s == [] then []
    else if s[0].iid == iid then Without(s[1..], iid)
    else [s[0]] + Without(s[1..], iid)
  }

  lemma {:induction false} WithoutAbsent(s: seq<Inst>, iid: Id)
    requires forall i :: 0 <= i < |s| ==> s[i].iid != iid
    ensures Without(s, iid) == s
  {
    if s == [] {
    } else {
      WithoutAbsent(s[1..], iid);
    }
  }

  lemma {:induction false} WithoutAt(s: seq<Inst>, k: nat)
    requires k < |s| && forall i :: 0 <= i < |s| && i != k ==> s[i].iid != s[k].iid
    ensures Without(s, s[k].iid) == s[..k] + s[k + 1..]
  {
    if k == 0 {
      WithoutAbsent(s[1..], s[0].iid);
    } else {
      assert s[1..][k - 1] == s[k];
      WithoutAt(s[1..], k - 1);
      assert s[..k] == [s[0]] + s[1..][..k - 1] && s[1..][k..] == s[k + 1..];
      assert Without(s, s[k].iid) == [s[0]] + Without(s[1..], s[k].iid);
    }
  }

  lemma {:induction false} WithoutListOk(oid: Id, s: seq<Inst>, iid: Id)
    requires ListOk(oid, s)
    ensures ListOk(oid, Without(s, iid))
  {
    if s == [] {
    } else {
      WithoutListOk(oid, s[1..], iid);
      ListOkMeans(oid, s);
      if s[0].iid != iid && Without(s[1..], iid) != [] {
        var x := Without(s[1..], iid)[0];
        assert x in s[1..];
      }
    }
  }

  /** The first position from which on the Instance IDs are not smaller. */
  function Position(s: seq<Inst>, iid: int): (k: nat)
    ensures k <= |s|
    ensures forall i :: 0 <= i < k ==> s[i].iid < iid
    ensures k < |s| ==> s[k].iid >= iid
  {
    if s == [] || s[0].iid >= iid then 0 else 1 + Position(s[1..], iid)
  }

  /** In an ascending list the search may stop there. */
  lemma PositionIsExact(oid: Id, s: seq<Inst>, iid: int)
    requires ListOk(oid, s)
    ensures var k := Position(s, iid); Has(s, iid) <==> k < |s| && s[k].iid == iid
  {
    ListOkMeans(oid, s);
    var k := Position(s, iid);
    if i: nat :| i < |s| && s[i].iid == iid {
      assert k <= i;
    }
  }

  function Inserted(s: seq<Inst>, x: Inst): seq<Inst> {
    var k := Position(s, x.iid);
    s[..k] + [x] + s[k..]
  }

  lemma {:induction false} InsertedStep(s: seq<Inst>, x: Inst)
    requires s != [] && s[0].iid < x.iid
    ensures Inserted(s, x) == [s[0]] + Inserted(s[1..], x)
  {
    var k := Position(s[1..], x.iid);
    assert s[..k + 1] == [s[0]] + s[1..][..k];
  }

  lemma {:induction false} InsertedListOk(oid: Id, s: seq<Inst>, x: Inst)
    requires ListOk(oid, s) && RightKind(oid, x) && !Has(s, x.iid)
    ensures ListOk(oid, Inserted(s, x))
  {
    if s == [] || s[0].iid >= x.iid {
      assert s != [] ==> s[0].iid != x.iid;
      assert Inserted(s, x) == [x] + s;
    } else {
      assert forall i :: 0 <= i < |s[1..]| ==> s[1..][i] == s[i + 1];
      InsertedListOk(oid, s[1..], x);
      InsertedStep(s, x);
      assert Inserted(s, x)[1..] == Inserted(s[1..], x);
    }
  }

  lemma InsertedMeans(s: seq<Inst>, x: Inst)
    ensures forall y :: y in Inserted(s, x) <==> y in s || y == x
  {
    var k := Position(s, x.iid);
    assert s == s[..k] + s[k..];
  }

  /** A write to a Resource of an Access Control instance. */
  datatype AcWrite =
    | TargetOid(value: Id)
    | TargetOiid(value: Id)
    | Owner(value: Id)
    | Acl(ssid: Id, mask: Mask)
    | ResetAcl

  predicate ValidWrite(w: AcWrite) {
    w.Acl? ==> w.ssid != ID_INVALID
  }

  function AclPosition(acl: seq<AclEntry>, ssid: Id): (k: nat)
    ensures k <= |acl|
    ensures forall i :: 0 <= i < k ==> acl[i].ssid < ssid
    ensures k < |acl| ==> acl[k].ssid >= ssid
  {
    if acl == [] || acl[0].ssid >= ssid then 0 else 1 + AclPosition(acl[1..], ssid)
  }

  /** Overwrites the entry of the SSID or inserts one in its place. */
  function AclSet(acl: seq<AclEntry>, ssid: Id, mask: Mask): seq<AclEntry> {
    var k := AclPosition(acl, ssid);
    if k < |acl| && acl[k].ssid == ssid then acl[k := AclEntry(ssid, mask)]
    else acl[..k] + [AclEntry(ssid, mask)] + acl[k..]
  }

  lemma SplicedAscending(a: seq<AclEntry>, e: AclEntry, b: seq<AclEntry>)
    requires AscendingSsids(a) && AscendingSsids(b) && RiidsValid(a) && RiidsValid(b) && e.ssid != ID_INVALID
    requires forall i :: 0 <= i < |a| ==> a[i].ssid < e.ssid
    requires forall i :: 0 <= i < |b| ==> e.ssid < b[i].ssid
    ensures AscendingSsids(a + [e] + b) && RiidsValid(a + [e] + b)
  {
    var all, k := a + [e] + b, |a|;
    forall i, j | 0 <= i < j < |all|
      ensures all[i].ssid < all[j].ssid
    {
      var x, y := all[i], all[j];
      assert x == (if i < k then a[i] else if i == k then e else b[i - k - 1]);
      assert y == (if j < k then a[j] else if j == k then e else b[j - k - 1]);
    }
  }

  lemma AbsentFrom(acl: seq<AclEntry>, ssid: Id, k: nat)
    requires AscendingSsids(acl) && k <= |acl|
    requires forall i :: 0 <= i < k ==> acl[i].ssid < ssid
    requires k < |acl| ==> acl[k].ssid > ssid
    ensures forall x :: x in acl ==> x.ssid != ssid
  {
    forall i | 0 <= i < |acl|
      ensures acl[i].ssid != ssid
    {
      if i > k {
        assert acl[k].ssid < acl[i].ssid;
      }
    }
  }

  lemma AclSetAscending(acl: seq<AclEntry>, ssid: Id, mask: Mask)
    requires AscendingSsids(acl) && RiidsValid(acl) && ssid != ID_INVALID
    ensures AscendingSsids(AclSet(acl, ssid, mask)) && RiidsValid(AclSet(acl, ssid, mask))
  {
    var k, e := AclPosition(acl, ssid), AclEntry(ssid, mask);
    if k < |acl| && acl[k].ssid == ssid {
      assert acl[k := e] == acl[..k] + [e] + acl[k + 1..];
      SplicedAscending(acl[..k], e, acl[k + 1..]);
    } else {
      SplicedAscending(acl[..k], e, acl[k..]);
    }
  }

  lemma ReplacedEntries(acl: seq<AclEntry>, k: nat, e: AclEntry)
    requires k < |acl| && acl[k].ssid == e.ssid
    requires forall i :: 0 <= i < |acl| && i != k ==> acl[i].ssid != e.ssid
    ensures forall x :: x in acl[k := e] <==> x == e || (x in acl && x.ssid != e.ssid)
  {
    var r := acl[k := e];
    forall x
      ensures x in r <==> x == e || (x in acl && x.ssid != e.ssid)
    {
      if x in acl && x.ssid != e.ssid {
        var i :| 0 <= i < |acl| && acl[i] == x;
        assert r[i] == x;
      }
      assert r[k] == e;
    }
  }

  lemma InsertedEntries(acl: seq<AclEntry>, k: nat, e: AclEntry)
    requires k <= |acl| && forall x :: x in acl ==> x.ssid != e.ssid
    ensures forall x :: x in acl[..k] + [e] + acl[k..] <==> x == e || (x in acl && x.ssid != e.ssid)
  {
    assert acl == acl[..k] + acl[k..];
  }

  /** Order is kept; the entry of the SSID holds the mask, and the others are as they were. */
  lemma AclSetMeans(acl: seq<AclEntry>, ssid: Id, mask: Mask)
    requires AscendingSsids(acl) && RiidsValid(acl) && ssid != ID_INVALID
    ensures AscendingSsids(AclSet(acl, ssid, mask)) && RiidsValid(AclSet(acl, ssid, mask))
    ensures forall e :: e in AclSet(acl, ssid, mask) <==> e == AclEntry(ssid, mask) || (e in acl && e.ssid != ssid)
  {
    AclSetAscending(acl, ssid, mask);
    var k := AclPosition(acl, ssid);
    if k < |acl| && acl[k].ssid == ssid {
      ReplacedEntries(acl, k, AclEntry(ssid, mask));
    } else {
      AbsentFrom(acl, ssid, k);
      InsertedEntries(acl, k, AclEntry(ssid, mask));
    }
  }

  /** The Access Control object's write and reset handlers: what they store or that they refuse. */
  function Written(x: Inst, w: AcWrite): (r: Option<Inst>)
    requires AcceptableAc(x)
    ensures r.Some? ==> r.value.AccessControl? && r.value.iid == x.iid
  {
    match w
    case TargetOid(v) => if TargetOidValid(v) then Some(x.(oid := v)) else None
    case TargetOiid(v) => Some(x.(oiid := v))
    case Owner(v) => if v == 0 then None else Some(x.(owner := v))
    case Acl(s, m) => Some(x.(hasAcl := true, acl := AclSet(x.acl, s, m)))
    case ResetAcl => Some(x.(hasAcl := true, acl := []))
  }

  lemma WrittenAcceptable(x: Inst, w: AcWrite)
    requires AcceptableAc(x) && ValidWrite(w)
    ensures Written(x, w).Some? ==> AcceptableAc(Written(x, w).value)
  {
    if w.Acl? {
      AclSetAscending(x.acl, w.ssid, w.mask);
    }
  }

  /** Nothing but one Object differs. */
  ghost predicate OnlyObject(before: Objects, after: Objects, oid: Id) {
    before.Keys == after.Keys && forall o :: o in before && o != oid ==> after[o] == before[o]
  }

  lemma UniqueIid(oid: Id, s: seq<Inst>, k: nat)
    requires ListOk(oid, s) && k < |s|
    ensures forall i :: 0 <= i < |s| && i != k ==> s[i].iid != s[k].iid
  {
    ListOkMeans(oid, s);
  }

  lemma RemovedAt(oid: Id, s: seq<Inst>, k: nat)
    requires ListOk(oid, s) && k < |s|
    ensures s[..k] + s[k + 1..] == Without(s, s[k].iid) && ListOk(oid, Without(s, s[k].iid))
  {
    WithoutListOk(oid, s, s[k].iid);
    UniqueIid(oid, s, k);
    WithoutAt(s, k);
  }

  /** Only the Instance at the position where it belongs can have the ID. */
  lemma OnlyOneWith(oid: Id, s: seq<Inst>, iid: int, k: nat)
    requires ListOk(oid, s) && k == Position(s, iid)
    ensures forall x :: x in s && x.iid == iid ==> k < |s| && x == s[k]
  {
    PositionIsExact(oid, s, iid);
    if k < |s| && s[k].iid == iid {
      UniqueIid(oid, s, k);
    }
    forall x | x in s && x.iid == iid
      ensures k < |s| && x == s[k]
    {
      HasMeans(s, iid);
    }
  }

  lemma ElementRight(oid: Id, s: seq<Inst>, k: nat)
    requires ListOk(oid, s) && k < |s|
    ensures RightKind(oid, s[k])
  {
    ListOkMeans(oid, s);
  }

  lemma {:induction false} ReplacedListOk(oid: Id, s: seq<Inst>, k: nat, x: Inst)
    requires ListOk(oid, s) && k < |s| && s[k].iid == x.iid && RightKind(oid, x)
    ensures ListOk(oid, s[k := x])
  {
    if k > 0 {
      ReplacedListOk(oid, s[1..], k - 1, x);
      assert s[k := x][1..] == s[1..][k - 1 := x];
    } else {
      assert s[k := x][1..] == s[1..];
    }
  }

  lemma ReplacedKeepsIds(s: seq<Inst>, k: nat, x: Inst)
    requires k < |s| && s[k].iid == x.iid
    ensures forall i :: Has(s[k := x], i) <==> Has(s, i)
  {
    forall i
      ensures Has(s[k := x], i) <==> Has(s, i)
    {
      assert forall j :: 0 <= j < |s| ==> s[k := x][j].iid == s[j].iid;
    }
  }

  lemma NoneBetween(s: seq<Inst>, iid: Id)
    requires AscendingIids(s) && iid <= |s| && (iid < |s| ==> s[iid].iid != iid)
    requires forall i :: 0 <= i < iid ==> s[i].iid == i
    ensures !Has(s, iid)
  {
    if iid < |s| {
      assert s[iid].iid > iid by {
        if iid > 0 {
          assert s[iid - 1].iid == iid - 1 && s[iid - 1].iid < s[iid].iid;
        }
      }
    }
  }
}

/**
 What a server may do with an Instance according to its Access Control instance, and which server
 becomes the owner when the old one is gone.
 */
module AccessMask {
  import opened Ids
  import opened Instances

  const MASK_NONE: Mask := 0
  const MASK_READ: Mask := 1
  const MASK_WRITE: Mask := 2
  const MASK_EXECUTE: Mask := 4
  const MASK_DELETE: Mask := 8
  const MASK_CREATE: Mask := 16
  const MASK_FULL_BUT_CREATE: Mask := 15

  ghost predicate DistinctSsids(acl: seq<AclEntry>) {
    forall i, j :: 0 <= i < |acl| && 0 <= j < |acl| && acl[i].ssid == acl[j].ssid ==> i == j
  }

  lemma AscendingIsDistinct(acl: seq<AclEntry>)
    requires AscendingSsids(acl)
    ensures DistinctSsids(acl)
  {
    forall i, j | 0 <= i < |acl| && 0 <= j < |acl| && i != j
      ensures acl[i].ssid != acl[j].ssid
    {
      var a, b := if i < j then i else j, if i < j then j else i;
      assert acl[a].ssid < acl[b].ssid;
    }
  }

  /** Read, Write, Execute and Delete, and neither Create nor anything else. */
  lemma FullButCreateMeans()
    ensures MASK_FULL_BUT_CREATE & 0x1 == 1 && MASK_FULL_BUT_CREATE & 0x2 == 2
    ensures MASK_FULL_BUT_CREATE & 0x4 == 4 && MASK_FULL_BUT_CREATE & 0x8 == 8
    ensures MASK_FULL_BUT_CREATE & 0xFFF0 == 0
  {
  }

  // ----- Looking up a mask -----

  ghost predicate Grants(acl: seq<AclEntry>, ssid: Id, mask: Mask) {
    AclEntry(ssid, mask) in acl
  }

  ghost predicate Mentions(acl: seq<AclEntry>, ssid: Id) {
    exists m: Mask :: Grants(acl, ssid, m)
  }

  /**
   The rights of a server: its own entry, else the default entry, else everything but Create if the
   ACL is empty and the server owns the Instance, else nothing. No order of entries is involved.
   */
  ghost predicate MayDo(acl: seq<AclEntry>, owner: Id, ssid: Id, mask: Mask) {
    if Mentions(acl, ssid) then Grants(acl, ssid, mask)
    else if Mentions(acl, SSID_ANY) then Grants(acl, SSID_ANY, mask)
    else if acl == [] && owner == ssid && ssid != SSID_BOOTSTRAP then mask == MASK_FULL_BUT_CREATE
    else mask == MASK_NONE
  }

  lemma OneMask(acl: seq<AclEntry>, owner: Id, ssid: Id, a: Mask, b: Mask)
    requires DistinctSsids(acl) && MayDo(acl, owner, ssid, a) && MayDo(acl, owner, ssid, b)
    ensures a == b
  {
    forall s: Id | Grants(acl, s, a) && Grants(acl, s, b)
      ensures a == b
    {
      var i: nat :| i < |acl| && acl[i] == AclEntry(s, a);
      var j: nat :| j < |acl| && acl[j] == AclEntry(s, b);
      assert acl[i].ssid == acl[j].ssid;
    }
  }

  /** One pass over the entries, in whatever order they come; the server's own entry ends it. */
  method GetMask(acl: seq<AclEntry>, ssid: Id) returns (found: Id, mask: Mask)
    requires DistinctSsids(acl) && RiidsValid(acl)
    ensures acl == [] ==> found == SSID_BOOTSTRAP && mask == MASK_NONE
    ensures acl != [] && Mentions(acl, ssid) ==> found == ssid && Grants(acl, ssid, mask)
    ensures acl != [] && !Mentions(acl, ssid) ==> found == SSID_ANY
    ensures acl != [] && !Mentions(acl, ssid) && Mentions(acl, SSID_ANY) ==> Grants(acl, SSID_ANY, mask)
    ensures acl != [] && !Mentions(acl, ssid) && !Mentions(acl, SSID_ANY) ==> mask == MASK_NONE
  {
    found, mask := SSID_ANY, MASK_NONE;
    var empty := true;
    var i: nat := 0;
    while i < |acl|
      invariant i <= |acl| && (empty <==> i == 0) && found == SSID_ANY
      invariant forall j :: 0 <= j < i ==> acl[j].ssid != ssid || ssid == SSID_ANY
      invariant (exists j :: 0 <= j < i && acl[j] == AclEntry(SSID_ANY, mask))
        || (mask == MASK_NONE && forall j :: 0 <= j < i ==> acl[j].ssid != SSID_ANY)
    {
      empty := false;
      if acl[i].ssid == ssid || acl[i].ssid == SSID_ANY {
        found, mask := acl[i].ssid, acl[i].mask;
        assert Grants(acl, acl[i].ssid, acl[i].mask);
        if acl[i].ssid != SSID_ANY {
          return;
        }
      }
      i := i + 1;
    }
    NotMentioned(acl, ssid);
    NotMentioned(acl, SSID_ANY);
    if empty {
      found := SSID_BOOTSTRAP;
    }
  }

  lemma NotMentioned(acl: seq<AclEntry>, ssid: Id)
    ensures Mentions(acl, ssid) <==> exists j :: 0 <= j < |acl| && acl[j].ssid == ssid
  {
    forall j | 0 <= j < |acl| && acl[j].ssid == ssid
      ensures Mentions(acl, ssid)
    {
      assert Grants(acl, ssid, acl[j].mask);
    }
  }

  ghost predicate Targets(x: Inst, oid: Id, iid: int) {
    x.AccessControl? && x.oid == oid && x.oiid == iid
  }

  /**
   The first Access Control instance with the given target. An instance whose target is not set
   cannot be read and ends the search with an error.
   */
  method FindByTarget(ac: seq<Inst>, oid: Id, iid: Id) returns (r: int, k: nat)
    requires ListOk(OID_ACCESS_CONTROL, ac)
    ensures r == OK ==> k < |ac| && Targets(ac[k], oid, iid)
    ensures r == ERR_NOT_FOUND ==> k == |ac|
    ensures r == OK || r == ERR_NOT_FOUND || (r == ERR && k < |ac| && ac[k].AccessControl? && ac[k].oiid == UNSET)
    ensures forall i :: 0 <= i < k <= |ac| ==> !Targets(ac[i], oid, iid)
    ensures forall i :: 0 <= i < k <= |ac| ==> ac[i].AccessControl? && ac[i].oiid != UNSET
  {
    ListOkMeans(OID_ACCESS_CONTROL, ac);
    k := 0;
    while k < |ac|
      invariant k <= |ac|
      invariant forall i :: 0 <= i < k ==> !Targets(ac[i], oid, iid)
      invariant forall i :: 0 <= i < k ==> ac[i].AccessControl? && ac[i].oiid != UNSET
    {
      assert RightKind(OID_ACCESS_CONTROL, ac[k]);
      if ac[k].oiid == UNSET {
        return ERR, k;
      }
      if ac[k].oid == oid && ac[k].oiid == iid {
        return OK, k;
      }
      k := k + 1;
    }
    r := ERR_NOT_FOUND;
  }

  /** The Access Control instance that a lookup finds for a target. */
  ghost predicate Governs(ac: seq<Inst>, x: Inst, oid: Id, iid: Id) {
    exists k: nat :: k < |ac| && ac[k] == x && FirstAt(ac, k, oid, iid)
  }

  ghost predicate FirstAt(ac: seq<Inst>, k: nat, oid: Id, iid: Id)
    requires k < |ac|
  {
    && Targets(ac[k], oid, iid)
    && forall i :: 0 <= i < k ==> ac[i].AccessControl? && ac[i].oiid != UNSET && !Targets(ac[i], oid, iid)
  }

  /** The instance at `k` is the first one for the target, and every one before it can be read. */
  ghost predicate FirstFor(ac: seq<Inst>, k: nat, oid: Id, iid: Id) {
    && k < |ac| && ac[k].AccessControl? && ac[k].oid == oid && ac[k].oiid == iid
    && forall i :: 0 <= i < k ==> ac[i].AccessControl? && ac[i].oiid != -1 && !(ac[i].oid == oid && ac[i].oiid == iid)
  }

  /**
   The rule entry by entry: the server's own entry counts, without one the entry for SSID 0, and
   without that an empty ACL gives the owner, other than the Bootstrap Server, everything but Create.
   */
  ghost predicate EntriesAllow(acl: seq<AclEntry>, owner: Id, ssid: Id, mask: Mask) {
    && (forall e :: e in acl && e.ssid == ssid ==> mask == e.mask)
    && ((forall e :: e in acl ==> e.ssid != ssid) ==> forall e :: e in acl && e.ssid == 0 ==> mask == e.mask)
    && (acl == [] ==> mask == if owner == ssid && ssid != 0xFFFF then 15 else 0)
    && (acl != [] && (forall e :: e in acl ==> e.ssid != ssid && e.ssid != 0) ==> mask == 0)
  }

  lemma MayDoMeans(acl: seq<AclEntry>, owner: Id, ssid: Id, mask: Mask)
    requires DistinctSsids(acl)
    ensures MayDo(acl, owner, ssid, mask) <==> EntriesAllow(acl, owner, ssid, mask)
  {
    forall e | e in acl
      ensures Grants(acl, e.ssid, e.mask) && Mentions(acl, e.ssid)
      ensures Grants(acl, e.ssid, mask) ==> mask == e.mask
    {
      assert Grants(acl, e.ssid, e.mask);
      if Grants(acl, e.ssid, mask) {
        OneMask(acl, e.ssid, e.ssid, mask, e.mask);
      }
    }
    NotMentioned(acl, ssid);
    NotMentioned(acl, SSID_ANY);
  }

  lemma FirstForGoverns(ac: seq<Inst>, oid: Id, iid: Id)
    ensures forall k: nat :: FirstFor(ac, k, oid, iid) ==> Governs(ac, ac[k], oid, iid)
    ensures forall x :: Governs(ac, x, oid, iid) ==> exists k: nat :: FirstFor(ac, k, oid, iid) && ac[k] == x
  {
    forall k: nat | FirstFor(ac, k, oid, iid)
      ensures Governs(ac, ac[k], oid, iid)
    {
      assert FirstAt(ac, k, oid, iid);
    }
    forall x | Governs(ac, x, oid, iid)
      ensures exists k: nat :: FirstFor(ac, k, oid, iid) && ac[k] == x
    {
      var k: nat :| k < |ac| && ac[k] == x && FirstAt(ac, k, oid, iid);
      assert FirstFor(ac, k, oid, iid);
    }
  }

  /** The mask of a server for a target: as the governing instance says, or nothing. */
  method AccessControlMask(objs: Objects, oid: Id, iid: Id, ssid: Id) returns (mask: Mask)
    requires WellFormed(objs)
    ensures OID_ACCESS_CONTROL !in objs ==> mask == MASK_NONE
    ensures OID_ACCESS_CONTROL in objs ==>
      forall x :: Governs(objs[OID_ACCESS_CONTROL], x, oid, iid) ==> MayDo(x.acl, x.owner, ssid, mask)
    ensures OID_ACCESS_CONTROL in objs && (forall x :: !Governs(objs[OID_ACCESS_CONTROL], x, oid, iid)) ==> mask == MASK_NONE
    ensures 2 in objs ==> forall k: nat :: FirstFor(objs[2], k, oid, iid) ==>
      EntriesAllow(objs[2][k].acl, objs[2][k].owner, ssid, mask)
    ensures (2 in objs ==> forall k: nat :: !FirstFor(objs[2], k, oid, iid)) ==> mask == 0
  {
    if OID_ACCESS_CONTROL !in objs {
      return MASK_NONE;
    }
    var ac := objs[OID_ACCESS_CONTROL];
    var r, k := FindByTarget(ac, oid, iid);
    FirstForGoverns(ac, oid, iid);
    if r != OK {
      return MASK_NONE;
    }
    assert FirstAt(ac, k, oid, iid) && Governs(ac, ac[k], oid, iid);
    ElementRight(OID_ACCESS_CONTROL, ac, k);
    AscendingIsDistinct(ac[k].acl);
    mask := MaskOf(ac[k].acl, ac[k].owner, ssid);
    MayDoMeans(ac[k].acl, ac[k].owner, ssid, mask);
  }

  method MaskOf(acl: seq<AclEntry>, owner: Id, ssid: Id) returns (mask: Mask)
    requires DistinctSsids(acl) && RiidsValid(acl)
    ensures MayDo(acl, owner, ssid, mask)
  {
    var found;
    found, mask := GetMask(acl, ssid);
    if found == ssid {
      return;
    } else if found == SSID_BOOTSTRAP {
      if owner == ssid {
        return MASK_FULL_BUT_CREATE;
      }
    } else if found == SSID_ANY {
      return;
    }
    mask := MASK_NONE;
  }

  // ----- Electing an owner -----

  /** How the code weighs an entry: the bits of Write and Delete themselves. */
  function Rank(e: AclEntry): nat {
    (e.mask & MASK_WRITE) as nat + (e.mask & MASK_DELETE) as nat
  }

  predicate CanWrite(e: AclEntry) { e.mask & MASK_WRITE != 0 }

  predicate CanDelete(e: AclEntry) { e.mask & MASK_DELETE != 0 }

  lemma BitValues(m: Mask)
    ensures m & MASK_WRITE == 0 || m & MASK_WRITE == 2
    ensures m & MASK_DELETE == 0 || m & MASK_DELETE == 8
  {}

  lemma RankValues(e: AclEntry)
    ensures Rank(e) == (if CanWrite(e) then 2 else 0) + (if CanDelete(e) then 8 else 0)
    ensures CanWrite(e) <==> e.mask & 0x2 != 0
    ensures CanDelete(e) <==> e.mask & 0x8 != 0
  {
    BitValues(e.mask);
    assert (0 as bv16) as nat == 0 && (2 as bv16) as nat == 2 && (8 as bv16) as nat == 8;
  }

  /** The last entry of the highest rank. */
  ghost function Best(acl: seq<AclEntry>): (k: nat)
    requires acl != []
    ensures k < |acl|
    ensures forall j :: 0 <= j < k ==> Rank(acl[j]) <= Rank(acl[k])
    ensures forall j :: k < j < |acl| ==> Rank(acl[j]) < Rank(acl[k])
  {
    var last := |acl| - 1;
    if last == 0 then 0
    else
      var k := Best(acl[..last]);
      if Rank(acl[last]) >= Rank(acl[k]) then last else k
  }

  ghost function Elected(acl: seq<AclEntry>): Id
    requires acl != []
  {
    acl[Best(acl)].ssid
  }

  method ElectInstanceOwner(acl: seq<AclEntry>) returns (owner: Id)
    requires acl != []
    ensures owner == Elected(acl)
  {
    owner := SSID_BOOTSTRAP;
    var highest: nat := 0;
    for i := 0 to |acl|
      invariant i > 0 ==> owner == Elected(acl[..i]) && highest == Rank(acl[Best(acl[..i])])
      invariant i == 0 ==> highest == 0
    {
      assert acl[..i + 1][..i] == acl[..i];
      if Rank(acl[i]) >= highest {
        owner, highest := acl[i].ssid, Rank(acl[i]);
      }
    }
    assert acl[..|acl|] == acl;
  }

  /** Whoever holds both rights beats all who do not. */
  lemma BothRightsWin(acl: seq<AclEntry>, i: nat)
    requires i < |acl| && CanWrite(acl[i]) && CanDelete(acl[i])
    ensures CanWrite(acl[Best(acl)]) && CanDelete(acl[Best(acl)])
  {
    var k := Best(acl);
    RankValues(acl[i]);
    RankValues(acl[k]);
  }

  /** The default entry can win, and then nobody is elected: exactly when it outranks all others. */
  lemma NobodyElected(acl: seq<AclEntry>)
    requires acl != [] && AscendingSsids(acl)
    ensures Elected(acl) == SSID_ANY <==>
      acl[0].ssid == SSID_ANY && forall j :: 0 < j < |acl| ==> Rank(acl[j]) < Rank(acl[0])
  {
    var k := Best(acl);
    if k > 0 {
      assert acl[0].ssid < acl[k].ssid;
      assert Rank(acl[0]) <= Rank(acl[k]);
    }
  }

  // ----- The documented election -----

  /** The documented weight: 2 for both rights, 1 for one of them. */
  ghost function Weight(e: AclEntry): nat {
    (if CanWrite(e) then 1 else 0) + (if CanDelete(e) then 1 else 0)
  }

  /** The documented winner: the first entry of the highest weight. */
  ghost function Documented(acl: seq<AclEntry>): (k: nat)
    requires acl != []
    ensures k < |acl|
    ensures forall j :: 0 <= j < k ==> Weight(acl[j]) < Weight(acl[k])
    ensures forall j :: k < j < |acl| ==> Weight(acl[j]) <= Weight(acl[k])
  {
    var last := |acl| - 1;
    if last == 0 then 0
    else
      var k := Documented(acl[..last]);
      if Weight(acl[last]) > Weight(acl[k]) then last else k
  }

  lemma DocumentedElectionDiffers()
    ensures var acl := [AclEntry(1, MASK_WRITE), AclEntry(2, MASK_WRITE)];
      Elected(acl) == 2 && acl[Documented(acl)].ssid == 1
    ensures var acl := [AclEntry(1, MASK_WRITE), AclEntry(2, MASK_DELETE)];
      Elected(acl) == 2 && acl[Documented(acl)].ssid == 1
  {
    var w, d := AclEntry(1, MASK_WRITE), AclEntry(2, MASK_DELETE);
    var w2 := AclEntry(2, MASK_WRITE);
    Weigh(w);
    Weigh(d);
    Weigh(w2);
    assert Rank([w, w2][0]) == Rank([w, w2][1]) && Weight([w, w2][0]) == Weight([w, w2][1]);
    assert Rank([w, d][0]) < Rank([w, d][1]) && Weight([w, d][0]) == Weight([w, d][1]);
  }

  lemma Weigh(e: AclEntry)
    requires e.mask == MASK_WRITE || e.mask == MASK_DELETE
    ensures Weight(e) == 1 && Rank(e) == if e.mask == MASK_WRITE then 2 else 8
  {
    RankValues(e);
  }

  /** Another entry that the code prefers to the documented winner although it is no better. */
  ghost predicate Rival(acl: seq<AclEntry>, j: nat, d: nat)
    requires j < |acl| && d < |acl|
  {
    && j > d && Weight(acl[j]) == Weight(acl[d])
    && (Weight(acl[d]) == 1 && CanDelete(acl[d]) ==> CanDelete(acl[j]))
  }

  /** The code follows its documentation exactly when no rival comes after the documented winner. */
  lemma ElectionAsDocumented(acl: seq<AclEntry>)
    requires acl != []
    ensures Best(acl) == Documented(acl) <==> forall j: nat :: j < |acl| ==> !Rival(acl, j, Documented(acl))
  {
    var d, k := Documented(acl), Best(acl);
    forall j: nat | j < |acl|
      ensures Rank(acl[j]) == (if CanWrite(acl[j]) then 2 else 0) + (if CanDelete(acl[j]) then 8 else 0)
    {
      RankValues(acl[j]);
    }
    if k != d {
      assert Rank(acl[d]) <= Rank(acl[k]);
      assert k > d && Rival(acl, k, d);
    } else {
      forall j: nat | j < |acl|
        ensures !Rival(acl, j, d)
      {
        assert j > d ==> Rank(acl[j]) < Rank(acl[d]);
      }
    }
  }
}

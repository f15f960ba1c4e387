/**
 Checking that Access Control instances refer to existing targets, each target at most once.

 The context keeps, per Object met so far, the list of Instance IDs that may still be referred to,
 and strikes one out each time it accepts it. Proved: for any sequence of calls over a fixed data
 model, a call succeeds exactly when its target is allowed and was not accepted before.
 */
module AclValidation {
  import opened Ids
  import opened Instances

  datatype ObjectInfo = ObjectInfo(oid: Id, allowed: seq<Id>)

  /** An existing Instance, or the "any new Instance" target of an existing Object. */
  ghost predicate Allowed(objs: Objects, oid: Id, iid: int) {
    oid in objs && (iid == ID_INVALID || Has(objs[oid], iid))
  }

  ghost predicate Known(infos: seq<ObjectInfo>, oid: Id) {
    exists i: nat :: i < |infos| && infos[i].oid == oid
  }

  /** What may still be referred to: everything allowed that has not been accepted. */
  ghost predicate InfoOk(info: ObjectInfo, objs: Objects, accepted: set<(Id, Id)>) {
    && Ascending(info.allowed)
    && forall i: Id :: i in info.allowed <==> Allowed(objs, info.oid, i) && (info.oid, i) !in accepted
  }

  lemma KnownInserted(infos: seq<ObjectInfo>, k: nat, info: ObjectInfo)
    requires k <= |infos|
    ensures forall o: Id :: Known(infos[..k] + [info] + infos[k..], o) <==> Known(infos, o) || o == info.oid
  {
    var all := infos[..k] + [info] + infos[k..];
    assert all[k] == info;
    forall o: Id
      ensures Known(all, o) <==> Known(infos, o) || o == info.oid
    {
      if i: nat :| i < |infos| && infos[i].oid == o {
        assert all[if i < k then i else i + 1].oid == o;
      }
      if i: nat :| i < |all| && all[i].oid == o && i != k {
        assert infos[if i < k then i else i - 1].oid == o;
      }
    }
  }

  lemma StruckOut(info: ObjectInfo, objs: Objects, accepted: set<(Id, Id)>, i: nat)
    requires InfoOk(info, objs, accepted) && i < |info.allowed|
    ensures InfoOk(ObjectInfo(info.oid, info.allowed[..i] + info.allowed[i + 1..]), objs,
                   accepted + {(info.oid, info.allowed[i])})
  {
    var s := info.allowed;
    var rest := s[..i] + s[i + 1..];
    assert s == s[..i] + [s[i]] + s[i + 1..];
    forall x: Id
      ensures x in rest <==> x in s && x != s[i]
    {
    }
  }

  method CreateAllowedIids(objs: Objects, oid: Id) returns (allowed: seq<Id>)
    requires WellFormed(objs) && oid in objs
    ensures Ascending(allowed) && forall i: Id :: i in allowed <==> Allowed(objs, oid, i)
  {
    var s := objs[oid];
    ListOkMeans(oid, s);
    allowed := [];
    for k := 0 to |s|
      invariant |allowed| == k && forall j :: 0 <= j < k ==> allowed[j] == s[j].iid
    {
      allowed := allowed + [s[k].iid];
    }
    forall k | 0 <= k < |s|
      ensures allowed[k] < ID_INVALID
    {
      assert RightKind(oid, s[k]);
    }
    forall i: Id | i != ID_INVALID
      ensures i in allowed <==> Has(s, i)
    {
      if k: nat :| k < |s| && s[k].iid == i {
        assert allowed[k] == i;
      }
    }
    allowed := allowed + [ID_INVALID];
  }

  class ValidationContext {
    var infos: seq<ObjectInfo>
    ghost var accepted: set<(Id, Id)>

    constructor (ghost objs: Objects)
      ensures Valid(objs) && accepted == {}
    {
      infos, accepted := [], {};
    }

    ghost predicate Valid(objs: Objects)
      reads this
    {
      && (forall i, j :: 0 <= i < j < |infos| ==> infos[i].oid < infos[j].oid)
      && (forall i :: 0 <= i < |infos| ==> InfoOk(infos[i], objs, accepted))
      && (forall oid: Id, iid: Id :: (oid, iid) in accepted ==> Known(infos, oid))
    }

    /** The Object's entry, made from its Instances when it is met first. */
    method GetOrCreate(objs: Objects, oid: Id) returns (k: nat)
      requires Valid(objs) && WellFormed(objs) && oid in objs
      modifies this`infos
      ensures Valid(objs) && k < |infos| && infos[k].oid == oid
    {
      k := 0;
      while k < |infos|
        invariant k <= |infos| && forall i :: 0 <= i < k ==> infos[i].oid < oid
      {
        if infos[k].oid == oid {
          return;
        } else if infos[k].oid > oid {
          break;
        }
        k := k + 1;
      }
      assert !Known(infos, oid);
      var allowed := CreateAllowedIids(objs, oid);
      var info := ObjectInfo(oid, allowed);
      KnownInserted(infos, k, info);
      infos := infos[..k] + [info] + infos[k..];
    }

    /** Accepts each allowed target once. */
    method ValidateInstRef(objs: Objects, oid: Id, iid: Id) returns (r: int)
      requires Valid(objs) && WellFormed(objs)
      modifies this
      ensures Valid(objs)
      ensures r == OK <==> Allowed(objs, oid, iid) && (oid, iid) !in old(accepted)
      ensures accepted == if r == OK then old(accepted) + {(oid, iid)} else old(accepted)
    {
      if oid !in objs {
        return ERR;
      }
      var k := GetOrCreate(objs, oid);
      var allowed := infos[k].allowed;
      assert InfoOk(infos[k], objs, accepted);
      var i: nat := 0;
      while i < |allowed| && allowed[i] < iid
        invariant i <= |allowed| && forall j :: 0 <= j < i ==> allowed[j] < iid
      {
        i := i + 1;
      }
      if i == |allowed| || allowed[i] != iid {
        return ERR;
      }
      StruckOut(infos[k], objs, accepted, i);
      ghost var was := infos;
      infos := infos[k := ObjectInfo(oid, allowed[..i] + allowed[i + 1..])];
      accepted := accepted + {(oid, iid)};
      forall o: Id | Known(was, o)
        ensures Known(infos, o)
      {
        var j: nat :| j < |was| && was[j].oid == o;
        assert infos[j].oid == o;
      }
      assert infos[k].oid == oid;
      r := OK;
    }
  }

  /** Any sequence of calls on one context. */
  method ValidateAll(objs: Objects, refs: seq<(Id, Id)>) returns (results: seq<int>)
    requires WellFormed(objs)
    ensures |results| == |refs|
    ensures forall k :: 0 <= k < |refs| ==>
      (results[k] == OK <==> Allowed(objs, refs[k].0, refs[k].1) && refs[k] !in refs[..k])
  {
    var ctx := new ValidationContext(objs);
    results := [];
    for k := 0 to |refs|
      invariant ctx.Valid(objs) && fresh(ctx) && |results| == k
      invariant forall oid: Id, iid: Id :: (oid, iid) in ctx.accepted <==> (oid, iid) in refs[..k] && Allowed(objs, oid, iid)
      invariant forall j :: 0 <= j < k ==>
        (results[j] == OK <==> Allowed(objs, refs[j].0, refs[j].1) && refs[j] !in refs[..j])
    {
      assert refs[..k + 1] == refs[..k] + [refs[k]];
      var r := ctx.ValidateInstRef(objs, refs[k].0, refs[k].1);
      results := results + [r];
    }
  }

  // ----- The Access Control object's validation handler -----

  /** How the Short Server ID is read from what a Server Instance holds. */
  type SsidReader = int -> Option<int>

  /** The search through the Server Instances comes to one with that SSID before one it cannot read. */
  ghost predicate FoundAt(servers: seq<Inst>, read: SsidReader, ssid: Id, k: nat) {
    && k < |servers| && (forall i :: 0 <= i <= k ==> servers[i].Plain?)
    && read(servers[k].contents) == Some(ssid)
    && forall i :: 0 <= i < k ==> read(servers[i].contents).Some?
  }

  ghost predicate ServerExists(objs: Objects, read: SsidReader, ssid: Id) {
    OID_SERVER in objs && exists k: nat :: FoundAt(objs[OID_SERVER], read, ssid, k)
  }

  /** The servers that the Server object knows. */
  ghost function Servers(objs: Objects, read: SsidReader): (r: set<Id>)
    ensures forall s: Id :: s in r <==> ServerExists(objs, read, s)
  {
    set s: Id | 0 <= s <= 0xFFFF && ServerExists(objs, read, s)
  }

  /** A server that exists, or the default entry. */
  ghost predicate SsidValid(ssid: Id, servers: set<Id>) {
    ssid != SSID_BOOTSTRAP && (ssid == SSID_ANY || ssid in servers)
  }

  /** Every SSID an instance uses is valid; the Bootstrap Server may own, but not be listed. */
  ghost predicate SsidsValid(x: Inst, servers: set<Id>)
    requires x.AccessControl?
  {
    && (x.owner == SSID_BOOTSTRAP || SsidValid(x.owner, servers))
    && forall i :: 0 <= i < |x.acl| ==> SsidValid(x.acl[i].ssid, servers)
  }

  /** A target that is set, allowed, and not that of an earlier instance. */
  ghost predicate TargetValid(objs: Objects, ac: seq<Inst>, k: nat)
    requires k < |ac| && forall i :: 0 <= i < |ac| ==> ac[i].AccessControl?
  {
    && TargetOidValid(ac[k].oid) && ac[k].oiid != UNSET && Allowed(objs, ac[k].oid, ac[k].oiid)
    && forall i :: 0 <= i < k ==> (ac[i].oid, ac[i].oiid) != (ac[k].oid, ac[k].oiid)
  }

  ghost predicate TargetsValid(objs: Objects, ac: seq<Inst>, n: nat) {
    && n <= |ac| && (forall i :: 0 <= i < |ac| ==> ac[i].AccessControl?)
    && forall k: nat :: k < n ==> TargetValid(objs, ac, k)
  }

  lemma OneMoreValid(objs: Objects, ac: seq<Inst>, n: nat)
    requires n < |ac| && TargetsValid(objs, ac, n) && TargetValid(objs, ac, n)
    ensures TargetsValid(objs, ac, n + 1)
  {
  }

  lemma AllAc(ac: seq<Inst>)
    requires ListOk(OID_ACCESS_CONTROL, ac)
    ensures forall i :: 0 <= i < |ac| ==> ac[i].AccessControl?
  {
    ListOkMeans(OID_ACCESS_CONTROL, ac);
    assert forall i :: 0 <= i < |ac| ==> RightKind(OID_ACCESS_CONTROL, ac[i]);
  }

  ghost predicate TargetAmong(ac: seq<Inst>, oid: Id, iid: Id) {
    exists i: nat :: i < |ac| && ac[i].AccessControl? && ac[i].oid == oid && ac[i].oiid == iid
  }

  /** The context has accepted the targets of these instances, as far as they are allowed. */
  ghost predicate AcceptedAre(accepted: set<(Id, Id)>, objs: Objects, ac: seq<Inst>) {
    forall o: Id, i: Id :: (o, i) in accepted <==> TargetAmong(ac, o, i) && Allowed(objs, o, i)
  }

  lemma AcceptedStep(accepted: set<(Id, Id)>, objs: Objects, ac: seq<Inst>, k: nat)
    requires k < |ac| && ac[k].AccessControl? && 0 <= ac[k].oiid <= 0xFFFF && AcceptedAre(accepted, objs, ac[..k])
    ensures (ac[k].oid, ac[k].oiid) in accepted <==>
      TargetAmong(ac[..k], ac[k].oid, ac[k].oiid) && Allowed(objs, ac[k].oid, ac[k].oiid)
    ensures Allowed(objs, ac[k].oid, ac[k].oiid) ==> AcceptedAre(accepted + {(ac[k].oid, ac[k].oiid)}, objs, ac[..k + 1])
    ensures !Allowed(objs, ac[k].oid, ac[k].oiid) || (ac[k].oid, ac[k].oiid) in accepted ==>
      AcceptedAre(accepted, objs, ac[..k + 1])
  {
    TargetAmongPrefix(ac, k);
  }

  lemma TargetAmongPrefix(ac: seq<Inst>, k: nat)
    requires k < |ac| && ac[k].AccessControl?
    ensures forall o: Id, i: Id ::
      TargetAmong(ac[..k + 1], o, i) <==> TargetAmong(ac[..k], o, i) || (ac[k].oid == o && ac[k].oiid == i)
  {
    forall o: Id, i: Id
      ensures TargetAmong(ac[..k + 1], o, i) <==> TargetAmong(ac[..k], o, i) || (ac[k].oid == o && ac[k].oiid == i)
    {
      assert ac[..k + 1][k] == ac[k];
      if j: nat :| j < k && ac[..k][j].AccessControl? && ac[..k][j].oid == o && ac[..k][j].oiid == i {
        assert ac[..k + 1][j] == ac[j];
      }
    }
  }

  method ListedSsids(acl: seq<AclEntry>) returns (r: set<Id>)
    ensures r == set i | 0 <= i < |acl| :: acl[i].ssid
  {
    r := {};
    for i := 0 to |acl|
      invariant r == set j | 0 <= j < i :: acl[j].ssid
    {
      r := r + {acl[i].ssid};
    }
  }

  /** All SSIDs that matter to validation. */
  ghost function SsidsOf(ac: seq<Inst>): set<Id>
    requires forall i :: 0 <= i < |ac| ==> ac[i].AccessControl?
  {
    if ac == [] then {}
    else
      var x := ac[|ac| - 1];
      SsidsOf(ac[..|ac| - 1]) + (if x.owner == SSID_BOOTSTRAP then {} else {x.owner})
        + set i | 0 <= i < |x.acl| :: x.acl[i].ssid
  }

  lemma SsidsOfPrefix(ac: seq<Inst>, k: nat)
    requires k < |ac| && forall i :: 0 <= i < |ac| ==> ac[i].AccessControl?
    ensures SsidsOf(ac[..k + 1]) == SsidsOf(ac[..k]) + (if ac[k].owner == SSID_BOOTSTRAP then {} else {ac[k].owner})
        + set i | 0 <= i < |ac[k].acl| :: ac[k].acl[i].ssid
  {
    assert ac[..k + 1][..k] == ac[..k];
  }

  lemma {:induction false} SsidsOfMeans(ac: seq<Inst>, servers: set<Id>)
    requires forall i :: 0 <= i < |ac| ==> ac[i].AccessControl?
    ensures (forall s :: s in SsidsOf(ac) ==> SsidValid(s, servers))
      <==> forall k: nat :: k < |ac| ==> SsidsValid(ac[k], servers)
  {
    if ac == [] {
    } else {
      var last := |ac| - 1;
      SsidsOfMeans(ac[..last], servers);
      var listed := set i | 0 <= i < |ac[last].acl| :: ac[last].acl[i].ssid;
      assert forall i :: 0 <= i < |ac[last].acl| ==> ac[last].acl[i].ssid in listed;
      assert forall k: nat :: k < last ==> ac[..last][k] == ac[k];
    }
  }

  /** All targets and all SSIDs are valid. */
  ghost predicate AcValid(objs: Objects, read: SsidReader) {
    OID_ACCESS_CONTROL in objs
    && var ac := objs[OID_ACCESS_CONTROL];
    && (forall i :: 0 <= i < |ac| ==> ac[i].AccessControl?)
    && forall k: nat :: k < |ac| ==> TargetValid(objs, ac, k) && SsidsValid(ac[k], Servers(objs, read))
  }

  /** The same in numbers: Object IDs from 1 to 65534 other than 2, SSIDs 0 and 65535 without a server. */
  ghost predicate ValidInNumbers(objs: Objects, servers: set<Id>, ac: seq<Inst>, k: nat)
    requires k < |ac|
  {
    && ac[k].AccessControl? && 1 <= ac[k].oid <= 65534 && ac[k].oid != 2 && ac[k].oid in objs
    && (ac[k].oiid == 65535 || exists x :: x in objs[ac[k].oid] && x.iid == ac[k].oiid)
    && (forall i :: 0 <= i < k ==> ac[i].AccessControl? && !(ac[i].oid == ac[k].oid && ac[i].oiid == ac[k].oiid))
    && (ac[k].owner == 0 || ac[k].owner == 65535 || ac[k].owner in servers)
    && (forall e :: e in ac[k].acl ==> e.ssid != 65535 && (e.ssid == 0 || e.ssid in servers))
  }

  lemma AcValidMeans(objs: Objects, read: SsidReader)
    requires WellFormed(objs) && 2 in objs
    ensures AcValid(objs, read) <==> forall k: nat :: k < |objs[2]| ==> ValidInNumbers(objs, Servers(objs, read), objs[2], k)
  {
    var ac, servers := objs[2], Servers(objs, read);
    AllAc(ac);
    forall k: nat | k < |ac|
      ensures ValidInNumbers(objs, servers, ac, k) <==> TargetValid(objs, ac, k) && SsidsValid(ac[k], servers)
    {
      if ac[k].oid in objs {
        HasMeans(objs[ac[k].oid], ac[k].oiid);
        UnsetIsNowhere(objs, ac[k].oid);
      }
      assert forall e :: e in ac[k].acl ==> exists i :: 0 <= i < |ac[k].acl| && ac[k].acl[i] == e;
    }
  }

  lemma UnsetIsNowhere(objs: Objects, oid: Id)
    requires oid in objs
    ensures !Has(objs[oid], UNSET)
  {
  }

  /** If all Server Instances can be read, their SSIDs are those of the servers. */
  lemma ServersMean(objs: Objects, read: SsidReader, ssid: Id)
    requires WellFormed(objs) && (1 in objs ==> forall x :: x in objs[1] && x.Plain? ==> read(x.contents).Some?)
    ensures ssid in Servers(objs, read) <==> 1 in objs && exists x :: x in objs[1] && x.Plain? && read(x.contents) == Some(ssid)
  {
    if 1 in objs {
      var s := objs[1];
      ListOkMeans(1, s);
      assert forall i :: 0 <= i < |s| ==> RightKind(1, s[i]) && s[i] in s;
      if x :| x in s && x.Plain? && read(x.contents) == Some(ssid) {
        var k: nat :| k < |s| && s[k] == x;
        assert FoundAt(s, read, ssid, k);
      }
    }
  }

  /** The `k`th instance has a target that is set, allowed and new to the context. */
  method CheckTarget(ctx: ValidationContext, objs: Objects, ac: seq<Inst>, k: nat) returns (ok: bool)
    requires WellFormed(objs) && ctx.Valid(objs) && ListOk(OID_ACCESS_CONTROL, ac) && k < |ac|
    requires AcceptedAre(ctx.accepted, objs, ac[..k])
    requires forall i :: 0 <= i < |ac| ==> ac[i].AccessControl?
    modifies ctx
    ensures ctx.Valid(objs)
    ensures ok <==> TargetValid(objs, ac, k)
    ensures ok ==> AcceptedAre(ctx.accepted, objs, ac[..k + 1])
  {
    var x := ac[k];
    if !TargetOidValid(x.oid) || x.oiid == UNSET {
      return false;
    }
    ElementRight(OID_ACCESS_CONTROL, ac, k);
    ghost var accepted := ctx.accepted;
    var v := ctx.ValidateInstRef(objs, x.oid, x.oiid);
    AcceptedStep(accepted, objs, ac, k);
    ok := v == OK;
  }

  /** Looks for the server's Instance. */
  method SsidExists(objs: Objects, read: SsidReader, ssid: Id) returns (found: bool)
    requires WellFormed(objs)
    ensures found <==> ServerExists(objs, read, ssid)
  {
    if OID_SERVER !in objs {
      return false;
    }
    var s := objs[OID_SERVER];
    ListOkMeans(OID_SERVER, s);
    var k: nat := 0;
    while k < |s|
      invariant k <= |s|
      invariant forall i :: 0 <= i < k ==> s[i].Plain? && read(s[i].contents).Some?
      invariant forall i :: 0 <= i < k ==> read(s[i].contents) != Some(ssid)
    {
      assert RightKind(OID_SERVER, s[k]);
      var x := read(s[k].contents);
      if x == Some(ssid) {
        assert FoundAt(s, read, ssid, k);
        return true;
      }
      if x.None? {
        return false;
      }
      k := k + 1;
    }
    found := false;
  }

  method AllSsidsValid(objs: Objects, read: SsidReader, used: set<Id>) returns (valid: bool)
    requires WellFormed(objs)
    ensures valid <==> forall s :: s in used ==> SsidValid(s, Servers(objs, read))
  {
    var rest := used;
    while rest != {}
      invariant rest <= used && forall s :: s in used && s !in rest ==> SsidValid(s, Servers(objs, read))
      decreases |rest|
    {
      var s :| s in rest;
      if s == SSID_BOOTSTRAP {
        return false;
      }
      if s != SSID_ANY {
        var found := SsidExists(objs, read, s);
        if !found {
          return false;
        }
      }
      rest := rest - {s};
    }
    valid := true;
  }

  /** Accepts exactly the valid states, if there is anything to validate; otherwise it does not look. */
  method TransactionValidate(objs: Objects, read: SsidReader, needsValidation: bool) returns (r: int)
    requires WellFormed(objs) && OID_ACCESS_CONTROL in objs
    ensures r == OK || r == ERR_BAD_REQUEST
    ensures !needsValidation ==> r == OK
    ensures needsValidation ==> (r == OK <==> AcValid(objs, read))
  {
    if !needsValidation {
      return OK;
    }
    var ac := objs[OID_ACCESS_CONTROL];
    AllAc(ac);
    var ctx := new ValidationContext(objs);
    var used: set<Id> := {};
    r := ERR_BAD_REQUEST;
    for k := 0 to |ac|
      invariant ctx.Valid(objs) && fresh(ctx) && r == ERR_BAD_REQUEST
      invariant TargetsValid(objs, ac, k)
      invariant AcceptedAre(ctx.accepted, objs, ac[..k])
      invariant SsidsOf(ac[..k]) == used
    {
      var x := ac[k];
      var ok := CheckTarget(ctx, objs, ac, k);
      if !ok {
        return;
      }
      OneMoreValid(objs, ac, k);
      if x.owner != SSID_BOOTSTRAP {
        used := used + {x.owner};
      }
      var listed := ListedSsids(x.acl);
      used := used + listed;
      SsidsOfPrefix(ac, k);
    }
    assert ac[..|ac|] == ac;
    SsidsOfMeans(ac, Servers(objs, read));
    var valid := AllSsidsValid(objs, read, used);
    if valid {
      r := OK;
    }
  }
}

/**
 Purging the ACL entries of servers that no longer exist, on values: what happens to each Access
 Control instance, and why it changes nothing for the servers that remain.
 */
module AccessPurge {
  import opened Ids
  import opened Instances
  import opened AccessMask
  import opened AclValidation

  /** The Short Server ID of a Security instance, if it can be read. */
  function SsidOf(x: Inst): Option<Id>
    requires x.Security?
  {
    if x.bootstrap then Some(SSID_BOOTSTRAP)
    else if x.ssid.None? || x.ssid.value <= 0 || x.ssid.value > 0xFFFF then None
    else Some(x.ssid.value)
  }

  ghost predicate AllSecurity(sec: seq<Inst>) {
    forall i :: 0 <= i < |sec| ==> sec[i].Security?
  }

  ghost function SsidsIn(sec: seq<Inst>): (r: set<Id>)
    requires AllSecurity(sec)
    ensures forall s: Id :: s in r <==> exists i :: 0 <= i < |sec| && SsidOf(sec[i]) == Some(s)
  {
    if sec == [] then {}
    else
      var rest := SsidsIn(sec[1..]);
      assert sec == [sec[0]] + sec[1..];
      if SsidOf(sec[0]).None? then rest else rest + {SsidOf(sec[0]).value}
  }

  /** Collects them in an ascending list without repetition; one that cannot be read is an error. */
  method EnumerateValidSsids(sec: seq<Inst>) returns (r: int, ssids: seq<Id>)
    requires AllSecurity(sec)
    ensures r == OK <==> forall i :: 0 <= i < |sec| ==> SsidOf(sec[i]).Some?
    ensures r == OK ==> Ascending(ssids) && forall s: Id :: s in ssids <==> s in SsidsIn(sec)
  {
    ssids := [];
    for i := 0 to |sec|
      invariant Ascending(ssids)
      invariant forall s: Id :: s in ssids <==> exists j :: 0 <= j < i && SsidOf(sec[j]) == Some(s)
      invariant forall j :: 0 <= j < i ==> SsidOf(sec[j]).Some?
    {
      var s := SsidOf(sec[i]);
      if s.None? {
        return ERR, [];
      }
      ssids := InsertSsid(ssids, s.value);
    }
    r := OK;
  }

  method InsertSsid(ssids: seq<Id>, s: Id) returns (r: seq<Id>)
    requires Ascending(ssids)
    ensures Ascending(r) && forall x: Id :: x in r <==> x in ssids || x == s
  {
    var k: nat := 0;
    while k < |ssids| && ssids[k] < s
      invariant k <= |ssids| && forall i :: 0 <= i < k ==> ssids[i] < s
    {
      k := k + 1;
    }
    if k < |ssids| && ssids[k] == s {
      return ssids;
    }
    assert ssids == ssids[..k] + ssids[k..];
    r := ssids[..k] + [s] + ssids[k..];
  }

  // ----- One ACL -----

  ghost function AsSet(ssids: seq<Id>): set<Id> {
    set s | s in ssids
  }

  /** An entry that a purge keeps: the Bootstrap Server's, the default one, or one of a live server. */
  predicate Keepable(ssid: Id, live: set<Id>) {
    ssid == SSID_BOOTSTRAP || ssid == SSID_ANY || ssid in live
  }

  function Purged(acl: seq<AclEntry>, live: set<Id>): (r: seq<AclEntry>)
    ensures forall e :: e in r <==> e in acl && Keepable(e.ssid, live)
    ensures |r| <= |acl|
  {
    if acl == [] then []
    else if Keepable(acl[0].ssid, live) then [acl[0]] + Purged(acl[1..], live)
    else Purged(acl[1..], live)
  }

  lemma {:induction false} PurgedAppend(a: seq<AclEntry>, b: seq<AclEntry>, live: set<Id>)
    ensures Purged(a + b, live) == Purged(a, live) + Purged(b, live)
  {
    if a == [] {
      assert a + b == b;
    } else {
      assert (a + b)[1..] == a[1..] + b;
      PurgedAppend(a[1..], b, live);
    }
  }

  lemma {:induction false} PurgedAscending(acl: seq<AclEntry>, live: set<Id>)
    requires AscendingSsids(acl) && RiidsValid(acl)
    ensures AscendingSsids(Purged(acl, live)) && RiidsValid(Purged(acl, live))
  {
    if acl == [] {
    } else {
      var rest := Purged(acl[1..], live);
      PurgedAscending(acl[1..], live);
      forall i | 0 <= i < |rest|
        ensures acl[0].ssid < rest[i].ssid
      {
        assert rest[i] in acl[1..];
      }
    }
  }

  ghost predicate NothingToPurge(acl: seq<AclEntry>, live: set<Id>) {
    Purged(acl, live) == acl
  }

  /** There is an entry of the server. */
  ghost predicate Lists(acl: seq<AclEntry>, ssid: Id) {
    acl != [] && (acl[|acl| - 1].ssid == ssid || Lists(acl[..|acl| - 1], ssid))
  }

  /** The owner has an entry, and the purge drops it. */
  ghost predicate OwnerDropped(acl: seq<AclEntry>, owner: Id, live: set<Id>) {
    !Keepable(owner, live) && Lists(acl, owner)
  }

  lemma KeptOnes(ssid: Id, ssids: seq<Id>)
    ensures ssid == SSID_BOOTSTRAP || ssid == SSID_ANY || ssid in ssids <==> Keepable(ssid, AsSet(ssids))
  {
  }

  lemma PurgingStarts(all: seq<AclEntry>, owner: Id, live: set<Id>)
    ensures Purging(all, 0, owner, live, all, 0, false, true)
  {
    assert all[..0] == [] && all[0..] == all;
  }

  lemma PurgingEnds(all: seq<AclEntry>, n: nat, owner: Id, live: set<Id>, acl: seq<AclEntry>, k: nat,
                    modified: bool, ownerValid: bool)
    requires k == |acl| && Purging(all, n, owner, live, acl, k, modified, ownerValid)
    ensures acl == Purged(all, live)
    ensures modified <==> !NothingToPurge(all, live)
    ensures ownerValid <==> !OwnerDropped(all, owner, live)
  {
    assert all[n..] == [] && all[..n] == all;
  }

  /** The pass over the list: the first `n` entries are done, the first `k` of what is left are kept. */
  ghost predicate Purging(all: seq<AclEntry>, n: nat, owner: Id, live: set<Id>, acl: seq<AclEntry>, k: nat,
                          modified: bool, ownerValid: bool)
  {
    && n <= |all| && k == |Purged(all[..n], live)| && acl == Purged(all[..n], live) + all[n..]
    && (modified <==> !NothingToPurge(all[..n], live))
    && (ownerValid <==> !OwnerDropped(all[..n], owner, live))
  }

  lemma PurgingStep(all: seq<AclEntry>, n: nat, owner: Id, live: set<Id>, acl: seq<AclEntry>, k: nat,
                    modified: bool, ownerValid: bool)
    requires k < |acl| && Purging(all, n, owner, live, acl, k, modified, ownerValid)
    ensures n < |all| && acl[k] == all[n]
    ensures Keepable(acl[k].ssid, live) ==> Purging(all, n + 1, owner, live, acl, k + 1, modified, ownerValid)
    ensures !Keepable(acl[k].ssid, live) ==>
      Purging(all, n + 1, owner, live, acl[..k] + acl[k + 1..], k, true, ownerValid && acl[k].ssid != owner)
  {
    var p := Purged(all[..n], live);
    PurgedStep(all, n, live);
    DroppedStep(all, n, owner, live);
    Deleted(p, all[n], all[n + 1..]);
    if Keepable(all[n].ssid, live) {
      assert Purged(all[..n + 1], live) == p + [all[n]];
    } else {
      assert Purged(all[..n + 1], live) == p;
    }
  }

  lemma Deleted<T>(p: seq<T>, x: T, rest: seq<T>)
    ensures var all := p + ([x] + rest);
      all[|p|] == x && all[..|p|] + all[|p| + 1..] == p + rest && all == p + [x] + rest
  {
  }

  lemma PurgedStep(all: seq<AclEntry>, n: nat, live: set<Id>)
    requires n < |all|
    ensures all[n..] == [all[n]] + all[n + 1..]
    ensures Purged(all[..n + 1], live) == Purged(all[..n], live) + if Keepable(all[n].ssid, live) then [all[n]] else []
    ensures NothingToPurge(all[..n + 1], live) <==> NothingToPurge(all[..n], live) && Keepable(all[n].ssid, live)
  {
    assert all[..n + 1] == all[..n] + [all[n]];
    PurgedAppend(all[..n], [all[n]], live);
    assert Purged([all[n]], live) == if Keepable(all[n].ssid, live) then [all[n]] else [];
    SameWithOneMore(Purged(all[..n], live), all[..n], all[n]);
  }

  lemma SameWithOneMore(a: seq<AclEntry>, b: seq<AclEntry>, e: AclEntry)
    ensures a + [e] == b + [e] <==> a == b
  {
    assert a + [e] == b + [e] ==> a == (a + [e])[..|a|] == (b + [e])[..|b|] == b;
  }

  lemma DroppedStep(all: seq<AclEntry>, n: nat, owner: Id, live: set<Id>)
    requires n < |all|
    ensures OwnerDropped(all[..n + 1], owner, live) <==>
      OwnerDropped(all[..n], owner, live) || (all[n].ssid == owner && !Keepable(owner, live))
  {
    assert all[..n + 1][..n] == all[..n];
  }

  /** Keeps the `k`th entry or deletes it. */
  method PurgeEntry(acl: seq<AclEntry>, k: nat, modified: bool, ownerValid: bool, owner: Id, ssids: seq<Id>,
                    ghost all: seq<AclEntry>, ghost n: nat)
    returns (acl': seq<AclEntry>, k': nat, modified': bool, ownerValid': bool)
    requires k < |acl| && Purging(all, n, owner, AsSet(ssids), acl, k, modified, ownerValid)
    ensures Purging(all, n + 1, owner, AsSet(ssids), acl', k', modified', ownerValid')
    ensures k' <= |acl'| && |acl'| - k' == |acl| - k - 1
  {
    PurgingStep(all, n, owner, AsSet(ssids), acl, k, modified, ownerValid);
    var ssid := acl[k].ssid;
    KeptOnes(ssid, ssids);
    if ssid == SSID_BOOTSTRAP || ssid == SSID_ANY || ssid in ssids {
      acl', k', modified', ownerValid' := acl, k + 1, modified, ownerValid;
    } else {
      acl', k', modified', ownerValid' := acl[..k] + acl[k + 1..], k, true, ownerValid && ssid != owner;
    }
  }

  /** Deletes from the list in place, noticing whether anything and whether the owner's entry goes. */
  method PurgeAcl(all: seq<AclEntry>, owner: Id, ssids: seq<Id>) returns (acl: seq<AclEntry>, modified: bool, ownerValid: bool)
    ensures var live := AsSet(ssids);
      && acl == Purged(all, live)
      && (modified <==> !NothingToPurge(all, live))
      && (ownerValid <==> !OwnerDropped(all, owner, live))
  {
    ghost var live := AsSet(ssids);
    acl, modified, ownerValid := all, false, true;
    PurgingStarts(all, owner, live);
    var k: nat := 0;
    ghost var n: nat := 0;
    while k < |acl|
      invariant Purging(all, n, owner, live, acl, k, modified, ownerValid)
      decreases |acl| - k
    {
      acl, k, modified, ownerValid := PurgeEntry(acl, k, modified, ownerValid, owner, ssids, all, n);
      n := n + 1;
    }
    PurgingEnds(all, n, owner, live, acl, k, modified, ownerValid);
  }

  // ----- One Access Control instance -----

  /** All its entries are of dead servers. */
  ghost predicate Orphan(x: Inst, live: set<Id>)
    requires x.AccessControl?
  {
    x.acl != [] && Purged(x.acl, live) == []
  }

  /** Entries are dropped, but some are left. */
  ghost predicate Affected(x: Inst, live: set<Id>)
    requires x.AccessControl?
  {
    !NothingToPurge(x.acl, live) && Purged(x.acl, live) != []
  }

  /** It needs a new owner, and the only candidate is the default entry. */
  ghost predicate Doomed(x: Inst, live: set<Id>)
    requires x.AccessControl?
  {
    Affected(x, live) && OwnerDropped(x.acl, x.owner, live) && Elected(Purged(x.acl, live)) == SSID_ANY
  }

  /** What a purge makes of an instance that stays. */
  ghost function Rewritten(x: Inst, live: set<Id>): (y: Inst)
    requires x.AccessControl?
    ensures y.AccessControl? && y.iid == x.iid && y.oid == x.oid && y.oiid == x.oiid
  {
    if !Affected(x, live) then x
    else
      var p := Purged(x.acl, live);
      x.(hasAcl := true, acl := p, owner := if OwnerDropped(x.acl, x.owner, live) then Elected(p) else x.owner)
  }

  lemma RewrittenIsPurged(x: Inst, live: set<Id>)
    requires x.AccessControl? && !Orphan(x, live)
    ensures Rewritten(x, live).acl == Purged(x.acl, live)
    ensures forall e :: e in Rewritten(x, live).acl ==> Keepable(e.ssid, live)
  {
  }

  /** A live server may do the same before and after, although owners are elected and ACLs rewritten. */
  lemma SameRights(x: Inst, live: set<Id>, ssid: Id, mask: Mask)
    requires x.AccessControl? && !Orphan(x, live) && Keepable(ssid, live)
    ensures MayDo(x.acl, x.owner, ssid, mask)
      <==> MayDo(Rewritten(x, live).acl, Rewritten(x, live).owner, ssid, mask)
  {
    RewrittenIsPurged(x, live);
    var y := Rewritten(x, live);
    forall s: Id, m: Mask | Keepable(s, live)
      ensures Grants(x.acl, s, m) <==> Grants(y.acl, s, m)
    {
      assert AclEntry(s, m) in x.acl <==> AclEntry(s, m) in Purged(x.acl, live);
    }
    SameMentions(x.acl, y.acl, ssid);
    SameMentions(x.acl, y.acl, SSID_ANY);
  }

  lemma SameMentions(a: seq<AclEntry>, b: seq<AclEntry>, s: Id)
    requires forall m: Mask :: Grants(a, s, m) <==> Grants(b, s, m)
    ensures Mentions(a, s) <==> Mentions(b, s)
  {
    if m: Mask :| Grants(a, s, m) {
      assert Grants(b, s, m);
    }
    if m: Mask :| Grants(b, s, m) {
      assert Grants(a, s, m);
    }
  }

  // ----- Owners -----

  lemma {:induction false} ListedEntry(acl: seq<AclEntry>, ssid: Id)
    ensures Lists(acl, ssid) <==> exists e :: e in acl && e.ssid == ssid
  {
    if acl == [] {
    } else {
      ListedEntry(acl[..|acl| - 1], ssid);
      assert acl == acl[..|acl| - 1] + [acl[|acl| - 1]];
    }
  }

  /** A dead owner is replaced exactly if it has an entry of its own. */
  lemma OwnerOutlivesPurge(x: Inst, live: set<Id>)
    requires x.AccessControl? && !Orphan(x, live)
    ensures Keepable(Rewritten(x, live).owner, live) <==> Keepable(x.owner, live) || Lists(x.acl, x.owner)
  {
    if OwnerDropped(x.acl, x.owner, live) {
      ListedEntry(x.acl, x.owner);
      var p := Purged(x.acl, live);
      assert p != [] && p[Best(p)] in p;
    }
  }

  /** Server 7 is gone. It owns an instance that lists server 1 only, and one that lists nobody. */
  lemma StaleOwners(servers: set<Id>)
    requires 7 !in servers
    ensures forall acl :: acl == [] || acl == [AclEntry(1, MASK_READ)] ==>
      var x := AccessControl(0, 3, 0, 7, true, acl); Rewritten(x, {1}) == x && !SsidsValid(x, servers)
  {
    forall acl | acl == [] || acl == [AclEntry(1, MASK_READ)]
      ensures NothingToPurge(acl, {1})
    {
      assert acl != [] ==> acl[1..] == [];
    }
  }
}

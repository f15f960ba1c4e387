/**
 The queue of data model changes: one entry per Object in ascending order, with the Instances known
 to have been added and the Resources known to have changed, both in ascending order too.

 Every operation searches with early exit and edits the lists in place. Each is proved to change
 what the queue says about exactly one Object in exactly the intended way, and to keep the order
 that the early exits of this and later searches depend on.
 */
module NotifyQueue {
  import opened Ids

  datatype ResourceEntry = ResourceEntry(iid: Id, rid: Id)

  datatype ObjectEntry = ObjectEntry(
    oid: Id, instanceSetChanged: bool, knownAdded: seq<Id>, resourcesChanged: seq<ResourceEntry>)

  /** Resources are ordered by Instance first. */
  function Key(r: ResourceEntry): nat { r.iid * 0x1_0000 + r.rid }

  lemma KeyIsInjective(a: ResourceEntry, b: ResourceEntry)
    ensures Key(a) == Key(b) <==> a == b
    ensures a.iid < b.iid ==> Key(a) < Key(b)
  {}

  ghost predicate SortedResources(s: seq<ResourceEntry>) {
    forall i, j :: 0 <= i < j < |s| ==> Key(s[i]) < Key(s[j])
  }

  ghost predicate ValidEntry(e: ObjectEntry) {
    && Ascending(e.knownAdded) && SortedResources(e.resourcesChanged)
    && (e.knownAdded != [] ==> e.instanceSetChanged)
  }

  ghost predicate ValidQueue(q: seq<ObjectEntry>) {
    && (forall i, j :: 0 <= i < j < |q| ==> q[i].oid < q[j].oid)
    && forall i :: 0 <= i < |q| ==> ValidEntry(q[i])
  }

  function Blank(oid: Id): ObjectEntry { ObjectEntry(oid, false, [], []) }

  /** What the queue says about an Object. */
  ghost function About(q: seq<ObjectEntry>, oid: Id): ObjectEntry {
    if q == [] then Blank(oid)
    else if q[0].oid == oid then q[0]
    else About(q[1..], oid)
  }

  ghost predicate OthersUnchanged(before: seq<ObjectEntry>, after: seq<ObjectEntry>, oid: Id) {
    forall o: Id :: o != oid ==> About(after, o) == About(before, o)
  }

  lemma {:induction false} EntryIsAbout(q: seq<ObjectEntry>, i: nat)
    requires ValidQueue(q) && i < |q|
    ensures About(q, q[i].oid) == q[i]
  {
    if i == 0 {
    } else {
      EntryIsAbout(q[1..], i - 1);
    }
  }

  lemma {:induction false} NothingAbout(q: seq<ObjectEntry>, oid: Id)
    requires forall i :: 0 <= i < |q| ==> q[i].oid != oid
    ensures About(q, oid) == Blank(oid)
  {
    if q == [] {
    } else {
      NothingAbout(q[1..], oid);
    }
  }

  lemma UpdateInPlace(q: seq<ObjectEntry>, i: nat, e: ObjectEntry)
    requires ValidQueue(q) && i < |q| && e.oid == q[i].oid && ValidEntry(e)
    ensures ValidQueue(q[i := e])
    ensures About(q, e.oid) == q[i] && About(q[i := e], e.oid) == e
    ensures OthersUnchanged(q, q[i := e], e.oid)
  {
    var r := q[i := e];
    assert q == q[..i] + [q[i]] + q[i + 1..] && r == q[..i] + [e] + q[i + 1..];
    EntryIsAbout(q, i);
    EntryIsAbout(r, i);
    forall o: Id | o != e.oid
      ensures About(r, o) == About(q, o)
    {
      SameAbout(q, r, o);
    }
  }

  lemma SameAbout(q: seq<ObjectEntry>, r: seq<ObjectEntry>, o: Id)
    requires ValidQueue(q) && ValidQueue(r)
    requires forall e: ObjectEntry :: e.oid == o ==> (e in q <==> e in r)
    ensures About(q, o) == About(r, o)
  {
    if j :| 0 <= j < |q| && q[j].oid == o {
      EntryIsAbout(q, j);
      var k :| 0 <= k < |r| && r[k] == q[j];
      EntryIsAbout(r, k);
    } else {
      NothingAbout(q, o);
      forall k | 0 <= k < |r|
        ensures r[k].oid != o
      {
        assert r[k] in r;
      }
      NothingAbout(r, o);
    }
  }

  lemma InsertKeepsOrder(q: seq<ObjectEntry>, i: nat, e: ObjectEntry)
    requires ValidQueue(q) && i <= |q| && ValidEntry(e)
    requires forall j :: 0 <= j < i ==> q[j].oid < e.oid
    requires i < |q| ==> e.oid < q[i].oid
    ensures ValidQueue(q[..i] + [e] + q[i..])
  {}

  lemma InsertBlank(q: seq<ObjectEntry>, i: nat, oid: Id)
    requires ValidQueue(q) && i <= |q|
    requires forall j :: 0 <= j < i ==> q[j].oid < oid
    requires i < |q| ==> oid < q[i].oid
    ensures ValidQueue(q[..i] + [Blank(oid)] + q[i..])
    ensures About(q, oid) == Blank(oid)
    ensures OthersUnchanged(q, q[..i] + [Blank(oid)] + q[i..], oid)
  {
    var r := q[..i] + [Blank(oid)] + q[i..];
    InsertKeepsOrder(q, i, Blank(oid));
    forall o: Id | o != oid
      ensures About(r, o) == About(q, o)
    {
      assert q == q[..i] + q[i..];
      SameAbout(q, r, o);
    }
    NothingAbout(q, oid);
  }

  // ----- The ordered lists inside an entry -----

  method AddToIdSet(s: seq<Id>, x: Id) returns (r: seq<Id>)
    requires Ascending(s)
    ensures Ascending(r) && forall y :: y in r <==> y in s || y == x
  {
    var k := 0;
    while k < |s|
      invariant k <= |s|
      invariant forall j :: 0 <= j < k ==> s[j] < x
    {
      if s[k] == x {
        return s;
      } else if s[k] > x {
        break;
      }
      k := k + 1;
    }
    assert s == s[..k] + s[k..];
    return s[..k] + [x] + s[k..];
  }

  method RemoveFromIdSet(s: seq<Id>, x: Id) returns (r: seq<Id>)
    requires Ascending(s)
    ensures Ascending(r) && forall y :: y in r <==> y in s && y != x
  {
    var k := 0;
    while k < |s|
      invariant k <= |s|
      invariant forall j :: 0 <= j < k ==> s[j] < x
    {
      if s[k] >= x {
        if s[k] == x {
          assert s == s[..k] + [x] + s[k + 1..];
          return s[..k] + s[k + 1..];
        }
        return s;
      }
      k := k + 1;
    }
    return s;
  }

  /** The entries from `k` to `n` belong to the Instance, those before to smaller ones. */
  ghost predicate Stretch(s: seq<ResourceEntry>, iid: Id, k: nat, n: nat) {
    && k <= n <= |s|
    && (forall j :: 0 <= j < k ==> s[j].iid < iid)
    && (k < |s| ==> s[k].iid >= iid)
    && forall j :: k <= j < n ==> s[j].iid == iid
  }

  /** In a sorted list the entries of one Instance are one stretch. */
  lemma StretchOfInstance(s: seq<ResourceEntry>, iid: Id, k: nat, n: nat)
    requires SortedResources(s) && Stretch(s, iid, k, n)
    requires n < |s| ==> s[n].iid != iid
    ensures SortedResources(s[..k] + s[n..])
    ensures forall x :: x in s[..k] + s[n..] <==> x in s && x.iid != iid
  {
    forall j | n <= j < |s|
      ensures s[j].iid != iid
    {
      KeyIsInjective(s[j], s[n]);
      KeyIsInjective(s[n], s[k]);
    }
    assert s == s[..k] + s[k..n] + s[n..];
  }

  /** Deletes the stretch of entries of one Instance, in place. */
  method DropInstance(all: seq<ResourceEntry>, iid: Id) returns (changed: seq<ResourceEntry>)
    requires SortedResources(all)
    ensures SortedResources(changed) && forall r :: r in changed <==> r in all && r.iid != iid
  {
    changed := all;
    var k: nat := 0;
    while k < |changed|
      invariant k <= |changed|
      invariant forall j :: 0 <= j < k ==> changed[j].iid < iid
    {
      if changed[k].iid >= iid {
        break;
      }
      k := k + 1;
    }
    ghost var n := k;
    while k < |changed| && changed[k].iid == iid
      invariant Stretch(all, iid, k, n)
      invariant changed == all[..k] + all[n..]
      decreases |changed|
    {
      assert changed[k] == all[n];
      changed := changed[..k] + changed[k + 1..];
      n := n + 1;
    }
    assert n < |all| ==> changed[k] == all[n];
    StretchOfInstance(all, iid, k, n);
  }

  lemma InsertedIsSorted(s: seq<ResourceEntry>, r: ResourceEntry, k: nat)
    requires SortedResources(s) && k <= |s|
    requires forall j :: 0 <= j < k ==> Key(s[j]) < Key(r)
    requires k < |s| ==> Key(r) < Key(s[k])
    ensures SortedResources(s[..k] + [r] + s[k..])
    ensures forall x :: x in s[..k] + [r] + s[k..] <==> x in s || x == r
  {
    assert s == s[..k] + s[k..];
  }

  // ----- The queue -----

  class Queue {
    var entries: seq<ObjectEntry>

    constructor ()
      ensures entries == []
    {
      entries := [];
    }

    ghost predicate Valid()
      reads this
    {
      ValidQueue(entries)
    }

    method FindOrCreateObjectEntry(oid: Id) returns (i: nat)
      requires Valid()
      modifies this
      ensures Valid() && i < |entries| && entries[i].oid == oid
      ensures entries[i] == About(old(entries), oid)
      ensures OthersUnchanged(old(entries), entries, oid)
    {
      i := 0;
      while i < |entries|
        invariant i <= |entries| && entries == old(entries)
        invariant forall j :: 0 <= j < i ==> entries[j].oid < oid
      {
        if entries[i].oid == oid {
          EntryIsAbout(entries, i);
          return;
        } else if entries[i].oid > oid {
          break;
        }
        i := i + 1;
      }
      InsertBlank(entries, i, oid);
      entries := entries[..i] + [Blank(oid)] + entries[i..];
    }

    method InstanceCreated(oid: Id, iid: Id)
      requires Valid()
      modifies this
      ensures Valid() && OthersUnchanged(old(entries), entries, oid)
      ensures var was, now := About(old(entries), oid), About(entries, oid);
        && now == was.(instanceSetChanged := true, knownAdded := now.knownAdded)
        && forall x :: x in now.knownAdded <==> x in was.knownAdded || x == iid
    {
      var i := FindOrCreateObjectEntry(oid);
      var added := AddToIdSet(entries[i].knownAdded, iid);
      var e := entries[i].(knownAdded := added, instanceSetChanged := true);
      UpdateInPlace(entries, i, e);
      entries := entries[i := e];
    }

    method InstanceRemoved(oid: Id, iid: Id)
      requires Valid()
      modifies this
      ensures Valid() && OthersUnchanged(old(entries), entries, oid)
      ensures var was, now := About(old(entries), oid), About(entries, oid);
        && now == was.(instanceSetChanged := true, knownAdded := now.knownAdded)
        && forall x :: x in now.knownAdded <==> x in was.knownAdded && x != iid
    {
      var i := FindOrCreateObjectEntry(oid);
      var added := RemoveFromIdSet(entries[i].knownAdded, iid);
      var e := entries[i].(knownAdded := added, instanceSetChanged := true);
      UpdateInPlace(entries, i, e);
      entries := entries[i := e];
    }

    method InstanceSetUnknownChange(oid: Id)
      requires Valid()
      modifies this
      ensures Valid() && OthersUnchanged(old(entries), entries, oid)
      ensures About(entries, oid) == About(old(entries), oid).(instanceSetChanged := true)
    {
      var i := FindOrCreateObjectEntry(oid);
      var e := entries[i].(instanceSetChanged := true);
      UpdateInPlace(entries, i, e);
      entries := entries[i := e];
    }

    method ResourceChange(oid: Id, iid: Id, rid: Id)
      requires Valid()
      modifies this
      ensures Valid() && OthersUnchanged(old(entries), entries, oid)
      ensures var was, now := About(old(entries), oid), About(entries, oid);
        && now == was.(resourcesChanged := now.resourcesChanged)
        && forall r :: r in now.resourcesChanged <==> r in was.resourcesChanged || r == ResourceEntry(iid, rid)
    {
      var i := FindOrCreateObjectEntry(oid);
      var changed := entries[i].resourcesChanged;
      var entry := ResourceEntry(iid, rid);
      var k := 0;
      while k < |changed|
        invariant k <= |changed|
        invariant forall j :: 0 <= j < k ==> Key(changed[j]) < Key(entry)
      {
        if Key(changed[k]) == Key(entry) {
          KeyIsInjective(changed[k], entry);
          EntryIsAbout(entries, i);
          return;
        } else if Key(changed[k]) > Key(entry) {
          break;
        }
        k := k + 1;
      }
      InsertedIsSorted(changed, entry, k);
      var e := entries[i].(resourcesChanged := changed[..k] + [entry] + changed[k..]);
      UpdateInPlace(entries, i, e);
      entries := entries[i := e];
    }

    /** Forgets the Resource changes of one Instance: exactly those. */
    method DropResourceChanges(oid: Id, iid: Id)
      requires Valid()
      modifies this
      ensures Valid() && OthersUnchanged(old(entries), entries, oid)
      ensures var was, now := About(old(entries), oid), About(entries, oid);
        && now == was.(resourcesChanged := now.resourcesChanged)
        && forall r :: r in now.resourcesChanged <==> r in was.resourcesChanged && r.iid != iid
    {
      var i := 0;
      while i < |entries|
        invariant i <= |entries| && entries == old(entries)
        invariant forall j :: 0 <= j < i ==> entries[j].oid < oid
      {
        if entries[i].oid > oid {
          NothingAbout(entries, oid);
          return;
        } else if entries[i].oid == oid {
          break;
        }
        i := i + 1;
      }
      if i == |entries| {
        NothingAbout(entries, oid);
        return;
      }
      var changed := DropInstance(entries[i].resourcesChanged, iid);
      var e := entries[i].(resourcesChanged := changed);
      UpdateInPlace(entries, i, e);
      entries := entries[i := e];
    }
  }
}

/**
 The transactional two-level store of the Binary App Data Container object: a sorted list of
 Instances, each with a sorted list of data Resource Instances, edited in place, and a deep copy
 that a rollback swaps back in.

 The nodes are heap objects, because the point is aliasing: a rollback restores the store exactly
 only if the saved copy shares no node with the lists that are edited.
 */
module BinaryAppData {
  import opened Ids
  import opened InputStream

  type Bytes = seq<bv8>

  const MAX_BINARY_DATA_SIZE: nat := 1024

  class ResourceInstance {
    const riid: Id
    var data: Bytes
    /** The Instance whose list this node is in; a node belongs to one list only. */
    ghost const owner: Instance

    constructor (riid: Id, data: Bytes, ghost owner: Instance)
      ensures this.riid == riid && this.data == data && this.owner == owner
    {
      this.riid, this.data, this.owner := riid, data, owner;
    }
  }

  class Instance {
    const iid: Id
    var dataList: seq<ResourceInstance>

    constructor (iid: Id)
      ensures this.iid == iid && dataList == []
    {
      this.iid, dataList := iid, [];
    }
  }

  // ----- The store as a value -----

  datatype ResourceView = ResourceView(riid: Id, data: Bytes)

  datatype InstanceView = InstanceView(iid: Id, resources: seq<ResourceView>)

  type StoreView = seq<InstanceView>

  /** The Instance node and its data nodes are among `nodes`, owned and ordered, and hold `v`. */
  ghost predicate Shows(inst: Instance, v: InstanceView, nodes: set<object>)
    reads nodes
  {
    && inst in nodes && inst.iid == v.iid && |inst.dataList| == |v.resources|
    && (forall j :: 0 <= j < |v.resources| ==> ShowsResource(inst, inst.dataList[j], v.resources[j], nodes))
    && AscendingResources(v.resources)
  }

  ghost predicate ShowsResource(inst: Instance, r: ResourceInstance, v: ResourceView, nodes: set<object>)
    reads nodes
  {
    r in nodes && r.owner == inst && r.riid == v.riid && r.data == v.data
  }

  ghost predicate AscendingResources(v: seq<ResourceView>) {
    forall i, j :: 0 <= i < j < |v| ==> v[i].riid < v[j].riid
  }

  ghost predicate AscendingStore(v: StoreView) {
    forall i, j :: 0 <= i < j < |v| ==> v[i].iid < v[j].iid
  }

  ghost predicate ShowsAll(list: seq<Instance>, v: StoreView, nodes: set<object>)
    reads nodes
  {
    && |list| == |v|
    && (forall i :: 0 <= i < |v| ==> Shows(list[i], v[i], nodes))
    && AscendingStore(v)
  }

  // ----- Positions in ascending lists -----

  ghost function InstancePosition(v: StoreView, iid: Id): (p: nat)
    ensures p <= |v|
  {
    if v == [] || v[0].iid >= iid then 0 else 1 + InstancePosition(v[1..], iid)
  }

  ghost function ResourcePosition(v: seq<ResourceView>, riid: Id): (p: nat)
    ensures p <= |v|
  {
    if v == [] || v[0].riid >= riid then 0 else 1 + ResourcePosition(v[1..], riid)
  }

  lemma {:induction false} InstancePositionIs(v: StoreView, iid: Id, p: nat)
    requires p <= |v| && (forall i :: 0 <= i < p ==> v[i].iid < iid) && (p < |v| ==> v[p].iid >= iid)
    ensures InstancePosition(v, iid) == p
  {
    if p == 0 {
    } else {
      InstancePositionIs(v[1..], iid, p - 1);
    }
  }

  lemma {:induction false} ResourcePositionIs(v: seq<ResourceView>, riid: Id, p: nat)
    requires p <= |v| && (forall i :: 0 <= i < p ==> v[i].riid < riid) && (p < |v| ==> v[p].riid >= riid)
    ensures ResourcePosition(v, riid) == p
  {
    if p == 0 {
    } else {
      ResourcePositionIs(v[1..], riid, p - 1);
    }
  }

  ghost predicate HasInstance(v: StoreView, iid: Id) {
    InstancePosition(v, iid) < |v| && v[InstancePosition(v, iid)].iid == iid
  }

  // ----- The operations on values -----

  ghost function Created(v: StoreView, iid: Id): StoreView {
    var p := InstancePosition(v, iid); v[..p] + [InstanceView(iid, [])] + v[p..]
  }

  ghost function Removed(v: StoreView, iid: Id): StoreView
    requires HasInstance(v, iid)
  {
    var p := InstancePosition(v, iid); v[..p] + v[p + 1..]
  }

  ghost function WithResources(v: StoreView, iid: Id, resources: seq<ResourceView>): StoreView
    requires HasInstance(v, iid)
  {
    v[InstancePosition(v, iid) := InstanceView(iid, resources)]
  }

  ghost function ResourcesIn(v: StoreView, iid: Id): seq<ResourceView>
    requires HasInstance(v, iid)
  {
    v[InstancePosition(v, iid)].resources
  }

  ghost predicate HasResource(r: seq<ResourceView>, riid: Id) {
    ResourcePosition(r, riid) < |r| && r[ResourcePosition(r, riid)].riid == riid
  }

  /** The value replaces the one there, or goes to its place in the order. */
  ghost function WithValue(r: seq<ResourceView>, riid: Id, data: Bytes): seq<ResourceView> {
    var p := ResourcePosition(r, riid);
    if HasResource(r, riid) then r[p := ResourceView(riid, data)]
    else r[..p] + [ResourceView(riid, data)] + r[p..]
  }

  // ----- What the operations mean -----

  lemma {:induction false} InstancesInOrder(v: StoreView, iid: Id)
    requires AscendingStore(v)
    ensures var p := InstancePosition(v, iid);
      && (forall i :: 0 <= i < p ==> v[i].iid < iid) && (forall i :: p < i < |v| ==> v[i].iid > iid)
      && (p < |v| ==> v[p].iid >= iid)
      && (HasInstance(v, iid) <==> exists x :: x in v && x.iid == iid)
  {
    if v == [] || v[0].iid >= iid {
      assert v != [] ==> v[0] in v;
    } else {
      InstancesInOrder(v[1..], iid);
      assert v == [v[0]] + v[1..];
    }
  }

  lemma CreatedMeans(v: StoreView, iid: Id)
    requires AscendingStore(v) && !HasInstance(v, iid)
    ensures AscendingStore(Created(v, iid))
    ensures forall x :: x in Created(v, iid) <==> x in v || x == InstanceView(iid, [])
  {
    InstancesInOrder(v, iid);
    var p := InstancePosition(v, iid);
    PutIn(v, p, InstanceView(iid, []));
    assert forall i :: p <= i < |v| ==> v[i].iid > iid;
  }

  lemma PutIn<T>(v: seq<T>, p: nat, x: T)
    requires p <= |v|
    ensures forall y :: y in v[..p] + [x] + v[p..] <==> y in v || y == x
  {
    assert v == v[..p] + v[p..];
  }

  lemma RemovedMeans(v: StoreView, iid: Id)
    requires AscendingStore(v) && HasInstance(v, iid)
    ensures forall x :: x in Removed(v, iid) <==> x in v && x.iid != iid
  {
    InstancesInOrder(v, iid);
    var p := InstancePosition(v, iid);
    assert v == v[..p] + [v[p]] + v[p + 1..];
  }

  lemma WithResourcesMeans(v: StoreView, iid: Id, resources: seq<ResourceView>)
    requires AscendingStore(v) && HasInstance(v, iid)
    ensures InstanceView(iid, ResourcesIn(v, iid)) in v
    ensures forall x :: x in WithResources(v, iid, resources) <==>
      x == InstanceView(iid, resources) || (x in v && x.iid != iid)
  {
    InstancesInOrder(v, iid);
    var p, y := InstancePosition(v, iid), InstanceView(iid, resources);
    assert v == v[..p] + [v[p]] + v[p + 1..] && v[p := y] == v[..p] + [y] + v[p + 1..];
  }

  /** Afterwards that Resource Instance holds the data, and the others are as they were. */
  lemma WithValueMeans(r: seq<ResourceView>, riid: Id, data: Bytes)
    requires AscendingResources(r)
    ensures forall x :: x in WithValue(r, riid, data) <==> x == ResourceView(riid, data) || (x in r && x.riid != riid)
    ensures HasResource(r, riid) <==> exists x :: x in r && x.riid == riid
    ensures HasResource(r, riid) ==> ResourceView(riid, DataAt(r, riid)) in r
  {
    PositionInOrder(r, riid);
    var p, y := ResourcePosition(r, riid), ResourceView(riid, data);
    assert r == r[..p] + r[p..];
    if HasResource(r, riid) {
      assert r == r[..p] + [r[p]] + r[p + 1..] && r[p := y] == r[..p] + [y] + r[p + 1..];
      forall i | 0 <= i < |r| && i != p
        ensures r[i].riid != riid
      {
        assert i < p ==> r[i].riid < r[p].riid;
      }
    }
  }

  lemma {:induction false} SameResource(r: seq<ResourceView>, riid: Id, data: Bytes)
    requires AscendingResources(r)
    ensures HasResource(WithValue(r, riid, data), riid) && DataAt(WithValue(r, riid, data), riid) == data
  {
    PositionInOrder(r, riid);
    ResourcePositionIs(WithValue(r, riid, data), riid, ResourcePosition(r, riid));
  }

  lemma MoreNodes(list: seq<Instance>, v: StoreView, nodes: set<object>, more: set<object>)
    requires ShowsAll(list, v, nodes) && nodes <= more
    ensures ShowsAll(list, v, more)
  {
    forall i | 0 <= i < |v|
      ensures Shows(list[i], v[i], more)
    {
      assert Shows(list[i], v[i], nodes);
      forall j | 0 <= j < |v[i].resources|
        ensures ShowsResource(list[i], list[i].dataList[j], v[i].resources[j], more)
      {
        assert ShowsResource(list[i], list[i].dataList[j], v[i].resources[j], nodes);
      }
    }
  }

  lemma AppendShows(list: seq<Instance>, v: StoreView, nodes: set<object>,
                    inst: Instance, one: InstanceView, more: set<object>)
    requires ShowsAll(list, v, nodes) && Shows(inst, one, more) && AscendingStore(v + [one])
    ensures ShowsAll(list + [inst], v + [one], nodes + more)
  {
    MoreNodes(list, v, nodes, nodes + more);
    MoreNodes([inst], [one], more, nodes + more);
    assert Shows([inst][0], [one][0], nodes + more);
  }

  lemma UpdateTwice(v: StoreView, k: nat, a: InstanceView, b: InstanceView)
    requires k < |v|
    ensures v[k := a][k := b] == v[k := b]
    ensures a == v[k] ==> v[k := a] == v
  {}

  lemma ReplaceInserted<T>(v: seq<T>, n: nat, x: T, y: T)
    requires n <= |v|
    ensures var e := v[..n] + [x] + v[n..];
      e[n := y] == v[..n] + [y] + v[n..] && e[..n] + e[n + 1..] == v
  {
    var e := v[..n] + [x] + v[n..];
    assert e[n := y] == v[..n] + [y] + v[n..];
    assert e[..n] + e[n + 1..] == v;
  }

  /** An empty value at its position can be filled in, and taking it out again undoes it. */
  lemma WrittenAt(v: seq<ResourceView>, riid: Id, data: Bytes)
    requires !HasResource(v, riid)
    ensures var e, n := WithValue(v, riid, []), ResourcePosition(v, riid);
      && n < |e| && e[n].riid == riid
      && e[n := ResourceView(riid, data)] == WithValue(v, riid, data)
      && e[..n] + e[n + 1..] == v
  {
    ReplaceInserted(v, ResourcePosition(v, riid), ResourceView(riid, []), ResourceView(riid, data));
  }

  ghost function AfterWrite(was: seq<ResourceView>, riid: Id, result: int, payload: Bytes): seq<ResourceView> {
    if result == OK then WithValue(was, riid, payload)
    else if HasResource(was, riid) then WithValue(was, riid, [])
    else was
  }

  lemma InsertedAscending(v: seq<ResourceView>, n: nat, r: ResourceView)
    requires AscendingResources(v) && n <= |v|
    requires forall i :: 0 <= i < n ==> v[i].riid < r.riid
    requires forall i :: n <= i < |v| ==> r.riid < v[i].riid
    ensures AscendingResources(v[..n] + [r] + v[n..])
  {}

  lemma {:induction false} PositionInOrder(v: seq<ResourceView>, riid: Id)
    requires AscendingResources(v)
    ensures forall i :: 0 <= i < ResourcePosition(v, riid) ==> v[i].riid < riid
    ensures forall i :: ResourcePosition(v, riid) <= i < |v| ==> v[i].riid >= riid
    ensures !HasResource(v, riid) ==> forall i :: ResourcePosition(v, riid) <= i < |v| ==> v[i].riid > riid
  {
    if v == [] || v[0].riid >= riid {
    } else {
      PositionInOrder(v[1..], riid);
    }
  }

  const RID_DATA: Id := 0

  ghost function DataAt(r: seq<ResourceView>, riid: Id): Bytes
    requires HasResource(r, riid)
  {
    r[ResourcePosition(r, riid)].data
  }

  lemma InsertShows(list: seq<Instance>, v: StoreView, nodes: set<object>, k: nat, created: Instance)
    requires ShowsAll(list, v, nodes) && k <= |list| && created.dataList == []
    requires forall i :: 0 <= i < k ==> v[i].iid < created.iid
    requires k < |v| ==> created.iid < v[k].iid
    ensures ShowsAll(list[..k] + [created] + list[k..],
                     v[..k] + [InstanceView(created.iid, [])] + v[k..], nodes + {created})
  {
    MoreNodes(list, v, nodes, nodes + {created});
  }

  lemma RemoveShows(list: seq<Instance>, v: StoreView, nodes: set<object>, k: nat)
    requires ShowsAll(list, v, nodes) && k < |list|
    ensures ShowsAll(list[..k] + list[k + 1..], v[..k] + v[k + 1..], nodes)
  {}

  lemma AbsentMeansStrict(v: StoreView, iid: Id, k: nat)
    requires !HasInstance(v, iid) && k <= |v|
    requires forall i, j :: 0 <= i < j < |v| ==> v[i].iid < v[j].iid
    requires forall i :: 0 <= i < k ==> v[i].iid <= iid
    requires k < |v| ==> v[k].iid > iid
    ensures forall i :: 0 <= i < k ==> v[i].iid < iid
    ensures InstancePosition(v, iid) == k
  {
    if k > 0 && v[k - 1].iid == iid {
      InstancePositionIs(v, iid, k - 1);
    } else {
      InstancePositionIs(v, iid, k);
    }
  }

  /** The payload is not too long, and the end is announced before the buffer has to be refilled. */
  predicate Fits(payload: Bytes, late: bool, breaks: bool) {
    !breaks && (|payload| < MAX_BINARY_DATA_SIZE || (|payload| == MAX_BINARY_DATA_SIZE && !late))
  }

  predicate Arrives(input: InputContext)
    reads input
  {
    Fits(input.rest, input.late, input.BreaksWithin(MAX_BINARY_DATA_SIZE))
  }

  /** At most 1024 bytes arrive, and fewer do if the context does not fail. */
  lemma ArrivesMeans(input: InputContext)
    ensures Arrives(input) ==> |input.rest| <= 1024 && (input.late ==> |input.rest| < 1024)
    ensures |input.rest| < 1024 && input.failsAfter == None ==> Arrives(input)
    ensures |input.rest| == 1024 && input.failsAfter == None && !input.late ==> Arrives(input)
  {
  }

  // ----- The container -----

  class Container {
    var instances: seq<Instance>
    var savedInstances: seq<Instance>

    /** The two stores as values, and the nodes they are made of: never the same nodes. */
    ghost var view: StoreView
    ghost var savedView: StoreView
    ghost var live: set<object>
    ghost var saved: set<object>

    constructor ()
      ensures Valid() && view == [] && savedView == [] && fresh(live)
    {
      instances, savedInstances, view, savedView, live, saved := [], [], [], [], {}, {};
    }

    ghost predicate Valid()
      reads this, live, saved
    {
      && this !in live && this !in saved && live !! saved
      && ShowsAll(instances, view, live)
      && ShowsAll(savedInstances, savedView, saved)
    }

    /** The early exit is exact: null means that there is no such Instance. */
    method FindInstance(iid: Id) returns (inst: Instance?, ghost k: nat)
      requires Valid()
      ensures inst == null <==> !HasInstance(view, iid)
      ensures inst != null ==> k < |view| && inst == instances[k] && k == InstancePosition(view, iid)
    {
      k := 0;
      var n: nat := 0;
      while n < |instances|
        invariant k == n <= |instances|
        invariant forall j :: 0 <= j < n ==> view[j].iid < iid
      {
        assert Shows(instances[n], view[n], live);
        if instances[n].iid == iid {
          InstancePositionIs(view, iid, n);
          return instances[n], n;
        } else if instances[n].iid > iid {
          break;
        }
        n, k := n + 1, k + 1;
      }
      InstancePositionIs(view, iid, n);
      return null, k;
    }

    method InstanceCreate(iid: Id, memory: bool) returns (result: int)
      requires Valid() && !HasInstance(view, iid) && iid != ID_INVALID
      modifies this`instances, this`view, this`live
      ensures Valid() && fresh(live - old(live))
      ensures result == OK <==> memory
      ensures view == if result == OK then Created(old(view), iid) else old(view)
    {
      if !memory {
        return ERR_INTERNAL;
      }
      var created := new Instance(iid);
      var k: nat := 0;
      while k < |instances|
        invariant k <= |instances| && instances == old(instances)
        invariant forall j :: 0 <= j < k ==> view[j].iid <= iid
      {
        assert Shows(instances[k], view[k], live);
        if instances[k].iid > created.iid {
          break;
        }
        k := k + 1;
      }
      AbsentMeansStrict(view, iid, k);
      InsertShows(instances, view, live, k, created);
      instances := instances[..k] + [created] + instances[k..];
      view := view[..k] + [InstanceView(iid, [])] + view[k..];
      live := live + {created};
      return OK;
    }

    method InstanceRemove(iid: Id) returns (result: int)
      requires Valid()
      modifies this`instances, this`view
      ensures Valid()
      ensures result == OK <==> HasInstance(old(view), iid)
      ensures view == if result == OK then Removed(old(view), iid) else old(view)
    {
      var k: nat := 0;
      while k < |instances|
        invariant k <= |instances| && instances == old(instances) && view == old(view)
        invariant forall j :: 0 <= j < k ==> view[j].iid < iid
      {
        assert Shows(instances[k], view[k], live);
        if instances[k].iid == iid {
          InstancePositionIs(view, iid, k);
          RemoveShows(instances, view, live, k);
          instances := instances[..k] + instances[k + 1..];
          view := view[..k] + view[k + 1..];
          return OK;
        } else if instances[k].iid > iid {
          break;
        }
        k := k + 1;
      }
      InstancePositionIs(view, iid, k);
      return ERR_NOT_FOUND;
    }

    method InstanceReset(iid: Id) returns (result: int)
      requires Valid() && HasInstance(view, iid)
      modifies this`view, live
      ensures Valid()
      ensures result == OK && view == WithResources(old(view), iid, [])
    {
      var inst, k := FindInstance(iid);
      inst.dataList := [];
      view := view[k := InstanceView(iid, [])];
      return OK;
    }

    /** Only the data resource exists; resetting it empties it. */
    method ResourceReset(iid: Id, rid: Id) returns (result: int)
      requires Valid() && HasInstance(view, iid)
      modifies this`view, live
      ensures Valid()
      ensures result == OK <==> rid == RID_DATA
      ensures view == if result == OK then WithResources(old(view), iid, []) else old(view)
    {
      var inst, k := FindInstance(iid);
      if rid != RID_DATA {
        return ERR_METHOD_NOT_ALLOWED;
      }
      inst.dataList := [];
      view := view[k := InstanceView(iid, [])];
      return OK;
    }

    method ResourceRead(iid: Id, rid: Id, riid: Id) returns (result: int, data: Bytes)
      requires Valid() && HasInstance(view, iid)
      ensures result == OK <==> rid == RID_DATA && HasResource(ResourcesIn(view, iid), riid)
      ensures result == OK ==> data == DataAt(ResourcesIn(view, iid), riid)
    {
      var inst, k := FindInstance(iid);
      if rid != RID_DATA {
        return ERR_METHOD_NOT_ALLOWED, [];
      }
      var n: nat := 0;
      while n < |inst.dataList|
        invariant n <= |inst.dataList|
        invariant forall j :: 0 <= j < n ==> view[k].resources[j].riid != riid
      {
        assert ShowsResource(inst, inst.dataList[n], view[k].resources[n], live);
        if inst.dataList[n].riid == riid {
          ResourcePositionIs(view[k].resources, riid, n);
          return OK, inst.dataList[n].data;
        }
        n := n + 1;
      }
      return ERR_NOT_FOUND, [];
    }

    /** The place of a Resource Instance in the list of the `k`th Instance. */
    method FindResource(inst: Instance, ghost k: nat, riid: Id) returns (n: nat)
      requires Valid() && k < |view| && inst == instances[k]
      ensures n == ResourcePosition(view[k].resources, riid) <= |inst.dataList| == |view[k].resources|
      ensures n < |inst.dataList| ==> inst.dataList[n].riid == view[k].resources[n].riid
    {
      n := 0;
      while n < |inst.dataList|
        invariant n <= |inst.dataList|
        invariant forall j :: 0 <= j < n ==> view[k].resources[j].riid < riid
      {
        assert ShowsResource(inst, inst.dataList[n], view[k].resources[n], live);
        if inst.dataList[n].riid >= riid {
          break;
        }
        n := n + 1;
      }
      ResourcePositionIs(view[k].resources, riid, n);
      assert n < |inst.dataList| ==> ShowsResource(inst, inst.dataList[n], view[k].resources[n], live);
    }

    /** Inserts an empty node before the `n`th. */
    method ResourceInstanceCreate(inst: Instance, ghost k: nat, n: nat, riid: Id)
      requires Valid() && k < |view| && inst == instances[k] && n <= |view[k].resources|
      requires n == ResourcePosition(view[k].resources, riid) && !HasResource(view[k].resources, riid)
      modifies this`view, this`live, inst
      ensures Valid() && live >= old(live) && fresh(live - old(live))
      ensures inst == instances[k] && inst.iid == old(view)[k].iid
      ensures view == old(view)[k := InstanceView(inst.iid, WithValue(old(view)[k].resources, riid, []))]
    {
      ghost var was := view[k].resources;
      PositionInOrder(was, riid);
      InsertedAscending(was, n, ResourceView(riid, []));
      var node := new ResourceInstance(riid, [], inst);
      MoreNodes(instances, view, live, live + {node});
      live := live + {node};
      InsertNode(inst, k, n, node);
    }

    method InsertNode(inst: Instance, ghost k: nat, n: nat, node: ResourceInstance)
      requires Valid() && k < |view| && inst == instances[k] && n <= |view[k].resources|
      requires node in live && node.owner == inst && node.data == []
      requires AscendingResources(view[k].resources[..n] + [ResourceView(node.riid, [])] + view[k].resources[n..])
      modifies this`view, inst
      ensures Valid() && inst.iid == old(view)[k].iid
      ensures var was := old(view)[k].resources;
        view == old(view)[k := InstanceView(inst.iid, was[..n] + [ResourceView(node.riid, [])] + was[n..])]
    {
      ghost var was, o := view[k].resources, inst.dataList;
      label Before:
      inst.dataList := inst.dataList[..n] + [node] + inst.dataList[n..];
      view := view[k := InstanceView(inst.iid, was[..n] + [ResourceView(node.riid, [])] + was[n..])];
      forall j | 0 <= j < |view[k].resources|
        ensures ShowsResource(inst, inst.dataList[j], view[k].resources[j], live)
      {
        if j != n {
          assert old@Before(ShowsResource(inst, o[if j < n then j else j - 1], was[if j < n then j else j - 1], live));
        }
      }
      forall i | 0 <= i < |view| && i != k
        ensures Shows(instances[i], view[i], live)
      {
        assert old@Before(Shows(instances[i], view[i], live));
      }
    }

    method ResourceInstanceDelete(inst: Instance, ghost k: nat, n: nat)
      requires Valid() && k < |view| && inst == instances[k] && n < |view[k].resources|
      modifies this`view, inst
      ensures Valid()
      ensures view == old(view)[k := InstanceView(inst.iid,
        old(view)[k].resources[..n] + old(view)[k].resources[n + 1..])]
    {
      ghost var was, o := view[k].resources, inst.dataList;
      label Before:
      inst.dataList := inst.dataList[..n] + inst.dataList[n + 1..];
      view := view[k := InstanceView(inst.iid, view[k].resources[..n] + view[k].resources[n + 1..])];
      forall j | 0 <= j < |view[k].resources|
        ensures ShowsResource(inst, inst.dataList[j], view[k].resources[j], live)
      {
        assert old@Before(ShowsResource(inst, o[if j < n then j else j + 1], was[if j < n then j else j + 1], live));
      }
      forall i | 0 <= i < |view| && i != k
        ensures Shows(instances[i], view[i], live)
      {
        assert old@Before(Shows(instances[i], view[i], live));
      }
    }

    method SetData(inst: Instance, ghost k: nat, n: nat, data: Bytes)
      requires Valid() && k < |view| && inst == instances[k] && n < |view[k].resources|
      modifies this`view, inst.dataList
      ensures Valid()
      ensures view == old(view)[k := InstanceView(inst.iid,
        old(view)[k].resources[n := ResourceView(old(view)[k].resources[n].riid, data)])]
    {
      assert ShowsResource(inst, inst.dataList[n], view[k].resources[n], live);
      label Before:
      inst.dataList[n].data := data;
      view := view[k := InstanceView(inst.iid,
        view[k].resources[n := ResourceView(view[k].resources[n].riid, data)])];
      forall j | 0 <= j < |view[k].resources| && j != n
        ensures ShowsResource(inst, inst.dataList[j], view[k].resources[j], live)
      {
        assert old@Before(ShowsResource(inst, inst.dataList[j], view[k].resources[j], live));
      }
      forall i | 0 <= i < |view| && i != k
        ensures Shows(instances[i], view[i], live)
      {
        assert old@Before(Shows(instances[i], view[i], live));
      }
    }

    /**
     Stores a payload of at most MAX_BINARY_DATA_SIZE bytes whose end is announced in time. On any
     failure a Resource Instance that did not exist still does not, and one that did is left empty.
     */
    method ResourceWrite(iid: Id, rid: Id, riid: Id, input: InputContext, memory: bool) returns (result: int)
      requires Valid() && HasInstance(view, iid) && input !in live && input !in saved
      modifies this`view, this`live, live, input
      ensures Valid() && live >= old(live) && fresh(live - old(live))
      ensures rid != RID_DATA ==> result != OK && view == old(view)
      ensures rid == RID_DATA ==>
        (result == OK <==> old(Arrives(input)) && (memory || HasResource(ResourcesIn(old(view), iid), riid)))
      ensures rid == RID_DATA ==>
        view == WithResources(old(view), iid, AfterWrite(ResourcesIn(old(view), iid), riid, result, old(input.rest)))
    {
      var inst, k := FindInstance(iid);
      if rid != RID_DATA {
        return ERR_METHOD_NOT_ALLOWED;
      }
      ghost var was := view[k].resources;
      var n := FindResource(inst, k, riid);
      var created := false;
      if n == |inst.dataList| || inst.dataList[n].riid != riid {
        if !memory {
          UpdateTwice(view, k, view[k], view[k]);
          return ERR_INTERNAL;
        }
        ResourceInstanceCreate(inst, k, n, riid);
        created := true;
      }
      if created {
        WrittenAt(was, riid, input.rest);
        WrittenAt(was, riid, []);
      }
      ghost var prepared := view[k];
      assert prepared.resources == if created then WithValue(was, riid, []) else was;
      result := Receive(inst, k, n, created, input);
      assert view[k] == InstanceView(iid, AfterWrite(was, riid, result, old(input.rest)));
      UpdateTwice(old(view), k, prepared, view[k]);
    }

    /** Reads the payload into the `n`th node, or undoes its creation, or leaves it empty. */
    method Receive(inst: Instance, ghost k: nat, n: nat, created: bool, input: InputContext) returns (result: int)
      requires Valid() && k < |view| && inst == instances[k] && n < |view[k].resources|
      requires input !in live && input !in saved
      modifies this`view, live, input
      ensures Valid()
      ensures result == OK <==> old(Arrives(input))
      ensures var was := old(view)[k].resources;
        view == old(view)[k := InstanceView(inst.iid,
          if result == OK then was[n := ResourceView(was[n].riid, old(input.rest))]
          else if created then was[..n] + was[n + 1..]
          else was[n := ResourceView(was[n].riid, [])])]
    {
      var buffer := new bv8[MAX_BINARY_DATA_SIZE];
      var r, length, finished := GetBytes(input, buffer);
      result := if r == OK && !finished then ERR_INTERNAL else r;
      if result == OK {
        ghost var payload := old(input.rest);
        assert payload == payload[..length] + payload[length..] == buffer[..length];
        SetData(inst, k, n, buffer[..length]);
      } else if created {
        ResourceInstanceDelete(inst, k, n);
      } else {
        SetData(inst, k, n, []);
      }
    }

    /** One Instance of the copy: new nodes at both levels, the same contents. */
    method CloneInstance(inst: Instance, ghost v: InstanceView) returns (clone: Instance, ghost nodes: set<object>)
      requires Valid() && Shows(inst, v, live)
      ensures fresh(nodes) && Shows(clone, v, nodes)
    {
      clone := new Instance(inst.iid);
      nodes := {clone};
      for j := 0 to |inst.dataList|
        invariant fresh(nodes) && clone in nodes && clone.iid == v.iid
        invariant |clone.dataList| == j && inst.dataList == old(inst.dataList)
        invariant forall i :: 0 <= i < j ==> ShowsResource(clone, clone.dataList[i], v.resources[i], nodes)
        invariant Valid() && Shows(inst, v, live)
      {
        assert ShowsResource(inst, inst.dataList[j], v.resources[j], live);
        var node := new ResourceInstance(inst.dataList[j].riid, inst.dataList[j].data, clone);
        clone.dataList := clone.dataList + [node];
        nodes := nodes + {node};
      }
    }

    /** Takes the copy. Running out of memory leaves the store as it was and no copy behind. */
    method TransactionBegin(memory: nat -> bool) returns (result: int)
      requires Valid() && savedInstances == []
      modifies this`savedInstances, this`savedView, this`saved
      ensures Valid()
      ensures result == OK <==> forall k: nat :: k < |view| ==> memory(k)
      ensures savedView == if result == OK then view else []
    {
      saved, savedView := {}, [];
      if instances == [] {
        return OK;
      }
      for k := 0 to |instances|
        invariant Valid() && fresh(saved)
        invariant savedView == view[..k] && forall j: nat :: j < k ==> memory(j)
      {
        if !memory(k) {
          savedInstances, savedView := [], [];
          return ERR_INTERNAL;
        }
        AppendClone(k);
      }
      return OK;
    }

    /** Copies the `k`th Instance to the end of the copy. */
    method AppendClone(k: nat)
      requires Valid() && k < |instances| && savedView == view[..k]
      modifies this`savedInstances, this`savedView, this`saved
      ensures Valid() && savedView == view[..k + 1]
      ensures saved >= old(saved) && fresh(saved - old(saved))
    {
      assert Shows(instances[k], view[k], live);
      ghost var nodes;
      var clone;
      clone, nodes := CloneInstance(instances[k], view[k]);
      AppendShows(savedInstances, savedView, saved, clone, view[k], nodes);
      assert view[..k + 1] == view[..k] + [view[k]];
      savedInstances := savedInstances + [clone];
      savedView := savedView + [view[k]];
      saved := saved + nodes;
    }

    method TransactionCommit() returns (result: int)
      requires Valid()
      modifies this`savedInstances, this`savedView
      ensures Valid() && result == OK && savedView == []
    {
      savedInstances, savedView := [], [];
      return OK;
    }

    /** The copy becomes the store. */
    method TransactionRollback() returns (result: int)
      requires Valid()
      modifies this`instances, this`savedInstances, this`view, this`savedView, this`live, this`saved
      ensures Valid() && result == OK && view == old(savedView) && savedView == []
      ensures live == old(saved)
    {
      instances, view, live := savedInstances, savedView, saved;
      savedInstances, savedView, saved := [], [], {};
      return OK;
    }
  }

  // ----- Whole transactions -----

  datatype Op =
    | Create(iid: Id)
    | Remove(iid: Id)
    | Reset(iid: Id)
    | Write(iid: Id, rid: Id, riid: Id, payload: Bytes, failsAfter: Option<nat>, late: bool)
    | ResetResource(iid: Id, rid: Id)

  /** What has been written is what is read. */
  method ReadBack(container: Container, iid: Id, riid: Id, payload: Bytes) returns (data: Bytes)
    requires container.Valid() && HasInstance(container.view, iid) && |payload| < 1024
    modifies container, container.live
    ensures container.Valid() && data == payload
  {
    var inst, k := container.FindInstance(iid);
    assert Shows(inst, container.view[k], container.live);
    ghost var was := ResourcesIn(container.view, iid);
    SameResource(was, riid, payload);
    WithResourcesMeans(container.view, iid, WithValue(was, riid, payload));
    var input := new InputContext(payload, None, false);
    var r := container.ResourceWrite(iid, 0, riid, input, true);
    InstancePositionIs(container.view, iid, k);
    r, data := container.ResourceRead(iid, 0, riid);
  }

  /** What a request makes of the store; one about an Instance that is not there changes nothing. */
  ghost function Effect(v: StoreView, op: Op, memory: bool): StoreView {
    if op.Create? then if HasInstance(v, op.iid) || op.iid == ID_INVALID || !memory then v else Created(v, op.iid)
    else if !HasInstance(v, op.iid) then v
    else match op
      case Remove(iid) => Removed(v, iid)
      case Reset(iid) => WithResources(v, iid, [])
      case ResetResource(iid, rid) => if rid == RID_DATA then WithResources(v, iid, []) else v
      case Write(iid, rid, riid, payload, failsAfter, late) =>
        var was := ResourcesIn(v, iid);
        var works := Fits(payload, late, failsAfter.Some? && Least(MAX_BINARY_DATA_SIZE, |payload|) >= failsAfter.value)
          && (memory || HasResource(was, riid));
        if rid == RID_DATA then WithResources(v, iid, AfterWrite(was, riid, if works then OK else ERR, payload)) else v
  }

  /** One request, as the data model core passes it on: it checks presence before it calls. */
  method Perform(container: Container, op: Op, memory: bool)
    requires container.Valid()
    modifies container, container.live
    ensures container.Valid() && fresh(container.live - old(container.live))
    ensures container.savedView == old(container.savedView)
    ensures container.view == Effect(old(container.view), op, memory)
  {
    var result: int;
    var inst, _ := container.FindInstance(op.iid);
    match op
    case Create(iid) =>
      if inst == null && iid != ID_INVALID {
        result := container.InstanceCreate(iid, memory);
      }
    case Remove(iid) =>
      result := container.InstanceRemove(iid);
    case Reset(iid) =>
      if inst != null {
        result := container.InstanceReset(iid);
      }
    case Write(iid, rid, riid, payload, failsAfter, late) =>
      if inst != null {
        var input := new InputContext(payload, failsAfter, late);
        result := container.ResourceWrite(iid, rid, riid, input, memory);
      }
    case ResetResource(iid, rid) =>
      if inst != null {
        result := container.ResourceReset(iid, rid);
      }
  }

  /**
   Begin, any requests whatsoever with whatever results, roll back: the store is exactly what it
   was, at both levels, down to the last byte.
   */
  method TransactionRolledBack(container: Container, ops: seq<Op>, copies: nat -> bool, memory: nat -> bool)
    returns (begun: bool)
    requires container.Valid() && container.savedInstances == []
    modifies container, container.live
    ensures container.Valid()
    ensures begun <==> forall k: nat :: k < |old(container.view)| ==> copies(k)
    ensures container.view == old(container.view) && container.savedView == []
  {
    var result := container.TransactionBegin(copies);
    if result != OK {
      return false;
    }
    for i := 0 to |ops|
      invariant container.Valid() && fresh(container.live - old(container.live))
      invariant container.savedView == old(container.view)
    {
      Perform(container, ops[i], memory(i));
    }
    result := container.TransactionRollback();
    return true;
  }
}

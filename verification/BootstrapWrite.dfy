/**
 Bootstrap Write: creating Instances on demand and writing to them, on behalf of the Bootstrap
 Server. What a successful write creates is exactly what it reports as created.
 */
module BootstrapWrite {
  import opened Ids
  import opened Instances
  import opened DataModel
  import opened NotifyQueue
  import opened BootstrapDelete

  /**
   One entry of the payload: an Instance, or a Resource of it. `check` is what comes of checking
   whether the Resource is supported and may be written when its turn comes, or without a Resource,
   of skipping the entry.
   */
  datatype Entry = Entry(iid: Id, rid: Option<Id>, check: int)

  /** The entries in order, and what comes after them: the end, or something that cannot be read. */
  datatype Payload = Payload(entries: seq<Entry>, tail: int)

  /** What a Bootstrap Write is about. */
  datatype WriteTarget =
    | NoObject
    | WholeObject(oid: Id)
    | WholeInstance(oid: Id, iid: Id)
    | AResource(oid: Id, iid: Id, rid: Id)
    | TooDeep

  /** Errors that a write to several Resources passes over, because the Resource is optional. */
  predicate Ignorable(r: int) { r == ERR_NOT_FOUND || r == ERR_NOT_IMPLEMENTED }

  /**
   Instances only come into being, and those that do are reported; those reported before stay so.
   */
  ghost predicate Grown(before: seq<Inst>, after: seq<Inst>, was: ObjectEntry, now: ObjectEntry) {
    && (forall i :: Has(before, i) ==> Has(after, i))
    && (forall i: Id :: i in now.knownAdded <==> i in was.knownAdded || (Has(after, i) && !Has(before, i)))
    && (was.instanceSetChanged ==> now.instanceSetChanged)
    && (forall i: Id :: Has(after, i) && !Has(before, i) ==> now.instanceSetChanged)
  }

  lemma GrownTwice(a: seq<Inst>, b: seq<Inst>, c: seq<Inst>, w: ObjectEntry, x: ObjectEntry, y: ObjectEntry)
    requires Grown(a, b, w, x) && Grown(b, c, x, y)
    ensures Grown(a, c, w, y)
  {
  }

  /** Same Instances, and nothing new reported about which there are. */
  ghost predicate SameSet(before: seq<Inst>, after: seq<Inst>, was: ObjectEntry, now: ObjectEntry) {
    && (forall i :: Has(after, i) <==> Has(before, i))
    && now.knownAdded == was.knownAdded && now.instanceSetChanged == was.instanceSetChanged
  }

  /** Nothing reported is forgotten; what is reported on top of it is about these Instances. */
  ghost predicate Reports(was: ObjectEntry, now: ObjectEntry, iids: set<Id>) {
    && (was.instanceSetChanged ==> now.instanceSetChanged)
    && (forall i :: i in was.knownAdded ==> i in now.knownAdded)
    && (forall i :: i in now.knownAdded ==> i in was.knownAdded || i in iids)
    && (forall e :: e in was.resourcesChanged ==> e in now.resourcesChanged)
    && (forall e :: e in now.resourcesChanged ==> e in was.resourcesChanged || e.iid in iids)
  }

  ghost predicate IsReported(e: ObjectEntry, iid: Id, rid: Id) {
    ResourceEntry(iid, rid) in e.resourcesChanged
  }

  /** Of the entries from `i` to `j`, every Resource that passes its check is reported. */
  ghost predicate AllReported(entries: seq<Entry>, i: nat, j: nat, e: ObjectEntry) {
    && i <= j <= |entries|
    && forall k :: i <= k < j && entries[k].rid.Some? && entries[k].check == OK ==>
        IsReported(e, entries[k].iid, entries[k].rid.value)
  }

  lemma AllReportedTwice(entries: seq<Entry>, i: nat, j: nat, k: nat, e: ObjectEntry, e': ObjectEntry, iids: set<Id>)
    requires AllReported(entries, i, j, e) && Reports(e, e', iids) && AllReported(entries, j, k, e')
    ensures AllReported(entries, i, k, e')
  {
    forall n | i <= n < j && entries[n].rid.Some? && entries[n].check == OK
      ensures IsReported(e', entries[n].iid, entries[n].rid.value)
    {
      assert IsReported(e, entries[n].iid, entries[n].rid.value);
    }
  }

  /** The entries from `i` to `j` are about one Instance. */
  ghost predicate AllOf(entries: seq<Entry>, i: nat, j: nat, iid: Id) {
    i <= j <= |entries| && forall k :: i <= k < j ==> entries[k].iid == iid
  }

  lemma ReportsTwice(a: ObjectEntry, b: ObjectEntry, c: ObjectEntry, iids: set<Id>, more: set<Id>)
    requires Reports(a, b, iids) && Reports(b, c, more)
    ensures Reports(a, c, iids + more)
  {
  }

  /** Nothing keeps an application's Object from being written to. */
  predicate CanWrite(dm: Dm, oid: Id) {
    dm.Works(oid) && oid != OID_ACCESS_CONTROL
  }

  /** The entry can be written, or it is passed over: a Resource that is missing (4.04) or not supported (5.01). */
  predicate Fine(e: Entry) {
    e.check == 0 || e.check == -0x84 || e.check == -0xA1
  }

  ghost predicate AllFine(payload: Payload) {
    payload.tail == 0 && forall k :: 0 <= k < |payload.entries| ==> Fine(payload.entries[k])
  }

  /** The first entry is for the Resource, and it can be written. */
  ghost predicate SingleFine(entries: seq<Entry>, i: nat, iid: Id, rid: Id) {
    i < |entries| && entries[i] == Entry(iid, Some(rid), 0)
  }

  lemma ReportsMore(a: ObjectEntry, b: ObjectEntry, c: ObjectEntry, iids: set<Id>, iid: Id)
    requires Reports(a, b, iids) && Reports(b, c, {iid}) && iid in iids
    ensures Reports(a, c, iids)
  {
    ReportsTwice(a, b, c, iids, {iid});
    assert iids + {iid} == iids;
  }

  ghost predicate OnlyAbout(before: Objects, after: Objects, q: seq<ObjectEntry>, q': seq<ObjectEntry>, oid: Id) {
    OnlyObject(before, after, oid) && OthersUnchanged(q, q', oid)
  }

  /**
   Writes a Resource. One that the Object does not support, or that must not be written, is found
   out beforehand; a handler that fails may have changed its Object.
   */
  method WriteResource(dm: Dm, queue: Queue, oid: Id, iid: Id, rid: Id, check: int) returns (r: int)
    requires Ready(dm, queue) && oid in dm.objs && (oid !in dm.partial ==> Has(dm.objs[oid], iid))
    modifies dm`objs, dm`saved, dm`needsValidation, queue
    ensures Ready(dm, queue) && OnlyAbout(old(dm.objs), dm.objs, old(queue.entries), queue.entries, oid)
    ensures Reports(About(old(queue.entries), oid), About(queue.entries, oid), {iid})
    ensures r == OK || (Ignorable(r) && oid !in dm.partial) ==>
      SameSet(old(dm.objs)[oid], dm.objs[oid], About(old(queue.entries), oid), About(queue.entries, oid))
    ensures check != OK ==> r == check && dm.objs == old(dm.objs) && queue.entries == old(queue.entries)
    ensures r == OK || (Ignorable(r) && check == OK && oid !in dm.partial) ==> IsReported(About(queue.entries, oid), iid, rid)
    ensures CanWrite(dm, oid) ==> r == check
  {
    if check != OK {
      return check;
    }
    r := WriteSupported(dm, oid, iid);
    if r == OK {
      ghost var was := About(queue.entries, oid);
      queue.ResourceChange(oid, iid, rid);
      OneMoreReported(was, About(queue.entries, oid), iid, rid);
    }
  }

  lemma OneMoreReported(was: ObjectEntry, now: ObjectEntry, iid: Id, rid: Id)
    requires now == was.(resourcesChanged := now.resourcesChanged)
    requires forall e :: e in now.resourcesChanged <==> e in was.resourcesChanged || e == ResourceEntry(iid, rid)
    ensures Reports(was, now, {iid}) && ResourceEntry(iid, rid) in now.resourcesChanged
  {
  }

  method WriteSupported(dm: Dm, oid: Id, iid: Id) returns (r: int)
    requires dm.Valid() && dm.depth > 0 && oid in dm.objs && (oid !in dm.partial ==> Has(dm.objs[oid], iid))
    modifies dm`objs, dm`saved, dm`needsValidation
    ensures dm.Valid() && OnlyObject(old(dm.objs), dm.objs, oid)
    ensures oid !in dm.partial ==> !Ignorable(r)
    ensures r == OK ==> forall i :: Has(dm.objs[oid], i) <==> Has(old(dm.objs)[oid], i)
    ensures CanWrite(dm, oid) ==> r == OK
  {
    if oid == OID_ACCESS_CONTROL {
      var w: AcWrite := *;
      if !ValidWrite(w) {
        return ERR_BAD_REQUEST;
      }
      ghost var o := dm.objs;
      r := dm.AcResourceWrite(iid, w);
      if r == OK {
        WriteKeepsIds(o, dm.objs, iid, w);
      }
    } else {
      r := dm.WriteContents(oid, iid);
    }
  }

  lemma WriteKeepsIds(before: Objects, after: Objects, iid: Id, w: AcWrite)
    requires Replaces(before, after, iid, w)
    ensures OnlyObject(before, after, OID_ACCESS_CONTROL)
    ensures forall i :: Has(after[OID_ACCESS_CONTROL], i) <==> Has(before[OID_ACCESS_CONTROL], i)
  {
    var k: nat :| ReplacesAt(before, after, k, iid, w);
    var s := before[OID_ACCESS_CONTROL];
    ReplacedKeepsIds(s, k, Written(s[k], w).value);
  }

  method WriteEntry(dm: Dm, queue: Queue, oid: Id, entries: seq<Entry>, n: nat) returns (r: int)
    requires Ready(dm, queue) && oid in dm.objs && n < |entries|
    requires oid !in dm.partial ==> Has(dm.objs[oid], entries[n].iid)
    modifies dm`objs, dm`saved, dm`needsValidation, queue
    ensures Ready(dm, queue) && OnlyAbout(old(dm.objs), dm.objs, old(queue.entries), queue.entries, oid)
    ensures Reports(About(old(queue.entries), oid), About(queue.entries, oid), {entries[n].iid})
    ensures r == OK || (Ignorable(r) && oid !in dm.partial) ==>
      && SameSet(old(dm.objs)[oid], dm.objs[oid], About(old(queue.entries), oid), About(queue.entries, oid))
      && AllReported(entries, n, n + 1, About(queue.entries, oid))
    ensures r == OK && entries[n].rid.Some? ==> IsReported(About(queue.entries, oid), entries[n].iid, entries[n].rid.value)
    ensures CanWrite(dm, oid) ==> r == entries[n].check
  {
    var entry := entries[n];
    if entry.rid.Some? {
      r := WriteResource(dm, queue, oid, entry.iid, entry.rid.value, entry.check);
    } else {
      r := entry.check;
    }
  }

  /** The entries from `i` to `j`, all of one Instance, have been written; `exact` if no failure has been passed over. */
  ghost predicate WritingInto(before: Objects, now: Objects, q: seq<ObjectEntry>, q': seq<ObjectEntry>, oid: Id, iid: Id,
                              entries: seq<Entry>, i: nat, j: nat, exact: bool)
  {
    && OnlyAbout(before, now, q, q', oid) && oid in now && AllOf(entries, i, j, iid)
    && Reports(About(q, oid), About(q', oid), {iid})
    && (exact ==>
          && SameSet(before[oid], now[oid], About(q, oid), About(q', oid))
          && AllReported(entries, i, j, About(q', oid)) && Has(now[oid], iid))
  }

  /** Writes the entries of one Instance. Resources that are not supported are passed over. */
  method WriteInstanceInner(dm: Dm, queue: Queue, oid: Id, iid: Id, payload: Payload, i: nat) returns (r: int, j: nat)
    requires Ready(dm, queue) && oid in dm.objs && i <= |payload.entries|
    requires oid !in dm.partial ==> Has(dm.objs[oid], iid)
    modifies dm`objs, dm`saved, dm`needsValidation, queue
    ensures Ready(dm, queue)
    ensures WritingInto(old(dm.objs), dm.objs, old(queue.entries), queue.entries, oid, iid, payload.entries, i, j,
                        r == OK && oid !in dm.partial)
    ensures r == OK && j < |payload.entries| ==> payload.entries[j].iid != iid
    ensures CanWrite(dm, oid) && AllFine(payload) ==> r == OK
  {
    ghost var o, q := dm.objs, queue.entries;
    r, j := OK, i;
    while j < |payload.entries| && payload.entries[j].iid == iid
      invariant Ready(dm, queue)
      invariant WritingInto(o, dm.objs, q, queue.entries, oid, iid, payload.entries, i, j, oid !in dm.partial)
    {
      r := WriteNextEntry(dm, queue, oid, iid, payload.entries, i, j, o, q);
      j := j + 1;
      if r != OK && !Ignorable(r) {
        return;
      }
    }
    r := if j == |payload.entries| then payload.tail else OK;
  }

  method WriteNextEntry(dm: Dm, queue: Queue, oid: Id, iid: Id, entries: seq<Entry>, ghost i: nat, j: nat,
                        ghost o: Objects, ghost q: seq<ObjectEntry>)
    returns (r: int)
    requires Ready(dm, queue) && j < |entries| && entries[j].iid == iid
    requires WritingInto(o, dm.objs, q, queue.entries, oid, iid, entries, i, j, oid !in dm.partial)
    modifies dm`objs, dm`saved, dm`needsValidation, queue
    ensures Ready(dm, queue)
    ensures WritingInto(o, dm.objs, q, queue.entries, oid, iid, entries, i, j + 1,
                        (r == OK || Ignorable(r)) && oid !in dm.partial)
    ensures CanWrite(dm, oid) && Fine(entries[j]) ==> r == OK || Ignorable(r)
  {
    ghost var e := About(queue.entries, oid);
    r := WriteEntry(dm, queue, oid, entries, j);
    ReportsTwice(About(q, oid), e, About(queue.entries, oid), {iid}, {iid});
    if (r == OK || Ignorable(r)) && oid !in dm.partial {
      AllReportedTwice(entries, i, j, j + 1, e, About(queue.entries, oid), {iid});
    }
  }

  /**
   The callback of the above: all entries of the Instance, or a single Resource. An entry outside
   what is written to is refused by the reader.
   */
  method WriteInto(dm: Dm, queue: Queue, oid: Id, iid: Id, payload: Payload, i: nat, single: Option<Id>)
    returns (r: int, j: nat)
    requires Ready(dm, queue) && oid in dm.objs && i <= |payload.entries|
    requires oid !in dm.partial ==> Has(dm.objs[oid], iid)
    modifies dm`objs, dm`saved, dm`needsValidation, queue
    ensures Ready(dm, queue) && OnlyAbout(old(dm.objs), dm.objs, old(queue.entries), queue.entries, oid)
    ensures AllOf(payload.entries, i, j, iid)
    ensures r == OK && single.None? && j < |payload.entries| ==> payload.entries[j].iid != iid
    ensures Reports(About(old(queue.entries), oid), About(queue.entries, oid), {iid})
    ensures r == OK && oid !in dm.partial ==>
      && SameSet(old(dm.objs)[oid], dm.objs[oid], About(old(queue.entries), oid), About(queue.entries, oid))
      && AllReported(payload.entries, i, j, About(queue.entries, oid))
    ensures r == OK && single.Some? ==> IsReported(About(queue.entries, oid), iid, single.value)
    ensures CanWrite(dm, oid) && PartFine(payload, i, iid, single) ==> r == OK
  {
    if single.None? {
      r, j := WriteInstanceInner(dm, queue, oid, iid, payload, i);
    } else {
      if i == |payload.entries| || payload.entries[i].iid != iid || payload.entries[i].rid != single {
        return ERR_BAD_REQUEST, i;
      }
      r := WriteEntry(dm, queue, oid, payload.entries, i);
      j := i + 1;
    }
  }

  ghost predicate PartFine(payload: Payload, i: nat, iid: Id, single: Option<Id>) {
    if single.None? then AllFine(payload) else SingleFine(payload.entries, i, iid, single.value)
  }

  /**
   What a successful write to an Instance leaves: it is there, the Object has grown by it at most,
   and what was written to it is reported.
   */
  ghost predicate Wrote(before: seq<Inst>, after: seq<Inst>, was: ObjectEntry, now: ObjectEntry, iid: Id,
                        entries: seq<Entry>, i: nat, j: nat)
  {
    Has(after, iid) && Grown(before, after, was, now) && AllReported(entries, i, j, now)
  }

  /** Creates the Instance if it is not there, writes to it, and then reports what was created. */
  method WithInstanceOnDemand(dm: Dm, queue: Queue, oid: Id, iid: Id, payload: Payload, i: nat, single: Option<Id>)
    returns (r: int, j: nat)
    requires Ready(dm, queue) && oid in dm.objs && iid != ID_INVALID && i <= |payload.entries|
    modifies dm`objs, dm`saved, dm`needsValidation, queue
    ensures Ready(dm, queue) && OnlyAbout(old(dm.objs), dm.objs, old(queue.entries), queue.entries, oid)
    ensures AllOf(payload.entries, i, j, iid)
    ensures r == OK && single.None? && j < |payload.entries| ==> payload.entries[j].iid != iid
    ensures Reports(About(old(queue.entries), oid), About(queue.entries, oid), {iid})
    ensures r == OK && oid !in dm.partial ==>
      Wrote(old(dm.objs)[oid], dm.objs[oid], About(old(queue.entries), oid), About(queue.entries, oid), iid,
            payload.entries, i, j)
    ensures r == OK && single.Some? ==> IsReported(About(queue.entries, oid), iid, single.value)
    ensures CanWrite(dm, oid) && PartFine(payload, i, iid, single) ==> r == OK
  {
    j := i;
    var present := dm.InstancePresent(oid, iid);
    if present {
      r, j := WriteInto(dm, queue, oid, iid, payload, i, single);
    } else {
      r, j := CreateAndWrite(dm, queue, oid, iid, payload, i, single);
    }
  }

  method CreateAndWrite(dm: Dm, queue: Queue, oid: Id, iid: Id, payload: Payload, i: nat, single: Option<Id>)
    returns (r: int, j: nat)
    requires Ready(dm, queue) && oid in dm.objs && iid != ID_INVALID && i <= |payload.entries| && !Has(dm.objs[oid], iid)
    modifies dm`objs, dm`saved, dm`needsValidation, queue
    ensures Ready(dm, queue) && OnlyAbout(old(dm.objs), dm.objs, old(queue.entries), queue.entries, oid)
    ensures AllOf(payload.entries, i, j, iid)
    ensures r == OK && single.None? && j < |payload.entries| ==> payload.entries[j].iid != iid
    ensures Reports(About(old(queue.entries), oid), About(queue.entries, oid), {iid})
    ensures r == OK && oid !in dm.partial ==>
      Wrote(old(dm.objs)[oid], dm.objs[oid], About(old(queue.entries), oid), About(queue.entries, oid), iid,
            payload.entries, i, j)
    ensures r == OK && single.Some? ==> IsReported(About(queue.entries, oid), iid, single.value)
    ensures CanWrite(dm, oid) && PartFine(payload, i, iid, single) ==> r == OK
  {
    j := i;
    r := CreateBlank(dm, oid, iid);
    if r == OK {
      r, j := WriteInto(dm, queue, oid, iid, payload, i, single);
    }
    if r == OK {
      queue.InstanceCreated(oid, iid);
    }
  }

  method CreateBlank(dm: Dm, oid: Id, iid: Id) returns (r: int)
    requires dm.Valid() && dm.depth > 0 && oid in dm.objs && iid != ID_INVALID && !Has(dm.objs[oid], iid)
    modifies dm`objs, dm`saved, dm`needsValidation
    ensures dm.Valid() && OnlyObject(old(dm.objs), dm.objs, oid)
    ensures r == OK ==> Gained(old(dm.objs)[oid], dm.objs[oid], iid)
    ensures dm.Works(oid) ==> r == OK
  {
    var x;
    ghost var s := dm.objs[oid];
    r, x := dm.InstanceCreate(oid, iid);
    if r == OK {
      CreatedHas(s, x);
    }
  }

  /** One Instance has come in addition. */
  ghost predicate Gained(before: seq<Inst>, after: seq<Inst>, iid: Id) {
    forall i :: Has(after, i) <==> Has(before, i) || i == iid
  }

  lemma CreatedHas(s: seq<Inst>, x: Inst)
    ensures Gained(s, Inserted(s, x), x.iid)
  {
    InsertedMeans(s, x);
    var t := Inserted(s, x);
    forall i
      ensures Has(t, i) <==> Has(s, i) || i == x.iid
    {
      HasMeans(s, i);
      HasMeans(t, i);
      assert x in t;
    }
  }

  /** The Instances that the first `n` entries are about. */
  ghost function Named(entries: seq<Entry>, n: nat): (r: set<Id>)
    requires n <= |entries|
    ensures forall i :: i in r <==> exists k :: 0 <= k < n && entries[k].iid == i
  {
    set k | 0 <= k < n :: entries[k].iid
  }

  /** The Instances the first `n` entries are about are there, and what was written to them is reported. */
  ghost predicate WroteUpTo(before: seq<Inst>, after: seq<Inst>, was: ObjectEntry, now: ObjectEntry, entries: seq<Entry>,
                            n: nat)
  {
    && AllReported(entries, 0, n, now) && Grown(before, after, was, now)
    && forall k :: 0 <= k < n ==> Has(after, entries[k].iid)
  }

  lemma WroteMore(before: seq<Inst>, mid: seq<Inst>, after: seq<Inst>, was: ObjectEntry, e: ObjectEntry, now: ObjectEntry,
                  entries: seq<Entry>, i: nat, j: nat, iid: Id)
    requires WroteUpTo(before, mid, was, e, entries, i) && Reports(e, now, {iid})
    requires AllOf(entries, i, j, iid) && Wrote(mid, after, e, now, iid, entries, i, j)
    ensures WroteUpTo(before, after, was, now, entries, j)
  {
    GrownTwice(before, mid, after, was, e, now);
    AllReportedTwice(entries, 0, i, j, e, now, {iid});
  }

  ghost predicate NoneInvalid(entries: seq<Entry>) {
    forall k :: 0 <= k < |entries| ==> entries[k].iid != 0xFFFF
  }

  /** Writes Instance after Instance of an Object. */
  method WriteObject(dm: Dm, queue: Queue, oid: Id, payload: Payload) returns (r: int)
    requires Ready(dm, queue) && oid in dm.objs
    modifies dm`objs, dm`saved, dm`needsValidation, queue
    ensures Ready(dm, queue) && OnlyAbout(old(dm.objs), dm.objs, old(queue.entries), queue.entries, oid)
    ensures Reports(About(old(queue.entries), oid), About(queue.entries, oid), Named(payload.entries, |payload.entries|))
    ensures r == OK && oid !in dm.partial ==>
      WroteUpTo(old(dm.objs)[oid], dm.objs[oid], About(old(queue.entries), oid), About(queue.entries, oid),
                payload.entries, |payload.entries|)
    ensures CanWrite(dm, oid) && AllFine(payload) && NoneInvalid(payload.entries) ==> r == OK
  {
    var i: nat := 0;
    ghost var named := Named(payload.entries, |payload.entries|);
    while true
      invariant i <= |payload.entries| && Ready(dm, queue)
      invariant OnlyAbout(old(dm.objs), dm.objs, old(queue.entries), queue.entries, oid)
      invariant WritingObject(old(dm.objs)[oid], dm.objs[oid], About(old(queue.entries), oid), About(queue.entries, oid),
                              payload.entries, i, named, oid !in dm.partial)
      decreases |payload.entries| - i
    {
      if i == |payload.entries| {
        return payload.tail;
      }
      if payload.entries[i].iid == ID_INVALID {
        assert !NoneInvalid(payload.entries);
        return ERR_BAD_REQUEST;
      }
      r, i := WriteNext(dm, queue, oid, payload, i, old(dm.objs)[oid], About(old(queue.entries), oid), named);
      if r != OK {
        return;
      }
    }
  }

  /** So far the entries up to `n` have been written; `exact` if no failure has been passed over. */
  ghost predicate WritingObject(before: seq<Inst>, after: seq<Inst>, was: ObjectEntry, now: ObjectEntry, entries: seq<Entry>,
                                n: nat, named: set<Id>, exact: bool)
  {
    && n <= |entries| && Reports(was, now, named)
    && (exact ==> WroteUpTo(before, after, was, now, entries, n))
  }

  lemma NextWritten(before: seq<Inst>, s: seq<Inst>, t: seq<Inst>, was: ObjectEntry, e: ObjectEntry, e': ObjectEntry,
                    entries: seq<Entry>, i: nat, j: nat, named: set<Id>, ok: bool, exact: bool)
    requires i < |entries| && entries[i].iid in named && WritingObject(before, s, was, e, entries, i, named, exact)
    requires AllOf(entries, i, j, entries[i].iid) && Reports(e, e', {entries[i].iid})
    requires ok && j < |entries| ==> entries[j].iid != entries[i].iid
    requires ok && exact ==> Wrote(s, t, e, e', entries[i].iid, entries, i, j)
    ensures WritingObject(before, t, was, e', entries, j, named, ok && exact) && (ok ==> i < j)
  {
    ReportsMore(was, e, e', named, entries[i].iid);
    if ok && exact {
      WroteMore(before, s, t, was, e, e', entries, i, j, entries[i].iid);
    }
  }

  method WriteNext(dm: Dm, queue: Queue, oid: Id, payload: Payload, i: nat, ghost before: seq<Inst>, ghost was: ObjectEntry,
                   ghost named: set<Id>)
    returns (r: int, j: nat)
    requires Ready(dm, queue) && oid in dm.objs && i < |payload.entries| && payload.entries[i].iid != ID_INVALID
    requires payload.entries[i].iid in named
    requires WritingObject(before, dm.objs[oid], was, About(queue.entries, oid), payload.entries, i, named, oid !in dm.partial)
    modifies dm`objs, dm`saved, dm`needsValidation, queue
    ensures Ready(dm, queue) && OnlyAbout(old(dm.objs), dm.objs, old(queue.entries), queue.entries, oid)
    ensures WritingObject(before, dm.objs[oid], was, About(queue.entries, oid), payload.entries, j, named,
                          r == OK && oid !in dm.partial)
    ensures r == OK ==> i < j
    ensures CanWrite(dm, oid) && PartFine(payload, i, payload.entries[i].iid, None) ==> r == OK
  {
    ghost var s, e := dm.objs[oid], About(queue.entries, oid);
    r, j := WithInstanceOnDemand(dm, queue, oid, payload.entries[i].iid, payload, i, None);
    NextWritten(before, s, dm.objs[oid], was, e, About(queue.entries, oid), payload.entries, i, j, named, r == OK,
                oid !in dm.partial);
  }

  // ----- The whole -----

  predicate IsAccount(x: Inst) { OwnAccount(OID_SECURITY, x) }

  ghost predicate OneAccount(s: seq<Inst>) {
    forall i, j :: 0 <= i < j < |s| ==> !(s[i].Security? && s[i].bootstrap && s[j].Security? && s[j].bootstrap)
  }

  /** Stops counting the Bootstrap Server's accounts at the second one. */
  method HasMultipleBootstrapAccounts(dm: Dm) returns (b: bool)
    requires dm.Valid() && OID_SECURITY in dm.objs
    ensures b <==> !OneAccount(dm.objs[OID_SECURITY])
  {
    var s := dm.objs[OID_SECURITY];
    var count: nat := 0;
    ghost var first: nat := 0;
    var i: nat := 0;
    while i < |s|
      invariant i <= |s| && count <= 1
      invariant count == 0 ==> forall j :: 0 <= j < i ==> !IsAccount(s[j])
      invariant count == 1 ==> first < i && IsAccount(s[first])
      invariant count == 1 ==> forall j :: 0 <= j < i && j != first ==> !IsAccount(s[j])
    {
      if IsAccount(s[i]) {
        count := count + 1;
        if count > 1 {
          return true;
        }
        first := i;
      }
      i := i + 1;
    }
    b := false;
  }

  predicate Writable(target: WriteTarget) { !target.NoObject? && !target.TooDeep? }

  /** The Instances a Bootstrap Write is about. */
  ghost function AboutInstances(target: WriteTarget, payload: Payload): set<Id>
    requires Writable(target)
  {
    if target.WholeObject? then Named(payload.entries, |payload.entries|) else {target.iid}
  }

  /** How many entries there are before the first one about another Instance. */
  ghost function Leading(entries: seq<Entry>, iid: Id): (n: nat)
    ensures n <= |entries|
  {
    if entries == [] || entries[0].iid != iid then 0 else 1 + Leading(entries[1..], iid)
  }

  lemma {:induction false} LeadingEndsThere(entries: seq<Entry>, iid: Id, n: nat)
    requires AllOf(entries, 0, n, iid) && (n < |entries| ==> entries[n].iid != iid)
    ensures Leading(entries, iid) == n
  {
    if n == 0 {
    } else {
      LeadingEndsThere(entries[1..], iid, n - 1);
    }
  }

  /**
   What a successful Bootstrap Write has done. A single Resource is reported in any case; the rest
   holds for Objects whose writes never end in 4.04 or 5.01.
   */
  ghost predicate WriteDone(target: WriteTarget, payload: Payload, partial: set<Id>, before: Objects, after: Objects,
                            q: seq<ObjectEntry>, q': seq<ObjectEntry>)
    requires Writable(target)
  {
    && target.oid in before && target.oid in after
    && (target.oid == OID_SECURITY ==> OneAccount(after[OID_SECURITY]))
    && (target.AResource? ==> IsReported(About(q', target.oid), target.iid, target.rid))
    && (target.oid !in partial ==>
          WrittenThrough(target, payload.entries, before[target.oid], after[target.oid],
                         About(q, target.oid), About(q', target.oid)))
  }

  /** The Instances written to are there, no others are new, and what was written to them is reported. */
  ghost predicate WrittenThrough(target: WriteTarget, entries: seq<Entry>, before: seq<Inst>, after: seq<Inst>,
                                 was: ObjectEntry, now: ObjectEntry)
    requires Writable(target)
  {
    if target.WholeObject? then WroteUpTo(before, after, was, now, entries, |entries|)
    else if target.WholeInstance? then
      Wrote(before, after, was, now, target.iid, entries, 0, Leading(entries, target.iid))
    else Has(after, target.iid) && Grown(before, after, was, now)
  }

  /** Nothing keeps the write from working, but that there must not be two accounts of the Bootstrap Server. */
  ghost predicate WillWrite(dm: Dm, target: WriteTarget, payload: Payload, oids: set<Id>) {
    match target
    case WholeObject(oid) => oid in oids && CanWrite(dm, oid) && AllFine(payload) && NoneInvalid(payload.entries)
    case WholeInstance(oid, _) => oid in oids && CanWrite(dm, oid) && AllFine(payload)
    case AResource(oid, iid, rid) => oid in oids && CanWrite(dm, oid) && SingleFine(payload.entries, 0, iid, rid)
    case _ => false
  }

  /**
   Carries out a Bootstrap Write. Whatever comes of it, other Objects are left alone, and what is
   reported on top is about the Instances written to. If it succeeds, the Object has grown by
   exactly the Instances reported as added, unless its write handlers may fail in a way that is
   passed over; and a write to the Security object leaves the Bootstrap Server one account at most.
   */
  method Write(dm: Dm, queue: Queue, target: WriteTarget, payload: Payload) returns (r: int)
    requires Ready(dm, queue) && Writable(target)
    requires (target.WholeInstance? || target.AResource?) ==> target.iid != ID_INVALID
    modifies dm`objs, dm`saved, dm`needsValidation, queue
    ensures Ready(dm, queue) && OnlyAbout(old(dm.objs), dm.objs, old(queue.entries), queue.entries, target.oid)
    ensures target.oid !in dm.objs ==> r == ERR_NOT_FOUND
    ensures Reports(About(old(queue.entries), target.oid), About(queue.entries, target.oid), AboutInstances(target, payload))
    ensures r == OK ==> WriteDone(target, payload, dm.partial, old(dm.objs), dm.objs, old(queue.entries), queue.entries)
    ensures WillWrite(dm, target, payload, old(dm.objs).Keys) ==>
      (r == OK <==> (target.oid == 0 ==> OneAccount(dm.objs[0])))
  {
    if target.oid !in dm.objs {
      return ERR_NOT_FOUND;
    }
    r := WriteTo(dm, queue, target, payload);
    if r == OK && target.oid == OID_SECURITY {
      var multiple := HasMultipleBootstrapAccounts(dm);
      if multiple {
        r := ERR_BAD_REQUEST;
      }
    }
  }

  method WriteTo(dm: Dm, queue: Queue, target: WriteTarget, payload: Payload) returns (r: int)
    requires Ready(dm, queue) && Writable(target) && target.oid in dm.objs
    requires (target.WholeInstance? || target.AResource?) ==> target.iid != ID_INVALID
    modifies dm`objs, dm`saved, dm`needsValidation, queue
    ensures Ready(dm, queue) && OnlyAbout(old(dm.objs), dm.objs, old(queue.entries), queue.entries, target.oid)
    ensures Reports(About(old(queue.entries), target.oid), About(queue.entries, target.oid), AboutInstances(target, payload))
    ensures r == OK && target.AResource? ==> IsReported(About(queue.entries, target.oid), target.iid, target.rid)
    ensures r == OK && target.oid !in dm.partial ==>
      WrittenThrough(target, payload.entries, old(dm.objs)[target.oid], dm.objs[target.oid],
                     About(old(queue.entries), target.oid), About(queue.entries, target.oid))
    ensures WillWrite(dm, target, payload, old(dm.objs).Keys) ==> r == OK
  {
    var j;
    match target
    case WholeObject(oid) =>
      r := WriteObject(dm, queue, oid, payload);
    case WholeInstance(oid, iid) =>
      r, j := WithInstanceOnDemand(dm, queue, oid, iid, payload, 0, None);
      if r == OK {
        LeadingEndsThere(payload.entries, iid, j);
      }
    case AResource(oid, iid, rid) =>
      r, j := WithInstanceOnDemand(dm, queue, oid, iid, payload, 0, Some(rid));
  }
}

/**
 Keeping the demo's list of socket entries, and their poll entries in the I/O scheduler, in step
 with the sockets the library reports.

 One pass with a moving pointer: entries before the next reported socket are torn down, matching
 ones are kept, and sockets that are not found get new entries at the end.
 */
module SocketRefresh {
  import opened Ids
  import opened IoSched

  type Socket = int

  class SocketEntry {
    const socket: Socket
    const scheduled: Entry

    constructor (socket: Socket, scheduled: Entry)
      ensures this.socket == socket && this.scheduled == scheduled
    {
      this.socket, this.scheduled := socket, scheduled;
    }
  }

  const POLLIN: int := 1

  ghost function SocketsOf(list: seq<SocketEntry>): (r: seq<Socket>)
    ensures |r| == |list| && forall i :: 0 <= i < |r| ==> r[i] == list[i].socket
  {
    seq(|list|, i requires 0 <= i < |list| => list[i].socket)
  }

  /** The old entries that stay: those found going forward through the old list. */
  ghost function Survivors(o: seq<SocketEntry>, sockets: seq<Socket>): (r: seq<SocketEntry>)
    decreases |o|
    ensures |r| <= |sockets| && |r| <= |o|
  {
    if o == [] || sockets == [] then []
    else if o[0].socket == sockets[0] then [o[0]] + Survivors(o[1..], sockets[1..])
    else Survivors(o[1..], sockets)
  }

  /**
   What a creation depends on: the system descriptor of each socket, and whether there is memory
   when it is a socket's turn.
   */
  datatype Env = Env(system: Socket -> Option<int>, memory: nat -> bool)

  predicate Creatable(env: Env, sockets: seq<Socket>, n: nat)
    requires n < |sockets|
  {
    env.memory(n) && env.system(sockets[n]).Some? && env.system(sockets[n]).value != -1
  }

  ghost predicate AllCreatable(env: Env, sockets: seq<Socket>, from: nat) {
    forall n: nat :: from <= n < |sockets| ==>
      env.memory(n) && env.system(sockets[n]).Some? && env.system(sockets[n]).value != -1
  }

  /** The sockets from `a` to `b` whose entries could be created. */
  ghost function Created(env: Env, sockets: seq<Socket>, a: nat, b: nat): (r: seq<Socket>)
    requires b <= |sockets|
    ensures |r| <= if a <= b then b - a else 0
  {
    if b <= a then []
    else Created(env, sockets, a, b - 1) + if Creatable(env, sockets, b - 1) then [sockets[b - 1]] else []
  }

  /** The entries poll their sockets' own descriptors, for data to be read. */
  ghost predicate AllPoll(env: Env, added: seq<SocketEntry>) {
    forall e :: e in added ==> PollsSocket(env, e)
  }

  ghost predicate PollsSocket(env: Env, e: SocketEntry) {
    env.system(e.socket).Some? && e.scheduled.fd == env.system(e.socket).value && e.scheduled.events == 1
  }

  /**
   The scheduler holds one poll entry per socket entry and, besides, exactly the `others`, which
   belong to nobody in the list.
   */
  ghost predicate InStep(list: seq<SocketEntry>, entries: seq<Entry>, others: set<Entry>) {
    && (forall i :: 0 <= i < |list| ==> Owned(list[i].scheduled, entries, others))
    && (forall i, j :: 0 <= i < j < |list| ==> list[i].scheduled != list[j].scheduled)
    && (forall x :: x in entries ==> x in others || Listed(x, list))
  }

  ghost predicate Listed(x: Entry, list: seq<SocketEntry>) {
    exists i: nat :: i < |list| && list[i].scheduled == x
  }

  ghost predicate Owned(e: Entry, entries: seq<Entry>, others: set<Entry>) {
    e in entries && e !in others && e.kind == Poll && !e.hasFree
  }

  // ----- Other entries are left alone -----

  lemma {:induction false} RemoveKeepsOthers(s: seq<Entry>, x: Entry, others: set<Entry>)
    requires x !in others
    ensures Keep(Dropped(s, x), others) == Keep(s, others)
  {
    if s == [] {
    } else {
      RemoveKeepsOthers(s[1..], x, others);
    }
  }

  lemma {:induction false} SortedIsSplit(s: seq<Entry>)
    requires Sorted(s)
    ensures s == OfKind(s, Instant) + OfKind(s, Poll)
  {
    if s == [] {
    } else {
      if s[0].kind == Poll {
        SplitAt(s, 0);
      } else {
        SortedIsSplit(s[1..]);
      }
    }
  }

  lemma InsertKeepsOthers(s: seq<Entry>, x: Entry, others: set<Entry>)
    requires Sorted(s) && x !in others
    ensures Keep(OfKind(s, Instant) + [x] + OfKind(s, Poll), others) == Keep(s, others)
  {
    SortedIsSplit(s);
    var a, b := OfKind(s, Instant), OfKind(s, Poll);
    KeepAppend(a, b, others);
    KeepAppend(a, [x], others);
    KeepAppend(a + [x], b, others);
    assert Keep([x], others) == [];
  }

  lemma InsertInStep(list: seq<SocketEntry>, s: seq<Entry>, entry: SocketEntry, others: set<Entry>)
    requires Sorted(s) && InStep(list, s, others)
    requires entry.scheduled !in s && entry.scheduled !in others
    requires entry.scheduled.kind == Poll && !entry.scheduled.hasFree
    ensures InStep(list + [entry], OfKind(s, Instant) + [entry.scheduled] + OfKind(s, Poll), others)
  {
    var a, b, x, more := OfKind(s, Instant), OfKind(s, Poll), entry.scheduled, list + [entry];
    forall e | e in a + [x] + b
      ensures e in others || Listed(e, more)
    {
      if e == x {
        assert more[|list|].scheduled == x;
      } else if e !in others {
        assert e in s;
        var i: nat :| i < |list| && list[i].scheduled == e;
        assert more[i].scheduled == e;
      }
    }
    forall i | 0 <= i < |more|
      ensures Owned(more[i].scheduled, a + [x] + b, others)
    {
      assert i < |list| ==> Owned(list[i].scheduled, s, others);
    }
  }

  lemma RemoveInStep(list: seq<SocketEntry>, k: nat, entries: seq<Entry>, others: set<Entry>)
    requires k < |list| && InStep(list, entries, others)
    ensures InStep(list[..k] + list[k + 1..], Dropped(entries, list[k].scheduled), others)
  {
    var rest := list[..k] + list[k + 1..];
    forall x | x in Dropped(entries, list[k].scheduled)
      ensures x in others || Listed(x, rest)
    {
      if x !in others {
        var i: nat :| i < |list| && list[i].scheduled == x;
        assert list[i] == rest[if i < k then i else i - 1];
      }
    }
  }

  // ----- The pass over the lists -----

  /** How far the pass is: old entries dealt with, those kept, and new ones. */
  datatype Progress = Progress(q: nat, stay: seq<SocketEntry>, added: seq<SocketEntry>)

  /** The pass before socket `j`, with the pointer at `k`. */
  ghost predicate Pass(env: Env, o: seq<SocketEntry>, sockets: seq<Socket>, j: nat, now: seq<SocketEntry>, k: nat, g: Progress)
  {
    && |g.stay| <= j <= |sockets| && g.q <= |o|
    && now == g.stay + g.added + o[g.q..] && k == |g.stay| + |g.added|
    && (g.q < |o| ==> g.added == [] && |g.stay| == j)
    && Survivors(o, sockets) == g.stay + Survivors(o[g.q..], sockets[j..])
    && SocketsOf(g.added) == Created(env, sockets, |g.stay|, j)
    && AllPoll(env, g.added)
  }

  /** The same, with everything in step and the other entries as they were. */
  ghost predicate Passing(env: Env, o: seq<SocketEntry>, sockets: seq<Socket>, j: nat, now: seq<SocketEntry>, k: nat,
                          g: Progress, entries: seq<Entry>, freed: seq<Entry>, others: set<Entry>, kept: seq<Entry>,
                          freed': seq<Entry>, made: set<SocketEntry>)
  {
    && Sorted(entries) && Distinct(entries) && InStep(now, entries, others)
    && Keep(entries, others) == kept && freed == freed'
    && Pass(env, o, sockets, j, now, k, g) && AllIn(g.added, made)
  }

  ghost predicate AllIn(added: seq<SocketEntry>, made: set<SocketEntry>) {
    forall e :: e in added ==> e in made
  }

  /** Entries that are not the next socket's cannot survive. */
  lemma {:induction false} SurvivorsSkip(o: seq<SocketEntry>, sockets: seq<Socket>, n: nat)
    requires n <= |o|
    requires sockets != [] ==> forall i :: 0 <= i < n ==> o[i].socket != sockets[0]
    ensures Survivors(o, sockets) == Survivors(o[n..], sockets)
  {
    if n > 0 && sockets != [] {
      SurvivorsSkip(o[1..], sockets, n - 1);
      assert o[1..][n - 1..] == o[n..];
    } else {
      assert n == 0 ==> o[n..] == o;
    }
  }

  lemma PassTear(env: Env, o: seq<SocketEntry>, sockets: seq<Socket>, j: nat, now: seq<SocketEntry>, k: nat, g: Progress, n: nat)
    requires Pass(env, o, sockets, j, now, k, g) && j < |sockets| && k + n <= |now|
    requires forall i :: k <= i < k + n ==> now[i].socket != sockets[j]
    ensures Pass(env, o, sockets, j, now[..k] + now[k + n..], k, g.(q := g.q + n))
  {
    var q := g.q;
    forall i | 0 <= i < n
      ensures o[q..][i] == now[k + i]
    {
      assert now[k + i] == o[q + i];
    }
    SurvivorsSkip(o[q..], sockets[j..], n);
    assert o[q..][n..] == o[q + n..];
    assert now[..k] + now[k + n..] == g.stay + g.added + o[q + n..];
  }

  /** From the `k`th entry on, `n` entries have gone, none of them the socket's. */
  ghost predicate TornDown(o: seq<SocketEntry>, now: seq<SocketEntry>, k: nat, n: nat, socket: Option<Socket>) {
    && k + n <= |o| && now == o[..k] + o[k + n..]
    && forall i :: k <= i < k + n ==> Some(o[i].socket) != socket
  }

  lemma OneTornDown(o: seq<SocketEntry>, now: seq<SocketEntry>, k: nat, n: nat, socket: Option<Socket>)
    requires TornDown(o, now, k, n, socket) && k < |now| && Some(now[k].socket) != socket
    ensures TornDown(o, now[..k] + now[k + 1..], k, n + 1, socket)
  {
    assert now[k] == o[k + n];
  }

  lemma PassStart(env: Env, o: seq<SocketEntry>, sockets: seq<Socket>, entries: seq<Entry>, freed: seq<Entry>,
                  others: set<Entry>)
    requires Sorted(entries) && Distinct(entries) && InStep(o, entries, others)
    ensures Passing(env, o, sockets, 0, o, 0, Progress(0, [], []), entries, freed, others, Keep(entries, others), freed, {})
  {
    assert o[0..] == o && sockets[0..] == sockets;
    assert [] + [] + o[0..] == o;
  }

  lemma PassOver(env: Env, o: seq<SocketEntry>, sockets: seq<Socket>, now: seq<SocketEntry>, k: nat, g: Progress, n: nat)
    requires Pass(env, o, sockets, |sockets|, now, k, g)
    requires k + n == |now|
    ensures now[..k] + now[k + n..] == g.stay + g.added
    ensures g.stay == Survivors(o, sockets)
    ensures SocketsOf(g.added) == Created(env, sockets, |g.stay|, |sockets|)
    ensures AllPoll(env, g.added)
  {
    assert sockets[|sockets|..] == [];
    assert now == (g.stay + g.added) + o[g.q..];
  }

  lemma PassKeep(env: Env, o: seq<SocketEntry>, sockets: seq<Socket>, j: nat, now: seq<SocketEntry>, k: nat, g: Progress)
    requires Pass(env, o, sockets, j, now, k, g) && j < |sockets|
    requires k < |now| && now[k].socket == sockets[j]
    ensures g.q < |o|
    ensures Pass(env, o, sockets, j + 1, now, k + 1, g.(stay := g.stay + [o[g.q]], q := g.q + 1))
  {
    var q := g.q;
    assert now[k] == o[q];
    assert o[q..] == [o[q]] + o[q + 1..] && sockets[j..] == [sockets[j]] + sockets[j + 1..];
    assert g.stay + g.added + o[q..] == (g.stay + [o[q]]) + g.added + o[q + 1..];
  }

  lemma PassingKeep(env: Env, o: seq<SocketEntry>, sockets: seq<Socket>, j: nat, now: seq<SocketEntry>, k: nat,
                    g: Progress, entries: seq<Entry>, freed: seq<Entry>, others: set<Entry>, kept: seq<Entry>,
                    freed': seq<Entry>, made: set<SocketEntry>)
    returns (g': Progress)
    requires Passing(env, o, sockets, j, now, k, g, entries, freed, others, kept, freed', made)
    requires j < |sockets| && k < |now| && now[k].socket == sockets[j]
    ensures Passing(env, o, sockets, j + 1, now, k + 1, g', entries, freed, others, kept, freed', made)
  {
    PassKeep(env, o, sockets, j, now, k, g);
    g' := g.(stay := g.stay + [o[g.q]], q := g.q + 1);
  }

  lemma InsertedAtEnd<T>(s: seq<T>, k: nat, x: T)
    requires k == |s|
    ensures s[..k] + [x] + s[k..] == s + [x]
  {
  }

  lemma SocketsOfAppend(a: seq<SocketEntry>, b: seq<SocketEntry>)
    ensures SocketsOf(a + b) == SocketsOf(a) + SocketsOf(b)
  {
  }

  lemma PassAdd(env: Env, o: seq<SocketEntry>, sockets: seq<Socket>, j: nat, k: nat, now: seq<SocketEntry>, g: Progress,
                entry: SocketEntry?)
    requires j < |sockets| && (entry != null ==> entry.socket == sockets[j] && PollsSocket(env, entry))
    requires entry != null <==> Creatable(env, sockets, j)
    requires k == |now| && Pass(env, o, sockets, j, now, k, g)
    ensures entry == null ==> Pass(env, o, sockets, j + 1, now, k, g)
    ensures entry != null ==> Pass(env, o, sockets, j + 1, now + [entry], k + 1, g.(added := g.added + [entry]))
  {
    assert g.q == |o| && o[g.q..] == [];
    if entry != null {
      SocketsOfAppend(g.added, [entry]);
      assert now + [entry] == g.stay + (g.added + [entry]) + o[g.q..];
    }
  }

  // ----- The demo -----

  class Demo {
    const scheduler: Scheduler
    var socketEntries: seq<SocketEntry>

    constructor (scheduler: Scheduler)
      requires scheduler.Valid()
      ensures this.scheduler == scheduler && socketEntries == []
    {
      this.scheduler, socketEntries := scheduler, [];
    }

    ghost predicate Valid(others: set<Entry>)
      reads this, scheduler
    {
      scheduler.Valid() && InStep(socketEntries, scheduler.entries, others)
    }

    /** Nothing has happened to the scheduler's other entries, and nothing has been freed. */
    ghost predicate OthersKept(others: set<Entry>, entries: seq<Entry>, freed: seq<Entry>)
      reads scheduler
    {
      Keep(scheduler.entries, others) == Keep(entries, others) && scheduler.freed == freed
    }

    /** A socket entry together with its poll entry, or neither. */
    method CreateSocketEntry(socket: Socket, system: Option<int>, memory: bool, ghost others: set<Entry>)
      returns (entry: SocketEntry?)
      requires Valid(others)
      modifies scheduler`entries
      ensures scheduler.Valid() && Keep(scheduler.entries, others) == Keep(old(scheduler.entries), others)
      ensures entry != null <==> memory && system.Some? && system.value != -1
      ensures entry == null ==> scheduler.entries == old(scheduler.entries)
      ensures entry != null ==> fresh(entry) && fresh(entry.scheduled) && entry.socket == socket
      ensures entry != null ==> entry.scheduled.fd == system.value && entry.scheduled.events == 1
      ensures entry != null ==> InStep(socketEntries + [entry], scheduler.entries, others)
    {
      if !memory || system.None? {
        return null;
      }
      var scheduled := scheduler.PollEntryNew(system, POLLIN, true, false, memory);
      if scheduled == null {
        return null;
      }
      InsertKeepsOthers(old(scheduler.entries), scheduled, others);
      entry := new SocketEntry(socket, scheduled);
      InsertInStep(socketEntries, old(scheduler.entries), entry, others);
    }

    /** Takes the `k`th entry out of the scheduler and out of the list. */
    method TearDown(k: nat, ghost others: set<Entry>)
      requires Valid(others) && k < |socketEntries|
      modifies this`socketEntries, scheduler`entries, scheduler`freed
      ensures Valid(others) && OthersKept(others, old(scheduler.entries), old(scheduler.freed))
      ensures socketEntries == old(socketEntries)[..k] + old(socketEntries)[k + 1..]
    {
      var entry := socketEntries[k];
      RemoveKeepsOthers(scheduler.entries, entry.scheduled, others);
      RemoveInStep(socketEntries, k, scheduler.entries, others);
      scheduler.EntryRemove(entry.scheduled);
      socketEntries := socketEntries[..k] + socketEntries[k + 1..];
    }

    /** Tears down from the `k`th entry on, up to the entry of the given socket, or all. */
    method TearDownUntil(k: nat, socket: Option<Socket>, ghost others: set<Entry>) returns (ghost n: nat)
      requires Valid(others) && k <= |socketEntries|
      modifies this`socketEntries, scheduler`entries, scheduler`freed
      ensures Valid(others) && OthersKept(others, old(scheduler.entries), old(scheduler.freed))
      ensures k + n <= |old(socketEntries)|
      ensures socketEntries == old(socketEntries)[..k] + old(socketEntries)[k + n..]
      ensures forall i :: k <= i < k + n ==> Some(old(socketEntries)[i].socket) != socket
      ensures k + n < |old(socketEntries)| ==> Some(old(socketEntries)[k + n].socket) == socket
    {
      n := 0;
      ghost var o := socketEntries;
      assert o == o[..k] + o[k..];
      while k < |socketEntries| && Some(socketEntries[k].socket) != socket
        invariant Valid(others) && OthersKept(others, old(scheduler.entries), old(scheduler.freed))
        invariant TornDown(o, socketEntries, k, n, socket)
        decreases |socketEntries|
      {
        OneTornDown(o, socketEntries, k, n, socket);
        TearDown(k, others);
        n := n + 1;
      }
    }

    /**
     Brings the list in step with `sockets`. What stays are the survivors, as the very same
     objects; what follows are new entries for the remaining sockets, as far as they could be
     created. The scheduler ends up with exactly one poll entry per listed socket; all its other
     entries stay, in their order.
     */
    method Refresh(sockets: seq<Socket>, env: Env, ghost others: set<Entry>)
      returns (ghost stay: seq<SocketEntry>, ghost added: seq<SocketEntry>)
      requires Valid(others)
      modifies this`socketEntries, scheduler`entries, scheduler`freed
      ensures Valid(others) && OthersKept(others, old(scheduler.entries), old(scheduler.freed))
      ensures stay == Survivors(old(socketEntries), sockets) && socketEntries == stay + added
      ensures SocketsOf(added) == Created(env, sockets, |stay|, |sockets|)
      ensures AllPoll(env, added) && forall e :: e in added ==> fresh(e)
      ensures SocketsOf(socketEntries) == sockets <==> AllCreatable(env, sockets, |stay|)
    {
      ghost var o := socketEntries;
      var k, g, made := Walk(sockets, env, others, o);
      ghost var last := socketEntries;
      ghost var n := TearDownUntil(k, None, others);
      PassOver(env, o, sockets, last, k, g, n);
      stay, added := g.stay, g.added;
      InOrder(env, o, sockets, added);
    }

    /** The pass, up to the last reported socket. */
    method Walk(sockets: seq<Socket>, env: Env, ghost others: set<Entry>, ghost o: seq<SocketEntry>)
      returns (k: nat, ghost g: Progress, ghost made: set<SocketEntry>)
      requires Valid(others) && o == socketEntries
      modifies this`socketEntries, scheduler`entries, scheduler`freed
      ensures Passing(env, o, sockets, |sockets|, socketEntries, k, g, scheduler.entries, scheduler.freed, others,
                      Keep(old(scheduler.entries), others), old(scheduler.freed), made)
      ensures fresh(made)
    {
      ghost var kept, freed := Keep(scheduler.entries, others), scheduler.freed;
      k, g, made := 0, Progress(0, [], []), {};
      PassStart(env, o, sockets, scheduler.entries, freed, others);
      for j := 0 to |sockets|
        invariant Passing(env, o, sockets, j, socketEntries, k, g, scheduler.entries, scheduler.freed, others, kept, freed,
                          made)
        invariant fresh(made)
      {
        k, g, made := RefreshOne(sockets, j, k, env, others, o, g, kept, freed, made);
      }
    }

    /** One socket: tear down up to its entry, and keep that entry or else create one. */
    method RefreshOne(sockets: seq<Socket>, j: nat, k: nat, env: Env, ghost others: set<Entry>, ghost o: seq<SocketEntry>,
                      ghost g: Progress, ghost kept: seq<Entry>, ghost freed: seq<Entry>, ghost made: set<SocketEntry>)
      returns (next: nat, ghost g': Progress, ghost made': set<SocketEntry>)
      requires j < |sockets|
      requires Passing(env, o, sockets, j, socketEntries, k, g, scheduler.entries, scheduler.freed, others, kept, freed, made)
      modifies this`socketEntries, scheduler`entries, scheduler`freed
      ensures Passing(env, o, sockets, j + 1, socketEntries, next, g', scheduler.entries, scheduler.freed, others, kept, freed,
                      made')
      ensures made <= made' && fresh(made' - made)
    {
      g' := TearDownTo(sockets, j, k, env, others, o, g, kept, freed, made);
      if k < |socketEntries| {
        g' := PassingKeep(env, o, sockets, j, socketEntries, k, g', scheduler.entries, scheduler.freed, others, kept, freed, made);
        next, made' := k + 1, made;
      } else {
        next, g', made' := AddEntry(sockets, j, k, env, others, o, g', kept, freed, made);
      }
    }

    /** Only the socket's own entry can be the next one then. */
    method TearDownTo(sockets: seq<Socket>, j: nat, k: nat, ghost env: Env, ghost others: set<Entry>,
                      ghost o: seq<SocketEntry>, ghost g: Progress, ghost kept: seq<Entry>, ghost freed: seq<Entry>,
                      ghost made: set<SocketEntry>)
      returns (ghost g': Progress)
      requires j < |sockets|
      requires Passing(env, o, sockets, j, socketEntries, k, g, scheduler.entries, scheduler.freed, others, kept, freed, made)
      modifies this`socketEntries, scheduler`entries, scheduler`freed
      ensures Passing(env, o, sockets, j, socketEntries, k, g', scheduler.entries, scheduler.freed, others, kept, freed, made)
      ensures k < |socketEntries| ==> socketEntries[k].socket == sockets[j]
    {
      ghost var before := socketEntries;
      ghost var n := TearDownUntil(k, Some(sockets[j]), others);
      PassTear(env, o, sockets, j, before, k, g, n);
      g' := g.(q := g.q + n);
    }

    /** No entry is left for the socket: create one, if that works. */
    method AddEntry(sockets: seq<Socket>, j: nat, k: nat, env: Env, ghost others: set<Entry>, ghost o: seq<SocketEntry>,
                    ghost g: Progress, ghost kept: seq<Entry>, ghost freed: seq<Entry>, ghost made: set<SocketEntry>)
      returns (next: nat, ghost g': Progress, ghost made': set<SocketEntry>)
      requires j < |sockets| && k == |socketEntries|
      requires Passing(env, o, sockets, j, socketEntries, k, g, scheduler.entries, scheduler.freed, others, kept, freed, made)
      modifies this`socketEntries, scheduler`entries
      ensures Passing(env, o, sockets, j + 1, socketEntries, next, g', scheduler.entries, scheduler.freed, others, kept, freed,
                      made')
      ensures made <= made' && fresh(made' - made)
    {
      var entry := CreateSocketEntry(sockets[j], env.system(sockets[j]), env.memory(j), others);
      PassAdd(env, o, sockets, j, k, socketEntries, g, entry);
      next, g', made' := k, g, made;
      if entry != null {
        InsertedAtEnd(socketEntries, k, entry);
        socketEntries := socketEntries[..k] + [entry] + socketEntries[k..];
        g', next, made' := g'.(added := g'.added + [entry]), k + 1, made + {entry};
      }
    }
  }

  // ----- What the result means -----

  /** Survivors are old entries, in their old order. */
  lemma {:induction false} SurvivorsAreOld(o: seq<SocketEntry>, sockets: seq<Socket>) returns (at: seq<nat>)
    ensures |at| == |Survivors(o, sockets)|
    ensures forall i :: 0 <= i < |at| ==> at[i] < |o| && Survivors(o, sockets)[i] == o[at[i]]
    ensures forall i, j :: 0 <= i < j < |at| ==> at[i] < at[j]
    decreases |o|
  {
    at := [];
    if o != [] && sockets != [] {
      if o[0].socket == sockets[0] {
        var rest := SurvivorsAreOld(o[1..], sockets[1..]);
        at := [0] + seq(|rest|, i requires 0 <= i < |rest| => rest[i] + 1);
      } else {
        var rest := SurvivorsAreOld(o[1..], sockets);
        at := seq(|rest|, i requires 0 <= i < |rest| => rest[i] + 1);
      }
    }
  }

  lemma {:induction false} SurvivorsMatch(o: seq<SocketEntry>, sockets: seq<Socket>)
    ensures SocketsOf(Survivors(o, sockets)) == sockets[..|Survivors(o, sockets)|]
    decreases |o|
  {
    if o == [] || sockets == [] {
    } else if o[0].socket == sockets[0] {
      SurvivorsMatch(o[1..], sockets[1..]);
    } else {
      SurvivorsMatch(o[1..], sockets);
    }
  }

  lemma {:induction false} AllCreated(env: Env, sockets: seq<Socket>, a: nat, b: nat)
    requires a <= b <= |sockets|
    ensures Created(env, sockets, a, b) == sockets[a..b] <==> forall n :: a <= n < b ==> Creatable(env, sockets, n)
    ensures |Created(env, sockets, a, b)| == b - a ==> Created(env, sockets, a, b) == sockets[a..b]
  {
    if a == b {
    } else {
      AllCreated(env, sockets, a, b - 1);
      assert sockets[a..b] == sockets[a..b - 1] + [sockets[b - 1]];
    }
  }

  lemma CreatableOnes(env: Env, sockets: seq<Socket>, from: nat)
    ensures AllCreatable(env, sockets, from) <==> forall n :: from <= n < |sockets| ==> Creatable(env, sockets, n)
  {
    if forall n :: from <= n < |sockets| ==> Creatable(env, sockets, n) {
      forall n: nat | from <= n < |sockets|
        ensures env.memory(n) && env.system(sockets[n]).Some? && env.system(sockets[n]).value != -1
      {
        assert Creatable(env, sockets, n);
      }
    }
    if AllCreatable(env, sockets, from) {
      forall n | from <= n < |sockets|
        ensures Creatable(env, sockets, n)
      {
        assert env.memory(n) && sockets[n] == sockets[n];
      }
    }
  }

  /** The list ends up as exactly the reported sockets, in order, if and only if every creation succeeds. */
  lemma InOrder(env: Env, o: seq<SocketEntry>, sockets: seq<Socket>, added: seq<SocketEntry>)
    requires SocketsOf(added) == Created(env, sockets, |Survivors(o, sockets)|, |sockets|)
    ensures SocketsOf(Survivors(o, sockets) + added) == sockets
      <==> AllCreatable(env, sockets, |Survivors(o, sockets)|)
  {
    var stay := Survivors(o, sockets);
    CreatableOnes(env, sockets, |stay|);
    SurvivorsMatch(o, sockets);
    AllCreated(env, sockets, |stay|, |sockets|);
    SocketsOfAppend(stay, added);
    SameRest(sockets[..|stay|], Created(env, sockets, |stay|, |sockets|), sockets[|stay|..]);
    assert sockets == sockets[..|stay|] + sockets[|stay|..];
    assert sockets[|stay|..|sockets|] == sockets[|stay|..];
  }

  lemma SameRest<T>(p: seq<T>, a: seq<T>, b: seq<T>)
    ensures p + a == p + b <==> a == b
  {
    assert (p + a)[|p|..] == a && (p + b)[|p|..] == b;
  }

  /** The old entries, in order, whose sockets are among `kept`. */
  ghost function Restricted(o: seq<SocketEntry>, kept: set<Socket>): seq<SocketEntry> {
    if o == [] then []
    else (if o[0].socket in kept then [o[0]] else []) + Restricted(o[1..], kept)
  }

  /**
   If the new sockets are some of the old ones in their old order, followed by new ones, then no
   entry of a socket that is still there is torn down.
   */
  lemma {:induction false} NothingTornDownNeedlessly(o: seq<SocketEntry>, kept: set<Socket>, added: seq<Socket>)
    requires forall i, j :: 0 <= i < j < |o| ==> o[i].socket != o[j].socket
    requires forall i :: 0 <= i < |o| ==> o[i].socket !in added
    ensures Survivors(o, SocketsOf(Restricted(o, kept)) + added) == Restricted(o, kept)
  {
    if o == [] {
    } else {
      NothingTornDownNeedlessly(o[1..], kept, added);
      if o[0].socket in kept {
        KeptComesFirst(o, kept, added);
      } else {
        RestrictedIsPart(o[1..], kept);
        NotKeptIsSkipped(o, kept, added);
        assert Restricted(o, kept) == Restricted(o[1..], kept);
      }
    }
  }

  lemma KeptComesFirst(o: seq<SocketEntry>, kept: set<Socket>, added: seq<Socket>)
    requires o != [] && o[0].socket in kept
    ensures SocketsOf(Restricted(o, kept)) + added == [o[0].socket] + (SocketsOf(Restricted(o[1..], kept)) + added)
  {
    assert Restricted(o, kept) == [o[0]] + Restricted(o[1..], kept);
    SocketsOfAppend([o[0]], Restricted(o[1..], kept));
  }

  /** The next socket is a later one's, or a new one: not that of the first entry. */
  lemma NotKeptIsSkipped(o: seq<SocketEntry>, kept: set<Socket>, added: seq<Socket>)
    requires o != [] && o[0].socket !in kept && o[0].socket !in added
    requires forall i :: 0 < i < |o| ==> o[0].socket != o[i].socket
    requires forall e :: e in Restricted(o[1..], kept) ==> e in o[1..]
    ensures var sockets := SocketsOf(Restricted(o, kept)) + added;
      Survivors(o, sockets) == Survivors(o[1..], sockets)
  {
    var part := Restricted(o[1..], kept);
    var sockets := SocketsOf(part) + added;
    if part != [] {
      assert part[0] in o[1..];
      var i :| 0 <= i < |o| - 1 && o[1..][i] == part[0];
      assert o[i + 1].socket == sockets[0];
    } else if added != [] {
      assert sockets[0] == added[0] && added[0] in added;
    } else {
      assert sockets == [];
      assert o[1..] == [] || Survivors(o[1..], sockets) == [];
    }
  }

  lemma {:induction false} RestrictedIsPart(o: seq<SocketEntry>, kept: set<Socket>)
    ensures forall e :: e in Restricted(o, kept) ==> e in o
  {
    if o == [] {
    } else {
      RestrictedIsPart(o[1..], kept);
    }
  }
}

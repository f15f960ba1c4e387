/**
 The demo's I/O scheduler: one list of entries, instant ones before poll ones, walked while the
 handlers called on the way remove entries from it.

 Poll results are matched to entries by scanning the descriptor array forward. Proved: with
 handlers that remove their own entry only, or with distinct descriptors and handlers that may
 also remove entries not yet reached, every entry that is still there when its turn comes is
 dispatched exactly once, with what poll has answered for it; no entry goes unless a handler that
 has been called removes it; and over any life of a scheduler, the argument of each entry is freed
 exactly once, when the entry goes.
 */
module IoSched {
  import opened Ids

  datatype Kind = Instant | Poll

  /** An entry; handlers are told apart by the entry they belong to. */
  class Entry {
    const kind: Kind
    const hasFree: bool
    const fd: int
    const events: int

    constructor (kind: Kind, hasFree: bool, fd: int, events: int)
      ensures this.kind == kind && this.hasFree == hasFree && this.fd == fd && this.events == events
    {
      this.kind, this.hasFree, this.fd, this.events := kind, hasFree, fd, events;
    }
  }

  // ----- Lists of entries -----

  ghost predicate Distinct(s: seq<Entry>) {
    forall i, j :: 0 <= i < j < |s| ==> s[i] != s[j]
  }

  /** Instant entries first. */
  ghost predicate Sorted(s: seq<Entry>) {
    forall i, j :: 0 <= i < j < |s| ==> s[i].kind == Poll ==> s[j].kind == Poll
  }

  function OfKind(s: seq<Entry>, kind: Kind): (r: seq<Entry>)
    ensures forall e :: e in r ==> e in s && e.kind == kind
    ensures forall e :: e in s && e.kind == kind ==> e in r
  {
    if s == [] then []
    else if s[0].kind == kind then [s[0]] + OfKind(s[1..], kind)
    else OfKind(s[1..], kind)
  }

  /** The entries of `s` that are in `alive`, in order. */
  ghost function Keep(s: seq<Entry>, alive: set<Entry>): (r: seq<Entry>)
    ensures forall e :: e in r ==> e in s && e in alive
    ensures forall e :: e in s && e in alive ==> e in r
  {
    if s == [] then []
    else if s[0] in alive then [s[0]] + Keep(s[1..], alive)
    else Keep(s[1..], alive)
  }

  ghost function Dropped(s: seq<Entry>, x: Entry): (r: seq<Entry>)
    ensures forall e :: e in r ==> e in s && e != x
    ensures forall e :: e in s && e != x ==> e in r
  {
    if s == [] then []
    else if s[0] == x then Dropped(s[1..], x)
    else [s[0]] + Dropped(s[1..], x)
  }

  lemma {:induction false} NothingToDrop(s: seq<Entry>, x: Entry)
    requires x !in s
    ensures Dropped(s, x) == s
  {
    if s == [] {
    } else {
      NothingToDrop(s[1..], x);
    }
  }

  lemma {:induction false} DropAt(s: seq<Entry>, k: nat)
    requires Distinct(s) && k < |s|
    ensures Dropped(s, s[k]) == s[..k] + s[k + 1..]
  {
    if k == 0 {
      NothingToDrop(s[1..], s[0]);
    } else {
      DropAt(s[1..], k - 1);
      assert s[..k] == [s[0]] + s[1..][..k - 1];
    }
  }

  lemma {:induction false} DropAppend(a: seq<Entry>, b: seq<Entry>, x: Entry)
    ensures Dropped(a + b, x) == Dropped(a, x) + Dropped(b, x)
  {
    if a == [] {
      assert a + b == b;
    } else {
      assert (a + b)[1..] == a[1..] + b;
      DropAppend(a[1..], b, x);
    }
  }

  lemma {:induction false} DropKeep(s: seq<Entry>, alive: set<Entry>, x: Entry)
    ensures Dropped(Keep(s, alive), x) == Keep(s, alive - {x})
  {
    if s == [] {
    } else {
      DropKeep(s[1..], alive, x);
    }
  }

  lemma RemoveFromTail(before: seq<Entry>, after: seq<Entry>, alive: set<Entry>, e: Entry)
    requires Distinct(before + Keep(after, alive)) && e in Keep(after, alive)
    ensures Dropped(before + Keep(after, alive), e) == before + Keep(after, alive - {e})
  {
    var all := before + Keep(after, alive);
    var k :| 0 <= k < |Keep(after, alive)| && Keep(after, alive)[k] == e;
    forall i | 0 <= i < |before|
      ensures before[i] != e
    {
      assert all[i] == before[i] && all[|before| + k] == e;
    }
    DropAppend(before, Keep(after, alive), e);
    NothingToDrop(before, e);
    DropKeep(after, alive, e);
  }

  lemma {:induction false} KeepAll(s: seq<Entry>, alive: set<Entry>)
    requires forall e :: e in s ==> e in alive
    ensures Keep(s, alive) == s
  {
    if s == [] {
    } else {
      KeepAll(s[1..], alive);
    }
  }

  lemma {:induction false} KeepAppend(a: seq<Entry>, b: seq<Entry>, alive: set<Entry>)
    ensures Keep(a + b, alive) == Keep(a, alive) + Keep(b, alive)
  {
    if a == [] {
      assert a + b == b;
    } else {
      assert (a + b)[1..] == a[1..] + b;
      KeepAppend(a[1..], b, alive);
    }
  }

  lemma {:induction false} KeepOnly(s: seq<Entry>, a: set<Entry>, b: set<Entry>)
    requires forall e :: e in s ==> (e in a <==> e in b)
    ensures Keep(s, a) == Keep(s, b)
  {
    if s == [] {
    } else {
      KeepOnly(s[1..], a, b);
    }
  }

  /** The first survivor, and nobody before it. */
  lemma {:induction false} FirstKept(s: seq<Entry>, alive: set<Entry>) returns (m: nat)
    requires Keep(s, alive) != []
    ensures m < |s| && s[m] in alive && Keep(s, alive)[0] == s[m]
    ensures forall j :: 0 <= j < m ==> s[j] !in alive
  {
    if s[0] in alive {
      m := 0;
    } else {
      var k := FirstKept(s[1..], alive);
      m := k + 1;
    }
  }

  /** Removing an entry keeps the order, the kinds and the distinctness. */
  lemma DropKeepsValid(s: seq<Entry>, k: nat)
    requires Distinct(s) && Sorted(s) && k < |s|
    ensures Distinct(s[..k] + s[k + 1..]) && Sorted(s[..k] + s[k + 1..])
  {}

  lemma {:induction false} OfKindAppend(a: seq<Entry>, b: seq<Entry>, kind: Kind)
    ensures OfKind(a + b, kind) == OfKind(a, kind) + OfKind(b, kind)
  {
    if a == [] {
      assert a + b == b;
    } else {
      assert (a + b)[1..] == a[1..] + b;
      OfKindAppend(a[1..], b, kind);
    }
  }

  lemma {:induction false} OneKind(s: seq<Entry>, kind: Kind)
    requires forall i :: 0 <= i < |s| ==> s[i].kind == kind
    ensures OfKind(s, kind) == s
    ensures forall k :: k != kind ==> OfKind(s, k) == []
  {
    if s == [] {
    } else {
      OneKind(s[1..], kind);
    }
  }

  /** Up to the first poll entry they are instant, from there on poll entries. */
  lemma SplitAt(s: seq<Entry>, i: nat)
    requires Sorted(s) && i <= |s|
    requires forall j :: 0 <= j < i ==> s[j].kind == Instant
    requires i < |s| ==> s[i].kind == Poll
    ensures OfKind(s, Instant) == s[..i] && OfKind(s, Poll) == s[i..]
  {
    assert s == s[..i] + s[i..];
    OneKind(s[..i], Instant);
    OneKind(s[i..], Poll);
    OfKindAppend(s[..i], s[i..], Instant);
    OfKindAppend(s[..i], s[i..], Poll);
  }

  lemma InsertKeepsValid(s: seq<Entry>, i: nat, e: Entry)
    requires Sorted(s) && Distinct(s) && e !in s && i <= |s|
    requires forall j :: 0 <= j < i ==> s[j].kind == Instant
    requires i < |s| ==> s[i].kind == Poll || e.kind == Instant
    requires 0 < i ==> e.kind == Poll
    ensures Sorted(s[..i] + [e] + s[i..]) && Distinct(s[..i] + [e] + s[i..])
  {}

  // ----- What one poll round dispatches -----

  /** The visited entries with nonzero events, in list order, each with the events at its place. */
  ghost function Dispatches(s: seq<Entry>, revents: seq<int>, visited: set<Entry>): seq<(Entry, int)>
    requires |s| == |revents|
  {
    if s == [] then []
    else if s[0] in visited && revents[0] != 0 then [(s[0], revents[0])] + Dispatches(s[1..], revents[1..], visited)
    else Dispatches(s[1..], revents[1..], visited)
  }

  /** The visited entry at `k` is called, for its own nonzero events. */
  ghost predicate CallAt(s: seq<Entry>, revents: seq<int>, visited: set<Entry>, k: nat, call: (Entry, int)) {
    k < |s| == |revents| && call == (s[k], revents[k]) && revents[k] != 0 && s[k] in visited
  }

  ghost predicate NobodyTwice(calls: seq<(Entry, int)>) {
    forall i, j :: 0 <= i < j < |calls| ==> calls[i].0 != calls[j].0
  }

  ghost predicate CallsAmong(calls: seq<(Entry, int)>, s: seq<Entry>) {
    forall i :: 0 <= i < |calls| ==> calls[i].0 in s
  }

  lemma {:induction false} CalledOnce(s: seq<Entry>, revents: seq<int>, visited: set<Entry>)
    requires |s| == |revents| && Distinct(s)
    ensures NobodyTwice(Dispatches(s, revents, visited)) && CallsAmong(Dispatches(s, revents, visited), s)
  {
    if s != [] {
      CalledOnce(s[1..], revents[1..], visited);
      OneMoreCall(s, revents[0], Dispatches(s[1..], revents[1..], visited));
    }
  }

  lemma OneMoreCall(s: seq<Entry>, a: int, rest: seq<(Entry, int)>)
    requires s != [] && Distinct(s) && NobodyTwice(rest) && CallsAmong(rest, s[1..])
    ensures CallsAmong(rest, s) && NobodyTwice([(s[0], a)] + rest) && CallsAmong([(s[0], a)] + rest, s)
  {
    forall i | 0 <= i < |rest|
      ensures rest[i].0 in s && rest[i].0 != s[0]
    {
      assert rest[i].0 in s[1..];
    }
  }

  /** All of them are called, and nobody else. */
  lemma {:induction false} DispatchesMean(s: seq<Entry>, revents: seq<int>, visited: set<Entry>)
    requires |s| == |revents|
    ensures forall call :: call in Dispatches(s, revents, visited) <==> exists k: nat :: CallAt(s, revents, visited, k, call)
  {
    if s != [] {
      DispatchesMean(s[1..], revents[1..], visited);
      forall call
        ensures call in Dispatches(s, revents, visited) <==> exists k: nat :: CallAt(s, revents, visited, k, call)
      {
        CallsOfTail(s, revents, visited, call);
      }
    }
  }

  lemma CallsOfTail(s: seq<Entry>, revents: seq<int>, visited: set<Entry>, call: (Entry, int))
    requires |s| == |revents| > 0
    ensures (exists k: nat :: CallAt(s, revents, visited, k, call)) <==>
      CallAt(s, revents, visited, 0, call) || exists k: nat :: CallAt(s[1..], revents[1..], visited, k, call)
  {
    if k: nat :| CallAt(s[1..], revents[1..], visited, k, call) {
      assert CallAt(s, revents, visited, k + 1, call);
    }
    if k: nat :| CallAt(s, revents, visited, k, call) && k > 0 {
      assert CallAt(s[1..], revents[1..], visited, k - 1, call);
    }
  }

  /** Each of these has been called for what poll has answered, if that was anything. */
  lemma AllCalled(s: seq<Entry>, answers: seq<int>, visited: set<Entry>, ownOnly: bool, alive: set<Entry>,
                  before: seq<(Entry, int)>, after: seq<(Entry, int)>)
    requires Dispatched(s, answers, visited, ownOnly, alive, before, after)
    ensures forall k :: 0 <= k < |s| && answers[k] != 0 && (ownOnly || s[k] in alive) ==> (s[k], answers[k]) in after
    ensures before <= after && forall c :: c in after[|before|..] ==>
      c.1 != 0 && exists k :: 0 <= k < |s| && s[k] == c.0 && answers[k] == c.1
    ensures Distinct(s) ==> NobodyTwice(after[|before|..])
  {
    DispatchesMean(s, answers, visited);
    if Distinct(s) {
      CalledOnce(s, answers, visited);
    }
    var calls := Dispatches(s, answers, visited);
    assert after == before + calls;
    forall k | 0 <= k < |s| && answers[k] != 0 && (ownOnly || s[k] in alive)
      ensures (s[k], answers[k]) in after
    {
      assert CallAt(s, answers, visited, k, (s[k], answers[k]));
    }
    forall c | c in after[|before|..]
      ensures c.1 != 0 && exists k :: 0 <= k < |s| && s[k] == c.0 && answers[k] == c.1
    {
      assert c in calls;
      var k: nat :| CallAt(s, answers, visited, k, c);
    }
  }

  predicate DistinctDescriptors(s: seq<Entry>) {
    forall i, j :: 0 <= i < j < |s| ==> s[i].fd != s[j].fd
  }

  /** The entry at `j` may be to blame if the one at `k` has gone: its handler has been called. */
  ghost predicate Culprit(s: seq<Entry>, answers: seq<int>, visited: set<Entry>, ownOnly: bool, k: nat, j: nat) {
    && j <= k < |s| == |answers| && s[j] in visited && answers[j] != 0
    && (ownOnly ==> j == k)
  }

  /** No entry has gone without a handler having been called that may have removed it. */
  ghost predicate AllCaused(s: seq<Entry>, answers: seq<int>, visited: set<Entry>, ownOnly: bool, alive: set<Entry>) {
    forall k: nat :: k < |s| && s[k] !in alive ==> exists j: nat :: Culprit(s, answers, visited, ownOnly, k, j)
  }

  lemma StillCaused(s: seq<Entry>, answers: seq<int>, visited: set<Entry>, ownOnly: bool, alive: set<Entry>, x: nat,
                    removed: set<Entry>)
    requires Distinct(s) && x < |s| == |answers| && AllCaused(s, answers, visited, ownOnly, alive)
    requires answers[x] == 0 ==> removed == {}
    requires forall e :: e in removed ==> e in s[x..] && (ownOnly ==> e == s[x])
    ensures AllCaused(s, answers, visited + {s[x]}, ownOnly, alive - removed)
  {
    forall k: nat | k < |s| && s[k] !in alive - removed
      ensures exists j: nat :: Culprit(s, answers, visited + {s[x]}, ownOnly, k, j)
    {
      if s[k] !in alive {
        var j: nat :| Culprit(s, answers, visited, ownOnly, k, j);
        assert Culprit(s, answers, visited + {s[x]}, ownOnly, k, j);
      } else {
        assert k >= x;
        assert Culprit(s, answers, visited + {s[x]}, ownOnly, k, x);
      }
    }
  }

  /**
   What a poll round has done: every entry of `s` that was still there when its turn came was called
   exactly once, with its own answer, if that was nonzero; and those no longer alive have been
   removed by a handler that was called, their own if handlers remove nothing else.
   */
  ghost predicate Dispatched(s: seq<Entry>, answers: seq<int>, visited: set<Entry>, ownOnly: bool, alive: set<Entry>,
                             before: seq<(Entry, int)>, after: seq<(Entry, int)>)
  {
    && |s| == |answers| && after == before + Dispatches(s, answers, visited)
    && AllCaused(s, answers, visited, ownOnly, alive)
    && (forall e :: e in s && e !in visited ==> e !in alive)
    && (ownOnly ==> forall e :: e in s ==> e in visited)
    && (ownOnly ==> forall k :: 0 <= k < |s| && answers[k] == 0 ==> s[k] in alive)
  }

  // ----- What is freed -----

  /** On the way from `s` to `t`, each entry that went had its argument freed, once. */
  ghost predicate FreedFor(before: seq<Entry>, after: seq<Entry>, s: seq<Entry>, t: seq<Entry>) {
    && before <= after && Distinct(after[|before|..]) && (forall e :: e in t ==> e in s)
    && (forall e :: e in after[|before|..] ==> e in s && e !in t && e.hasFree)
    && (forall e :: e in s && e !in t && e.hasFree ==> e in after[|before|..])
  }

  lemma NothingFreed(freed: seq<Entry>, s: seq<Entry>)
    ensures FreedFor(freed, freed, s, s)
  {
  }

  lemma DistinctAppend(a: seq<Entry>, b: seq<Entry>)
    requires Distinct(a) && Distinct(b) && forall e :: e in a ==> e !in b
    ensures Distinct(a + b)
  {
    forall i, j | 0 <= i < j < |a + b|
      ensures (a + b)[i] != (a + b)[j]
    {
      if i < |a| <= j {
        assert a[i] in a && b[j - |a|] in b;
      }
    }
  }

  lemma FreedTwice(a: seq<Entry>, b: seq<Entry>, c: seq<Entry>, s: seq<Entry>, t: seq<Entry>, u: seq<Entry>)
    requires FreedFor(a, b, s, t) && FreedFor(b, c, t, u)
    ensures FreedFor(a, c, s, u)
  {
    assert c[|a|..] == b[|a|..] + c[|b|..];
    DistinctAppend(b[|a|..], c[|b|..]);
  }

  lemma FirstGone(freed: seq<Entry>, s: seq<Entry>)
    requires s != [] && Distinct(s)
    ensures FreedFor(freed, if s[0].hasFree then freed + [s[0]] else freed, s, s[1..])
  {
    assert s == [s[0]] + s[1..];
  }

  // ----- One poll round, step by step -----

  datatype PollFd = PollFd(fd: int, events: int, revents: int)

  /** The descriptors polled are those of `s`, and `revents` is what poll reported. */
  ghost predicate Polled(s: seq<Entry>, revents: seq<int>, fds: seq<PollFd>) {
    && |s| == |fds| == |revents|
    && forall i :: 0 <= i < |s| ==> fds[i].fd == s[i].fd && fds[i].revents == revents[i]
  }

  method NextDescriptor(fds: seq<PollFd>, from: nat, fd: int) returns (i: nat)
    requires from <= |fds|
    ensures from <= i <= |fds|
    ensures forall j :: from <= j < i ==> fds[j].fd != fd
    ensures i < |fds| ==> fds[i].fd == fd
  {
    i := from;
    while i < |fds| && fds[i].fd != fd
      invariant from <= i <= |fds|
      invariant forall j :: from <= j < i ==> fds[j].fd != fd
    {
      i := i + 1;
    }
  }

  /** The forward scan stops at the very entry whose turn it is. */
  lemma FoundDescriptor(s: seq<Entry>, revents: seq<int>, fds: seq<PollFd>, i: nat, x: nat, at: nat, ownOnly: bool)
    requires Polled(s, revents, fds) && i <= x < |s| && i <= at <= |s|
    requires forall j :: i <= j < at ==> fds[j].fd != s[x].fd
    requires at < |s| ==> fds[at].fd == s[x].fd
    requires (ownOnly && x == i) || forall j :: i <= j < x ==> s[j].fd != s[x].fd
    ensures at == x && fds[at].revents == revents[x]
  {
    assert fds[x].fd == s[x].fd;
    if at < |s| {
      assert fds[at].fd == s[at].fd;
    }
  }

  ghost function Removed(s: seq<Entry>, left: set<Entry>): set<Entry> {
    set e | e in s && e !in left
  }

  /**
   A poll round that has dealt with the first `i` of the entries `s` it started with: `now` is the
   list as it stands, up to `p` already walked over.
   */
  ghost predicate Round(s: seq<Entry>, revents: seq<int>, i: nat, p: nat, alive: set<Entry>, visited: set<Entry>,
                        ownOnly: bool, now: seq<Entry>)
  {
    && Distinct(s) && |s| == |revents| && i <= |s|
    && now == Keep(s[..i], alive) + Keep(s[i..], alive) && p == |Keep(s[..i], alive)|
    && (forall e :: e in s[..i] && e !in visited ==> e !in alive)
    && (forall e :: e in visited ==> e in s[..i])
    && (ownOnly ==> (forall e :: e in s[..i] ==> e in visited) && forall e :: e in s[i..] ==> e in alive)
  }

  lemma Regroup<T>(a: seq<T>, b: seq<T>, c: seq<T>)
    ensures (a + b) + c == a + (b + c)
  {}

  lemma RoundStart(s: seq<Entry>, revents: seq<int>, alive: set<Entry>, ownOnly: bool)
    requires Distinct(s) && |s| == |revents| && alive == set e | e in s
    ensures Round(s, revents, 0, 0, alive, {}, ownOnly, s)
    ensures Dispatches(s[..0], revents[..0], {}) == []
  {
    KeepAll(s, alive);
    assert s[0..] == s;
  }

  /** The entry whose turn it is comes first among those left; only removed ones come before it. */
  lemma NextTurn(s: seq<Entry>, revents: seq<int>, i: nat, p: nat, alive: set<Entry>, visited: set<Entry>,
                 ownOnly: bool, now: seq<Entry>) returns (x: nat)
    requires Round(s, revents, i, p, alive, visited, ownOnly, now) && p < |now|
    ensures i <= x < |s| && s[x] == now[p] && s[x] in alive
    ensures forall j :: i <= j < x ==> s[j] !in alive
    ensures ownOnly ==> x == i
    ensures DistinctDescriptors(s) ==> forall j :: i <= j < x ==> s[j].fd != s[x].fd
  {
    var m := FirstKept(s[i..], alive);
    x := i + m;
    assert s[i..][m] == s[x];
    forall j | i <= j < x
      ensures s[j] !in alive
    {
      assert s[i..][j - i] == s[j];
    }
    if ownOnly {
      assert s[i] in s[i..];
    }
  }

  lemma {:induction false} KeepTwice(s: seq<Entry>, a: set<Entry>, b: set<Entry>)
    ensures Keep(Keep(s, a), b) == Keep(s, a * b)
  {
    if s == [] {
    } else {
      KeepTwice(s[1..], a, b);
    }
  }

  lemma AfterRemoval(s: seq<Entry>, x: nat, alive: set<Entry>, left: set<Entry>, removed: set<Entry>)
    requires Distinct(s) && x <= |s|
    requires removed == set e | e in Keep(s[x..], alive) && e !in left
    ensures Keep(s[..x], alive) == Keep(s[..x], alive - removed)
    ensures Keep(Keep(s[x..], alive), left) == Keep(s[x..], alive - removed)
  {
    KeepOnly(s[..x], alive, alive - removed);
    KeepTwice(s[x..], alive, left);
    KeepOnly(s[x..], alive * left, alive - removed);
  }

  lemma StepPast(s: seq<Entry>, x: nat, alive: set<Entry>)
    requires Distinct(s) && x < |s|
    ensures var done, all := Keep(s[..x], alive), Keep(s[..x], alive) + Keep(s[x..], alive);
      && all == Keep(s[..x + 1], alive) + Keep(s[x + 1..], alive)
      && |Keep(s[..x + 1], alive)| == |done| + (if s[x] in alive then 1 else 0)
      && (s[x] in alive <==> |done| < |all| && all[|done|] == s[x])
  {
    assert s[..x + 1] == s[..x] + [s[x]] && s[x..] == [s[x]] + s[x + 1..];
    KeepAppend(s[..x], [s[x]], alive);
    KeepAppend([s[x]], s[x + 1..], alive);
    assert s[x] !in s[x + 1..];
  }

  /** The list after the turn of the entry at `x`, and how far it has been walked over. */
  lemma StepLists(s: seq<Entry>, i: nat, x: nat, p: nat, alive: set<Entry>, before: seq<Entry>, after: seq<Entry>,
                  left: set<Entry>)
    requires Distinct(s) && i <= x < |s| && s[x] in alive
    requires Keep(s[..x], alive) == Keep(s[..i], alive) && Keep(s[x..], alive) == Keep(s[i..], alive)
    requires before == Keep(s[..i], alive) + Keep(s[i..], alive) && p == |Keep(s[..i], alive)|
    requires after == before[..p] + Keep(before[p..], left)
    ensures var alive' := alive - Removed(before[p..], left);
      && after == Keep(s[..x + 1], alive') + Keep(s[x + 1..], alive')
      && |Keep(s[..x + 1], alive')| == if p < |after| && after[p] == s[x] then p + 1 else p
  {
    var removed := Removed(before[p..], left);
    assert before[..p] == Keep(s[..x], alive) && before[p..] == Keep(s[x..], alive);
    AfterRemoval(s, x, alive, left, removed);
    StepPast(s, x, alive - removed);
  }

  lemma StepVisited(s: seq<Entry>, i: nat, x: nat, alive: set<Entry>, visited: set<Entry>, removed: set<Entry>)
    requires i <= x < |s| && forall j :: i <= j < x ==> s[j] !in alive
    requires forall e :: e in s[..i] && e !in visited ==> e !in alive
    requires forall e :: e in visited ==> e in s[..i]
    ensures forall e :: e in s[..x + 1] && e !in visited + {s[x]} ==> e !in alive - removed
    ensures forall e :: e in visited + {s[x]} ==> e in s[..x + 1]
  {
    assert s[..x + 1] == s[..i] + s[i..x] + [s[x]];
  }

  lemma TailOfKept(s: seq<Entry>, x: nat, alive: set<Entry>, now: seq<Entry>, p: nat, e: Entry)
    requires x < |s| && Distinct(s) && s[x] in alive && p < |now|
    requires now[p..] == Keep(s[x..], alive) && e in s[x + 1..] && e in alive
    ensures e in now[p + 1..]
  {
    assert now[p..][1..] == now[p + 1..];
    assert s[x..][1..] == s[x + 1..];
  }

  /** Handlers that remove their own entry only leave all later ones. */
  lemma StepOwn(s: seq<Entry>, x: nat, p: nat, alive: set<Entry>, before: seq<Entry>, left: set<Entry>)
    requires Distinct(s) && x < |s| && s[x] in alive && p < |before| && before[p..] == Keep(s[x..], alive)
    requires forall e :: e in s[x..] ==> e in alive
    requires forall e :: e in before[p + 1..] ==> e in left
    ensures forall e :: e in s[x + 1..] ==> e in alive - Removed(before[p..], left)
  {
    forall e | e in s[x + 1..]
      ensures e in alive - Removed(before[p..], left)
    {
      assert e in s[x..];
      TailOfKept(s, x, alive, before, p, e);
    }
  }

  lemma {:induction false} KeepNone(s: seq<Entry>, alive: set<Entry>)
    requires forall i :: 0 <= i < |s| ==> s[i] !in alive
    ensures Keep(s, alive) == []
  {
    if s == [] {
    } else {
      KeepNone(s[1..], alive);
    }
  }

  lemma SkippedAreGone(s: seq<Entry>, i: nat, x: nat, alive: set<Entry>)
    requires i <= x <= |s| && forall j :: i <= j < x ==> s[j] !in alive
    ensures Keep(s[..x], alive) == Keep(s[..i], alive)
    ensures Keep(s[x..], alive) == Keep(s[i..], alive)
  {
    assert s[..x] == s[..i] + s[i..x] && s[i..] == s[i..x] + s[x..];
    KeepNone(s[i..x], alive);
    KeepAppend(s[..i], s[i..x], alive);
    KeepAppend(s[i..x], s[x..], alive);
  }

  lemma {:induction false} NoDispatch(s: seq<Entry>, revents: seq<int>, visited: set<Entry>)
    requires |s| == |revents| && forall i :: 0 <= i < |s| ==> revents[i] == 0 || s[i] !in visited
    ensures Dispatches(s, revents, visited) == []
  {
    if s == [] {
    } else {
      NoDispatch(s[1..], revents[1..], visited);
    }
  }

  lemma {:induction false} DispatchesAppend(a: seq<Entry>, ra: seq<int>, b: seq<Entry>, rb: seq<int>, visited: set<Entry>)
    requires |a| == |ra| && |b| == |rb|
    ensures Dispatches(a + b, ra + rb, visited) == Dispatches(a, ra, visited) + Dispatches(b, rb, visited)
  {
    if a == [] {
      assert a + b == b && ra + rb == rb;
    } else {
      assert (a + b)[1..] == a[1..] + b && (ra + rb)[1..] == ra[1..] + rb;
      DispatchesAppend(a[1..], ra[1..], b, rb, visited);
    }
  }

  lemma SkippedAreSilent(s: seq<Entry>, revents: seq<int>, i: nat, x: nat, visited: set<Entry>)
    requires |s| == |revents| && i <= x <= |s| && Distinct(s)
    requires forall e :: e in visited ==> e in s[..i]
    ensures Dispatches(s[..x], revents[..x], visited) == Dispatches(s[..i], revents[..i], visited)
  {
    assert s[..x] == s[..i] + s[i..x] && revents[..x] == revents[..i] + revents[i..x];
    NoDispatch(s[i..x], revents[i..x], visited);
    DispatchesAppend(s[..i], revents[..i], s[i..x], revents[i..x], visited);
  }

  lemma {:induction false} DispatchesOnly(s: seq<Entry>, revents: seq<int>, a: set<Entry>, b: set<Entry>)
    requires |s| == |revents| && forall e :: e in s ==> (e in a <==> e in b)
    ensures Dispatches(s, revents, a) == Dispatches(s, revents, b)
  {
    if s == [] {
    } else {
      DispatchesOnly(s[1..], revents[1..], a, b);
    }
  }

  lemma VisitNext(s: seq<Entry>, revents: seq<int>, x: nat, visited: set<Entry>)
    requires |s| == |revents| && x < |s| && Distinct(s)
    requires forall e :: e in visited ==> e in s[..x]
    ensures Dispatches(s[..x + 1], revents[..x + 1], visited + {s[x]})
         == Dispatches(s[..x], revents[..x], visited) + if revents[x] != 0 then [(s[x], revents[x])] else []
  {
    assert s[..x + 1] == s[..x] + [s[x]] && revents[..x + 1] == revents[..x] + [revents[x]];
    DispatchesAppend(s[..x], revents[..x], [s[x]], [revents[x]], visited + {s[x]});
    DispatchesOnly(s[..x], revents[..x], visited, visited + {s[x]});
  }

  lemma RoundStep(s: seq<Entry>, revents: seq<int>, i: nat, x: nat, p: nat, alive: set<Entry>, visited: set<Entry>,
                  ownOnly: bool, before: seq<Entry>, after: seq<Entry>, left: set<Entry>,
                  nextI: nat, nextP: nat, nextAlive: set<Entry>, nextVisited: set<Entry>, turn: seq<(Entry, int)>)
    requires Round(s, revents, i, p, alive, visited, ownOnly, before)
    requires p < |before| && i <= x < |s| && s[x] == before[p] && s[x] in alive
    requires forall j :: i <= j < x ==> s[j] !in alive
    requires ownOnly ==> x == i && forall e :: e in before[p + 1..] ==> e in left
    requires after == before[..p] + Keep(before[p..], left)
    requires nextP == if p < |after| && after[p] == s[x] then p + 1 else p
    requires nextAlive == alive - Removed(before[p..], left) && nextVisited == visited + {s[x]}
    requires nextI == x + 1 && turn == if revents[x] != 0 then [(s[x], revents[x])] else []
    ensures Round(s, revents, nextI, nextP, nextAlive, nextVisited, ownOnly, after)
    ensures Dispatches(s[..nextI], revents[..nextI], nextVisited)
         == Dispatches(s[..i], revents[..i], visited) + turn
  {
    var removed := Removed(before[p..], left);
    SkippedAreGone(s, i, x, alive);
    StepLists(s, i, x, p, alive, before, after, left);
    StepVisited(s, i, x, alive, visited, removed);
    SkippedAreSilent(s, revents, i, x, visited);
    VisitNext(s, revents, x, visited);
    if ownOnly {
      StepOwn(s, x, p, alive, before, left);
    }
  }

  /** Only entries from `x` on can have been removed, and only that one if handlers remove nothing else. */
  lemma RemovedFrom(s: seq<Entry>, answers: seq<int>, i: nat, x: nat, p: nat, alive: set<Entry>, visited: set<Entry>,
                    ownOnly: bool, before: seq<Entry>, left: set<Entry>)
    requires Round(s, answers, i, p, alive, visited, ownOnly, before)
    requires p < |before| && i <= x < |s| && s[x] == before[p] && s[x] in alive
    requires forall j :: i <= j < x ==> s[j] !in alive
    requires ownOnly ==> forall e :: e in before[p + 1..] ==> e in left
    requires answers[x] == 0 ==> forall e :: e in before[p..] ==> e in left
    ensures answers[x] == 0 ==> Removed(before[p..], left) == {}
    ensures forall e :: e in Removed(before[p..], left) ==> e in s[x..] && (ownOnly ==> e == s[x])
  {
    SkippedAreGone(s, i, x, alive);
    assert before[p..] == Keep(s[x..], alive);
    assert before[p..] == [before[p]] + before[p + 1..];
  }

  lemma NobodyLeft(s: seq<Entry>, revents: seq<int>, i: nat, alive: set<Entry>, visited: set<Entry>)
    requires |s| == |revents| && i <= |s| && Distinct(s)
    requires Keep(s[i..], alive) == []
    requires forall e :: e in visited ==> e in s[..i]
    ensures forall e :: e in s[i..] ==> e !in alive
    ensures Keep(s, alive) == Keep(s[..i], alive)
    ensures Dispatches(s, revents, visited) == Dispatches(s[..i], revents[..i], visited)
  {
    assert s == s[..i] + s[i..];
    KeepAppend(s[..i], s[i..], alive);
    SkippedAreSilent(s, revents, i, |s|, visited);
    assert s[..|s|] == s && revents[..|s|] == revents;
  }

  lemma RoundOver(s: seq<Entry>, revents: seq<int>, i: nat, p: nat, alive: set<Entry>, visited: set<Entry>,
                  ownOnly: bool, now: seq<Entry>)
    requires Round(s, revents, i, p, alive, visited, ownOnly, now) && p == |now|
    ensures now == Keep(s, alive) && Dispatches(s, revents, visited) == Dispatches(s[..i], revents[..i], visited)
    ensures forall e :: e in s && e !in visited ==> e !in alive
    ensures ownOnly ==> forall e :: e in s ==> e in visited
  {
    NobodyLeft(s, revents, i, alive, visited);
    assert s == s[..i] + s[i..];
    if ownOnly {
      KeepAll(s[i..], alive);
    }
  }

  /** Poll fills in what it reports for each descriptor. */
  method PollResults(fds: seq<PollFd>, answers: seq<int>) returns (r: seq<PollFd>)
    requires |fds| == |answers|
    ensures |r| == |fds| && forall i :: 0 <= i < |r| ==> r[i] == fds[i].(revents := answers[i])
  {
    r := [];
    for i := 0 to |fds|
      invariant |r| == i
      invariant forall j :: 0 <= j < i ==> r[j] == fds[j].(revents := answers[j])
    {
      r := r + [fds[i].(revents := answers[i])];
    }
  }

  // ----- The scheduler -----

  class Scheduler {
    var entries: seq<Entry>
    /** What happened so far: instant handlers run, poll handlers called, arguments freed. */
    var ran: seq<Entry>
    var dispatched: seq<(Entry, int)>
    var freed: seq<Entry>

    constructor ()
      ensures Valid() && entries == [] && ran == [] && dispatched == [] && freed == []
    {
      entries, ran, dispatched, freed := [], [], [], [];
    }

    ghost predicate Valid()
      reads this
    {
      Sorted(entries) && Distinct(entries)
    }

    /** Before the first entry of the same or a later kind. */
    method InsertEntry(entry: Entry)
      requires Valid() && entry !in entries
      modifies this`entries
      ensures Valid()
      ensures entries == if entry.kind == Instant then [entry] + old(entries)
        else OfKind(old(entries), Instant) + [entry] + OfKind(old(entries), Poll)
    {
      for i := 0 to |entries|
        invariant entries == old(entries)
        invariant 0 < i ==> entry.kind == Poll
        invariant forall j :: 0 <= j < i ==> entries[j].kind == Instant
      {
        if entries[i].kind == Poll || entry.kind == Instant {
          InsertKeepsValid(entries, i, entry);
          if entry.kind == Poll {
            SplitAt(entries, i);
          }
          entries := entries[..i] + [entry] + entries[i..];
          return;
        }
      }
      InsertKeepsValid(entries, |entries|, entry);
      if entry.kind == Poll {
        SplitAt(entries, |entries|);
      }
      assert entries[..|entries|] + [entry] + entries[|entries|..] == entries + [entry];
      entries := entries + [entry];
    }

    /** Refuses a missing or invalid descriptor, no events or no handler; otherwise it takes memory only. */
    method PollEntryNew(fd: Option<int>, events: int, hasHandler: bool, hasFree: bool, memory: bool) returns (entry: Entry?)
      requires Valid()
      modifies this`entries
      ensures Valid()
      ensures entry != null <==> fd.Some? && fd.value != -1 && events != 0 && hasHandler && memory
      ensures entry == null ==> entries == old(entries)
      ensures entry != null ==> fresh(entry) && entry.kind == Poll && entry.fd == fd.value
      ensures entry != null ==> entry.events == events && entry.hasFree == hasFree
      ensures entry != null ==> entries == OfKind(old(entries), Instant) + [entry] + OfKind(old(entries), Poll)
    {
      if fd.None? || fd.value == -1 || events == 0 || !hasHandler || !memory {
        return null;
      }
      entry := new Entry(Poll, hasFree, fd.value, events);
      InsertEntry(entry);
    }

    method InstantEntryNew(hasHandler: bool, hasFree: bool, memory: bool) returns (entry: Entry?)
      requires Valid()
      modifies this`entries
      ensures Valid()
      ensures entry != null <==> hasHandler && memory
      ensures entry == null ==> entries == old(entries)
      ensures entry != null ==> fresh(entry) && entry.kind == Instant && entry.hasFree == hasFree
      ensures entry != null ==> entries == [entry] + old(entries)
    {
      if !hasHandler || !memory {
        return null;
      }
      entry := new Entry(Instant, hasFree, -1, 0);
      InsertEntry(entry);
    }

    /** Removes that very entry, if it is there. */
    method EntryRemove(entry: Entry)
      requires Valid()
      modifies this`entries, this`freed
      ensures Valid()
      ensures entries == Dropped(old(entries), entry)
      ensures freed == old(freed) + if entry in old(entries) && entry.hasFree then [entry] else []
      ensures FreedFor(old(freed), freed, old(entries), entries)
    {
      for i := 0 to |entries|
        invariant entries == old(entries) && freed == old(freed)
        invariant forall j :: 0 <= j < i ==> entries[j] != entry
      {
        if entries[i] == entry {
          if entry.hasFree {
            freed := freed + [entry];
          }
          DropAt(entries, i);
          DropKeepsValid(entries, i);
          entries := entries[..i] + entries[i + 1..];
          return;
        }
      }
      NothingToDrop(entries, entry);
    }

    /** Drops everything, as the scheduler itself goes. */
    method Release()
      requires Valid()
      modifies this`entries, this`freed
      ensures Valid() && entries == [] && FreedFor(old(freed), freed, old(entries), [])
    {
      ghost var f, s := freed, entries;
      NothingFreed(f, s);
      while entries != []
        invariant Valid() && FreedFor(f, freed, s, entries)
        decreases |entries|
      {
        DropFirst(f, s);
      }
    }

    method DropFirst(ghost before: seq<Entry>, ghost s: seq<Entry>)
      requires Valid() && entries != [] && FreedFor(before, freed, s, entries)
      modifies this`entries, this`freed
      ensures Valid() && entries == old(entries)[1..] && FreedFor(before, freed, s, entries)
    {
      if entries[0].hasFree {
        freed := freed + [entries[0]];
      }
      entries := entries[1..];
      FirstGone(old(freed), old(entries));
      FreedTwice(before, old(freed), freed, s, old(entries), entries);
    }

    /** Runs and drops every instant entry; instant handlers leave the scheduler alone. */
    method HandleInstantEntries()
      requires Valid()
      modifies this`entries, this`ran, this`freed
      ensures Valid()
      ensures entries == OfKind(old(entries), Poll)
      ensures ran == old(ran) + OfKind(old(entries), Instant)
      ensures FreedFor(old(freed), freed, old(entries), entries)
    {
      ghost var i: nat := 0;
      while entries != []
        invariant Valid()
        invariant i <= |old(entries)| && entries == old(entries)[i..]
        invariant forall j :: 0 <= j < i ==> old(entries)[j].kind == Instant
        invariant ran == old(ran) + old(entries)[..i]
        invariant FreedFor(old(freed), freed, old(entries), entries)
        decreases |entries|
      {
        var entry := entries[0];
        if entry.kind != Instant {
          break;
        }
        RunFirst(old(freed), old(entries));
        i := i + 1;
      }
      SplitAt(old(entries), i);
    }

    /** Runs the first entry and drops it. */
    method RunFirst(ghost before: seq<Entry>, ghost s: seq<Entry>)
      requires Valid() && entries != [] && FreedFor(before, freed, s, entries)
      modifies this`entries, this`ran, this`freed
      ensures Valid() && entries == old(entries)[1..] && ran == old(ran) + [old(entries)[0]]
      ensures FreedFor(before, freed, s, entries)
    {
      ran := ran + [entries[0]];
      DropFirst(before, s);
    }

    method GetPollFds(max: nat) returns (fds: seq<PollFd>)
      requires max == |entries| && forall e :: e in entries ==> e.kind == Poll
      ensures |fds| == |entries|
      ensures forall i :: 0 <= i < |fds| ==> fds[i] == PollFd(entries[i].fd, entries[i].events, 0)
    {
      fds := [];
      for i := 0 to |entries|
        invariant |fds| == i
        invariant forall j :: 0 <= j < i ==> fds[j] == PollFd(entries[j].fd, entries[j].events, 0)
      {
        assert entries[i].kind == Poll;
        assert |fds| < max;
        fds := fds + [PollFd(entries[i].fd, entries[i].events, 0)];
      }
    }

    /**
     A poll handler at work. It may remove its own entry, the one at `p`, and, unless `ownOnly`,
     entries after it; which ones is up to it.
     */
    method CallPollHandler(entry: Entry, revents: int, p: nat, ownOnly: bool) returns (ghost alive: set<Entry>)
      requires Valid() && p < |entries| && entries[p] == entry
      modifies this`entries, this`dispatched, this`freed
      ensures Valid()
      ensures dispatched == old(dispatched) + [(entry, revents)]
      ensures entries == old(entries)[..p] + Keep(old(entries)[p..], alive)
      ensures ownOnly ==> forall e :: e in old(entries)[p + 1..] ==> e in alive
      ensures FreedFor(old(freed), freed, old(entries), entries)
    {
      dispatched := dispatched + [(entry, revents)];
      NothingFreed(freed, entries);
      var removesItself: bool := *;
      alive := set e | e in entries[p..];
      KeepAll(entries[p..], alive);
      assert entries == entries[..p] + entries[p..];
      if removesItself {
        RemoveFromTail(entries[..p], entries[p..], alive, entry);
        EntryRemove(entry);
        alive := alive - {entry};
      }
      if !ownOnly {
        ghost var f, t := freed, entries;
        alive := RemoveOthers(p, old(entries)[..p], old(entries)[p..], alive);
        FreedTwice(old(freed), f, freed, old(entries), t, entries);
      }
    }

    /** Removes any entries from the part that is left of `after`. */
    method RemoveOthers(p: nat, ghost before: seq<Entry>, ghost after: seq<Entry>, ghost alive: set<Entry>)
      returns (ghost left: set<Entry>)
      requires Valid() && entries == before + Keep(after, alive) && |before| == p
      modifies this`entries, this`freed
      ensures Valid() && entries == before + Keep(after, left)
      ensures FreedFor(old(freed), freed, old(entries), entries)
    {
      left := alive;
      var doomed: seq<Entry> := *;
      NothingFreed(freed, entries);
      for i := 0 to |doomed|
        invariant Valid() && entries == before + Keep(after, left)
        invariant FreedFor(old(freed), freed, old(entries), entries)
      {
        var e := doomed[i];
        if e in entries[p..] {
          assert entries[p..] == Keep(after, left);
          ghost var f, t := freed, entries;
          RemoveFromTail(before, after, left, e);
          EntryRemove(e);
          FreedTwice(old(freed), f, freed, old(entries), t, entries);
          left := left - {e};
        }
      }
    }

    /**
     One poll round; `answers` is what poll reports for each entry. `visited` are the entries whose
     turn came; an entry whose turn never came is one that a handler has removed before.
     */
    method HandlePollEntries(pollResult: int, answers: seq<int>, memory: bool, ownOnly: bool)
      returns (result: int, ghost visited: set<Entry>, ghost alive: set<Entry>)
      requires Valid() && (forall e :: e in entries ==> e.kind == Poll) && |answers| == |entries|
      requires ownOnly || DistinctDescriptors(entries)
      modifies this`entries, this`dispatched, this`freed
      ensures Valid() && entries == Keep(old(entries), alive) && FreedFor(old(freed), freed, old(entries), entries)
      ensures result == if |answers| > 0 && !memory then ERR else if pollResult <= 0 then pollResult else OK
      ensures pollResult <= 0 || result != OK ==> entries == old(entries) && dispatched == old(dispatched)
      ensures pollResult > 0 && result == OK ==>
        Dispatched(old(entries), answers, visited, ownOnly, alive, old(dispatched), dispatched)
    {
      ghost var s := entries;
      visited := {};
      alive := set e | e in s;
      KeepAll(s, alive);
      NothingFreed(freed, entries);
      var numEntries := |entries|;
      if numEntries > 0 && !memory {
        return ERR, visited, alive;
      }
      var fds := GetPollFds(numEntries);
      if pollResult <= 0 {
        return pollResult, visited, alive;
      }
      fds := PollResults(fds, answers);
      visited, alive := WalkEntries(fds, s, answers, ownOnly);
      result := OK;
    }

    /** The turn of the entry at `p`: its handler is called if there are events. */
    method TakeTurn(entry: Entry, revents: int, p: nat, ownOnly: bool) returns (ghost left: set<Entry>)
      requires Valid() && p < |entries| && entries[p] == entry
      modifies this`entries, this`dispatched, this`freed
      ensures Valid() && FreedFor(old(freed), freed, old(entries), entries)
      ensures dispatched == old(dispatched) + if revents != 0 then [(entry, revents)] else []
      ensures entries == old(entries)[..p] + Keep(old(entries)[p..], left)
      ensures ownOnly ==> forall e :: e in old(entries)[p + 1..] ==> e in left
      ensures revents == 0 ==> forall e :: e in old(entries)[p..] ==> e in left
    {
      left := set e | e in entries;
      KeepAll(entries[p..], left);
      NothingFreed(freed, entries);
      assert entries == entries[..p] + entries[p..];
      if revents != 0 {
        left := CallPollHandler(entry, revents, p, ownOnly);
      }
    }

    /** Walks the list and dispatches; `s` is the list as it was when poll was called. */
    method WalkEntries(fds: seq<PollFd>, ghost s: seq<Entry>, ghost answers: seq<int>, ownOnly: bool)
      returns (ghost visited: set<Entry>, ghost alive: set<Entry>)
      requires Valid() && s == entries && Polled(s, answers, fds)
      requires ownOnly || DistinctDescriptors(s)
      modifies this`entries, this`dispatched, this`freed
      ensures Valid() && entries == Keep(s, alive) && FreedFor(old(freed), freed, s, entries)
      ensures Dispatched(s, answers, visited, ownOnly, alive, old(dispatched), dispatched)
    {
      visited, alive := {}, set e | e in s;
      RoundStart(s, answers, alive, ownOnly);
      NothingFreed(freed, entries);
      var i: nat, p: nat := 0, 0;
      while p < |entries|
        invariant Valid() && i <= |s|
        invariant dispatched == old(dispatched) + Dispatches(s[..i], answers[..i], visited)
        invariant Round(s, answers, i, p, alive, visited, ownOnly, entries)
        invariant AllCaused(s, answers, visited, ownOnly, alive) && FreedFor(old(freed), freed, s, entries)
        decreases |s| - i
      {
        ghost var called, turn := Dispatches(s[..i], answers[..i], visited), [];
        ghost var f, t := freed, entries;
        i, p, visited, alive, turn := WalkOne(fds, i, p, ownOnly, s, answers, visited, alive);
        Regroup(old(dispatched), called, turn);
        FreedTwice(old(freed), f, freed, s, t, entries);
      }
      RoundOver(s, answers, i, p, alive, visited, ownOnly, entries);
    }

    /** Finds the descriptor of the entry at `p`, lets the entry take its turn, and moves on. */
    method WalkOne(fds: seq<PollFd>, i: nat, p: nat, ownOnly: bool, ghost s: seq<Entry>, ghost answers: seq<int>,
                   ghost visited: set<Entry>, ghost alive: set<Entry>)
      returns (nextI: nat, nextP: nat, ghost nextVisited: set<Entry>, ghost nextAlive: set<Entry>,
               ghost turn: seq<(Entry, int)>)
      requires Valid() && p < |entries| && Polled(s, answers, fds)
      requires ownOnly || DistinctDescriptors(s)
      requires Round(s, answers, i, p, alive, visited, ownOnly, entries) && AllCaused(s, answers, visited, ownOnly, alive)
      modifies this`entries, this`dispatched, this`freed
      ensures Valid() && i < nextI <= |s| && FreedFor(old(freed), freed, old(entries), entries)
      ensures Round(s, answers, nextI, nextP, nextAlive, nextVisited, ownOnly, entries)
      ensures AllCaused(s, answers, nextVisited, ownOnly, nextAlive)
      ensures dispatched == old(dispatched) + turn
      ensures Dispatches(s[..nextI], answers[..nextI], nextVisited)
           == Dispatches(s[..i], answers[..i], visited) + turn
    {
      var entry := entries[p];
      ghost var before := entries;
      ghost var x := NextTurn(s, answers, i, p, alive, visited, ownOnly, entries);
      var at := NextDescriptor(fds, i, entry.fd);
      FoundDescriptor(s, answers, fds, i, x, at, ownOnly);
      turn := if answers[x] != 0 then [(entry, answers[x])] else [];
      ghost var left := TakeTurn(entry, fds[at].revents, p, ownOnly);
      nextAlive, nextVisited := alive - Removed(before[p..], left), visited + {entry};
      // the walk moves on only if the entry is still where it was
      nextP := if p < |entries| && entries[p] == entry then p + 1 else p;
      nextI := at + 1;
      RoundStep(s, answers, i, x, p, alive, visited, ownOnly, before, entries, left,
                nextI, nextP, nextAlive, nextVisited, turn);
      RemovedFrom(s, answers, i, x, p, alive, visited, ownOnly, before, left);
      StillCaused(s, answers, visited, ownOnly, alive, x, Removed(before[p..], left));
    }

    /**
     One round: every instant entry that was there runs once and is gone, and then the poll round,
     `answers` being what poll reports for each poll entry.
     */
    method Run(pollResult: int, answers: seq<int>, memory: bool, ownOnly: bool)
      returns (result: int, ghost visited: set<Entry>, ghost alive: set<Entry>)
      requires Valid() && |answers| == |OfKind(entries, Poll)|
      requires ownOnly || DistinctDescriptors(OfKind(entries, Poll))
      modifies this
      ensures Valid() && FreedFor(old(freed), freed, old(entries), entries)
      ensures ran == old(ran) + OfKind(old(entries), Instant)
      ensures entries == Keep(OfKind(old(entries), Poll), alive)
      ensures result == if |answers| > 0 && !memory then ERR else if pollResult <= 0 then pollResult else OK
      ensures pollResult <= 0 || result != OK ==> entries == OfKind(old(entries), Poll) && dispatched == old(dispatched)
      ensures pollResult > 0 && result == OK ==>
        Dispatched(OfKind(old(entries), Poll), answers, visited, ownOnly, alive, old(dispatched), dispatched)
      ensures pollResult > 0 && result == OK ==>
        forall k :: 0 <= k < |answers| && answers[k] != 0 && (ownOnly || OfKind(old(entries), Poll)[k] in alive) ==>
          (OfKind(old(entries), Poll)[k], answers[k]) in dispatched
    {
      HandleInstantEntries();
      ghost var f, t := freed, entries;
      result, visited, alive := HandlePollEntries(pollResult, answers, memory, ownOnly);
      if pollResult > 0 && result == OK {
        AllCalled(t, answers, visited, ownOnly, alive, old(dispatched), dispatched);
      }
      FreedTwice(old(freed), f, freed, old(entries), t, entries);
    }
  }

  // ----- The life of a scheduler -----

  /** What the program does with its scheduler. Entries are named by the order of their creation. */
  datatype Step =
    | AddPoll(fd: Option<int>, events: int, hasHandler: bool, hasFree: bool)
    | AddInstant(hasHandler: bool, hasFree: bool)
    | Remove(n: nat)
    | RunRound(pollResult: int, answer: nat -> int, ownOnly: bool)

  /** The entry that a step makes, if it makes one: its kind, and whether there is something to free. */
  function Makes(step: Step, memory: bool): Option<(Kind, bool)> {
    match step
    case AddPoll(fd, events, hasHandler, hasFree) =>
      if fd.Some? && fd.value != -1 && events != 0 && hasHandler && memory then Some((Poll, hasFree)) else None
    case AddInstant(hasHandler, hasFree) => if hasHandler && memory then Some((Instant, hasFree)) else None
    case _ => None
  }

  ghost function AllMade(steps: seq<Step>, memory: nat -> bool): seq<(Kind, bool)> {
    if steps == [] then []
    else
      var last := |steps| - 1;
      var x := Makes(steps[last], memory(last));
      AllMade(steps[..last], memory) + if x.Some? then [x.value] else []
  }

  /** The entries made, in order, are as planned. */
  ghost predicate AsPlanned(made: seq<Entry>, plan: seq<(Kind, bool)>) {
    |made| == |plan| && forall k :: 0 <= k < |made| ==> (made[k].kind, made[k].hasFree) == plan[k]
  }

  /** Of all the entries ever made, those gone have run once if instant, and been freed once. */
  ghost predicate Accounted(made: seq<Entry>, entries: seq<Entry>, ran: seq<Entry>, freed: seq<Entry>) {
    && FreedFor([], freed, made, entries) && Distinct(made)
    && Distinct(ran) && (forall e :: e in ran ==> e in made && e !in entries && e.kind == Instant)
  }

  lemma MadeOne(made: seq<Entry>, entries: seq<Entry>, now: seq<Entry>, ran: seq<Entry>, freed: seq<Entry>, x: Entry)
    requires Accounted(made, entries, ran, freed) && x !in made
    requires (forall e :: e in now ==> e in entries || e == x) && (forall e :: e in entries ==> e in now) && x in now
    ensures Accounted(made + [x], now, ran, freed)
  {
    DistinctAppend(made, [x]);
  }

  lemma RanSome(made: seq<Entry>, entries: seq<Entry>, now: seq<Entry>, ran: seq<Entry>, more: seq<Entry>,
                freed: seq<Entry>, freed': seq<Entry>)
    requires Accounted(made, entries, ran, freed) && FreedFor(freed, freed', entries, now)
    requires Distinct(more) && forall e :: e in more ==> e in entries && e !in now && e.kind == Instant
    ensures Accounted(made, now, ran + more, freed')
  {
    FreedTwice([], freed, freed', made, entries, now);
    DistinctAppend(ran, more);
  }

  lemma {:induction false} OfKindDistinct(s: seq<Entry>, kind: Kind)
    requires Distinct(s)
    ensures Distinct(OfKind(s, kind))
  {
    if s == [] {
    } else {
      OfKindDistinct(s[1..], kind);
    }
  }

  method DoStep(scheduler: Scheduler, made: seq<Entry>, step: Step, memory: bool) returns (made': seq<Entry>)
    requires scheduler.Valid() && Accounted(made, scheduler.entries, scheduler.ran, scheduler.freed)
    modifies scheduler
    ensures scheduler.Valid() && Accounted(made', scheduler.entries, scheduler.ran, scheduler.freed)
    ensures var x := Makes(step, memory);
      && |made'| == |made| + (if x.Some? then 1 else 0) && made <= made'
      && (x.Some? ==> (made'[|made|].kind, made'[|made|].hasFree) == x.value)
  {
    made' := made;
    match step
    case AddPoll(fd, events, hasHandler, hasFree) =>
      ghost var s := scheduler.entries;
      var entry := scheduler.PollEntryNew(fd, events, hasHandler, hasFree, memory);
      if entry != null {
        MadeOne(made, s, scheduler.entries, scheduler.ran, scheduler.freed, entry);
        made' := made + [entry];
      }
    case AddInstant(hasHandler, hasFree) =>
      ghost var s := scheduler.entries;
      var entry := scheduler.InstantEntryNew(hasHandler, hasFree, memory);
      if entry != null {
        MadeOne(made, s, scheduler.entries, scheduler.ran, scheduler.freed, entry);
        made' := made + [entry];
      }
    case Remove(n) =>
      if n < |made| {
        ghost var s, f := scheduler.entries, scheduler.freed;
        scheduler.EntryRemove(made[n]);
        RanSome(made, s, scheduler.entries, scheduler.ran, [], f, scheduler.freed);
        assert scheduler.ran + [] == scheduler.ran;
      }
    case RunRound(pollResult, answer, ownOnly) =>
      ghost var s, f, ran := scheduler.entries, scheduler.freed, scheduler.ran;
      var polled := OfKind(scheduler.entries, Poll);
      var answers := seq(|polled|, i requires 0 <= i < |polled| => answer(i));
      ghost var visited, alive;
      var result;
      result, visited, alive := scheduler.Run(pollResult, answers, memory, ownOnly || !DistinctDescriptors(polled));
      OfKindDistinct(s, Instant);
      RanSome(made, s, scheduler.entries, ran, OfKind(s, Instant), f, scheduler.freed);
  }

  /**
   Over any life of a scheduler up to its release, no instant entry runs twice, and the argument of
   every entry ever made is freed exactly once, if there is something to free.
   */
  method Live(steps: seq<Step>, memory: nat -> bool) returns (scheduler: Scheduler, made: seq<Entry>)
    ensures scheduler.entries == [] && Distinct(made) && AsPlanned(made, AllMade(steps, memory))
    ensures Distinct(scheduler.ran) && forall e :: e in scheduler.ran ==> e in made && e.kind == Instant
    ensures Distinct(scheduler.freed) && forall e :: e in scheduler.freed ==> e in made && e.hasFree
    ensures forall e :: e in made && e.hasFree ==> e in scheduler.freed
  {
    scheduler := new Scheduler();
    made := [];
    for n := 0 to |steps|
      invariant fresh(scheduler) && scheduler.Valid()
      invariant Accounted(made, scheduler.entries, scheduler.ran, scheduler.freed)
      invariant AsPlanned(made, AllMade(steps[..n], memory))
    {
      assert steps[..n + 1][..n] == steps[..n];
      made := DoStep(scheduler, made, steps[n], memory(n));
    }
    assert steps[..|steps|] == steps;
    ghost var s, f := scheduler.entries, scheduler.freed;
    scheduler.Release();
    RanSome(made, s, [], scheduler.ran, [], f, scheduler.freed);
    assert scheduler.freed[0..] == scheduler.freed;
  }
}

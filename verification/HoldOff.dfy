/**
 How long to wait between attempts at a client-initiated bootstrap.

 Instants are in nanoseconds, durations in whole seconds; both are 64-bit in seconds, and what does
 not fit becomes invalid. The delays grow from three seconds to two minutes; proved for every run
 of attempts, and exactly for those initial delays whose double still fits.
 */
module HoldOff {
  import opened Ids

  const NS_IN_S: int := 1_000_000_000
  const INT64_MAX: int := 0x7FFF_FFFF_FFFF_FFFF
  const MIN_HOLDOFF: int := 3
  const MAX_HOLDOFF: int := 120

  /** The instant so many seconds later, if it can be represented. */
  function After(instant: int, seconds: int): Option<int> {
    var later := instant + seconds * NS_IN_S;
    if later / NS_IN_S > INT64_MAX then None else Some(later)
  }

  function Doubled(seconds: int): Option<int> {
    if 2 * seconds > INT64_MAX then None else Some(2 * seconds)
  }

  function Clamped(h: Option<int>): Option<int> {
    if h.None? then None
    else if h.value < MIN_HOLDOFF then Some(MIN_HOLDOFF)
    else if MAX_HOLDOFF < h.value then Some(MAX_HOLDOFF)
    else h
  }

  /** What the fields are taken to be when the attempt is scheduled. */
  ghost function Settled(last: Option<int>, holdoff: Option<int>, now: int): (int, int) {
    (if last.None? then now else last.value, if holdoff.None? then 0 else holdoff.value)
  }

  /** One successful schedule leads from the one pair of fields to the other. */
  ghost predicate Follows(last: Option<int>, holdoff: Option<int>, now: int, last': Option<int>, holdoff': Option<int>) {
    var s := Settled(last, holdoff, now);
    After(s.0, s.1).Some? && last' == After(s.0, s.1) && holdoff' == Clamped(Doubled(s.1))
  }

  /** In numbers: nanoseconds to the attempt, seconds from 3 to 120 to the next one, all of them 64-bit. */
  lemma FollowsMeans(last: Option<int>, h: int, now: int, last': Option<int>, holdoff': Option<int>)
    requires 0 <= h && Follows(last, Some(h), now, last', holdoff')
    ensures last' == Some((if last.None? then now else last.value) + h * 1_000_000_000)
    ensures h > 0x3FFF_FFFF_FFFF_FFFF ==> holdoff' == None
    ensures h <= 0x3FFF_FFFF_FFFF_FFFF ==> holdoff' == Some(if h < 2 then 3 else if h > 60 then 120 else 2 * h)
  {
  }

  /** Exactly the instants of which the seconds fit can be represented. */
  lemma AfterMeans(instant: int, seconds: int)
    ensures After(instant, seconds).Some? <==>
      instant + seconds * 1_000_000_000 < 0x8000_0000_0000_0000 * 1_000_000_000
  {
  }

  class Backoff {
    var lastAttempt: Option<int>
    var holdoff: Option<int>

    constructor ()
      ensures lastAttempt == None && holdoff == None
    {
      lastAttempt, holdoff := None, None;
    }

    method Reset()
      modifies this
      ensures lastAttempt == None && holdoff == None
    {
      lastAttempt, holdoff := None, None;
    }

    /** Schedules the next attempt one hold-off after the last one, if the scheduler can. */
    method Schedule(now: int, refused: bool) returns (r: int)
      modifies this
      ensures var s := Settled(old(lastAttempt), old(holdoff), now);
        r == OK <==> After(s.0, s.1).Some? && !refused
      ensures var s := Settled(old(lastAttempt), old(holdoff), now);
        if r == OK then After(s.0, s.1).Some? && lastAttempt == After(s.0, s.1) && holdoff == Clamped(Doubled(s.1))
        else lastAttempt == Some(s.0) && holdoff == Some(s.1)
    {
      if lastAttempt.None? {
        lastAttempt := Some(now);
      }
      if holdoff.None? {
        holdoff := Some(0);
      }
      var attempt := After(lastAttempt.value, holdoff.value);
      if attempt.None? || refused {
        return ERR;
      }
      lastAttempt := attempt;
      holdoff := Clamped(Doubled(holdoff.value));
      r := OK;
    }

    /**
     A request to bootstrap. The first one takes the hold-off from the Bootstrap Server's account;
     if that has none, nothing is scheduled.
     */
    method Request(now: int, clientHoldOff: Option<int>, refused: bool) returns (r: int, scheduled: bool)
      modifies this
      ensures var h := if old(lastAttempt).None? then clientHoldOff else old(holdoff);
        var s := Settled(old(lastAttempt), h, now);
        scheduled <==> (
          && After(s.0, s.1).Some? && !refused
          && (old(lastAttempt).Some? || (clientHoldOff.Some? && clientHoldOff.value >= 0)))
      ensures r == OK && !scheduled <==> old(lastAttempt).None? && (clientHoldOff.None? || clientHoldOff.value < 0)
      ensures r == OK && !scheduled ==> lastAttempt == None && holdoff == old(holdoff)
      ensures r != OK ==> !scheduled
      ensures var h := if old(lastAttempt).None? then clientHoldOff else old(holdoff);
        var s := Settled(old(lastAttempt), h, now);
        && (scheduled ==> Follows(old(lastAttempt), h, now, lastAttempt, holdoff))
        && (r != OK ==> lastAttempt == Some(s.0) && holdoff == Some(s.1))
    {
      if lastAttempt.None? {
        if clientHoldOff.None? || clientHoldOff.value < 0 {
          return OK, false;
        }
        holdoff := clientHoldOff;
      }
      r := Schedule(now, refused);
      scheduled := r == OK;
    }
  }

  // ----- Runs of attempts -----

  /** The instants and hold-offs stored by successive successful schedules, the first one from a reset. */
  ghost predicate Attempts(h0: int, nows: seq<int>, lasts: seq<Option<int>>, holdoffs: seq<Option<int>>) {
    && |nows| == |lasts| == |holdoffs|
    && (nows != [] ==> Follows(None, Some(h0), nows[0], lasts[0], holdoffs[0]))
    && forall n :: 0 < n < |nows| ==> StepAt(n, nows, lasts, holdoffs)
  }

  ghost predicate StepAt(n: nat, nows: seq<int>, lasts: seq<Option<int>>, holdoffs: seq<Option<int>>)
    requires 0 < n < |nows| && |nows| == |lasts| == |holdoffs|
  {
    Follows(lasts[n - 1], holdoffs[n - 1], nows[n], lasts[n], holdoffs[n])
  }

  ghost function Pow2(n: nat): (r: nat)
    ensures r > n
  {
    if n == 0 then 1 else 2 * Pow2(n - 1)
  }

  ghost function Min(a: int, b: int): int { if a < b then a else b }

  ghost function Max(a: int, b: int): int { if a < b then b else a }

  /** The hold-off after `n + 1` attempts, from the initial one. */
  ghost function Expected(h0: int, n: nat): int {
    Min(MAX_HOLDOFF, Max(MIN_HOLDOFF, 2 * h0) * Pow2(n))
  }

  lemma Grows(a: int, n: nat)
    requires a >= 0
    ensures a * Pow2(n + 1) == 2 * (a * Pow2(n)) && a * Pow2(n) >= a
  {
    var p := Pow2(n);
    assert Pow2(n + 1) == 2 * p;
    assert a * (2 * p) == 2 * (a * p);
    assert a * p >= a by {
      assert p >= 1;
    }
  }

  /**
   After `n + 1` successful attempts the stored hold-off has doubled `n` times from twice the
   initial one, or three seconds, up to two minutes; and attempt `n + 1` comes that much later than
   attempt `n`.
   */
  lemma {:induction false} HoldOffAfter(h0: int, nows: seq<int>, lasts: seq<Option<int>>, holdoffs: seq<Option<int>>, n: nat)
    requires 0 <= h0 && 2 * h0 <= INT64_MAX
    requires Attempts(h0, nows, lasts, holdoffs) && n < |nows|
    ensures holdoffs[n] == Some(Expected(h0, n)) && lasts[n].Some?
    ensures n > 0 ==> lasts[n - 1].Some? && lasts[n].value - lasts[n - 1].value == Expected(h0, n - 1) * 1_000_000_000
  {
    var a := Max(MIN_HOLDOFF, 2 * h0);
    if n == 0 {
      assert a * Pow2(0) == a;
    } else {
      HoldOffAfter(h0, nows, lasts, holdoffs, n - 1);
      assert StepAt(n, nows, lasts, holdoffs);
      Grows(a, n - 1);
    }
  }

  /** The gaps lie between three seconds and two minutes, never shrink, and are at their longest from the seventh on. */
  lemma GapsGrow(h0: int, n: nat)
    requires 0 <= h0
    ensures 3 <= Expected(h0, n) <= 120
    ensures Expected(h0, n) <= Expected(h0, n + 1)
    ensures n >= 6 ==> Expected(h0, n) == 120
  {
    var a := Max(MIN_HOLDOFF, 2 * h0);
    Grows(a, n);
    if n >= 6 {
      Pow2Grows(6, n);
      assert Pow2(6) == 64 by {
        assert Pow2(1) == 2 && Pow2(2) == 4 && Pow2(3) == 8 && Pow2(4) == 16 && Pow2(5) == 32;
      }
      assert a * Pow2(n) >= 3 * 64;
    }
  }

  lemma {:induction false} Pow2Grows(m: nat, n: nat)
    requires m <= n
    ensures Pow2(m) <= Pow2(n)
  {
    if m == n {
    } else {
      Pow2Grows(m, n - 1);
    }
  }

  /**
   An initial hold-off whose double does not fit breaks the pattern: it leaves no hold-off behind,
   so that the second attempt is due at the very instant of the first.
   */
  lemma HoldOffLost(h0: int, nows: seq<int>, lasts: seq<Option<int>>, holdoffs: seq<Option<int>>)
    requires 2 * h0 > INT64_MAX
    requires Attempts(h0, nows, lasts, holdoffs) && |nows| >= 2
    ensures holdoffs[0] == None && lasts[0].Some? && lasts[1] == lasts[0]
  {
    assert StepAt(1, nows, lasts, holdoffs);
  }

  /** The pattern holds exactly when the double of the initial hold-off fits. */
  lemma HoldOffPattern(h0: int, nows: seq<int>, lasts: seq<Option<int>>, holdoffs: seq<Option<int>>)
    requires 0 <= h0 && Attempts(h0, nows, lasts, holdoffs) && nows != []
    ensures 2 * h0 <= INT64_MAX <==> forall n: nat :: n < |nows| ==> holdoffs[n] == Some(Expected(h0, n))
  {
    if 2 * h0 <= INT64_MAX {
      forall n: nat | n < |nows|
        ensures holdoffs[n] == Some(Expected(h0, n))
      {
        HoldOffAfter(h0, nows, lasts, holdoffs, n);
      }
    } else {
      assert holdoffs[0] == None;
    }
  }

  /** A hold-off of more than 146 thousand million years: both attempts are due at the same instant. */
  lemma HoldOffLostExample()
    ensures var h0 := 0x4000_0000_0000_0000; var first := Some(h0 * NS_IN_S);
      2 * h0 > INT64_MAX && Attempts(h0, [0, 0], [first, first], [None, Some(MIN_HOLDOFF)])
  {
    var h0 := 0x4000_0000_0000_0000;
    var lasts, holdoffs := [Some(h0 * NS_IN_S), Some(h0 * NS_IN_S)], [None, Some(MIN_HOLDOFF)];
    assert StepAt(1, [0, 0], lasts, holdoffs);
  }

  // ----- Requests, some of which fail -----

  datatype Asked = Asked(now: int, clientHoldOff: Option<int>, refused: bool)

  /** The hold-off that the first request to schedule anything takes from the account. */
  ghost function FirstHoldOff(requests: seq<Asked>): (h0: Option<int>)
    ensures h0.Some? ==> h0.value >= 0
  {
    if requests == [] then None
    else
      var last := |requests| - 1;
      var h0 := FirstHoldOff(requests[..last]);
      if h0.None? && requests[last].clientHoldOff.Some? && requests[last].clientHoldOff.value >= 0
      then requests[last].clientHoldOff else h0
  }

  ghost function Count(results: seq<bool>): nat {
    if results == [] then 0
    else Count(results[..|results| - 1]) + if results[|results| - 1] then 1 else 0
  }

  /**
   The fields after some requests: blank, or as the first try has left them, or as the last attempt
   has left them, which a failed try since does not change.
   */
  ghost predicate Reached(h0: Option<int>, first: int, nows: seq<int>, lasts: seq<Option<int>>, holdoffs: seq<Option<int>>,
                          last: Option<int>, holdoff: Option<int>)
  {
    && (h0.None? ==> last == None && nows == [] && lasts == [] && holdoffs == [])
    && (h0.Some? ==> last.Some? && Attempts(h0.value, nows, lasts, holdoffs))
    && (h0.Some? && nows == [] ==> last == Some(first) && holdoff == h0)
    && (h0.Some? && nows != [] ==>
          var n := |nows| - 1; last == lasts[n] && (holdoff == holdoffs[n] || (holdoffs[n] == None && holdoff == Some(0))))
  }

  lemma OneMoreAttempt(h0: int, first: int, nows: seq<int>, lasts: seq<Option<int>>, holdoffs: seq<Option<int>>,
                       last: Option<int>, holdoff: Option<int>, now: int, last': Option<int>, holdoff': Option<int>)
    requires Reached(Some(h0), first, nows, lasts, holdoffs, last, holdoff) && Follows(last, holdoff, now, last', holdoff')
    ensures Reached(Some(h0), first, nows + [if nows == [] then first else now], lasts + [last'], holdoffs + [holdoff'],
                    last', holdoff')
  {
    var nows', lasts', holdoffs' := nows + [if nows == [] then first else now], lasts + [last'], holdoffs + [holdoff'];
    forall n | 0 < n < |nows'|
      ensures StepAt(n, nows', lasts', holdoffs')
    {
      if n < |nows| {
        assert StepAt(n, nows, lasts, holdoffs);
      }
    }
  }

  /**
   Any run of requests from a reset on: those that schedule something are `Attempts`, whatever
   requests fail in between.
   */
  method RequestAll(b: Backoff, requests: seq<Asked>)
    returns (scheduled: seq<bool>, ghost nows: seq<int>, ghost lasts: seq<Option<int>>, ghost holdoffs: seq<Option<int>>)
    requires b.lastAttempt == None
    modifies b
    ensures |scheduled| == |requests| && |nows| == |lasts| == |holdoffs| == Count(scheduled)
    ensures nows != [] ==> FirstHoldOff(requests).Some? && Attempts(FirstHoldOff(requests).value, nows, lasts, holdoffs)
    ensures nows != [] ==> b.lastAttempt == lasts[|lasts| - 1]
  {
    scheduled, nows, lasts, holdoffs := [], [], [], [];
    ghost var first: int := 0;
    for i := 0 to |requests|
      invariant |scheduled| == i && |nows| == |lasts| == |holdoffs| == Count(scheduled)
      invariant Reached(FirstHoldOff(requests[..i]), first, nows, lasts, holdoffs, b.lastAttempt, b.holdoff)
    {
      assert requests[..i + 1][..i] == requests[..i];
      ghost var h0, last := FirstHoldOff(requests[..i + 1]), b.lastAttempt;
      ghost var holdoff := if last.None? then h0 else b.holdoff;
      var now := requests[i].now;
      if last.None? {
        first := now;
      }
      var r, done := b.Request(now, requests[i].clientHoldOff, requests[i].refused);
      if done {
        if last.None? {
          assert Follows(Some(first), holdoff, now, b.lastAttempt, b.holdoff);
        }
        OneMoreAttempt(h0.value, first, nows, lasts, holdoffs, if last.None? then Some(first) else last, holdoff, now,
                       b.lastAttempt, b.holdoff);
        nows, lasts, holdoffs :=
          nows + [if nows == [] then first else now], lasts + [b.lastAttempt], holdoffs + [b.holdoff];
      }
      assert (scheduled + [done])[..i] == scheduled;
      scheduled := scheduled + [done];
    }
    assert requests[..|requests|] == requests;
  }
}

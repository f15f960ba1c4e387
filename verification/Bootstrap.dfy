/**
 The bootstrap session: a data model transaction that stays open from the first message of the
 Bootstrap Server until Bootstrap Finish, across many calls.

 `Valid` holds between any two calls. It says that the transaction is open exactly while a session
 is in progress, that the session token is bound to a connection only then, that no purge of the
 Bootstrap Server's account can be pending meanwhile, and that giving up the session would restore
 the data model as it was when the session started.
 */
module Bootstrap {
  import opened Ids
  import opened Instances
  import opened AclValidation
  import opened DataModel
  import opened NotifyQueue
  import opened AccessRepair
  import opened AccessSteps
  import opened HoldOff
  import D = BootstrapDelete
  import W = BootstrapWrite
  import S = AccessSync

  /** The connection a session was started on, by the token of its endpoint association. */
  datatype Token = Unbound | Bound(session: int)

  /** The connection that a message has come on, or is to be sent on. */
  datatype Connection = NoConnection | Connection(ssid: Id, session: int)

  function CurrentSsid(c: Connection): Id {
    if c.NoConnection? then SSID_BOOTSTRAP else c.ssid
  }

  datatype Action =
    | WriteAction(writeTarget: W.WriteTarget, payload: W.Payload)
    | DeleteAction(target: D.Target, isBsUri: bool)
    | DiscoverAction
    | FinishAction
    | OtherAction

  /** What has become of a Bootstrap Request; an answer may be the expected 2.04 Changed or not. */
  datatype Response = Partial(changed: bool) | Answered(changed: bool) | Failed | Cancelled

  predicate ProperTarget(target: W.WriteTarget) {
    target.WholeInstance? || target.AResource? ==> target.iid != ID_INVALID
  }

  /** The session follows the connection that the latest message has come on. */
  function Rebound(c: Connection, token: Token): Token {
    if c.NoConnection? then token else Bound(c.session)
  }

  ghost predicate HasAccount(objs: Objects) {
    0 in objs && exists x :: x in objs[0] && x.Security? && x.bootstrap
  }

  /** As before; Objects whose rollback handler may fail are excepted, which Access Control is not. */
  ghost predicate Restored(objs: Objects, before: Objects, faulty: AppObjects) {
    && AgreeOutside(objs, before, faulty) && AcOf(objs) == AcOf(before)
    && (faulty == {} ==> objs == before)
  }

  lemma RestoredTwice(a: Objects, b: Objects, c: Objects, faulty: AppObjects)
    requires Restored(b, a, faulty) && Restored(c, b, faulty)
    ensures Restored(c, a, faulty)
  {
  }

  /** What a message that succeeds has done. */
  ghost predicate ActionDone(action: Action, dm: Dm, c: Connection, before: Objects, after: Objects,
                             q: seq<ObjectEntry>, q': seq<ObjectEntry>)
  {
    match action
    case WriteAction(target, payload) =>
      && W.Writable(target) && W.OnlyAbout(before, after, q, q', target.oid)
      && W.WriteDone(target, payload, dm.partial, before, after, q, q')
    case DeleteAction(target, isBsUri) => !isBsUri && D.DeleteDone(target, dm.fixed, before, after, q, q')
    case DiscoverAction => after == before
    case FinishAction =>
      q' == [] && (OID_ACCESS_CONTROL in before && q != [] ==> Synchronised(before, after, q, CurrentSsid(c)))
    case OtherAction => false
  }

  /** The account is gone, and other Instances at most along with it. */
  ghost predicate AccountGone(before: Objects, after: Objects, iid: Id) {
    OID_SECURITY in after && !Has(after[OID_SECURITY], iid) && OnlyLosses(before, after)
  }

  ghost function WithoutAccount(objs: Objects, iid: Id): (r: Objects)
    requires WellFormed(objs) && OID_SECURITY in objs
    ensures WellFormed(r)
  {
    WithoutListOk(OID_SECURITY, objs[OID_SECURITY], iid);
    objs[OID_SECURITY := Without(objs[OID_SECURITY], iid)]
  }

  /** The Security object, and those that lose an Instance when the account is gone. */
  ghost function TouchedByPurge(objs: Objects, iid: Id): set<Id>
    requires WellFormed(objs) && OID_SECURITY in objs
  {
    {OID_SECURITY} + Losing(WithoutAccount(objs, iid))
  }

  /** Synchronisation never brings an Instance of another Object back. */
  lemma StaysAway(mid: Objects, after: Objects, iid: Id)
    requires OnlyLosses(mid, after) && OID_SECURITY in mid && !Has(mid[OID_SECURITY], iid)
    ensures OID_SECURITY in after && !Has(after[OID_SECURITY], iid)
  {
    assert PartOf(after[OID_SECURITY], mid[OID_SECURITY]);
    forall i | 0 <= i < |after[OID_SECURITY]|
      ensures after[OID_SECURITY][i].iid != iid
    {
      assert after[OID_SECURITY][i] in mid[OID_SECURITY];
    }
  }

  /** An Instance of Security has gone, and nothing else has happened. */
  ghost predicate OnlySecurityChanged(q: seq<ObjectEntry>) {
    forall oid: Id :: About(q, oid) == if oid == OID_SECURITY then ObjectEntry(oid, true, [], []) else Blank(oid)
  }

  lemma GoneForGood(before: Objects, after: Objects, iid: Id)
    requires OID_SECURITY in before && OnlyLosses(before[OID_SECURITY := Without(before[OID_SECURITY], iid)], after)
    ensures AccountGone(before, after, iid)
  {
    var mid := before[OID_SECURITY := Without(before[OID_SECURITY], iid)];
    StaysAway(mid, after, iid);
    forall oid | oid in before && oid != OID_ACCESS_CONTROL
      ensures PartOf(after[oid], before[oid])
    {
      assert PartOf(after[oid], mid[oid]);
    }
  }

  class Session {
    const dm: Dm
    const access: S.AccessControl
    const queue: Queue
    const backoff: Backoff
    const allowLegacy: bool
    /** The timer queue never refuses a job, requests can be sent, and servers enabled and disabled. */
    const calm: bool
    /** What an account says about when it is to be purged, in seconds. */
    const timeoutOf: Id -> Option<int>
    var inProgress: bool
    var token: Token
    var trigger: bool
    var exchangeValid: bool
    var purgeJob: bool
    var finishTimeoutJob: bool
    var clientInitiatedJob: bool
    /** The data model when the session in progress started. */
    ghost var started: Objects

    constructor (access: S.AccessControl, allowLegacy: bool, calm: bool, timeoutOf: Id -> Option<int>)
      requires access.dm.Valid() && access.dm.depth == 0 && !access.syncInProgress
      ensures Valid() && !inProgress && dm == access.dm && this.access == access && fresh(queue) && fresh(backoff)
    {
      this.access, this.dm, this.allowLegacy, this.calm, this.timeoutOf := access, access.dm, allowLegacy, calm, timeoutOf;
      queue := new Queue();
      backoff := new Backoff();
      inProgress, token, trigger, exchangeValid := false, Unbound, false, false;
      purgeJob, finishTimeoutJob, clientInitiatedJob := false, false, false;
      started := access.dm.objs;
    }

    ghost predicate Valid()
      reads this, dm, access, queue
    {
      && access.dm == dm && dm.Valid() && queue.Valid() && !access.syncInProgress
      && dm.depth == (if inProgress then 1 else 0)
      && (inProgress ==> !purgeJob && dm.base == started)
      && (!inProgress ==> token == Unbound)
      && (clientInitiatedJob ==> !exchangeValid)
    }

    /** What giving up would restore: the data model as it was before the session, if there is one. */
    ghost function Fallback(): Objects
      reads this, dm
    {
      if inProgress then started else dm.objs
    }

    // ----- Starting and giving up -----

    /**
     Ties the session to the connection and opens the transaction, unless it is open. A request of
     our own that is still outstanding is cancelled, and so is a pending purge.
     */
    method StartIfNotStarted(c: Connection)
      requires Valid()
      modifies this`inProgress, this`token, this`started, this`exchangeValid, this`purgeJob, dm
      ensures Valid() && inProgress && !purgeJob && dm.objs == old(dm.objs)
      ensures dm.needsValidation == old(dm.needsValidation) && dm.mishaps == old(dm.mishaps) && dm.saved == old(dm.saved)
      ensures started == if old(inProgress) then old(started) else old(dm.objs)
      ensures token == if c.NoConnection? then old(token) else Bound(c.session)
      ensures exchangeValid == (old(exchangeValid) && c.NoConnection?)
    {
      if c.Connection? {
        token := Bound(c.session);
        exchangeValid := false;
      }
      if !inProgress {
        started := dm.objs;
        dm.Begin();
        purgeJob := false;
      }
      inProgress := true;
    }

    /** Gives up the session, if there is one, and with it everything that was done in it. */
    method Abort()
      requires Valid()
      modifies this`inProgress, this`token, dm
      ensures Valid() && !inProgress && dm.depth == 0
      ensures !old(inProgress) ==> dm.objs == old(dm.objs)
      ensures Restored(dm.objs, old(Fallback()), dm.faulty)
    {
      if inProgress {
        var r := dm.Rollback();
        inProgress := false;
        token := Unbound;
      }
    }

    /** Shutting down: whatever is pending is dropped, and a session in progress is given up. */
    method Cleanup()
      requires Valid() && !exchangeValid
      modifies this`inProgress, this`token, this`purgeJob, this`finishTimeoutJob, this`clientInitiatedJob, dm, queue, backoff
      ensures Valid() && !inProgress && !purgeJob && !finishTimeoutJob && !clientInitiatedJob
      ensures queue.entries == [] && backoff.lastAttempt == None && backoff.holdoff == None
      ensures !old(inProgress) ==> dm.objs == old(dm.objs)
      ensures Restored(dm.objs, old(Fallback()), dm.faulty)
    {
      clientInitiatedJob := false;
      backoff.Reset();
      Abort();
      purgeJob := false;
      finishTimeoutJob := false;
      queue.entries := [];
    }

    // ----- Write and Delete -----

    method Write(c: Connection, target: W.WriteTarget, payload: W.Payload) returns (r: int)
      requires Valid()
      requires ProperTarget(target)
      modifies this`inProgress, this`token, this`started, this`exchangeValid, this`purgeJob, this`clientInitiatedJob, dm, queue
      ensures Valid()
      ensures !W.Writable(target) ==> r == ERR_METHOD_NOT_ALLOWED && dm.objs == old(dm.objs)
      ensures !W.Writable(target) ==> inProgress == old(inProgress) && started == old(started)
      ensures W.Writable(target) ==> inProgress && started == old(Fallback()) && !clientInitiatedJob
      ensures W.Writable(target) ==> W.OnlyAbout(old(dm.objs), dm.objs, old(queue.entries), queue.entries, target.oid)
      ensures W.Writable(target) && r == OK ==>
        W.WriteDone(target, payload, dm.partial, old(dm.objs), dm.objs, old(queue.entries), queue.entries)
      ensures W.WillWrite(dm, target, payload, old(dm.objs).Keys) ==>
        (r == OK <==> (target.oid == 0 ==> W.OneAccount(dm.objs[0])))
      ensures token == if W.Writable(target) then Rebound(c, old(token)) else old(token)
      ensures exchangeValid ==> old(exchangeValid)
    {
      if !W.Writable(target) {
        return ERR_METHOD_NOT_ALLOWED;
      }
      clientInitiatedJob := false;
      StartIfNotStarted(c);
      r := W.Write(dm, queue, target, payload);
    }

    method Delete(c: Connection, target: D.Target, isBsUri: bool) returns (r: int)
      requires Valid()
      modifies this`inProgress, this`token, this`started, this`exchangeValid, this`purgeJob, this`clientInitiatedJob, dm, queue
      ensures Valid() && inProgress && started == old(Fallback()) && !clientInitiatedJob
      ensures dm.objs.Keys == old(dm.objs).Keys
      ensures r == OK ==> D.DeleteDone(target, dm.fixed, old(dm.objs), dm.objs, old(queue.entries), queue.entries)
      ensures !target.AnInstance? ==> D.AllLostSome(old(dm.objs), old(queue.entries), queue.entries, dm.fixed)
      ensures target.AnInstance? && r != OK ==> queue.entries == old(queue.entries)
      ensures token == Rebound(c, old(token))
      ensures isBsUri || target.Deeper? ==> r == ERR_BAD_REQUEST
      ensures D.WillDelete(dm, target, isBsUri, old(dm.objs).Keys) ==> r == OK
      ensures exchangeValid ==> old(exchangeValid)
    {
      clientInitiatedJob := false;
      StartIfNotStarted(c);
      ghost var failed;
      r, failed := D.Delete(dm, queue, target, isBsUri);
    }

    // ----- Finishing -----

    method ValidateConfiguration(c: Connection) returns (r: int)
      requires Valid()
      modifies this`inProgress, this`token, this`started, this`exchangeValid, this`purgeJob, this`clientInitiatedJob, dm
      ensures Valid() && inProgress && started == old(Fallback()) && !clientInitiatedJob
      ensures dm.objs == old(dm.objs) && (r == OK || r == ERR_NOT_ACCEPTABLE)
      ensures r == OK && old(dm.needsValidation) ==> AcValid(dm.objs, dm.serverSsid)
      ensures exchangeValid == (old(exchangeValid) && c.NoConnection?) && token == Rebound(c, old(token))
      ensures dm.saved == old(dm.saved)
      ensures old(dm.saved).Keys !! dm.shaky ==> (r == OK <==> (old(dm.needsValidation) ==> AcValid(old(dm.objs), dm.serverSsid)))
    {
      clientInitiatedJob := false;
      StartIfNotStarted(c);
      r := dm.Validate();
      if r != OK {
        r := ERR_NOT_ACCEPTABLE;
      }
    }

    /** The Security Instance that is the Bootstrap Server's account, if there is one. */
    method FindAccount() returns (iid: Id)
      requires dm.Valid()
      ensures iid == ID_INVALID <==> !HasAccount(dm.objs)
      ensures iid != ID_INVALID ==> exists x :: x in dm.objs[0] && x.iid == iid && x.Security? && x.bootstrap
    {
      iid := ID_INVALID;
      if OID_SECURITY in dm.objs {
        var s := dm.objs[OID_SECURITY];
        ListOkMeans(OID_SECURITY, s);
        var k: nat := 0;
        while k < |s|
          invariant k <= |s| && forall j :: 0 <= j < k ==> !W.IsAccount(s[j])
        {
          assert RightKind(OID_SECURITY, s[k]);
          if W.IsAccount(s[k]) {
            assert s[k] in s;
            return s[k].iid;
          }
          k := k + 1;
        }
      }
    }

    /** The Bootstrap Server's account, whichever it is, is to be purged after a while. */
    ghost predicate AccountsExpire(objs: Objects) {
      0 in objs ==> forall x :: x in objs[0] && x.Security? && x.bootstrap ==> timeoutOf(x.iid).Some? && timeoutOf(x.iid).value > 0
    }

    /** Schedules the purge of the account if it says so; there is none pending to be replaced. */
    method ScheduleTimeout() returns (r: int)
      requires dm.Valid() && !purgeJob
      modifies this`purgeJob
      ensures r != OK ==> !purgeJob
      ensures purgeJob ==> HasAccount(dm.objs)
      ensures calm ==> r == OK
      ensures r == OK && AccountsExpire(dm.objs) ==> (purgeJob <==> HasAccount(dm.objs))
    {
      r := OK;
      var iid := FindAccount();
      if iid == ID_INVALID {
        return;
      }
      var timeout, refused: bool := timeoutOf(iid), *;
      if timeout.Some? && timeout.value > 0 {
        if refused && !calm {
          return ERR;
        }
        purgeJob := true;
      }
    }

    /**
     Commits the session and acts upon what was queued in it. When the commit fails, the session is
     over, and all but the mishaps have been committed; when anything later fails, a new session is
     started on top of what has been committed.
     */
    method FinishImpl(c: Connection, performTimeout: bool, disableServer: bool) returns (r: int, ghost committed: bool)
      requires Valid() && inProgress && !clientInitiatedJob
      modifies this`inProgress, this`token, this`started, this`exchangeValid, this`purgeJob, dm, access, queue
      ensures Valid() && (exchangeValid ==> old(exchangeValid))
      ensures !committed ==> r != OK && !inProgress && queue.entries == old(queue.entries)
      ensures !committed ==> dm.mishaps != {} && AgreeOutside(dm.objs, old(dm.objs), dm.mishaps)
      ensures committed ==> (inProgress <==> r != OK)
      ensures committed && r != OK ==> started == dm.objs
      ensures committed ==> Concluded(old(dm.objs), dm.objs, dm.mishaps, dm.faulty, old(queue.entries), CurrentSsid(c))
      ensures committed && r != OK ==> queue.entries == old(queue.entries) || queue.entries == []
      ensures r == OK ==> committed && queue.entries == []
      ensures r == OK && OID_ACCESS_CONTROL in old(dm.objs) && old(queue.entries) != [] ==>
        Synchronised(old(dm.objs), dm.objs, old(queue.entries), CurrentSsid(c))
      ensures purgeJob ==> r == OK && performTimeout
      ensures old(dm.saved).Keys !! dm.faulty && WillReact(old(dm.objs), old(queue.entries), c) ==> r == OK
      ensures r == OK && performTimeout && AccountsExpire(dm.objs) ==> (purgeJob <==> HasAccount(dm.objs))
    {
      r := CommitSession();
      committed := r == OK;
      if r != OK {
        return;
      }
      r := PostProcess(c, performTimeout, disableServer);
      if r != OK {
        StartIfNotStarted(c);
      }
    }

    method CommitSession() returns (r: int)
      requires Valid() && inProgress
      modifies this`inProgress, this`token, dm
      ensures Valid() && !inProgress && !purgeJob
      ensures AgreeOutside(dm.objs, old(dm.objs), dm.mishaps) && (r == OK <==> dm.mishaps == {})
      ensures r == OK ==> dm.objs == old(dm.objs)
      ensures old(dm.saved).Keys !! dm.faulty ==> r == OK
    {
      inProgress := false;
      token := Unbound;
      r := dm.FinishWithoutValidation(OK);
    }

    /** Nothing keeps the reaction to what has been committed from working. */
    ghost predicate WillReact(objs: Objects, q: seq<ObjectEntry>, c: Connection)
      requires WellFormed(objs)
    {
      calm && access.calm && (q == [] || access.WillSync(objs, q, CurrentSsid(c), true))
    }

    /** Acts upon what was queued in the session, once that has been committed. */
    method PostProcess(c: Connection, performTimeout: bool, disableServer: bool) returns (r: int)
      requires Valid() && !inProgress && !purgeJob
      modifies this`purgeJob, dm, access, queue
      ensures Valid() && (purgeJob ==> performTimeout)
      ensures Concluded(old(dm.objs), dm.objs, dm.mishaps, dm.faulty, old(queue.entries), CurrentSsid(c))
      ensures r == OK ==> queue.entries == []
      ensures r == OK && OID_ACCESS_CONTROL in old(dm.objs) && old(queue.entries) != [] ==>
        Synchronised(old(dm.objs), dm.objs, old(queue.entries), CurrentSsid(c))
      ensures r != OK ==> queue.entries == old(queue.entries) || queue.entries == []
      ensures WillReact(old(dm.objs), old(queue.entries), c) ==> r == OK
      ensures r == OK && performTimeout && AccountsExpire(dm.objs) ==> (purgeJob <==> HasAccount(dm.objs))
    {
      r := access.NotifyPerform(queue.entries, CurrentSsid(c));
      if r == OK {
        queue.entries := [];
        if performTimeout {
          r := ScheduleTimeout();
        }
      }
      if disableServer && r == OK && !allowLegacy {
        var answer: int := *;
        r := if calm then OK else answer;
      }
    }

    /**
     What has not been committed has been rejected, which leaves the session open as it is, or some
     Objects have failed to commit, which ends it.
     */
    ghost predicate NotCommitted(committed: bool, r: int, fallback: Objects, objs: Objects, q: seq<ObjectEntry>)
      reads this, dm, queue
    {
      !committed ==>
        && r != OK && queue.entries == q
        && if inProgress then r == ERR_NOT_ACCEPTABLE && started == fallback && dm.objs == objs
           else dm.mishaps != {} && AgreeOutside(dm.objs, objs, dm.mishaps)
    }

    /** Nothing but its validation keeps the session from being finished. */
    ghost predicate WillFinish(saved: Objects, objs: Objects, q: seq<ObjectEntry>, c: Connection)
      requires WellFormed(objs)
    {
      saved.Keys !! dm.shaky && saved.Keys !! dm.faulty && WillReact(objs, q, c)
    }

    /** Bootstrap Finish. */
    method Finish(c: Connection) returns (r: int, ghost committed: bool)
      requires Valid()
      modifies this`inProgress, this`token, this`started, this`exchangeValid, this`purgeJob, this`clientInitiatedJob, dm, access, queue
      ensures Valid() && (exchangeValid ==> old(exchangeValid))
      ensures r == OK ==> committed && !inProgress && queue.entries == []
      ensures committed && old(dm.needsValidation) ==> AcValid(old(dm.objs), dm.serverSsid)
      ensures r == OK && OID_ACCESS_CONTROL in old(dm.objs) && old(queue.entries) != [] ==>
        Synchronised(old(dm.objs), dm.objs, old(queue.entries), CurrentSsid(c))
      ensures NotCommitted(committed, r, old(Fallback()), old(dm.objs), old(queue.entries))
      ensures old(dm.needsValidation) && !AcValid(old(dm.objs), dm.serverSsid) ==>
        r == ERR_NOT_ACCEPTABLE && !committed && inProgress
      ensures committed && r != OK ==> inProgress && started == dm.objs
      ensures committed ==> Concluded(old(dm.objs), dm.objs, dm.mishaps, dm.faulty, old(queue.entries), CurrentSsid(c))
      ensures WillFinish(old(dm.saved), old(dm.objs), old(queue.entries), c) ==>
        (r == OK <==> (old(dm.needsValidation) ==> AcValid(old(dm.objs), dm.serverSsid)))
      ensures r == OK && AccountsExpire(dm.objs) ==> (purgeJob <==> HasAccount(dm.objs))
      ensures r == OK && 2 in old(dm.objs) && c.Connection? && c.ssid != 65535 ==>
        forall oid: Id, iid: int :: KnownAdded(old(queue.entries), oid, iid) ==> Governed(dm.objs[2], oid, iid)
    {
      committed := false;
      r := ValidateConfiguration(c);
      if r == OK {
        r, committed := FinishImpl(c, true, true);
      }
    }

    /**
     A server of the regular kind has become available. That ends the session, as if finished,
     unless our own request to bootstrap is under way.
     */
    method RegularConnectionAvailable(c: Connection) returns (r: int, ghost committed: bool)
      requires Valid()
      modifies this`inProgress, this`token, this`started, this`exchangeValid, this`purgeJob, this`clientInitiatedJob, dm, access, queue, backoff
      ensures Valid()
      ensures old(exchangeValid) ==> r == OK && inProgress == old(inProgress) && dm.objs == old(dm.objs)
      ensures !old(exchangeValid) && r == OK ==> !inProgress && backoff.lastAttempt == None && backoff.holdoff == None
      ensures !old(exchangeValid) && !old(inProgress) ==> r == OK && dm.objs == old(dm.objs) && !clientInitiatedJob
      ensures !old(exchangeValid) && old(inProgress) && r == OK ==> committed && queue.entries == []
      ensures !old(exchangeValid) && old(inProgress) ==>
        NotCommitted(committed, r, old(Fallback()), old(dm.objs), old(queue.entries))
      ensures committed ==> Concluded(old(dm.objs), dm.objs, dm.mishaps, dm.faulty, old(queue.entries), CurrentSsid(c))
      ensures committed && r != OK ==> inProgress && started == dm.objs
      ensures !old(exchangeValid) && old(inProgress) && r == OK ==>
        OID_ACCESS_CONTROL in old(dm.objs) && old(queue.entries) != [] ==>
        Synchronised(old(dm.objs), dm.objs, old(queue.entries), CurrentSsid(c))
      ensures !old(exchangeValid) && old(inProgress) && WillFinish(old(dm.saved), old(dm.objs), old(queue.entries), c) ==>
        (r == OK <==> (old(dm.needsValidation) ==> AcValid(old(dm.objs), dm.serverSsid)))
    {
      committed := false;
      if exchangeValid {
        return OK, committed;
      }
      r := OK;
      if inProgress {
        r := ValidateConfiguration(c);
        if r == OK {
          r, committed := FinishImpl(c, false, true);
        }
      } else {
        clientInitiatedJob := false;
      }
      if r == OK {
        backoff.Reset();
      }
    }

    // ----- Jobs -----

    /** The purge is due: the account goes, in a transaction of its own. */
    method PurgeJob(c: Connection) returns (r: int, iid: Id, ghost purged: Objects)
      requires Valid() && purgeJob
      modifies this`purgeJob, dm, access
      ensures Valid() && !inProgress && !purgeJob && dm.depth == 0
      ensures iid == ID_INVALID <==> !HasAccount(old(dm.objs))
      ensures iid == ID_INVALID ==> dm.objs == old(dm.objs)
      ensures iid != ID_INVALID ==> exists x :: x in old(dm.objs)[0] && x.iid == iid && x.Security? && x.bootstrap
      ensures iid != ID_INVALID && r == OK ==> AccountGone(old(dm.objs), dm.objs, iid)
      ensures iid != ID_INVALID && r != OK ==>
        AgreeOutside(dm.objs, old(dm.objs), dm.mishaps)
        || (dm.mishaps != {} && AccountGone(old(dm.objs), purged, iid) && AgreeOutside(dm.objs, purged, dm.mishaps))
      ensures iid != ID_INVALID && r != OK ==> dm.mishaps <= dm.faulty * TouchedByPurge(old(dm.objs), iid)
      ensures iid != ID_INVALID && r != OK && dm.faulty * TouchedByPurge(old(dm.objs), iid) == {} ==> dm.objs == old(dm.objs)
      ensures iid != ID_INVALID && WillPurge(old(dm.objs), iid, c) ==> r == OK
    {
      purgeJob, purged := false, dm.objs;
      iid := FindAccount();
      if iid == ID_INVALID {
        return ERR, iid, purged;
      }
      dm.Begin();
      r := RemoveAccount(c, iid);
      purged := dm.objs;
      ghost var included := dm.saved.Keys;
      r := dm.Finish(r);
      if r != OK {
        MishapsAtRisk(dm.mishaps, dm.faulty, included, TouchedByPurge(old(dm.objs), iid));
      }
    }

    /** Nothing keeps the account from being purged, and what comes of it from being valid. */
    ghost predicate WillPurge(objs: Objects, iid: Id, c: Connection)
      requires WellFormed(objs) && OID_SECURITY in objs
    {
      && dm.Works(OID_SECURITY) && OID_SECURITY !in dm.faulty && access.calm
      && forall q :: ValidQueue(q) && OnlySecurityChanged(q) ==> access.WillSync(WithoutAccount(objs, iid), q, CurrentSsid(c), true)
    }

    /** What the reaction is told. */
    method AccountRemoved(iid: Id) returns (notification: Queue)
      ensures fresh(notification) && notification.Valid() && notification.entries != []
      ensures OnlySecurityChanged(notification.entries)
    {
      notification := new Queue();
      notification.InstanceRemoved(OID_SECURITY, iid);
      assert notification.entries != [] by {
        assert About(notification.entries, OID_SECURITY).instanceSetChanged;
      }
      FirstIsIn(About(notification.entries, OID_SECURITY).knownAdded);
    }

    method RemoveAccount(c: Connection, iid: Id) returns (r: int)
      requires dm.Valid() && dm.depth == 1 && dm.saved == map[] && access.dm == dm && !access.syncInProgress
      requires OID_SECURITY in dm.objs
      modifies dm, access
      ensures dm.Valid() && dm.depth == 1 && !access.syncInProgress
      ensures dm.base == old(dm.base)
      ensures r == OK ==> AccountGone(old(dm.objs), dm.objs, iid)
      ensures dm.saved.Keys <= {OID_ACCESS_CONTROL} + TouchedByPurge(old(dm.objs), iid)
      ensures Has(old(dm.objs)[OID_SECURITY], iid) && WillPurge(old(dm.objs), iid, c) ==> PurgeReady(r)
    {
      r := dm.InstanceRemove(OID_SECURITY, iid);
      if r == OK {
        r := ReactToPurge(c, iid, old(dm.objs));
      }
    }

    method ReactToPurge(c: Connection, iid: Id, ghost o: Objects) returns (r: int)
      requires dm.Valid() && dm.depth == 1 && dm.saved.Keys <= {OID_SECURITY} && access.dm == dm && !access.syncInProgress
      requires WellFormed(o) && OID_SECURITY in o && dm.objs == WithoutAccount(o, iid)
      modifies dm, access
      ensures dm.Valid() && dm.depth == 1 && !access.syncInProgress
      ensures dm.base == old(dm.base)
      ensures r == OK ==> AccountGone(o, dm.objs, iid)
      ensures dm.saved.Keys <= {OID_ACCESS_CONTROL} + TouchedByPurge(o, iid)
      ensures WillPurge(o, iid, c) ==> PurgeReady(r)
    {
      ghost var mid := dm.objs;
      var notification := AccountRemoved(iid);
      ghost var q := notification.entries;
      RiskIsLosing(mid, q);
      if WillPurge(o, iid, c) {
        PurgeSyncs(o, mid, iid, q, c);
      }
      r := access.NotifyPerform(notification.entries, CurrentSsid(c));
      if r == OK {
        GoneForGood(o, dm.objs, iid);
      }
      if WillPurge(o, iid, c) && OID_ACCESS_CONTROL in mid {
        PurgeFine(o, mid, iid, dm.objs, q, c, dm.saved.Keys);
      }
    }

    /** What has been included will be committed, and it is valid if that is looked at. */
    ghost predicate PurgeReady(r: int)
      reads dm
    {
      r == OK && WillCommit(dm.saved.Keys) && (dm.needsValidation ==> AcValid(dm.objs, dm.serverSsid))
    }

    ghost predicate WillCommit(included: set<Id>) {
      included !! dm.shaky && included !! dm.faulty
    }

    lemma PurgeSyncs(o: Objects, mid: Objects, iid: Id, q: seq<ObjectEntry>, c: Connection)
      requires WellFormed(o) && OID_SECURITY in o && ValidQueue(q) && OnlySecurityChanged(q) && WillPurge(o, iid, c)
      requires mid == WithoutAccount(o, iid)
      ensures access.WillSync(mid, q, CurrentSsid(c), true) && access.WillSync(mid, q, CurrentSsid(c), false)
    {
    }

    lemma PurgeFine(o: Objects, mid: Objects, iid: Id, after: Objects, q: seq<ObjectEntry>, c: Connection, included: set<Id>)
      requires WellFormed(o) && OID_SECURITY in o && WillPurge(o, iid, c)
      requires WellFormed(mid) && OID_ACCESS_CONTROL in mid && access.dm == dm && access.WillSync(mid, q, CurrentSsid(c), true)
      requires included <= {OID_ACCESS_CONTROL} + {OID_SECURITY} + AtRisk(mid, q)
      requires exists pruned, purged :: Steps(mid, pruned, purged, after, q, CurrentSsid(c))
      ensures WillCommit(included) && AcValid(after, dm.serverSsid)
    {
      var pruned, purged :| Steps(mid, pruned, purged, after, q, CurrentSsid(c));
      access.OutcomeFine(mid, pruned, purged, after, q, CurrentSsid(c), included - {OID_SECURITY});
    }

    /** Bootstrap Finish has not come in time: the Bootstrap Server is given up, if it is active. */
    method FinishTimeoutJob(serverActive: bool)
      requires Valid() && finishTimeoutJob
      modifies this`inProgress, this`token, this`exchangeValid, this`purgeJob, this`finishTimeoutJob, this`clientInitiatedJob,
        dm, queue, backoff
      ensures Valid() && !finishTimeoutJob && inProgress == (old(inProgress) && !serverActive)
      ensures serverActive ==> Restored(dm.objs, old(Fallback()), dm.faulty)
      ensures serverActive ==> !purgeJob && !clientInitiatedJob && !exchangeValid && queue.entries == []
      ensures !serverActive ==> unchanged(dm) && unchanged(queue) && unchanged(backoff)
      ensures !serverActive ==> unchanged(`token) && unchanged(`exchangeValid) && unchanged(`purgeJob) && unchanged(`clientInitiatedJob)
    {
      finishTimeoutJob := false;
      if serverActive {
        // closing the connection cancels the request that is under way on it
        exchangeValid := false;
        Cleanup();
      }
    }

    /** The client-initiated bootstrap is due: send the request, unless there is no point. */
    method RequestJob(c: Connection, online: bool) returns (sent: bool)
      requires Valid() && clientInitiatedJob
      modifies this`trigger, this`exchangeValid, this`clientInitiatedJob
      ensures Valid() && !clientInitiatedJob
      ensures sent == exchangeValid && (!sent ==> !trigger)
      ensures sent ==> c.Connection? && token != Bound(c.session)
      ensures calm && c.Connection? && token != Bound(c.session) && online ==> sent
    {
      clientInitiatedJob := false;
      sent := false;
      if c.NoConnection? || token == Bound(c.session) || !online {
        trigger := false;
        return;
      }
      var refused: bool := *;
      if refused && !calm {
        trigger := false;
      } else {
        exchangeValid := true;
        sent := true;
      }
    }

    // ----- Requests of our own -----

    /** Asks for a client-initiated bootstrap; callers do so only while none is under way. */
    method PerformAction(serverPresent: bool, requested: bool, now: int, clientHoldOff: Option<int>, refused: bool)
      returns (r: int)
      requires Valid() && (requested ==> !exchangeValid)
      modifies this`clientInitiatedJob, backoff
      ensures Valid()
      ensures !requested ==> r == OK
      ensures !requested || !serverPresent ==> clientInitiatedJob == old(clientInitiatedJob) && unchanged(backoff)
      ensures old(clientInitiatedJob) ==> clientInitiatedJob
      ensures r == OK && requested && serverPresent && backoff.lastAttempt.Some? ==> clientInitiatedJob && Follows(
        old(backoff.lastAttempt), if old(backoff.lastAttempt).None? then clientHoldOff else old(backoff.holdoff), now,
        backoff.lastAttempt, backoff.holdoff)
      ensures requested && serverPresent && r == OK && FirstHoldOffIs(old(backoff.lastAttempt), clientHoldOff) ==>
        clientInitiatedJob && backoff.lastAttempt == Some(now + clientHoldOff.value * 1_000_000_000)
      ensures requested && serverPresent && FirstHoldOffIs(old(backoff.lastAttempt), clientHoldOff) ==>
        (r == OK <==> !refused && now + clientHoldOff.value * 1_000_000_000 < 0x8000_0000_0000_0000 * 1_000_000_000)
      ensures requested && serverPresent && r == OK && backoff.lastAttempt == None ==>
        old(backoff.lastAttempt) == None && clientInitiatedJob == old(clientInitiatedJob)
        && (!HasAccount(dm.objs) || clientHoldOff == None || clientHoldOff.value < 0)
    {
      r := OK;
      if !requested {
        return;
      }
      if !serverPresent {
        r := *;
        return;
      }
      var iid := FindAccount();
      var scheduled;
      r, scheduled := backoff.Request(now, if iid == ID_INVALID then None else clientHoldOff, refused);
      if clientHoldOff.Some? {
        AfterMeans(now, clientHoldOff.value);
      }
      if scheduled {
        clientInitiatedJob := true;
      }
    }

    /** The request has been answered, or not. The expected answer starts the session. */
    method OnResponse(response: Response, c: Connection)
      requires Valid() && (!response.Cancelled? ==> c.Connection?)
      modifies this`inProgress, this`token, this`started, this`exchangeValid, this`purgeJob, this`trigger, this`finishTimeoutJob, dm
      ensures Valid() && !exchangeValid && dm.objs == old(dm.objs)
      ensures inProgress == (old(inProgress) || ((response.Partial? || response.Answered?) && response.changed))
      ensures old(inProgress) ==> started == old(started)
      ensures Fallback() == old(Fallback())
      ensures token == if (response.Partial? || response.Answered?) && response.changed then Bound(c.session) else old(token)
      ensures !response.Cancelled? ==> !trigger
    {
      exchangeValid := false;
      if !response.Cancelled? {
        trigger := false;
      }
      if (response.Partial? || response.Answered?) && response.changed {
        StartIfNotStarted(c);
        var scheduled := ScheduleFinishTimeout();
      }
    }

    /** Nothing has been attempted yet, and the account has a hold-off to begin with. */
    ghost predicate FirstHoldOffIs(last: Option<int>, clientHoldOff: Option<int>)
      reads dm
    {
      last == None && HasAccount(dm.objs) && clientHoldOff.Some? && clientHoldOff.value >= 0
    }

    method ScheduleFinishTimeout() returns (ok: bool)
      modifies this`finishTimeoutJob
      ensures (calm ==> ok) && (ok ==> finishTimeoutJob)
      ensures !ok ==> finishTimeoutJob == old(finishTimeoutJob)
    {
      ok := *;
      ok := ok || calm;
      if ok {
        finishTimeoutJob := true;
      }
    }

    // ----- Messages of the Bootstrap Server -----

    /** Nothing keeps the message from being carried out. */
    ghost predicate WillDo(action: Action, objs: Objects, saved: Objects, needsValidation: bool, q: seq<ObjectEntry>,
                           c: Connection)
      requires WellFormed(objs)
    {
      match action
      case WriteAction(target, payload) =>
        W.WillWrite(dm, target, payload, objs.Keys) && target.oid != 0
      case DeleteAction(target, isBsUri) => D.WillDelete(dm, target, isBsUri, objs.Keys)
      case FinishAction => WillFinish(saved, objs, q, c) && (needsValidation ==> AcValid(objs, dm.serverSsid))
      case _ => false
    }

    /**
     Handles one message. The timer that waits for Bootstrap Finish is restarted, except after a
     Finish that succeeds; a message that cannot restart it has failed.
     */
    method InvokeAction(c: Connection, action: Action) returns (r: int)
      requires Valid()
      requires action.WriteAction? ==> ProperTarget(action.writeTarget)
      modifies this`inProgress, this`token, this`started, this`exchangeValid, this`purgeJob, this`clientInitiatedJob, this`finishTimeoutJob, dm, access, queue
      ensures Valid() && (exchangeValid ==> old(exchangeValid))
      ensures r == OK ==> finishTimeoutJob == !action.FinishAction?
      ensures r == OK && action.FinishAction? ==> !inProgress && queue.entries == []
      ensures action.DeleteAction? ==> inProgress
      ensures action.OtherAction? ==> r != OK
      ensures r == OK ==> ActionDone(action, dm, c, old(dm.objs), dm.objs, old(queue.entries), queue.entries)
      ensures !action.FinishAction? ==> Fallback() == old(Fallback())
      ensures calm && WillDo(action, old(dm.objs), old(dm.saved), old(dm.needsValidation), old(queue.entries), c) ==> r == OK
    {
      finishTimeoutJob := false;
      r := Dispatch(c, action);
      if !action.FinishAction? || r != OK {
        var scheduled := ScheduleFinishTimeout();
        if !scheduled {
          r := ERR;
        }
      }
    }

    method Dispatch(c: Connection, action: Action) returns (r: int)
      requires Valid()
      requires action.WriteAction? ==> ProperTarget(action.writeTarget)
      modifies this`inProgress, this`token, this`started, this`exchangeValid, this`purgeJob, this`clientInitiatedJob, dm, access, queue
      ensures Valid() && (exchangeValid ==> old(exchangeValid))
      ensures r == OK && action.FinishAction? ==> !inProgress && queue.entries == []
      ensures action.DeleteAction? ==> inProgress
      ensures action.OtherAction? ==> r == ERR_METHOD_NOT_ALLOWED
      ensures r == OK ==> ActionDone(action, dm, c, old(dm.objs), dm.objs, old(queue.entries), queue.entries)
      ensures !action.FinishAction? ==> Fallback() == old(Fallback())
      ensures WillDo(action, old(dm.objs), old(dm.saved), old(dm.needsValidation), old(queue.entries), c) ==> r == OK
    {
      match action
      case WriteAction(target, payload) =>
        r := Write(c, target, payload);
      case DeleteAction(target, isBsUri) =>
        r := Delete(c, target, isBsUri);
      case DiscoverAction =>
        r := *;
      case FinishAction =>
        ghost var committed;
        r, committed := Finish(c);
      case OtherAction =>
        r := ERR_METHOD_NOT_ALLOWED;
    }
  }

  // ----- Runs -----

  /** Anything that can happen to the bootstrap machinery. */
  datatype Step =
    | Message(c: Connection, action: Action)
    | Answer(response: Response, c: Connection)
    | RegularAvailable(c: Connection)
    | Ask(serverPresent: bool, now: int, clientHoldOff: Option<int>, refused: bool)
    | PurgeDue(c: Connection)
    | FinishTimeoutDue(serverActive: bool)
    | RequestDue(c: Connection, online: bool)
    | Shutdown

  /** The step can happen now: jobs when they are pending, answers with a connection, requests one at a time. */
  ghost predicate Possible(b: Session, step: Step)
    reads b
  {
    match step
    case Message(_, action) => action.WriteAction? ==> ProperTarget(action.writeTarget)
    case Answer(response, c) => !response.Cancelled? ==> c.Connection?
    case RegularAvailable(_) => true
    case Ask(_, _, _, _) => !b.exchangeValid
    case PurgeDue(_) => b.purgeJob
    case FinishTimeoutDue(_) => b.finishTimeoutJob
    case RequestDue(_, _) => b.clientInitiatedJob
    case Shutdown => !b.exchangeValid
  }

  /** The step does not commit anything. */
  predicate Tentative(step: Step) {
    match step
    case Message(_, action) => !action.FinishAction?
    case RegularAvailable(_) => false
    case PurgeDue(_) => false
    case _ => true
  }

  /** One step of a run; every step keeps the invariant. */
  method TakeStep(b: Session, step: Step)
    requires b.Valid() && Possible(b, step)
    modifies b, b.dm, b.access, b.queue, b.backoff
    ensures b.Valid()
    ensures Tentative(step) ==> Restored(b.Fallback(), old(b.Fallback()), b.dm.faulty)
    ensures step.Shutdown? ==> !b.inProgress
  {
    match step
    case Message(c, action) =>
      var r := b.InvokeAction(c, action);
    case Answer(response, c) =>
      b.OnResponse(response, c);
    case RegularAvailable(c) =>
      ghost var committed;
      var r;
      r, committed := b.RegularConnectionAvailable(c);
    case Ask(serverPresent, now, clientHoldOff, refused) =>
      var r := b.PerformAction(serverPresent, true, now, clientHoldOff, refused);
    case PurgeDue(c) =>
      ghost var purged;
      var r, iid;
      r, iid, purged := b.PurgeJob(c);
    case FinishTimeoutDue(serverActive) =>
      b.FinishTimeoutJob(serverActive);
    case RequestDue(c, online) =>
      var sent := b.RequestJob(c, online);
    case Shutdown =>
      b.Cleanup();
  }

  /** The invariant holds at every point of every run; steps that cannot happen are passed over. */
  method Run(b: Session, steps: seq<Step>)
    requires b.Valid()
    modifies b, b.dm, b.access, b.queue, b.backoff
    ensures b.Valid()
    ensures b.dm.depth == (if b.inProgress then 1 else 0) && (b.purgeJob ==> !b.inProgress)
    ensures b.token != Unbound ==> b.inProgress
  {
    for n := 0 to |steps|
      invariant b.Valid()
    {
      var enabled := IsPossible(b, steps[n]);
      if enabled {
        TakeStep(b, steps[n]);
      }
    }
  }

  method IsPossible(b: Session, step: Step) returns (r: bool)
    ensures r <==> Possible(b, step)
  {
    match step
    case Message(_, action) => r := !action.WriteAction? || ProperTarget(action.writeTarget);
    case Answer(response, c) => r := response.Cancelled? || c.Connection?;
    case RegularAvailable(_) => r := true;
    case Ask(_, _, _, _) => r := !b.exchangeValid;
    case PurgeDue(_) => r := b.purgeJob;
    case FinishTimeoutDue(_) => r := b.finishTimeoutJob;
    case RequestDue(_, _) => r := b.clientInitiatedJob;
    case Shutdown => r := !b.exchangeValid;
  }

  /**
   A session that is given up has never happened: after any run in which nothing is committed, a
   shutdown leaves the data model as it was at the beginning, or before the session that was in
   progress then. Shutting down closes the connections, which cancels a request that is under way.
   */
  method GivenUp(b: Session, steps: seq<Step>)
    requires b.Valid() && forall step :: step in steps ==> Tentative(step)
    modifies b, b.dm, b.access, b.queue, b.backoff
    ensures b.Valid() && !b.inProgress
    ensures Restored(b.dm.objs, old(b.Fallback()), b.dm.faulty)
  {
    for n := 0 to |steps|
      invariant b.Valid() && Restored(b.Fallback(), old(b.Fallback()), b.dm.faulty)
    {
      assert steps[n] in steps;
      var enabled := IsPossible(b, steps[n]);
      if enabled {
        ghost var before := b.Fallback();
        TakeStep(b, steps[n]);
        RestoredTwice(old(b.Fallback()), before, b.Fallback(), b.dm.faulty);
      }
    }
    if b.exchangeValid {
      b.OnResponse(Cancelled, NoConnection);
    }
    ghost var before := b.Fallback();
    b.Cleanup();
    RestoredTwice(old(b.Fallback()), before, b.dm.objs, b.dm.faulty);
  }
}

/**
  Whole runs of a Stratum session, under any order of worker frames, upstream frames, confirmations
  and renewals: where every accepted submission comes from, and which responses are let go when.
 */
module StratumRuns {
  import opened Wrappers
  import opened Limits
  import opened Stratum
  import opened StratumSteps
  import opened StratumFrames

  datatype Run = Run(host: Host, start: Session, calls: seq<Call>) {

    /** The session before call n. */
    function At(n: nat): Session
      requires n <= |calls|
    {
      if n == 0 then start else Next(host, At(n - 1), calls[n - 1]).session
    }

    function Reply(n: nat): Result<seq<Action>, StratumError>
      requires n < |calls|
    {
      Next(host, At(n), calls[n]).reply
    }

    /** The run starts with a newly opened session. */
    predicate Fresh() {
      Opened(start.config) == Ok(start)
    }
  }

  // ---------------------------------------------------------------- what came last

  /** The latest difficulty taken over before call n. */
  function LatestDifficulty(r: Run, n: nat): (k: Option<nat>)
    requires n <= |r.calls|
    ensures k.Some? ==> k.value < n
  {
    if n == 0 then None
    else if SetsDifficulty(r.host, r.At(n - 1), r.calls[n - 1]) then Some(n - 1)
    else LatestDifficulty(r, n - 1)
  }

  /** The target in force before call n, read from the upstream frames. */
  function TargetInForce(r: Run, n: nat): Option<nat>
    requires n <= |r.calls|
  {
    var k := LatestDifficulty(r, n);
    if k.None? then None else DifficultyTarget(r.host, r.calls[k.value])
  }

  /** The latest notify of a job before call n, unless the jobs were cleared after it. */
  function LatestNotify(r: Run, n: nat, jobId: string): (k: Option<nat>)
    requires n <= |r.calls|
    ensures k.Some? ==> k.value < n
  {
    if n == 0 then None
    else if Notifies(r.host, r.At(n - 1), r.calls[n - 1], jobId) then Some(n - 1)
    else if Clears(r.host, r.At(n - 1), r.calls[n - 1]) then None
    else LatestNotify(r, n - 1, jobId)
  }

  /** The latest worker request with this identity that is unanswered before call n. */
  function LatestRequest(r: Run, n: nat, id: string): (k: Option<nat>)
    requires n <= |r.calls|
    ensures k.Some? ==> k.value < n
  {
    if n == 0 then None
    else if Registers(r.host, r.At(n - 1), r.calls[n - 1], id) then Some(n - 1)
    else if Responds(r.host, r.calls[n - 1], id) then None
    else LatestRequest(r, n - 1, id)
  }

  /** The latest confirmed reservation before call n. */
  function LatestReservation(r: Run, n: nat): (k: Option<nat>)
    requires n <= |r.calls|
    ensures k.Some? ==> k.value < n && Reserves(r.At(k.value), r.calls[k.value])
  {
    if n == 0 then None
    else if Reserves(r.At(n - 1), r.calls[n - 1]) then Some(n - 1)
    else LatestReservation(r, n - 1)
  }

  /** The latest offer under this token that is unconfirmed before call n. */
  function LatestOffer(r: Run, n: nat, token: string): (k: Option<nat>)
    requires n <= |r.calls|
    ensures k.Some? ==> k.value < n
  {
    if n == 0 then None
    else if Offers(r.host, r.At(n - 1), r.calls[n - 1], token) then Some(n - 1)
    else if r.calls[n - 1] == ExtranonceReserved(token) then None
    else LatestOffer(r, n - 1, token)
  }

  /** The latest request to record under this token that is unconfirmed before call n. */
  function LatestPersist(r: Run, n: nat, token: string): (k: Option<nat>)
    requires n <= |r.calls|
    ensures k.Some? ==> k.value < n
  {
    if n == 0 then None
    else if Persists(r.host, r.At(n - 1), r.calls[n - 1], token) then Some(n - 1)
    else if Releases(r.At(n - 1), r.calls[n - 1], token) then None
    else LatestPersist(r, n - 1, token)
  }

  lemma {:induction false} LatestNotifyNotifies(r: Run, n: nat, jobId: string)
    requires n <= |r.calls| && LatestNotify(r, n, jobId).Some?
    ensures
      var k := LatestNotify(r, n, jobId).value;
      && Notifies(r.host, r.At(k), r.calls[k], jobId)
      && forall i :: k < i < n ==>
           !Notifies(r.host, r.At(i), r.calls[i], jobId) && !Clears(r.host, r.At(i), r.calls[i])
  {
    hide Next, Notifies, Clears;
    if !Notifies(r.host, r.At(n - 1), r.calls[n - 1], jobId) {
      LatestNotifyNotifies(r, n - 1, jobId);
    }
  }

  lemma {:induction false} LatestRequestRegisters(r: Run, n: nat, id: string)
    requires n <= |r.calls| && LatestRequest(r, n, id).Some?
    ensures
      var k := LatestRequest(r, n, id).value;
      && Registers(r.host, r.At(k), r.calls[k], id)
      && forall i :: k < i < n ==> !Responds(r.host, r.calls[i], id)
  {
    hide Next, Registers, Responds;
    if !Registers(r.host, r.At(n - 1), r.calls[n - 1], id) {
      LatestRequestRegisters(r, n - 1, id);
    }
  }

  lemma {:induction false} LatestPersistPersists(r: Run, n: nat, token: string)
    requires n <= |r.calls| && LatestPersist(r, n, token).Some?
    ensures
      var k := LatestPersist(r, n, token).value;
      && Persists(r.host, r.At(k), r.calls[k], token)
      && forall i :: k < i < n ==> !Releases(r.At(i), r.calls[i], token)
  {
    hide Next, Persists, Releases;
    if !Persists(r.host, r.At(n - 1), r.calls[n - 1], token) {
      LatestPersistPersists(r, n - 1, token);
    }
  }

  // ---------------------------------------------------------------- the session is what came last

  lemma {:induction false} TargetIsInForce(r: Run, n: nat)
    requires r.Fresh() && n <= |r.calls|
    ensures r.At(n).target == TargetInForce(r, n)
  {
    hide Next, SetsDifficulty, DifficultyTarget;
    if n > 0 {
      TargetIsInForce(r, n - 1);
      TargetAfter(r.host, r.At(n - 1), r.calls[n - 1]);
    }
  }

  /** A job is held exactly when its latest notify has not been cleared, and it is that notify's job
      with the target in force at that notify. */
  lemma {:induction false} JobIsLatestNotify(r: Run, n: nat, jobId: string)
    requires r.Fresh() && n <= |r.calls|
    ensures jobId in r.At(n).jobs <==> LatestNotify(r, n, jobId).Some?
    ensures jobId in r.At(n).jobs ==>
      var k := LatestNotify(r, n, jobId).value;
      && JobIn(r.host, r.calls[k], TargetInForce(r, k)) == Some(r.At(n).jobs[jobId])
      && TargetInForce(r, k) == Some(r.At(n).jobs[jobId].target)
  {
    hide Next, Notifies, Clears, JobIn, TargetInForce;
    if n > 0 {
      JobIsLatestNotify(r, n - 1, jobId);
      JobsAfter(r.host, r.At(n - 1), r.calls[n - 1], jobId);
      TargetIsInForce(r, n - 1);
    }
  }

  /** A request is held exactly when it is unanswered, as it was when the worker made it. */
  lemma {:induction false} RequestIsLatest(r: Run, n: nat, id: string)
    requires r.Fresh() && n <= |r.calls|
    ensures id in r.At(n).outstanding <==> LatestRequest(r, n, id).Some?
    ensures id in r.At(n).outstanding ==>
      var k := LatestRequest(r, n, id).value;
      id in r.At(k + 1).outstanding && r.At(n).outstanding[id] == r.At(k + 1).outstanding[id]
  {
    hide Next, Registers, Responds;
    if n > 0 {
      RequestIsLatest(r, n - 1, id);
      OutstandingAfter(r.host, r.At(n - 1), r.calls[n - 1], id);
    }
  }

  /** Call k is upstream's consent to the authorize that the worker made in call a, with the name and
      the secret of the session. */
  ghost predicate AuthorizedBy(r: Run, a: nat, k: nat) {
    && a < k < |r.calls|
    && ConfirmsAuthorize(r.host, r.At(k), r.calls[k])
    && LatestRequest(r, k, Settled(r.host, r.At(k), r.calls[k]).value) == Some(a)
    && r.calls[a].WorkerFrame? && MessageIn(r.host, r.calls[a]).Some?
    && MethodOf(MessageIn(r.host, r.calls[a]).value) == Some("mining.authorize")
    && Carries(MessageIn(r.host, r.calls[a]).value, r.start.config.username, r.start.config.secret)
  }

  /** A session is authorized exactly once upstream has consented to an authorize in which the worker
      gave the session's own name and secret. */
  lemma {:induction false} AuthorizedExactly(r: Run, n: nat)
    requires r.Fresh() && n <= |r.calls|
    ensures r.At(n).authorized <==> exists a: nat, k: nat :: k < n && AuthorizedBy(r, a, k)
  {
    hide Next, AuthorizedBy, ConfirmsAuthorize;
    if n > 0 {
      AuthorizedExactly(r, n - 1);
      AuthorizedAfter(r.host, r.At(n - 1), r.calls[n - 1]);
      if ConfirmsAuthorize(r.host, r.At(n - 1), r.calls[n - 1]) {
        var a := ConsentIsToCredentials(r, n - 1);
        assert AuthorizedBy(r, a, n - 1);
      }
      if r.At(n).authorized && r.At(n - 1).authorized {
        var a: nat, k: nat :| k < n - 1 && AuthorizedBy(r, a, k);
        assert k < n;
      }
      if a: nat, k: nat :| k < n && AuthorizedBy(r, a, k) {
        ByIsConsent(r, a, k);
        assert k < n - 1 ==> exists a: nat, k: nat :: k < n - 1 && AuthorizedBy(r, a, k);
      }
    }
  }

  lemma ByIsConsent(r: Run, a: nat, k: nat)
    requires AuthorizedBy(r, a, k)
    ensures ConfirmsAuthorize(r.host, r.At(k), r.calls[k])
  {
  }

  lemma ConsentIsToCredentials(r: Run, k: nat) returns (a: nat)
    requires r.Fresh() && k < |r.calls| && ConfirmsAuthorize(r.host, r.At(k), r.calls[k])
    ensures AuthorizedBy(r, a, k)
  {
    hide Next, Registers, Responds, Carries, MessageIn, Opened;
    var id := Settled(r.host, r.At(k), r.calls[k]).value;
    RequestIsLatest(r, k, id);
    LatestRequestRegisters(r, k, id);
    a := LatestRequest(r, k, id).value;
    RegistersIsWorkers(r.host, r.At(a), r.calls[a], id);
    RegisteredMessage(r.host, r.At(a), r.calls[a], id);
    AuthorizeRegistered(r.host, r.At(a), r.calls[a], id);
    ConfigAlong(r, 0, a);
  }

  /** The extranonce in force is the one of the latest confirmed reservation, which upstream offered
      earlier in answer to a subscribe. */
  lemma {:induction false} ExtranonceIsLatestReservation(r: Run, n: nat)
    requires r.Fresh() && n <= |r.calls|
    ensures r.At(n).extranonce1.Some? <==> LatestReservation(r, n).Some?
    ensures r.At(n).extranonce1.Some? ==>
      var k := LatestReservation(r, n).value;
      var o := LatestOffer(r, k, r.calls[k].token);
      && o.Some?
      && r.Reply(o.value) == Ok([ReserveExtranonce(r.calls[k].token, r.start.config.sessionId, r.At(n).extranonce1.value)])
  {
    hide Next, Reserves, Offers, Opened;
    OpenedIsEmpty(r.start);
    if n > 0 {
      var s, c := r.At(n - 1), r.calls[n - 1];
      ExtranonceIsLatestReservation(r, n - 1);
      ExtranonceAfter(r.host, s, c);
      if Reserves(s, c) {
        ReservesMeans(s, c);
        OfferIsLatest(r, n - 1, c.token);
      }
    }
  }

  lemma ReservesMeans(s: Session, c: Call)
    requires Reserves(s, c)
    ensures c.ExtranonceReserved? && c.token in s.awaitingExtranonce
  {
  }

  lemma OpenedIsEmpty(s: Session)
    requires Opened(s.config) == Ok(s)
    ensures s.extranonce1.None? && s.awaitingExtranonce == map[] && s.awaitingPersistence == map[]
    ensures s.jobs == map[] && s.outstanding == map[] && !s.authorized && s.target.None?
  {
  }

  lemma {:induction false} OfferIsLatest(r: Run, n: nat, token: string)
    requires r.Fresh() && n <= |r.calls|
    ensures token in r.At(n).awaitingExtranonce <==> LatestOffer(r, n, token).Some?
    ensures token in r.At(n).awaitingExtranonce ==>
      var k := LatestOffer(r, n, token).value;
      && r.Reply(k) == Ok([ReserveExtranonce(token, r.start.config.sessionId, r.At(n).awaitingExtranonce[token].extranonce1)])
      && r.calls[k].UpstreamFrame? && r.At(n).awaitingExtranonce[token].response == r.calls[k].frame
  {
    hide Next, Offers;
    if n > 0 {
      var s, c := r.At(n - 1), r.calls[n - 1];
      OfferIsLatest(r, n - 1, token);
      AwaitingExtranonceAfter(r.host, s, c, token);
      ConfigAlong(r, 0, n - 1);
      if Offers(r.host, s, c, token) {
        OfferReply(r.host, s, c, token);
      }
    }
  }

  /** A confirmed reservation lets go exactly the frame of the latest unconfirmed offer under its
      token; a confirmation with no such offer is refused. */
  lemma ReservationIsLatestOffer(r: Run, n: nat, token: string)
    requires r.Fresh() && n < |r.calls| && r.calls[n] == ExtranonceReserved(token)
    ensures r.Reply(n).Ok? <==> LatestOffer(r, n, token).Some?
    ensures r.Reply(n).Ok? ==>
      var k := LatestOffer(r, n, token).value;
      r.calls[k].UpstreamFrame? && r.Reply(n) == Ok([ForwardWorker(r.calls[k].frame)])
  {
    hide Offers, Opened;
    OfferIsLatest(r, n, token);
  }

  lemma OfferReply(h: Host, s: Session, c: Call, token: string)
    requires Offers(h, s, c, token)
    ensures Next(h, s, c).reply == Ok([ReserveExtranonce(token, s.config.sessionId, Next(h, s, c).reply.value[0].extranonce1)])
  {
    hide AfterWorkerFrame, AfterNotification, Received, EventFor;
    if c.WorkerFrame? {
      WorkerFrameKeeps(h, s, c.frame, c.nowMilliseconds);
    } else if c.UpstreamFrame? && MessageIn(h, c).Some? {
      var m := MessageIn(h, c).value;
      if MethodOf(m).Some? {
        NotificationKeeps(h, s, c.frame, m, MethodOf(m).value, c.nowSeconds);
      }
    }
  }

  /** What no call changes, and what a call can only move forward. */
  ghost predicate ConfigKept(c: Config, d: Config) {
    && d.sessionId == c.sessionId && d.username == c.username && d.secret == c.secret
    && d.upstreamUsername == c.upstreamUsername && d.upstreamSecret == c.upstreamSecret
    && d.lease.leaseId == c.lease.leaseId && d.lease.continuityId == c.lease.continuityId
    && c.issuedAtMilliseconds <= d.issuedAtMilliseconds && c.expiresAtSeconds <= d.expiresAtSeconds
  }

  lemma ConfigStep(h: Host, s: Session, c: Call)
    ensures ConfigKept(s.config, Next(h, s, c).session.config)
  {
    hide AfterWorkerFrame, AfterUpstreamFrame;
    if c.WorkerFrame? {
      WorkerFrameKeeps(h, s, c.frame, c.nowMilliseconds);
    } else if c.UpstreamFrame? {
      UpstreamFrameKeeps(h, s, c.frame, c.nowSeconds);
    }
  }

  /** Along a run the session, its lease, its names and its secrets stay, and it never expires earlier. */
  lemma {:induction false} ConfigAlong(r: Run, m: nat, n: nat)
    requires m <= n <= |r.calls|
    ensures ConfigKept(r.At(m).config, r.At(n).config)
  {
    hide Next;
    if m < n {
      ConfigAlong(r, m, n - 1);
      ConfigStep(r.host, r.At(n - 1), r.calls[n - 1]);
    }
  }

  /** At most 64 requests and 64 jobs are ever held. */
  lemma {:induction false} BoundsHold(r: Run, n: nat)
    requires r.Fresh() && n <= |r.calls|
    ensures |r.At(n).outstanding| <= MAX_OUTSTANDING && |r.At(n).jobs| <= MAX_JOBS
  {
    hide Next;
    if n > 0 {
      BoundsHold(r, n - 1);
      OutstandingBounded(r.host, r.At(n - 1), r.calls[n - 1]);
      JobsBounded(r.host, r.At(n - 1), r.calls[n - 1]);
    }
  }

  // ---------------------------------------------------------------- where an accepted submission comes from

  /** The submission was made by call submit, for the job of call notify, with the target in force
      then and the extranonce whose reservation call reservation confirmed. */
  ghost predicate MadeBy(r: Run, p: Submission, submit: nat, notify: nat, reservation: nat) {
    && notify < submit < |r.calls| && reservation < submit
    && r.calls[submit].WorkerFrame? && p.request == r.calls[submit].frame
    && MessageIn(r.host, r.calls[submit]).Some?
    && MethodOf(MessageIn(r.host, r.calls[submit]).value) == Some("mining.submit")
    && JobSubmitted(MessageIn(r.host, r.calls[submit]).value).Some?
    && ParamsOf(MessageIn(r.host, r.calls[submit]).value) == Some([
         Text(r.At(submit).config.username), Text(JobSubmitted(MessageIn(r.host, r.calls[submit]).value).value),
         Text(p.extranonce2), Text(p.ntime), Text(p.nonce)])
    && LatestNotify(r, submit, JobSubmitted(MessageIn(r.host, r.calls[submit]).value).value) == Some(notify)
    && TargetInForce(r, notify) == Some(p.target)
    && p.job.target == p.target && NotifySpells(r, notify, p.job)
    && (exists a: nat, k: nat :: k < submit && AuthorizedBy(r, a, k))
    && LatestReservation(r, submit) == Some(reservation)
    && OfferedBefore(r, reservation, p.extranonce1)
    && LeaseReadAt(r.At(submit).config, r.calls[submit].nowMilliseconds, p.lease)
  }

  /** The parameters of the notify spell this job. */
  ghost predicate NotifySpells(r: Run, k: nat, job: Job) {
    && k < |r.calls| && MessageIn(r.host, r.calls[k]).Some?
    && ParamsOf(MessageIn(r.host, r.calls[k]).value).Some?
    && Spells(ParamsOf(MessageIn(r.host, r.calls[k]).value).value, job)
  }

  /** The lease reading moved on by the time since it was issued, and is unexpired. */
  ghost predicate LeaseReadAt(config: Config, now: nat, lease: Lease) {
    && config.issuedAtMilliseconds <= now
    && lease.last == config.lease.last + (now - config.issuedAtMilliseconds) < config.lease.expiresAt
    && lease.last <= MAX_U64
    && lease == config.lease.(last := lease.last)
  }

  /** The confirmation at call k is for an earlier request to reserve this extranonce. */
  ghost predicate OfferedBefore(r: Run, k: nat, extranonce1: string) {
    && k < |r.calls| && r.calls[k].ExtranonceReserved?
    && var o := LatestOffer(r, k, r.calls[k].token);
       o.Some? && r.Reply(o.value) == Ok([ReserveExtranonce(r.calls[k].token, r.start.config.sessionId, extranonce1)])
  }

  /**
    Every event to be recorded is the event of the submission that its token's latest submit made:
    with the job and the target of the latest notify before that submit, and no clearing notify in
    between, with the extranonce of the latest confirmed reservation, and after a confirmed
    authorize.  Nothing between the submit and its answer enters into it.
   */
  lemma EventProvenance(r: Run, n: nat, token: string)
    requires r.Fresh() && n < |r.calls| && Persists(r.host, r.At(n), r.calls[n], token)
    ensures
      exists p: Submission, submit: nat, notify: nat, reservation: nat ::
        && submit < n && LatestRequest(r, n, token) == Some(submit)
        && MadeBy(r, p, submit, notify, reservation)
        && RecordsShare(r, n, token, p)
  {
    hide Next, Persists, EventFor, Registers, Responds, Notifies, Clears, ConfirmsAuthorize, MessageIn;
    hide AcceptsSubmit, Settled, Reserves, SetsDifficulty, DifficultyTarget, Opened, MadeBy, RecordsShare;
    var s, c := r.At(n), r.calls[n];
    PersistedSubmission(r.host, s, c, token);
    RequestIsLatest(r, n, token);
    LatestRequestRegisters(r, n, token);
    ConfigAlong(r, 0, n);
    var submit := LatestRequest(r, n, token).value;
    var notify, reservation := SubmitBehind(r, submit, token);
    assert MadeBy(r, s.outstanding[token].submission, submit, notify, reservation);
    ShareIsRecorded(r, n, token, s.outstanding[token].submission);
  }

  /** The call asks to record the event of a share that meets its target, with the submission's own lease
      reading and the frame to hold. */
  ghost predicate RecordsShare(r: Run, n: nat, token: string, p: Submission) {
    && n < |r.calls| && r.calls[n].UpstreamFrame?
    && exists header, event ::
         && Describes(r.host, r.start.config.sessionId, p, r.calls[n].nowSeconds, header, event)
         && r.Reply(n) == Ok([PersistAccepted(token, event, p.lease, r.calls[n].frame)])
  }

  lemma ShareIsRecorded(r: Run, n: nat, token: string, p: Submission)
    requires n < |r.calls| && r.calls[n].UpstreamFrame?
    requires
      var event := EventFor(r.host, r.start.config.sessionId, p, r.calls[n].nowSeconds);
      event.Ok? && r.Reply(n) == Ok([PersistAccepted(token, event.value, p.lease, r.calls[n].frame)])
    ensures RecordsShare(r, n, token, p)
  {
    hide Next, EventFor, Describes;
    var event := EventFor(r.host, r.start.config.sessionId, p, r.calls[n].nowSeconds).value;
    EventExactly(r.host, r.start.config.sessionId, p, r.calls[n].nowSeconds, event);
  }

  lemma PersistedSubmission(h: Host, s: Session, c: Call, token: string)
    requires Persists(h, s, c, token)
    ensures token in s.outstanding && s.outstanding[token].Submit? && c.UpstreamFrame?
    ensures
      var p := s.outstanding[token].submission;
      var event := EventFor(h, s.config.sessionId, p, c.nowSeconds);
      event.Ok? && Next(h, s, c).reply == Ok([PersistAccepted(token, event.value, p.lease, c.frame)])
  {
    hide Next, EventFor;
    PersistsExactly(h, s, c, token);
  }

  lemma SubmitBehind(r: Run, submit: nat, token: string) returns (notify: nat, reservation: nat)
    requires r.Fresh() && submit < |r.calls| && Registers(r.host, r.At(submit), r.calls[submit], token)
    requires token in r.At(submit + 1).outstanding && r.At(submit + 1).outstanding[token].Submit?
    ensures MadeBy(r, r.At(submit + 1).outstanding[token].submission, submit, notify, reservation)
  {
    hide Next, Notifies, Clears, AuthorizedBy, MessageIn, TargetInForce, Opened, JobIn, AdvancedByWallClock, LeaseReadAt, NotifySpells;
    var s, c := r.At(submit), r.calls[submit];
    RegisteredMessage(r.host, s, c, token);
    SubmitRegistered(r.host, s, c, token);
    var jobId := JobSubmitted(MessageIn(r.host, c).value).value;
    JobIsLatestNotify(r, submit, jobId);
    AuthorizedExactly(r, submit);
    ExtranonceIsLatestReservation(r, submit);
    notify, reservation := LatestNotify(r, submit, jobId).value, LatestReservation(r, submit).value;
    var p := r.At(submit + 1).outstanding[token].submission;
    AdvancedIsRead(s.config, c.nowMilliseconds, p.lease);
    JobInSpells(r, notify, p.target, p.job);
  }

  lemma AdvancedIsRead(config: Config, now: nat, lease: Lease)
    requires AdvancedByWallClock(config.lease, config.issuedAtMilliseconds, now) == Ok(lease)
    ensures LeaseReadAt(config, now, lease)
  {
  }

  lemma JobInSpells(r: Run, k: nat, target: nat, job: Job)
    requires k < |r.calls| && JobIn(r.host, r.calls[k], Some(target)) == Some(job)
    ensures NotifySpells(r, k, job) && job.target == target
  {
    hide MessageIn, JobOf, Spells;
    JobExactly(ParamsOf(MessageIn(r.host, r.calls[k]).value).value, Some(target), job);
  }

  lemma RegisteredMessage(h: Host, s: Session, c: Call, id: string)
    requires Registers(h, s, c, id)
    ensures MessageIn(h, c).Some?
  {
  }

  // ---------------------------------------------------------------- which responses are let go

  /** How often the response under a token was to be recorded, was let go, or replaced one still held. */
  function PersistCount(r: Run, n: nat, token: string): nat
    requires n <= |r.calls|
  {
    if n == 0 then 0
    else PersistCount(r, n - 1, token) + (if Persists(r.host, r.At(n - 1), r.calls[n - 1], token) then 1 else 0)
  }

  function ReleaseCount(r: Run, n: nat, token: string): nat
    requires n <= |r.calls|
  {
    if n == 0 then 0
    else ReleaseCount(r, n - 1, token) + (if Releases(r.At(n - 1), r.calls[n - 1], token) then 1 else 0)
  }

  function ReplacedCount(r: Run, n: nat, token: string): nat
    requires n <= |r.calls|
  {
    if n == 0 then 0
    else
      ReplacedCount(r, n - 1, token) +
      (if Persists(r.host, r.At(n - 1), r.calls[n - 1], token) && token in r.At(n - 1).awaitingPersistence then 1 else 0)
  }

  /** Each recorded response is let go, replaced by a later one under the same token, or still held. */
  lemma {:induction false} ResponsesConserved(r: Run, n: nat, token: string)
    requires r.Fresh() && n <= |r.calls|
    ensures PersistCount(r, n, token) ==
      ReleaseCount(r, n, token) + ReplacedCount(r, n, token) + (if token in r.At(n).awaitingPersistence then 1 else 0)
  {
    hide Next, Persists, Opened;
    OpenedIsEmpty(r.start);
    if n > 0 {
      var s, c := r.At(n - 1), r.calls[n - 1];
      ResponsesConserved(r, n - 1, token);
      AwaitingAfter(r.host, s, c, token);
      NotBoth(r.host, s, c, token);
    }
  }

  lemma NotBoth(h: Host, s: Session, c: Call, token: string)
    ensures !(Persists(h, s, c, token) && Releases(s, c, token))
  {
    hide Next, Persists;
    if Persists(h, s, c, token) {
      PersistedSubmission(h, s, c, token);
    }
  }

  /** Releases never outnumber requests to record, and match them one to one exactly when upstream
      never accepted a submit over a held response of its own identity. */
  lemma ReleasesMatchExactly(r: Run, n: nat, token: string)
    requires r.Fresh() && n <= |r.calls|
    ensures ReleaseCount(r, n, token) <= PersistCount(r, n, token)
    ensures
      var held := if token in r.At(n).awaitingPersistence then 1 else 0;
      PersistCount(r, n, token) == ReleaseCount(r, n, token) + held <==>
        forall k :: 0 <= k < n ==> !AcceptsOverHeld(r.host, r.At(k), r.calls[k], token)
  {
    hide Next, AcceptsOverHeld;
    ResponsesConserved(r, n, token);
    NoneReplacedExactly(r, n, token);
  }

  lemma {:induction false} NoneReplacedExactly(r: Run, n: nat, token: string)
    requires n <= |r.calls|
    ensures ReplacedCount(r, n, token) == 0 <==>
      forall k :: 0 <= k < n ==> !AcceptsOverHeld(r.host, r.At(k), r.calls[k], token)
  {
    hide Next, Persists, AcceptsSubmit, Settled, EventFor;
    if n > 0 {
      NoneReplacedExactly(r, n - 1, token);
      PersistsExactly(r.host, r.At(n - 1), r.calls[n - 1], token);
    }
  }

  // ---------------------------------------------------------------- one response per identity

  lemma {:induction false} LatestPersistStays(r: Run, n: nat, m: nat, token: string)
    requires n <= |r.calls| && LatestPersist(r, n, token).Some? && LatestPersist(r, n, token).value < m <= n
    ensures LatestPersist(r, m, token) == LatestPersist(r, n, token)
  {
    hide Next, Persists, Releases;
    if m < n {
      LatestPersistStays(r, n - 1, m, token);
    }
  }

  lemma PersistsResponds(h: Host, s: Session, c: Call, token: string)
    requires Persists(h, s, c, token)
    ensures Responds(h, c, token)
  {
    hide Next, EventFor;
    PersistsExactly(h, s, c, token);
  }

  lemma RegistersIsWorkers(h: Host, s: Session, c: Call, id: string)
    requires Registers(h, s, c, id)
    ensures c.WorkerFrame?
  {
  }

  lemma HeldSince(r: Run, n: nat, token: string) returns (k: nat)
    requires r.Fresh() && n <= |r.calls| && token in r.At(n).awaitingPersistence
    ensures k < n && LatestPersist(r, n, token) == Some(k) && Responds(r.host, r.calls[k], token)
  {
    hide Next, Persists, Responds, Releases, Opened;
    HeldIsLatestPersist(r, n, token);
    LatestPersistPersists(r, n, token);
    k := LatestPersist(r, n, token).value;
    PersistsResponds(r.host, r.At(k), r.calls[k], token);
  }

  lemma AskedSince(r: Run, n: nat, token: string, k: nat) returns (i: nat)
    requires r.Fresh() && k < n < |r.calls| && Persists(r.host, r.At(n), r.calls[n], token)
    requires Responds(r.host, r.calls[k], token)
    ensures k < i < n && Registers(r.host, r.At(i), r.calls[i], token)
  {
    hide Next, Persists, Registers, Opened, EventFor;
    PersistedSubmission(r.host, r.At(n), r.calls[n], token);
    RequestIsLatest(r, n, token);
    LatestRequestRegisters(r, n, token);
    i := LatestRequest(r, n, token).value;
    RegistersIsWorkers(r.host, r.At(i), r.calls[i], token);
  }

  /** A held response is replaced only after the worker reused its identity while it was held. */
  lemma ReplacementMeansReuse(r: Run, n: nat, token: string)
    requires r.Fresh() && n < |r.calls|
    requires Persists(r.host, r.At(n), r.calls[n], token) && token in r.At(n).awaitingPersistence
    ensures exists i :: 0 <= i < n && ReusesHeld(r.host, r.At(i), r.calls[i], token)
  {
    hide Next, Persists, Registers, Responds, Opened, LatestPersist;
    var k := HeldSince(r, n, token);
    var i := AskedSince(r, n, token, k);
    LatestPersistStays(r, n, i, token);
    HeldIsLatestPersist(r, i, token);
    assert ReusesHeld(r.host, r.At(i), r.calls[i], token);
  }

  /** While the worker reuses no identity whose response is held, every response to record is let go
      exactly once, or is still held. */
  lemma OneToOneWithoutReuse(r: Run, n: nat, token: string)
    requires r.Fresh() && n <= |r.calls|
    requires forall i :: 0 <= i < n ==> !ReusesHeld(r.host, r.At(i), r.calls[i], token)
    ensures PersistCount(r, n, token) ==
      ReleaseCount(r, n, token) + (if token in r.At(n).awaitingPersistence then 1 else 0)
  {
    hide Next, Persists, ReusesHeld, Opened, AcceptsSubmit, Settled, EventFor;
    ReleasesMatchExactly(r, n, token);
    forall k | 0 <= k < n ensures !AcceptsOverHeld(r.host, r.At(k), r.calls[k], token) {
      PersistsExactly(r.host, r.At(k), r.calls[k], token);
      if Persists(r.host, r.At(k), r.calls[k], token) && token in r.At(k).awaitingPersistence {
        ReplacementMeansReuse(r, k, token);
      }
    }
  }

  lemma {:induction false} ReplacedCountGrows(r: Run, n: nat, m: nat, token: string)
    requires n <= m <= |r.calls|
    ensures ReplacedCount(r, n, token) <= ReplacedCount(r, m, token)
  {
    hide Next, Persists;
    if n < m {
      ReplacedCountGrows(r, n, m - 1, token);
    }
  }

  /** A submit accepted over a held response of its identity: the new response takes the old one's
      place, and from then on some recorded response is neither let go nor held. */
  lemma ReuseLosesResponse(r: Run, n: nat, m: nat, token: string)
    requires r.Fresh() && n < m <= |r.calls|
    requires AcceptsOverHeld(r.host, r.At(n), r.calls[n], token)
    ensures r.calls[n].UpstreamFrame? && token in r.At(n + 1).awaitingPersistence
    ensures r.At(n + 1).awaitingPersistence[token] == r.calls[n].frame
    ensures
      var held := if token in r.At(m).awaitingPersistence then 1 else 0;
      ReleaseCount(r, m, token) + held < PersistCount(r, m, token)
  {
    hide Next, Persists, AcceptsSubmit, Settled, EventFor;
    PersistsExactly(r.host, r.At(n), r.calls[n], token);
    AwaitingAfter(r.host, r.At(n), r.calls[n], token);
    ReplacedCountGrows(r, n + 1, m, token);
    ResponsesConserved(r, m, token);
  }

  lemma {:induction false} HeldIsLatestPersist(r: Run, n: nat, token: string)
    requires r.Fresh() && n <= |r.calls|
    ensures token in r.At(n).awaitingPersistence <==> LatestPersist(r, n, token).Some?
    ensures token in r.At(n).awaitingPersistence ==>
      var k := LatestPersist(r, n, token).value;
      r.calls[k].UpstreamFrame? && r.At(n).awaitingPersistence[token] == r.calls[k].frame
  {
    hide Next, Persists, Opened, Releases;
    OpenedIsEmpty(r.start);
    if n > 0 {
      HeldIsLatestPersist(r, n - 1, token);
      AwaitingAfter(r.host, r.At(n - 1), r.calls[n - 1], token);
    }
  }

  /**
    A confirmation lets go exactly the response of the latest accepting upstream frame under its
    token, which was handled earlier and let go by no confirmation since; a confirmation with no such
    frame is refused.
   */
  lemma ReleaseIsLatestPersist(r: Run, n: nat, token: string)
    requires r.Fresh() && n < |r.calls| && r.calls[n] == AcceptedPersisted(token)
    ensures r.Reply(n).Ok? <==> LatestPersist(r, n, token).Some?
    ensures r.Reply(n).Ok? ==>
      var k := LatestPersist(r, n, token).value;
      && k < n && AcceptsSubmit(r.host, r.At(k), r.calls[k]) && Settled(r.host, r.At(k), r.calls[k]) == Some(token)
      && r.Reply(n) == Ok([ForwardWorker(r.calls[k].frame)])
  {
    hide Persists, Opened, AcceptsSubmit, Settled, EventFor;
    HeldIsLatestPersist(r, n, token);
    if token in r.At(n).awaitingPersistence {
      var k := LatestPersist(r, n, token).value;
      LatestPersistPersists(r, n, token);
      PersistsExactly(r.host, r.At(k), r.calls[k], token);
    }
  }

  /** The call in which upstream accepts an outstanding submit sends the worker nothing. */
  lemma AcceptanceIsHeld(r: Run, n: nat)
    requires n < |r.calls| && AcceptsSubmit(r.host, r.At(n), r.calls[n]) && r.Reply(n).Ok?
    ensures |r.Reply(n).value| == 1 && r.Reply(n).value[0].PersistAccepted?
    ensures Settled(r.host, r.At(n), r.calls[n]) == Some(r.Reply(n).value[0].accepted)
    ensures r.Reply(n).value[0].accepted in r.At(n + 1).awaitingPersistence
  {
    hide AfterNotification, Received, EventFor;
  }
}

/** What one call does to each part of a Stratum session, read off the frames rather than the code. */
module StratumSteps {
  import opened Wrappers
  import opened Stratum

  // ---------------------------------------------------------------- what a call is

  /** The message of a call that carries a readable frame. */
  function MessageIn(h: Host, c: Call): Option<Fields> {
    if c.WorkerFrame? || c.UpstreamFrame? then
      var received := Received(h, c.frame);
      if received.Ok? then Some(received.value) else None
    else None
  }

  /** An upstream notification with this method. */
  predicate Notification(h: Host, c: Call, name: string) {
    c.UpstreamFrame? && MessageIn(h, c).Some? && MethodOf(MessageIn(h, c).value) == Some(name)
  }

  /** An upstream notify for the job that the session takes over. */
  predicate Notifies(h: Host, s: Session, c: Call, jobId: string) {
    && Notification(h, c, "mining.notify")
    && NotifyHead(MessageIn(h, c).value).Some?
    && NotifyHead(MessageIn(h, c).value).value.0 == jobId
    && Next(h, s, c).reply.Ok?
  }

  /** The job that a notify describes, with this target. */
  function JobIn(h: Host, c: Call, target: Option<nat>): Option<Job> {
    var m := MessageIn(h, c);
    if m.None? || ParamsOf(m.value).None? then None
    else
      var job := JobOf(ParamsOf(m.value).value, target);
      if job.Ok? then Some(job.value) else None
  }

  /** An upstream notify that drops every earlier job. */
  predicate Clears(h: Host, s: Session, c: Call) {
    && Notification(h, c, "mining.notify")
    && NotifyHead(MessageIn(h, c).value).Some?
    && NotifyHead(MessageIn(h, c).value).value.1
    && c.nowSeconds < s.config.expiresAtSeconds
  }

  predicate SetsDifficulty(h: Host, s: Session, c: Call) {
    Notification(h, c, "mining.set_difficulty") && Next(h, s, c).reply.Ok?
  }

  /** The target that an accepted difficulty asks for. */
  function DifficultyTarget(h: Host, c: Call): Option<nat> {
    var m := MessageIn(h, c);
    if m.None? || ParamsOf(m.value).None? || ParamsOf(m.value).value == [] then None
    else
      var target := h.targetFor(ParamsOf(m.value).value[0]);
      if target.Ok? then Some(target.value) else None
  }

  /** A worker request that the session forwards and remembers under this identity. */
  predicate Registers(h: Host, s: Session, c: Call, id: string) {
    && c.WorkerFrame? && MessageIn(h, c).Some?
    && MessageId(h, MessageIn(h, c).value) == Some(id)
    && MethodOf(MessageIn(h, c).value).Some?
    && Next(h, s, c).reply.Ok? && |Next(h, s, c).reply.value| == 1
    && Next(h, s, c).reply.value[0].ForwardUpstream?
  }

  /** An upstream response with this identity. */
  predicate Responds(h: Host, c: Call, id: string) {
    && c.UpstreamFrame? && MessageIn(h, c).Some?
    && MethodOf(MessageIn(h, c).value).None?
    && MessageId(h, MessageIn(h, c).value) == Some(id)
  }

  /** The outstanding request that an upstream response settles. */
  function Settled(h: Host, s: Session, c: Call): Option<string> {
    if c.UpstreamFrame? && MessageIn(h, c).Some? && MethodOf(MessageIn(h, c).value).None? then
      var id := MessageId(h, MessageIn(h, c).value);
      if id.Some? && id.value in s.outstanding then id else None
    else None
  }

  /** Upstream's consent to an outstanding authorize. */
  predicate ConfirmsAuthorize(h: Host, s: Session, c: Call) {
    && Settled(h, s, c).Some? && s.outstanding[Settled(h, s, c).value].Authorize?
    && ResultTrue(MessageIn(h, c).value)
  }

  /** Upstream's acceptance of an outstanding submit. */
  predicate AcceptsSubmit(h: Host, s: Session, c: Call) {
    && Settled(h, s, c).Some? && s.outstanding[Settled(h, s, c).value].Submit?
    && ResultTrue(MessageIn(h, c).value)
  }

  predicate Reserves(s: Session, c: Call) {
    c.ExtranonceReserved? && c.token in s.awaitingExtranonce
  }

  /** The session asks for the accepted submission to be recorded under this token. */
  predicate Persists(h: Host, s: Session, c: Call, token: string) {
    var reply := Next(h, s, c).reply;
    reply.Ok? && |reply.value| == 1 && reply.value[0].PersistAccepted? && reply.value[0].accepted == token
  }

  /** The session asks for the offered extranonce to be reserved under this token. */
  predicate Offers(h: Host, s: Session, c: Call, token: string) {
    var reply := Next(h, s, c).reply;
    reply.Ok? && |reply.value| == 1 && reply.value[0].ReserveExtranonce? && reply.value[0].token == token
  }

  /** The worker makes a request under an identity whose earlier response is still held. */
  predicate ReusesHeld(h: Host, s: Session, c: Call, id: string) {
    Registers(h, s, c, id) && id in s.awaitingPersistence
  }

  /** Upstream accepts an outstanding submit, with an event that can be built, while an earlier
      response under its identity is still held. */
  predicate AcceptsOverHeld(h: Host, s: Session, c: Call, id: string) {
    && AcceptsSubmit(h, s, c) && Settled(h, s, c) == Some(id)
    && EventFor(h, s.config.sessionId, s.outstanding[id].submission, c.nowSeconds).Ok?
    && id in s.awaitingPersistence
  }

  /** A confirmation that lets a held response go. */
  predicate Releases(s: Session, c: Call, token: string) {
    c.AcceptedPersisted? && c.token == token && token in s.awaitingPersistence
  }

  // ---------------------------------------------------------------- what each kind of call leaves alone

  lemma WorkerFrameKeeps(h: Host, s: Session, frame: string, now: nat)
    ensures
      var step := AfterWorkerFrame(h, s, frame, now);
      && step.session == s.(outstanding := step.session.outstanding)
      && (step.reply.Ok? ==> |step.reply.value| == 1 && (step.reply.value[0].ForwardWorker? || step.reply.value[0].ForwardUpstream?))
  {
    hide PreparedFrame, Received;
  }

  lemma NotificationKeeps(h: Host, s: Session, frame: string, m: Fields, called: string, now: nat)
    ensures
      var step := AfterNotification(h, s, frame, m, called, now);
      && step.session == s.(target := step.session.target, jobs := step.session.jobs)
      && (step.reply.Ok? ==> step.reply.value == [ForwardWorker(frame)])
  {
    hide AfterNotify, AfterDifficulty;
    NotifyKeeps(s, frame, m);
    DifficultyKeeps(h, s, m);
  }

  lemma NotifyKeeps(s: Session, frame: string, m: Fields)
    ensures
      var step := AfterNotify(s, frame, m);
      && step.session == s.(jobs := step.session.jobs)
      && (step.reply.Ok? ==> step.reply.value == [ForwardWorker(frame)])
  {
    hide JobOf, NotifyHead;
  }

  lemma DifficultyKeeps(h: Host, s: Session, m: Fields)
    ensures
      var r := AfterDifficulty(h, s, m);
      r.Ok? ==> r.value == s.(target := r.value.target)
  {
  }

  lemma ResponseKeeps(h: Host, s: Session, frame: string, m: Fields, now: nat)
    ensures
      var t := AfterResponse(h, s, frame, m, now).session;
      t == s.(outstanding := t.outstanding, authorized := t.authorized,
              awaitingPersistence := t.awaitingPersistence, awaitingExtranonce := t.awaitingExtranonce)
  {
    hide EventFor;
  }

  lemma UpstreamFrameKeeps(h: Host, s: Session, frame: string, now: nat)
    ensures
      var t := AfterUpstreamFrame(h, s, frame, now).session;
      t.config == s.config && t.extranonce1 == s.extranonce1 && t.extranonce2Size == s.extranonce2Size
  {
    hide AfterNotification, AfterResponse, Received;
    var received := Received(h, frame);
    if received.Ok? {
      var m := received.value;
      if MethodOf(m).Some? {
        NotificationKeeps(h, s, frame, m, MethodOf(m).value, now);
      } else {
        ResponseKeeps(h, s, frame, m, now);
      }
    }
  }

  // ---------------------------------------------------------------- jobs and targets

  lemma JobsAfter(h: Host, s: Session, c: Call, jobId: string)
    ensures
      var t := Next(h, s, c).session;
      && (jobId in t.jobs <==> Notifies(h, s, c, jobId) || (jobId in s.jobs && !Clears(h, s, c)))
      && (Notifies(h, s, c, jobId) ==>
            s.target == Some(t.jobs[jobId].target) && JobIn(h, c, s.target) == Some(t.jobs[jobId]))
      && (!Notifies(h, s, c, jobId) && jobId in t.jobs ==> t.jobs[jobId] == s.jobs[jobId])
  {
    hide AfterWorkerFrame, AfterResponse, AfterNotify, AfterDifficulty, NotifyHead, Received, JobOf;
    JobsOnlyByNotify(h, s, c);
    if Notification(h, c, "mining.notify") {
      JobsAfterNotify(s, c.frame, MessageIn(h, c).value, jobId);
    }
  }

  lemma JobsAfterNotify(s: Session, frame: string, m: Fields, jobId: string)
    ensures
      var step := AfterNotify(s, frame, m);
      var named := NotifyHead(m).Some? && NotifyHead(m).value.0 == jobId && step.reply.Ok?;
      var clean := NotifyHead(m).Some? && NotifyHead(m).value.1;
      && (jobId in step.session.jobs <==> named || (jobId in s.jobs && !clean))
      && (named ==>
            ParamsOf(m).Some? && s.target == Some(step.session.jobs[jobId].target) && JobOf(ParamsOf(m).value, s.target) == Ok(step.session.jobs[jobId]))
      && (!named && jobId in step.session.jobs ==> step.session.jobs[jobId] == s.jobs[jobId])
  {
    hide NotifyHead, JobOf;
    if NotifyHead(m).Some? {
      HeadHasParams(m);
      JobHasTarget(ParamsOf(m).value, s.target);
    }
  }

  lemma HeadHasParams(m: Fields)
    requires NotifyHead(m).Some?
    ensures ParamsOf(m).Some?
  {
  }

  lemma JobHasTarget(params: seq<Json>, target: Option<nat>)
    ensures JobOf(params, target).Ok? ==> target == Some(JobOf(params, target).value.target)
  {
  }

  lemma JobsOnlyByNotify(h: Host, s: Session, c: Call)
    ensures !Notification(h, c, "mining.notify") ==> Next(h, s, c).session.jobs == s.jobs
  {
    hide AfterWorkerFrame, AfterNotify, AfterResponse, Received;
    if c.WorkerFrame? {
      WorkerFrameKeeps(h, s, c.frame, c.nowMilliseconds);
    } else if c.UpstreamFrame? && MessageIn(h, c).Some? {
      ResponseKeeps(h, s, c.frame, MessageIn(h, c).value, c.nowSeconds);
    }
  }

  lemma JobsBounded(h: Host, s: Session, c: Call)
    requires |s.jobs| <= MAX_JOBS
    ensures |Next(h, s, c).session.jobs| <= MAX_JOBS
  {
    hide AfterWorkerFrame, AfterResponse, AfterNotify, AfterDifficulty, Received;
    JobsOnlyByNotify(h, s, c);
    if Notification(h, c, "mining.notify") {
      NotifyBounded(s, c.frame, MessageIn(h, c).value);
    }
  }

  lemma NotifyBounded(s: Session, frame: string, m: Fields)
    requires |s.jobs| <= MAX_JOBS
    ensures |AfterNotify(s, frame, m).session.jobs| <= MAX_JOBS
  {
    hide NotifyHead, JobOf;
  }

  lemma TargetAfter(h: Host, s: Session, c: Call)
    ensures Next(h, s, c).session.target == if SetsDifficulty(h, s, c) then DifficultyTarget(h, c) else s.target
    ensures SetsDifficulty(h, s, c) ==> DifficultyTarget(h, c).Some?
  {
    hide AfterWorkerFrame, AfterResponse, AfterNotify, Received;
    if c.WorkerFrame? {
      WorkerFrameKeeps(h, s, c.frame, c.nowMilliseconds);
    } else if c.UpstreamFrame? && MessageIn(h, c).Some? {
      NotifyKeeps(s, c.frame, MessageIn(h, c).value);
      ResponseKeeps(h, s, c.frame, MessageIn(h, c).value, c.nowSeconds);
    }
  }

  // ---------------------------------------------------------------- requests

  lemma PreparedRequest(h: Host, s: Session, frame: string, m: Fields, now: nat)
    requires PreparedFrame(h, s, frame, m, now).Ok? && PreparedFrame(h, s, frame, m, now).value.Forwarded?
    ensures PreparedFrame(h, s, frame, m, now).value.request.None? <==> MethodOf(m).None?
  {
    hide AdvancedByWallClock, Rewritten;
  }

  /** The requests outstanding after a worker frame. */
  lemma WorkerRegisters(h: Host, s: Session, c: Call, id: string)
    requires c.WorkerFrame?
    ensures
      var t := Next(h, s, c).session;
      && (id in t.outstanding <==> Registers(h, s, c, id) || id in s.outstanding)
      && (!Registers(h, s, c, id) && id in t.outstanding ==> t.outstanding[id] == s.outstanding[id])
      && (Registers(h, s, c, id) ==> id !in s.outstanding)
  {
    hide PreparedFrame, Received;
    var received := Received(h, c.frame);
    if received.Ok? {
      var prepared := PreparedFrame(h, s, c.frame, received.value, c.nowMilliseconds);
      if prepared.Ok? && prepared.value.Forwarded? {
        PreparedRequest(h, s, c.frame, received.value, c.nowMilliseconds);
      }
    }
  }

  /** The requests outstanding after an upstream response. */
  lemma ResponseSettles(h: Host, s: Session, frame: string, m: Fields, now: nat)
    ensures
      AfterResponse(h, s, frame, m, now).session.outstanding ==
        if MessageId(h, m).Some? then s.outstanding - {MessageId(h, m).value} else s.outstanding
  {
    hide EventFor;
  }

  lemma OutstandingAfter(h: Host, s: Session, c: Call, id: string)
    ensures
      var t := Next(h, s, c).session;
      && (id in t.outstanding <==> Registers(h, s, c, id) || (id in s.outstanding && !Responds(h, c, id)))
      && (!Registers(h, s, c, id) && id in t.outstanding ==> t.outstanding[id] == s.outstanding[id])
      && (Registers(h, s, c, id) ==> id !in s.outstanding)
  {
    hide AfterWorkerFrame, AfterNotification, AfterResponse, Received, MessageId;
    if c.WorkerFrame? {
      WorkerRegisters(h, s, c, id);
    } else if c.UpstreamFrame? && MessageIn(h, c).Some? {
      var m := MessageIn(h, c).value;
      if MethodOf(m).Some? {
        NotificationKeeps(h, s, c.frame, m, MethodOf(m).value, c.nowSeconds);
      }
      ResponseSettles(h, s, c.frame, m, c.nowSeconds);
    }
  }

  lemma OutstandingBounded(h: Host, s: Session, c: Call)
    requires |s.outstanding| <= MAX_OUTSTANDING
    ensures |Next(h, s, c).session.outstanding| <= MAX_OUTSTANDING
  {
    hide PreparedFrame, AfterNotification, AfterResponse, Received, MessageId;
    if c.UpstreamFrame? && MessageIn(h, c).Some? {
      var m := MessageIn(h, c).value;
      if MethodOf(m).Some? {
        NotificationKeeps(h, s, c.frame, m, MethodOf(m).value, c.nowSeconds);
      }
      ResponseSettles(h, s, c.frame, m, c.nowSeconds);
      if MessageId(h, m).Some? && MessageId(h, m).value in s.outstanding {
        OneFewer(s.outstanding, MessageId(h, m).value);
      }
    }
  }

  lemma OneFewer(requests: map<string, Request>, id: string)
    requires id in requests
    ensures |requests - {id}| < |requests|
  {
    var rest := requests - {id};
    assert rest.Keys == requests.Keys - {id};
    assert |rest| == |rest.Keys| && |requests| == |requests.Keys|;
  }

  lemma SubmitPrepared(h: Host, s: Session, frame: string, m: Fields, now: nat)
    requires PreparedSubmit(h, s, frame, m, now).Ok?
    ensures
      var prepared := PreparedSubmit(h, s, frame, m, now).value;
      && prepared.Forwarded? && prepared.request.Some? && prepared.request.value.Submit?
      && var p := prepared.request.value.submission;
         && s.authorized
         && JobSubmitted(m).Some? && JobSubmitted(m).value in s.jobs
         && ParamsOf(m) == Some([
              Text(s.config.username), Text(JobSubmitted(m).value), Text(p.extranonce2), Text(p.ntime), Text(p.nonce)])
         && s.extranonce2Size.Some? && |p.extranonce2| == s.extranonce2Size.value * 2
         && p.job == s.jobs[JobSubmitted(m).value] && p.target == p.job.target
         && s.extranonce1 == Some(p.extranonce1)
         && p.request == frame
         && AdvancedByWallClock(s.config.lease, s.config.issuedAtMilliseconds, now) == Ok(p.lease)
  {
    hide AdvancedByWallClock, Rewritten;
    var params := ParamsOf(m).value;
    assert params == [params[0], params[1], params[2], params[3], params[4]];
  }

  /** A submit is remembered only when authorized, with the named job's target and the extranonce in
      force. */
  lemma SubmitRegistered(h: Host, s: Session, c: Call, id: string)
    requires Registers(h, s, c, id) && id in Next(h, s, c).session.outstanding
    requires Next(h, s, c).session.outstanding[id].Submit?
    ensures
      var p := Next(h, s, c).session.outstanding[id].submission;
      var m := MessageIn(h, c).value;
      && MethodOf(m) == Some("mining.submit")
      && s.authorized
      && JobSubmitted(m).Some? && JobSubmitted(m).value in s.jobs
      && ParamsOf(m) == Some([
           Text(s.config.username), Text(JobSubmitted(m).value), Text(p.extranonce2), Text(p.ntime), Text(p.nonce)])
      && s.extranonce2Size.Some? && |p.extranonce2| == s.extranonce2Size.value * 2
      && p.job == s.jobs[JobSubmitted(m).value] && p.target == p.job.target
      && s.extranonce1 == Some(p.extranonce1)
      && p.request == c.frame
      && AdvancedByWallClock(s.config.lease, s.config.issuedAtMilliseconds, c.nowMilliseconds) == Ok(p.lease)
  {
    hide AdvancedByWallClock, PreparedFrame, PreparedSubmit, Received;
    var m := MessageIn(h, c).value;
    var prepared := PreparedFrame(h, s, c.frame, m, c.nowMilliseconds);
    if prepared.Ok? && prepared.value.Forwarded? {
      PreparedRequest(h, s, c.frame, m, c.nowMilliseconds);
    }
    OnlySubmitsPrepareSubmits(h, s, c.frame, m, c.nowMilliseconds);
    if PreparedSubmit(h, s, c.frame, m, c.nowMilliseconds).Ok? {
      SubmitPrepared(h, s, c.frame, m, c.nowMilliseconds);
    }
  }

  lemma OnlySubmitsPrepareSubmits(h: Host, s: Session, frame: string, m: Fields, now: nat)
    ensures
      var prepared := PreparedFrame(h, s, frame, m, now);
      prepared.Ok? && prepared.value.Forwarded? && prepared.value.request.Some? && prepared.value.request.value.Submit? ==>
        MethodOf(m) == Some("mining.submit") && prepared == PreparedSubmit(h, s, frame, m, now)
  {
    hide Rewritten, PreparedSubmit;
  }

  /** Printing a message and parsing it gives it back. */
  ghost predicate ReadsBack(h: Host) {
    forall m: Fields :: h.parse(h.text(Object(m))) == Some(m)
  }

  /** A submit goes upstream with the worker's name replaced and nothing else changed. */
  lemma ForwardedSubmit(h: Host, s: Session, c: Call, id: string)
    requires ReadsBack(h) && Registers(h, s, c, id) && id in Next(h, s, c).session.outstanding
    requires Next(h, s, c).session.outstanding[id].Submit?
    ensures
      var m := MessageIn(h, c).value;
      && ParamsOf(m).Some? && |ParamsOf(m).value| == 5
      && h.parse(Next(h, s, c).reply.value[0].frame) ==
           Some(m["params" := Array(ParamsOf(m).value[0 := Text(s.config.upstreamUsername)])])
  {
    hide AdvancedByWallClock;
    var m := MessageIn(h, c).value;
    SubmitRegistered(h, s, c, id);
    var params := ParamsOf(m).value;
    if s.config.upstreamUsername == s.config.username {
      assert params[0 := Text(s.config.upstreamUsername)] == params;
      assert m["params" := Array(params)] == m;
    }
  }

  lemma AuthorizedAfter(h: Host, s: Session, c: Call)
    ensures Next(h, s, c).session.authorized <==> s.authorized || ConfirmsAuthorize(h, s, c)
  {
    hide AfterWorkerFrame, AfterNotification, Received, EventFor;
    if c.WorkerFrame? {
      WorkerFrameKeeps(h, s, c.frame, c.nowMilliseconds);
    } else if c.UpstreamFrame? && MessageIn(h, c).Some? {
      var m := MessageIn(h, c).value;
      if MethodOf(m).Some? {
        NotificationKeeps(h, s, c.frame, m, MethodOf(m).value, c.nowSeconds);
      }
    }
  }

  // ---------------------------------------------------------------- responses held back

  lemma PersistsExactly(h: Host, s: Session, c: Call, token: string)
    ensures Persists(h, s, c, token) <==>
      && AcceptsSubmit(h, s, c) && Settled(h, s, c) == Some(token)
      && EventFor(h, s.config.sessionId, s.outstanding[token].submission, c.nowSeconds).Ok?
    ensures Persists(h, s, c, token) ==>
      var p := s.outstanding[token].submission;
      Next(h, s, c).reply ==
        Ok([PersistAccepted(token, EventFor(h, s.config.sessionId, p, c.nowSeconds).value, p.lease, c.frame)])
  {
    hide AfterWorkerFrame, AfterNotification, Received, EventFor;
    if c.WorkerFrame? {
      WorkerFrameKeeps(h, s, c.frame, c.nowMilliseconds);
    } else if c.UpstreamFrame? && MessageIn(h, c).Some? {
      var m := MessageIn(h, c).value;
      if MethodOf(m).Some? {
        NotificationKeeps(h, s, c.frame, m, MethodOf(m).value, c.nowSeconds);
      }
    }
  }

  /** What waits for persistence after an upstream response. */
  lemma ResponseAwaits(h: Host, s: Session, frame: string, m: Fields, now: nat)
    ensures
      var step := AfterResponse(h, s, frame, m, now);
      step.session.awaitingPersistence ==
        if step.reply.Ok? && |step.reply.value| == 1 && step.reply.value[0].PersistAccepted?
        then s.awaitingPersistence[step.reply.value[0].accepted := frame] else s.awaitingPersistence
  {
    hide EventFor;
  }

  lemma AwaitingAfter(h: Host, s: Session, c: Call, token: string)
    ensures
      var t := Next(h, s, c).session;
      && (token in t.awaitingPersistence <==>
            Persists(h, s, c, token) || (token in s.awaitingPersistence && !Releases(s, c, token)))
      && (Persists(h, s, c, token) ==> c.UpstreamFrame? && t.awaitingPersistence[token] == c.frame)
      && (!Persists(h, s, c, token) && token in t.awaitingPersistence ==>
            t.awaitingPersistence[token] == s.awaitingPersistence[token])
  {
    hide AfterWorkerFrame, AfterNotification, AfterResponse, Received;
    if c.WorkerFrame? {
      WorkerFrameKeeps(h, s, c.frame, c.nowMilliseconds);
    } else if c.UpstreamFrame? && MessageIn(h, c).Some? {
      var m := MessageIn(h, c).value;
      if MethodOf(m).Some? {
        NotificationKeeps(h, s, c.frame, m, MethodOf(m).value, c.nowSeconds);
      }
      ResponseAwaits(h, s, c.frame, m, c.nowSeconds);
    }
  }

  // ---------------------------------------------------------------- extranonces

  lemma ExtranonceAfter(h: Host, s: Session, c: Call)
    ensures
      var t := Next(h, s, c).session;
      if Reserves(s, c) then
        && t.extranonce1 == Some(s.awaitingExtranonce[c.token].extranonce1)
        && t.extranonce2Size == Some(s.awaitingExtranonce[c.token].extranonce2Size)
      else t.extranonce1 == s.extranonce1 && t.extranonce2Size == s.extranonce2Size
  {
    hide AfterWorkerFrame, AfterUpstreamFrame;
    if c.WorkerFrame? {
      WorkerFrameKeeps(h, s, c.frame, c.nowMilliseconds);
    } else if c.UpstreamFrame? {
      UpstreamFrameKeeps(h, s, c.frame, c.nowSeconds);
    }
  }

  /** What waits for a reservation after an upstream response. */
  lemma ResponseOffers(h: Host, s: Session, frame: string, m: Fields, now: nat)
    ensures
      var step := AfterResponse(h, s, frame, m, now);
      if step.reply.Ok? && |step.reply.value| == 1 && step.reply.value[0].ReserveExtranonce? then
        var a := step.reply.value[0];
        && MessageId(h, m) == Some(a.token) && a.token in s.outstanding && s.outstanding[a.token].Subscribe?
        && exists size ::
             step.session.awaitingExtranonce == s.awaitingExtranonce[a.token := PendingExtranonce(frame, a.extranonce1, size)]
      else step.session.awaitingExtranonce == s.awaitingExtranonce
  {
    hide EventFor;
  }

  lemma AwaitingExtranonceAfter(h: Host, s: Session, c: Call, token: string)
    ensures
      var t := Next(h, s, c).session;
      && (token in t.awaitingExtranonce <==>
            Offers(h, s, c, token) || (token in s.awaitingExtranonce && c != ExtranonceReserved(token)))
      && (Offers(h, s, c, token) ==>
            && Settled(h, s, c) == Some(token) && s.outstanding[token].Subscribe?
            && t.awaitingExtranonce[token].response == c.frame
            && t.awaitingExtranonce[token].extranonce1 == Next(h, s, c).reply.value[0].extranonce1)
      && (!Offers(h, s, c, token) && token in t.awaitingExtranonce ==>
            t.awaitingExtranonce[token] == s.awaitingExtranonce[token])
  {
    hide AfterWorkerFrame, AfterNotification, AfterResponse, Received;
    if c.WorkerFrame? {
      WorkerFrameKeeps(h, s, c.frame, c.nowMilliseconds);
    } else if c.UpstreamFrame? && MessageIn(h, c).Some? {
      var m := MessageIn(h, c).value;
      if MethodOf(m).Some? {
        NotificationKeeps(h, s, c.frame, m, MethodOf(m).value, c.nowSeconds);
      }
      ResponseOffers(h, s, c.frame, m, c.nowSeconds);
    }
  }

  // ---------------------------------------------------------------- what reaches the worker

  /** Upstream's response to an outstanding subscribe offers an extranonce. */
  predicate OffersExtranonce(h: Host, s: Session, c: Call) {
    && Settled(h, s, c).Some? && s.outstanding[Settled(h, s, c).value].Subscribe?
    && var result := ArrayOf(Field(MessageIn(h, c).value, "result"));
       result.Some? && TextAt(result.value, 1).Some?
  }

  /** A handled upstream frame reaches the worker in the same call, as it is and alone, unless it
      accepts an outstanding submit or offers an extranonce; then nothing reaches the worker. */
  lemma ForwardedAtOnceExactly(h: Host, s: Session, c: Call)
    requires c.UpstreamFrame? && Next(h, s, c).reply.Ok?
    ensures
      var actions := Next(h, s, c).reply.value;
      if AcceptsSubmit(h, s, c) || OffersExtranonce(h, s, c) then |actions| == 1 && !actions[0].ForwardWorker?
      else actions == [ForwardWorker(c.frame)]
  {
    hide AfterNotification, Received, EventFor;
    if MessageIn(h, c).Some? {
      var m := MessageIn(h, c).value;
      if MethodOf(m).Some? {
        NotificationKeeps(h, s, c.frame, m, MethodOf(m).value, c.nowSeconds);
      }
    }
  }
}

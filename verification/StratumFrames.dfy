/** What single frames do, said of the frames: which requests go upstream and as what, which jobs and
    events are taken, and what a renewal changes. */
module StratumFrames {
  import opened Wrappers
  import opened Limits
  import opened Stratum
  import opened StratumSteps

  // ---------------------------------------------------------------- reading

  /** A frame is read exactly when it has at most 16384 bytes and parses to an object. */
  lemma ReadExactly(h: Host, c: Call)
    requires c.WorkerFrame? || c.UpstreamFrame?
    ensures MessageIn(h, c) == if |c.frame| <= 16384 then h.parse(c.frame) else None
  {
  }

  /** The parts of a message that a session looks at. */
  lemma PartsExactly(h: Host, m: Fields)
    ensures forall name :: MethodOf(m) == Some(name) <==> "method" in m && m["method"] == Text(name)
    ensures forall items :: ParamsOf(m) == Some(items) <==> "params" in m && m["params"] == Array(items)
    ensures ResultTrue(m) <==> "result" in m && m["result"] == Bool(true)
    ensures MessageId(h, m) == if "id" in m && m["id"] != Null then Some(h.text(m["id"])) else None
  {
  }

  /** A session opens exactly with a name, a secret and an expiry, unauthorized and empty. */
  lemma OpensExactly(config: Config)
    ensures Opened(config).Ok? <==> config.username != "" && config.secret != "" && config.expiresAtSeconds != 0
    ensures Opened(config).Ok? ==>
      Opened(config).value == Session(config, false, None, map[], map[], map[], map[], None, None)
  {
  }

  // ---------------------------------------------------------------- authorize

  /** The first two parameters of the message are this name and this secret. */
  predicate Carries(m: Fields, name: string, secret: string) {
    && "params" in m && m["params"].Array? && |m["params"].items| >= 2
    && m["params"].items[0] == Text(name) && m["params"].items[1] == Text(secret)
  }

  /** An authorize frame that the session reads before its expiry. */
  predicate Authorizes(h: Host, s: Session, c: Call) {
    && c.WorkerFrame? && c.nowMilliseconds / 1000 < s.config.expiresAtSeconds
    && MessageIn(h, c).Some? && MethodOf(MessageIn(h, c).value) == Some("mining.authorize")
  }

  /** An authorize with the wrong name or secret is answered false by the session itself: nothing goes
      upstream and nothing is remembered. */
  lemma WrongCredentialsStopHere(h: Host, s: Session, c: Call)
    requires Authorizes(h, s, c) && !Carries(MessageIn(h, c).value, s.config.username, s.config.secret)
    ensures Next(h, s, c).session == s
    ensures
      var m := MessageIn(h, c).value;
      Next(h, s, c).reply ==
        if ParamsOf(m).None? || MessageId(h, m).None? then Err(InvalidFrame)
        else Ok([ForwardWorker("{\"id\":" + MessageId(h, m).value + ",\"result\":false,\"error\":null}")])
  {
    hide Rewritten, Received, MessageId;
    WrongCredentials(h, s, c.frame, MessageIn(h, c).value);
    hide PreparedAuthorize;
  }

  lemma WrongCredentials(h: Host, s: Session, frame: string, m: Fields)
    requires !Carries(m, s.config.username, s.config.secret)
    ensures
      PreparedAuthorize(h, s, frame, m) ==
        if ParamsOf(m).None? || MessageId(h, m).None? then Err(InvalidFrame)
        else Ok(Answered("{\"id\":" + MessageId(h, m).value + ",\"result\":false,\"error\":null}"))
  {
    hide Rewritten, MessageId;
  }

  /** An authorize with the configured name and secret goes upstream under the upstream name and
      secret, and is remembered, unless its identity is missing, outstanding or one too many. */
  lemma RightCredentialsGoUpstream(h: Host, s: Session, c: Call)
    requires ReadsBack(h) && Authorizes(h, s, c) && Carries(MessageIn(h, c).value, s.config.username, s.config.secret)
    ensures
      var m := MessageIn(h, c).value;
      var o := Next(h, s, c);
      && ParamsOf(m).Some? && |ParamsOf(m).value| >= 2
      && (o.reply.Ok? <==> MessageId(h, m).Some? && MessageId(h, m).value !in s.outstanding && |s.outstanding| < 64)
      && (o.reply.Ok? ==>
            && o.session == s.(outstanding := s.outstanding[MessageId(h, m).value := Authorize])
            && |o.reply.value| == 1 && o.reply.value[0].ForwardUpstream?
            && h.parse(o.reply.value[0].frame) ==
                 Some(m["params" := Array(ParamsOf(m).value[0 := Text(s.config.upstreamUsername)][1 := Text(s.config.upstreamSecret)])]))
  {
    hide Received, MessageId;
    RightCredentials(h, s, c.frame, MessageIn(h, c).value);
    ParsedFrame(h, c);
    hide PreparedAuthorize;
  }

  lemma ParsedFrame(h: Host, c: Call)
    requires MessageIn(h, c).Some?
    ensures h.parse(c.frame) == MessageIn(h, c)
  {
  }

  lemma RightCredentials(h: Host, s: Session, frame: string, m: Fields)
    requires ReadsBack(h) && Carries(m, s.config.username, s.config.secret)
    ensures
      var r := PreparedAuthorize(h, s, frame, m);
      && ParamsOf(m).Some? && |ParamsOf(m).value| >= 2
      && var sent := m["params" := Array(ParamsOf(m).value[0 := Text(s.config.upstreamUsername)][1 := Text(s.config.upstreamSecret)])];
         && r.Ok? && r.value.Forwarded? && r.value.request == Some(Authorize)
         && (h.parse(r.value.upstream) == Some(sent) || (r.value.upstream == frame && sent == m))
  {
    var params := ParamsOf(m).value;
    var c := s.config;
    if c.upstreamUsername == c.username && c.upstreamSecret == c.secret {
      assert params[0 := Text(c.upstreamUsername)][1 := Text(c.upstreamSecret)] == params;
      assert m["params" := Array(params)] == m;
    }
  }

  /** Only an authorize with the configured name and secret is ever outstanding as one. */
  lemma AuthorizeRegistered(h: Host, s: Session, c: Call, id: string)
    requires Registers(h, s, c, id) && id in Next(h, s, c).session.outstanding
    requires Next(h, s, c).session.outstanding[id].Authorize?
    ensures
      var m := MessageIn(h, c).value;
      MethodOf(m) == Some("mining.authorize") && Carries(m, s.config.username, s.config.secret)
  {
    hide Received, PreparedFrame, MessageId;
    var m := MessageIn(h, c).value;
    var prepared := PreparedFrame(h, s, c.frame, m, c.nowMilliseconds);
    if prepared.Ok? && prepared.value.Forwarded? {
      PreparedRequest(h, s, c.frame, m, c.nowMilliseconds);
    }
    OnlyAuthorizesPrepareAuthorizes(h, s, c.frame, m, c.nowMilliseconds);
  }

  lemma OnlyAuthorizesPrepareAuthorizes(h: Host, s: Session, frame: string, m: Fields, now: nat)
    ensures
      var prepared := PreparedFrame(h, s, frame, m, now);
      prepared.Ok? && prepared.value.Forwarded? && prepared.value.request == Some(Authorize) ==>
        MethodOf(m) == Some("mining.authorize") && Carries(m, s.config.username, s.config.secret)
  {
    hide Rewritten, AdvancedByWallClock;
  }

  // ---------------------------------------------------------------- other worker frames

  /** After its expiry a session takes no worker frame and no notification. */
  lemma ExpiredTakesNothing(h: Host, s: Session, c: Call)
    requires
      || (c.WorkerFrame? && c.nowMilliseconds / 1000 >= s.config.expiresAtSeconds)
      || (c.UpstreamFrame? && c.nowSeconds >= s.config.expiresAtSeconds
          && MessageIn(h, c).Some? && MethodOf(MessageIn(h, c).value).Some?)
    ensures Next(h, s, c) == Step(s, Err(ExpiredCredentials))
  {
    hide PreparedFrame, AfterNotify, AfterDifficulty;
  }

  /** A frame that is too long or is no object is refused, from either side. */
  lemma UnreadableIsRefused(h: Host, s: Session, c: Call)
    requires c.WorkerFrame? || c.UpstreamFrame?
    requires |c.frame| > 16384 || h.parse(c.frame).None?
    ensures Next(h, s, c).session == s && Next(h, s, c).reply.Err?
  {
    hide PreparedFrame, AfterNotification, AfterResponse;
  }

  /** Any other worker frame goes upstream as it is; it is remembered exactly when it names a method,
      and then needs an identity that is not outstanding, and room. */
  lemma OthersGoUpstream(h: Host, s: Session, c: Call)
    requires c.WorkerFrame? && c.nowMilliseconds / 1000 < s.config.expiresAtSeconds && MessageIn(h, c).Some?
    requires
      MethodOf(MessageIn(h, c).value) != Some("mining.authorize") && MethodOf(MessageIn(h, c).value) != Some("mining.submit")
    ensures
      var m := MessageIn(h, c).value;
      var o := Next(h, s, c);
      if MethodOf(m).None? then o == Step(s, Ok([ForwardUpstream(c.frame)]))
      else
        && (o.reply.Ok? <==> MessageId(h, m).Some? && MessageId(h, m).value !in s.outstanding && |s.outstanding| < 64)
        && (o.reply.Ok? ==>
              o == Step(
                s.(outstanding := s.outstanding[MessageId(h, m).value :=
                     if MethodOf(m) == Some("mining.subscribe") then Subscribe else Passthrough]),
                Ok([ForwardUpstream(c.frame)])))
        && (o.reply.Err? ==> o.session == s)
  {
    hide PreparedAuthorize, PreparedSubmit, Received, MessageId;
  }

  /** A submit the session can forward: authorized, under a target and an extranonce, by the configured
      name, for a held job, of the agreed length, within its lease. */
  predicate Submittable(s: Session, m: Fields, now: nat, extranonce2: string, jobId: string, ntime: string, nonce: string) {
    && s.authorized && s.target.Some? && s.extranonce1.Some? && s.extranonce2Size.Some?
    && ParamsOf(m) == Some([Text(s.config.username), Text(jobId), Text(extranonce2), Text(ntime), Text(nonce)])
    && jobId in s.jobs
    && |extranonce2| == s.extranonce2Size.value * 2
    && s.config.issuedAtMilliseconds <= now
    && s.config.lease.last + (now - s.config.issuedAtMilliseconds) <= MAX_U64
    && s.config.lease.last + (now - s.config.issuedAtMilliseconds) < s.config.lease.expiresAt
  }

  lemma SubmittableIsPrepared(
      h: Host, s: Session, frame: string, m: Fields, now: nat, extranonce2: string, jobId: string, ntime: string, nonce: string)
    requires Submittable(s, m, now, extranonce2, jobId, ntime, nonce)
    ensures PreparedSubmit(h, s, frame, m, now).Ok?
  {
    var params := ParamsOf(m).value;
    assert TextAt(params, 0) == Some(s.config.username) && TextAt(params, 1) == Some(jobId);
    assert TextAt(params, 2) == Some(extranonce2) && TextAt(params, 3) == Some(ntime) && TextAt(params, 4) == Some(nonce);
  }

  lemma PreparedIsSubmittable(h: Host, s: Session, frame: string, m: Fields, now: nat)
    requires PreparedSubmit(h, s, frame, m, now).Ok?
    ensures
      var prepared := PreparedSubmit(h, s, frame, m, now).value;
      && prepared.Forwarded? && prepared.request.Some? && prepared.request.value.Submit?
      && var p := prepared.request.value.submission;
         && JobSubmitted(m).Some? && Submittable(s, m, now, p.extranonce2, JobSubmitted(m).value, p.ntime, p.nonce)
         && p.lease == s.config.lease.(last := s.config.lease.last + (now - s.config.issuedAtMilliseconds))
  {
    hide PreparedSubmit;
    SubmitPrepared(h, s, frame, m, now);
    PreparedHasTarget(h, s, frame, m, now);
  }

  lemma PreparedHasTarget(h: Host, s: Session, frame: string, m: Fields, now: nat)
    requires PreparedSubmit(h, s, frame, m, now).Ok?
    ensures s.target.Some? && s.extranonce1.Some? && s.extranonce2Size.Some?
  {
    hide Rewritten, AdvancedByWallClock;
  }

  /** A submit is remembered exactly when it is submittable and its identity is new and finds room; a
      refused one leaves no trace. */
  lemma SubmitsExactly(h: Host, s: Session, c: Call, id: string)
    requires c.WorkerFrame? && c.nowMilliseconds / 1000 < s.config.expiresAtSeconds && MessageIn(h, c).Some?
    requires MethodOf(MessageIn(h, c).value) == Some("mining.submit") && MessageId(h, MessageIn(h, c).value) == Some(id)
    ensures
      var m := MessageIn(h, c).value;
      Registers(h, s, c, id) <==>
        && id !in s.outstanding && |s.outstanding| < 64
        && exists e2, j, t, n :: Submittable(s, m, c.nowMilliseconds, e2, j, t, n)
    ensures !Registers(h, s, c, id) ==> Next(h, s, c).session == s && Next(h, s, c).reply.Err?
  {
    hide PreparedSubmit, PreparedAuthorize, Received, Submittable;
    var m := MessageIn(h, c).value;
    if PreparedSubmit(h, s, c.frame, m, c.nowMilliseconds).Ok? {
      PreparedIsSubmittable(h, s, c.frame, m, c.nowMilliseconds);
    }
    if e2, j, t, n :| Submittable(s, m, c.nowMilliseconds, e2, j, t, n) {
      SubmittableIsPrepared(h, s, c.frame, m, c.nowMilliseconds, e2, j, t, n);
    }
  }

  /** A difficulty is taken over exactly when it has a first parameter that scales to a target, and then
      that target alone changes. */
  lemma DifficultyExactly(h: Host, s: Session, c: Call)
    requires Notification(h, c, "mining.set_difficulty") && c.nowSeconds < s.config.expiresAtSeconds
    ensures
      var params := ParamsOf(MessageIn(h, c).value);
      var o := Next(h, s, c);
      && (o.reply.Ok? <==> params.Some? && |params.value| > 0 && h.targetFor(params.value[0]).Ok?)
      && (o.reply.Ok? ==>
            o == Step(s.(target := Some(h.targetFor(params.value[0]).value)), Ok([ForwardWorker(c.frame)])))
      && (o.reply.Err? ==> o.session == s)
  {
    hide AfterNotify, Received;
  }

  // ---------------------------------------------------------------- jobs

  /** The parameters of a notify spell this job, apart from its target. */
  predicate Spells(params: seq<Json>, job: Job) {
    && |params| >= 7
    && params[1] == Text(job.previousBlockHash) && params[2] == Text(job.coinbasePrefix)
    && params[3] == Text(job.coinbaseSuffix) && params[5] == Text(job.version) && params[6] == Text(job.networkBits)
    && params[4].Array? && |params[4].items| == |job.merkleBranches|
    && forall i :: 0 <= i < |job.merkleBranches| ==> params[4].items[i] == Text(job.merkleBranches[i])
  }

  lemma {:induction false} TextsExactly(items: seq<Json>, texts: seq<string>)
    ensures TextsOf(items) == Some(texts) <==>
      |items| == |texts| && forall i :: 0 <= i < |texts| ==> items[i] == Text(texts[i])
  {
    if items != [] && texts != [] {
      TextsExactly(items[1..], texts[1..]);
      assert TextsOf(items) == Some(texts) <==> items[0] == Text(texts[0]) && TextsOf(items[1..]) == Some(texts[1..]) by {
        assert texts == [texts[0]] + texts[1..];
      }
    }
  }

  /** A job is read from parameters exactly as they spell it, with the given target. */
  lemma JobExactly(params: seq<Json>, target: Option<nat>, job: Job)
    ensures JobOf(params, target) == Ok(job) <==> Spells(params, job) && target == Some(job.target)
  {
    if |params| >= 5 && params[4].Array? {
      TextsExactly(params[4].items, job.merkleBranches);
    }
  }

  /** A notify is taken over exactly when it spells a job under a target and the job is known or finds
      room, after the clearing it asks for. */
  lemma NotifiesExactly(h: Host, s: Session, c: Call, jobId: string, clean: bool)
    requires Notification(h, c, "mining.notify") && c.nowSeconds < s.config.expiresAtSeconds
    requires NotifyHead(MessageIn(h, c).value) == Some((jobId, clean))
    ensures ParamsOf(MessageIn(h, c).value).Some?
    ensures
      var params := ParamsOf(MessageIn(h, c).value).value;
      Notifies(h, s, c, jobId) <==>
        && s.target.Some? && (exists job :: Spells(params, job))
        && (clean || jobId in s.jobs || |s.jobs| < 64)
  {
    hide JobOf, Spells, NotifyHead;
    HeadHasParams(MessageIn(h, c).value);
    var params := ParamsOf(MessageIn(h, c).value).value;
    if JobOf(params, s.target).Ok? {
      JobExactly(params, s.target, JobOf(params, s.target).value);
    }
    if job :| Spells(params, job) && s.target.Some? {
      SpellsAnyTarget(params, job, s.target.value);
      JobExactly(params, s.target, job.(target := s.target.value));
    }
  }

  lemma SpellsAnyTarget(params: seq<Json>, job: Job, target: nat)
    requires Spells(params, job)
    ensures Spells(params, job.(target := target))
  {
  }

  /** The head of a notify: its first parameter names the job, its ninth says whether to clear. */
  lemma HeadExactly(m: Fields, jobId: string, clean: bool)
    ensures NotifyHead(m) == Some((jobId, clean)) <==>
      && "params" in m && m["params"].Array? && |m["params"].items| >= 9
      && m["params"].items[0] == Text(jobId) && m["params"].items[8] == Bool(clean)
  {
  }

  // ---------------------------------------------------------------- events

  /** The event is that of a share meeting its target: the header is made of the submission's own parts,
      and the identities are digests of the request under its session and of that header. */
  predicate Describes(h: Host, sessionId: string, p: Submission, now: nat, header: string, e: WorkEvent) {
    && h.header(p.job, p.extranonce1, p.extranonce2, p.ntime, p.nonce) == Ok(header)
    && h.classify(header, p.job.networkBits) == Ok(e.outcome)
    && h.meets(header, e.target)
    && e.target == p.target != 0
    && e.sessionId == sessionId && e.receivedAt == now != 0
    && e.eventId == "event_" + h.eventDigest(sessionId, p.request)
    && e.fingerprint == "share_" + h.shareDigest(header)
  }

  /** An event is built exactly when one describes the submission, and it is that one. */
  lemma EventExactly(h: Host, sessionId: string, p: Submission, now: nat, e: WorkEvent)
    ensures EventFor(h, sessionId, p, now) == Ok(e) <==> exists header :: Describes(h, sessionId, p, now, header, e)
  {
    var r := h.header(p.job, p.extranonce1, p.extranonce2, p.ntime, p.nonce);
    if EventFor(h, sessionId, p, now) == Ok(e) {
      assert Describes(h, sessionId, p, now, r.value, e);
    }
  }

  // ---------------------------------------------------------------- extranonces and renewal

  /** An answered subscribe offers an extranonce exactly with a size from 1 to 32, and both are kept for
      its confirmation. */
  lemma OffersExactly(h: Host, s: Session, c: Call)
    requires OffersExtranonce(h, s, c)
    ensures
      var id := Settled(h, s, c).value;
      var items := ArrayOf(Field(MessageIn(h, c).value, "result")).value;
      var size := if |items| > 2 && items[2].Number? then h.asU64(items[2].literal) else None;
      && (Offers(h, s, c, id) <==> size.Some? && 1 <= size.value <= 32)
      && (Offers(h, s, c, id) ==>
            && Next(h, s, c).reply == Ok([ReserveExtranonce(id, s.config.sessionId, items[1].text)])
            && Next(h, s, c).session.awaitingExtranonce ==
                 s.awaitingExtranonce[id := PendingExtranonce(c.frame, items[1].text, size.value)])
      && (!Offers(h, s, c, id) ==> Next(h, s, c).reply == Err(InvalidExtranonce))
  {
    hide AfterNotification, Received, MessageId, MethodOf;
  }

  /** A session is renewed exactly by a registration of the same session, lease and continuity that is
      issued no earlier and expires no earlier; then only its lease reading and times change. */
  lemma RenewsExactly(h: Host, s: Session, r: Registration)
    ensures
      var o := Next(h, s, Renew(r));
      && (o.reply.Ok? <==>
            && r.sessionId == s.config.sessionId
            && r.lease.leaseId == s.config.lease.leaseId && r.lease.continuityId == s.config.lease.continuityId
            && s.config.issuedAtMilliseconds <= r.issuedAtMilliseconds
            && s.config.expiresAtSeconds <= r.expiresAtSeconds)
      && o.session == s.(config := o.session.config)
      && o.session.config == (if o.reply.Err? then s.config
           else Config(s.config.sessionId, r.lease, s.config.username, s.config.secret, s.config.upstreamUsername,
                       s.config.upstreamSecret, r.issuedAtMilliseconds, r.expiresAtSeconds))
  {
  }
}

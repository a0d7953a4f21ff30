/**
  One Stratum V1 session: the frames of both sides, the jobs and requests it holds, and the responses
  it holds back.  A text is a sequence of bytes; parsing, printing, hashing and target arithmetic are
  parameters.
 */
module Stratum {
  import opened Wrappers
  import opened Limits

  const MAX_FRAME_BYTES: nat := 16 * 1024
  const MAX_OUTSTANDING: nat := 64
  const MAX_JOBS: nat := 64

  datatype Json =
    | Null
    | Bool(value: bool)
    | Number(literal: string)
    | Text(text: string)
    | Array(items: seq<Json>)
    | Object(fields: map<string, Json>)

  type Fields = map<string, Json>

  datatype Lease = Lease(leaseId: string, continuityId: string, last: nat, renewAt: nat, expiresAt: nat)

  datatype Config = Config(
    sessionId: string, lease: Lease, username: string, secret: string,
    upstreamUsername: string, upstreamSecret: string, issuedAtMilliseconds: nat, expiresAtSeconds: nat)

  datatype Job = Job(
    previousBlockHash: string, coinbasePrefix: string, coinbaseSuffix: string, merkleBranches: seq<string>,
    version: string, networkBits: string, target: nat)

  datatype Submission = Submission(
    request: string, job: Job, extranonce1: string, extranonce2: string, ntime: string, nonce: string,
    target: nat, lease: Lease)

  datatype PendingExtranonce = PendingExtranonce(response: string, extranonce1: string, extranonce2Size: nat)

  datatype Request = Subscribe | Authorize | Submit(submission: Submission) | Passthrough

  datatype Outcome = BelowNetworkTarget | NetworkTargetMet

  datatype WorkEvent = WorkEvent(
    eventId: string, sessionId: string, target: nat, receivedAt: nat, fingerprint: string, outcome: Outcome)

  datatype Action =
    | ForwardUpstream(frame: string)
    | ForwardWorker(frame: string)
    | ReserveExtranonce(token: string, sessionId: string, extranonce1: string)
    | PersistAccepted(accepted: string, event: WorkEvent, lease: Lease, response: string)

  datatype StratumError =
    | InvalidSessionConfig | InvalidFrame | InvalidCredentials | ExpiredCredentials | AuthorizationRequired
    | TargetRequired | UnsupportedDifficulty | InvalidExtranonce | ExtranonceCollision | UnknownJob
    | UnknownPersistenceToken | UnknownExtranonceToken | DuplicateRequestId | FrameTooLarge | CapacityExceeded
    | ShareBelowAssignedTarget | UnextendableSession | ClockRollback | InvalidReceiptTime | ZeroTarget

  /** What the session takes from its libraries. */
  datatype Host = Host(
    parse: string -> Option<Fields>,
    text: Json -> string,
    asU64: string -> Option<nat>,
    targetFor: Json -> Result<nat, StratumError>,
    header: (Job, string, string, string, string) -> Result<string, StratumError>,
    classify: (string, string) -> Result<Outcome, StratumError>,
    meets: (string, nat) -> bool,
    eventDigest: (string, string) -> string,
    shareDigest: string -> string)

  datatype Session = Session(
    config: Config,
    authorized: bool,
    target: Option<nat>,
    jobs: map<string, Job>,
    outstanding: map<string, Request>,
    awaitingPersistence: map<string, string>,
    awaitingExtranonce: map<string, PendingExtranonce>,
    extranonce1: Option<string>,
    extranonce2Size: Option<nat>)

  datatype Step = Step(session: Session, reply: Result<seq<Action>, StratumError>)

  // ---------------------------------------------------------------- reading messages

  function Field(m: Fields, name: string): Option<Json> {
    if name in m then Some(m[name]) else None
  }

  function MethodOf(m: Fields): Option<string> {
    var f := Field(m, "method");
    if f.Some? && f.value.Text? then Some(f.value.text) else None
  }

  function ArrayOf(f: Option<Json>): Option<seq<Json>> {
    if f.Some? && f.value.Array? then Some(f.value.items) else None
  }

  function ParamsOf(m: Fields): Option<seq<Json>> {
    ArrayOf(Field(m, "params"))
  }

  function ItemAt(items: seq<Json>, i: nat): Option<Json> {
    if i < |items| then Some(items[i]) else None
  }

  function TextAt(items: seq<Json>, i: nat): Option<string> {
    if i < |items| && items[i].Text? then Some(items[i].text) else None
  }

  /** Requests are keyed by the printed form of their identity; null is no identity. */
  function MessageId(h: Host, m: Fields): Option<string> {
    var f := Field(m, "id");
    if f.None? || f.value.Null? then None else Some(h.text(f.value))
  }

  predicate ResultTrue(m: Fields) {
    Field(m, "result") == Some(Bool(true))
  }

  function TextsOf(items: seq<Json>): Option<seq<string>> {
    if items == [] then Some([])
    else
      var rest := TextsOf(items[1..]);
      if items[0].Text? && rest.Some? then Some([items[0].text] + rest.value) else None
  }

  /** The frame's message, unless the frame is too long or is no object. */
  function Received(h: Host, frame: string): Result<Fields, StratumError> {
    if |frame| > MAX_FRAME_BYTES then Err(FrameTooLarge)
    else
      var m := h.parse(frame);
      if m.None? then Err(InvalidFrame) else Ok(m.value)
  }

  // ---------------------------------------------------------------- worker frames

  /** A lease reading advanced by the wall-clock time since it was issued. */
  function AdvancedByWallClock(lease: Lease, issuedAt: nat, now: nat): Result<Lease, StratumError> {
    if now < issuedAt then Err(ClockRollback)
    else if lease.last + (now - issuedAt) > MAX_U64 then Err(InvalidSessionConfig)
    else if lease.last + (now - issuedAt) >= lease.expiresAt then Err(ExpiredCredentials)
    else Ok(lease.(last := lease.last + (now - issuedAt)))
  }

  /** The message with its first parameters replaced, printed again. */
  function Rewritten(h: Host, m: Fields, username: string, secret: Option<string>): Option<string> {
    var params := ParamsOf(m);
    if params.None? || |params.value| < 1 then None
    else if secret.None? then
      Some(h.text(Object(m["params" := Array(params.value[0 := Text(username)])])))
    else if |params.value| < 2 then None
    else Some(h.text(Object(m["params" := Array(params.value[0 := Text(username)][1 := Text(secret.value)])])))
  }

  /** What a worker frame asks for: an answer of the proxy's own, or a frame to forward and perhaps
      a request to remember. */
  datatype Prepared = Answered(response: string) | Forwarded(upstream: string, request: Option<Request>)

  function RefusalText(id: string): string {
    "{\"id\":" + id + ",\"result\":false,\"error\":null}"
  }

  function PreparedAuthorize(h: Host, s: Session, frame: string, m: Fields): Result<Prepared, StratumError> {
    var c, params := s.config, ParamsOf(m);
    if params.None? then Err(InvalidFrame)
    else if TextAt(params.value, 0) != Some(c.username) || TextAt(params.value, 1) != Some(c.secret) then
      var id := MessageId(h, m);
      if id.None? then Err(InvalidFrame) else Ok(Answered(RefusalText(id.value)))
    else if c.upstreamUsername != c.username || c.upstreamSecret != c.secret then
      var text := Rewritten(h, m, c.upstreamUsername, Some(c.upstreamSecret));
      if text.None? then Err(InvalidFrame) else Ok(Forwarded(text.value, Some(Authorize)))
    else Ok(Forwarded(frame, Some(Authorize)))
  }

  /** The job a submit names. */
  function JobSubmitted(m: Fields): Option<string> {
    var params := ParamsOf(m);
    if params.None? then None else TextAt(params.value, 1)
  }

  function PreparedSubmit(h: Host, s: Session, frame: string, m: Fields, now: nat): Result<Prepared, StratumError> {
    var c := s.config;
    if !s.authorized then Err(AuthorizationRequired)
    else if s.target.None? then Err(TargetRequired)
    else if s.extranonce1.None? || s.extranonce2Size.None? then Err(InvalidExtranonce)
    else
      var maybeParams := ParamsOf(m);
      if maybeParams.None? then Err(InvalidFrame)
      else
        var params := maybeParams.value;
        if TextAt(params, 0) != Some(c.username) then Err(InvalidCredentials)
        else if |params| != 5 then Err(UnknownJob)
        else if TextAt(params, 1).None? || TextAt(params, 1).value !in s.jobs then Err(UnknownJob)
        else if TextAt(params, 2).None? then Err(InvalidFrame)
        else if |TextAt(params, 2).value| != s.extranonce2Size.value * 2 then Err(InvalidExtranonce)
        else if TextAt(params, 3).None? || TextAt(params, 4).None? then Err(InvalidFrame)
        else
          var text := if c.upstreamUsername != c.username then Rewritten(h, m, c.upstreamUsername, None) else Some(frame);
          var lease := AdvancedByWallClock(c.lease, c.issuedAtMilliseconds, now);
          if text.None? then Err(InvalidFrame)
          else if lease.Err? then Err(lease.error)
          else
            var job := s.jobs[TextAt(params, 1).value];
            Ok(Forwarded(text.value, Some(Submit(Submission(
              frame, job, s.extranonce1.value, TextAt(params, 2).value, TextAt(params, 3).value,
              TextAt(params, 4).value, job.target, lease.value)))))
  }

  function PreparedFrame(h: Host, s: Session, frame: string, m: Fields, now: nat): Result<Prepared, StratumError> {
    var called := MethodOf(m);
    if called.None? then Ok(Forwarded(frame, None))
    else if called.value == "mining.subscribe" then Ok(Forwarded(frame, Some(Subscribe)))
    else if called.value == "mining.authorize" then PreparedAuthorize(h, s, frame, m)
    else if called.value == "mining.submit" then PreparedSubmit(h, s, frame, m, now)
    else Ok(Forwarded(frame, Some(Passthrough)))
  }

  function Registered(s: Session, id: string, request: Request): Result<Session, StratumError> {
    if id in s.outstanding then Err(DuplicateRequestId)
    else if |s.outstanding| >= MAX_OUTSTANDING then Err(CapacityExceeded)
    else Ok(s.(outstanding := s.outstanding[id := request]))
  }

  function AfterWorkerFrame(h: Host, s: Session, frame: string, now: nat): Step {
    if now / 1000 >= s.config.expiresAtSeconds then Step(s, Err(ExpiredCredentials))
    else
      var received := Received(h, frame);
      if received.Err? then Step(s, Err(received.error))
      else
        var m := received.value;
        var prepared := PreparedFrame(h, s, frame, m, now);
        if prepared.Err? then Step(s, Err(prepared.error))
        else if prepared.value.Answered? then Step(s, Ok([ForwardWorker(prepared.value.response)]))
        else if prepared.value.request.None? then Step(s, Ok([ForwardUpstream(prepared.value.upstream)]))
        else
          var id := MessageId(h, m);
          if id.None? then Step(s, Err(InvalidFrame))
          else
            var registered := Registered(s, id.value, prepared.value.request.value);
            if registered.Err? then Step(s, Err(registered.error))
            else Step(registered.value, Ok([ForwardUpstream(prepared.value.upstream)]))
  }

  // ---------------------------------------------------------------- upstream notifications

  function AfterDifficulty(h: Host, s: Session, m: Fields): Result<Session, StratumError> {
    var params := ParamsOf(m);
    if params.None? || params.value == [] then Err(UnsupportedDifficulty)
    else
      var target := h.targetFor(params.value[0]);
      if target.Err? then Err(target.error) else Ok(s.(target := Some(target.value)))
  }

  /** The job a notify names and whether it clears the others, when both can be read. */
  function NotifyHead(m: Fields): Option<(string, bool)> {
    var params := ParamsOf(m);
    if params.None? || TextAt(params.value, 0).None? then None
    else if |params.value| <= 8 || !params.value[8].Bool? then None
    else Some((TextAt(params.value, 0).value, params.value[8].value))
  }

  function JobOf(params: seq<Json>, target: Option<nat>): Result<Job, StratumError> {
    var branches := ArrayOf(ItemAt(params, 4));
    if branches.None? || TextsOf(branches.value).None? then Err(InvalidFrame)
    else if TextAt(params, 1).None? || TextAt(params, 2).None? || TextAt(params, 3).None? then Err(InvalidFrame)
    else if TextAt(params, 5).None? || TextAt(params, 6).None? then Err(InvalidFrame)
    else if target.None? then Err(TargetRequired)
    else Ok(Job(
      TextAt(params, 1).value, TextAt(params, 2).value, TextAt(params, 3).value, TextsOf(branches.value).value,
      TextAt(params, 5).value, TextAt(params, 6).value, target.value))
  }

  /** Jobs are cleared before the rest of the notification is read, so they stay cleared when it fails. */
  function AfterNotify(s: Session, frame: string, m: Fields): Step {
    var head := NotifyHead(m);
    if head.None? then Step(s, Err(InvalidFrame))
    else
      var (jobId, clean) := head.value;
      var s := if clean then s.(jobs := map[]) else s;
      if jobId !in s.jobs && |s.jobs| >= MAX_JOBS then Step(s, Err(CapacityExceeded))
      else
        var job := JobOf(ParamsOf(m).value, s.target);
        if job.Err? then Step(s, Err(job.error))
        else Step(s.(jobs := s.jobs[jobId := job.value]), Ok([ForwardWorker(frame)]))
  }

  function AfterNotification(h: Host, s: Session, frame: string, m: Fields, called: string, now: nat): Step {
    if now >= s.config.expiresAtSeconds then Step(s, Err(ExpiredCredentials))
    else if called == "mining.set_difficulty" then
      var r := AfterDifficulty(h, s, m);
      if r.Err? then Step(s, Err(r.error)) else Step(r.value, Ok([ForwardWorker(frame)]))
    else if called == "mining.notify" then AfterNotify(s, frame, m)
    else Step(s, Ok([ForwardWorker(frame)]))
  }

  // ---------------------------------------------------------------- upstream responses

  function AfterSubscribed(h: Host, s: Session, frame: string, m: Fields, id: string): Step {
    var result := ArrayOf(Field(m, "result"));
    if result.None? || TextAt(result.value, 1).None? then Step(s, Ok([ForwardWorker(frame)]))
    else
      var extranonce1 := TextAt(result.value, 1).value;
      var size :=
        if 2 < |result.value| && result.value[2].Number? then h.asU64(result.value[2].literal) else None;
      if size.None? || !(1 <= size.value <= 32) then Step(s, Err(InvalidExtranonce))
      else
        var pending := PendingExtranonce(frame, extranonce1, size.value);
        Step(s.(awaitingExtranonce := s.awaitingExtranonce[id := pending]),
             Ok([ReserveExtranonce(id, s.config.sessionId, extranonce1)]))
  }

  /** The event for a submission that upstream accepted. */
  function EventFor(h: Host, sessionId: string, p: Submission, now: nat): Result<WorkEvent, StratumError> {
    var header := h.header(p.job, p.extranonce1, p.extranonce2, p.ntime, p.nonce);
    if header.Err? then Err(header.error)
    else
      var outcome := h.classify(header.value, p.job.networkBits);
      if outcome.Err? then Err(outcome.error)
      else if !h.meets(header.value, p.target) then Err(ShareBelowAssignedTarget)
      else if now == 0 then Err(InvalidReceiptTime)
      else if p.target == 0 then Err(ZeroTarget)
      else Ok(WorkEvent(
        "event_" + h.eventDigest(sessionId, p.request), sessionId, p.target, now,
        "share_" + h.shareDigest(header.value), outcome.value))
  }

  function AfterSubmitted(h: Host, s: Session, frame: string, m: Fields, id: string, p: Submission, now: nat): Step {
    if !ResultTrue(m) then Step(s, Ok([ForwardWorker(frame)]))
    else
      var event := EventFor(h, s.config.sessionId, p, now);
      if event.Err? then Step(s, Err(event.error))
      else Step(s.(awaitingPersistence := s.awaitingPersistence[id := frame]),
                Ok([PersistAccepted(id, event.value, p.lease, frame)]))
  }

  function AfterResponse(h: Host, s: Session, frame: string, m: Fields, now: nat): Step {
    var maybeId := MessageId(h, m);
    if maybeId.None? then Step(s, Err(InvalidFrame))
    else if maybeId.value !in s.outstanding then Step(s, Ok([ForwardWorker(frame)]))
    else
      var id, request := maybeId.value, s.outstanding[maybeId.value];
      var s := s.(outstanding := s.outstanding - {id});
      match request
      case Subscribe => AfterSubscribed(h, s, frame, m, id)
      case Authorize => Step(s.(authorized := s.authorized || ResultTrue(m)), Ok([ForwardWorker(frame)]))
      case Submit(p) => AfterSubmitted(h, s, frame, m, id, p, now)
      case Passthrough => Step(s, Ok([ForwardWorker(frame)]))
  }

  function AfterUpstreamFrame(h: Host, s: Session, frame: string, now: nat): Step {
    var received := Received(h, frame);
    if received.Err? then Step(s, Err(received.error))
    else
      var m := received.value;
      if MethodOf(m).Some? then AfterNotification(h, s, frame, m, MethodOf(m).value, now)
      else AfterResponse(h, s, frame, m, now)
  }

  // ---------------------------------------------------------------- confirmations and renewal

  function AfterAcceptedPersisted(s: Session, token: string): Step {
    if token !in s.awaitingPersistence then Step(s, Err(UnknownPersistenceToken))
    else Step(s.(awaitingPersistence := s.awaitingPersistence - {token}),
              Ok([ForwardWorker(s.awaitingPersistence[token])]))
  }

  function AfterExtranonceReserved(s: Session, token: string): Step {
    if token !in s.awaitingExtranonce then Step(s, Err(UnknownExtranonceToken))
    else
      var pending := s.awaitingExtranonce[token];
      Step(
        s.(awaitingExtranonce := s.awaitingExtranonce - {token},
           extranonce1 := Some(pending.extranonce1),
           extranonce2Size := Some(pending.extranonce2Size)),
        Ok([ForwardWorker(pending.response)]))
  }

  datatype Registration = Registration(
    sessionId: string, lease: Lease, issuedAtMilliseconds: nat, expiresAtSeconds: nat)

  function AfterRenew(s: Session, r: Registration): Step {
    var c := s.config;
    if || r.sessionId != c.sessionId
       || r.lease.leaseId != c.lease.leaseId
       || r.lease.continuityId != c.lease.continuityId
       || r.issuedAtMilliseconds < c.issuedAtMilliseconds
       || r.expiresAtSeconds < c.expiresAtSeconds
    then Step(s, Err(UnextendableSession))
    else Step(
      s.(config := c.(lease := r.lease, issuedAtMilliseconds := r.issuedAtMilliseconds,
                      expiresAtSeconds := r.expiresAtSeconds)),
      Ok([]))
  }

  function Opened(config: Config): Result<Session, StratumError> {
    if config.username == "" || config.secret == "" || config.expiresAtSeconds == 0 then Err(InvalidSessionConfig)
    else Ok(Session(config, false, None, map[], map[], map[], map[], None, None))
  }

  datatype Call =
    | WorkerFrame(frame: string, nowMilliseconds: nat)
    | UpstreamFrame(frame: string, nowSeconds: nat)
    | AcceptedPersisted(token: string)
    | ExtranonceReserved(token: string)
    | Renew(registration: Registration)

  function Next(h: Host, s: Session, c: Call): Step {
    match c
    case WorkerFrame(frame, now) => AfterWorkerFrame(h, s, frame, now)
    case UpstreamFrame(frame, now) => AfterUpstreamFrame(h, s, frame, now)
    case AcceptedPersisted(token) => AfterAcceptedPersisted(s, token)
    case ExtranonceReserved(token) => AfterExtranonceReserved(s, token)
    case Renew(registration) => AfterRenew(s, registration)
  }
}

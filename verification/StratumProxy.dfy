/** The Stratum session as it updates itself, each call proved to be its step; and the registry that
    keeps extranonces apart. */
module StratumProxy {
  import opened Wrappers
  import opened Limits
  import opened Stratum

  class StratumSession {
    var config: Config
    var authorized: bool
    var maybeCurrentTarget: Option<nat>
    var jobs: map<string, Job>
    var outstandingRequests: map<string, Request>
    var awaitingPersistence: map<string, string>
    var awaitingExtranonce: map<string, PendingExtranonce>
    var maybeExtranonce1: Option<string>
    var maybeExtranonce2Size: Option<nat>

    function Value(): Session
      reads this
    {
      Session(config, authorized, maybeCurrentTarget, jobs, outstandingRequests, awaitingPersistence,
              awaitingExtranonce, maybeExtranonce1, maybeExtranonce2Size)
    }

    /** Opening fails on a configuration outside this; there is then no session. */
    constructor (config: Config)
      requires Opened(config).Ok?
      ensures Ok(Value()) == Opened(config)
    {
      this.config := config;
      authorized := false;
      maybeCurrentTarget := None;
      jobs := map[];
      outstandingRequests := map[];
      awaitingPersistence := map[];
      awaitingExtranonce := map[];
      maybeExtranonce1 := None;
      maybeExtranonce2Size := None;
    }

    method WorkerFrame(h: Host, frame: string, nowSeconds: nat) returns (r: Result<seq<Action>, StratumError>)
      modifies this`outstandingRequests
      ensures
        if nowSeconds * 1000 > MAX_U64 then r == Err(InvalidSessionConfig) && Value() == old(Value())
        else Step(Value(), r) == Next(h, old(Value()), Call.WorkerFrame(frame, nowSeconds * 1000))
    {
      if nowSeconds * 1000 > MAX_U64 {
        return Err(InvalidSessionConfig);
      }
      r := WorkerFrameAt(h, frame, nowSeconds * 1000);
    }

    method WorkerFrameAt(h: Host, frame: string, now: nat) returns (r: Result<seq<Action>, StratumError>)
      modifies this`outstandingRequests
      ensures Step(Value(), r) == Next(h, old(Value()), Call.WorkerFrame(frame, now))
    {
      hide PreparedFrame, Received, MessageId;
      if now / 1000 >= config.expiresAtSeconds {
        return Err(ExpiredCredentials);
      }
      var received := Received(h, frame);
      if received.Err? {
        return Err(received.error);
      }
      var message := received.value;
      var prepared := PreparedFrame(h, Value(), frame, message, now);
      if prepared.Err? {
        return Err(prepared.error);
      }
      if prepared.value.Answered? {
        return Ok([ForwardWorker(prepared.value.response)]);
      }
      if prepared.value.request.Some? {
        var id := MessageId(h, message);
        if id.None? {
          return Err(InvalidFrame);
        }
        if id.value in outstandingRequests {
          return Err(DuplicateRequestId);
        }
        if |outstandingRequests| >= MAX_OUTSTANDING {
          return Err(CapacityExceeded);
        }
        outstandingRequests := outstandingRequests[id.value := prepared.value.request.value];
      }
      r := Ok([ForwardUpstream(prepared.value.upstream)]);
    }

    method UpstreamFrame(h: Host, frame: string, now: nat) returns (r: Result<seq<Action>, StratumError>)
      modifies this
      ensures Step(Value(), r) == Next(h, old(Value()), Call.UpstreamFrame(frame, now))
    {
      hide AfterNotification, AfterResponse, Received;
      var received := Received(h, frame);
      if received.Err? {
        return Err(received.error);
      }
      var message := received.value;
      var called := MethodOf(message);
      if called.Some? {
        r := Notified(h, frame, message, called.value, now);
      } else {
        r := Answered(h, frame, message, now);
      }
    }

    method Notified(h: Host, frame: string, message: Fields, called: string, now: nat)
      returns (r: Result<seq<Action>, StratumError>)
      modifies this`maybeCurrentTarget, this`jobs
      ensures Step(Value(), r) == AfterNotification(h, old(Value()), frame, message, called, now)
    {
      hide NotifyHead, JobOf;
      if now >= config.expiresAtSeconds {
        return Err(ExpiredCredentials);
      }
      if called == "mining.set_difficulty" {
        var params := ParamsOf(message);
        if params.None? || params.value == [] {
          return Err(UnsupportedDifficulty);
        }
        var target := h.targetFor(params.value[0]);
        if target.Err? {
          return Err(target.error);
        }
        maybeCurrentTarget := Some(target.value);
      } else if called == "mining.notify" {
        r := TookNotify(frame, message);
        return;
      }
      r := Ok([ForwardWorker(frame)]);
    }

    method TookNotify(frame: string, message: Fields) returns (r: Result<seq<Action>, StratumError>)
      modifies this`jobs
      ensures Step(Value(), r) == AfterNotify(old(Value()), frame, message)
    {
      hide JobOf;
      var head := NotifyHead(message);
      if head.None? {
        return Err(InvalidFrame);
      }
      var (jobId, cleanJobs) := head.value;
      if cleanJobs {
        jobs := map[];
      }
      if jobId !in jobs && |jobs| >= MAX_JOBS {
        return Err(CapacityExceeded);
      }
      var job := JobOf(ParamsOf(message).value, maybeCurrentTarget);
      if job.Err? {
        return Err(job.error);
      }
      jobs := jobs[jobId := job.value];
      r := Ok([ForwardWorker(frame)]);
    }

    method Answered(h: Host, frame: string, message: Fields, now: nat) returns (r: Result<seq<Action>, StratumError>)
      modifies this`outstandingRequests, this`authorized, this`awaitingPersistence, this`awaitingExtranonce
      ensures Step(Value(), r) == AfterResponse(h, old(Value()), frame, message, now)
    {
      hide AfterSubscribed, AfterSubmitted, MessageId;
      var maybeId := MessageId(h, message);
      if maybeId.None? {
        return Err(InvalidFrame);
      }
      var id := maybeId.value;
      if id !in outstandingRequests {
        return Ok([ForwardWorker(frame)]);
      }
      var request := outstandingRequests[id];
      outstandingRequests := outstandingRequests - {id};
      match request {
        case Subscribe =>
          r := Subscribed(h, frame, message, id);
        case Authorize =>
          if ResultTrue(message) {
            authorized := true;
          }
          r := Ok([ForwardWorker(frame)]);
        case Submit(submission) =>
          r := Submitted(h, frame, message, id, submission, now);
        case Passthrough =>
          r := Ok([ForwardWorker(frame)]);
      }
    }

    method Subscribed(h: Host, frame: string, message: Fields, id: string) returns (r: Result<seq<Action>, StratumError>)
      modifies this`awaitingExtranonce
      ensures Step(Value(), r) == AfterSubscribed(h, old(Value()), frame, message, id)
    {
      var result := ArrayOf(Field(message, "result"));
      if result.None? || TextAt(result.value, 1).None? {
        return Ok([ForwardWorker(frame)]);
      }
      var extranonce1 := TextAt(result.value, 1).value;
      var size := None;
      if 2 < |result.value| && result.value[2].Number? {
        size := h.asU64(result.value[2].literal);
      }
      if size.None? || !(1 <= size.value <= 32) {
        return Err(InvalidExtranonce);
      }
      awaitingExtranonce := awaitingExtranonce[id := PendingExtranonce(frame, extranonce1, size.value)];
      r := Ok([ReserveExtranonce(id, config.sessionId, extranonce1)]);
    }

    method Submitted(h: Host, frame: string, message: Fields, id: string, submission: Submission, now: nat)
      returns (r: Result<seq<Action>, StratumError>)
      modifies this`awaitingPersistence
      ensures Step(Value(), r) == AfterSubmitted(h, old(Value()), frame, message, id, submission, now)
    {
      if !ResultTrue(message) {
        return Ok([ForwardWorker(frame)]);
      }
      var event := EventFor(h, config.sessionId, submission, now);
      if event.Err? {
        return Err(event.error);
      }
      awaitingPersistence := awaitingPersistence[id := frame];
      r := Ok([PersistAccepted(id, event.value, submission.lease, frame)]);
    }

    method AcceptedPersisted(h: Host, token: string) returns (r: Result<seq<Action>, StratumError>)
      modifies this`awaitingPersistence
      ensures Step(Value(), r) == Next(h, old(Value()), Call.AcceptedPersisted(token))
    {
      if token !in awaitingPersistence {
        return Err(UnknownPersistenceToken);
      }
      var response := awaitingPersistence[token];
      awaitingPersistence := awaitingPersistence - {token};
      r := Ok([ForwardWorker(response)]);
    }

    method ExtranonceReserved(h: Host, token: string) returns (r: Result<seq<Action>, StratumError>)
      modifies this`awaitingExtranonce, this`maybeExtranonce1, this`maybeExtranonce2Size
      ensures Step(Value(), r) == Next(h, old(Value()), Call.ExtranonceReserved(token))
    {
      if token !in awaitingExtranonce {
        return Err(UnknownExtranonceToken);
      }
      var pending := awaitingExtranonce[token];
      awaitingExtranonce := awaitingExtranonce - {token};
      maybeExtranonce1 := Some(pending.extranonce1);
      maybeExtranonce2Size := Some(pending.extranonce2Size);
      r := Ok([ForwardWorker(pending.response)]);
    }

    method Renew(h: Host, renewed: Registration) returns (r: Result<seq<Action>, StratumError>)
      modifies this`config
      ensures Step(Value(), r) == Next(h, old(Value()), Call.Renew(renewed))
    {
      if renewed.sessionId != config.sessionId || renewed.lease.leaseId != config.lease.leaseId
         || renewed.lease.continuityId != config.lease.continuityId
         || renewed.issuedAtMilliseconds < config.issuedAtMilliseconds
         || renewed.expiresAtSeconds < config.expiresAtSeconds
      {
        return Err(UnextendableSession);
      }
      config := config.(
        lease := renewed.lease,
        issuedAtMilliseconds := renewed.issuedAtMilliseconds,
        expiresAtSeconds := renewed.expiresAtSeconds);
      r := Ok([]);
    }
  }

  // ---------------------------------------------------------------- the extranonce registry

  predicate IsHexDigit(c: char) {
    '0' <= c <= '9' || 'a' <= c <= 'f' || 'A' <= c <= 'F'
  }

  predicate ValidExtranonce(text: string) {
    && 0 < |text| <= 64 && |text| % 2 == 0
    && forall i :: 0 <= i < |text| ==> IsHexDigit(text[i])
  }

  function Lower(c: char): char {
    if 'A' <= c <= 'Z' then c - 'A' + 'a' else c
  }

  function Lowercase(text: string): (r: string)
    ensures |r| == |text| && forall i :: 0 <= i < |text| ==> r[i] == Lower(text[i])
  {
    seq(|text|, i requires 0 <= i < |text| => Lower(text[i]))
  }

  function AfterReserve(taken: map<string, string>, sessionId: string, extranonce1: string)
    : (map<string, string>, Result<(), StratumError>)
  {
    if !ValidExtranonce(extranonce1) then (taken, Err(InvalidExtranonce))
    else
      var key := Lowercase(extranonce1);
      if key !in taken then (taken[key := sessionId], Ok(()))
      else if taken[key] == sessionId then (taken, Ok(()))
      else (taken, Err(ExtranonceCollision))
  }

  class ExtranonceSpace {
    var sessionsByExtranonce: map<string, string>

    constructor ()
      ensures sessionsByExtranonce == map[]
    {
      sessionsByExtranonce := map[];
    }

    method Reserve(sessionId: string, extranonce1: string) returns (r: Result<(), StratumError>)
      modifies this
      ensures (sessionsByExtranonce, r) == AfterReserve(old(sessionsByExtranonce), sessionId, extranonce1)
    {
      if !ValidExtranonce(extranonce1) {
        return Err(InvalidExtranonce);
      }
      var canonical := Lowercase(extranonce1);
      if canonical in sessionsByExtranonce {
        if sessionsByExtranonce[canonical] == sessionId {
          return Ok(());
        }
        return Err(ExtranonceCollision);
      }
      sessionsByExtranonce := sessionsByExtranonce[canonical := sessionId];
      r := Ok(());
    }
  }

  function HexValue(c: char): int {
    if '0' <= c <= '9' then c as int - '0' as int
    else if 'a' <= c <= 'f' then c as int - 'a' as int + 10
    else c as int - 'A' as int + 10
  }

  /** Two well-formed extranonces share a place in the registry exactly when they are the same hexadecimal
      digits, in whatever letter case. */
  lemma SamePlaceExactly(a: string, b: string)
    requires ValidExtranonce(a) && ValidExtranonce(b)
    ensures Lowercase(a) == Lowercase(b) <==>
      |a| == |b| && forall i :: 0 <= i < |a| ==> HexValue(a[i]) == HexValue(b[i])
  {
    if |a| == |b| {
      forall i | 0 <= i < |a| ensures Lowercase(a)[i] == Lowercase(b)[i] <==> HexValue(a[i]) == HexValue(b[i]) {
        LowerIsHex(a[i], b[i]);
      }
    }
  }

  lemma LowerIsHex(c: char, d: char)
    requires IsHexDigit(c) && IsHexDigit(d)
    ensures Lower(c) == Lower(d) <==> HexValue(c) == HexValue(d)
  {
    assert Lower(c) as int == (if HexValue(c) < 10 then 48 + HexValue(c) else 87 + HexValue(c));
    assert Lower(d) as int == (if HexValue(d) < 10 then 48 + HexValue(d) else 87 + HexValue(d));
  }

  /** Anything but an even number of hexadecimal digits, from 2 to 64, is refused. */
  lemma MalformedIsRefused(taken: map<string, string>, sessionId: string, extranonce1: string)
    requires |extranonce1| == 0 || |extranonce1| > 64 || |extranonce1| % 2 == 1 || exists i :: 0 <= i < |extranonce1| && !IsHexDigit(extranonce1[i])
    ensures AfterReserve(taken, sessionId, extranonce1) == (taken, Err(InvalidExtranonce))
  {
  }

  datatype Reservation = Reservation(sessionId: string, extranonce1: string)

  function Taken(asked: seq<Reservation>): map<string, string> {
    if asked == [] then map[]
    else
      var last := asked[|asked| - 1];
      AfterReserve(Taken(asked[..|asked| - 1]), last.sessionId, last.extranonce1).0
  }

  predicate Granted(asked: seq<Reservation>, k: nat)
    requires k < |asked|
  {
    AfterReserve(Taken(asked[..k]), asked[k].sessionId, asked[k].extranonce1).1.Ok?
  }

  lemma {:induction false} GrantStays(asked: seq<Reservation>, k: nat)
    requires k < |asked| && Granted(asked, k)
    ensures
      var key := Lowercase(asked[k].extranonce1);
      key in Taken(asked) && Taken(asked)[key] == asked[k].sessionId
  {
    var front := asked[..|asked| - 1];
    if k < |front| {
      assert front[..k] == asked[..k];
      GrantStays(front, k);
    } else {
      assert front == asked[..k];
    }
  }

  /** However the reservations fall, a well-formed extranonce is granted to a session exactly when no
      other session was granted it before, whatever the letter case. */
  lemma GrantedExactly(asked: seq<Reservation>, k: nat)
    requires k < |asked| && ValidExtranonce(asked[k].extranonce1)
    ensures Granted(asked, k) <==>
      forall j :: 0 <= j < k && Granted(asked, j) && Lowercase(asked[j].extranonce1) == Lowercase(asked[k].extranonce1) ==>
        asked[j].sessionId == asked[k].sessionId
  {
    var front, key := asked[..k], Lowercase(asked[k].extranonce1);
    forall j | 0 <= j < k && Granted(asked, j)
      ensures var other := Lowercase(asked[j].extranonce1); other in Taken(front) && Taken(front)[other] == asked[j].sessionId
    {
      assert front[..j] == asked[..j];
      GrantStays(front, j);
    }
    if key in Taken(front) {
      var j := GrantBehind(front, key);
      assert front[..j] == asked[..j];
    }
  }

  lemma {:induction false} GrantBehind(asked: seq<Reservation>, key: string) returns (k: nat)
    requires key in Taken(asked)
    ensures k < |asked| && Granted(asked, k) && Lowercase(asked[k].extranonce1) == key
    ensures Taken(asked)[key] == asked[k].sessionId
  {
    var front := asked[..|asked| - 1];
    if key in Taken(front) {
      k := GrantBehind(front, key);
      assert front[..k] == asked[..k];
    } else {
      k := |asked| - 1;
      assert front == asked[..k];
    }
  }
}

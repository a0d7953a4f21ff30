/** A run in which a worker reuses the identity of a submit whose accepted response is still held. */
module StratumReuse {
  import opened Wrappers
  import opened Stratum
  import opened StratumSteps
  import opened StratumRuns

  /** Every message of this run has the same identity. */
  const ID: string := "t"

  function Asked(name: string, params: seq<Json>): Fields {
    map["id" := Text(ID), "method" := Text(name), "params" := Array(params)]
  }

  function Replied(result: Json): Fields {
    map["id" := Text(ID), "result" := result]
  }

  const NOTIFY: seq<Json> :=
    [Text("j"), Text(""), Text(""), Text(""), Array([]), Text(""), Text(""), Text(""), Bool(false)]
  const SUBMIT: seq<Json> := [Text("w"), Text("j"), Text("00"), Text(""), Text("")]

  /** Frames of one letter stand for the messages of the run. */
  function Messages(frame: string): Option<Fields> {
    if |frame| != 1 then None
    else
      match frame[0]
      case 's' => Some(Asked("mining.subscribe", []))
      case 'S' => Some(Replied(Array([Null, Text("00"), Number("1")])))
      case 'a' => Some(Asked("mining.authorize", [Text("w"), Text("p")]))
      case 'T' => Some(Replied(Bool(true)))
      case 'd' => Some(Asked("mining.set_difficulty", [Null]))
      case 'n' => Some(Asked("mining.notify", NOTIFY))
      case 'u' => Some(Asked("mining.submit", SUBMIT))
      case _ => None
  }

  function Library(): Host {
    Host(
      frame => Messages(frame),
      json => ID,
      literal => Some(1),
      difficulty => Ok(1),
      (job, extranonce1, extranonce2, ntime, nonce) => Ok(""),
      (header, bits) => Ok(BelowNetworkTarget),
      (header, target) => true,
      (sessionId, request) => "",
      header => "")
  }

  const LEASE: Lease := Lease("l", "c", 0, 1, 10000)
  const CONFIG: Config := Config("session", LEASE, "w", "p", "w", "p", 0, 10)
  const JOB: Job := Job("", "", "", [], "", "", 1)
  const SUBMISSION: Submission := Submission("u", JOB, "00", "00", "", "", 1, LEASE.(last := 1000))
  const EVENT: WorkEvent := WorkEvent("event_", "session", 1, 1, "share_", BelowNetworkTarget)

  lemma AskedFields(name: string, params: seq<Json>)
    ensures
      var m := Asked(name, params);
      MethodOf(m) == Some(name) && ParamsOf(m) == Some(params) && MessageId(Library(), m) == Some(ID)
  {
    assert "method"[0] == 'm' && "params"[0] == 'p' && "id"[0] == 'i';
  }

  lemma RepliedFields(result: Json)
    ensures
      var m := Replied(result);
      MethodOf(m) == None && Field(m, "result") == Some(result) && MessageId(Library(), m) == Some(ID)
  {
    assert "method"[0] == 'm' && "result"[0] == 'r' && "id"[0] == 'i';
  }

  lemma Heard()
    ensures Received(Library(), "s") == Ok(Asked("mining.subscribe", []))
    ensures Received(Library(), "S") == Ok(Replied(Array([Null, Text("00"), Number("1")])))
    ensures Received(Library(), "a") == Ok(Asked("mining.authorize", [Text("w"), Text("p")]))
    ensures Received(Library(), "T") == Ok(Replied(Bool(true)))
    ensures Received(Library(), "d") == Ok(Asked("mining.set_difficulty", [Null]))
    ensures Received(Library(), "n") == Ok(Asked("mining.notify", NOTIFY))
    ensures Received(Library(), "u") == Ok(Asked("mining.submit", SUBMIT))
  {
    hide Asked, Replied;
  }

  lemma EventBuilds()
    ensures EventFor(Library(), "session", SUBMISSION, 1) == Ok(EVENT)
  {
    assert "event_" + "" == "event_" && "share_" + "" == "share_";
  }

  lemma Names()
    ensures "mining.authorize" != "mining.subscribe" && "mining.submit" != "mining.subscribe"
    ensures "mining.submit" != "mining.authorize" && "mining.notify" != "mining.set_difficulty"
  {
    assert "mining.authorize"[7] == 'a' && "mining.subscribe"[7] == 's';
    assert |"mining.submit"| == 13 && |"mining.subscribe"| == 16 && |"mining.authorize"| == 16;
    assert |"mining.notify"| == 13 && |"mining.set_difficulty"| == 21;
  }

  // ---------------------------------------------------------------- the session, call by call

  function Fresh0(): Session {
    Session(CONFIG, false, None, map[], map[], map[], map[], None, None)
  }

  function Waiting(s: Session, request: Request): Session {
    s.(outstanding := map[ID := request])
  }

  function Offered(): Session {
    Fresh0().(awaitingExtranonce := map[ID := PendingExtranonce("S", "00", 1)])
  }

  function Reserved(): Session {
    Fresh0().(extranonce1 := Some("00"), extranonce2Size := Some(1))
  }

  function Ready(): Session {
    Reserved().(authorized := true, target := Some(1), jobs := map["j" := JOB])
  }

  function Held(): Session {
    Ready().(awaitingPersistence := map[ID := "T"])
  }

  lemma Subscribes()
    ensures Next(Library(), Fresh0(), WorkerFrame("s", 1000)).session == Waiting(Fresh0(), Subscribe)
  {
    hide Library, Messages, Received, Asked, Replied, MethodOf, MessageId, ParamsOf;
    Heard();
    AskedFields("mining.subscribe", []);
  }

  lemma IsOffered()
    ensures Next(Library(), Waiting(Fresh0(), Subscribe), UpstreamFrame("S", 1)).session == Offered()
  {
    hide Messages, Received, Asked, Replied, MethodOf, MessageId;
    Heard();
    var result := [Null, Text("00"), Number("1")];
    RepliedFields(Array(result));
    assert map[ID := Subscribe] - {ID} == map[];
  }

  lemma IsReserved()
    ensures Next(Library(), Offered(), ExtranonceReserved(ID)).session == Reserved()
  {
    assert map[ID := PendingExtranonce("S", "00", 1)] - {ID} == map[];
  }

  lemma AsksToAuthorize()
    ensures Next(Library(), Reserved(), WorkerFrame("a", 1000)).session == Waiting(Reserved(), Authorize)
  {
    hide Library, Messages, Received, Asked, Replied, MethodOf, MessageId, ParamsOf;
    Heard();
    AskedFields("mining.authorize", [Text("w"), Text("p")]);
    Names();
  }

  lemma IsAuthorized()
    ensures Next(Library(), Waiting(Reserved(), Authorize), UpstreamFrame("T", 1)).session == Reserved().(authorized := true)
  {
    hide Library, Messages, Received, Asked, Replied, MethodOf, MessageId, Field;
    Heard();
    RepliedFields(Bool(true));
    assert map[ID := Authorize] - {ID} == map[];
  }

  lemma GetsDifficulty()
    ensures
      Next(Library(), Reserved().(authorized := true), UpstreamFrame("d", 1)).session
        == Reserved().(authorized := true, target := Some(1))
  {
    hide Messages, Received, Asked, Replied, MethodOf, ParamsOf;
    Heard();
    AskedFields("mining.set_difficulty", [Null]);
  }

  lemma GetsJob()
    ensures Next(Library(), Reserved().(authorized := true, target := Some(1)), UpstreamFrame("n", 1)).session == Ready()
  {
    hide Library, Messages, Received, Asked, Replied, MethodOf, ParamsOf;
    Heard();
    AskedFields("mining.notify", NOTIFY);
    Names();
    assert TextsOf([]) == Some([]);
  }

  lemma SubmitIsPrepared(s: Session)
    requires s == Ready() || s == Held()
    ensures
      PreparedSubmit(Library(), s, "u", Asked("mining.submit", SUBMIT), 1000)
        == Ok(Forwarded("u", Some(Submit(SUBMISSION))))
  {
    hide Asked;
    AskedFields("mining.submit", SUBMIT);
    SubmitParams();
  }

  lemma SubmitParams()
    ensures |SUBMIT| == 5 && TextAt(SUBMIT, 0) == Some("w") && TextAt(SUBMIT, 1) == Some("j")
    ensures TextAt(SUBMIT, 2) == Some("00") && TextAt(SUBMIT, 3) == Some("") && TextAt(SUBMIT, 4) == Some("")
  {
  }

  /** The submit is the same whether or not a response is held. */
  lemma Submits(s: Session)
    requires s == Ready() || s == Held()
    ensures Next(Library(), s, WorkerFrame("u", 1000)).session == Waiting(s, Submit(SUBMISSION))
    ensures Registers(Library(), s, WorkerFrame("u", 1000), ID)
  {
    hide Library, Messages, Received, Asked, Replied, MethodOf, MessageId, PreparedSubmit;
    Heard();
    AskedFields("mining.submit", SUBMIT);
    SubmitIsPrepared(s);
    Names();
  }

  lemma IsAccepted(s: Session)
    requires s == Ready() || s == Held()
    ensures Next(Library(), Waiting(s, Submit(SUBMISSION)), UpstreamFrame("T", 1)).session == Held()
    ensures
      var c := UpstreamFrame("T", 1);
      s == Held() ==> AcceptsOverHeld(Library(), Waiting(s, Submit(SUBMISSION)), c, ID)
  {
    hide Library, Messages, Received, Asked, Replied, MethodOf, MessageId, Field, EventFor;
    Heard();
    EventBuilds();
    RepliedFields(Bool(true));
    assert map[ID := Submit(SUBMISSION)] - {ID} == map[];
  }

  // ---------------------------------------------------------------- the run

  const CALLS: seq<Call> := [
    WorkerFrame("s", 1000), UpstreamFrame("S", 1), ExtranonceReserved(ID),
    WorkerFrame("a", 1000), UpstreamFrame("T", 1), UpstreamFrame("d", 1), UpstreamFrame("n", 1),
    WorkerFrame("u", 1000), UpstreamFrame("T", 1), WorkerFrame("u", 1000), UpstreamFrame("T", 1)]

  function Reuse(): Run {
    Run(Library(), Fresh0(), CALLS)
  }

  lemma States()
    ensures |CALLS| == 11 && Reuse().At(9) == Held() && Reuse().At(10) == Waiting(Held(), Submit(SUBMISSION))
  {
    hide Next, Fresh0, Waiting, Offered, Reserved, Ready, Held;
    var r := Reuse();
    Subscribes();
    assert r.At(1) == Waiting(Fresh0(), Subscribe);
    IsOffered();
    assert r.At(2) == Offered();
    IsReserved();
    assert r.At(3) == Reserved();
    AsksToAuthorize();
    assert r.At(4) == Waiting(Reserved(), Authorize);
    IsAuthorized();
    assert r.At(5) == Reserved().(authorized := true);
    GetsDifficulty();
    GetsJob();
    assert r.At(7) == Ready();
    Submits(Ready());
    assert r.At(8) == Waiting(Ready(), Submit(SUBMISSION));
    IsAccepted(Ready());
    assert r.At(9) == Held();
    Submits(Held());
  }

  /** In this run the worker reuses a held identity, and of two responses to record one is lost. */
  lemma ReuseHappens()
    ensures Reuse().Fresh() && |CALLS| == 11
    ensures ReusesHeld(Library(), Reuse().At(9), CALLS[9], ID) && AcceptsOverHeld(Library(), Reuse().At(10), CALLS[10], ID)
    ensures
      var held := if ID in Reuse().At(11).awaitingPersistence then 1 else 0;
      ReleaseCount(Reuse(), 11, ID) + held < PersistCount(Reuse(), 11, ID)
  {
    hide Next, Registers, AcceptsOverHeld, ReleaseCount, PersistCount;
    States();
    Submits(Held());
    IsAccepted(Held());
    ReuseLosesResponse(Reuse(), 10, 11, ID);
  }
}

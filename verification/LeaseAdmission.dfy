/**
  Lease admission: a replay high-water mark per signing key, planned without effects and committed
  by compare-and-swap.  Sequences are persisted as decimal texts, as the original keeps them.
 */
module LeaseAdmission {
  import opened Wrappers
  import opened Limits
  import opened Work

  const CONTEXT_MILLISECONDS: nat := 60000
  const MAX_SEQUENCE: nat := MAX_U64

  datatype Context = Context(binding: string, establishedAt: int, active: Option<string>)

  datatype State = State(context: Option<Context>, highWater: map<string, string>)

  datatype Operation = Start | Renew

  datatype Input = Input(
    operation: Operation, leaseId: string, binding: string, now: int, keyId: string, sequence: int)

  datatype Plan = Plan(
    next: State, keyId: string, sequence: string,
    prior: string, binding: string, establishedAt: int, active: Option<string>)

  datatype AdmissionError = ContextExpired | ContextInvalid | MonotonicInvalid | Replay | StateInvalid

  // ---------------------------------------------------------------- validation

  predicate ValidKeyId(text: string) {
    1 <= |text| <= 32 && UrlSafe(text)
  }

  predicate ValidLeaseId(text: string) {
    1 <= |text| <= 128 && UrlSafe(text)
  }

  predicate ValidDigest(text: string) {
    |text| == 43 && UrlSafe(text)
  }

  predicate ValidMonotonic(n: int) {
    0 <= n <= MAX_SAFE_INTEGER
  }

  /** "0", or at most twenty digits with no leading zero, up to the largest sequence. */
  predicate ValidPersistedSequence(text: string) {
    && (text == "0" || (CanonicalDecimal(text) && |text| <= 20))
    && DecimalValue(text) <= MAX_SEQUENCE
  }

  predicate ValidHighWater(highWater: map<string, string>) {
    forall k :: k in highWater ==> ValidKeyId(k) && ValidPersistedSequence(highWater[k])
  }

  predicate ValidContext(c: Context) {
    && ValidDigest(c.binding)
    && ValidMonotonic(c.establishedAt)
    && (c.active.Some? ==> ValidLeaseId(c.active.value))
  }

  predicate ValidState(s: State) {
    ValidHighWater(s.highWater) && (s.context.Some? ==> ValidContext(s.context.value))
  }

  predicate ValidInput(i: Input) {
    && ValidLeaseId(i.leaseId)
    && ValidDigest(i.binding)
    && ValidMonotonic(i.now)
    && ValidKeyId(i.keyId)
    && 1 <= i.sequence <= MAX_SEQUENCE
  }

  // ---------------------------------------------------------------- planning

  /** The persisted text for a key; a key never seen reads as zero. */
  function Persisted(highWater: map<string, string>, keyId: string): string {
    if keyId in highWater then highWater[keyId] else "0"
  }

  /** The high-water mark of a key. */
  function Mark(s: State, keyId: string): nat
    requires ValidHighWater(s.highWater)
  {
    DecimalValue(Persisted(s.highWater, keyId))
  }

  function Planned(s: State, i: Input): Result<Plan, AdmissionError> {
    if !ValidState(s) then Err(StateInvalid)
    else if !ValidInput(i) then Err(ContextInvalid)
    else if s.context.None? || s.context.value.binding != i.binding then Err(ContextInvalid)
    else
      var c := s.context.value;
      if i.now < c.establishedAt then Err(MonotonicInvalid)
      else if i.operation == Start && i.now - c.establishedAt >= CONTEXT_MILLISECONDS then Err(ContextExpired)
      else if (i.operation == Start && c.active.Some?) || (i.operation == Renew && c.active != Some(i.leaseId)) then
        Err(ContextInvalid)
      else if i.sequence <= Mark(s, i.keyId) then Err(Replay)
      else
        var text := Decimal(i.sequence);
        Ok(Plan(
          State(
            Some(if i.operation == Start then c.(active := Some(i.leaseId)) else c),
            s.highWater[i.keyId := text]),
          i.keyId, text, Decimal(Mark(s, i.keyId)), c.binding, c.establishedAt, c.active))
  }

  function Invalidated(s: State): Result<State, AdmissionError> {
    if ValidState(s) then Ok(State(None, s.highWater)) else Err(StateInvalid)
  }

  /** Copies the record entry by entry, then sets the extra entry. */
  method CopyHighWater(source: map<string, string>, entry: Option<(string, string)>)
    returns (result: map<string, string>)
    ensures result == if entry.Some? then source[entry.value.0 := entry.value.1] else source
  {
    result := map[];
    var remaining := source.Keys;
    while remaining != {}
      invariant remaining <= source.Keys && result.Keys == source.Keys - remaining
      invariant forall k :: k in result ==> result[k] == source[k]
      decreases remaining
    {
      var keyId :| keyId in remaining;
      result := result[keyId := source[keyId]];
      remaining := remaining - {keyId};
    }
    assert result == source;
    if entry.Some? {
      result := result[entry.value.0 := entry.value.1];
    }
  }

  /** Checks the stored record entry by entry; an accepted state is returned as it was. */
  method ParseAdmissionState(s: State) returns (r: Result<State, AdmissionError>)
    ensures r == if ValidState(s) then Ok(s) else Err(StateInvalid)
  {
    var highWater: map<string, string> := map[];
    var remaining := s.highWater.Keys;
    while remaining != {}
      invariant remaining <= s.highWater.Keys && highWater.Keys == s.highWater.Keys - remaining
      invariant forall k :: k in highWater ==> highWater[k] == s.highWater[k]
      invariant ValidHighWater(highWater)
      decreases remaining
    {
      var keyId :| keyId in remaining;
      if !ValidKeyId(keyId) || !ValidPersistedSequence(s.highWater[keyId]) {
        return Err(StateInvalid);
      }
      highWater := highWater[keyId := s.highWater[keyId]];
      remaining := remaining - {keyId};
    }
    assert highWater == s.highWater;
    if s.context.None? {
      return Ok(State(None, highWater));
    }
    if !ValidContext(s.context.value) {
      return Err(StateInvalid);
    }
    r := Ok(State(s.context, highWater));
  }

  method PlanWorkerLeaseAdmission(state: State, i: Input) returns (r: Result<Plan, AdmissionError>)
    ensures r == Planned(state, i)
  {
    var admitted := ParseAdmissionState(state);
    if admitted.Err? {
      return Err(StateInvalid);
    }
    var s := admitted.value;
    if !ValidInput(i) || s.context.None? || s.context.value.binding != i.binding {
      return Err(ContextInvalid);
    }
    var c := s.context.value;
    if i.now < c.establishedAt {
      return Err(MonotonicInvalid);
    }
    if i.operation == Start && i.now - c.establishedAt >= CONTEXT_MILLISECONDS {
      return Err(ContextExpired);
    }
    if (i.operation == Start && c.active.Some?) || (i.operation == Renew && c.active != Some(i.leaseId)) {
      return Err(ContextInvalid);
    }
    var current := DecimalValue(Persisted(s.highWater, i.keyId));
    if i.sequence <= current {
      return Err(Replay);
    }
    var text := Decimal(i.sequence);
    var highWater := CopyHighWater(s.highWater, Some((i.keyId, text)));
    r := Ok(Plan(
      State(Some(if i.operation == Start then c.(active := Some(i.leaseId)) else c), highWater),
      i.keyId, text, Decimal(current), c.binding, c.establishedAt, c.active));
  }

  method InvalidateWorkerLeaseAdmissionContext(state: State) returns (r: Result<State, AdmissionError>)
    ensures r == Invalidated(state)
  {
    var admitted := ParseAdmissionState(state);
    if admitted.Err? {
      return admitted;
    }
    var highWater := CopyHighWater(admitted.value.highWater, None);
    r := Ok(State(None, highWater));
  }

  // ---------------------------------------------------------------- committing

  datatype Persistence = Committed | Stale | AlreadyCommitted

  /** Compares the plan's expected fields with the stored state. */
  function Compared(s: State, p: Plan): Persistence {
    var current := Persisted(s.highWater, p.keyId);
    if current == p.sequence then AlreadyCommitted
    else if current != p.prior || s.context.None? || s.context.value != Context(p.binding, p.establishedAt, p.active)
    then Stale
    else Committed
  }

  function Swapped(s: State, p: Plan): State {
    if Compared(s, p) == Committed then p.next else s
  }

  /** A device that persists by compare-and-swap and then performs the lease effect. */
  class AdmissionDevice {
    var durable: State
    var effects: seq<Plan>

    constructor (state: State)
      ensures durable == state && effects == []
    {
      durable, effects := state, [];
    }

    method Persist(plan: Plan) returns (r: Persistence)
      modifies this`durable
      ensures r == Compared(old(durable), plan) && durable == Swapped(old(durable), plan)
    {
      r := Compared(durable, plan);
      if r == Committed {
        durable := plan.next;
      }
    }

    /** The effect runs only when the state already holds the plan's outcome. */
    method CommitWorkerLeaseAdmission(plan: Plan) returns (r: Result<(), AdmissionError>)
      modifies this
      ensures durable == Swapped(old(durable), plan)
      ensures r.Ok? <==> Compared(old(durable), plan) == Committed
      ensures r.Ok? ==> durable == plan.next && effects == old(effects) + [plan]
      ensures r.Err? ==> r.error == Replay && durable == old(durable) && effects == old(effects)
    {
      var result := Persist(plan);
      if result != Committed {
        return Err(Replay);
      }
      effects := effects + [plan];
      r := Ok(());
    }
  }

  // ---------------------------------------------------------------- one plan

  lemma PersistedRoundTrip(text: string)
    requires ValidPersistedSequence(text)
    ensures Decimal(DecimalValue(text)) == text
  {
    if text == "0" {
      ZeroText();
    } else {
      ParseThenPrint(text);
    }
  }

  lemma ZeroText()
    ensures DecimalValue("0") == 0 && ValidPersistedSequence("0")
  {
    assert DigitsOfText("0") == [0];
  }
}

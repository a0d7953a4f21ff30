/**
  Runs of lease admission: plans made from any earlier state, compare-and-swap commits whose answer
  may be lost, effects that run later, contexts cleared and established anew.
 */
module LeaseAdmissionRuns {
  import opened Wrappers
  import opened Limits
  import opened Work
  import opened LeaseAdmission
  import opened Nonlinear
  import opened Digits

  type HighWater = map<string, string>

  /** A plan, how many admissions had been committed when it was made, the stored state it was made
      from and the request it was made for. */
  datatype Made = Made(plan: Plan, at: nat, from: State, input: Input)

  /** A committed plan, and the stored state it was committed in. */
  datatype Commit = Commit(made: Made, before: State)

  /**
    history[n] is the stored record after n admissions; ready holds the committed plans whose effect
    has not run yet.
   */
  datatype System = System(
    durable: State, history: seq<HighWater>, plans: seq<Made>,
    accepted: seq<Plan>, ready: seq<Plan>, effects: seq<Plan>, commits: seq<Commit>)

  datatype Step =
    | Ask(input: Input)
    | Persist(i: nat, answered: bool)
    | Effect(j: nat)
    | Invalidate
    | Establish(context: Context)

  function Initially(s: State): System {
    System(s, [s.highWater], [], [], [], [], [])
  }

  /** The step commits a plan. */
  predicate Commits(s: System, step: Step) {
    step.Persist? && step.i < |s.plans| && Compared(s.durable, s.plans[step.i].plan) == Committed
  }

  function Next(s: System, step: Step): System {
    match step
    case Ask(input) =>
      var r := Planned(s.durable, input);
      if r.Ok? then s.(plans := s.plans + [Made(r.value, |s.accepted|, s.durable, input)]) else s
    case Persist(i, answered) =>
      if Commits(s, step) then
        var p := s.plans[i].plan;
        s.(
          durable := p.next,
          history := s.history + [p.next.highWater],
          accepted := s.accepted + [p],
          commits := s.commits + [Commit(s.plans[i], s.durable)],
          ready := if answered then s.ready + [p] else s.ready)
      else s
    case Effect(j) =>
      if j < |s.ready| then
        s.(ready := s.ready[..j] + s.ready[j + 1..], effects := s.effects + [s.ready[j]])
      else s
    case Invalidate =>
      var r := Invalidated(s.durable);
      if r.Ok? then s.(durable := r.value) else s
    case Establish(context) =>
      if ValidContext(context) && context.active.None? then s.(durable := s.durable.(context := Some(context)))
      else s
  }

  function Run(s: System, steps: seq<Step>): System {
    if steps == [] then s else Next(Run(s, steps[..|steps| - 1]), steps[|steps| - 1])
  }

  /** Every commit of the run is of a plan made after the latest admission. */
  predicate Current(s: System, steps: seq<Step>) {
    steps == [] ||
    var before, step := Run(s, steps[..|steps| - 1]), steps[|steps| - 1];
    && Current(s, steps[..|steps| - 1])
    && (Commits(before, step) ==> before.plans[step.i].at == |before.accepted|)
  }

  // ---------------------------------------------------------------- the invariant

  function MarkIn(h: HighWater, keyId: string): nat
    requires ValidHighWater(h)
  {
    DecimalValue(Persisted(h, keyId))
  }

  /** The plan admits a higher sequence for its key and changes no other entry. */
  ghost predicate Advances(h: HighWater, p: Plan, h': HighWater) {
    && ValidHighWater(h) && ValidHighWater(h')
    && h' == h[p.keyId := p.sequence]
    && MarkIn(h, p.keyId) < MarkIn(h', p.keyId)
  }

  ghost predicate MadeFrom(h: HighWater, p: Plan) {
    && ValidState(p.next)
    && Advances(h, p, p.next.highWater)
    && p.prior == Persisted(h, p.keyId)
  }

  /** What every run keeps. */
  ghost predicate Sound(s: System) {
    && ValidState(s.durable)
    && |s.history| == |s.accepted| + 1
    && s.history[|s.accepted|] == s.durable.highWater
    && (forall i :: 0 <= i < |s.plans| ==>
          s.plans[i].at <= |s.accepted| && MadeFrom(s.history[s.plans[i].at], s.plans[i].plan))
    && multiset(s.effects) + multiset(s.ready) <= multiset(s.accepted)
  }

  /** What runs of current commits keep besides. */
  ghost predicate Rising(s: System) {
    && Sound(s)
    && forall n :: 0 <= n < |s.accepted| ==> Advances(s.history[n], s.accepted[n], s.history[n + 1])
  }

  lemma PlannedIsMadeFrom(s: State, i: Input)
    requires Planned(s, i).Ok?
    ensures MadeFrom(s.highWater, Planned(s, i).value)
  {
    hide Decimal, DecimalValue, ValidPersistedSequence, UrlSafe;
    var text := Decimal(i.sequence);
    SequenceText(i.sequence);
    ZeroText();
    PersistedRoundTrip(Persisted(s.highWater, i.keyId));
  }

  lemma SequenceText(n: int)
    requires 1 <= n <= MAX_SEQUENCE
    ensures ValidPersistedSequence(Decimal(n)) && DecimalValue(Decimal(n)) == n
  {
    PrintThenParse(n);
    AtMostTwentyDigits(Decimal(n));
  }

  lemma AtMostTwentyDigits(text: string)
    requires CanonicalDecimal(text) && DecimalValue(text) <= MAX_SEQUENCE
    ensures |text| <= 20
  {
    hide Power, Numeral;
    if |text| > 20 {
      var s := DigitsOfText(text);
      assert s[0] != 0;
      LeadingDigitWeight(s, 10);
      PowerAdd(10, |text| - 21, 20);
      TenToTwenty();
      MulMono(1, Power(10, |text| - 21), Power(10, 20));
    }
  }

  lemma TenToTwenty()
    ensures Power(10, 20) > MAX_SEQUENCE
  {
    PowerAdd(10, 10, 10);
    assert Power(10, 10) == 1_00000_00000;
  }

  lemma NextIsSound(s: System, step: Step)
    requires Sound(s)
    ensures Sound(Next(s, step))
  {
    hide Planned, ValidState, MadeFrom, Compared, Invalidated;
    match step
    case Ask(input) =>
      if Planned(s.durable, input).Ok? {
        PlannedIsMadeFrom(s.durable, input);
      }
    case Persist(i, answered) =>
      if Commits(s, step) {
        MadeIsValid(s.history[s.plans[i].at], s.plans[i].plan);
      }
    case Effect(j) =>
      if j < |s.ready| {
        assert s.ready == s.ready[..j] + [s.ready[j]] + s.ready[j + 1..];
      }
    case Invalidate => InvalidatedIsValid(s.durable);
    case Establish(context) => EstablishedIsValid(s.durable, context);
  }

  lemma InvalidatedIsValid(s: State)
    requires ValidState(s)
    ensures Invalidated(s).Ok? && ValidState(Invalidated(s).value) && Invalidated(s).value.highWater == s.highWater
  {
    hide ValidHighWater;
  }

  lemma EstablishedIsValid(s: State, context: Context)
    requires ValidState(s)
    ensures ValidContext(context) ==> ValidState(s.(context := Some(context)))
  {
    hide ValidHighWater;
  }

  lemma MadeIsValid(h: HighWater, p: Plan)
    requires MadeFrom(h, p)
    ensures ValidState(p.next)
  {
  }

  // ---------------------------------------------------------------- what an admission needs

  /** The request may be admitted in this state: its context is the established one, a start comes
      within a minute of it and finds no lease, a renewal names the active lease, and the sequence is
      new. */
  ghost predicate Admissible(s: State, i: Input) {
    && ValidState(s) && ValidInput(i) && s.context.Some?
    && var c := s.context.value;
       && c.binding == i.binding
       && c.establishedAt <= i.now
       && (i.operation == Start ==> i.now < c.establishedAt + 60000 && c.active == None)
       && (i.operation == Renew ==> c.active == Some(i.leaseId))
       && i.sequence > Mark(s, i.keyId)
  }

  /** The plan admits exactly this request from this state: one entry is set to its sequence, a start
      makes its lease the active one, and the plan expects the context and the mark it was made from. */
  ghost predicate Admits(s: State, i: Input, p: Plan) {
    && s.context.Some? && i.sequence >= 1
    && var c := s.context.value;
       && p.keyId == i.keyId && p.sequence == Decimal(i.sequence)
       && p.next.highWater == s.highWater[i.keyId := Decimal(i.sequence)]
       && p.next.context == Some(if i.operation == Start then Context(c.binding, c.establishedAt, Some(i.leaseId)) else c)
       && p.prior == Persisted(s.highWater, i.keyId)
       && Context(p.binding, p.establishedAt, p.active) == c
  }

  /** A request is planned exactly when it is admissible, and the plan admits it. */
  lemma PlannedExactly(s: State, i: Input)
    ensures Planned(s, i).Ok? <==> Admissible(s, i)
    ensures Planned(s, i).Ok? ==> Admits(s, i, Planned(s, i).value)
  {
    hide Decimal, DecimalValue, ValidPersistedSequence, UrlSafe;
    if ValidState(s) {
      ZeroText();
      PersistedRoundTrip(Persisted(s.highWater, i.keyId));
    }
  }

  /** Which refusal a request gets that names the established context. */
  lemma RefusedExactly(s: State, i: Input)
    requires ValidState(s) && ValidInput(i) && s.context.Some? && s.context.value.binding == i.binding
    ensures
      var c := s.context.value;
      var late := i.operation == Start && i.now >= c.establishedAt + 60000;
      var fits := if i.operation == Start then c.active == None else c.active == Some(i.leaseId);
      && (Planned(s, i) == Err(MonotonicInvalid) <==> i.now < c.establishedAt)
      && (Planned(s, i) == Err(ContextExpired) <==> late)
      && (Planned(s, i) == Err(ContextInvalid) <==> c.establishedAt <= i.now && !late && !fits)
      && (Planned(s, i) == Err(Replay) <==>
            c.establishedAt <= i.now && !late && fits && i.sequence <= Mark(s, i.keyId))
  {
    hide Decimal, DecimalValue, ValidPersistedSequence, UrlSafe;
  }

  /** A persisted sequence is valid exactly when it is the decimal text of a 64-bit number. */
  lemma PersistedSequenceExactly(text: string)
    ensures ValidPersistedSequence(text) <==> exists n: nat :: n <= MAX_SEQUENCE && text == Decimal(n)
  {
    hide DecimalValue;
    if ValidPersistedSequence(text) {
      PersistedRoundTrip(text);
      assert text == Decimal(DecimalValue(text));
    }
    if n: nat :| n <= MAX_SEQUENCE && text == Decimal(n) {
      if n == 0 {
        ZeroText();
      } else {
        SequenceText(n);
      }
    }
  }

  /** A plan committed already is known as such. */
  lemma RepeatIsAlreadyCommitted(s: State, i: Input)
    requires Planned(s, i).Ok?
    ensures Compared(Planned(s, i).value.next, Planned(s, i).value) == AlreadyCommitted
    ensures Compared(s, Planned(s, i).value) == Committed
  {
    hide Decimal, DecimalValue, ValidPersistedSequence, UrlSafe;
    PlannedExactly(s, i);
    PlannedIsMadeFrom(s, i);
  }

  /** Invalidation keeps every mark and drops the context: until a new one is established nothing is
      planned and nothing commits. */
  lemma InvalidatedAdmitsNothing(s: State, i: Input, p: Plan)
    requires ValidState(s)
    ensures
      var r := Invalidated(s);
      && r.Ok? && ValidState(r.value) && r.value.highWater == s.highWater
      && Planned(r.value, i) == Err(ContextInvalid)
      && Compared(r.value, p) != Committed
  {
    hide ValidHighWater, Persisted, Decimal;
  }

  ghost predicate Justified(c: Commit) {
    && Admissible(c.made.from, c.made.input)
    && Admits(c.made.from, c.made.input, c.made.plan)
    && c.before.context == c.made.from.context
    && Persisted(c.before.highWater, c.made.plan.keyId) == c.made.plan.prior
  }

  /** Every plan was made for an admissible request, and every commit found the context and the mark of
      its plan. */
  ghost predicate AllJustified(s: System) {
    && (forall i :: 0 <= i < |s.plans| ==>
          Admissible(s.plans[i].from, s.plans[i].input) && Admits(s.plans[i].from, s.plans[i].input, s.plans[i].plan))
    && |s.commits| == |s.accepted|
    && (forall n :: 0 <= n < |s.commits| ==> s.commits[n].made.plan == s.accepted[n] && Justified(s.commits[n]))
  }

  lemma NextIsJustified(s: System, step: Step)
    requires AllJustified(s)
    ensures AllJustified(Next(s, step))
  {
    hide Admissible, Planned, Decimal, Invalidated, Persisted;
    if step.Ask? {
      PlannedExactly(s.durable, step.input);
    } else if Commits(s, step) {
      CommitIsJustified(s.durable, s.plans[step.i]);
    }
  }

  lemma CommitIsJustified(s: State, made: Made)
    requires Admissible(made.from, made.input) && Admits(made.from, made.input, made.plan)
    requires Compared(s, made.plan) == Committed
    ensures Justified(Commit(made, s))
  {
    hide Admissible, Decimal, Persisted;
  }

  /**
    In every run, however plans and commits interleave: each admitted start was asked within a minute
    of the establishment of its own context, which had no active lease, and made its lease active; each
    admitted renewal named the lease active in its context; and the context and the mark were still
    those at the commit.
   */
  lemma {:induction false} EveryAdmissionIsJustified(s: State, steps: seq<Step>)
    ensures AllJustified(Run(Initially(s), steps))
  {
    hide Next, AllJustified;
    if steps == [] {
      NothingAdmitted(s);
    } else {
      EveryAdmissionIsJustified(s, steps[..|steps| - 1]);
      NextIsJustified(Run(Initially(s), steps[..|steps| - 1]), steps[|steps| - 1]);
    }
  }

  lemma NothingAdmitted(s: State)
    ensures AllJustified(Initially(s))
  {
  }

  // ---------------------------------------------------------------- marks along the history

  lemma {:induction false} MarksRise(s: System, m: nat, n: nat, keyId: string)
    requires Rising(s) && m <= n <= |s.accepted|
    ensures ValidHighWater(s.history[m]) && ValidHighWater(s.history[n])
    ensures MarkIn(s.history[m], keyId) <= MarkIn(s.history[n], keyId)
    decreases n - m
  {
    hide ValidHighWater, MadeFrom, DecimalValue;
    if m < n {
      assert Advances(s.history[m], s.accepted[m], s.history[m + 1]);
      MarksRise(s, m + 1, n, keyId);
    } else if m < |s.accepted| {
      assert Advances(s.history[m], s.accepted[m], s.history[m + 1]);
    }
  }

  /** Admissions for one key carry strictly increasing sequences. */
  lemma AdmissionsIncrease(s: System, m: nat, n: nat)
    requires Rising(s) && m < n < |s.accepted| && s.accepted[m].keyId == s.accepted[n].keyId
    ensures
      var p, q := s.accepted[m], s.accepted[n];
      && ValidPersistedSequence(p.sequence) && ValidPersistedSequence(q.sequence)
      && DecimalValue(p.sequence) < DecimalValue(q.sequence)
  {
    hide ValidPersistedSequence, MadeFrom, DecimalValue;
    assert Advances(s.history[m], s.accepted[m], s.history[m + 1]);
    assert Advances(s.history[n], s.accepted[n], s.history[n + 1]);
    MarksRise(s, m + 1, n, s.accepted[m].keyId);
  }

  /** Once a plan's key has been admitted since it was made, the comparison refuses it. */
  lemma SupersededIsRefused(s: System, i: nat, n: nat)
    requires Rising(s) && i < |s.plans| && s.plans[i].at <= n < |s.accepted|
    requires s.accepted[n].keyId == s.plans[i].plan.keyId
    ensures Compared(s.durable, s.plans[i].plan) != Committed
  {
    hide ValidPersistedSequence, DecimalValue, ValidHighWater;
    var p, m := s.plans[i].plan, s.plans[i].at;
    assert MadeFrom(s.history[m], p);
    assert Advances(s.history[n], s.accepted[n], s.history[n + 1]);
    MarksRise(s, m, n, p.keyId);
    MarksRise(s, n + 1, |s.accepted|, p.keyId);
  }

  /** Of two plans for one key made from one state, once either is committed neither passes, in any
      run and however late the commit. */
  lemma AtMostOneOfTwo(s: System, step: Step, j: nat)
    requires Sound(s) && Commits(s, step)
    requires j < |s.plans| && s.plans[j].at == s.plans[step.i].at
    requires s.plans[j].plan.keyId == s.plans[step.i].plan.keyId
    ensures Compared(Next(s, step).durable, s.plans[j].plan) != Committed
  {
    hide ValidPersistedSequence, DecimalValue, ValidHighWater;
    var p, h := s.plans[step.i].plan, s.history[s.plans[step.i].at];
    assert MadeFrom(h, p) && MadeFrom(h, s.plans[j].plan);
    assert Persisted(p.next.highWater, p.keyId) != Persisted(h, p.keyId);
  }

  lemma CurrentStepKeepsRising(s: System, step: Step)
    requires Rising(s) && (Commits(s, step) ==> s.plans[step.i].at == |s.accepted|)
    ensures Rising(Next(s, step))
  {
    hide Planned, ValidHighWater, Compared, Advances, Invalidated;
    NextIsSound(s, step);
    var t := Next(s, step);
    if Commits(s, step) {
      var p := s.plans[step.i].plan;
      assert MadeFrom(s.history[|s.accepted|], p);
      forall n | 0 <= n < |t.accepted| ensures Advances(t.history[n], t.accepted[n], t.history[n + 1]) {
        if n < |s.accepted| {
          assert Advances(s.history[n], s.accepted[n], s.history[n + 1]);
        }
      }
    } else {
      assert t.accepted == s.accepted && t.history == s.history;
    }
  }

  // ---------------------------------------------------------------- whole runs

  lemma InitiallyRising(s: State)
    requires ValidState(s)
    ensures Rising(Initially(s))
  {
  }

  lemma {:induction false} RunIsSound(s: System, steps: seq<Step>)
    requires Sound(s)
    ensures Sound(Run(s, steps))
  {
    if steps != [] {
      RunIsSound(s, steps[..|steps| - 1]);
      NextIsSound(Run(s, steps[..|steps| - 1]), steps[|steps| - 1]);
    }
  }

  lemma {:induction false} RunIsRising(s: System, steps: seq<Step>)
    requires Rising(s) && Current(s, steps)
    ensures Rising(Run(s, steps))
  {
    hide Rising, Commits, Next;
    if steps != [] {
      RunIsRising(s, steps[..|steps| - 1]);
      CurrentStepKeepsRising(Run(s, steps[..|steps| - 1]), steps[|steps| - 1]);
    }
  }

  lemma StepRaisesMarks(s: System, step: Step, keyId: string)
    requires Rising(s) && (Commits(s, step) ==> s.plans[step.i].at == |s.accepted|)
    ensures ValidHighWater(s.durable.highWater) && ValidHighWater(Next(s, step).durable.highWater)
    ensures Mark(s.durable, keyId) <= Mark(Next(s, step).durable, keyId)
  {
    hide Planned, ValidHighWater, Compared, DecimalValue;
    CurrentStepKeepsRising(s, step);
    var t := Next(s, step);
    if Commits(s, step) {
      MarksRise(t, |s.accepted|, |t.accepted|, keyId);
    } else {
      assert t.durable.highWater == s.durable.highWater;
    }
  }

  /** Along a run of current commits no key's mark ever falls. */
  lemma {:induction false} MarksOnlyRise(s: State, steps: seq<Step>, k: nat, keyId: string)
    requires ValidState(s) && Current(Initially(s), steps) && k <= |steps|
    ensures
      var early, late := Run(Initially(s), steps[..k]).durable, Run(Initially(s), steps).durable;
      ValidState(early) && ValidState(late) && Mark(early, keyId) <= Mark(late, keyId)
  {
    hide Next, Commits, ValidHighWater, DecimalValue;
    InitiallyRising(s);
    RunIsRising(Initially(s), steps);
    if k == |steps| {
      assert steps[..k] == steps;
    } else {
      var front := steps[..|steps| - 1];
      assert front[..k] == steps[..k];
      MarksOnlyRise(s, front, k, keyId);
      RunIsRising(Initially(s), front);
      StepRaisesMarks(Run(Initially(s), front), steps[|steps| - 1], keyId);
    }
  }

  /** Along a run of current commits no key and sequence pair is admitted twice. */
  lemma NoPairTwice(s: State, steps: seq<Step>, m: nat, n: nat)
    requires ValidState(s) && Current(Initially(s), steps)
    requires m < n < |Run(Initially(s), steps).accepted|
    ensures
      var accepted := Run(Initially(s), steps).accepted;
      accepted[m].keyId != accepted[n].keyId || accepted[m].sequence != accepted[n].sequence
  {
    InitiallyRising(s);
    RunIsRising(Initially(s), steps);
    var t := Run(Initially(s), steps);
    if t.accepted[m].keyId == t.accepted[n].keyId {
      AdmissionsIncrease(t, m, n);
    }
  }

  /** An admitted pair is refused from then on, whatever the request around it. */
  lemma AdmittedPairIsRefused(s: State, steps: seq<Step>, n: nat, input: Input)
    requires ValidState(s) && Current(Initially(s), steps)
    requires
      var t := Run(Initially(s), steps);
      && n < |t.accepted| && t.accepted[n].keyId == input.keyId
      && ValidInput(input) && t.accepted[n].sequence == Decimal(input.sequence)
    ensures Planned(Run(Initially(s), steps).durable, input).Err?
  {
    hide Decimal, DecimalValue, Run, Current, ValidPersistedSequence;
    InitiallyRising(s);
    RunIsRising(Initially(s), steps);
    var t := Run(Initially(s), steps);
    assert Advances(t.history[n], t.accepted[n], t.history[n + 1]);
    MarksRise(t, n + 1, |t.accepted|, input.keyId);
    SequenceText(input.sequence);
  }

  /** In every run, whatever is committed, an effect belongs to a plan committed before it. */
  lemma EffectsFollowCommits(s: State, steps: seq<Step>)
    requires ValidState(s)
    ensures
      var t := Run(Initially(s), steps);
      multiset(t.effects) + multiset(t.ready) <= multiset(t.accepted)
  {
    InitiallyRising(s);
    RunIsSound(Initially(s), steps);
  }

  // ---------------------------------------------------------------- when a commit keeps every mark

  /**
    The comparison looks at one key, the swap replaces the whole record.  A commit that passes the
    comparison keeps every mark exactly when nothing has been admitted since its plan was made.
   */
  lemma CommitKeepsMarksExactly(s: State, steps: seq<Step>, step: Step)
    requires ValidState(s) && Current(Initially(s), steps) && Commits(Run(Initially(s), steps), step)
    ensures
      var before := Run(Initially(s), steps);
      var after := Next(before, step);
      && ValidState(before.durable) && ValidState(after.durable)
      && ((forall keyId :: Mark(before.durable, keyId) <= Mark(after.durable, keyId))
          <==> before.plans[step.i].at == |before.accepted|)
  {
    hide Run, Current, DecimalValue, ValidPersistedSequence, Compared;
    InitiallyRising(s);
    RunIsRising(Initially(s), steps);
    var before := Run(Initially(s), steps);
    var after := Next(before, step);
    NextIsSound(before, step);
    var made := before.plans[step.i];
    if made.at == |before.accepted| {
      forall keyId ensures Mark(before.durable, keyId) <= Mark(after.durable, keyId) {
        StepRaisesMarks(before, step, keyId);
      }
    } else {
      var other := before.accepted[made.at];
      if other.keyId == made.plan.keyId {
        SupersededIsRefused(before, step.i, made.at);
      }
      StaleCommitLowers(before, step);
    }
  }

  lemma StaleCommitLowers(s: System, step: Step)
    requires Rising(s) && Commits(s, step) && s.plans[step.i].at < |s.accepted|
    requires s.accepted[s.plans[step.i].at].keyId != s.plans[step.i].plan.keyId
    ensures ValidHighWater(s.durable.highWater) && ValidHighWater(Next(s, step).durable.highWater)
    ensures
      var keyId := s.accepted[s.plans[step.i].at].keyId;
      Mark(Next(s, step).durable, keyId) < Mark(s.durable, keyId)
  {
    hide DecimalValue, ValidPersistedSequence, Compared;
    var made := s.plans[step.i];
    var other := s.accepted[made.at];
    assert MadeFrom(s.history[made.at], made.plan);
    assert Advances(s.history[made.at], other, s.history[made.at + 1]);
    MarksRise(s, made.at + 1, |s.accepted|, other.keyId);
  }

  /**
    Two renewals for different keys planned from one state both pass; the second puts the first
    key's old mark back, and its sequence is admitted again.
   */
  lemma PairAdmittedTwice(s: State, a: Input, b: Input)
    requires ValidState(s) && ValidInput(a) && ValidInput(b)
    requires Planned(s, a).Ok? && Planned(s, b).Ok?
    requires a.keyId != b.keyId && a.operation == Renew && b.operation == Renew
    ensures
      var steps := [Ask(a), Ask(b), Persist(0, true), Persist(1, true), Ask(a), Persist(2, true)];
      var accepted := Run(Initially(s), steps).accepted;
      && |accepted| == 3
      && accepted[0].keyId == accepted[2].keyId == a.keyId
      && accepted[0].sequence == accepted[2].sequence == Decimal(a.sequence)
  {
    hide Planned, Compared, Persisted, Decimal;
    var p, q := Planned(s, a).value, Planned(s, b).value;
    RenewalChangesOneEntry(s, a);
    RenewalChangesOneEntry(s, b);
    OtherEntriesDoNotMatter(s, s, a);
    OtherEntriesDoNotMatter(s, p.next, b);
    OtherEntriesDoNotMatter(s, q.next, a);
    OtherEntriesDoNotMatter(q.next, q.next, a);
    var s0 := Initially(s);
    var s1 := Next(s0, Ask(a));
    var s2 := Next(s1, Ask(b));
    var s3 := Next(s2, Persist(0, true));
    var s4 := Next(s3, Persist(1, true));
    var s5 := Next(s4, Ask(a));
    SixSteps(s0, Ask(a), Ask(b), Persist(0, true), Persist(1, true), Ask(a), Persist(2, true));
  }

  const BINDING: string := seq(43, _ => 'A')

  /** A device with an active lease and no marks, and two renewals of it under different keys. */
  const ACTIVE: State := State(Some(Context(BINDING, 0, Some("l"))), map[])
  const RENEWAL_A: Input := Input(Renew, "l", BINDING, 0, "a", 1)
  const RENEWAL_B: Input := Input(Renew, "l", BINDING, 0, "b", 1)

  lemma RenewalsPlan()
    ensures ValidState(ACTIVE) && ValidInput(RENEWAL_A) && ValidInput(RENEWAL_B)
    ensures Planned(ACTIVE, RENEWAL_A).Ok? && Planned(ACTIVE, RENEWAL_B).Ok?
  {
    hide Decimal, DecimalValue, ValidPersistedSequence;
    ZeroText();
    assert |BINDING| == 43;
  }

  /** From that state, sequence one of the first key is admitted twice. */
  lemma PairAdmittedTwiceHappens()
    ensures
      var steps := [
        Ask(RENEWAL_A), Ask(RENEWAL_B), Persist(0, true), Persist(1, true), Ask(RENEWAL_A), Persist(2, true)];
      var accepted := Run(Initially(ACTIVE), steps).accepted;
      && |accepted| == 3
      && accepted[0].keyId == accepted[2].keyId == "a"
      && accepted[0].sequence == accepted[2].sequence == Decimal(1)
  {
    hide Decimal, Run, Planned, ValidInput, ValidState;
    RenewalsPlan();
    assert "a"[0] != "b"[0];
    PairAdmittedTwice(ACTIVE, RENEWAL_A, RENEWAL_B);
  }

  lemma SixSteps(s: System, a: Step, b: Step, c: Step, d: Step, e: Step, f: Step)
    ensures Run(s, [a, b, c, d, e, f]) == Next(Next(Next(Next(Next(Next(s, a), b), c), d), e), f)
  {
    hide Next, Run;
    NoSteps(s);
    LastStep(s, [], a);
    LastStep(s, [a], b);
    LastStep(s, [a, b], c);
    LastStep(s, [a, b, c], d);
    LastStep(s, [a, b, c, d], e);
    LastStep(s, [a, b, c, d, e], f);
    assert [] + [a] == [a];
    assert [a, b] == [a] + [b];
    assert [a, b, c] == [a, b] + [c];
    assert [a, b, c, d] == [a, b, c] + [d];
    assert [a, b, c, d, e] == [a, b, c, d] + [e];
    assert [a, b, c, d, e, f] == [a, b, c, d, e] + [f];
  }

  lemma NoSteps(s: System)
    ensures Run(s, []) == s
  {
  }

  lemma LastStep(s: System, steps: seq<Step>, step: Step)
    ensures Run(s, steps + [step]) == Next(Run(s, steps), step)
  {
    assert (steps + [step])[..|steps|] == steps;
  }

  lemma RenewalChangesOneEntry(s: State, i: Input)
    requires Planned(s, i).Ok? && i.operation == Renew
    ensures
      var next := Planned(s, i).value.next;
      && ValidState(next) && next.context == s.context
      && forall k :: k != i.keyId ==> Persisted(next.highWater, k) == Persisted(s.highWater, k)
  {
    PlannedIsMadeFrom(s, i);
  }

  /** Planning and comparing look at the context and at one key's entry. */
  lemma OtherEntriesDoNotMatter(s: State, t: State, i: Input)
    requires Planned(s, i).Ok? && ValidState(t) && t.context == s.context
    requires Persisted(t.highWater, i.keyId) == Persisted(s.highWater, i.keyId)
    ensures Compared(t, Planned(s, i).value) == Committed
    ensures Planned(t, i).Ok?
    ensures
      var p, q := Planned(s, i).value, Planned(t, i).value;
      p.keyId == q.keyId == i.keyId && p.sequence == q.sequence == Decimal(i.sequence)
  {
    hide Decimal, DecimalValue, ValidPersistedSequence, UrlSafe;
    PlannedIsMadeFrom(s, i);
  }
}

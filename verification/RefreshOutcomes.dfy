/**
 * What the callers of one refresh lock are told: which refreshes confirm a version, and which
 * failed ones are served from the last confirmation all the same.
 */
module RefreshOutcomes {
  import opened Wrappers
  import opened TrustRules
  import opened TrustDatabase
  import opened TrustStore
  import opened TrustProjection
  import opened ProjectionProtocol

  /** The refresh confirmed the version it saw. */
  predicate Confirms(a: Answer) {
    a.kind == "reused" || a.kind == "fresh"
  }

  /** Answer `j` is the last confirming one before answer `k`. */
  predicate LastConfirming(answers: seq<Answer>, k: int, j: int) {
    && 0 <= j < k <= |answers| && Confirms(answers[j])
    && forall i :: j < i < k ==> !Confirms(answers[i])
  }

  /** Some answer before `k` confirmed a version, and the last to do so read its clock within the budget of `now`. */
  ghost predicate WithinBudget(answers: seq<Answer>, k: int, now: Time, budgetSeconds: int) {
    exists j :: LastConfirming(answers, k, j) && answers[j].now >= now - budgetSeconds * SECOND
  }

  /** A refresh that confirms nothing is served stale within the budget, and refused otherwise. */
  ghost predicate ServedExactly(answers: seq<Answer>, k: int, budgetSeconds: int)
    requires 0 <= k < |answers|
  {
    !Confirms(answers[k]) ==>
      answers[k].kind ==
      if WithinBudget(answers, k, answers[k].now, budgetSeconds) then "stale-served" else "unavailable"
  }

  // ----- The manager remembers its last confirmation -----

  ghost predicate RemembersSuccess(m: Manager, answers: seq<Answer>) {
    && (m.token.Some? <==> m.lastSuccess.Some?)
    && match m.lastSuccess
       case None => forall i :: 0 <= i < |answers| ==> !Confirms(answers[i])
       case Some(at) => exists j :: LastConfirming(answers, |answers|, j) && answers[j].now == at
  }

  ghost predicate OutcomesInvariant(s: System) {
    && RemembersSuccess(s.manager, s.answers)
    && forall k :: 0 <= k < |s.answers| ==> ServedExactly(s.answers, k, s.manager.maxStalenessSeconds)
  }

  lemma SoleConfirming(answers: seq<Answer>, k: int, i: int, j: int)
    requires LastConfirming(answers, k, i) && LastConfirming(answers, k, j)
    ensures i == j
  {
  }

  lemma LaterAnswersLeaveConfirming(answers: seq<Answer>, a: Answer, k: int, j: int)
    requires k <= |answers|
    ensures LastConfirming(answers + [a], k, j) <==> LastConfirming(answers, k, j)
  {
    assert forall i :: 0 <= i < |answers| ==> (answers + [a])[i] == answers[i];
  }

  lemma LaterAnswersLeaveServed(answers: seq<Answer>, a: Answer, k: int, budgetSeconds: int)
    requires 0 <= k < |answers|
    ensures ServedExactly(answers + [a], k, budgetSeconds) <==> ServedExactly(answers, k, budgetSeconds)
  {
    forall j ensures LastConfirming(answers + [a], k, j) <==> LastConfirming(answers, k, j) {
      LaterAnswersLeaveConfirming(answers, a, k, j);
    }
    assert (answers + [a])[k] == answers[k];
  }

  /** What the manager remembers decides whether the budget still covers a failure. */
  lemma MemoryDecidesBudget(m: Manager, answers: seq<Answer>, now: Time)
    requires RemembersSuccess(m, answers)
    ensures WithinBudget(answers, |answers|, now, m.maxStalenessSeconds) <==>
            m.lastSuccess.Some? && m.lastSuccess.value >= now - m.maxStalenessSeconds * SECOND
  {
    if m.lastSuccess.Some? {
      var j :| LastConfirming(answers, |answers|, j) && answers[j].now == m.lastSuccess.value;
      forall i | LastConfirming(answers, |answers|, i) ensures i == j {
        SoleConfirming(answers, |answers|, i, j);
      }
    }
  }

  lemma NewAnswerServed(m: Manager, answers: seq<Answer>, a: Answer)
    requires RemembersSuccess(m, answers)
    requires Confirms(a) || a.kind ==
             if m.lastSuccess.Some? && m.lastSuccess.value >= a.now - m.maxStalenessSeconds * SECOND
             then "stale-served" else "unavailable"
    ensures ServedExactly(answers + [a], |answers|, m.maxStalenessSeconds)
  {
    MemoryDecidesBudget(m, answers, a.now);
    forall j ensures LastConfirming(answers + [a], |answers|, j) <==> LastConfirming(answers, |answers|, j) {
      LaterAnswersLeaveConfirming(answers, a, |answers|, j);
    }
  }

  lemma NewAnswerRemembered(m: Manager, m': Manager, answers: seq<Answer>, a: Answer)
    requires RemembersSuccess(m, answers)
    requires if Confirms(a) then m'.token.Some? && m'.lastSuccess == Some(a.now) else m' == m
    ensures RemembersSuccess(m', answers + [a])
  {
    var all := answers + [a];
    assert forall i :: 0 <= i < |answers| ==> all[i] == answers[i];
    if Confirms(a) {
      assert LastConfirming(all, |all|, |answers|);
    } else if m.lastSuccess.Some? {
      var j :| LastConfirming(answers, |answers|, j) && answers[j].now == m.lastSuccess.value;
      assert LastConfirming(all, |all|, j);
    }
  }

  /** One refresh: what it answers, and what it leaves the manager with. */
  lemma RefreshOutcome(m: Manager, store: StoreState, attempt: Attempt, loads: PemCheck, now: Time)
    requires m.token.Some? <==> m.lastSuccess.Some?
    ensures var r := Refresh(m, store, attempt, loads, now);
            && r.manager.maxStalenessSeconds == m.maxStalenessSeconds
            && if r.answer == "reused" || r.answer == "fresh"
               then r.manager.token.Some? && r.manager.lastSuccess == Some(now)
               else
                 && r.manager == m
                 && r.answer ==
                    if m.lastSuccess.Some? && m.lastSuccess.value >= now - m.maxStalenessSeconds * SECOND
                    then "stale-served" else "unavailable"
  {
  }

  lemma ConcludeKeepsOutcomes(
    s: System, attempt: Attempt, now: Time, backing: nat, confirmedAt: Time, loads: PemCheck)
    requires OutcomesInvariant(s)
    ensures OutcomesInvariant(Conclude(s, attempt, now, backing, confirmedAt, loads))
  {
    var s' := Conclude(s, attempt, now, backing, confirmedAt, loads);
    var a := s'.answers[|s.answers|];
    RefreshOutcome(s.manager, s.store, attempt, loads, now);
    NewAnswerServed(s.manager, s.answers, a);
    NewAnswerRemembered(s.manager, s'.manager, s.answers, a);
    forall k | 0 <= k < |s.answers| ensures ServedExactly(s'.answers, k, s.manager.maxStalenessSeconds) {
      LaterAnswersLeaveServed(s.answers, a, k, s.manager.maxStalenessSeconds);
    }
  }

  // ----- Which steps answer, and what -----

  /** The step tells one caller one thing, or nobody anything. */
  predicate AnswersWith(s: System, s': System, kind: string, now: Time) {
    |s'.answers| == |s.answers| + 1 && s'.answers[..|s.answers|] == s.answers
    && s'.answers[|s.answers|].kind == kind && s'.answers[|s.answers|].now == now
  }

  /** The step ends the lock holder's refresh without confirming anything. */
  predicate FailsWith(s: System, s': System, now: Time) {
    |s'.answers| == |s.answers| + 1 && s'.answers[..|s.answers|] == s.answers
    && !Confirms(s'.answers[|s.answers|]) && s'.answers[|s.answers|].now == now
  }

  lemma ProbeAnswers(s: System, loads: PemCheck)
    requires Invariant(s, loads) && s.phase.Connecting?
    ensures var s' := Next(s, Probe, loads);
            if Current(s).versionRow.None? then FailsWith(s, s', s.phase.now)
            else if Current(s).versionRow == s.manager.token then AnswersWith(s, s', "reused", s.phase.now)
            else s'.answers == s.answers
  {
    ProbeStep(s, loads);
    RefreshOutcome(s.manager, s.store, ProbeFailed, loads, s.phase.now);
  }

  lemma InstallAnswers(s: System, loads: PemCheck)
    requires Invariant(s, loads) && s.phase.Installing?
    ensures var s' := Next(s, Install, loads);
            if Loadable(s.phase.fetched) then AnswersWith(s, s', "fresh", s.phase.now) else FailsWith(s, s', s.phase.now)
  {
  }

  lemma FailAnswers(s: System, loads: PemCheck)
    requires s.log != [] && !s.phase.Free?
    ensures FailsWith(s, Next(s, Fail, loads), s.phase.now)
  {
  }

  lemma OtherStepsAnswerNobody(s: System, event: Event, loads: PemCheck)
    requires s.log != []
    requires event.Probe? ==> !s.phase.Connecting?
    requires event.Install? ==> !s.phase.Installing?
    requires event.Fail? ==> s.phase.Free?
    ensures Next(s, event, loads).answers == s.answers
  {
  }

  /**
   * What each step of the lock holder tells its caller: a probe of the token the manager holds is answered
   * "reused" and one of a missing row fails; an install of rows that load is answered "fresh" and one of
   * rows that do not fails; a lost connection fails. No other step answers anybody.
   */
  lemma StepAnswers(s: System, event: Event, loads: PemCheck)
    requires Invariant(s, loads)
    ensures var s' := Next(s, event, loads);
            if event.Probe? && s.phase.Connecting? && Current(s).versionRow.None? then FailsWith(s, s', s.phase.now)
            else if event.Probe? && s.phase.Connecting? && Current(s).versionRow == s.manager.token then
              AnswersWith(s, s', "reused", s.phase.now)
            else if event.Install? && s.phase.Installing? then
              if Loadable(s.phase.fetched) then AnswersWith(s, s', "fresh", s.phase.now)
              else FailsWith(s, s', s.phase.now)
            else if event.Fail? && !s.phase.Free? then FailsWith(s, s', s.phase.now)
            else s'.answers == s.answers
  {
    if event.Probe? && s.phase.Connecting? {
      ProbeAnswers(s, loads);
    } else if event.Install? && s.phase.Installing? {
      InstallAnswers(s, loads);
    } else if event.Fail? && !s.phase.Free? {
      FailAnswers(s, loads);
    } else {
      OtherStepsAnswerNobody(s, event, loads);
    }
  }

  lemma StepKeepsOutcomes(s: System, event: Event, loads: PemCheck)
    requires s.log != [] && OutcomesInvariant(s)
    ensures OutcomesInvariant(Next(s, event, loads))
  {
    match event {
      case Probe =>
        ProbeStep(s, loads);
        if s.phase.Connecting? && Current(s).versionRow.None? {
          ConcludeKeepsOutcomes(s, ProbeFailed, s.phase.now, s.backing, s.confirmedAt, loads);
        } else if s.phase.Connecting? && s.manager.token == Current(s).versionRow {
          ConcludeKeepsOutcomes(
            s, Probed(Current(s).versionRow.value, LoadFailed), s.phase.now, |s.log| - 1, s.clock, loads);
        }
      case Install =>
        if s.phase.Installing? {
          ConcludeKeepsOutcomes(
            s, Probed(s.phase.probed, LoadedFrom(s.phase.fetched)), s.phase.now, s.phase.index, s.phase.readAt, loads);
        }
      case Fail =>
        if !s.phase.Free? {
          ConcludeKeepsOutcomes(s, ConnectFailed, s.phase.now, s.backing, s.confirmedAt, loads);
        }
      case _ =>
    }
  }

  lemma {:induction false} RunKeepsOutcomes(s: System, events: seq<Event>, loads: PemCheck)
    requires Initial(s)
    ensures OutcomesInvariant(Run(s, events, loads))
    decreases |events|
  {
    if events != [] {
      RunKeepsOutcomes(s, events[..|events| - 1], loads);
      StepKeepsOutcomes(Run(s, events[..|events| - 1], loads), events[|events| - 1], loads);
    }
  }

  /**
   * Over every run: a refresh that confirms nothing at caller time `now` is answered "stale-served" if some
   * earlier refresh confirmed a version and the last to do so read its clock no earlier than `now` minus the
   * budget, and "unavailable" otherwise. Nothing else that happened in between matters.
   */
  lemma FailuresAreServedExactly(s: System, events: seq<Event>, loads: PemCheck, k: nat)
    requires Initial(s)
    requires k < |Run(s, events, loads).answers|
    ensures var answers := Run(s, events, loads).answers;
            !Confirms(answers[k]) ==>
              answers[k].kind ==
              if exists j :: LastConfirming(answers, k, j)
                             && answers[j].now >= answers[k].now - s.manager.maxStalenessSeconds * SECOND
              then "stale-served" else "unavailable"
  {
    RunKeepsOutcomes(s, events, loads);
    RunKeepsBudget(s, events, loads);
    assert ServedExactly(Run(s, events, loads).answers, k, s.manager.maxStalenessSeconds);
  }

  /** Over every run, each step of the lock holder is answered as the step says, and no other step is. */
  lemma RefreshesAnswerExactly(s: System, events: seq<Event>, event: Event, loads: PemCheck)
    requires Initial(s)
    ensures var r := Run(s, events, loads);
            var r' := Run(s, events + [event], loads);
            if event.Probe? && r.phase.Connecting? && Current(r).versionRow.None? then FailsWith(r, r', r.phase.now)
            else if event.Probe? && r.phase.Connecting? && Current(r).versionRow == r.manager.token then
              AnswersWith(r, r', "reused", r.phase.now)
            else if event.Install? && r.phase.Installing? then
              if Loadable(r.phase.fetched) then AnswersWith(r, r', "fresh", r.phase.now)
              else FailsWith(r, r', r.phase.now)
            else if event.Fail? && !r.phase.Free? then FailsWith(r, r', r.phase.now)
            else r'.answers == r.answers
  {
    RunKeepsInvariant(s, events, loads);
    RunAppend(s, events, event, loads);
    StepAnswers(Run(s, events, loads), event, loads);
  }
}

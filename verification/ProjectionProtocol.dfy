/**
 * Whole runs of the trust projection: governance writers, loss and recreation of the
 * version row, local publishers, and any number of callers queueing for one refresh
 * lock, interleaved at every point where the verifier awaits the database.
 */
module ProjectionProtocol {
  import opened Wrappers
  import opened TrustRules
  import opened NarrowedVerifier
  import opened TrustDatabase
  import opened TrustStore
  import opened TrustProjection

  /** A committed state and the instant its commit made it current. */
  datatype Version = Version(state: TrustState, since: Time)

  /** Where the caller that holds the refresh lock is waiting. */
  datatype Phase =
    | Free
    | Connecting(now: Time)
    | Reading(now: Time, probed: Token)
    | Installing(now: Time, probed: Token, index: nat, readAt: Time, fetched: TrustState)

  /**
   * One answer of `ensure_fresh`: the caller's clock, the outcome, the projected slice it left, whether a
   * local writer had disturbed that slice, and for the record which committed version backs it and when
   * that version was last seen to be current.
   */
  datatype Answer = Answer(
    now: Time, kind: string, slice: Slice, disturbed: bool, backing: nat, confirmedAt: Time)

  /**
   * Since the last reload: `touchedIssuers` and `touchedKeys` are the projected entries local writes
   * disturbed, and `republished` the key refs last published locally in a state other than revoked.
   */
  datatype System = System(
    clock: Time,
    log: seq<Version>,
    spentEpochs: set<string>,
    manager: Manager,
    store: StoreState,
    waiting: multiset<Time>,
    phase: Phase,
    answers: seq<Answer>,
    backing: nat,
    confirmedAt: Time,
    touchedIssuers: set<string>,
    touchedKeys: set<string>,
    republished: set<string>)

  datatype Event =
    | Tick(delta: nat)
    | Write(write: TrustWrite, requireRows: bool, freshEpoch: string)
    | DropVersionRow
    | RecreateVersionRow(freshEpoch: string)
    | PublishLocally(op: StoreOp)
    | Arrive
    | Acquire(now: Time)
    | Probe
    | ReadSnapshot(fetched: TrustState)
    | Install
    | Fail
    | Cancel

  function Current(s: System): TrustState
    requires s.log != []
  {
    s.log[|s.log| - 1].state
  }

  function Committed(s: System, state: TrustState, spent: set<string>): System {
    s.(log := s.log + [Version(state, s.clock)], spentEpochs := spent)
  }

  /** Every projected entry is as the last reload installed it. */
  predicate Undisturbed(s: System) {
    s.touchedIssuers == {} && s.touchedKeys == {}
  }

  /** The lock holder finishes: the manager's own code decides, and the outcome is recorded. */
  function Conclude(s: System, attempt: Attempt, now: Time, backing: nat, confirmedAt: Time, loads: PemCheck): System {
    var r := Refresh(s.manager, s.store, attempt, loads, now);
    var confirmed := r.answer == "reused" || r.answer == "fresh";
    var b := if confirmed then backing else s.backing;
    var c := if confirmed then confirmedAt else s.confirmedAt;
    var reloaded := r.answer == "fresh";
    s.(manager := r.manager, store := r.store, phase := Free, backing := b, confirmedAt := c,
       touchedIssuers := if reloaded then {} else s.touchedIssuers,
       touchedKeys := if reloaded then {} else s.touchedKeys,
       republished := if reloaded then {} else s.republished,
       answers := s.answers
         + [Answer(now, r.answer, ProjectedSlice(r.store), !reloaded && !Undisturbed(s), b, c)])
  }

  /** The refs whose last local publication left them in a state other than revoked. */
  function Republished(store: StoreState, op: StoreOp, before: set<string>): set<string> {
    match op
    case PutKey(entry) =>
      if PutKeyError(store.keys, entry).Some? then before
      else if entry.state != "revoked" then before + {entry.keyRef}
      else before - {entry.keyRef}
    case RemoveKey(keyRef) => before - {keyRef}
    case Clear => {}
    case _ => before
  }

  /** The database side of one step. */
  function DatabaseStep(s: System, event: Event): System
    requires s.log != []
  {
    match event
    case Write(write, requireRows, freshEpoch) =>
      if freshEpoch in s.spentEpochs then s
      else Committed(s, Commit(Current(s), write, requireRows, freshEpoch, s.clock), s.spentEpochs + {freshEpoch})
    case DropVersionRow => Committed(s, Current(s).(versionRow := None), s.spentEpochs)
    case RecreateVersionRow(freshEpoch) =>
      if freshEpoch in s.spentEpochs || Current(s).versionRow.Some? then s
      else Committed(s, Current(s).(versionRow := Some(Token(freshEpoch, 1))), s.spentEpochs + {freshEpoch})
    case _ => s
  }

  /** The verifier side of one step. */
  function VerifierStep(s: System, event: Event, loads: PemCheck): System
    requires s.log != []
  {
    match event
    case Tick(delta) => s.(clock := s.clock + delta)
    case PublishLocally(op) =>
      s.(store := ApplyOp(s.store, op),
         touchedIssuers := s.touchedIssuers + DisturbedIssuers(s.store, op),
         touchedKeys := s.touchedKeys + DisturbedKeys(s.store, op),
         republished := Republished(s.store, op, s.republished))
    case Arrive => s.(waiting := s.waiting + multiset{s.clock})
    case Acquire(now) =>
      if s.phase.Free? && now in s.waiting
      then s.(waiting := s.waiting - multiset{now}, phase := Connecting(now)) else s
    case Probe =>
      if !s.phase.Connecting? then s
      else
        (match Current(s).versionRow
         case None => Conclude(s, ProbeFailed, s.phase.now, s.backing, s.confirmedAt, loads)
         case Some(token) =>
           if s.manager.token == Some(token)
           then Conclude(s, Probed(token, LoadFailed), s.phase.now, |s.log| - 1, s.clock, loads)
           else s.(phase := Reading(s.phase.now, token)))
    case ReadSnapshot(fetched) =>
      if s.phase.Reading? && SameRows(fetched, Current(s))
      then s.(phase := Installing(s.phase.now, s.phase.probed, |s.log| - 1, s.clock, fetched)) else s
    case Install =>
      if s.phase.Installing?
      then Conclude(s, Probed(s.phase.probed, LoadedFrom(s.phase.fetched)), s.phase.now,
                    s.phase.index, s.phase.readAt, loads)
      else s
    case Fail =>
      if s.phase.Free? then s else Conclude(s, ConnectFailed, s.phase.now, s.backing, s.confirmedAt, loads)
    case Cancel => s.(phase := Free)
    case _ => s
  }

  function Next(s: System, event: Event, loads: PemCheck): System
    requires s.log != []
  {
    if event.Write? || event.DropVersionRow? || event.RecreateVersionRow?
    then DatabaseStep(s, event) else VerifierStep(s, event, loads)
  }

  /** A process start: an empty store and a manager that has confirmed nothing. */
  predicate Initial(s: System) {
    && |s.log| == 1 && s.log[0].since <= s.clock
    && SchemaHolds(s.log[0].state.tables)
    && (s.log[0].state.versionRow.Some? ==> s.log[0].state.versionRow.value.epoch in s.spentEpochs)
    && s.manager.token == None && s.manager.lastSuccess == None
    && s.store == EMPTY_STORE
    && s.waiting == multiset{} && s.phase == Free && s.answers == [] && s.backing == 0
    && Undisturbed(s) && s.republished == {}
  }

  function Run(s: System, events: seq<Event>, loads: PemCheck): (r: System)
    requires s.log != []
    ensures r.log != []
  {
    if events == [] then s
    else
      var before := Run(s, events[..|events| - 1], loads);
      Next(before, events[|events| - 1], loads)
  }

  // ----- Invariants of the database log -----

  /** `log[i]` was the committed state at instant `at`. */
  predicate CurrentAt(log: seq<Version>, i: nat, at: Time) {
    i < |log| && log[i].since <= at && (i + 1 < |log| ==> at <= log[i + 1].since)
  }

  /** One token names one state of the tables. */
  predicate TokensNameStates(log: seq<Version>) {
    forall i, j :: 0 <= i < |log| && 0 <= j < |log| && log[i].state.versionRow.Some?
                   && log[i].state.versionRow == log[j].state.versionRow ==>
      log[i].state == log[j].state
  }

  /** The current version is the highest its epoch has had. */
  predicate CurrentTokenIsHighest(log: seq<Version>) {
    log != [] && log[|log| - 1].state.versionRow.Some? ==>
      var top := log[|log| - 1].state.versionRow.value;
      forall i :: 0 <= i < |log| && log[i].state.versionRow.Some?
                  && log[i].state.versionRow.value.epoch == top.epoch ==>
        log[i].state.versionRow.value.version <= top.version
  }

  predicate EpochsSpent(log: seq<Version>, spent: set<string>) {
    forall i :: 0 <= i < |log| && log[i].state.versionRow.Some? ==> log[i].state.versionRow.value.epoch in spent
  }

  predicate Chronological(log: seq<Version>, clock: Time) {
    && (forall i, j :: 0 <= i <= j < |log| ==> log[i].since <= log[j].since)
    && (forall i :: 0 <= i < |log| ==> log[i].since <= clock)
  }

  predicate SchemasHold(log: seq<Version>) {
    forall i :: 0 <= i < |log| ==> SchemaHolds(log[i].state.tables)
  }

  ghost predicate RevocationsPersist(log: seq<Version>) {
    forall i, j, id :: 0 <= i <= j < |log| && IsRevoked(log[i].state.tables, id) ==> IsRevoked(log[j].state.tables, id)
  }

  ghost predicate LogInvariant(log: seq<Version>, spent: set<string>, clock: Time) {
    && log != []
    && TokensNameStates(log) && CurrentTokenIsHighest(log) && EpochsSpent(log, spent)
    && Chronological(log, clock) && SchemasHold(log) && RevocationsPersist(log)
  }

  /** The version row a commit leaves: the same state under the same token, a higher version, or none, or a fresh epoch. */
  predicate RowAdvances(before: TrustState, after: TrustState, spent: set<string>) {
    || after == before
    || after.versionRow.None?
    || (&& before.versionRow.Some? && after.versionRow.value.epoch == before.versionRow.value.epoch
        && after.versionRow.value.version > before.versionRow.value.version)
    || after.versionRow.value.epoch !in spent
  }

  lemma AppendKeepsTokens(log: seq<Version>, spent: set<string>, spent': set<string>, v: Version)
    requires log != [] && TokensNameStates(log) && CurrentTokenIsHighest(log) && EpochsSpent(log, spent)
    requires RowAdvances(log[|log| - 1].state, v.state, spent)
    requires spent <= spent' && (v.state.versionRow.Some? ==> v.state.versionRow.value.epoch in spent')
    ensures TokensNameStates(log + [v]) && CurrentTokenIsHighest(log + [v]) && EpochsSpent(log + [v], spent')
  {
  }

  lemma AppendKeepsHistory(log: seq<Version>, clock: Time, v: Version)
    requires log != [] && Chronological(log, clock) && SchemasHold(log) && RevocationsPersist(log)
    requires v.since == clock && SchemaHolds(v.state.tables)
    requires forall id :: IsRevoked(log[|log| - 1].state.tables, id) ==> IsRevoked(v.state.tables, id)
    ensures Chronological(log + [v], clock) && SchemasHold(log + [v]) && RevocationsPersist(log + [v])
  {
    var log' := log + [v];
    forall i, j, id | 0 <= i <= j < |log'| && IsRevoked(log'[i].state.tables, id)
      ensures IsRevoked(log'[j].state.tables, id)
    {
      if i < |log| && j == |log| {
        assert IsRevoked(log[|log| - 1].state.tables, id);
      }
    }
  }

  lemma DatabaseStepKeepsLog(s: System, event: Event)
    requires LogInvariant(s.log, s.spentEpochs, s.clock)
    ensures var s' := DatabaseStep(s, event); LogInvariant(s'.log, s'.spentEpochs, s.clock)
  {
    var s' := DatabaseStep(s, event);
    if s' != s {
      var before, v := Current(s), s'.log[|s.log|];
      match event {
        case Write(write, requireRows, freshEpoch) =>
          CommitKeepsSchema(before, write, requireRows, freshEpoch, s.clock);
          forall id | IsRevoked(before.tables, id) ensures IsRevoked(v.state.tables, id) {
            CommitKeepsRevoked(before, write, requireRows, freshEpoch, s.clock, id);
          }
          CommitAdvancesRow(before, write, requireRows, freshEpoch, s.clock, s.spentEpochs);
        case _ =>
      }
      AppendKeepsTokens(s.log, s.spentEpochs, s'.spentEpochs, v);
      AppendKeepsHistory(s.log, s.clock, v);
    }
  }

  lemma CommitAdvancesRow(
    before: TrustState, write: TrustWrite, requireRows: bool, freshEpoch: string, now: Time, spent: set<string>)
    requires freshEpoch !in spent
    ensures RowAdvances(before, Commit(before, write, requireRows, freshEpoch, now), spent)
  {
  }

  // ----- Invariants of the verifier -----

  /** The slice is the projection of the state's rows, fetched in some order. */
  ghost predicate ProjectsTo(state: TrustState, slice: Slice, loads: PemCheck) {
    exists fetched :: SameRows(fetched, state) && Loadable(fetched) && slice == Projection(fetched, loads)
  }

  /** The slice is such a projection, but for the entries of the given sets. */
  ghost predicate ProjectsOutside(
    state: TrustState, slice: Slice, issuerIds: set<string>, keyRefs: set<string>, loads: PemCheck)
  {
    exists fetched ::
      SameRows(fetched, state) && Loadable(fetched) && AgreeOutside(slice, Projection(fetched, loads), issuerIds, keyRefs)
  }

  lemma ProjectsEverywhere(state: TrustState, slice: Slice, loads: PemCheck)
    ensures ProjectsOutside(state, slice, {}, {}, loads) <==> ProjectsTo(state, slice, loads)
  {
    if fetched :| && SameRows(fetched, state) && Loadable(fetched)
                  && AgreeOutside(slice, Projection(fetched, loads), {}, {}) {
      AgreeEverywhere(slice, Projection(fetched, loads));
    }
    if fetched :| SameRows(fetched, state) && Loadable(fetched) && slice == Projection(fetched, loads) {
      AgreeEverywhere(slice, Projection(fetched, loads));
    }
  }

  /** The store holds a revoked certificate's key as revoked exactly when nobody republished it. */
  ghost predicate HoldsRevocations(t: Tables, store: StoreState, republished: set<string>) {
    forall id :: IsRevoked(t, id) && id in store.keys ==>
      (store.keys[id].state == "revoked" <==> id !in republished)
  }

  ghost predicate ManagerInvariant(s: System, loads: PemCheck) {
    && (s.manager.token.Some? <==> s.manager.lastSuccess.Some?)
    && (s.manager.token.Some? ==>
          && CurrentAt(s.log, s.backing, s.confirmedAt)
          && ProjectsOutside(s.log[s.backing].state, ProjectedSlice(s.store), s.touchedIssuers, s.touchedKeys, loads)
          && HoldsRevocations(s.log[s.backing].state.tables, s.store, s.republished)
          && s.log[s.backing].state.versionRow == s.manager.token
          && s.manager.lastSuccess.value <= s.confirmedAt <= s.clock)
  }

  predicate PhaseInvariant(s: System) {
    && (forall now :: now in s.waiting ==> now <= s.clock)
    && (!s.phase.Free? ==> s.phase.now <= s.clock)
    && (s.phase.Reading? || s.phase.Installing? ==> s.manager.token != Some(s.phase.probed))
    && (s.phase.Installing? ==>
          && CurrentAt(s.log, s.phase.index, s.phase.readAt)
          && SameRows(s.phase.fetched, s.log[s.phase.index].state)
          && s.phase.now <= s.phase.readAt <= s.clock
          && (s.manager.token.Some? ==> s.backing <= s.phase.index))
  }

  predicate Answering(kind: string) {
    kind == "reused" || kind == "fresh" || kind == "stale-served"
  }

  /** What an answer promises about the slice it left behind. */
  ghost predicate AnswerIsBacked(s: System, a: Answer, loads: PemCheck) {
    Answering(a.kind) ==>
      && CurrentAt(s.log, a.backing, a.confirmedAt)
      && (!a.disturbed ==> ProjectsTo(s.log[a.backing].state, a.slice, loads))
      && a.confirmedAt <= s.clock
      && (a.kind != "stale-served" ==> a.now <= a.confirmedAt)
      && (a.kind == "stale-served" ==> a.now - s.manager.maxStalenessSeconds * SECOND <= a.confirmedAt)
      && s.manager.token.Some? && a.backing <= s.backing
      && (a.kind == "fresh" ==> !a.disturbed)
  }

  ghost predicate AnswersBacked(s: System, loads: PemCheck) {
    forall k :: 0 <= k < |s.answers| ==> AnswerIsBacked(s, s.answers[k], loads)
  }

  ghost predicate Invariant(s: System, loads: PemCheck) {
    && LogInvariant(s.log, s.spentEpochs, s.clock)
    && ManagerInvariant(s, loads) && PhaseInvariant(s) && AnswersBacked(s, loads)
  }

  lemma AppendKeepsCurrentAt(log: seq<Version>, v: Version, i: nat, at: Time)
    requires CurrentAt(log, i, at) && at <= v.since
    ensures CurrentAt(log + [v], i, at)
  {
  }

  /** A later commit does not disturb what was read before it. */
  lemma CommitKeepsVerifierInvariants(s: System, v: Version, spent: set<string>, loads: PemCheck)
    requires ManagerInvariant(s, loads) && PhaseInvariant(s) && v.since == s.clock
    ensures ManagerInvariant(s.(log := s.log + [v], spentEpochs := spent), loads)
    ensures PhaseInvariant(s.(log := s.log + [v], spentEpochs := spent))
  {
    if s.manager.token.Some? {
      AppendKeepsCurrentAt(s.log, v, s.backing, s.confirmedAt);
    }
    if s.phase.Installing? {
      AppendKeepsCurrentAt(s.log, v, s.phase.index, s.phase.readAt);
    }
  }

  lemma CommitKeepsAnswers(s: System, v: Version, spent: set<string>, loads: PemCheck)
    requires AnswersBacked(s, loads) && v.since == s.clock
    ensures AnswersBacked(s.(log := s.log + [v], spentEpochs := spent), loads)
  {
    var s' := s.(log := s.log + [v], spentEpochs := spent);
    forall k | 0 <= k < |s'.answers| ensures AnswerIsBacked(s', s'.answers[k], loads) {
      assert AnswerIsBacked(s, s.answers[k], loads);
    }
  }

  lemma DatabaseStepKeepsInvariant(s: System, event: Event, loads: PemCheck)
    requires Invariant(s, loads)
    ensures Invariant(DatabaseStep(s, event), loads)
  {
    DatabaseStepKeepsLog(s, event);
    var s' := DatabaseStep(s, event);
    if s' != s {
      var v := s'.log[|s.log|];
      assert s' == s.(log := s.log + [v], spentEpochs := s'.spentEpochs);
      CommitKeepsVerifierInvariants(s, v, s'.spentEpochs, loads);
      CommitKeepsAnswers(s, v, s'.spentEpochs, loads);
    }
  }

  /** A reload installs exactly the projection of the rows it read, whatever the store held. */
  lemma InstallProjects(store: StoreState, fetched: TrustState, loads: PemCheck)
    requires Loadable(fetched)
    ensures ProjectedSlice(Reloaded(store, fetched, loads)) == Projection(fetched, loads)
  {
    var snapshot := SnapshotOf(fetched, loads);
    ProjectedIssuersAreCanonical(fetched.tables.issuers, VerifiedProofs(fetched.tables.proofs));
    ProjectedKeysHaveMaterial(fetched.tables.certificates, loads);
    ReplaceInstallsSlice(store, snapshot.issuers, snapshot.keys, snapshot.defects);
  }

  function Reloaded(store: StoreState, fetched: TrustState, loads: PemCheck): StoreState
    requires Loadable(fetched)
  {
    var snapshot := SnapshotOf(fetched, loads);
    ReplaceProjected(store, snapshot.issuers, snapshot.keys, snapshot.defects)
  }

  /** A reload brings every durable revocation into the store. */
  lemma InstallRevokes(store: StoreState, fetched: TrustState, committed: TrustState, loads: PemCheck)
    requires Loadable(fetched) && SameRows(fetched, committed) && SchemaHolds(committed.tables)
    ensures var keys := Reloaded(store, fetched, loads).keys;
            forall id :: IsRevoked(committed.tables, id) ==> id in keys && keys[id].state == "revoked"
  {
    InstallProjects(store, fetched, loads);
    SameRowsSameFacts(fetched, committed);
    var after := Reloaded(store, fetched, loads);
    forall id | IsRevoked(committed.tables, id) ensures id in after.keys && after.keys[id].state == "revoked" {
      RevokedInAnyOrder(fetched, committed, id);
      RevokedCertificateIsProjected(fetched, loads, id);
      assert id in ProjectedSlice(after).keys;
    }
  }

  /** What a lock holder knows when it concludes. */
  ghost predicate Knows(s: System, attempt: Attempt, now: Time, backing: nat, confirmedAt: Time) {
    && now <= s.clock
    && (attempt.Probed? ==>
          && CurrentAt(s.log, backing, confirmedAt) && now <= confirmedAt <= s.clock
          && (s.manager.token.Some? ==> s.backing <= backing)
          && (s.manager.token == Some(attempt.probed) ==> s.log[backing].state.versionRow == s.manager.token)
          && (attempt.load.LoadedFrom? ==> SameRows(attempt.load.fetched, s.log[backing].state)))
  }

  lemma ConcludeKeepsManager(
    s: System, attempt: Attempt, now: Time, backing: nat, confirmedAt: Time, loads: PemCheck)
    requires Invariant(s, loads) && Knows(s, attempt, now, backing, confirmedAt)
    ensures ManagerInvariant(Conclude(s, attempt, now, backing, confirmedAt, loads), loads)
  {
    var r := Refresh(s.manager, s.store, attempt, loads, now);
    if r.answer == "reused" {
      assert s.log[backing].state == s.log[s.backing].state;
    } else if r.answer == "fresh" {
      InstallProjects(s.store, attempt.load.fetched, loads);
      InstallRevokes(s.store, attempt.load.fetched, s.log[backing].state, loads);
      ProjectsEverywhere(s.log[backing].state, ProjectedSlice(r.store), loads);
    }
  }

  /** The answer a lock holder leaves is backed by what it confirmed, or by what was confirmed before. */
  lemma NewAnswerIsBacked(
    s: System, attempt: Attempt, now: Time, backing: nat, confirmedAt: Time, loads: PemCheck)
    requires Knows(s, attempt, now, backing, confirmedAt)
    requires ManagerInvariant(s, loads)
    requires ManagerInvariant(Conclude(s, attempt, now, backing, confirmedAt, loads), loads)
    ensures var s' := Conclude(s, attempt, now, backing, confirmedAt, loads);
            AnswerIsBacked(s', s'.answers[|s.answers|], loads)
  {
    var s' := Conclude(s, attempt, now, backing, confirmedAt, loads);
    if s'.manager.token.Some? {
      ProjectsEverywhere(s'.log[s'.backing].state, ProjectedSlice(s'.store), loads);
    }
  }

  lemma ConcludeKeepsAnswers(
    s: System, attempt: Attempt, now: Time, backing: nat, confirmedAt: Time, loads: PemCheck)
    requires AnswersBacked(s, loads) && Knows(s, attempt, now, backing, confirmedAt)
    requires ManagerInvariant(s, loads)
    requires ManagerInvariant(Conclude(s, attempt, now, backing, confirmedAt, loads), loads)
    ensures AnswersBacked(Conclude(s, attempt, now, backing, confirmedAt, loads), loads)
  {
    var s' := Conclude(s, attempt, now, backing, confirmedAt, loads);
    NewAnswerIsBacked(s, attempt, now, backing, confirmedAt, loads);
    forall k | 0 <= k < |s'.answers| ensures AnswerIsBacked(s', s'.answers[k], loads) {
      if k < |s.answers| {
        assert AnswerIsBacked(s, s.answers[k], loads);
      }
    }
  }

  /** Concluding keeps everything, given what the holder knows about the version it confirmed. */
  lemma ConcludeKeepsInvariant(
    s: System, attempt: Attempt, now: Time, backing: nat, confirmedAt: Time, loads: PemCheck)
    requires Invariant(s, loads) && Knows(s, attempt, now, backing, confirmedAt)
    ensures Invariant(Conclude(s, attempt, now, backing, confirmedAt, loads), loads)
  {
    ConcludeKeepsManager(s, attempt, now, backing, confirmedAt, loads);
    ConcludeKeepsAnswers(s, attempt, now, backing, confirmedAt, loads);
  }

  /** Steps that conclude nothing: only the clock, the queue and the phase change. */
  lemma FrameKeepsInvariant(s: System, s': System, loads: PemCheck)
    requires Invariant(s, loads) && PhaseInvariant(s') && s.clock <= s'.clock
    requires s' == s.(clock := s'.clock, waiting := s'.waiting, phase := s'.phase)
    ensures Invariant(s', loads)
  {
    forall k | 0 <= k < |s'.answers| ensures AnswerIsBacked(s', s'.answers[k], loads) {
      assert AnswerIsBacked(s, s.answers[k], loads);
    }
  }

  /** The probed token is the held one: the current version is what the store was loaded from. */
  lemma ReuseKeepsInvariant(s: System, loads: PemCheck)
    requires Invariant(s, loads) && s.phase.Connecting?
    requires Current(s).versionRow.Some? && s.manager.token == Current(s).versionRow
    ensures Invariant(
              Conclude(s, Probed(Current(s).versionRow.value, LoadFailed), s.phase.now, |s.log| - 1, s.clock, loads), loads)
  {
    assert CurrentAt(s.log, |s.log| - 1, s.clock);
    ConcludeKeepsInvariant(
      s, Probed(Current(s).versionRow.value, LoadFailed), s.phase.now, |s.log| - 1, s.clock, loads);
  }

  lemma MissingRowKeepsInvariant(s: System, loads: PemCheck)
    requires Invariant(s, loads) && !s.phase.Free?
    ensures Invariant(Conclude(s, ProbeFailed, s.phase.now, s.backing, s.confirmedAt, loads), loads)
  {
    ConcludeKeepsInvariant(s, ProbeFailed, s.phase.now, s.backing, s.confirmedAt, loads);
  }

  lemma ChangedTokenKeepsInvariant(s: System, probed: Token, loads: PemCheck)
    requires Invariant(s, loads) && s.phase.Connecting? && s.manager.token != Some(probed)
    ensures Invariant(s.(phase := Reading(s.phase.now, probed)), loads)
  {
    FrameKeepsInvariant(s, s.(phase := Reading(s.phase.now, probed)), loads);
  }

  /** What the probe step comes to. */
  lemma ProbeStep(s: System, loads: PemCheck)
    requires s.log != []
    ensures var s' := VerifierStep(s, Probe, loads);
            var row := Current(s).versionRow;
            if !s.phase.Connecting? then s' == s
            else if row.None? then s' == Conclude(s, ProbeFailed, s.phase.now, s.backing, s.confirmedAt, loads)
            else if s.manager.token == row then
              s' == Conclude(s, Probed(row.value, LoadFailed), s.phase.now, |s.log| - 1, s.clock, loads)
            else s' == s.(phase := Reading(s.phase.now, row.value))
  {
  }

  lemma ProbeKeepsInvariant(s: System, loads: PemCheck)
    requires Invariant(s, loads)
    ensures Invariant(VerifierStep(s, Probe, loads), loads)
  {
    ProbeStep(s, loads);
    if s.phase.Connecting? {
      var row := Current(s).versionRow;
      if row.None? {
        MissingRowKeepsInvariant(s, loads);
      } else if s.manager.token == row {
        ReuseKeepsInvariant(s, loads);
      } else {
        ChangedTokenKeepsInvariant(s, row.value, loads);
      }
    }
  }

  lemma InstallKeepsInvariant(s: System, loads: PemCheck)
    requires Invariant(s, loads)
    ensures Invariant(VerifierStep(s, Install, loads), loads)
  {
    if s.phase.Installing? {
      ConcludeKeepsInvariant(
        s, Probed(s.phase.probed, LoadedFrom(s.phase.fetched)), s.phase.now, s.phase.index, s.phase.readAt, loads);
    }
  }

  lemma FailKeepsInvariant(s: System, loads: PemCheck)
    requires Invariant(s, loads)
    ensures Invariant(VerifierStep(s, Fail, loads), loads)
  {
    if !s.phase.Free? {
      ConcludeKeepsInvariant(s, ConnectFailed, s.phase.now, s.backing, s.confirmedAt, loads);
    }
  }

  /** What a store holds of a revocation changes only with a republication after a removal. */
  lemma LocalOpKeepsRevocations(t: Tables, store: StoreState, republished: set<string>, op: StoreOp)
    requires HoldsRevocations(t, store, republished)
    ensures HoldsRevocations(t, ApplyOp(store, op), Republished(store, op, republished))
    ensures forall id :: id in store.keys && store.keys[id].state == "revoked" ==>
              id !in ApplyOp(store, op).keys || ApplyOp(store, op).keys[id].state == "revoked"
  {
    var after := ApplyOp(store, op);
    forall id | IsRevoked(t, id) && id in after.keys
      ensures after.keys[id].state == "revoked" <==> id !in Republished(store, op, republished)
    {
      if id in store.keys {
        assert store.keys[id].state == "revoked" <==> id !in republished;
      }
    }
  }

  lemma PublishKeepsProjection(
    state: TrustState, store: StoreState, op: StoreOp, issuerIds: set<string>, keyRefs: set<string>, loads: PemCheck)
    requires ProjectsOutside(state, ProjectedSlice(store), issuerIds, keyRefs, loads)
    ensures ProjectsOutside(
              state, ProjectedSlice(ApplyOp(store, op)),
              issuerIds + DisturbedIssuers(store, op), keyRefs + DisturbedKeys(store, op), loads)
  {
    LocalOpDisturbsOnly(store, op);
    var (before, after) := (ProjectedSlice(store), ProjectedSlice(ApplyOp(store, op)));
    var (ids, refs) := (issuerIds + DisturbedIssuers(store, op), keyRefs + DisturbedKeys(store, op));
    var fetched :| && SameRows(fetched, state) && Loadable(fetched)
                   && AgreeOutside(before, Projection(fetched, loads), issuerIds, keyRefs);
    assert AgreeOutside(after, Projection(fetched, loads), ids, refs);
  }

  lemma PublishKeepsInvariant(s: System, op: StoreOp, loads: PemCheck)
    requires Invariant(s, loads)
    ensures Invariant(VerifierStep(s, PublishLocally(op), loads), loads)
  {
    var s' := VerifierStep(s, PublishLocally(op), loads);
    if s.manager.token.Some? {
      var state := s.log[s.backing].state;
      LocalOpKeepsRevocations(state.tables, s.store, s.republished, op);
      PublishKeepsProjection(state, s.store, op, s.touchedIssuers, s.touchedKeys, loads);
    }
    forall k | 0 <= k < |s'.answers| ensures AnswerIsBacked(s', s'.answers[k], loads) {
      assert AnswerIsBacked(s, s.answers[k], loads);
    }
  }

  lemma WaitingKeepsPhase(s: System, event: Event, loads: PemCheck)
    requires s.log != [] && PhaseInvariant(s) && Chronological(s.log, s.clock)
    requires s.manager.token.Some? ==> s.backing < |s.log|
    requires event.Tick? || event.Arrive? || event.Acquire? || event.ReadSnapshot? || event.Cancel?
    ensures var s' := VerifierStep(s, event, loads);
            s.clock <= s'.clock && PhaseInvariant(s') && s' == s.(clock := s'.clock, waiting := s'.waiting, phase := s'.phase)
  {
  }

  /** Ticks, arrivals, the lock, snapshot reads and cancellations only move the clock, the queue and the phase. */
  lemma WaitingKeepsInvariant(s: System, event: Event, loads: PemCheck)
    requires Invariant(s, loads)
    requires event.Tick? || event.Arrive? || event.Acquire? || event.ReadSnapshot? || event.Cancel?
    ensures Invariant(VerifierStep(s, event, loads), loads)
  {
    WaitingKeepsPhase(s, event, loads);
    FrameKeepsInvariant(s, VerifierStep(s, event, loads), loads);
  }

  lemma VerifierStepKeepsInvariant(s: System, event: Event, loads: PemCheck)
    requires Invariant(s, loads)
    ensures Invariant(VerifierStep(s, event, loads), loads)
  {
    match event {
      case Probe => ProbeKeepsInvariant(s, loads);
      case Install => InstallKeepsInvariant(s, loads);
      case Fail => FailKeepsInvariant(s, loads);
      case PublishLocally(op) => PublishKeepsInvariant(s, op, loads);
      case Write(_, _, _) =>
      case DropVersionRow =>
      case RecreateVersionRow(_) =>
      case _ => WaitingKeepsInvariant(s, event, loads);
    }
  }

  lemma InitialInvariant(s: System, loads: PemCheck)
    requires Initial(s)
    ensures Invariant(s, loads)
  {
  }

  /** Every run keeps the invariant. */
  lemma {:induction false} RunKeepsInvariant(s: System, events: seq<Event>, loads: PemCheck)
    requires Initial(s)
    ensures Invariant(Run(s, events, loads), loads)
    decreases |events|
  {
    if events == [] {
      InitialInvariant(s, loads);
    } else {
      RunKeepsInvariant(s, events[..|events| - 1], loads);
      var before, event := Run(s, events[..|events| - 1], loads), events[|events| - 1];
      DatabaseStepKeepsInvariant(before, event, loads);
      VerifierStepKeepsInvariant(before, event, loads);
    }
  }

  // ----- Cache coherence -----

  /**
   * In every run, whenever the manager holds a token and no local writer has disturbed the slice since the
   * last reload, the store's projected slice is the projection of every committed version that carried
   * that token, its rows fetched in some order.
   */
  lemma CacheCoherence(s: System, events: seq<Event>, loads: PemCheck, i: nat)
    requires Initial(s)
    requires var r := Run(s, events, loads);
             && i < |r.log| && r.manager.token.Some? && r.log[i].state.versionRow == r.manager.token
             && Undisturbed(r)
    ensures var r := Run(s, events, loads);
            ProjectsTo(r.log[i].state, ProjectedSlice(r.store), loads)
  {
    RunKeepsInvariant(s, events, loads);
    var r := Run(s, events, loads);
    assert r.log[i].state == r.log[r.backing].state;
    ProjectsEverywhere(r.log[i].state, ProjectedSlice(r.store), loads);
  }

  predicate UnhydratedIsEmpty(s: System) {
    s.manager.token.None? && Undisturbed(s) ==> ProjectedSlice(s.store) == EMPTY_SLICE
  }

  lemma ConcludeKeepsUnhydratedEmpty(
    s: System, attempt: Attempt, now: Time, backing: nat, confirmedAt: Time, loads: PemCheck)
    requires UnhydratedIsEmpty(s)
    ensures UnhydratedIsEmpty(Conclude(s, attempt, now, backing, confirmedAt, loads))
  {
  }

  lemma RefreshKeepsUnhydratedEmpty(s: System, event: Event, loads: PemCheck)
    requires s.log != [] && UnhydratedIsEmpty(s) && (event.Probe? || event.Install? || event.Fail?)
    ensures UnhydratedIsEmpty(VerifierStep(s, event, loads))
  {
    if event.Probe? && s.phase.Connecting? {
      ConcludeKeepsUnhydratedEmpty(s, ProbeFailed, s.phase.now, s.backing, s.confirmedAt, loads);
    } else if event.Install? && s.phase.Installing? {
      ConcludeKeepsUnhydratedEmpty(
        s, Probed(s.phase.probed, LoadedFrom(s.phase.fetched)), s.phase.now, s.phase.index, s.phase.readAt, loads);
    } else if event.Fail? && !s.phase.Free? {
      ConcludeKeepsUnhydratedEmpty(s, ConnectFailed, s.phase.now, s.backing, s.confirmedAt, loads);
    }
  }

  lemma PublishKeepsUnhydratedEmpty(s: System, op: StoreOp, loads: PemCheck)
    requires s.log != [] && UnhydratedIsEmpty(s)
    ensures UnhydratedIsEmpty(VerifierStep(s, PublishLocally(op), loads))
  {
    if Undisturbed(VerifierStep(s, PublishLocally(op), loads)) {
      LocalOpDisturbsOnly(s.store, op);
      AgreeEverywhere(ProjectedSlice(s.store), ProjectedSlice(ApplyOp(s.store, op)));
    }
  }

  lemma StepKeepsUnhydratedEmpty(s: System, event: Event, loads: PemCheck)
    requires s.log != [] && UnhydratedIsEmpty(s)
    ensures UnhydratedIsEmpty(Next(s, event, loads))
  {
    match event {
      case PublishLocally(op) => PublishKeepsUnhydratedEmpty(s, op, loads);
      case Probe => RefreshKeepsUnhydratedEmpty(s, event, loads);
      case Install => RefreshKeepsUnhydratedEmpty(s, event, loads);
      case Fail => RefreshKeepsUnhydratedEmpty(s, event, loads);
      case _ =>
    }
  }

  /** A manager that never confirmed anything has put nothing into the store's projected slice. */
  lemma {:induction false} UnhydratedStoreIsEmpty(s: System, events: seq<Event>, loads: PemCheck)
    requires Initial(s)
    ensures UnhydratedIsEmpty(Run(s, events, loads))
    decreases |events|
  {
    if events == [] {
      assert ProjectedSlice(EMPTY_STORE) == EMPTY_SLICE;
    } else {
      UnhydratedStoreIsEmpty(s, events[..|events| - 1], loads);
      StepKeepsUnhydratedEmpty(Run(s, events[..|events| - 1], loads), events[|events| - 1], loads);
    }
  }

  // ----- Bounded staleness -----

  /**
   * The answer rests on a version that was current at an instant no earlier than `earliest`, and on that
   * version's projection unless a local writer had disturbed the slice.
   */
  ghost predicate BackedSince(s: System, a: Answer, earliest: Time, loads: PemCheck) {
    exists i: nat, at: Time ::
      && earliest <= at <= s.clock && CurrentAt(s.log, i, at)
      && (!a.disturbed ==> ProjectsTo(s.log[i].state, a.slice, loads))
  }

  lemma BackedAnswer(r: System, a: Answer, loads: PemCheck)
    requires AnswerIsBacked(r, a, loads)
    ensures a.kind == "reused" || a.kind == "fresh" ==> BackedSince(r, a, a.now, loads)
    ensures a.kind == "stale-served" ==>
              BackedSince(r, a, a.now - r.manager.maxStalenessSeconds * SECOND, loads)
    ensures a.kind == "fresh" ==> !a.disturbed
  {
  }

  /**
   * Over every run: an answer at caller time `now` rests on a database state that was current no
   * earlier than `now` when reused or fresh, and no earlier than `now` minus the budget when stale,
   * however the callers' clocks reached the lock and however many refreshes failed in between.
   */
  lemma BoundedStaleness(s: System, events: seq<Event>, loads: PemCheck, k: nat)
    requires Initial(s)
    requires k < |Run(s, events, loads).answers|
    ensures var r := Run(s, events, loads);
            var a := r.answers[k];
            && (a.kind == "reused" || a.kind == "fresh" ==> BackedSince(r, a, a.now, loads))
            && (a.kind == "stale-served" ==>
                  BackedSince(r, a, a.now - s.manager.maxStalenessSeconds * SECOND, loads))
            && (a.kind == "fresh" ==> !a.disturbed)
  {
    RunKeepsInvariant(s, events, loads);
    RunKeepsBudget(s, events, loads);
    var r := Run(s, events, loads);
    BackedAnswer(r, r.answers[k], loads);
  }

  lemma StepKeepsBudget(s: System, event: Event, loads: PemCheck)
    requires s.log != []
    ensures Next(s, event, loads).manager.maxStalenessSeconds == s.manager.maxStalenessSeconds
  {
  }

  lemma {:induction false} RunKeepsBudget(s: System, events: seq<Event>, loads: PemCheck)
    requires Initial(s)
    ensures Run(s, events, loads).manager.maxStalenessSeconds == s.manager.maxStalenessSeconds
    decreases |events|
  {
    if events != [] {
      RunKeepsBudget(s, events[..|events| - 1], loads);
      StepKeepsBudget(Run(s, events[..|events| - 1], loads), events[|events| - 1], loads);
    }
  }

  // ----- Revocation -----

  /** A version current after the commit of another one is not an earlier version. */
  lemma LaterInstantLaterVersion(log: seq<Version>, clock: Time, i: nat, at: Time, r: nat)
    requires Chronological(log, clock) && CurrentAt(log, i, at) && r < |log| && log[r].since < at
    ensures r <= i
  {
    if i + 1 < |log| {
      assert at <= log[i + 1].since;
    }
  }

  /** After an answer that outlives the budget, a revoked certificate's key is held as revoked unless republished. */
  lemma RevokedIsInStore(r: System, revoked: nat, certificateId: string, k: nat, loads: PemCheck)
    requires Invariant(r, loads) && revoked < |r.log| && IsRevoked(r.log[revoked].state.tables, certificateId)
    requires k < |r.answers| && Answering(r.answers[k].kind) && r.manager.maxStalenessSeconds >= 0
    requires r.answers[k].now > r.log[revoked].since + r.manager.maxStalenessSeconds * SECOND
    requires certificateId in r.store.keys
    ensures r.store.keys[certificateId].state == "revoked" <==> certificateId !in r.republished
  {
    var a := r.answers[k];
    assert AnswerIsBacked(r, a, loads);
    LaterInstantLaterVersion(r.log, r.clock, a.backing, a.confirmedAt, revoked);
    assert IsRevoked(r.log[r.backing].state.tables, certificateId);
  }

  lemma RevokedKeyIsRefused(p: Presentation, trust: TrustContext, now: Time)
    requires trust.key.state == "revoked"
    ensures var v := VerifyPresentedCode(p, trust, now);
            v.Refused? && (v.stage == "issuer_status" || v.stage == "key_status")
  {
    BlockedIsRefusedFirst(p, trust, now);
  }

  /** Under an active issuer a key is refused as revoked exactly when it is held so. */
  lemma RefusedAsRevokedExactly(p: Presentation, trust: TrustContext, now: Time)
    requires trust.issuer.status == "active"
    ensures VerifyPresentedCode(p, trust, now) == Refused("key_status", "key-revoked") <==> trust.key.state == "revoked"
  {
    if trust.key.state == "revoked" {
      assert BlockingState(trust.key, trust.issuer) == Some(Refusal("key_status", "key-revoked"));
    }
  }

  /**
   * Once version `revoked` of the log holds a certificate as revoked, committed at `T`: after any
   * answer whose caller time exceeds `T` plus the budget, in that state and in every later one, a
   * presentation that resolves the certificate's key is refused at a status stage, unless a local writer
   * republished the key since the last reload. Under an active issuer that is exactly when it is refused
   * as revoked.
   */
  lemma RevocationIsEnforced(
    s: System, events: seq<Event>, loads: PemCheck, revoked: nat, certificateId: string, k: nat,
    p: Presentation, skewSeconds: nat, now: Time)
    requires Initial(s)
    requires var r := Run(s, events, loads);
             && revoked < |r.log| && IsRevoked(r.log[revoked].state.tables, certificateId)
             && k < |r.answers| && Answering(r.answers[k].kind)
             && r.answers[k].now > r.log[revoked].since + s.manager.maxStalenessSeconds * SECOND
             && s.manager.maxStalenessSeconds >= 0
             && ResolveKey(r.store, certificateId).Some?
    ensures var r := Run(s, events, loads);
            var (key, issuer) := ResolveKey(r.store, certificateId).value;
            var v := VerifyPresentedCode(p, TrustContext(key, issuer, skewSeconds), now);
            && (certificateId !in r.republished ==> v.Refused? && (v.stage == "issuer_status" || v.stage == "key_status"))
            && (issuer.status == "active" ==>
                  (v == Refused("key_status", "key-revoked") <==> certificateId !in r.republished))
  {
    RunKeepsInvariant(s, events, loads);
    RunKeepsBudget(s, events, loads);
    var r := Run(s, events, loads);
    var (key, issuer) := ResolveKey(r.store, certificateId).value;
    RevokedIsInStore(r, revoked, certificateId, k, loads);
    if key.state == "revoked" {
      RevokedKeyIsRefused(p, TrustContext(key, issuer, skewSeconds), now);
    }
    if issuer.status == "active" {
      RefusedAsRevokedExactly(p, TrustContext(key, issuer, skewSeconds), now);
    }
  }

  lemma RunAppend(s: System, events: seq<Event>, event: Event, loads: PemCheck)
    requires s.log != []
    ensures Run(s, events + [event], loads) == Next(Run(s, events, loads), event, loads)
  {
    assert (events + [event])[..|events|] == events;
  }

  /** The manager has confirmed the current version, and nobody holds the lock. */
  predicate Settled(r: System) {
    r.log != [] && r.phase.Free? && r.manager.token.Some? && Current(r).versionRow == r.manager.token
  }

  lemma ArriveStep(s: System, loads: PemCheck)
    requires s.log != []
    ensures Next(s, Arrive, loads) == s.(waiting := s.waiting + multiset{s.clock})
  {
  }

  lemma AcquireStep(s: System, now: Time, loads: PemCheck)
    requires s.log != [] && s.phase.Free? && now in s.waiting
    ensures Next(s, Acquire(now), loads) == s.(waiting := s.waiting - multiset{now}, phase := Connecting(now))
  {
  }

  /** A caller arrives and gets the free lock at once. */
  lemma TakeLock(s: System, events: seq<Event>, loads: PemCheck) returns (longer: seq<Event>)
    requires s.log != [] && Run(s, events, loads).phase.Free?
    ensures Run(s, longer, loads) == Run(s, events, loads).(phase := Connecting(Run(s, events, loads).clock))
  {
    var r := Run(s, events, loads);
    RunAppend(s, events, Arrive, loads);
    ArriveStep(r, loads);
    var arrived := r.(waiting := r.waiting + multiset{r.clock});
    longer := events + [Arrive] + [Acquire(r.clock)];
    RunAppend(s, events + [Arrive], Acquire(r.clock), loads);
    AcquireStep(arrived, r.clock, loads);
    assert r.waiting + multiset{r.clock} - multiset{r.clock} == r.waiting;
  }

  lemma QuietProbe(s: System, loads: PemCheck)
    requires s.log != [] && s.phase.Connecting? && s.manager.token.Some? && Current(s).versionRow == s.manager.token
    ensures var s' := Next(s, Probe, loads);
            && s'.log == s.log && s'.clock == s.clock && s'.store == s.store && s'.republished == s.republished
            && |s'.answers| == |s.answers| + 1
            && s'.answers[|s.answers|].kind == "reused" && s'.answers[|s.answers|].now == s.phase.now
  {
    ProbeStep(s, loads);
  }

  /** A caller arrives, gets the lock and finds the token unchanged. */
  lemma QuietRefresh(s: System, events: seq<Event>, loads: PemCheck) returns (longer: seq<Event>)
    requires s.log != [] && Settled(Run(s, events, loads))
    ensures var (r, r') := (Run(s, events, loads), Run(s, longer, loads));
            && r'.log == r.log && r'.clock == r.clock && r'.store == r.store && r'.republished == r.republished
            && |r'.answers| == |r.answers| + 1
            && r'.answers[|r.answers|].kind == "reused" && r'.answers[|r.answers|].now == r.clock
  {
    var holding := TakeLock(s, events, loads);
    longer := holding + [Probe];
    RunAppend(s, holding, Probe, loads);
    QuietProbe(Run(s, holding, loads), loads);
  }

  lemma ChangedProbe(s: System, loads: PemCheck)
    requires s.log != [] && s.phase.Connecting? && Current(s).versionRow.Some? && s.manager.token.None?
    ensures Next(s, Probe, loads) == s.(phase := Reading(s.phase.now, Current(s).versionRow.value))
  {
    ProbeStep(s, loads);
  }

  lemma ReadStep(s: System, loads: PemCheck)
    requires s.log != [] && s.phase.Reading?
    ensures Next(s, ReadSnapshot(Current(s)), loads) ==
            s.(phase := Installing(s.phase.now, s.phase.probed, |s.log| - 1, s.clock, Current(s)))
  {
  }

  lemma InstallStep(s: System, loads: PemCheck)
    requires s.log != [] && s.phase.Installing? && s.phase.fetched == Current(s) && Loadable(Current(s))
    requires s.manager.token.None?
    ensures var s' := Next(s, Install, loads);
            Settled(s') && s'.log == s.log && s'.clock == s.clock && s'.store == Reloaded(s.store, Current(s), loads)
  {
  }

  /** The first refresh of a process, with nothing in its way, installs the projection. */
  lemma FirstRefresh(s: System, loads: PemCheck) returns (events: seq<Event>)
    requires Initial(s) && Loadable(Current(s))
    ensures var r := Run(s, events, loads);
            Settled(r) && r.log == s.log && r.clock == s.clock && r.store == Reloaded(EMPTY_STORE, Current(s), loads)
  {
    var holding := TakeLock(s, [], loads);
    RunAppend(s, holding, Probe, loads);
    ChangedProbe(Run(s, holding, loads), loads);
    var probed := holding + [Probe];
    RunAppend(s, probed, ReadSnapshot(Current(s)), loads);
    ReadStep(Run(s, probed, loads), loads);
    var read := probed + [ReadSnapshot(Current(s))];
    events := read + [Install];
    RunAppend(s, read, Install, loads);
    InstallStep(Run(s, read, loads), loads);
  }

  /** Removing a key forgets that it was revoked, so it can be published anew. */
  lemma RemoveThenPut(store: StoreState, entry: KeyEntry)
    requires entry.state in VERIFYING_STATES && entry.publicKeyPem.Some?
    ensures var removed := ApplyOp(store, RemoveKey(entry.keyRef));
            && ApplyOp(removed, PutKey(entry)) == store.(keys := store.keys[entry.keyRef := entry])
            && forall before :: entry.keyRef in Republished(removed, PutKey(entry), before)
  {
    assert (store.keys - {entry.keyRef})[entry.keyRef := entry] == store.keys[entry.keyRef := entry];
  }

  lemma LocalStep(s: System, op: StoreOp, loads: PemCheck)
    requires s.log != []
    ensures var s' := Next(s, PublishLocally(op), loads);
            && s'.log == s.log && s'.clock == s.clock && s'.phase == s.phase && s'.manager == s.manager
            && s'.store == ApplyOp(s.store, op) && s'.republished == Republished(s.store, op, s.republished)
  {
  }

  lemma TickStep(s: System, delta: nat, loads: PemCheck)
    requires s.log != []
    ensures Next(s, Tick(delta), loads) == s.(clock := s.clock + delta)
  {
  }

  lemma RunLocally(s: System, events: seq<Event>, op: StoreOp, loads: PemCheck) returns (longer: seq<Event>)
    requires s.log != []
    ensures var (r, r') := (Run(s, events, loads), Run(s, longer, loads));
            && r'.log == r.log && r'.clock == r.clock && r'.phase == r.phase && r'.manager == r.manager
            && r'.store == ApplyOp(r.store, op) && r'.republished == Republished(r.store, op, r.republished)
  {
    longer := events + [PublishLocally(op)];
    RunAppend(s, events, PublishLocally(op), loads);
    LocalStep(Run(s, events, loads), op, loads);
  }

  lemma RunTick(s: System, events: seq<Event>, delta: nat, loads: PemCheck) returns (longer: seq<Event>)
    requires s.log != []
    ensures Run(s, longer, loads) == Run(s, events, loads).(clock := Run(s, events, loads).clock + delta)
  {
    longer := events + [Tick(delta)];
    RunAppend(s, events, Tick(delta), loads);
    TickStep(Run(s, events, loads), delta, loads);
  }

  /** The same as steps of a run, with any wait after them. */
  lemma RepublishedRun(s: System, events: seq<Event>, entry: KeyEntry, delta: nat, loads: PemCheck)
    returns (longer: seq<Event>)
    requires s.log != [] && Settled(Run(s, events, loads))
    requires entry.state in VERIFYING_STATES && entry.publicKeyPem.Some?
    ensures var (r, r') := (Run(s, events, loads), Run(s, longer, loads));
            && Settled(r') && r'.log == r.log && r'.clock == r.clock + delta
            && r'.store == r.store.(keys := r.store.keys[entry.keyRef := entry]) && entry.keyRef in r'.republished
  {
    RemoveThenPut(Run(s, events, loads).store, entry);
    var removed := RunLocally(s, events, RemoveKey(entry.keyRef), loads);
    var published := RunLocally(s, removed, PutKey(entry), loads);
    longer := RunTick(s, published, delta, loads);
  }

  /**
   * The failing input: from a process start over any loadable state that holds a certificate as revoked, a
   * run that removes the key, republishes it as active and then refreshes, as long afterwards as one likes.
   * The answer is "reused", the certificate still durably revoked, and the verifier works with the active key.
   */
  lemma RepublishedKeyIsReused(s: System, entry: KeyEntry, delta: nat, loads: PemCheck) returns (events: seq<Event>)
    requires Initial(s) && Loadable(Current(s)) && IsRevoked(Current(s).tables, entry.keyRef)
    requires entry.state == "active" && entry.publicKeyPem.Some?
    requires entry.issuerId in Projection(Current(s), loads).issuers
    ensures var r := Run(s, events, loads);
            && r.answers != [] && r.clock == s.clock + delta && IsRevoked(Current(r).tables, entry.keyRef)
            && r.answers[|r.answers| - 1].kind == "reused" && r.answers[|r.answers| - 1].now == r.clock
            && ResolveKey(r.store, entry.keyRef) == Some((entry, Projection(Current(s), loads).issuers[entry.issuerId]))
            && entry.keyRef in r.republished
  {
    var loaded := FirstRefresh(s, loads);
    var republished := RepublishedRun(s, loaded, entry, delta, loads);
    events := QuietRefresh(s, republished, loads);
    InstallProjects(EMPTY_STORE, Current(s), loads);
    assert entry.issuerId in ProjectedSlice(Reloaded(EMPTY_STORE, Current(s), loads)).issuers;
  }
}

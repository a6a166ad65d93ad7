/**
 * The control plane's one write path: an idempotency key, the state change, the token
 * bump, the audit row and the outbox event share a transaction, so a call either does
 * all of it once or leaves no trace, whatever statement the connection dies on.
 */
module Governance {
  import opened Wrappers
  import opened TrustRules
  import opened TrustDatabase
  import opened EventKeys

  const DAY: Time := 24 * 3600 * SECOND

  datatype Principal = Principal(operatorId: string, keyId: string, scopes: set<string>)

  datatype Mutation = Mutation(
    action: string,
    targetType: string,
    targetId: string,
    rootProgramId: Option<string>,
    delegatedAuthorityId: Option<string>,
    issuerId: Option<string>,
    write: TrustWrite,
    afterJson: string,
    eventType: string,
    requireStateRows: bool,
    trustStateBump: bool)

  /** What a caller learns about an applied mutation. */
  datatype MutationResult = MutationResult(stateRows: nat, auditRows: nat, outboxRows: nat)

  datatype AuditRow = AuditRow(principal: Principal, mutation: Mutation, requestId: string, idempotencyKey: Option<string>)

  datatype IdempotencyRow = IdempotencyRow(
    requestHash: string, status: string, response: Option<MutationResult>, expiresAt: Time)

  /** Everything the transaction writes: outbox rows are keyed by event id. */
  datatype Ledger = Ledger(
    trust: TrustState,
    audit: seq<AuditRow>,
    outbox: map<string, Mutation>,
    idempotency: map<string, IdempotencyRow>)

  /** One call; `now` is the transaction's `now()`, `freshEpoch` what a new version row would draw. */
  datatype Call = Call(
    principal: Principal,
    mutation: Mutation,
    requestId: string,
    idempotencyKey: Option<string>,
    now: Time,
    freshEpoch: string)

  datatype Outcome =
    | Applied(result: MutationResult)
    | Replayed(result: MutationResult)
    | Conflict
    | InProgress
    | PreconditionFailed
    | StatementFailed(error: SqlError)
    | ConnectionLost

  /** The canonical JSON digest of a principal and a mutation. */
  type RequestHash = (Principal, Mutation) -> string

  // ----- Identities -----

  /** An empty key counts as no key. */
  predicate Keyed(c: Call) {
    c.idempotencyKey.Some? && c.idempotencyKey.value != ""
  }

  function DeduplicationKey(c: Call, hash: RequestHash): string {
    if Keyed(c) then c.idempotencyKey.value + ":" + hash(c.principal, c.mutation) + ":" + c.requestId
    else c.requestId
  }

  function KindOf(m: Mutation): Kind {
    (m.action, m.targetType)
  }

  /** The text the event id is a digest of; the digest is taken to be injective. */
  function EventMaterial(deduplicationKey: string, m: Mutation): string {
    EventText(deduplicationKey, KindOf(m), m.targetId)
  }

  function EventId(c: Call, hash: RequestHash): string {
    EventMaterial(DeduplicationKey(c, hash), c.mutation)
  }

  function AuditRowOf(c: Call): AuditRow {
    AuditRow(c.principal, c.mutation, c.requestId, c.idempotencyKey)
  }

  // ----- One transaction, as a function of the committed ledger -----

  datatype Begun = Proceed(rows: map<string, IdempotencyRow>) | Settled(outcome: Outcome)

  /** Claims the key when it is free or expired; otherwise the stored row decides. */
  function Begin(rows: map<string, IdempotencyRow>, key: string, requestHash: string, now: Time): Begun {
    if key !in rows || rows[key].expiresAt <= now then
      Proceed(rows[key := IdempotencyRow(requestHash, "processing", None, now + DAY)])
    else if rows[key].requestHash != requestHash then Settled(Conflict)
    else if rows[key].status == "completed" && rows[key].response.Some? then Settled(Replayed(rows[key].response.value))
    else Settled(InProgress)
  }

  /** The row count a call reports: `changed_rows`, or the command tag's, which counts no plain update. */
  function ReportedRows(m: Mutation, changedRows: nat): nat {
    if m.requireStateRows then changedRows
    else
      match m.write
      case SetCertificateStatus(_, _, _) => 0
      case UpsertDomainProof(_) => 1
      case _ => changedRows
  }

  datatype Recorded = Recorded(ledger: Ledger, outcome: Outcome)

  /** The whole call when nothing fails under it. */
  function Record(db: Ledger, c: Call, hash: RequestHash): Recorded {
    var requestHash := hash(c.principal, c.mutation);
    var begun := if Keyed(c) then Begin(db.idempotency, c.idempotencyKey.value, requestHash, c.now) else Proceed(db.idempotency);
    match begun
    case Settled(outcome) => Recorded(db, outcome)
    case Proceed(rows) =>
      match Execute(db.trust.tables, c.mutation.write, c.now)
      case Err(error) => Recorded(db, StatementFailed(error))
      case Ok(effect) =>
        if c.mutation.requireStateRows && effect.changedRows == 0 then Recorded(db, PreconditionFailed)
        else
          var versionRow :=
            if c.mutation.trustStateBump then Some(Bumped(db.trust.versionRow, c.freshEpoch)) else db.trust.versionRow;
          var id := EventId(c, hash);
          var result := MutationResult(
            ReportedRows(c.mutation, effect.changedRows), 1, if id in db.outbox then 0 else 1);
          Recorded(
            Ledger(
              TrustState(effect.tables, versionRow),
              db.audit + [AuditRowOf(c)],
              if id in db.outbox then db.outbox else db.outbox[id := c.mutation],
              if Keyed(c)
              then rows[c.idempotencyKey.value :=
                     rows[c.idempotencyKey.value].(status := "completed", response := Some(result))]
              else rows),
            Applied(result))
  }

  // ----- The service -----

  datatype Statement = BeginStatement | StateStatement | BumpStatement | AuditStatement | OutboxStatement | CompleteStatement

  /** Where the connection dies, if it does: under a statement, or after the commit reached the database. */
  datatype Fault = NoFault | DiesUnder(statement: Statement) | ReplyLost

  class ManagementPlaneService {
    var committed: Ledger

    constructor (db: Ledger)
      ensures committed == db
    {
      committed := db;
    }

    /** `insert ... on conflict do update ... where expires_at <= now()`, then the select of the surviving row. */
    static method BeginIdempotentMutation(rows: map<string, IdempotencyRow>, key: string, requestHash: string, now: Time)
      returns (rows': map<string, IdempotencyRow>, settled: Option<Outcome>)
      ensures match Begin(rows, key, requestHash, now)
              case Proceed(claimed) => rows' == claimed && settled == None
              case Settled(outcome) => rows' == rows && settled == Some(outcome)
    {
      rows' := rows;
      var inserted := 0;
      if key !in rows || rows[key].expiresAt <= now {
        rows' := rows[key := IdempotencyRow(requestHash, "processing", None, now + DAY)];
        inserted := 1;
      }
      if inserted > 0 {
        return rows', None;
      }
      var row := rows[key];
      if row.requestHash != requestHash {
        return rows', Some(Conflict);
      }
      if row.status == "completed" && row.response.Some? {
        return rows', Some(Replayed(row.response.value));
      }
      return rows', Some(InProgress);
    }

    /**
     * Runs the call in one transaction. A fault under a statement that is reached rolls everything
     * back; a lost reply leaves the committed effect behind and the caller none the wiser.
     */
    method RecordGovernanceMutation(c: Call, hash: RequestHash, fault: Fault) returns (outcome: Outcome)
      modifies this
      ensures fault == NoFault ==> Recorded(committed, outcome) == Record(old(committed), c, hash)
      ensures fault == ReplyLost ==> committed == Record(old(committed), c, hash).ledger && outcome == ConnectionLost
      ensures fault.DiesUnder? ==>
                || Recorded(committed, outcome) == Record(old(committed), c, hash)
                || (committed == old(committed) && outcome == ConnectionLost)
    {
      var tx := committed;
      var requestHash := hash(c.principal, c.mutation);
      if Keyed(c) {
        if fault == DiesUnder(BeginStatement) {
          return ConnectionLost;
        }
        var rows, settled := BeginIdempotentMutation(tx.idempotency, c.idempotencyKey.value, requestHash, c.now);
        if settled.Some? {
          return if fault == ReplyLost then ConnectionLost else settled.value;
        }
        tx := tx.(idempotency := rows);
      }

      if fault == DiesUnder(StateStatement) {
        return ConnectionLost;
      }
      var effect := Execute(tx.trust.tables, c.mutation.write, c.now);
      if effect.Err? {
        return if fault == ReplyLost then ConnectionLost else StatementFailed(effect.error);
      }
      if c.mutation.requireStateRows && effect.value.changedRows == 0 {
        return if fault == ReplyLost then ConnectionLost else PreconditionFailed;
      }
      var stateRows := ReportedRows(c.mutation, effect.value.changedRows);
      tx := tx.(trust := tx.trust.(tables := effect.value.tables));

      if c.mutation.trustStateBump {
        if fault == DiesUnder(BumpStatement) {
          return ConnectionLost;
        }
        tx := tx.(trust := tx.trust.(versionRow := Some(Bumped(tx.trust.versionRow, c.freshEpoch))));
      }

      if fault == DiesUnder(AuditStatement) {
        return ConnectionLost;
      }
      tx := tx.(audit := tx.audit + [AuditRowOf(c)]);

      if fault == DiesUnder(OutboxStatement) {
        return ConnectionLost;
      }
      var id := EventId(c, hash);
      var outboxRows := 0;
      if id !in tx.outbox {
        tx := tx.(outbox := tx.outbox[id := c.mutation]);
        outboxRows := 1;
      }

      var result := MutationResult(stateRows, 1, outboxRows);
      if Keyed(c) {
        if fault == DiesUnder(CompleteStatement) {
          return ConnectionLost;
        }
        var key := c.idempotencyKey.value;
        tx := tx.(idempotency := tx.idempotency[key :=
                    tx.idempotency[key].(status := "completed", response := Some(result))]);
      }
      committed := tx;
      return if fault == ReplyLost then ConnectionLost else Applied(result);
    }
  }

  // ----- What one call does to the trust state -----

  /** The builder set the bump flag for exactly the statements that touch trust rows. */
  predicate WellBuilt(m: Mutation) {
    m.trustStateBump == BumpsToken(m.write)
  }

  /** The call gets past its idempotency key. */
  predicate Proceeds(db: Ledger, c: Call, hash: RequestHash) {
    Keyed(c) ==> Begin(db.idempotency, c.idempotencyKey.value, hash(c.principal, c.mutation), c.now).Proceed?
  }

  /**
   * A call that proceeds does to the trust tables and the token exactly what the projection protocol's
   * commit step does; one that does not proceed changes nothing at all; only applied calls change anything.
   */
  lemma CallIsOneCommit(db: Ledger, c: Call, hash: RequestHash)
    requires WellBuilt(c.mutation)
    ensures var r := Record(db, c, hash);
            && (Proceeds(db, c, hash) ==>
                  r.ledger.trust == Commit(db.trust, c.mutation.write, c.mutation.requireStateRows, c.freshEpoch, c.now))
            && (!Proceeds(db, c, hash) ==> r.ledger == db)
            && (!r.outcome.Applied? ==> r.ledger == db)
            && (r.ledger.trust.tables != db.trust.tables ==> r.ledger.trust.versionRow != db.trust.versionRow)
  {
    if Execute(db.trust.tables, c.mutation.write, c.now).Ok?
       && Execute(db.trust.tables, c.mutation.write, c.now).value.tables != db.trust.tables {
      ProjectedWritesBump(db.trust.tables, c.mutation.write, c.now);
    }
  }

  // ----- Serial histories -----

  /** A call in a history; `survives` is false when a fault rolled its transaction back. */
  datatype Entry = Entry(call: Call, survives: bool)

  function After(db: Ledger, e: Entry, hash: RequestHash): Ledger {
    if e.survives then Record(db, e.call, hash).ledger else db
  }

  function Run(db: Ledger, entries: seq<Entry>, hash: RequestHash): Ledger {
    if entries == [] then db
    else After(Run(db, entries[..|entries| - 1], hash), entries[|entries| - 1], hash)
  }

  /** The ledger entry `i` of the history finds. */
  function Before(db: Ledger, entries: seq<Entry>, i: nat, hash: RequestHash): Ledger
    requires i <= |entries|
  {
    Run(db, entries[..i], hash)
  }

  function OutcomeAt(db: Ledger, entries: seq<Entry>, i: nat, hash: RequestHash): Outcome
    requires i < |entries|
  {
    Record(Before(db, entries, i, hash), entries[i].call, hash).outcome
  }

  /** Entry `i` applied its mutation, whether or not the caller heard back. */
  predicate AppliedAt(db: Ledger, entries: seq<Entry>, i: nat, hash: RequestHash)
    requires i < |entries|
  {
    entries[i].survives && OutcomeAt(db, entries, i, hash).Applied?
  }

  lemma BeforeNext(db: Ledger, entries: seq<Entry>, i: nat, hash: RequestHash)
    requires i < |entries|
    ensures Before(db, entries, i + 1, hash) == After(Before(db, entries, i, hash), entries[i], hash)
  {
    assert entries[..i + 1][..i] == entries[..i];
  }

  lemma RunOne(db: Ledger, entries: seq<Entry>, e: Entry, hash: RequestHash)
    ensures Run(db, entries + [e], hash) == After(Run(db, entries, hash), e, hash)
  {
    assert (entries + [e])[..|entries|] == entries;
  }

  /**
   * The service under any faults: calls served one after the other, each with the fault that befalls it,
   * leave the ledger some serial history of just these calls leaves.
   */
  method ServeAll(service: ManagementPlaneService, calls: seq<Call>, faults: seq<Fault>, hash: RequestHash)
    returns (outcomes: seq<Outcome>, ghost entries: seq<Entry>)
    requires |faults| == |calls|
    modifies service
    ensures |entries| == |outcomes| == |calls|
    ensures forall i :: 0 <= i < |calls| ==> entries[i].call == calls[i]
    ensures service.committed == Run(old(service.committed), entries, hash)
    ensures forall i :: 0 <= i < |calls| ==>
              && (faults[i].DiesUnder? || entries[i].survives)
              && (outcomes[i] != ConnectionLost ==>
                    entries[i].survives && outcomes[i] == OutcomeAt(old(service.committed), entries, i, hash))
  {
    outcomes, entries := [], [];
    for i := 0 to |calls|
      invariant |entries| == |outcomes| == i
      invariant forall j :: 0 <= j < i ==> entries[j].call == calls[j]
      invariant service.committed == Run(old(service.committed), entries, hash)
      invariant forall j :: 0 <= j < i ==>
                  && (faults[j].DiesUnder? || entries[j].survives)
                  && (outcomes[j] != ConnectionLost ==>
                        entries[j].survives && outcomes[j] == OutcomeAt(old(service.committed), entries, j, hash))
    {
      ghost var before := service.committed;
      var outcome := service.RecordGovernanceMutation(calls[i], hash, faults[i]);
      ghost var e := Entry(calls[i], outcome != ConnectionLost || faults[i] == ReplyLost);
      RunOne(old(service.committed), entries, e, hash);
      OutcomesKept(old(service.committed), entries, e, hash);
      outcomes, entries := outcomes + [outcome], entries + [e];
    }
  }

  lemma OutcomesKept(db: Ledger, entries: seq<Entry>, e: Entry, hash: RequestHash)
    ensures forall j :: 0 <= j < |entries| ==> OutcomeAt(db, entries + [e], j, hash) == OutcomeAt(db, entries, j, hash)
    ensures OutcomeAt(db, entries + [e], |entries|, hash) == Record(Run(db, entries, hash), e.call, hash).outcome
  {
    assert forall j :: 0 <= j <= |entries| ==> (entries + [e])[..j] == entries[..j];
    assert entries[..|entries|] == entries;
  }

  // ----- No committed row is ever "processing" -----

  predicate AllCompleted(rows: map<string, IdempotencyRow>) {
    forall key :: key in rows ==> rows[key].status == "completed" && rows[key].response.Some?
  }

  /** Between calls every idempotency row is completed with a response, so no serial caller is told to wait. */
  lemma {:induction false} NoCommittedRowIsProcessing(db: Ledger, entries: seq<Entry>, hash: RequestHash, c: Call)
    requires AllCompleted(db.idempotency)
    ensures AllCompleted(Run(db, entries, hash).idempotency)
    ensures Record(Run(db, entries, hash), c, hash).outcome != InProgress
    decreases |entries|
  {
    if entries != [] {
      NoCommittedRowIsProcessing(db, entries[..|entries| - 1], hash, entries[|entries| - 1].call);
    }
  }

  // ----- At most once per validity period -----

  predicate UsesKey(c: Call, key: string) {
    Keyed(c) && c.idempotencyKey.value == key
  }

  /** However the clocks of later calls run, a claimed key's expiry only moves forward. */
  lemma {:induction false} ExpiryOnlyGrows(db: Ledger, entries: seq<Entry>, i: nat, j: nat, hash: RequestHash, key: string)
    requires i <= j <= |entries| && key in Before(db, entries, i, hash).idempotency
    ensures key in Before(db, entries, j, hash).idempotency
    ensures Before(db, entries, i, hash).idempotency[key].expiresAt <= Before(db, entries, j, hash).idempotency[key].expiresAt
    decreases j - i
  {
    if i < j {
      ExpiryOnlyGrows(db, entries, i, j - 1, hash, key);
      BeforeNext(db, entries, j - 1, hash);
    }
  }

  /** Two applications under one key lie at least the whole validity period, a day in microseconds, apart. */
  lemma AppliesAtMostOncePerPeriod(db: Ledger, entries: seq<Entry>, i: nat, j: nat, hash: RequestHash, key: string)
    requires i < j < |entries| && AppliedAt(db, entries, i, hash) && AppliedAt(db, entries, j, hash)
    requires UsesKey(entries[i].call, key) && UsesKey(entries[j].call, key)
    ensures entries[i].call.now + 86_400_000_000 <= entries[j].call.now
  {
    BeforeNext(db, entries, i, hash);
    ExpiryOnlyGrows(db, entries, i + 1, j, hash, key);
  }

  // ----- Replays -----

  predicate ClockRuns(entries: seq<Entry>) {
    forall i, j :: 0 <= i <= j < |entries| ==> entries[i].call.now <= entries[j].call.now
  }

  /** Until its expiry nothing rewrites a key's row. */
  lemma {:induction false} RowStaysUntilExpiry(db: Ledger, entries: seq<Entry>, i: nat, j: nat, hash: RequestHash, key: string)
    requires i <= j < |entries| && ClockRuns(entries) && key in Before(db, entries, i, hash).idempotency
    requires entries[j].call.now < Before(db, entries, i, hash).idempotency[key].expiresAt
    ensures key in Before(db, entries, j, hash).idempotency
    ensures Before(db, entries, j, hash).idempotency[key] == Before(db, entries, i, hash).idempotency[key]
    decreases j - i
  {
    if i < j {
      RowStaysUntilExpiry(db, entries, i, j - 1, hash, key);
      BeforeNext(db, entries, j - 1, hash);
    }
  }

  /**
   * Within the validity period of an applied call, the same key with the same request returns the
   * recorded result, with a different request is refused, and in both cases changes nothing.
   */
  lemma ReplayReturnsTheRecord(db: Ledger, entries: seq<Entry>, i: nat, j: nat, hash: RequestHash, key: string)
    requires i < j < |entries| && ClockRuns(entries) && AppliedAt(db, entries, i, hash)
    requires UsesKey(entries[i].call, key) && UsesKey(entries[j].call, key)
    requires entries[j].call.now < entries[i].call.now + 86_400_000_000
    ensures var (first, again) := (entries[i].call, entries[j].call);
            Record(Before(db, entries, j, hash), again, hash) == Recorded(
              Before(db, entries, j, hash),
              if hash(again.principal, again.mutation) == hash(first.principal, first.mutation)
              then Replayed(OutcomeAt(db, entries, i, hash).result) else Conflict)
  {
    BeforeNext(db, entries, i, hash);
    RowStaysUntilExpiry(db, entries, i + 1, j, hash, key);
  }

  // ----- Conservation -----

  /** The calls of a history that applied, in order. */
  function AppliedCalls(db: Ledger, entries: seq<Entry>, hash: RequestHash): seq<Call> {
    if entries == [] then []
    else
      var n := |entries| - 1;
      AppliedCalls(db, entries[..n], hash)
      + if AppliedAt(db, entries, n, hash) then [entries[n].call] else []
  }

  function AuditTrail(calls: seq<Call>): seq<AuditRow> {
    seq(|calls|, i requires 0 <= i < |calls| =>
      AuditRow(calls[i].principal, calls[i].mutation, calls[i].requestId, calls[i].idempotencyKey))
  }

  /** The trust state after one commit of the projection protocol for each call. */
  function CommitAll(trust: TrustState, calls: seq<Call>): TrustState {
    if calls == [] then trust
    else
      var (before, c) := (CommitAll(trust, calls[..|calls| - 1]), calls[|calls| - 1]);
      Commit(before, c.mutation.write, c.mutation.requireStateRows, c.freshEpoch, c.now)
  }

  lemma AppendedTrail(calls: seq<Call>, c: Call, trust: TrustState)
    ensures AuditTrail(calls + [c]) == AuditTrail(calls) + [AuditRowOf(c)]
    ensures CommitAll(trust, calls + [c]) ==
            Commit(CommitAll(trust, calls), c.mutation.write, c.mutation.requireStateRows, c.freshEpoch, c.now)
  {
    assert (calls + [c])[..|calls|] == calls;
  }

  /** One entry either applies, with all its effects, or changes nothing. */
  lemma StepEffect(db: Ledger, e: Entry, hash: RequestHash)
    ensures var c := e.call;
            var db' := After(db, e, hash);
            if e.survives && Record(db, c, hash).outcome.Applied? then
              && db'.audit == db.audit + [AuditRowOf(c)]
              && db'.outbox.Keys == db.outbox.Keys + {EventId(c, hash)}
              && (WellBuilt(c.mutation) ==>
                    db'.trust == Commit(db.trust, c.mutation.write, c.mutation.requireStateRows, c.freshEpoch, c.now))
            else db' == db
  {
  }

  /**
   * A history leaves exactly its applied mutations behind: one audit row each, in order, and the trust
   * state that committing just those writes gives. Aborted, replayed and refused calls leave nothing.
   */
  lemma {:induction false} HistoryIsItsAppliedCalls(db: Ledger, entries: seq<Entry>, hash: RequestHash)
    requires forall i :: 0 <= i < |entries| ==> WellBuilt(entries[i].call.mutation)
    ensures var r := Run(db, entries, hash);
            && r.audit == db.audit + AuditTrail(AppliedCalls(db, entries, hash))
            && r.trust == CommitAll(db.trust, AppliedCalls(db, entries, hash))
    decreases |entries|
  {
    if entries != [] {
      var n := |entries| - 1;
      var init, e := entries[..n], entries[n];
      HistoryIsItsAppliedCalls(db, init, hash);
      StepEffect(Run(db, init, hash), e, hash);
      var calls := AppliedCalls(db, init, hash);
      AppendedTrail(calls, e.call, db.trust);
      assert calls + [] == calls;
      assert WellBuilt(e.call.mutation);
    }
  }

  // ----- Outbox -----

  function EventIds(calls: seq<Call>, hash: RequestHash): set<string> {
    set c | c in calls :: EventId(c, hash)
  }

  lemma AppendedEvents(calls: seq<Call>, c: Call, hash: RequestHash)
    ensures EventIds(calls + [c], hash) == EventIds(calls, hash) + {EventId(c, hash)}
  {
    assert c in calls + [c];
    assert forall d :: d in calls ==> d in calls + [c];
  }

  /** The event ids of the applied calls, and nothing else, joined those already in the outbox. */
  lemma {:induction false} OutboxIsAppliedEvents(db: Ledger, entries: seq<Entry>, hash: RequestHash)
    ensures Run(db, entries, hash).outbox.Keys ==
            db.outbox.Keys + EventIds(AppliedCalls(db, entries, hash), hash)
    decreases |entries|
  {
    if entries != [] {
      var n := |entries| - 1;
      OutboxIsAppliedEvents(db, entries[..n], hash);
      StepEffect(Run(db, entries[..n], hash), entries[n], hash);
      AppendedEvents(AppliedCalls(db, entries[..n], hash), entries[n].call, hash);
    }
  }

  function Renamed(m: Mutation, action: string, targetType: string, targetId: string): Mutation {
    m.(action := action, targetType := targetType, targetId := targetId)
  }

  /**
   * Request ids and target ids may contain ':', so two requests with distinct ids, one action and one
   * target type can share one event: the id of the second spells out the first's action and target.
   */
  lemma DistinctRequestIdsMayShareAnEvent(r: string, m: Mutation, a: string, t: string, i: string, j: string)
    ensures r + ":" + a + ":" + t + ":" + i != r
    ensures EventMaterial(r + ":" + a + ":" + t + ":" + i, Renamed(m, a, t, j)) ==
            EventMaterial(r, Renamed(m, a, t, i + ":" + a + ":" + t + ":" + j))
  {
    var long := r + ":" + a + ":" + t + ":" + i;
    var rest := Colon(a, Colon(t, j));
    EventFields(long, (a, t), j);
    EventFields(r, (a, t), Colon(i, rest));
    assert long == EventText(r, (a, t), i);
    EventFields(r, (a, t), i);
    ColonAssociates(t, i, rest);
    ColonAssociates(a, Colon(t, i), rest);
    ColonAssociates(r, Colon(a, Colon(t, i)), rest);
    EventFields(i, (a, t), j);
    assert i + ":" + a + ":" + t + ":" + j == EventText(i, (a, t), j);
  }

  /** An applied call reports an outbox row exactly when it adds one, which it does exactly for a new event. */
  lemma StepEmits(db: Ledger, e: Entry, hash: RequestHash)
    ensures var applied := e.survives && Record(db, e.call, hash).outcome.Applied?;
            && (!applied ==> After(db, e, hash).outbox == db.outbox)
            && (applied ==>
                  var rows := Record(db, e.call, hash).outcome.result.outboxRows;
                  && rows == (if EventId(e.call, hash) in db.outbox then 0 else 1)
                  && |After(db, e, hash).outbox| == |db.outbox| + rows)
  {
  }

  /** Calls whose mutations use the vocabulary. */
  predicate OfKinds(calls: seq<Call>, kinds: set<Kind>) {
    forall i :: 0 <= i < |calls| ==> KindOf(calls[i].mutation) in kinds
  }

  predicate NoCollisions(calls: seq<Call>, kinds: set<Kind>, hash: RequestHash) {
    forall i, j :: 0 <= i < j < |calls| ==>
      !CanCollide(kinds, DeduplicationKey(calls[i], hash), DeduplicationKey(calls[j], hash))
  }

  /** The id is some key's event, and that key cannot collide with any of the calls'. */
  ghost predicate SafelySpelled(id: string, calls: seq<Call>, kinds: set<Kind>, hash: RequestHash) {
    exists key, kind, targetId ::
      && kind in kinds && id == EventText(key, kind, targetId)
      && forall i :: 0 <= i < |calls| ==> !CanCollide(kinds, key, DeduplicationKey(calls[i], hash))
  }

  /** No event of the vocabulary at all, as the outbox rows of other writers are. */
  ghost predicate Foreign(id: string, kinds: set<Kind>) {
    forall key, kind, targetId :: kind in kinds ==> id != EventText(key, kind, targetId)
  }

  ghost predicate HarmlessOutbox(db: Ledger, calls: seq<Call>, kinds: set<Kind>, hash: RequestHash) {
    forall id :: id in db.outbox ==> Foreign(id, kinds) || SafelySpelled(id, calls, kinds, hash)
  }

  lemma HarmlessIdsDiffer(id: string, calls: seq<Call>, k: nat, kinds: set<Kind>, hash: RequestHash)
    requires Separable(kinds) && OfKinds(calls, kinds) && k < |calls|
    requires Foreign(id, kinds) || SafelySpelled(id, calls, kinds, hash)
    ensures id != EventId(calls[k], hash)
  {
    var c := calls[k];
    if SafelySpelled(id, calls, kinds, hash) && id == EventId(c, hash) {
      var key, kind, targetId :| && kind in kinds && id == EventText(key, kind, targetId)
                                 && forall i :: 0 <= i < |calls| ==> !CanCollide(kinds, key, DeduplicationKey(calls[i], hash));
      EqualEventsCollide(kinds, key, kind, targetId, DeduplicationKey(c, hash), KindOf(c.mutation), c.mutation.targetId);
    }
  }

  /** A call's event is new when neither the outbox nor an earlier call can have spelled it. */
  lemma EventIsNew(db: Ledger, calls: seq<Call>, k: nat, kinds: set<Kind>, hash: RequestHash)
    requires Separable(kinds) && OfKinds(calls, kinds) && k < |calls|
    requires NoCollisions(calls, kinds, hash) && HarmlessOutbox(db, calls, kinds, hash)
    ensures EventId(calls[k], hash) !in db.outbox.Keys + EventIds(calls[..k], hash)
  {
    forall id | id in db.outbox ensures id != EventId(calls[k], hash) {
      HarmlessIdsDiffer(id, calls, k, kinds, hash);
    }
    EarlierEventsDiffer(calls, k, kinds, hash);
  }

  lemma NextEventIsNew(db: Ledger, init: seq<Entry>, calls: seq<Call>, kinds: set<Kind>, hash: RequestHash)
    requires Separable(kinds) && OfKinds(calls, kinds)
    requires NoCollisions(calls, kinds, hash) && HarmlessOutbox(db, calls, kinds, hash)
    requires AppliedCalls(db, init, hash) < calls
    ensures EventId(calls[|AppliedCalls(db, init, hash)|], hash) !in Run(db, init, hash).outbox
  {
    var earlier := AppliedCalls(db, init, hash);
    assert earlier == calls[..|earlier|];
    OutboxIsAppliedEvents(db, init, hash);
    EventIsNew(db, calls, |earlier|, kinds, hash);
  }

  /**
   * From an outbox whose ids cannot collide with the calls', when no two applied calls have keys that can
   * collide, every applied call adds and reports exactly one event. The mutations use any separable
   * vocabulary, such as the builders'.
   */
  lemma {:induction false} EachAppliedCallEmitsOneEvent(
    db: Ledger, entries: seq<Entry>, calls: seq<Call>, kinds: set<Kind>, hash: RequestHash)
    requires Separable(kinds) && OfKinds(calls, kinds) && AppliedCalls(db, entries, hash) <= calls
    requires NoCollisions(calls, kinds, hash) && HarmlessOutbox(db, calls, kinds, hash)
    ensures |Run(db, entries, hash).outbox| == |db.outbox| + |AppliedCalls(db, entries, hash)|
    ensures forall i :: 0 <= i < |entries| && AppliedAt(db, entries, i, hash) ==>
              OutcomeAt(db, entries, i, hash).result.outboxRows == 1
    decreases |entries|
  {
    if entries != [] {
      var n := |entries| - 1;
      var init := entries[..n];
      var earlier := AppliedCalls(db, init, hash);
      assert earlier == calls[..|earlier|];
      EachAppliedCallEmitsOneEvent(db, init, calls, kinds, hash);
      PrefixOutcomes(db, entries, n, hash);
      StepEmits(Run(db, init, hash), entries[n], hash);
      if AppliedAt(db, entries, n, hash) {
        assert calls[|earlier|] == entries[n].call;
        NextEventIsNew(db, init, calls, kinds, hash);
      }
    }
  }

  /** A prefix of a history has the outcomes the history has. */
  lemma PrefixOutcomes(db: Ledger, entries: seq<Entry>, n: nat, hash: RequestHash)
    requires n <= |entries|
    ensures forall i :: 0 <= i < n ==> AppliedAt(db, entries[..n], i, hash) == AppliedAt(db, entries, i, hash)
    ensures forall i :: 0 <= i < n ==> OutcomeAt(db, entries[..n], i, hash) == OutcomeAt(db, entries, i, hash)
  {
    forall i | 0 <= i < n
      ensures OutcomeAt(db, entries[..n], i, hash) == OutcomeAt(db, entries, i, hash)
    {
      assert entries[..n][..i] == entries[..i];
    }
  }

  lemma EarlierEventsDiffer(calls: seq<Call>, k: nat, kinds: set<Kind>, hash: RequestHash)
    requires Separable(kinds) && OfKinds(calls, kinds) && NoCollisions(calls, kinds, hash) && k < |calls|
    ensures EventId(calls[k], hash) !in EventIds(calls[..k], hash)
  {
    forall c | c in calls[..k] ensures EventId(c, hash) != EventId(calls[k], hash) {
      var i :| 0 <= i < k && calls[i] == c;
      if EventId(c, hash) == EventId(calls[k], hash) {
        EqualEventsCollide(
          kinds, DeduplicationKey(c, hash), KindOf(c.mutation), c.mutation.targetId,
          DeduplicationKey(calls[k], hash), KindOf(calls[k].mutation), calls[k].mutation.targetId);
      }
    }
  }
}

/**
 * Which of its outcomes a governance call has, and what an applied call leaves behind, in terms of the call
 * and the stored rows.
 */
module GovernanceOutcomes {
  import opened Wrappers
  import opened TrustRules
  import opened TrustDatabase
  import opened EventKeys
  import opened Governance

  /** The call brings a key whose stored row has not expired. */
  predicate KeyIsHeld(db: Ledger, c: Call) {
    && c.idempotencyKey.Some? && c.idempotencyKey.value != "" && c.idempotencyKey.value in db.idempotency
    && c.now < db.idempotency[c.idempotencyKey.value].expiresAt
  }

  predicate SameRequest(db: Ledger, c: Call, hash: RequestHash)
    requires KeyIsHeld(db, c)
  {
    db.idempotency[c.idempotencyKey.value].requestHash == hash(c.principal, c.mutation)
  }

  predicate HasResponse(db: Ledger, c: Call)
    requires KeyIsHeld(db, c)
  {
    var row := db.idempotency[c.idempotencyKey.value];
    row.status == "completed" && row.response.Some?
  }

  /** A held key alone decides, and nothing is written; its row's hash and response say how. */
  lemma HeldKeyDecides(db: Ledger, c: Call, hash: RequestHash)
    requires KeyIsHeld(db, c)
    ensures Record(db, c, hash) ==
            Recorded(db,
                     if !SameRequest(db, c, hash) then Conflict
                     else if HasResponse(db, c) then Replayed(db.idempotency[c.idempotencyKey.value].response.value)
                     else InProgress)
  {
  }

  /** The statement is accepted, and changes a row where one is demanded. */
  predicate Lands(db: Ledger, c: Call) {
    var executed := Execute(db.trust.tables, c.mutation.write, c.now);
    executed.Ok? && (c.mutation.requireStateRows ==> executed.value.changedRows > 0)
  }

  /** Without a held key the statement decides. */
  lemma StatementDecides(db: Ledger, c: Call, hash: RequestHash)
    requires !KeyIsHeld(db, c)
    ensures var (outcome, executed) := (Record(db, c, hash).outcome, Execute(db.trust.tables, c.mutation.write, c.now));
            && (outcome.Applied? <==> Lands(db, c))
            && (executed.Err? ==> outcome == StatementFailed(executed.error))
            && (executed.Ok? && !Lands(db, c) ==> outcome == PreconditionFailed)
    ensures !Lands(db, c) ==> Record(db, c, hash).ledger == db
  {
  }

  /** A call applies exactly when no key holds it back and its statement lands. */
  lemma AppliedExactly(db: Ledger, c: Call, hash: RequestHash)
    ensures Record(db, c, hash).outcome.Applied? <==> !KeyIsHeld(db, c) && Lands(db, c)
  {
    if KeyIsHeld(db, c) {
      HeldKeyDecides(db, c, hash);
    } else {
      StatementDecides(db, c, hash);
    }
  }

  /** The text an event's id is the digest of. */
  function EventName(c: Call, hash: RequestHash): string {
    (if c.idempotencyKey.Some? && c.idempotencyKey.value != ""
     then c.idempotencyKey.value + ":" + hash(c.principal, c.mutation) + ":" + c.requestId
     else c.requestId)
    + ":" + c.mutation.action + ":" + c.mutation.targetType + ":" + c.mutation.targetId
  }

  lemma EventIsNamed(c: Call, hash: RequestHash)
    ensures EventId(c, hash) == EventName(c, hash)
  {
  }

  /** The rows a call reports: those its statement changed, except that a plain update's are counted only on demand. */
  function StateRows(m: Mutation, changedRows: nat): nat {
    if m.write.SetCertificateStatus? && !m.requireStateRows then 0 else changedRows
  }

  /**
   * What an applied call leaves: its audit row after the others, its event unless one of that name is already
   * queued, its key completed with the result for a day, and a result that counts those rows.
   */
  lemma AppliedLeaves(db: Ledger, c: Call, hash: RequestHash)
    requires Record(db, c, hash).outcome.Applied?
    ensures var (db', result, id) := (Record(db, c, hash).ledger, Record(db, c, hash).outcome.result, EventName(c, hash));
            && db'.audit == db.audit + [AuditRow(c.principal, c.mutation, c.requestId, c.idempotencyKey)]
            && db'.outbox == (if id in db.outbox then db.outbox else db.outbox[id := c.mutation])
            && result.auditRows == 1 && result.outboxRows == (if id in db.outbox then 0 else 1)
            && result.stateRows == StateRows(c.mutation, Execute(db.trust.tables, c.mutation.write, c.now).value.changedRows)
            && (if Keyed(c)
                then db'.idempotency == db.idempotency[c.idempotencyKey.value :=
                       IdempotencyRow(hash(c.principal, c.mutation), "completed", Some(result), c.now + 86_400_000_000)]
                else db'.idempotency == db.idempotency)
  {
    EventIsNamed(c, hash);
  }

  // ----- The outbox over a history -----

  /** Call `k` is the first of that event name. */
  predicate FirstNamed(calls: seq<Call>, k: int, id: string, hash: RequestHash) {
    0 <= k < |calls| && EventName(calls[k], hash) == id && forall i :: 0 <= i < k ==> EventName(calls[i], hash) != id
  }

  /** Every queued event keeps its content, and a new one carries the mutation of the first applied call of its name. */
  lemma {:induction false} OutboxHoldsTheFirst(db: Ledger, entries: seq<Entry>, hash: RequestHash, id: string)
    ensures var (after, calls) := (Run(db, entries, hash).outbox, AppliedCalls(db, entries, hash));
            && (id in db.outbox ==> id in after && after[id] == db.outbox[id])
            && (id in after && id !in db.outbox ==>
                  exists k :: FirstNamed(calls, k, id, hash) && calls[k].mutation == after[id])
            && (id !in after ==> forall i :: 0 <= i < |calls| ==> EventName(calls[i], hash) != id)
    decreases |entries|
  {
    if entries != [] {
      var n := |entries| - 1;
      var (init, e) := (entries[..n], entries[n]);
      OutboxHoldsTheFirst(db, init, hash, id);
      var (before, calls) := (Run(db, init, hash), AppliedCalls(db, init, hash));
      if AppliedAt(db, entries, n, hash) {
        AppliedLeaves(before, e.call, hash);
        var more := calls + [e.call];
        assert AppliedCalls(db, entries, hash) == more;
        if id in before.outbox && id !in db.outbox {
          var k :| FirstNamed(calls, k, id, hash) && calls[k].mutation == before.outbox[id];
          assert FirstNamed(more, k, id, hash) && more[k] == calls[k];
        } else if id !in before.outbox && EventName(e.call, hash) == id {
          assert FirstNamed(more, |calls|, id, hash) && more[|calls|] == e.call;
        }
      } else {
        assert AppliedCalls(db, entries, hash) == calls;
        assert Run(db, entries, hash).outbox == before.outbox by {
          StepEffect(before, e, hash);
        }
      }
    }
  }
}

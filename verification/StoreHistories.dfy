/**
 * What local writes and reloads leave in the scanner's store, entry by entry and over whole histories.
 */
module StoreHistories {
  import opened Wrappers
  import opened TrustRules
  import opened TrustStore

  // ----- One write -----

  /** The entry would bring a revoked key of its ref back. */
  predicate Unrevokes(keys: map<string, KeyEntry>, entry: KeyEntry) {
    entry.keyRef in keys && keys[entry.keyRef].state == "revoked" && entry.state != "revoked"
  }

  /** The entry would verify without key text to verify with. */
  predicate LacksText(entry: KeyEntry) {
    (entry.state == "active" || entry.state == "retired") && entry.publicKeyPem == None
  }

  /** Every key is stored as it is, but for the two that are refused, and nothing else changes. */
  lemma PublishedExactly(s: StoreState, entry: KeyEntry)
    ensures PutKeyError(s.keys, entry) ==
            if Unrevokes(s.keys, entry) then Some(RevocationIsTerminal)
            else if LacksText(entry) then Some(NoKeyMaterial) else None
    ensures ApplyOp(s, PutKey(entry)) ==
            if Unrevokes(s.keys, entry) || LacksText(entry) then s
            else StoreState(s.issuers, s.keys[entry.keyRef := entry], s.governance, s.defects)
  {
  }

  /** Retirement ends exactly the issuer's other active keys at `t`; each other key, the exempt one included, stays. */
  lemma RetiredExactly(s: StoreState, issuerId: string, t: Time, exceptKeyRef: string, keyRef: string)
    requires keyRef in s.keys
    ensures var (before, after) := (s.keys[keyRef], ApplyOp(s, RetireKeysFor(issuerId, t, exceptKeyRef)));
            && after.keys.Keys == s.keys.Keys && after.(keys := s.keys) == s
            && after.keys[keyRef] ==
               if before.issuerId == issuerId && before.state == "active" && keyRef != exceptKeyRef
               then before.(state := "retired", notAfter := Some(t)) else before
  {
  }

  /** A removed key is gone and the others stay; a cleared store keeps nothing but the reported defects. */
  lemma RemovedExactly(s: StoreState, keyRef: string)
    ensures var after := ApplyOp(s, RemoveKey(keyRef));
            && after.(keys := s.keys) == s && keyRef !in after.keys
            && forall r :: r in s.keys && r != keyRef ==> r in after.keys && after.keys[r] == s.keys[r]
    ensures var after := ApplyOp(s, Clear);
            after.issuers == map[] && after.keys == map[] && after.governance == map[] && after.defects == s.defects
  {
  }

  // ----- A reload -----

  lemma {:induction false} UnwrittenIssuer(issuers: map<string, IssuerRecord>, records: seq<IssuerRecord>, id: string)
    requires forall n :: 0 <= n < |records| ==> records[n].issuerId != id
    ensures var after := WriteIssuers(issuers, records);
            (id in after <==> id in issuers) && (id in after ==> after[id] == issuers[id])
    decreases |records|
  {
    if records != [] {
      UnwrittenIssuer(issuers, records[..|records| - 1], id);
    }
  }

  lemma {:induction false} UnwrittenKey(keys: map<string, KeyEntry>, entries: seq<KeyEntry>, keyRef: string)
    requires forall n :: 0 <= n < |entries| ==> entries[n].keyRef != keyRef
    ensures var after := WriteKeys(keys, entries);
            (keyRef in after <==> keyRef in keys) && (keyRef in after ==> after[keyRef] == keys[keyRef])
    decreases |entries|
  {
    if entries != [] {
      UnwrittenKey(keys, entries[..|entries| - 1], keyRef);
    }
  }

  /**
   * What a reload does not name: local issuers and keys outlive it, projected ones the tables no longer hold
   * are dropped, and governance is left alone.
   */
  lemma ReloadKeepsLocalEntries(
    s: StoreState, records: seq<IssuerRecord>, entries: seq<KeyEntry>, defects: seq<Defect>, id: string, keyRef: string)
    requires forall n :: 0 <= n < |records| ==> records[n].issuerId != id
    requires forall n :: 0 <= n < |entries| ==> entries[n].keyRef != keyRef
    ensures var after := ReplaceProjected(s, records, entries, defects);
            && after.governance == s.governance
            && (id in after.issuers <==> id in s.issuers && s.issuers[id].source != "projection")
            && (id in after.issuers ==> after.issuers[id] == s.issuers[id])
            && (keyRef in after.keys <==> keyRef in s.keys && s.keys[keyRef].source != "projection")
            && (keyRef in after.keys ==> after.keys[keyRef] == s.keys[keyRef])
  {
    UnwrittenIssuer(LocalIssuers(s.issuers), records, id);
    UnwrittenKey(LocalKeys(s.keys), entries, keyRef);
  }

  // ----- Histories of local writes -----

  function RunOps(s: StoreState, ops: seq<StoreOp>): StoreState {
    if ops == [] then s else ApplyOp(RunOps(s, ops[..|ops| - 1]), ops[|ops| - 1])
  }

  predicate Forgets(op: StoreOp, keyRef: string) {
    op == Clear || op == RemoveKey(keyRef)
  }

  /** Once revoked, a key stays revoked through every history that does not forget it. */
  lemma {:induction false} RevocationIsTerminalLocally(s: StoreState, ops: seq<StoreOp>, keyRef: string)
    requires keyRef in s.keys && s.keys[keyRef].state == "revoked"
    requires forall i :: 0 <= i < |ops| ==> !Forgets(ops[i], keyRef)
    ensures var after := RunOps(s, ops); keyRef in after.keys && after.keys[keyRef].state == "revoked"
    decreases |ops|
  {
    if ops != [] {
      var front, last := ops[..|ops| - 1], ops[|ops| - 1];
      RevocationIsTerminalLocally(s, front, keyRef);
      var before := RunOps(s, front);
      if last.PutKey? {
        PublishedExactly(before, last.entry);
      } else if last.RetireKeysFor? {
        RetiredExactly(before, last.issuerId, last.now, last.exceptKeyRef, keyRef);
      } else if last.RemoveKey? {
        RemovedExactly(before, last.keyRef);
      }
    }
  }

  /** Write `k` attached the projection to the issuer, and no later one replaced it or cleared the store. */
  predicate LastAttached(ops: seq<StoreOp>, k: int, issuerId: string) {
    && 0 <= k < |ops| && ops[k].SetGovernance? && ops[k].issuerId == issuerId
    && forall i :: k < i < |ops| ==> ops[i] != Clear && (ops[i].SetGovernance? ==> ops[i].issuerId != issuerId)
  }

  /** The governance an issuer resolves to is the one attached last. */
  lemma {:induction false} LastAttachedGoverns(s: StoreState, ops: seq<StoreOp>, k: int, issuerId: string)
    requires LastAttached(ops, k, issuerId)
    ensures var after := RunOps(s, ops);
            issuerId in after.governance && after.governance[issuerId] == ops[k].projection
    decreases |ops|
  {
    var front, last := ops[..|ops| - 1], ops[|ops| - 1];
    if k < |front| {
      assert forall i :: 0 <= i < |front| ==> front[i] == ops[i];
      LastAttachedGoverns(s, front, k, issuerId);
      assert last != Clear;
    }
  }
}

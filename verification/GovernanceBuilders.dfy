/**
 * The thirteen builders that turn a management request into a mutation: its names, its
 * statement, whether it needs a row to change, and whether it bumps the trust token.
 */
module GovernanceBuilders {
  import opened Wrappers
  import opened TrustRules
  import opened TrustDatabase
  import opened EventKeys
  import opened Governance

  /** Whose enrolment a request is about. */
  datatype IssuerName = IssuerName(root: string, authority: string, issuerId: string)

  /**
   * One management request. `rows` stands for what the database reports of a statement on tables that are
   * not projected.
   */
  datatype Request =
    | UpsertRootProgram(root: string, rows: nat)
    | UpsertDelegatedAuthority(root: string, authority: string, rows: nat)
    | EnrollIssuerRequest(issuer: IssuerName, displayName: string)
    | UpsertDomainProofRequest(issuer: IssuerName, domain: string, verificationStatus: string, expiresAt: Option<Time>)
    | UpdateIssuerStatus(issuer: IssuerName, status: string)
    | UpsertDestinationPolicy(issuer: IssuerName, policyId: string, rows: nat)
    | UpdateDestinationPolicyStatus(issuer: IssuerName, policyId: string, rows: nat)
    | UpsertTrustKey(keyId: string, root: string, scope: Option<string>, rows: nat)
    | EnrollIssuerCertificate(
        certificateId: string, issuer: IssuerName, algorithmId: string, publicKeyPem: string,
        notBefore: Time, notAfter: Option<Time>)
    | UpdateCertificateStatus(certificateId: string, issuer: IssuerName, keyStatus: string, reason: Option<string>)
    | UpdateTrustKeyStatus(root: string, keyId: string, rows: nat)
    | UpsertRuntimeProvider(providerId: string, rows: nat)
    | AuthorizeSubscriber(subscriberId: string, rows: nat)

  function ForIssuer(
    action: string, targetType: string, targetId: string, issuer: IssuerName, write: TrustWrite, afterJson: string,
    eventType: string, requireStateRows: bool, trustStateBump: bool): Mutation
  {
    Mutation(action, targetType, targetId, Some(issuer.root), Some(issuer.authority), Some(issuer.issuerId),
             write, afterJson, eventType, requireStateRows, trustStateBump)
  }

  /** The mutation a builder returns; `afterJson` is the text of the state it describes. */
  function Build(request: Request, afterJson: string): Mutation {
    match request
    case UpsertRootProgram(root, rows) =>
      Mutation("root_program.upsert", "root_program", root, Some(root), None, None,
               WriteElsewhere(rows), afterJson, "root_program.upserted", false, false)
    case UpsertDelegatedAuthority(root, authority, rows) =>
      Mutation("delegated_authority.upsert", "delegated_authority", authority, Some(root), Some(authority), None,
               WriteElsewhere(rows), afterJson, "delegated_authority.upserted", false, false)
    case EnrollIssuerRequest(issuer, displayName) =>
      ForIssuer("issuer.enroll", "issuer", issuer.issuerId, issuer,
                EnrollIssuer(IssuerRow(issuer.root, issuer.authority, issuer.issuerId, displayName, "pending", false, None, 0)),
                afterJson, "issuer.enrollment.requested", false, true)
    case UpsertDomainProofRequest(issuer, domain, status, expiresAt) =>
      ForIssuer("domain_proof.upsert", "domain_proof", domain, issuer,
                UpsertDomainProof(DomainProofRow(issuer.root, issuer.authority, issuer.issuerId, domain, status, expiresAt)),
                afterJson, "domain_proof.upserted", false, true)
    case UpdateIssuerStatus(issuer, status) =>
      ForIssuer("issuer.status.update", "issuer", issuer.issuerId, issuer,
                SetIssuerStatus(issuer.root, issuer.authority, issuer.issuerId, status),
                afterJson, "issuer.status.changed", true, true)
    case UpsertDestinationPolicy(issuer, policyId, rows) =>
      ForIssuer("destination_policy.upsert", "destination_policy", policyId, issuer,
                WriteElsewhere(rows), afterJson, "destination_policy.upserted", true, false)
    case UpdateDestinationPolicyStatus(issuer, policyId, rows) =>
      ForIssuer("destination_policy.status.update", "destination_policy", policyId, issuer,
                WriteElsewhere(rows), afterJson, "destination_policy.status.changed", true, false)
    case UpsertTrustKey(keyId, root, scope, rows) =>
      Mutation("trust_key.upsert", "trust_key", keyId, Some(root), scope, None,
               WriteTrustKey(rows), afterJson, "trust_key.upserted", false, true)
    case EnrollIssuerCertificate(certificateId, issuer, algorithmId, publicKeyPem, notBefore, notAfter) =>
      ForIssuer("issuer_certificate.enrolled", "issuer_certificate", certificateId, issuer,
                EnrollCertificate(CertificateRow(
                  certificateId, issuer.root, issuer.authority, issuer.issuerId, algorithmId, Some(publicKeyPem),
                  "active", notBefore, notAfter, None, None)),
                afterJson, "issuer_certificate.enrolled", false, true)
    case UpdateCertificateStatus(certificateId, issuer, keyStatus, reason) =>
      ForIssuer("issuer_certificate.status.changed", "issuer_certificate", certificateId, issuer,
                SetCertificateStatus(certificateId, keyStatus, reason),
                afterJson, "issuer_certificate.status.changed", false, true)
    case UpdateTrustKeyStatus(root, keyId, rows) =>
      Mutation("trust_key.status.update", "trust_key", keyId, Some(root), None, None,
               WriteTrustKey(rows), afterJson, "trust_key.status.changed", true, true)
    case UpsertRuntimeProvider(providerId, rows) =>
      Mutation("runtime_provider.upsert", "runtime_safety_provider", providerId, None, None, None,
               WriteElsewhere(rows), afterJson, "runtime_provider.upserted", false, false)
    case AuthorizeSubscriber(subscriberId, rows) =>
      Mutation("nats_subscriber.authorize", "nats_subscriber", subscriberId, None, None, None,
               WriteElsewhere(rows), afterJson, "nats.subscriber.authorization.changed", false, false)
  }

  /** Every builder sets the bump flag for exactly the statements on trust rows. */
  lemma BuildersAreWellBuilt(request: Request, afterJson: string)
    ensures WellBuilt(Build(request, afterJson))
  {
  }

  /** A mutation that changes a projected table carries the bump flag, whichever builder made it. */
  lemma BuildersBumpProjectedChanges(t: Tables, request: Request, afterJson: string, now: Time)
    requires var write := Build(request, afterJson).write;
             Execute(t, write, now).Ok? && Execute(t, write, now).value.tables != t
    ensures Build(request, afterJson).trustStateBump
  {
    BuildersAreWellBuilt(request, afterJson);
    ProjectedWritesBump(t, Build(request, afterJson).write, now);
  }

  // ----- What a request asks for is what its statement writes -----

  predicate OfIssuer(row: IssuerRow, issuer: IssuerName) {
    row.rootProgramId == issuer.root && row.delegatedAuthorityId == issuer.authority && row.issuerId == issuer.issuerId
  }

  /** A certificate status request gives every row of the certificate the status it names. */
  lemma CertificateStatusRequest(
    t: Tables, certificateId: string, issuer: IssuerName, keyStatus: string, reason: Option<string>, afterJson: string, now: Time)
    ensures var run := Execute(t, Build(UpdateCertificateStatus(certificateId, issuer, keyStatus, reason), afterJson).write, now);
            run.Ok? ==>
              && run.value.tables.issuers == t.issuers && run.value.tables.proofs == t.proofs
              && |run.value.tables.certificates| == |t.certificates|
              && forall i :: 0 <= i < |t.certificates| ==>
                   if t.certificates[i].certificateId == certificateId
                   then StatusWritten(t.certificates[i], run.value.tables.certificates[i], keyStatus, reason, now)
                   else run.value.tables.certificates[i] == t.certificates[i]
  {
    CertificateStatusEffect(t, certificateId, keyStatus, reason, now);
  }

  /** An issuer status request gives the issuer's row the status it names, and needs such a row to be there. */
  lemma IssuerStatusRequest(t: Tables, issuer: IssuerName, status: string, afterJson: string, now: Time)
    ensures Build(UpdateIssuerStatus(issuer, status), afterJson).requireStateRows
    ensures var run := Execute(t, Build(UpdateIssuerStatus(issuer, status), afterJson).write, now);
            run.Ok? ==>
              && run.value.tables.certificates == t.certificates && run.value.tables.proofs == t.proofs
              && |run.value.tables.issuers| == |t.issuers|
              && forall i :: 0 <= i < |t.issuers| ==>
                   if OfIssuer(t.issuers[i], issuer) then run.value.tables.issuers[i].enrollmentStatus == status
                   else run.value.tables.issuers[i] == t.issuers[i]
  {
    IssuerStatusEffect(t, issuer.root, issuer.authority, issuer.issuerId, status, now);
  }

  /** A domain proof request leaves a row that says just what it names. */
  lemma DomainProofRequest(
    t: Tables, issuer: IssuerName, domain: string, status: string, expiresAt: Option<Time>, afterJson: string, now: Time)
    ensures var run := Execute(t, Build(UpsertDomainProofRequest(issuer, domain, status, expiresAt), afterJson).write, now);
            run.Ok? ==>
              && run.value.tables.certificates == t.certificates && run.value.tables.issuers == t.issuers
              && exists row :: && row in run.value.tables.proofs && row.rootProgramId == issuer.root
                               && row.delegatedAuthorityId == issuer.authority && row.issuerId == issuer.issuerId
                               && row.domain == domain && row.verificationStatus == status && row.expiresAt == expiresAt
  {
    DomainProofEffect(t, DomainProofRow(issuer.root, issuer.authority, issuer.issuerId, domain, status, expiresAt), now);
  }

  /** A certificate request appends one active certificate of the issuer with the material and window it names. */
  lemma CertificateRequest(
    t: Tables, certificateId: string, issuer: IssuerName, algorithmId: string, pem: string,
    notBefore: Time, notAfter: Option<Time>, afterJson: string, now: Time)
    ensures var request := EnrollIssuerCertificate(certificateId, issuer, algorithmId, pem, notBefore, notAfter);
            var run := Execute(t, Build(request, afterJson).write, now);
            run.Ok? ==>
              var rows := run.value.tables.certificates;
              && |rows| == |t.certificates| + 1 && t.certificates <= rows
              && var row := rows[|t.certificates|];
                 && row.certificateId == certificateId && row.rootProgramId == issuer.root
                 && row.delegatedAuthorityId == issuer.authority && row.issuerId == issuer.issuerId
                 && row.algorithmId == algorithmId && row.publicKeyMaterialPem == Some(pem) && row.keyStatus == "active"
                 && row.notBefore == notBefore && row.notAfter == notAfter && row.revokedAt == None
  {
    CertificateEnrollmentEffect(
      t, CertificateRow(certificateId, issuer.root, issuer.authority, issuer.issuerId, algorithmId, Some(pem),
                        "active", notBefore, notAfter, None, None), now);
  }

  /** An enrolment request leaves the issuer's row pending under the name it gives, and adds one if there is none. */
  lemma IssuerRequest(t: Tables, issuer: IssuerName, displayName: string, afterJson: string, now: Time)
    ensures var run := Execute(t, Build(EnrollIssuerRequest(issuer, displayName), afterJson).write, now);
            && run.Ok? && run.value.tables.certificates == t.certificates && run.value.tables.proofs == t.proofs
            && HasIssuer(run.value.tables.issuers, issuer.root, issuer.authority, issuer.issuerId)
            && forall row :: row in run.value.tables.issuers ==>
                 if OfIssuer(row, issuer) then row.enrollmentStatus == "pending" && row.displayName == displayName
                 else row in t.issuers
  {
    var row := IssuerRow(issuer.root, issuer.authority, issuer.issuerId, displayName, "pending", false, None, 0);
    IssuerEnrollmentEffect(t, row, now);
    var after := Execute(t, EnrollIssuer(row), now).value.tables.issuers;
    if !HasIssuer(t.issuers, issuer.root, issuer.authority, issuer.issuerId) {
      assert SameIssuer(after[|t.issuers|], issuer.root, issuer.authority, issuer.issuerId);
    }
  }

  /**
   * A status request for an issuer that is not there fails and leaves nothing; one for a certificate that is not
   * there applies, and leaves an audit row and an event for a change that changed no row.
   */
  lemma MissingRowRequests(
    db: Ledger, c: Call, hash: RequestHash, issuer: IssuerName, certificateId: string, status: string,
    reason: Option<string>, afterJson: string)
    requires !Keyed(c)
    ensures !HasIssuer(db.trust.tables.issuers, issuer.root, issuer.authority, issuer.issuerId)
            && status in {"pending", "active", "suspended", "revoked", "expired"} ==>
              Record(db, c.(mutation := Build(UpdateIssuerStatus(issuer, status), afterJson)), hash) ==
              Recorded(db, PreconditionFailed)
    ensures !HasCertificate(db.trust.tables.certificates, certificateId)
            && status in {"active", "rotated", "suspended", "revoked", "expired"} ==>
              var r := Record(
                db, c.(mutation := Build(UpdateCertificateStatus(certificateId, issuer, status, reason), afterJson)), hash);
              && r.outcome.Applied? && r.outcome.result.stateRows == 0
              && r.ledger.trust.tables == db.trust.tables && |r.ledger.audit| == |db.audit| + 1
  {
    if !HasCertificate(db.trust.tables.certificates, certificateId) {
      var rows := db.trust.tables.certificates;
      assert UpdateCertificates(rows, certificateId, status, reason, c.now) == rows;
    }
  }

  /**
   * When a status request that gets past its key applies: for an issuer, exactly if the status is known and the
   * row is there; for a certificate, exactly if the status is known and no revocation would be undone, there or not.
   */
  lemma StatusRequestsApplyExactly(
    db: Ledger, c: Call, hash: RequestHash, issuer: IssuerName, certificateId: string, status: string,
    reason: Option<string>, afterJson: string)
    ensures var call := c.(mutation := Build(UpdateIssuerStatus(issuer, status), afterJson));
            Proceeds(db, call, hash) ==>
              (Record(db, call, hash).outcome.Applied? <==>
               && status in {"pending", "active", "suspended", "revoked", "expired"}
               && HasIssuer(db.trust.tables.issuers, issuer.root, issuer.authority, issuer.issuerId))
    ensures var call := c.(mutation := Build(UpdateCertificateStatus(certificateId, issuer, status, reason), afterJson));
            Proceeds(db, call, hash) ==>
              (Record(db, call, hash).outcome.Applied? <==>
               && status in {"active", "rotated", "suspended", "revoked", "expired"}
               && (status == "revoked" || !IsRevoked(db.trust.tables, certificateId)))
  {
  }

  /** A mutation is filed under the row its statement writes: its target names it, and so does its scope. */
  lemma TargetIsTheRow(request: Request, afterJson: string)
    ensures var m := Build(request, afterJson);
            match m.write
            case EnrollCertificate(row) =>
              && m.targetId == row.certificateId && m.rootProgramId == Some(row.rootProgramId)
              && m.delegatedAuthorityId == Some(row.delegatedAuthorityId) && m.issuerId == Some(row.issuerId)
            case SetCertificateStatus(certificateId, _, _) => m.targetId == certificateId
            case EnrollIssuer(row) =>
              && m.targetId == row.issuerId && m.rootProgramId == Some(row.rootProgramId)
              && m.delegatedAuthorityId == Some(row.delegatedAuthorityId) && m.issuerId == Some(row.issuerId)
            case SetIssuerStatus(root, authority, issuerId, _) =>
              && m.targetId == issuerId && m.rootProgramId == Some(root)
              && m.delegatedAuthorityId == Some(authority) && m.issuerId == Some(issuerId)
            case UpsertDomainProof(proof) =>
              && m.targetId == proof.domain && m.rootProgramId == Some(proof.rootProgramId)
              && m.delegatedAuthorityId == Some(proof.delegatedAuthorityId) && m.issuerId == Some(proof.issuerId)
            case _ => true
  {
  }

  /** Which requests fail when their row is not there; the others apply whatever they find. */
  lemma RowsAreDemandedExactly(request: Request, afterJson: string)
    ensures Build(request, afterJson).requireStateRows <==>
            || request.UpdateIssuerStatus? || request.UpsertDestinationPolicy? || request.UpdateDestinationPolicyStatus?
            || request.UpdateTrustKeyStatus?
  {
  }

  lemma KindsOfTrustWrites(request: Request, afterJson: string)
    requires BumpsToken(Build(request, afterJson).write)
    ensures KindOf(Build(request, afterJson)) in BUILDER_KINDS
  {
  }

  lemma KindsOfOtherWrites(request: Request, afterJson: string)
    requires !BumpsToken(Build(request, afterJson).write)
    ensures KindOf(Build(request, afterJson)) in BUILDER_KINDS
  {
  }

  /** Every builder's action and target type are in the vocabulary the event ids are read with. */
  lemma BuildersUseTheVocabulary(request: Request, afterJson: string)
    ensures KindOf(Build(request, afterJson)) in BUILDER_KINDS
  {
    if BumpsToken(Build(request, afterJson).write) {
      KindsOfTrustWrites(request, afterJson);
    } else {
      KindsOfOtherWrites(request, afterJson);
    }
  }

  /** Every call of the history carries a mutation some builder made. */
  ghost predicate Built(entries: seq<Entry>) {
    forall i :: 0 <= i < |entries| ==> BuiltMutation(entries[i].call.mutation)
  }

  ghost predicate BuiltMutation(m: Mutation) {
    exists request, afterJson :: m == Build(request, afterJson)
  }

  lemma BuiltFacts(m: Mutation)
    requires BuiltMutation(m)
    ensures WellBuilt(m) && KindOf(m) in BUILDER_KINDS
  {
    var request, afterJson :| m == Build(request, afterJson);
    BuildersAreWellBuilt(request, afterJson);
    BuildersUseTheVocabulary(request, afterJson);
  }

  /**
   * Over every history of built calls: whenever an entry changes a projected table the token changes with
   * it, and the trust state is what committing just the applied writes gives.
   */
  lemma BuiltHistoriesBumpEveryChange(db: Ledger, entries: seq<Entry>, hash: RequestHash)
    requires Built(entries)
    ensures forall i :: 0 <= i < |entries| ==>
              var (before, after) := (Before(db, entries, i, hash).trust, Before(db, entries, i + 1, hash).trust);
              after.tables != before.tables ==> after.versionRow != before.versionRow
    ensures Run(db, entries, hash).trust == CommitAll(db.trust, AppliedCalls(db, entries, hash))
  {
    forall i | 0 <= i < |entries|
      ensures WellBuilt(entries[i].call.mutation)
      ensures var (before, after) := (Before(db, entries, i, hash).trust, Before(db, entries, i + 1, hash).trust);
              after.tables != before.tables ==> after.versionRow != before.versionRow
    {
      BuiltFacts(entries[i].call.mutation);
      BeforeNext(db, entries, i, hash);
      CallIsOneCommit(Before(db, entries, i, hash), entries[i].call, hash);
    }
    HistoryIsItsAppliedCalls(db, entries, hash);
  }

  lemma {:induction false} BuiltCallsAreOfKinds(db: Ledger, entries: seq<Entry>, hash: RequestHash)
    requires Built(entries)
    ensures OfKinds(AppliedCalls(db, entries, hash), BUILDER_KINDS)
    decreases |entries|
  {
    if entries != [] {
      var n := |entries| - 1;
      assert Built(entries[..n]) by {
        assert forall i :: 0 <= i < n ==> entries[..n][i] == entries[i];
      }
      BuiltCallsAreOfKinds(db, entries[..n], hash);
      BuiltFacts(entries[n].call.mutation);
    }
  }

  /** Built calls whose keys cannot collide emit one event each. */
  lemma BuiltCallsEmitOneEvent(db: Ledger, entries: seq<Entry>, hash: RequestHash)
    requires Built(entries)
    requires var calls := AppliedCalls(db, entries, hash);
             NoCollisions(calls, BUILDER_KINDS, hash) && HarmlessOutbox(db, calls, BUILDER_KINDS, hash)
    ensures |Run(db, entries, hash).outbox| == |db.outbox| + |AppliedCalls(db, entries, hash)|
  {
    BuilderKindsAreSeparable();
    BuiltCallsAreOfKinds(db, entries, hash);
    EachAppliedCallEmitsOneEvent(db, entries, AppliedCalls(db, entries, hash), BUILDER_KINDS, hash);
  }
}

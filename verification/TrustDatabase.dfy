/**
 * The durable trust tables, the statements that write them, and the (epoch, version)
 * token every trust write bumps in its own transaction.
 */
module TrustDatabase {
  import opened Wrappers
  import opened Permutations
  import opened TrustRules
  import opened TrustTransitions

  datatype CertificateRow = CertificateRow(
    certificateId: string,
    rootProgramId: string,
    delegatedAuthorityId: string,
    issuerId: string,
    algorithmId: string,
    publicKeyMaterialPem: Option<string>,
    keyStatus: string,
    notBefore: Time,
    notAfter: Option<Time>,
    revokedAt: Option<Time>,
    revocationReason: Option<string>)

  datatype IssuerRow = IssuerRow(
    rootProgramId: string,
    delegatedAuthorityId: string,
    issuerId: string,
    displayName: string,
    enrollmentStatus: string,
    allowSubdomains: bool,
    expiresAt: Option<Time>,
    createdAt: Time)

  datatype DomainProofRow = DomainProofRow(
    rootProgramId: string,
    delegatedAuthorityId: string,
    issuerId: string,
    domain: string,
    verificationStatus: string,
    expiresAt: Option<Time>)

  /** The projected tables, each in the order a fetch returns its rows. */
  datatype Tables = Tables(
    certificates: seq<CertificateRow>,
    issuers: seq<IssuerRow>,
    proofs: seq<DomainProofRow>)

  datatype Token = Token(epoch: string, version: int)

  datatype SqlError = UniqueViolation | ForeignKeyViolation | CheckViolation | RevocationIsTerminal

  /** A management statement, as the mutation builders write them. */
  datatype TrustWrite =
    | EnrollCertificate(certificate: CertificateRow)
    | SetCertificateStatus(certificateId: string, keyStatus: string, reason: Option<string>)
    | EnrollIssuer(issuer: IssuerRow)
    | SetIssuerStatus(root: string, authority: string, issuerId: string, status: string)
    | UpsertDomainProof(proof: DomainProofRow)
    | WriteTrustKey(rows: nat)
    | WriteElsewhere(rows: nat)

  datatype Effect = Effect(tables: Tables, changedRows: nat)

  predicate SameIssuer(row: IssuerRow, root: string, authority: string, issuerId: string) {
    row.rootProgramId == root && row.delegatedAuthorityId == authority && row.issuerId == issuerId
  }

  predicate HasCertificate(rows: seq<CertificateRow>, certificateId: string) {
    exists i :: 0 <= i < |rows| && rows[i].certificateId == certificateId
  }

  predicate HasIssuer(rows: seq<IssuerRow>, root: string, authority: string, issuerId: string) {
    exists i :: 0 <= i < |rows| && SameIssuer(rows[i], root, authority, issuerId)
  }

  /** The row after `update ... set key_status`, revocation columns included. */
  function Restatus(row: CertificateRow, keyStatus: string, reason: Option<string>, now: Time): CertificateRow {
    if keyStatus == "revoked"
    then row.(keyStatus := keyStatus, revokedAt := Some(now), revocationReason := reason)
    else row.(keyStatus := keyStatus)
  }

  function UpdateCertificates(
    rows: seq<CertificateRow>, certificateId: string, keyStatus: string, reason: Option<string>, now: Time)
    : seq<CertificateRow>
  {
    seq(|rows|, i requires 0 <= i < |rows| =>
      if rows[i].certificateId == certificateId then Restatus(rows[i], keyStatus, reason, now) else rows[i])
  }

  function UpdateIssuers(rows: seq<IssuerRow>, root: string, authority: string, issuerId: string, status: string)
    : seq<IssuerRow>
  {
    seq(|rows|, i requires 0 <= i < |rows| =>
      if SameIssuer(rows[i], root, authority, issuerId) then rows[i].(enrollmentStatus := status) else rows[i])
  }

  /** The upsert of an issuer that is already enrolled: renamed and back to pending. */
  function ReenrollIssuer(rows: seq<IssuerRow>, row: IssuerRow): seq<IssuerRow> {
    seq(|rows|, i requires 0 <= i < |rows| =>
      if SameIssuer(rows[i], row.rootProgramId, row.delegatedAuthorityId, row.issuerId)
      then rows[i].(displayName := row.displayName, enrollmentStatus := "pending") else rows[i])
  }

  const ENROLLMENT_STATUSES := {"pending", "active", "suspended", "revoked", "expired"}
  const PROOF_STATUSES := {"pending", "verified", "failed", "expired", "revoked"}

  predicate LiveProofFor(row: DomainProofRow, proof: DomainProofRow) {
    && row.rootProgramId == proof.rootProgramId && row.delegatedAuthorityId == proof.delegatedAuthorityId
    && row.issuerId == proof.issuerId && row.domain == proof.domain
    && row.verificationStatus in {"pending", "verified"}
  }

  /** Runs one statement; an error aborts the transaction that carries it. */
  function Execute(t: Tables, write: TrustWrite, now: Time): Result<Effect, SqlError> {
    match write
    case EnrollCertificate(row) =>
      if HasCertificate(t.certificates, row.certificateId) then Err(UniqueViolation)
      else if !HasIssuer(t.issuers, row.rootProgramId, row.delegatedAuthorityId, row.issuerId) then
        Err(ForeignKeyViolation)
      else Ok(Effect(t.(certificates := t.certificates + [row.(keyStatus := "active")]), 1))
    case SetCertificateStatus(certificateId, keyStatus, reason) =>
      if keyStatus !in CERTIFICATE_TRANSITIONS then Err(CheckViolation)
      else if keyStatus != "revoked"
              && exists i :: && 0 <= i < |t.certificates| && t.certificates[i].certificateId == certificateId
                             && t.certificates[i].keyStatus == "revoked"
      then Err(RevocationIsTerminal)
      else
        Ok(Effect(t.(certificates := UpdateCertificates(t.certificates, certificateId, keyStatus, reason, now)),
                  if HasCertificate(t.certificates, certificateId) then 1 else 0))
    case EnrollIssuer(row) =>
      if HasIssuer(t.issuers, row.rootProgramId, row.delegatedAuthorityId, row.issuerId) then
        Ok(Effect(t.(issuers := ReenrollIssuer(t.issuers, row)), 1))
      else
        Ok(Effect(t.(issuers := t.issuers + [row.(enrollmentStatus := "pending", allowSubdomains := false,
                                                  expiresAt := None, createdAt := now)]), 1))
    case SetIssuerStatus(root, authority, issuerId, status) =>
      if status !in ENROLLMENT_STATUSES then Err(CheckViolation)
      else
        Ok(Effect(t.(issuers := UpdateIssuers(t.issuers, root, authority, issuerId, status)),
                  if HasIssuer(t.issuers, root, authority, issuerId) then 1 else 0))
    case UpsertDomainProof(proof) =>
      if proof.verificationStatus !in PROOF_STATUSES then Err(CheckViolation)
      else if exists i :: 0 <= i < |t.proofs| && LiveProofFor(t.proofs[i], proof) then
        Ok(Effect(t.(proofs := seq(|t.proofs|, i requires 0 <= i < |t.proofs| =>
                    if LiveProofFor(t.proofs[i], proof) then proof else t.proofs[i])), 1))
      else if !HasIssuer(t.issuers, proof.rootProgramId, proof.delegatedAuthorityId, proof.issuerId) then
        Err(ForeignKeyViolation)
      else Ok(Effect(t.(proofs := t.proofs + [proof]), 1))
    case WriteTrustKey(rows) => Ok(Effect(t, rows))
    case WriteElsewhere(rows) => Ok(Effect(t, rows))
  }

  /** The `trust_state_bump` flag the builder of this statement sets. */
  predicate BumpsToken(write: TrustWrite) {
    !write.WriteElsewhere?
  }

  /** Every statement that can change a projected table bumps the token. */
  lemma ProjectedWritesBump(t: Tables, write: TrustWrite, now: Time)
    requires Execute(t, write, now).Ok? && Execute(t, write, now).value.tables != t
    ensures BumpsToken(write)
  {
  }

  /** `insert ... on conflict do update`: the next version, or version 1 of a fresh epoch when the row is gone. */
  function Bumped(row: Option<Token>, freshEpoch: string): Token {
    match row
    case Some(token) => Token(token.epoch, token.version + 1)
    case None => Token(freshEpoch, 1)
  }

  /** The committed trust state: tables and the version row. */
  datatype TrustState = TrustState(tables: Tables, versionRow: Option<Token>)

  /** One trust write in its own transaction: both effects, or neither when a required row was missing. */
  function Commit(s: TrustState, write: TrustWrite, requireRows: bool, freshEpoch: string, now: Time): TrustState {
    match Execute(s.tables, write, now)
    case Err(_) => s
    case Ok(effect) =>
      if requireRows && effect.changedRows == 0 then s
      else
        TrustState(effect.tables, if BumpsToken(write) then Some(Bumped(s.versionRow, freshEpoch)) else s.versionRow)
  }

  predicate DistinctCertificates(rows: seq<CertificateRow>) {
    DistinctBy(rows, (row: CertificateRow) => row.certificateId)
  }

  /** The primary key of an issuer row. */
  function IssuerKey(row: IssuerRow): (string, string, string) {
    (row.rootProgramId, row.delegatedAuthorityId, row.issuerId)
  }

  predicate DistinctIssuers(rows: seq<IssuerRow>) {
    DistinctBy(rows, (row: IssuerRow) => IssuerKey(row))
  }

  predicate Live(row: DomainProofRow) {
    row.verificationStatus in {"pending", "verified"}
  }

  /** The partial unique index: one live proof of a domain per issuer. */
  predicate DistinctLiveProofs(rows: seq<DomainProofRow>) {
    forall i, j :: 0 <= i < j < |rows| && Live(rows[i]) ==> !LiveProofFor(rows[j], rows[i])
  }

  /** Certificates and proofs reference issuer rows. */
  predicate ForeignKeys(t: Tables) {
    && (forall c :: c in t.certificates ==> HasIssuer(t.issuers, c.rootProgramId, c.delegatedAuthorityId, c.issuerId))
    && (forall p :: p in t.proofs ==> HasIssuer(t.issuers, p.rootProgramId, p.delegatedAuthorityId, p.issuerId))
  }

  /** What primary keys, the unique index and foreign keys promise. */
  predicate SchemaHolds(t: Tables) {
    && DistinctCertificates(t.certificates) && DistinctIssuers(t.issuers)
    && DistinctLiveProofs(t.proofs) && ForeignKeys(t)
  }

  /** The same rows fetched in some other order: no query of the loader asks for one. */
  predicate SameRows(fetched: TrustState, committed: TrustState) {
    && fetched.versionRow == committed.versionRow
    && SameItems(fetched.tables.certificates, committed.tables.certificates)
    && SameItems(fetched.tables.issuers, committed.tables.issuers)
    && SameItems(fetched.tables.proofs, committed.tables.proofs)
  }

  /** The certificate is durably revoked. */
  predicate IsRevoked(t: Tables, certificateId: string) {
    exists i :: 0 <= i < |t.certificates| && t.certificates[i].certificateId == certificateId
                && t.certificates[i].keyStatus == "revoked"
  }

  /** Issuer rows are never dropped or rekeyed, so what references one keeps doing so. */
  lemma ExecuteKeepsIssuers(t: Tables, write: TrustWrite, now: Time, root: string, authority: string, issuerId: string)
    requires Execute(t, write, now).Ok? && HasIssuer(t.issuers, root, authority, issuerId)
    ensures HasIssuer(Execute(t, write, now).value.tables.issuers, root, authority, issuerId)
  {
    var after := Execute(t, write, now).value.tables.issuers;
    var i :| 0 <= i < |t.issuers| && SameIssuer(t.issuers[i], root, authority, issuerId);
    assert SameIssuer(after[i], root, authority, issuerId);
  }

  lemma ExecuteKeepsKeys(t: Tables, write: TrustWrite, now: Time)
    requires Execute(t, write, now).Ok? && DistinctCertificates(t.certificates) && DistinctIssuers(t.issuers)
    ensures DistinctCertificates(Execute(t, write, now).value.tables.certificates)
    ensures DistinctIssuers(Execute(t, write, now).value.tables.issuers)
  {
  }

  lemma ExecuteKeepsLiveProofs(t: Tables, write: TrustWrite, now: Time)
    requires Execute(t, write, now).Ok? && DistinctLiveProofs(t.proofs)
    ensures DistinctLiveProofs(Execute(t, write, now).value.tables.proofs)
  {
  }

  lemma ExecuteKeepsForeignKeys(t: Tables, write: TrustWrite, now: Time)
    requires Execute(t, write, now).Ok? && ForeignKeys(t)
    ensures ForeignKeys(Execute(t, write, now).value.tables)
  {
    var after := Execute(t, write, now).value.tables;
    forall c | c in after.certificates
      ensures HasIssuer(after.issuers, c.rootProgramId, c.delegatedAuthorityId, c.issuerId)
    {
      CertificateReferences(t, write, now, c);
      ExecuteKeepsIssuers(t, write, now, c.rootProgramId, c.delegatedAuthorityId, c.issuerId);
    }
    forall p | p in after.proofs
      ensures HasIssuer(after.issuers, p.rootProgramId, p.delegatedAuthorityId, p.issuerId)
    {
      ProofReferences(t, write, now, p);
      ExecuteKeepsIssuers(t, write, now, p.rootProgramId, p.delegatedAuthorityId, p.issuerId);
    }
  }

  lemma CertificateReferences(t: Tables, write: TrustWrite, now: Time, c: CertificateRow)
    requires Execute(t, write, now).Ok? && ForeignKeys(t) && c in Execute(t, write, now).value.tables.certificates
    ensures HasIssuer(t.issuers, c.rootProgramId, c.delegatedAuthorityId, c.issuerId)
  {
    var after := Execute(t, write, now).value.tables.certificates;
    var i :| 0 <= i < |after| && after[i] == c;
    if i < |t.certificates| {
      assert t.certificates[i] in t.certificates;
    }
  }

  lemma ProofReferences(t: Tables, write: TrustWrite, now: Time, p: DomainProofRow)
    requires Execute(t, write, now).Ok? && ForeignKeys(t) && p in Execute(t, write, now).value.tables.proofs
    ensures HasIssuer(t.issuers, p.rootProgramId, p.delegatedAuthorityId, p.issuerId)
  {
    var after := Execute(t, write, now).value.tables.proofs;
    var i :| 0 <= i < |after| && after[i] == p;
    if i < |t.proofs| {
      assert t.proofs[i] in t.proofs;
    }
  }

  /** Every write keeps primary keys, the unique index and the foreign keys. */
  lemma CommitKeepsSchema(s: TrustState, write: TrustWrite, requireRows: bool, freshEpoch: string, now: Time)
    requires SchemaHolds(s.tables)
    ensures SchemaHolds(Commit(s, write, requireRows, freshEpoch, now).tables)
  {
    if Execute(s.tables, write, now).Ok? {
      ExecuteKeepsKeys(s.tables, write, now);
      ExecuteKeepsLiveProofs(s.tables, write, now);
      ExecuteKeepsForeignKeys(s.tables, write, now);
    }
  }

  /** A view of the rows in another order keeps the schema and the durable revocations. */
  lemma SameRowsSameFacts(fetched: TrustState, committed: TrustState)
    requires SameRows(fetched, committed) && SchemaHolds(committed.tables)
    ensures DistinctCertificates(fetched.tables.certificates) && DistinctIssuers(fetched.tables.issuers)
    ensures forall c :: c in fetched.tables.certificates <==> c in committed.tables.certificates
    ensures forall r :: r in fetched.tables.issuers <==> r in committed.tables.issuers
    ensures forall p :: p in fetched.tables.proofs <==> p in committed.tables.proofs
  {
    DistinctInAnyOrder(
      committed.tables.certificates, fetched.tables.certificates, (row: CertificateRow) => row.certificateId);
    DistinctInAnyOrder(committed.tables.issuers, fetched.tables.issuers, (row: IssuerRow) => IssuerKey(row));
    SameMembers(fetched.tables.certificates, committed.tables.certificates);
    SameMembers(fetched.tables.issuers, committed.tables.issuers);
    SameMembers(fetched.tables.proofs, committed.tables.proofs);
  }

  lemma RevokedInAnyOrder(fetched: TrustState, committed: TrustState, certificateId: string)
    requires SameRows(fetched, committed) && SchemaHolds(committed.tables) && IsRevoked(committed.tables, certificateId)
    ensures IsRevoked(fetched.tables, certificateId)
  {
    SameRowsSameFacts(fetched, committed);
    var rows := committed.tables.certificates;
    var i :| 0 <= i < |rows| && rows[i].certificateId == certificateId && rows[i].keyStatus == "revoked";
    assert rows[i] in rows;
    var j :| 0 <= j < |fetched.tables.certificates| && fetched.tables.certificates[j] == rows[i];
  }

  /** No statement un-revokes a certificate or drops its row: the trigger refuses, the rest do not touch it. */
  lemma CommitKeepsRevoked(s: TrustState, write: TrustWrite, requireRows: bool, freshEpoch: string, now: Time, certificateId: string)
    requires IsRevoked(s.tables, certificateId)
    ensures IsRevoked(Commit(s, write, requireRows, freshEpoch, now).tables, certificateId)
  {
    var rows := s.tables.certificates;
    var after := Commit(s, write, requireRows, freshEpoch, now).tables.certificates;
    var i :| 0 <= i < |rows| && rows[i].certificateId == certificateId && rows[i].keyStatus == "revoked";
    assert after[i].certificateId == certificateId && after[i].keyStatus == "revoked";
  }

  /**
   * A status request the management endpoint lets through never trips the terminal-status trigger,
   * and one it refuses as terminal is exactly one the trigger would refuse.
   */
  lemma EndpointAgreesWithTrigger(t: Tables, i: nat, requested: string, reason: Option<string>, now: Time)
    requires DistinctCertificates(t.certificates) && i < |t.certificates|
    requires t.certificates[i].keyStatus in CERTIFICATE_TRANSITIONS && requested in CERTIFICATE_TRANSITIONS
    ensures var row := t.certificates[i];
            var check := CheckTransition(CERTIFICATE_TRANSITIONS, row.keyStatus, requested);
            var run := Execute(t, SetCertificateStatus(row.certificateId, requested, reason), now);
            && (check.Allowed? ==> run.Ok?)
            && (check.Terminal? <==> run == Err(RevocationIsTerminal))
  {
    var row := t.certificates[i];
    assert forall j :: 0 <= j < |t.certificates| && t.certificates[j].certificateId == row.certificateId ==> j == i;
  }

  // ----- What an accepted statement leaves behind -----

  /** The row with another status: a revocation also notes when and why. */
  predicate StatusWritten(
    before: CertificateRow, after: CertificateRow, keyStatus: string, reason: Option<string>, now: Time)
  {
    && after.keyStatus == keyStatus
    && (if keyStatus == "revoked" then after.revokedAt == Some(now) && after.revocationReason == reason
        else after.revokedAt == before.revokedAt && after.revocationReason == before.revocationReason)
    && after.certificateId == before.certificateId && after.rootProgramId == before.rootProgramId
    && after.delegatedAuthorityId == before.delegatedAuthorityId && after.issuerId == before.issuerId
    && after.algorithmId == before.algorithmId && after.publicKeyMaterialPem == before.publicKeyMaterialPem
    && after.notBefore == before.notBefore && after.notAfter == before.notAfter
  }

  /**
   * A certificate status is accepted exactly when it is a known one and does not lead out of revocation; then
   * every row of the certificate has it, and nothing else has changed.
   */
  lemma CertificateStatusEffect(t: Tables, certificateId: string, keyStatus: string, reason: Option<string>, now: Time)
    ensures var run := Execute(t, SetCertificateStatus(certificateId, keyStatus, reason), now);
            && (run.Ok? <==>
                  && keyStatus in {"active", "rotated", "suspended", "revoked", "expired"}
                  && (keyStatus == "revoked" || !IsRevoked(t, certificateId)))
            && (run.Ok? ==>
                  var after := run.value.tables;
                  && after.issuers == t.issuers && after.proofs == t.proofs
                  && |after.certificates| == |t.certificates|
                  && (forall i :: 0 <= i < |t.certificates| ==>
                        if t.certificates[i].certificateId == certificateId
                        then StatusWritten(t.certificates[i], after.certificates[i], keyStatus, reason, now)
                        else after.certificates[i] == t.certificates[i])
                  && (run.value.changedRows > 0 <==> HasCertificate(t.certificates, certificateId)))
  {
  }

  /** An issuer status is accepted exactly when it is a known one; then the issuer's row has it, and nothing else has changed. */
  lemma IssuerStatusEffect(t: Tables, root: string, authority: string, issuerId: string, status: string, now: Time)
    ensures var run := Execute(t, SetIssuerStatus(root, authority, issuerId, status), now);
            && (run.Ok? <==> status in {"pending", "active", "suspended", "revoked", "expired"})
            && (run.Ok? ==>
                  var after := run.value.tables;
                  && after.certificates == t.certificates && after.proofs == t.proofs
                  && |after.issuers| == |t.issuers|
                  && (forall i :: 0 <= i < |t.issuers| ==>
                        if SameIssuer(t.issuers[i], root, authority, issuerId)
                        then after.issuers[i].enrollmentStatus == status
                             && after.issuers[i].(enrollmentStatus := t.issuers[i].enrollmentStatus) == t.issuers[i]
                        else after.issuers[i] == t.issuers[i])
                  && (run.value.changedRows > 0 <==> HasIssuer(t.issuers, root, authority, issuerId)))
  {
  }

  /** The row is a live proof of this domain by this very issuer. */
  predicate StandsFor(row: DomainProofRow, root: string, authority: string, issuerId: string, domain: string) {
    && row.rootProgramId == root && row.delegatedAuthorityId == authority && row.issuerId == issuerId
    && row.domain == domain && (row.verificationStatus == "pending" || row.verificationStatus == "verified")
  }

  /**
   * A domain proof is accepted exactly when its status is a known one and there is a live proof to replace or an
   * issuer to file it under; then it stands in the place of the live proofs of its domain, or at the end, and
   * nothing else has changed.
   */
  lemma DomainProofEffect(t: Tables, proof: DomainProofRow, now: Time)
    ensures var run := Execute(t, UpsertDomainProof(proof), now);
            var (root, authority, id) := (proof.rootProgramId, proof.delegatedAuthorityId, proof.issuerId);
            var standing := exists i :: 0 <= i < |t.proofs| && StandsFor(t.proofs[i], root, authority, id, proof.domain);
            && (run.Ok? <==>
                  && proof.verificationStatus in {"pending", "verified", "failed", "expired", "revoked"}
                  && (standing || HasIssuer(t.issuers, root, authority, id)))
            && (run.Ok? ==>
                  var after := run.value.tables;
                  && after.certificates == t.certificates && after.issuers == t.issuers && proof in after.proofs
                  && |after.proofs| == |t.proofs| + (if standing then 0 else 1)
                  && (forall i :: 0 <= i < |t.proofs| ==>
                        after.proofs[i] ==
                        if StandsFor(t.proofs[i], root, authority, id, proof.domain) then proof else t.proofs[i])
                  && (!standing ==> after.proofs[|t.proofs|] == proof))
  {
    forall i | 0 <= i < |t.proofs|
      ensures LiveProofFor(t.proofs[i], proof) <==>
              StandsFor(t.proofs[i], proof.rootProgramId, proof.delegatedAuthorityId, proof.issuerId, proof.domain)
    {
    }
    if i :| 0 <= i < |t.proofs| && LiveProofFor(t.proofs[i], proof) {
      if Execute(t, UpsertDomainProof(proof), now).Ok? {
        assert Execute(t, UpsertDomainProof(proof), now).value.tables.proofs[i] == proof;
      }
    }
  }

  /**
   * A certificate is enrolled exactly when its id is new and its issuer is enrolled, and it is active then; nothing
   * else has changed.
   */
  lemma CertificateEnrollmentEffect(t: Tables, row: CertificateRow, now: Time)
    ensures var run := Execute(t, EnrollCertificate(row), now);
            && (run.Ok? <==>
                  && (forall i :: 0 <= i < |t.certificates| ==> t.certificates[i].certificateId != row.certificateId)
                  && HasIssuer(t.issuers, row.rootProgramId, row.delegatedAuthorityId, row.issuerId))
            && (run.Ok? ==>
                  var after := run.value.tables;
                  && after.issuers == t.issuers && after.proofs == t.proofs
                  && |after.certificates| == |t.certificates| + 1 && t.certificates <= after.certificates
                  && after.certificates[|t.certificates|].keyStatus == "active"
                  && after.certificates[|t.certificates|].(keyStatus := row.keyStatus) == row)
  {
  }

  /** An issuer enrolled for the first time is pending, without subdomains or expiry; enrolled again it is renamed and pending. */
  lemma IssuerEnrollmentEffect(t: Tables, row: IssuerRow, now: Time)
    ensures var run := Execute(t, EnrollIssuer(row), now);
            var enrolled := HasIssuer(t.issuers, row.rootProgramId, row.delegatedAuthorityId, row.issuerId);
            && run.Ok?
            && var after := run.value.tables;
               && after.certificates == t.certificates && after.proofs == t.proofs
               && |after.issuers| == |t.issuers| + (if enrolled then 0 else 1)
               && (forall i :: 0 <= i < |t.issuers| ==>
                     var (b, a) := (t.issuers[i], after.issuers[i]);
                     if SameIssuer(b, row.rootProgramId, row.delegatedAuthorityId, row.issuerId)
                     then a.enrollmentStatus == "pending" && a.displayName == row.displayName
                          && a.(enrollmentStatus := b.enrollmentStatus, displayName := b.displayName) == b
                     else a == b)
               && (!enrolled ==>
                     var a := after.issuers[|t.issuers|];
                     && SameIssuer(a, row.rootProgramId, row.delegatedAuthorityId, row.issuerId)
                     && a.displayName == row.displayName && a.enrollmentStatus == "pending" && !a.allowSubdomains
                     && a.expiresAt == None && a.createdAt == now)
  {
  }

  /** A revocation of a certificate there is always takes effect. */
  lemma RevocationTakesEffect(
    s: TrustState, certificateId: string, reason: Option<string>, requireRows: bool, freshEpoch: string, now: Time)
    requires HasCertificate(s.tables.certificates, certificateId)
    ensures IsRevoked(Commit(s, SetCertificateStatus(certificateId, "revoked", reason), requireRows, freshEpoch, now).tables,
                      certificateId)
  {
    CertificateStatusEffect(s.tables, certificateId, "revoked", reason, now);
    var i :| 0 <= i < |s.tables.certificates| && s.tables.certificates[i].certificateId == certificateId;
    var after := Execute(s.tables, SetCertificateStatus(certificateId, "revoked", reason), now).value.tables.certificates;
    assert StatusWritten(s.tables.certificates[i], after[i], "revoked", reason, now);
  }
}

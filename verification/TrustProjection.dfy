/**
 * Governance rows become the scanner's working set: row projection, the snapshot
 * loader, and the manager that decides whether the verifier may answer at all.
 */
module TrustProjection {
  import opened Wrappers
  import opened Text
  import opened VerifiedDomains
  import opened TrustRules
  import opened NarrowedVerifier
  import opened TrustTransitions
  import opened TrustDatabase
  import opened TrustStore

  /** Does the PEM text load as a public key? */
  type PemCheck = string -> bool

  datatype LoadError = TrustStateUnavailable | AmbiguousDomains(error: DomainError)

  datatype Snapshot = Snapshot(
    token: Token,
    issuers: seq<IssuerRecord>,
    keys: seq<KeyEntry>,
    defects: seq<Defect>)

  // ----- Row projection -----

  predicate UsablePublicKey(pem: Option<string>, loads: PemCheck) {
    pem.Some? && Trim(pem.value) != [] && loads(pem.value)
  }

  datatype ProjectedKey = ProjectedKey(entry: Option<KeyEntry>, defect: Option<Defect>)

  function ProjectCertificateRow(row: CertificateRow, loads: PemCheck): ProjectedKey {
    if row.keyStatus !in KEY_PROJECTION then
      ProjectedKey(None, Some(Defect(ExcludedVerifyingRow, row.certificateId)))
    else
      var state := KEY_PROJECTION[row.keyStatus];
      var usable := UsablePublicKey(row.publicKeyMaterialPem, loads);
      if !usable && state in VERIFYING_STATES then
        ProjectedKey(None, Some(Defect(ExcludedVerifyingRow, row.certificateId)))
      else
        ProjectedKey(
          Some(KeyEntry(
            row.certificateId, row.issuerId, row.algorithmId,
            if usable then row.publicKeyMaterialPem else None,
            state, row.notBefore, row.notAfter, row.revokedAt, row.revocationReason, "projection")),
          if usable then None else Some(Defect(ProjectedBlockingRow, row.certificateId)))
  }

  function ProjectIssuerRow(row: IssuerRow, domains: seq<Proof<Option<Time>>>): Result<Option<IssuerRecord>, DomainError> {
    if row.enrollmentStatus !in ISSUER_PROJECTION then Ok(None)
    else
      match CanonicalMap(domains, false)
      case Err(e) => Err(e)
      case Ok(canonical) =>
        Ok(Some(IssuerRecord(
          row.issuerId, row.displayName, row.rootProgramId, ISSUER_PROJECTION[row.enrollmentStatus],
          row.createdAt, row.expiresAt, canonical, row.allowSubdomains, "projection")))
  }

  // ----- The snapshot loader -----

  /** `mapping[domain] = value` on a dictionary in insertion order. */
  function SetEntry(entries: seq<Proof<Option<Time>>>, domain: string, value: Option<Time>): seq<Proof<Option<Time>>> {
    if entries == [] then [Proof(domain, value)]
    else if entries[0].domain == domain then [Proof(domain, value)] + entries[1..]
    else [entries[0]] + SetEntry(entries[1..], domain, value)
  }

  /** The verified proofs of one issuer id, whichever root they were filed under. */
  function GroupedProofs(rows: seq<DomainProofRow>, issuerId: string): seq<Proof<Option<Time>>> {
    if rows == [] then []
    else
      var last := rows[|rows| - 1];
      var front := GroupedProofs(rows[..|rows| - 1], issuerId);
      if last.issuerId == issuerId then SetEntry(front, last.domain, last.expiresAt) else front
  }

  function VerifiedProofs(rows: seq<DomainProofRow>): seq<DomainProofRow> {
    if rows == [] then []
    else VerifiedProofs(rows[..|rows| - 1])
         + (if rows[|rows| - 1].verificationStatus == "verified" then [rows[|rows| - 1]] else [])
  }

  function ProofIssuers(rows: seq<DomainProofRow>): set<string> {
    set i | 0 <= i < |rows| :: rows[i].issuerId
  }

  function DomainsOf(proofs: seq<DomainProofRow>, issuerId: string): Result<seq<Proof<Option<Time>>>, DomainError> {
    CanonicalMap(GroupedProofs(proofs, issuerId), false)
  }

  /** Every issuer's verified-domain map is unambiguous. */
  predicate DomainsUnambiguous(proofs: seq<DomainProofRow>) {
    forall id :: id in ProofIssuers(proofs) ==> DomainsOf(proofs, id).Ok?
  }

  /** The canonical domain map of an issuer, empty when it has no verified proof. */
  function IssuerDomains(proofs: seq<DomainProofRow>, issuerId: string): seq<Proof<Option<Time>>> {
    match DomainsOf(proofs, issuerId)
    case Ok(domains) => domains
    case Err(_) => []
  }

  /** The record of an issuer row; pending and unknown statuses have none. */
  function IssuerRecordOf(row: IssuerRow, proofs: seq<DomainProofRow>): seq<IssuerRecord> {
    match ProjectIssuerRow(row, IssuerDomains(proofs, row.issuerId))
    case Ok(Some(record)) => [record]
    case _ => []
  }

  function ProjectIssuers(rows: seq<IssuerRow>, proofs: seq<DomainProofRow>): seq<IssuerRecord> {
    if rows == [] then []
    else ProjectIssuers(rows[..|rows| - 1], proofs) + IssuerRecordOf(rows[|rows| - 1], proofs)
  }

  function EntryOf(row: CertificateRow, loads: PemCheck): seq<KeyEntry> {
    match ProjectCertificateRow(row, loads).entry
    case Some(entry) => [entry]
    case None => []
  }

  function ProjectKeys(rows: seq<CertificateRow>, loads: PemCheck): seq<KeyEntry> {
    if rows == [] then []
    else ProjectKeys(rows[..|rows| - 1], loads) + EntryOf(rows[|rows| - 1], loads)
  }

  function DefectOf(row: CertificateRow, loads: PemCheck): seq<Defect> {
    match ProjectCertificateRow(row, loads).defect
    case Some(defect) => [defect]
    case None => []
  }

  function ProjectDefects(rows: seq<CertificateRow>, loads: PemCheck): seq<Defect> {
    if rows == [] then []
    else ProjectDefects(rows[..|rows| - 1], loads) + DefectOf(rows[|rows| - 1], loads)
  }

  /** Can a snapshot of these committed rows be loaded? */
  predicate Loadable(s: TrustState) {
    s.versionRow.Some? && DomainsUnambiguous(VerifiedProofs(s.tables.proofs))
  }

  /** The snapshot of one committed state. */
  function SnapshotOf(s: TrustState, loads: PemCheck): Snapshot
    requires Loadable(s)
  {
    Snapshot(
      s.versionRow.value,
      ProjectIssuers(s.tables.issuers, VerifiedProofs(s.tables.proofs)),
      ProjectKeys(s.tables.certificates, loads),
      ProjectDefects(s.tables.certificates, loads))
  }

  /** Re-canonicalising a loaded map is the identity, so projecting an issuer row never fails in a load. */
  lemma IssuerDomainsCanonical(proofs: seq<DomainProofRow>, issuerId: string)
    ensures IsCanonicalMap(IssuerDomains(proofs, issuerId))
    ensures CanonicalMap(IssuerDomains(proofs, issuerId), false) == Ok(IssuerDomains(proofs, issuerId))
  {
    if DomainsOf(proofs, issuerId).Ok? {
      CanonicalMapIsCanonical(GroupedProofs(proofs, issuerId), false);
    }
    CanonicalMapFixed(IssuerDomains(proofs, issuerId), false);
  }

  lemma {:induction false} NoProofsNoDomains(proofs: seq<DomainProofRow>, issuerId: string)
    requires issuerId !in ProofIssuers(proofs)
    ensures GroupedProofs(proofs, issuerId) == []
    decreases |proofs|
  {
    if proofs != [] {
      assert proofs[|proofs| - 1].issuerId in ProofIssuers(proofs);
      var front := proofs[..|proofs| - 1];
      assert ProofIssuers(front) <= ProofIssuers(proofs) by {
        forall i | 0 <= i < |front| ensures front[i].issuerId in ProofIssuers(proofs) {
          assert front[i] == proofs[i];
        }
      }
      NoProofsNoDomains(front, issuerId);
    }
  }

  type DomainMap = seq<Proof<Option<Time>>>

  method GroupProofs(rows: seq<DomainProofRow>) returns (grouped: map<string, DomainMap>)
    ensures grouped.Keys == ProofIssuers(rows)
    ensures forall id :: id in grouped ==> grouped[id] == GroupedProofs(rows, id)
  {
    grouped := map[];
    for i := 0 to |rows|
      invariant grouped.Keys == ProofIssuers(rows[..i])
      invariant forall id :: id in grouped ==> grouped[id] == GroupedProofs(rows[..i], id)
    {
      var row := rows[i];
      assert rows[..i + 1][..i] == rows[..i];
      assert ProofIssuers(rows[..i + 1]) == ProofIssuers(rows[..i]) + {row.issuerId} by {
        assert rows[..i + 1][i].issuerId == row.issuerId;
        forall j | 0 <= j < i ensures rows[..i][j].issuerId in ProofIssuers(rows[..i + 1]) {
          assert rows[..i + 1][j] == rows[..i][j];
        }
      }
      if row.issuerId !in grouped {
        NoProofsNoDomains(rows[..i], row.issuerId);
      }
      var existing := if row.issuerId in grouped then grouped[row.issuerId] else [];
      grouped := grouped[row.issuerId := SetEntry(existing, row.domain, row.expiresAt)];
    }
    assert rows[..|rows|] == rows;
  }

  method CanonicalizeGroups(rows: seq<DomainProofRow>, grouped: map<string, DomainMap>)
    returns (r: Result<map<string, DomainMap>, LoadError>)
    requires grouped.Keys == ProofIssuers(rows)
    requires forall id :: id in grouped ==> grouped[id] == GroupedProofs(rows, id)
    ensures r.Ok? <==> DomainsUnambiguous(rows)
    ensures r.Ok? ==> r.value.Keys == ProofIssuers(rows)
    ensures r.Ok? ==> forall id :: id in r.value ==> r.value[id] == IssuerDomains(rows, id)
  {
    var canonical := grouped;
    var pending := grouped.Keys;
    while pending != {}
      invariant pending <= grouped.Keys == canonical.Keys
      invariant forall id :: id in grouped && id !in pending ==>
                  DomainsOf(rows, id).Ok? && canonical[id] == IssuerDomains(rows, id)
      decreases pending
    {
      var id :| id in pending;
      pending := pending - {id};
      var domains := CanonicalizeDomainMap(grouped[id], false);
      if domains.Err? {
        return Err(AmbiguousDomains(domains.error));
      }
      canonical := canonical[id := domains.value];
    }
    return Ok(canonical);
  }

  method BuildIssuers(rows: seq<IssuerRow>, proofs: seq<DomainProofRow>, canonical: map<string, DomainMap>)
    returns (issuers: seq<IssuerRecord>)
    requires canonical.Keys == ProofIssuers(proofs)
    requires forall id :: id in canonical ==> canonical[id] == IssuerDomains(proofs, id)
    ensures issuers == ProjectIssuers(rows, proofs)
  {
    issuers := [];
    for i := 0 to |rows|
      invariant issuers == ProjectIssuers(rows[..i], proofs)
    {
      var row := rows[i];
      assert rows[..i + 1][..i] == rows[..i];
      if row.issuerId !in canonical {
        NoProofsNoDomains(proofs, row.issuerId);
      }
      var domains := if row.issuerId in canonical then canonical[row.issuerId] else [];
      assert domains == IssuerDomains(proofs, row.issuerId);
      IssuerDomainsCanonical(proofs, row.issuerId);
      var record := ProjectIssuerRow(row, domains);
      if record.Ok? && record.value.Some? {
        issuers := issuers + [record.value.value];
      }
    }
    assert rows[..|rows|] == rows;
  }

  method BuildKeys(rows: seq<CertificateRow>, loads: PemCheck)
    returns (keys: seq<KeyEntry>, defects: seq<Defect>)
    ensures keys == ProjectKeys(rows, loads) && defects == ProjectDefects(rows, loads)
  {
    keys, defects := [], [];
    for i := 0 to |rows|
      invariant keys == ProjectKeys(rows[..i], loads) && defects == ProjectDefects(rows[..i], loads)
    {
      assert rows[..i + 1][..i] == rows[..i];
      var projected := ProjectCertificateRow(rows[i], loads);
      if projected.entry.Some? {
        keys := keys + [projected.entry.value];
      }
      if projected.defect.Some? {
        defects := defects + [projected.defect.value];
      }
    }
    assert rows[..|rows|] == rows;
  }

  /** The loader: one repeatable-read view of the rows, filled into dictionaries and lists. */
  method LoadTrustSnapshot(s: TrustState, loads: PemCheck) returns (r: Result<Snapshot, LoadError>)
    ensures r.Ok? <==> Loadable(s)
    ensures r.Ok? ==> r.value == SnapshotOf(s, loads)
  {
    if s.versionRow.None? {
      return Err(TrustStateUnavailable);
    }
    var proofs := VerifiedProofs(s.tables.proofs);
    var grouped := GroupProofs(proofs);
    var canonical := CanonicalizeGroups(proofs, grouped);
    if canonical.Err? {
      return Err(canonical.error);
    }
    var issuers := BuildIssuers(s.tables.issuers, proofs, canonical.value);
    var keys, defects := BuildKeys(s.tables.certificates, loads);
    return Ok(Snapshot(s.versionRow.value, issuers, keys, defects));
  }

  // ----- What a snapshot contains -----

  predicate LoaderIssuer(record: IssuerRecord) {
    record.source == "projection" && IsCanonicalMap(record.verifiedDomains)
  }

  predicate LoaderKey(entry: KeyEntry) {
    entry.source == "projection" && GoodKey(entry)
  }

  lemma {:induction false} ProjectedIssuersAreCanonical(rows: seq<IssuerRow>, proofs: seq<DomainProofRow>)
    ensures forall n :: 0 <= n < |ProjectIssuers(rows, proofs)| ==> LoaderIssuer(ProjectIssuers(rows, proofs)[n])
    decreases |rows|
  {
    if rows != [] {
      ProjectedIssuersAreCanonical(rows[..|rows| - 1], proofs);
      IssuerDomainsCanonical(proofs, rows[|rows| - 1].issuerId);
    }
  }

  lemma {:induction false} ProjectedKeysHaveMaterial(rows: seq<CertificateRow>, loads: PemCheck)
    ensures forall n :: 0 <= n < |ProjectKeys(rows, loads)| ==> LoaderKey(ProjectKeys(rows, loads)[n])
    decreases |rows|
  {
    if rows != [] {
      ProjectedKeysHaveMaterial(rows[..|rows| - 1], loads);
    }
  }

  /** The projected slice of one committed state. */
  function Projection(s: TrustState, loads: PemCheck): Slice
    requires Loadable(s)
  {
    SliceOf(SnapshotOf(s, loads).issuers, SnapshotOf(s, loads).keys, SnapshotOf(s, loads).defects)
  }

  lemma WriteKeysAppend(keys: map<string, KeyEntry>, entries: seq<KeyEntry>, more: seq<KeyEntry>)
    requires |more| <= 1
    ensures WriteKeys(keys, entries + more) ==
            if more == [] then WriteKeys(keys, entries) else WriteKeys(keys, entries)[more[0].keyRef := more[0]]
  {
    if more == [] {
      assert entries + more == entries;
    } else {
      assert (entries + more)[..|entries + more| - 1] == entries;
    }
  }

  lemma {:induction false} RevokedRowIsProjected(rows: seq<CertificateRow>, loads: PemCheck, i: nat)
    requires DistinctCertificates(rows) && i < |rows| && rows[i].keyStatus == "revoked"
    ensures var keys := WriteKeys(map[], ProjectKeys(rows, loads));
            rows[i].certificateId in keys && keys[rows[i].certificateId].state == "revoked"
    decreases |rows|
  {
    var front, last := rows[..|rows| - 1], rows[|rows| - 1];
    WriteKeysAppend(map[], ProjectKeys(front, loads), EntryOf(last, loads));
    if i < |rows| - 1 {
      RevokedRowIsProjected(front, loads, i);
      assert front[i] == rows[i];
      assert rows[i].certificateId != last.certificateId;
      assert EntryOf(last, loads) != [] ==> EntryOf(last, loads)[0].keyRef == last.certificateId;
    }
  }

  /** A durably revoked certificate is in the slice as a revoked key, with or without key material. */
  lemma RevokedCertificateIsProjected(s: TrustState, loads: PemCheck, certificateId: string)
    requires Loadable(s) && DistinctCertificates(s.tables.certificates) && IsRevoked(s.tables, certificateId)
    ensures var keys := Projection(s, loads).keys;
            certificateId in keys && keys[certificateId].state == "revoked"
  {
    var rows := s.tables.certificates;
    var i :| 0 <= i < |rows| && rows[i].certificateId == certificateId && rows[i].keyStatus == "revoked";
    RevokedRowIsProjected(rows, loads, i);
  }

  // ----- The manager -----

  datatype Manager = Manager(maxStalenessSeconds: int, token: Option<Token>, lastSuccess: Option<Time>)

  /** What the database did during one refresh attempt. */
  datatype Attempt =
    | ConnectFailed
    | ProbeFailed
    | Probed(probed: Token, load: Load)

  datatype Load = LoadFailed | LoadedFrom(fetched: TrustState)

  datatype Refreshed = Refreshed(manager: Manager, store: StoreState, answer: string)

  /** Repeated failures drain the budget: only a success moves `lastSuccess`. */
  function DegradeAnswer(m: Manager, now: Time): string {
    if m.token.None? || m.lastSuccess.None? then "unavailable"
    else if now - m.lastSuccess.value <= m.maxStalenessSeconds * SECOND then "stale-served"
    else "unavailable"
  }

  /** One refresh attempt by a caller that captured `now` before it queued for the lock. */
  function Refresh(m: Manager, store: StoreState, attempt: Attempt, loads: PemCheck, now: Time): Refreshed {
    if attempt.Probed? && m.token == Some(attempt.probed) then
      Refreshed(m.(lastSuccess := Some(now)), store, "reused")
    else if attempt.Probed? && attempt.load.LoadedFrom? && Loadable(attempt.load.fetched) then
      var snapshot := SnapshotOf(attempt.load.fetched, loads);
      Refreshed(
        m.(token := Some(snapshot.token), lastSuccess := Some(now)),
        ReplaceProjected(store, snapshot.issuers, snapshot.keys, snapshot.defects),
        "fresh")
    else Refreshed(m, store, DegradeAnswer(m, now))
  }

  class TrustProjectionManager {
    const maxStalenessSeconds: int
    var token: Option<Token>
    var lastSuccess: Option<Time>

    constructor (maxStalenessSeconds: int)
      ensures Value() == Manager(maxStalenessSeconds, None, None)
    {
      this.maxStalenessSeconds := maxStalenessSeconds;
      token, lastSuccess := None, None;
    }

    function Value(): Manager
      reads this
    {
      Manager(maxStalenessSeconds, token, lastSuccess)
    }

    method Degrade(now: Time) returns (answer: string)
      ensures answer == DegradeAnswer(Value(), now)
    {
      if token.None? || lastSuccess.None? {
        return "unavailable";
      }
      var age := now - lastSuccess.value;
      return if age <= maxStalenessSeconds * SECOND then "stale-served" else "unavailable";
    }

    /** `connected` is false when no database is configured: then nothing is read or written. */
    method EnsureFresh(store: ScannerTrustStore, connected: bool, attempt: Attempt, loads: PemCheck, now: Time)
      returns (answer: string)
      modifies this, store
      ensures connected ==>
                Refreshed(Value(), store.State(), answer) ==
                Refresh(old(Value()), old(store.State()), attempt, loads, now)
      ensures !connected ==>
                answer == "inert" && Value() == old(Value()) && store.State() == old(store.State())
    {
      if !connected {
        return "inert";
      }
      if !attempt.Probed? {
        answer := Degrade(now);
        return;
      }
      if token.Some? && attempt.probed == token.value {
        lastSuccess := Some(now);
        return "reused";
      }
      if attempt.load.LoadFailed? {
        answer := Degrade(now);
        return;
      }
      var snapshot := LoadTrustSnapshot(attempt.load.fetched, loads);
      if snapshot.Err? {
        answer := Degrade(now);
        return;
      }
      store.ReplaceProjection(snapshot.value.issuers, snapshot.value.keys, snapshot.value.defects);
      token := Some(snapshot.value.token);
      lastSuccess := Some(now);
      return "fresh";
    }
  }

  // ----- Every reachable store -----

  /** A step of the store's life: a local write, or a reload fed by the loader. */
  datatype StoreStep = Local(op: StoreOp) | Reload(committed: TrustState)

  function StoreAfter(s: StoreState, steps: seq<StoreStep>, loads: PemCheck): StoreState {
    if steps == [] then s
    else
      var before := StoreAfter(s, steps[..|steps| - 1], loads);
      match steps[|steps| - 1]
      case Local(op) => ApplyOp(before, op)
      case Reload(committed) =>
        if !Loadable(committed) then before
        else
          var snapshot := SnapshotOf(committed, loads);
          ReplaceProjected(before, snapshot.issuers, snapshot.keys, snapshot.defects)
  }

  /** Every store reachable through local writes and reloads holds verifying keys with material and canonical maps. */
  lemma {:induction false} ReachableStoresAreWellFormed(steps: seq<StoreStep>, loads: PemCheck)
    ensures WellFormedStore(StoreAfter(EMPTY_STORE, steps, loads))
    decreases |steps|
  {
    if steps != [] {
      ReachableStoresAreWellFormed(steps[..|steps| - 1], loads);
      var before := StoreAfter(EMPTY_STORE, steps[..|steps| - 1], loads);
      match steps[|steps| - 1] {
        case Local(op) => LocalOpKeepsStoreWellFormed(before, op);
        case Reload(committed) =>
          if Loadable(committed) {
            var proofs := VerifiedProofs(committed.tables.proofs);
            ProjectedIssuersAreCanonical(committed.tables.issuers, proofs);
            ProjectedKeysHaveMaterial(committed.tables.certificates, loads);
            var snapshot := SnapshotOf(committed, loads);
            ReplaceKeepsStoreWellFormed(before, snapshot.issuers, snapshot.keys, snapshot.defects);
          }
      }
    }
  }

  /**
   * For a key resolved from any reachable store: the domain map is canonical, so the matcher's
   * re-canonicalisation is the identity; and the missing-material refusal fires exactly for an
   * unblocked key published locally without material under a state outside the known ones.
   */
  lemma ResolvedKeysAreVerifiable(
    steps: seq<StoreStep>, loads: PemCheck, keyRef: string, p: Presentation, skewSeconds: nat, now: Time)
    requires ResolveKey(StoreAfter(EMPTY_STORE, steps, loads), keyRef).Some?
    ensures var (key, issuer) := ResolveKey(StoreAfter(EMPTY_STORE, steps, loads), keyRef).value;
            && CanonicalMap(issuer.verifiedDomains, true) == Ok(issuer.verifiedDomains)
            && (VerifyPresentedCode(p, TrustContext(key, issuer, skewSeconds), now) ==
                Refused("key_status", "trust-state-unavailable") <==>
                issuer.status == "active" && key.publicKeyPem.None? && key.state !in KEY_STATES)
  {
    ReachableStoresAreWellFormed(steps, loads);
    var s := StoreAfter(EMPTY_STORE, steps, loads);
    var (key, issuer) := ResolveKey(s, keyRef).value;
    assert IsCanonicalMap(issuer.verifiedDomains);
    CanonicalMapFixed(issuer.verifiedDomains, true);
    MissingMaterialRefusedExactly(p, TrustContext(key, issuer, skewSeconds), now);
  }

  lemma TwoLocalWrites(first: StoreOp, second: StoreOp, loads: PemCheck)
    ensures StoreAfter(EMPTY_STORE, [Local(first), Local(second)], loads) == ApplyOp(ApplyOp(EMPTY_STORE, first), second)
  {
    var steps := [Local(first), Local(second)];
    assert steps[..1] == [Local(first)] && [Local(first)][..0] == [];
    assert StoreAfter(EMPTY_STORE, [Local(first)], loads) == ApplyOp(StoreAfter(EMPTY_STORE, [], loads), first);
  }

  lemma PendingIsRefused(p: Presentation, trust: TrustContext, now: Time)
    requires trust.issuer.status == "active" && trust.key.state == "pending" && trust.key.publicKeyPem.None?
    ensures VerifyPresentedCode(p, trust, now) == Refused("key_status", "trust-state-unavailable")
  {
  }

  /** The failing input: an active issuer and a "pending" key without material, both published locally. */
  lemma PendingKeyIsRefusedForMaterial(
    issuer: IssuerRecord, key: KeyEntry, loads: PemCheck, p: Presentation, skewSeconds: nat, now: Time)
    requires issuer.status == "active" && CanonicalMap(issuer.verifiedDomains, false).Ok?
    requires key.issuerId == issuer.issuerId && key.state == "pending" && key.publicKeyPem.None?
    ensures var s := StoreAfter(EMPTY_STORE, [Local(PutIssuer(issuer)), Local(PutKey(key))], loads);
            && ResolveKey(s, key.keyRef).Some?
            && var (k, i) := ResolveKey(s, key.keyRef).value;
               VerifyPresentedCode(p, TrustContext(k, i, skewSeconds), now) ==
               Refused("key_status", "trust-state-unavailable")
  {
    TwoLocalWrites(PutIssuer(issuer), PutKey(key), loads);
    var s := ApplyOp(ApplyOp(EMPTY_STORE, PutIssuer(issuer)), PutKey(key));
    assert s.keys == map[key.keyRef := key] && issuer.issuerId in s.issuers;
    PendingIsRefused(p, TrustContext(key, s.issuers[issuer.issuerId], skewSeconds), now);
  }

  /** The failing input: after `clear` the manager still holds its token, and answers "reused" over an empty store. */
  lemma ClearedStoreIsReused(m: Manager, store: StoreState, token: Token, loads: PemCheck, now: Time)
    requires m.token == Some(token)
    ensures var r := Refresh(m, ApplyOp(store, Clear), Probed(token, LoadFailed), loads, now);
            r.answer == "reused" && r.store.issuers == map[] && r.store.keys == map[]
            && r.manager.token == Some(token)
  {
  }
}

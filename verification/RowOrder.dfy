/**
 * The loader asks for its rows in no particular order. What the projection owes to that
 * order, and when it owes nothing to it.
 */
module RowOrder {
  import opened Wrappers
  import opened Permutations
  import opened VerifiedDomains
  import opened SignedSchema
  import opened TrustRules
  import opened NarrowedVerifier
  import opened TrustDatabase
  import opened TrustStore
  import opened TrustProjection
  import opened ProjectionProtocol
  import opened Provenance

  // ----- Issuer rows that share an id -----

  /** All projectable rows of the id give one record. */
  predicate OneRecord(rows: seq<IssuerRow>, proofs: seq<DomainProofRow>, id: string) {
    forall a, b :: a in rows && b in rows && a.issuerId == id && b.issuerId == id && Projectable(a) && Projectable(b) ==>
      IssuerRecordOf(a, proofs) == IssuerRecordOf(b, proofs)
  }

  function InstalledRecord(rows: seq<IssuerRow>, proofs: seq<DomainProofRow>, id: string): Option<IssuerRecord> {
    var issuers := InstalledIssuers(rows, proofs);
    if id in issuers then Some(issuers[id]) else None
  }

  /** Fetched last, a projectable row gives its id its record. */
  lemma LastInstalls(rows: seq<IssuerRow>, proofs: seq<DomainProofRow>, k: nat)
    returns (order: seq<IssuerRow>, record: IssuerRecord)
    requires k < |rows| && Projectable(rows[k])
    ensures SameItems(order, rows) && IssuerRecordOf(rows[k], proofs) == [record]
    ensures InstalledRecord(order, proofs, rows[k].issuerId) == Some(record)
  {
    order := Without(rows, k) + [rows[k]];
    MovedLast(rows, k);
    RecordExactlyWhenProjectable(rows[k], proofs);
    record := IssuerRecordOf(rows[k], proofs)[0];
    LastRowInstalls(Without(rows, k), rows[k], proofs, rows[k].issuerId);
  }

  lemma InstalledFromRow(rows: seq<IssuerRow>, proofs: seq<DomainProofRow>, id: string)
    ensures match InstalledRecord(rows, proofs, id)
            case None => forall row :: row in rows && row.issuerId == id ==> !Projectable(row)
            case Some(record) => exists row :: row in rows && row.issuerId == id && Projectable(row)
                                               && IssuerRecordOf(row, proofs) == [record]
  {
    GoverningRowInstalls(rows, proofs, id);
    GoverningRowIsLast(rows, id);
    match GoverningRow(rows, id) {
      case Some(i) => assert rows[i] in rows;
      case None =>
        forall row | row in rows && row.issuerId == id ensures !Projectable(row) {
          var k :| 0 <= k < |rows| && rows[k] == row;
          if Projectable(row) {
            var i := LastProjectableFrom(rows, id, k);
          }
        }
    }
  }

  /** The record of an id is the same in every fetch order exactly when its projectable rows give one record. */
  lemma IssuerIgnoresOrderExactly(rows: seq<IssuerRow>, proofs: seq<DomainProofRow>, id: string)
    ensures (forall order :: SameItems(order, rows) ==>
               InstalledRecord(order, proofs, id) == InstalledRecord(rows, proofs, id)) <==>
            OneRecord(rows, proofs, id)
  {
    if OneRecord(rows, proofs, id) {
      forall order | SameItems(order, rows)
        ensures InstalledRecord(order, proofs, id) == InstalledRecord(rows, proofs, id)
      {
        SameMembers(order, rows);
        InstalledFromRow(order, proofs, id);
        InstalledFromRow(rows, proofs, id);
      }
    } else {
      var a, b :| a in rows && b in rows && a.issuerId == id && b.issuerId == id && Projectable(a) && Projectable(b)
                  && IssuerRecordOf(a, proofs) != IssuerRecordOf(b, proofs);
      var i :| 0 <= i < |rows| && rows[i] == a;
      var j :| 0 <= j < |rows| && rows[j] == b;
      var first, one := LastInstalls(rows, proofs, i);
      var second, other := LastInstalls(rows, proofs, j);
      assert one != other && SameItems(first, rows) && SameItems(second, rows);
    }
  }

  // ----- Certificates -----

  lemma KeysWithin(a: seq<CertificateRow>, b: seq<CertificateRow>, loads: PemCheck, ref: string)
    requires DistinctCertificates(b) && (forall row :: row in a ==> row in b)
    requires ref in WriteKeys(map[], ProjectKeys(a, loads))
    ensures ref in WriteKeys(map[], ProjectKeys(b, loads))
    ensures WriteKeys(map[], ProjectKeys(b, loads))[ref] == WriteKeys(map[], ProjectKeys(a, loads))[ref]
  {
    KeyHasRow(a, loads, ref);
    var i :| KeyRow(a, loads, i, WriteKeys(map[], ProjectKeys(a, loads))[ref]);
    assert a[i] in b;
    var j :| 0 <= j < |b| && b[j] == a[i];
    KeyOfRow(b, loads, j);
  }

  /** Distinct certificates project to the same keys in every order. */
  lemma KeysIgnoreOrder(a: seq<CertificateRow>, b: seq<CertificateRow>, loads: PemCheck)
    requires SameItems(a, b) && DistinctCertificates(a)
    ensures WriteKeys(map[], ProjectKeys(a, loads)) == WriteKeys(map[], ProjectKeys(b, loads))
  {
    SameMembers(a, b);
    DistinctInAnyOrder(a, b, (row: CertificateRow) => row.certificateId);
    var A, B := WriteKeys(map[], ProjectKeys(a, loads)), WriteKeys(map[], ProjectKeys(b, loads));
    forall ref | ref in A ensures ref in B && B[ref] == A[ref] {
      KeysWithin(a, b, loads, ref);
    }
    forall ref | ref in B ensures ref in A && A[ref] == B[ref] {
      KeysWithin(b, a, loads, ref);
    }
  }

  lemma {:induction false} DefectsAreSelected(rows: seq<CertificateRow>, loads: PemCheck)
    ensures ProjectDefects(rows, loads) == Select(rows, (row: CertificateRow) => DefectOf(row, loads))
    decreases |rows|
  {
    if rows != [] {
      DefectsAreSelected(rows[..|rows| - 1], loads);
    }
  }

  lemma DefectsIgnoreOrder(a: seq<CertificateRow>, b: seq<CertificateRow>, loads: PemCheck)
    requires SameItems(a, b)
    ensures SameItems(ProjectDefects(a, loads), ProjectDefects(b, loads))
  {
    DefectsAreSelected(a, loads);
    DefectsAreSelected(b, loads);
    SelectSameItems(a, b, (row: CertificateRow) => DefectOf(row, loads));
  }

  // ----- Whether a fetch loads -----

  lemma {:induction false} VerifiedMembers(rows: seq<DomainProofRow>, row: DomainProofRow)
    ensures row in VerifiedProofs(rows) <==> row in rows && row.verificationStatus == "verified"
    decreases |rows|
  {
    if rows != [] {
      VerifiedMembers(rows[..|rows| - 1], row);
      assert rows == rows[..|rows| - 1] + [rows[|rows| - 1]];
    }
  }

  /** Every verified proof names a hostname, and no issuer id has two that spell the same one differently. */
  predicate AllWellSpelled(rows: seq<DomainProofRow>) {
    forall row :: row in rows && row.verificationStatus == "verified" ==> WellSpelled(rows, row.issuerId)
  }

  /** A fetch loads exactly when the version row is there and the verified proofs are well spelled, in any order. */
  lemma LoadableExactly(s: TrustState)
    ensures Loadable(s) <==> s.versionRow.Some? && AllWellSpelled(s.tables.proofs)
  {
    var rows := s.tables.proofs;
    var verified := VerifiedProofs(rows);
    forall id ensures DomainsOf(verified, id).Ok? <==> WellSpelled(rows, id) {
      DomainsOkExactly(rows, id);
    }
    forall id | id in ProofIssuers(verified)
      ensures exists row :: row in rows && row.verificationStatus == "verified" && row.issuerId == id
    {
      var i :| 0 <= i < |verified| && verified[i].issuerId == id;
      VerifiedMembers(rows, verified[i]);
    }
    forall row | row in rows && row.verificationStatus == "verified" ensures row.issuerId in ProofIssuers(verified) {
      VerifiedMembers(rows, row);
      var i :| 0 <= i < |verified| && verified[i] == row;
    }
  }

  lemma LoadableInAnyOrder(a: TrustState, b: TrustState)
    requires SameRows(a, b)
    ensures Loadable(a) <==> Loadable(b)
  {
    LoadableExactly(a);
    LoadableExactly(b);
    SameMembers(a.tables.proofs, b.tables.proofs);
  }

  lemma LoadableDomains(s: TrustState, id: string)
    requires Loadable(s)
    ensures DomainsOf(VerifiedProofs(s.tables.proofs), id).Ok?
  {
    LoadableExactly(s);
    DomainsOkExactly(s.tables.proofs, id);
  }

  // ----- What a projected record is -----

  function DomainsIn(s: TrustState, id: string): Proofs {
    IssuerDomains(VerifiedProofs(s.tables.proofs), id)
  }

  predicate HasProjectable(rows: seq<IssuerRow>, id: string) {
    exists row :: row in rows && row.issuerId == id && Projectable(row)
  }

  lemma RecordFromRow(s: TrustState, loads: PemCheck, id: string) returns (row: IssuerRow)
    requires Loadable(s) && id in Projection(s, loads).issuers
    ensures row in s.tables.issuers && row.issuerId == id && Projectable(row)
    ensures Projection(s, loads).issuers[id] == Stem(row).(verifiedDomains := DomainsIn(s, id))
  {
    var proofs := VerifiedProofs(s.tables.proofs);
    InstalledFromRow(s.tables.issuers, proofs, id);
    row :| row in s.tables.issuers && row.issuerId == id && Projectable(row)
           && IssuerRecordOf(row, proofs) == [InstalledIssuers(s.tables.issuers, proofs)[id]];
    RecordExactlyWhenProjectable(row, proofs);
  }

  lemma ProjectedExactly(s: TrustState, loads: PemCheck, id: string)
    requires Loadable(s)
    ensures id in Projection(s, loads).issuers <==> HasProjectable(s.tables.issuers, id)
  {
    InstalledFromRow(s.tables.issuers, VerifiedProofs(s.tables.proofs), id);
  }

  // ----- The whole projection -----

  /** The projectable rows of the id agree on everything they record. */
  predicate StemsAgree(rows: seq<IssuerRow>, id: string) {
    forall a, b :: a in rows && b in rows && a.issuerId == id && b.issuerId == id && Projectable(a) && Projectable(b) ==>
      Stem(a) == Stem(b)
  }

  /** The verified rows of the id for one raw domain agree on its expiry. */
  predicate ProofsAgree(rows: seq<DomainProofRow>, id: string) {
    forall a, b :: a in rows && b in rows && VerifiedFor(a, id, a.domain) && VerifiedFor(b, id, a.domain) ==>
      a.expiresAt == b.expiresAt
  }

  /** For every id that projects, its projectable rows agree, and so do its verified proofs. */
  predicate OrderFree(t: Tables) {
    forall row :: row in t.issuers && Projectable(row) ==>
      StemsAgree(t.issuers, row.issuerId) && ProofsAgree(t.proofs, row.issuerId)
  }

  /** One record under two orders: the same but for the order of its domains. */
  predicate SameButDomainOrder(a: IssuerRecord, b: IssuerRecord) {
    a == b.(verifiedDomains := a.verifiedDomains) && SameItems(a.verifiedDomains, b.verifiedDomains)
  }

  /** The same keys, the same records up to the order of their domains, the same defects in some order. */
  predicate SameSlice(a: Slice, b: Slice) {
    && a.keys == b.keys && SameItems(a.defects, b.defects) && a.issuers.Keys == b.issuers.Keys
    && forall id :: id in a.issuers ==> SameButDomainOrder(a.issuers[id], b.issuers[id])
  }

  ghost predicate LoadsAlike(a: TrustState, b: TrustState, loads: PemCheck) {
    && (Loadable(a) <==> Loadable(b))
    && (Loadable(a) && Loadable(b) ==> SameSlice(Projection(a, loads), Projection(b, loads)))
  }

  /** No fetch order of the state's rows can be told from another. */
  ghost predicate FetchesAlike(s: TrustState, loads: PemCheck) {
    forall fetched :: SameRows(fetched, s) ==> LoadsAlike(fetched, s, loads)
  }

  /** When an id's proofs agree, its domains are whatever its verified rows prove. */
  lemma DomainMembers(s: TrustState, id: string, entry: Proof<Option<Time>>)
    requires Loadable(s) && ProofsAgree(s.tables.proofs, id)
    ensures entry in DomainsIn(s, id) <==> exists row :: row in s.tables.proofs && ProofRow(row, id, entry)
  {
    var rows := s.tables.proofs;
    LoadableDomains(s, id);
    LastVerifiedGoverns(rows, id, entry);
    if k :| GivesEntry(rows, id, entry, k) {
      assert rows[k] in rows && ProofRow(rows[k], id, entry);
    }
    if row :| row in rows && ProofRow(row, id, entry) {
      GoverningProofIsLast(rows, id, row.domain);
      assert VerifiedFor(row, id, row.domain);
      var k := GoverningProof(rows, id, row.domain).value;
      assert rows[k] in rows && rows[k].expiresAt == row.expiresAt;
      assert GivesEntry(rows, id, entry, k);
    }
  }

  lemma DomainsSameItems(a: TrustState, b: TrustState, id: string)
    requires SameRows(a, b) && Loadable(a) && Loadable(b) && ProofsAgree(a.tables.proofs, id)
    ensures SameItems(DomainsIn(a, id), DomainsIn(b, id))
  {
    SameMembers(a.tables.proofs, b.tables.proofs);
    forall entry ensures entry in DomainsIn(a, id) <==> entry in DomainsIn(b, id) {
      DomainMembers(a, id, entry);
      DomainMembers(b, id, entry);
    }
    IssuerDomainsCanonical(VerifiedProofs(a.tables.proofs), id);
    IssuerDomainsCanonical(VerifiedProofs(b.tables.proofs), id);
    DistinctSameMembers(DomainsIn(a, id), DomainsIn(b, id), (entry: Proof<Option<Time>>) => entry.domain);
  }

  lemma RecordsAlike(a: TrustState, b: TrustState, loads: PemCheck, id: string)
    requires SameRows(a, b) && Loadable(a) && Loadable(b) && OrderFree(a.tables)
    ensures id in Projection(a, loads).issuers <==> id in Projection(b, loads).issuers
    ensures id in Projection(a, loads).issuers ==>
              SameButDomainOrder(Projection(a, loads).issuers[id], Projection(b, loads).issuers[id])
  {
    SameMembers(a.tables.issuers, b.tables.issuers);
    ProjectedExactly(a, loads, id);
    ProjectedExactly(b, loads, id);
    if id in Projection(a, loads).issuers {
      var ra := RecordFromRow(a, loads, id);
      var rb := RecordFromRow(b, loads, id);
      assert Stem(ra) == Stem(rb);
      DomainsSameItems(a, b, id);
    }
  }

  lemma SlicesAlike(fetched: TrustState, s: TrustState, loads: PemCheck)
    requires SchemaHolds(s.tables) && SameRows(fetched, s) && Loadable(s) && Loadable(fetched) && OrderFree(fetched.tables)
    ensures SameSlice(Projection(fetched, loads), Projection(s, loads))
  {
    var (a, b) := (Projection(fetched, loads), Projection(s, loads));
    assert a.keys == b.keys by {
      KeysIgnoreOrder(s.tables.certificates, fetched.tables.certificates, loads);
    }
    assert SameItems(a.defects, b.defects) by {
      DefectsIgnoreOrder(fetched.tables.certificates, s.tables.certificates, loads);
    }
    forall id ensures id in a.issuers <==> id in b.issuers
              ensures id in a.issuers ==> SameButDomainOrder(a.issuers[id], b.issuers[id])
    {
      RecordsAlike(fetched, s, loads, id);
    }
  }

  /** Rows that agree load alike in every order. */
  lemma OrderFreeLoadsAlike(fetched: TrustState, s: TrustState, loads: PemCheck)
    requires SchemaHolds(s.tables) && SameRows(fetched, s) && (Loadable(s) ==> OrderFree(s.tables))
    ensures LoadsAlike(fetched, s, loads)
  {
    LoadableInAnyOrder(fetched, s);
    if Loadable(s) {
      SameMembers(fetched.tables.issuers, s.tables.issuers);
      SameMembers(fetched.tables.proofs, s.tables.proofs);
      SlicesAlike(fetched, s, loads);
    }
  }

  /** Fetched last, a projectable issuer row gives its id its stem. */
  lemma IssuerFetchedLast(s: TrustState, loads: PemCheck, i: nat) returns (fetched: TrustState)
    requires Loadable(s) && i < |s.tables.issuers| && Projectable(s.tables.issuers[i])
    ensures SameRows(fetched, s) && Loadable(fetched)
    ensures var (row, issuers) := (s.tables.issuers[i], Projection(fetched, loads).issuers);
            row.issuerId in issuers && issuers[row.issuerId].(verifiedDomains := []) == Stem(row)
  {
    var (rows, proofs) := (s.tables.issuers, VerifiedProofs(s.tables.proofs));
    var order, record := LastInstalls(rows, proofs, i);
    fetched := s.(tables := s.tables.(issuers := order));
    LoadableInAnyOrder(fetched, s);
    RecordExactlyWhenProjectable(rows[i], proofs);
  }

  /** Fetched last, a verified proof row gives its issuer id its domain and expiry. */
  lemma ProofFetchedLast(s: TrustState, loads: PemCheck, id: string, k: nat) returns (fetched: TrustState)
    requires Loadable(s) && HasProjectable(s.tables.issuers, id)
    requires k < |s.tables.proofs| && VerifiedFor(s.tables.proofs[k], id, s.tables.proofs[k].domain)
    ensures SameRows(fetched, s) && Loadable(fetched) && id in Projection(fetched, loads).issuers
    ensures CanonicalDomain(s.tables.proofs[k].domain).Ok?
    ensures Proof(CanonicalDomain(s.tables.proofs[k].domain).value, s.tables.proofs[k].expiresAt)
            in Projection(fetched, loads).issuers[id].verifiedDomains
  {
    var rows := s.tables.proofs;
    var order := Without(rows, k) + [rows[k]];
    MovedLast(rows, k);
    fetched := s.(tables := s.tables.(proofs := order));
    LoadableInAnyOrder(fetched, s);
    ProjectedExactly(fetched, loads, id);
    var record := RecordFromRow(fetched, loads, id);
    LoadableExactly(s);
    assert rows[k] in rows && WellSpelled(rows, id);
    var entry := Proof(CanonicalDomain(rows[k].domain).value, rows[k].expiresAt);
    LoadableDomains(fetched, id);
    LastVerifiedGoverns(order, id, entry);
    assert GivesEntry(order, id, entry, |rows| - 1);
  }

  lemma AlikeStems(s: TrustState, loads: PemCheck, id: string)
    requires Loadable(s) && FetchesAlike(s, loads)
    ensures StemsAgree(s.tables.issuers, id)
  {
    var rows := s.tables.issuers;
    forall a, b | && a in rows && b in rows && a.issuerId == id && b.issuerId == id && Projectable(a) && Projectable(b)
      ensures Stem(a) == Stem(b)
    {
      var i: nat :| i < |rows| && rows[i] == a;
      var j: nat :| j < |rows| && rows[j] == b;
      var first := IssuerFetchedLast(s, loads, i);
      var second := IssuerFetchedLast(s, loads, j);
      assert LoadsAlike(first, s, loads) && LoadsAlike(second, s, loads);
    }
  }

  lemma OneExpiryPerDomain(domains: Proofs, a: Proof<Option<Time>>, b: Proof<Option<Time>>)
    requires IsCanonicalMap(domains) && a in domains && b in domains && a.domain == b.domain
    ensures a == b
  {
    var i :| 0 <= i < |domains| && domains[i] == a;
    var j :| 0 <= j < |domains| && domains[j] == b;
  }

  lemma AlikeProof(s: TrustState, loads: PemCheck, id: string, k: nat)
    requires Loadable(s) && FetchesAlike(s, loads) && HasProjectable(s.tables.issuers, id)
    requires k < |s.tables.proofs| && VerifiedFor(s.tables.proofs[k], id, s.tables.proofs[k].domain)
    ensures CanonicalDomain(s.tables.proofs[k].domain).Ok? && id in Projection(s, loads).issuers
    ensures Proof(CanonicalDomain(s.tables.proofs[k].domain).value, s.tables.proofs[k].expiresAt)
            in Projection(s, loads).issuers[id].verifiedDomains
  {
    var fetched := ProofFetchedLast(s, loads, id, k);
    assert LoadsAlike(fetched, s, loads);
    SameMembers(Projection(fetched, loads).issuers[id].verifiedDomains, Projection(s, loads).issuers[id].verifiedDomains);
  }

  lemma AlikeProofs(s: TrustState, loads: PemCheck, id: string)
    requires Loadable(s) && FetchesAlike(s, loads) && HasProjectable(s.tables.issuers, id)
    ensures ProofsAgree(s.tables.proofs, id)
  {
    var rows := s.tables.proofs;
    forall a, b | a in rows && b in rows && VerifiedFor(a, id, a.domain) && VerifiedFor(b, id, a.domain)
      ensures a.expiresAt == b.expiresAt
    {
      var k: nat :| k < |rows| && rows[k] == a;
      var l: nat :| l < |rows| && rows[l] == b;
      AlikeProof(s, loads, id, k);
      AlikeProof(s, loads, id, l);
      var row := RecordFromRow(s, loads, id);
      IssuerDomainsCanonical(VerifiedProofs(rows), id);
      var domain := CanonicalDomain(a.domain).value;
      OneExpiryPerDomain(DomainsIn(s, id), Proof(domain, a.expiresAt), Proof(domain, b.expiresAt));
    }
  }

  /**
   * The schema leaves fetch order observable exactly when, for some id that projects, two projectable rows
   * differ in what they record or two verified proofs of one raw domain differ in expiry. Otherwise every
   * order loads or none does, with the same keys, the same records up to the order of their domains, and
   * the same defects in some order.
   */
  lemma FetchOrderExactly(s: TrustState, loads: PemCheck)
    requires SchemaHolds(s.tables)
    ensures FetchesAlike(s, loads) <==> (Loadable(s) ==> OrderFree(s.tables))
  {
    if Loadable(s) ==> OrderFree(s.tables) {
      forall fetched | SameRows(fetched, s) ensures LoadsAlike(fetched, s, loads) {
        OrderFreeLoadsAlike(fetched, s, loads);
      }
    }
    if FetchesAlike(s, loads) && Loadable(s) {
      forall row | row in s.tables.issuers && Projectable(row)
        ensures StemsAgree(s.tables.issuers, row.issuerId) && ProofsAgree(s.tables.proofs, row.issuerId)
      {
        AlikeStems(s, loads, row.issuerId);
        AlikeProofs(s, loads, row.issuerId);
      }
    }
  }

  /** Two verified rows of one id and raw domain are one row, when issuer ids are distinct. */
  lemma SoleProofRow(t: Tables, a: DomainProofRow, b: DomainProofRow, id: string)
    requires SchemaHolds(t) && DistinctIssuerIds(t.issuers) && a in t.proofs && b in t.proofs
    requires VerifiedFor(a, id, a.domain) && VerifiedFor(b, id, a.domain)
    ensures a == b
  {
    var k :| 0 <= k < |t.issuers| && SameIssuer(t.issuers[k], a.rootProgramId, a.delegatedAuthorityId, a.issuerId);
    assert t.issuers[k] in t.issuers;
    ReferencedRow(t.issuers, t.issuers[k], b.rootProgramId, b.delegatedAuthorityId, b.issuerId);
    var i :| 0 <= i < |t.proofs| && t.proofs[i] == a;
    var j :| 0 <= j < |t.proofs| && t.proofs[j] == b;
    assert Live(a) && LiveProofFor(a, b) && LiveProofFor(b, a);
  }

  lemma DistinctIdsAreOrderFree(t: Tables)
    requires SchemaHolds(t) && DistinctIssuerIds(t.issuers)
    ensures OrderFree(t)
  {
    forall row | row in t.issuers && Projectable(row)
      ensures StemsAgree(t.issuers, row.issuerId) && ProofsAgree(t.proofs, row.issuerId)
    {
      forall a, b | a in t.issuers && b in t.issuers && a.issuerId == b.issuerId ensures a == b {
        SoleIssuerRow(t.issuers, a, b);
      }
      forall a, b | && a in t.proofs && b in t.proofs
                    && VerifiedFor(a, row.issuerId, a.domain) && VerifiedFor(b, row.issuerId, a.domain)
        ensures a == b
      {
        SoleProofRow(t, a, b, row.issuerId);
      }
    }
  }

  /** In particular the schema makes fetch order unobservable when issuer ids are distinct. */
  lemma ProjectionIgnoresOrder(fetched: TrustState, committed: TrustState, loads: PemCheck)
    requires SameRows(fetched, committed) && SchemaHolds(committed.tables) && DistinctIssuerIds(committed.tables.issuers)
    ensures Loadable(fetched) <==> Loadable(committed)
    ensures Loadable(fetched) ==> SameSlice(Projection(fetched, loads), Projection(committed, loads))
  {
    DistinctIdsAreOrderFree(committed.tables);
    OrderFreeLoadsAlike(fetched, committed, loads);
  }

  /**
   * Cache coherence without the order: when the version's rows agree, the undisturbed slice is that
   * version's projection, up to the order of each record's domains and of the defects.
   */
  lemma CoherentUpToDomainOrder(s: System, events: seq<Event>, loads: PemCheck, i: nat)
    requires Initial(s)
    requires var r := Run(s, events, loads);
             && i < |r.log| && r.manager.token.Some? && r.log[i].state.versionRow == r.manager.token
             && Undisturbed(r) && OrderFree(r.log[i].state.tables)
    ensures var r := Run(s, events, loads);
            Loadable(r.log[i].state) && SameSlice(ProjectedSlice(r.store), Projection(r.log[i].state, loads))
  {
    CacheCoherence(s, events, loads, i);
    RunKeepsInvariant(s, events, loads);
    var r := Run(s, events, loads);
    var fetched :| && SameRows(fetched, r.log[i].state) && Loadable(fetched)
                   && ProjectedSlice(r.store) == Projection(fetched, loads);
    OrderFreeLoadsAlike(fetched, r.log[i].state, loads);
  }

  lemma TwoProofGroup(p: DomainProofRow, q: DomainProofRow)
    requires p.verificationStatus == "verified" && q.verificationStatus == "verified"
    requires p.issuerId == q.issuerId && p.domain == q.domain
    ensures VerifiedProofs([p, q]) == [p, q] && ProofIssuers([p, q]) == {p.issuerId}
    ensures GroupedProofs([p, q], p.issuerId) == [Proof(q.domain, q.expiresAt)]
  {
    assert [p, q][..1] == [p];
    OneProofGroup(p);
    assert VerifiedProofs([p, q]) == [p] + [q];
    assert [p, q][0].issuerId in ProofIssuers([p, q]);
  }

  /** The later of two proofs of one id and raw domain gives the domain its expiry. */
  lemma LaterProofWins(p: DomainProofRow, q: DomainProofRow)
    requires p.verificationStatus == "verified" && q.verificationStatus == "verified"
    requires p.issuerId == q.issuerId && p.domain == q.domain && IsCanonicalDomain(p.domain)
    ensures VerifiedProofs([p, q]) == [p, q] && DomainsUnambiguous([p, q])
    ensures IssuerDomains([p, q], p.issuerId) == [Proof(q.domain, q.expiresAt)]
  {
    TwoProofGroup(p, q);
    SingleIsCanonical(q.domain, q.expiresAt);
    CanonicalMapFixed([Proof(q.domain, q.expiresAt)], false);
  }

  /** Two issuer rows and a proof for each, the first proof fetched first. */
  function TwoProofs(a: IssuerRow, b: IssuerRow, p: DomainProofRow, q: DomainProofRow, token: Token): TrustState {
    TrustState(Tables([], [a, b], [p, q]), Some(token))
  }

  /** The domains the state gives an issuer id, if it loads and the id projects. */
  predicate GivesDomains(s: TrustState, loads: PemCheck, id: string, domains: Proofs) {
    && Loadable(s) && id in Projection(s, loads).issuers
    && Projection(s, loads).issuers[id].verifiedDomains == domains
  }

  lemma TwoProofSchema(a: IssuerRow, b: IssuerRow, p: DomainProofRow, q: DomainProofRow, token: Token)
    requires a.issuerId == b.issuerId && a.rootProgramId != b.rootProgramId
    requires SameIssuer(a, p.rootProgramId, p.delegatedAuthorityId, p.issuerId)
    requires SameIssuer(b, q.rootProgramId, q.delegatedAuthorityId, q.issuerId)
    ensures SchemaHolds(TwoProofs(a, b, p, q, token).tables)
    ensures SameRows(TwoProofs(a, b, q, p, token), TwoProofs(a, b, p, q, token))
  {
    TwoIssuersReference(a, b);
    assert multiset([q, p]) == multiset([p, q]);
  }

  lemma TwoProofRecord(
    a: IssuerRow, b: IssuerRow, p: DomainProofRow, q: DomainProofRow, token: Token, loads: PemCheck)
    requires a.enrollmentStatus == "active" && b.issuerId == a.issuerId && b.enrollmentStatus == "pending"
    requires p.issuerId == a.issuerId && p.verificationStatus == "verified"
    requires q.issuerId == a.issuerId && q.verificationStatus == "verified"
    requires p.domain == q.domain && IsCanonicalDomain(p.domain)
    ensures GivesDomains(TwoProofs(a, b, p, q, token), loads, a.issuerId, [Proof(q.domain, q.expiresAt)])
    ensures OneRecord([a, b], [p, q], a.issuerId)
  {
    LaterProofWins(p, q);
    ActiveRowInstalls(a, b, [p, q]);
  }

  /**
   * The failing input: an active issuer row, a pending one of the same id under another root, and a verified
   * proof of one domain filed under each. Only one row projects, so its record does not hang on the order of
   * the issuer rows; but whichever proof is fetched last decides when the domain expires.
   */
  lemma ProofOrderDecidesExpiry(
    a: IssuerRow, b: IssuerRow, p: DomainProofRow, q: DomainProofRow, token: Token, loads: PemCheck)
    requires a.issuerId == b.issuerId && a.rootProgramId != b.rootProgramId
    requires a.enrollmentStatus == "active" && b.enrollmentStatus == "pending"
    requires SameIssuer(a, p.rootProgramId, p.delegatedAuthorityId, p.issuerId) && p.verificationStatus == "verified"
    requires SameIssuer(b, q.rootProgramId, q.delegatedAuthorityId, q.issuerId) && q.verificationStatus == "verified"
    requires p.domain == q.domain && IsCanonicalDomain(p.domain) && p.expiresAt != q.expiresAt
    ensures var (s, t) := (TwoProofs(a, b, p, q, token), TwoProofs(a, b, q, p, token));
            && SchemaHolds(s.tables) && SameRows(t, s)
            && OneRecord([a, b], [p, q], a.issuerId) && OneRecord([a, b], [q, p], a.issuerId)
            && GivesDomains(s, loads, a.issuerId, [Proof(p.domain, q.expiresAt)])
            && GivesDomains(t, loads, a.issuerId, [Proof(p.domain, p.expiresAt)])
  {
    TwoProofSchema(a, b, p, q, token);
    TwoProofRecord(a, b, p, q, token, loads);
    TwoProofRecord(a, b, q, p, token, loads);
  }

  // ----- What the order of domains can still decide -----

  /** All domains that cover the host agree on whether their proofs still hold. */
  predicate CoversAgree(host: string, domains: Proofs, allowSubdomains: bool, now: Time) {
    forall a, b :: a in domains && b in domains
                   && DomainCovers(host, a.domain, allowSubdomains) && DomainCovers(host, b.domain, allowSubdomains) ==>
      (Before(now, a.value) <==> Before(now, b.value))
  }

  lemma FirstCoverMember(host: string, domains: Proofs, allowSubdomains: bool)
    ensures match FirstCover(host, domains, allowSubdomains)
            case Some(entry) => entry in domains && DomainCovers(host, entry.domain, allowSubdomains)
            case None => forall entry :: entry in domains ==> !DomainCovers(host, entry.domain, allowSubdomains)
  {
    FirstCoverIsEarliest(host, domains, allowSubdomains);
  }

  lemma CoverCanBeFirst(host: string, domains: Proofs, allowSubdomains: bool, now: Time, entry: Proof<Option<Time>>)
    requires entry in domains && DomainCovers(host, entry.domain, allowSubdomains)
    ensures exists order ::
              SameItems(order, domains) && (CoverHolds(host, order, allowSubdomains, now) <==> Before(now, entry.value))
  {
    var i :| 0 <= i < |domains| && domains[i] == entry;
    var order := [entry] + Without(domains, i);
    MovedFirst(domains, i);
    assert FirstCover(host, order, allowSubdomains) == Some(entry);
    assert SameItems(order, domains) && (CoverHolds(host, order, allowSubdomains, now) <==> Before(now, entry.value));
  }

  /** Whether a proof holds for the host does not hang on the order exactly when its covers all hold or have all lapsed. */
  lemma CoverIgnoresOrderExactly(host: string, domains: Proofs, allowSubdomains: bool, now: Time)
    ensures (forall order :: SameItems(order, domains) ==>
               (CoverHolds(host, order, allowSubdomains, now) <==> CoverHolds(host, domains, allowSubdomains, now))) <==>
            CoversAgree(host, domains, allowSubdomains, now)
  {
    if CoversAgree(host, domains, allowSubdomains, now) {
      forall order | SameItems(order, domains)
        ensures CoverHolds(host, order, allowSubdomains, now) <==> CoverHolds(host, domains, allowSubdomains, now)
      {
        SameMembers(order, domains);
        FirstCoverMember(host, order, allowSubdomains);
        FirstCoverMember(host, domains, allowSubdomains);
      }
    } else {
      var a, b :| a in domains && b in domains
                  && DomainCovers(host, a.domain, allowSubdomains) && DomainCovers(host, b.domain, allowSubdomains)
                  && (Before(now, a.value) != Before(now, b.value));
      CoverCanBeFirst(host, domains, allowSubdomains, now, a);
      CoverCanBeFirst(host, domains, allowSubdomains, now, b);
    }
  }

  /** Which domain is reported is the same in every order exactly when only one entry covers the host. */
  lemma MatchedDomainIgnoresOrderExactly(host: string, domains: Proofs, allowSubdomains: bool)
    ensures (forall order :: SameItems(order, domains) ==>
               FirstCover(host, order, allowSubdomains) == FirstCover(host, domains, allowSubdomains)) <==>
            (forall a, b :: a in domains && b in domains
                            && DomainCovers(host, a.domain, allowSubdomains) && DomainCovers(host, b.domain, allowSubdomains) ==>
               a == b)
  {
    forall order | SameItems(order, domains)
      ensures match FirstCover(host, order, allowSubdomains)
              case Some(entry) => entry in domains && DomainCovers(host, entry.domain, allowSubdomains)
              case None => forall entry :: entry in domains ==> !DomainCovers(host, entry.domain, allowSubdomains)
    {
      SameMembers(order, domains);
      FirstCoverMember(host, order, allowSubdomains);
    }
    assert SameItems(domains, domains);
    forall a | a in domains && DomainCovers(host, a.domain, allowSubdomains)
      ensures exists order :: SameItems(order, domains) && FirstCover(host, order, allowSubdomains) == Some(a)
    {
      var i :| 0 <= i < |domains| && domains[i] == a;
      MovedFirst(domains, i);
      assert FirstCover(host, [a] + Without(domains, i), allowSubdomains) == Some(a);
    }
  }

  /** An issuer that allows no subdomains has at most one covering domain. */
  lemma ExactHostsAgree(host: string, domains: Proofs, now: Time)
    requires IsCanonicalMap(domains)
    ensures CoversAgree(host, domains, false, now)
  {
    forall a, b | a in domains && b in domains && host == a.domain && host == b.domain ensures a == b {
      OneExpiryPerDomain(domains, a, b);
    }
  }

  lemma CanonicalInAnyOrder(a: Proofs, b: Proofs)
    requires SameItems(a, b) && IsCanonicalMap(a)
    ensures IsCanonicalMap(b)
  {
    SameMembers(a, b);
    DistinctInAnyOrder(a, b, (entry: Proof<Option<Time>>) => entry.domain);
    forall i | 0 <= i < |b| ensures IsCanonicalDomain(b[i].domain) {
      assert b[i] in a;
    }
  }

  /** With every other stage passed, no order of the record's domains changes the answer. */
  ghost predicate AcceptsInEveryOrder(p: Presentation, trust: TrustContext, now: Time) {
    forall order :: SameItems(order, trust.issuer.verifiedDomains) ==>
      (VerifyPresentedCode(p, Reordered(trust, order), now).Accepted? <==> VerifyPresentedCode(p, trust, now).Accepted?)
  }

  function Reordered(trust: TrustContext, order: Proofs): TrustContext {
    trust.(issuer := trust.issuer.(verifiedDomains := order))
  }

  lemma ReorderedStages(p: Presentation, trust: TrustContext, order: Proofs, now: Time)
    ensures OtherStagesPass(p, Reordered(trust, order), now) <==> OtherStagesPass(p, trust, now)
  {
    var other := Reordered(trust, order);
    assert BlockingState(other.key, other.issuer) == BlockingState(trust.key, trust.issuer);
    assert TimeWindows(now, p.window, other.key, other.issuer, other.skewSeconds) ==
           TimeWindows(now, p.window, trust.key, trust.issuer, trust.skewSeconds);
  }

  lemma ReorderedAcceptance(p: Presentation, trust: TrustContext, order: Proofs, now: Time)
    requires IsCanonicalMap(trust.issuer.verifiedDomains) && SameItems(order, trust.issuer.verifiedDomains)
    ensures VerifyPresentedCode(p, Reordered(trust, order), now).Accepted? <==>
            OtherStagesPass(p, trust, now) && CoverHolds(HostOf(p).value, order, trust.issuer.allowSubdomains, now)
  {
    CanonicalInAnyOrder(trust.issuer.verifiedDomains, order);
    ReorderedStages(p, trust, order, now);
    CoverDecidesAcceptance(p, Reordered(trust, order), now);
  }

  /**
   * Over a canonical map, acceptance is the same in every order of the domains exactly when some other stage
   * fails or the proofs that cover the host all hold or have all lapsed; without subdomains they always do.
   */
  lemma AcceptanceIgnoresDomainOrder(p: Presentation, trust: TrustContext, now: Time)
    requires IsCanonicalMap(trust.issuer.verifiedDomains)
    ensures AcceptsInEveryOrder(p, trust, now) <==>
            (OtherStagesPass(p, trust, now) ==>
               CoversAgree(HostOf(p).value, trust.issuer.verifiedDomains, trust.issuer.allowSubdomains, now))
    ensures !trust.issuer.allowSubdomains ==> AcceptsInEveryOrder(p, trust, now)
  {
    var domains := trust.issuer.verifiedDomains;
    CoverDecidesAcceptance(p, trust, now);
    forall order | SameItems(order, domains)
      ensures VerifyPresentedCode(p, Reordered(trust, order), now).Accepted? <==>
              OtherStagesPass(p, trust, now) && CoverHolds(HostOf(p).value, order, trust.issuer.allowSubdomains, now)
    {
      ReorderedAcceptance(p, trust, order, now);
    }
    if HostOf(p).Some? {
      CoverIgnoresOrderExactly(HostOf(p).value, domains, trust.issuer.allowSubdomains, now);
      ExactHostsAgree(HostOf(p).value, domains, now);
    }
  }
}

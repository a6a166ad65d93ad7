/**
 * Where an acceptance comes from: the certificate, issuer and domain-proof rows that
 * justify it, and when those rows were the committed state.
 */
module Provenance {
  import opened Wrappers
  import opened Permutations
  import opened VerifiedDomains
  import opened SignedSchema
  import opened TrustRules
  import opened NarrowedVerifier
  import opened TrustTransitions
  import opened TrustDatabase
  import opened TrustStore
  import opened TrustProjection
  import opened CertificateProjection
  import opened ProjectionProtocol

  type Proofs = seq<Proof<Option<Time>>>

  // ----- Every projected entry has its row -----

  predicate KeyRow(rows: seq<CertificateRow>, loads: PemCheck, i: int, entry: KeyEntry) {
    0 <= i < |rows| && EntryOf(rows[i], loads) == [entry]
  }

  lemma {:induction false} KeyHasRow(rows: seq<CertificateRow>, loads: PemCheck, ref: string)
    requires ref in WriteKeys(map[], ProjectKeys(rows, loads))
    ensures exists i :: KeyRow(rows, loads, i, WriteKeys(map[], ProjectKeys(rows, loads))[ref])
    ensures WriteKeys(map[], ProjectKeys(rows, loads))[ref].keyRef == ref
    decreases |rows|
  {
    var front, last := rows[..|rows| - 1], rows[|rows| - 1];
    WriteKeysAppend(map[], ProjectKeys(front, loads), EntryOf(last, loads));
    if EntryOf(last, loads) != [] && EntryOf(last, loads)[0].keyRef == ref {
      assert KeyRow(rows, loads, |rows| - 1, EntryOf(last, loads)[0]);
    } else {
      KeyHasRow(front, loads, ref);
      var i :| KeyRow(front, loads, i, WriteKeys(map[], ProjectKeys(front, loads))[ref]);
      assert KeyRow(rows, loads, i, WriteKeys(map[], ProjectKeys(rows, loads))[ref]);
    }
  }

  /** Distinct certificates keep their own entries, whatever else is projected. */
  lemma {:induction false} KeyOfRow(rows: seq<CertificateRow>, loads: PemCheck, i: nat)
    requires DistinctCertificates(rows) && i < |rows|
    ensures var (keys, ref) := (WriteKeys(map[], ProjectKeys(rows, loads)), rows[i].certificateId);
            EntryOf(rows[i], loads) == if ref in keys then [keys[ref]] else []
    decreases |rows|
  {
    var front, last := rows[..|rows| - 1], rows[|rows| - 1];
    WriteKeysAppend(map[], ProjectKeys(front, loads), EntryOf(last, loads));
    if i < |rows| - 1 {
      KeyOfRow(front, loads, i);
      assert rows[i].certificateId != last.certificateId;
    } else {
      assert forall j :: 0 <= j < |front| ==> front[j] == rows[j];
      AbsentKey(front, loads, last.certificateId);
    }
  }

  lemma {:induction false} AbsentKey(rows: seq<CertificateRow>, loads: PemCheck, ref: string)
    requires forall j :: 0 <= j < |rows| ==> rows[j].certificateId != ref
    ensures ref !in WriteKeys(map[], ProjectKeys(rows, loads))
    decreases |rows|
  {
    if rows != [] {
      var front, last := rows[..|rows| - 1], rows[|rows| - 1];
      AbsentKey(front, loads, ref);
      WriteKeysAppend(map[], ProjectKeys(front, loads), EntryOf(last, loads));
    }
  }

  lemma WriteIssuersAppend(issuers: map<string, IssuerRecord>, records: seq<IssuerRecord>, more: seq<IssuerRecord>)
    requires |more| <= 1
    ensures WriteIssuers(issuers, records + more) ==
            if more == [] then WriteIssuers(issuers, records) else WriteIssuers(issuers, records)[more[0].issuerId := more[0]]
  {
    if more == [] {
      assert records + more == records;
    } else {
      assert (records + more)[..|records + more| - 1] == records;
    }
  }

  predicate RecordRow(rows: seq<IssuerRow>, proofs: seq<DomainProofRow>, i: int, record: IssuerRecord) {
    0 <= i < |rows| && IssuerRecordOf(rows[i], proofs) == [record]
  }

  lemma {:induction false} IssuerHasRow(rows: seq<IssuerRow>, proofs: seq<DomainProofRow>, id: string)
    requires id in WriteIssuers(map[], ProjectIssuers(rows, proofs))
    ensures exists i :: RecordRow(rows, proofs, i, WriteIssuers(map[], ProjectIssuers(rows, proofs))[id])
    ensures WriteIssuers(map[], ProjectIssuers(rows, proofs))[id].issuerId == id
    decreases |rows|
  {
    var front, last := rows[..|rows| - 1], rows[|rows| - 1];
    WriteIssuersAppend(map[], ProjectIssuers(front, proofs), IssuerRecordOf(last, proofs));
    if IssuerRecordOf(last, proofs) != [] && IssuerRecordOf(last, proofs)[0].issuerId == id {
      assert RecordRow(rows, proofs, |rows| - 1, IssuerRecordOf(last, proofs)[0]);
    } else {
      IssuerHasRow(front, proofs, id);
      var i :| RecordRow(front, proofs, i, WriteIssuers(map[], ProjectIssuers(front, proofs))[id]);
      assert RecordRow(rows, proofs, i, WriteIssuers(map[], ProjectIssuers(rows, proofs))[id]);
    }
  }

  // ----- Which proof row governs a domain -----

  /** A verified row of the issuer id for the domain, spelled like this. */
  predicate VerifiedFor(row: DomainProofRow, issuerId: string, domain: string) {
    row.verificationStatus == "verified" && row.issuerId == issuerId && row.domain == domain
  }

  /** Row `k` is the last of them, in fetch order. */
  predicate LastVerified(rows: seq<DomainProofRow>, issuerId: string, domain: string, k: int) {
    && 0 <= k < |rows| && VerifiedFor(rows[k], issuerId, domain)
    && forall j :: k < j < |rows| ==> !VerifiedFor(rows[j], issuerId, domain)
  }

  function GoverningProof(rows: seq<DomainProofRow>, issuerId: string, domain: string): Option<nat> {
    if rows == [] then None
    else if VerifiedFor(rows[|rows| - 1], issuerId, domain) then Some(|rows| - 1)
    else GoverningProof(rows[..|rows| - 1], issuerId, domain)
  }

  lemma {:induction false} GoverningProofIsLast(rows: seq<DomainProofRow>, issuerId: string, domain: string)
    ensures GoverningProof(rows, issuerId, domain).Some? ==>
              LastVerified(rows, issuerId, domain, GoverningProof(rows, issuerId, domain).value)
    ensures forall k :: LastVerified(rows, issuerId, domain, k) ==> GoverningProof(rows, issuerId, domain) == Some(k)
    ensures forall row :: row in rows && VerifiedFor(row, issuerId, domain) ==>
              GoverningProof(rows, issuerId, domain).Some?
    decreases |rows|
  {
    if rows != [] {
      var front, last := rows[..|rows| - 1], rows[|rows| - 1];
      assert rows == front + [last];
      if !VerifiedFor(last, issuerId, domain) {
        GoverningProofIsLast(front, issuerId, domain);
        assert forall k :: LastVerified(rows, issuerId, domain, k) ==> LastVerified(front, issuerId, domain, k);
      }
    }
  }

  lemma {:induction false} SetEntryExactly(entries: Proofs, domain: string, value: Option<Time>, x: Proof<Option<Time>>)
    requires DistinctDomains(entries)
    ensures x in SetEntry(entries, domain, value) <==> x == Proof(domain, value) || (x in entries && x.domain != domain)
  {
    if entries != [] {
      var rest := entries[1..];
      assert entries == [entries[0]] + rest;
      assert forall i :: 0 <= i < |rest| ==> rest[i] == entries[i + 1];
      if entries[0].domain != domain {
        SetEntryExactly(rest, domain, value, x);
      }
    }
  }

  lemma {:induction false} SetEntryKeepsDistinct(entries: Proofs, domain: string, value: Option<Time>)
    requires DistinctDomains(entries)
    ensures DistinctDomains(SetEntry(entries, domain, value))
  {
    if entries != [] && entries[0].domain != domain {
      var rest := entries[1..];
      assert forall i :: 0 <= i < |rest| ==> rest[i] == entries[i + 1];
      SetEntryKeepsDistinct(rest, domain, value);
      var after := SetEntry(rest, domain, value);
      forall i | 0 <= i < |after| ensures after[i].domain != entries[0].domain {
        SetEntryExactly(rest, domain, value, after[i]);
      }
    }
  }

  lemma GroupedAppend(rows: seq<DomainProofRow>, row: DomainProofRow, issuerId: string)
    ensures GroupedProofs(rows + [row], issuerId) ==
            if row.issuerId == issuerId then SetEntry(GroupedProofs(rows, issuerId), row.domain, row.expiresAt)
            else GroupedProofs(rows, issuerId)
  {
    assert (rows + [row])[..|rows|] == rows;
  }

  /** What one more proof row does to an issuer id's dictionary. */
  lemma LastRowGroups(rows: seq<DomainProofRow>, issuerId: string)
    requires rows != []
    ensures var (front, last) := (rows[..|rows| - 1], rows[|rows| - 1]);
            GroupedProofs(VerifiedProofs(rows), issuerId) ==
            if VerifiedFor(last, issuerId, last.domain)
            then SetEntry(GroupedProofs(VerifiedProofs(front), issuerId), last.domain, last.expiresAt)
            else GroupedProofs(VerifiedProofs(front), issuerId)
  {
    var front, last := rows[..|rows| - 1], rows[|rows| - 1];
    if last.verificationStatus == "verified" {
      GroupedAppend(VerifiedProofs(front), last, issuerId);
    } else {
      assert VerifiedProofs(rows) == VerifiedProofs(front);
    }
  }

  lemma {:induction false} GroupIsDistinct(rows: seq<DomainProofRow>, issuerId: string)
    ensures DistinctDomains(GroupedProofs(VerifiedProofs(rows), issuerId))
    decreases |rows|
  {
    if rows != [] {
      var front, last := rows[..|rows| - 1], rows[|rows| - 1];
      GroupIsDistinct(front, issuerId);
      LastRowGroups(rows, issuerId);
      SetEntryKeepsDistinct(GroupedProofs(VerifiedProofs(front), issuerId), last.domain, last.expiresAt);
    }
  }

  /** The dictionary of an issuer id holds each raw domain with the expiry of its last verified row. */
  lemma {:induction false} GroupedExactly(rows: seq<DomainProofRow>, issuerId: string, x: Proof<Option<Time>>)
    ensures var k := GoverningProof(rows, issuerId, x.domain);
            x in GroupedProofs(VerifiedProofs(rows), issuerId) <==>
            k.Some? && k.value < |rows| && rows[k.value].expiresAt == x.value
    decreases |rows|
  {
    if rows != [] {
      var front, last := rows[..|rows| - 1], rows[|rows| - 1];
      GroupedExactly(front, issuerId, x);
      GoverningProofIsLast(front, issuerId, x.domain);
      LastRowGroups(rows, issuerId);
      GroupIsDistinct(front, issuerId);
      SetEntryExactly(GroupedProofs(VerifiedProofs(front), issuerId), last.domain, last.expiresAt, x);
    }
  }

  /** The verified rows of the id name hostnames, and no two spell the same one differently. */
  predicate WellSpelled(rows: seq<DomainProofRow>, issuerId: string) {
    forall a, b :: a in rows && b in rows && VerifiedFor(a, issuerId, a.domain) && VerifiedFor(b, issuerId, b.domain) ==>
      CanonicalDomain(a.domain).Ok? && (CanonicalDomain(a.domain) == CanonicalDomain(b.domain) ==> a.domain == b.domain)
  }

  lemma GroupedRow(rows: seq<DomainProofRow>, issuerId: string, x: Proof<Option<Time>>) returns (k: nat)
    requires x in GroupedProofs(VerifiedProofs(rows), issuerId)
    ensures k < |rows| && LastVerified(rows, issuerId, x.domain, k) && rows[k].expiresAt == x.value
  {
    GroupedExactly(rows, issuerId, x);
    GoverningProofIsLast(rows, issuerId, x.domain);
    k := GoverningProof(rows, issuerId, x.domain).value;
  }

  lemma RowIsGrouped(rows: seq<DomainProofRow>, issuerId: string, k: nat)
    requires k < |rows| && VerifiedFor(rows[k], issuerId, rows[k].domain)
    ensures exists i :: 0 <= i < |GroupedProofs(VerifiedProofs(rows), issuerId)|
                        && GroupedProofs(VerifiedProofs(rows), issuerId)[i].domain == rows[k].domain
    ensures LastVerified(rows, issuerId, rows[k].domain, k) ==>
              Proof(rows[k].domain, rows[k].expiresAt) in GroupedProofs(VerifiedProofs(rows), issuerId)
  {
    assert rows[k] in rows;
    GoverningProofIsLast(rows, issuerId, rows[k].domain);
    var last := GoverningProof(rows, issuerId, rows[k].domain).value;
    GroupedExactly(rows, issuerId, Proof(rows[k].domain, rows[last].expiresAt));
  }

  /** Every key is a hostname, and no two spell the same one. */
  predicate SpelledOnce(entries: Proofs) {
    && (forall i :: 0 <= i < |entries| ==> CanonicalDomain(entries[i].domain).Ok?)
    && forall i, j :: 0 <= i < j < |entries| ==> CanonicalDomain(entries[i].domain) != CanonicalDomain(entries[j].domain)
  }

  lemma EntrySpells(raw: Proof<Option<Time>>, x: Proof<Option<Time>>)
    ensures x in CanonicalEntry(raw, false) <==> Spells(raw, x)
    ensures CanonicalEntry(raw, false) != [] <==> CanonicalDomain(raw.domain).Ok?
    ensures |CanonicalEntry(raw, false)| <= 1
    ensures CanonicalEntry(raw, false) != [] ==> Spells(raw, CanonicalEntry(raw, false)[0])
  {
  }

  lemma AcceptedWhenSpelledOnce(entries: Proofs)
    ensures CanonicalMap(entries, false).Ok? <==> SpelledOnce(entries)
  {
    CanonicalMapExactly(entries, false);
    var f := (entry: Proof<Option<Time>>) => CanonicalEntry(entry, false);
    var key := (entry: Proof<Option<Time>>) => entry.domain;
    forall entry | entry in entries ensures |f(entry)| <= 1 {
      EntrySpells(entry, entry);
    }
    SelectDistinct(entries, f, key);
    if AllHostnames(entries, false) {
      forall i, j | 0 <= i < j < |entries|
        ensures f(entries[i]) != [] && f(entries[j]) != []
        ensures key(f(entries[i])[0]) != key(f(entries[j])[0]) <==>
                CanonicalDomain(entries[i].domain) != CanonicalDomain(entries[j].domain)
      {
        EntrySpells(entries[i], entries[i]);
        EntrySpells(entries[j], entries[j]);
      }
    }
  }

  lemma AcceptedMembers(entries: Proofs, x: Proof<Option<Time>>)
    requires CanonicalMap(entries, false).Ok?
    ensures x in CanonicalMap(entries, false).value <==> exists raw :: raw in entries && Spells(raw, x)
  {
    CanonicalMapExactly(entries, false);
    var f := (entry: Proof<Option<Time>>) => CanonicalEntry(entry, false);
    SelectMembers(entries, f, x);
    if raw :| raw in entries && x in f(raw) {
      EntrySpells(raw, x);
    }
    if raw :| raw in entries && Spells(raw, x) {
      EntrySpells(raw, x);
      assert x in f(raw);
    }
  }

  /** The loader can canonicalise an issuer id's domains exactly when its verified rows are well spelled. */
  lemma DomainsOkExactly(rows: seq<DomainProofRow>, issuerId: string)
    ensures DomainsOf(VerifiedProofs(rows), issuerId).Ok? <==> WellSpelled(rows, issuerId)
  {
    var grouped := GroupedProofs(VerifiedProofs(rows), issuerId);
    GroupIsDistinct(rows, issuerId);
    AcceptedWhenSpelledOnce(grouped);
    if WellSpelled(rows, issuerId) {
      forall i, j | 0 <= i < |grouped| && 0 <= j < |grouped|
        ensures CanonicalDomain(grouped[i].domain).Ok?
        ensures i < j ==> CanonicalDomain(grouped[i].domain) != CanonicalDomain(grouped[j].domain)
      {
        var a := GroupedRow(rows, issuerId, grouped[i]);
        var b := GroupedRow(rows, issuerId, grouped[j]);
        assert rows[a] in rows && rows[b] in rows;
      }
    }
    if SpelledOnce(grouped) {
      forall a, b | && a in rows && b in rows
                    && VerifiedFor(a, issuerId, a.domain) && VerifiedFor(b, issuerId, b.domain)
        ensures CanonicalDomain(a.domain).Ok?
        ensures CanonicalDomain(a.domain) == CanonicalDomain(b.domain) ==> a.domain == b.domain
      {
        var k :| 0 <= k < |rows| && rows[k] == a;
        var l :| 0 <= l < |rows| && rows[l] == b;
        RowIsGrouped(rows, issuerId, k);
        RowIsGrouped(rows, issuerId, l);
        var i :| 0 <= i < |grouped| && grouped[i].domain == a.domain;
        var j :| 0 <= j < |grouped| && grouped[j].domain == b.domain;
        assert i != j ==> CanonicalDomain(grouped[i].domain) != CanonicalDomain(grouped[j].domain);
      }
    }
  }

  predicate ProofRow(row: DomainProofRow, issuerId: string, entry: Proof<Option<Time>>) {
    && row.verificationStatus == "verified" && row.issuerId == issuerId
    && CanonicalDomain(row.domain) == Ok(entry.domain) && row.expiresAt == entry.value
  }

  /** Row `k` gives the issuer id this entry: it proves it, and no later verified row is spelled like it. */
  predicate GivesEntry(rows: seq<DomainProofRow>, issuerId: string, entry: Proof<Option<Time>>, k: int) {
    0 <= k < |rows| && LastVerified(rows, issuerId, rows[k].domain, k) && ProofRow(rows[k], issuerId, entry)
  }

  /** A projected domain's proof is the last verified row, in fetch order, of its issuer id and raw domain. */
  lemma LastVerifiedGoverns(rows: seq<DomainProofRow>, issuerId: string, entry: Proof<Option<Time>>)
    requires DomainsOf(VerifiedProofs(rows), issuerId).Ok?
    ensures entry in IssuerDomains(VerifiedProofs(rows), issuerId) <==> exists k :: GivesEntry(rows, issuerId, entry, k)
    ensures forall k, l :: GivesEntry(rows, issuerId, entry, k) && GivesEntry(rows, issuerId, entry, l) ==> k == l
  {
    var grouped := GroupedProofs(VerifiedProofs(rows), issuerId);
    AcceptedMembers(grouped, entry);
    if entry in IssuerDomains(VerifiedProofs(rows), issuerId) {
      var raw :| raw in grouped && Spells(raw, entry);
      var k := GroupedRow(rows, issuerId, raw);
      assert GivesEntry(rows, issuerId, entry, k);
    }
    if k :| GivesEntry(rows, issuerId, entry, k) {
      RowIsGrouped(rows, issuerId, k);
      assert Spells(Proof(rows[k].domain, rows[k].expiresAt), entry);
    }
    DomainsOkExactly(rows, issuerId);
    forall k, l | GivesEntry(rows, issuerId, entry, k) && GivesEntry(rows, issuerId, entry, l) ensures k == l {
      assert rows[k] in rows && rows[l] in rows && rows[k].domain == rows[l].domain;
    }
  }

  // ----- Which row of an issuer id governs -----

  predicate Projectable(row: IssuerRow) {
    row.enrollmentStatus in {"active", "suspended", "revoked", "expired"}
  }

  /** The record of a projectable row, apart from its domains. */
  function Stem(row: IssuerRow): IssuerRecord
    requires Projectable(row)
  {
    IssuerRecord(
      row.issuerId, row.displayName, row.rootProgramId, row.enrollmentStatus,
      row.createdAt, row.expiresAt, [], row.allowSubdomains, "projection")
  }

  function InstalledIssuers(rows: seq<IssuerRow>, proofs: seq<DomainProofRow>): map<string, IssuerRecord> {
    WriteIssuers(map[], ProjectIssuers(rows, proofs))
  }

  /** The statuses the projection knows are kept as they are. */
  lemma IssuerStatusIsKept(status: string)
    ensures status in ISSUER_PROJECTION <==> status in {"active", "suspended", "revoked", "expired"}
    ensures status in ISSUER_PROJECTION ==> ISSUER_PROJECTION[status] == status
  {
  }

  /** A row gives a record exactly when it is projectable: its stem with the domains of its id. */
  lemma RecordExactlyWhenProjectable(row: IssuerRow, proofs: seq<DomainProofRow>)
    ensures IssuerRecordOf(row, proofs) ==
            if Projectable(row) then [Stem(row).(verifiedDomains := IssuerDomains(proofs, row.issuerId))] else []
  {
    IssuerDomainsCanonical(proofs, row.issuerId);
    IssuerStatusIsKept(row.enrollmentStatus);
  }

  /** Row `i` is the last of its id, in fetch order, with a status the projection knows. */
  predicate LastProjectable(rows: seq<IssuerRow>, id: string, i: int) {
    && 0 <= i < |rows| && rows[i].issuerId == id && Projectable(rows[i])
    && forall j :: i < j < |rows| && rows[j].issuerId == id ==> !Projectable(rows[j])
  }

  /** What one more row does to the record of an id. */
  lemma LastRowInstalls(front: seq<IssuerRow>, last: IssuerRow, proofs: seq<DomainProofRow>, id: string)
    ensures var (before, after) := (InstalledIssuers(front, proofs), InstalledIssuers(front + [last], proofs));
            if last.issuerId == id && Projectable(last) then id in after && IssuerRecordOf(last, proofs) == [after[id]]
            else (id in after <==> id in before) && (id in before ==> after[id] == before[id])
  {
    assert (front + [last])[..|front|] == front;
    RecordExactlyWhenProjectable(last, proofs);
    WriteIssuersAppend(map[], ProjectIssuers(front, proofs), IssuerRecordOf(last, proofs));
  }

  function GoverningRow(rows: seq<IssuerRow>, id: string): Option<nat> {
    if rows == [] then None
    else if rows[|rows| - 1].issuerId == id && Projectable(rows[|rows| - 1]) then Some(|rows| - 1)
    else GoverningRow(rows[..|rows| - 1], id)
  }

  lemma {:induction false} GoverningRowIsLast(rows: seq<IssuerRow>, id: string)
    ensures GoverningRow(rows, id).Some? ==> LastProjectable(rows, id, GoverningRow(rows, id).value)
    ensures forall i :: LastProjectable(rows, id, i) ==> GoverningRow(rows, id) == Some(i)
    decreases |rows|
  {
    if rows != [] && !(rows[|rows| - 1].issuerId == id && Projectable(rows[|rows| - 1])) {
      GoverningRowIsLast(rows[..|rows| - 1], id);
      assert forall i :: LastProjectable(rows, id, i) ==> LastProjectable(rows[..|rows| - 1], id, i);
    }
  }

  lemma {:induction false} GoverningRowInstalls(rows: seq<IssuerRow>, proofs: seq<DomainProofRow>, id: string)
    ensures match GoverningRow(rows, id)
            case None => id !in InstalledIssuers(rows, proofs)
            case Some(i) =>
              && i < |rows| && id in InstalledIssuers(rows, proofs)
              && IssuerRecordOf(rows[i], proofs) == [InstalledIssuers(rows, proofs)[id]]
    decreases |rows|
  {
    if rows != [] {
      var front, last := rows[..|rows| - 1], rows[|rows| - 1];
      assert rows == front + [last];
      GoverningRowInstalls(front, proofs, id);
      LastRowInstalls(front, last, proofs, id);
      assert GoverningRow(front, id).Some? ==> front[GoverningRow(front, id).value] == rows[GoverningRow(front, id).value];
    }
  }

  /** The projected record of an id is that of its last projectable row, in fetch order, if it has one. */
  lemma LastProjectableGoverns(rows: seq<IssuerRow>, proofs: seq<DomainProofRow>, id: string)
    ensures id in InstalledIssuers(rows, proofs) <==> exists i :: LastProjectable(rows, id, i)
    ensures forall i :: LastProjectable(rows, id, i) ==>
              id in InstalledIssuers(rows, proofs)
              && IssuerRecordOf(rows[i], proofs) == [InstalledIssuers(rows, proofs)[id]]
  {
    GoverningRowInstalls(rows, proofs, id);
    GoverningRowIsLast(rows, id);
  }

  lemma {:induction false} LastProjectableFrom(rows: seq<IssuerRow>, id: string, k: nat) returns (i: nat)
    requires k < |rows| && rows[k].issuerId == id && Projectable(rows[k])
    ensures LastProjectable(rows, id, i) && k <= i
    decreases |rows| - k
  {
    if j :| k < j < |rows| && rows[j].issuerId == id && Projectable(rows[j]) {
      i := LastProjectableFrom(rows, id, j);
    } else {
      i := k;
    }
  }

  lemma UnblockedExactly(key: KeyEntry, issuer: IssuerRecord)
    requires key.state != "revoked" && key.state != "suspended"
    ensures BlockingState(key, issuer).None? <==> issuer.status == "active"
  {
  }

  /**
   * A revoked issuer row fails to block a key that is not blocked itself exactly when a later row of the
   * same id, under another root or authority, is the last projectable one and is active.
   */
  lemma RevokedRowIsOverruledExactly(rows: seq<IssuerRow>, proofs: seq<DomainProofRow>, k: nat, key: KeyEntry)
    requires k < |rows| && rows[k].enrollmentStatus == "revoked" && key.state != "revoked" && key.state != "suspended"
    ensures var id := rows[k].issuerId;
            && id in InstalledIssuers(rows, proofs)
            && (BlockingState(key, InstalledIssuers(rows, proofs)[id]).None? <==>
                  exists i :: i > k && LastProjectable(rows, id, i) && rows[i].enrollmentStatus == "active")
  {
    var id := rows[k].issuerId;
    LastProjectableGoverns(rows, proofs, id);
    var i := LastProjectableFrom(rows, id, k);
    RecordExactlyWhenProjectable(rows[i], proofs);
    UnblockedExactly(key, InstalledIssuers(rows, proofs)[id]);
    assert forall j :: LastProjectable(rows, id, j) ==> j == i;
  }

  // ----- Acceptance -----

  /** The slice resolves the key, and under that key and its issuer the presentation is accepted. */
  predicate AcceptsFrom(slice: Slice, keyRef: string, p: Presentation, skewSeconds: nat, now: Time) {
    && keyRef in slice.keys && slice.keys[keyRef].issuerId in slice.issuers
    && VerifyPresentedCode(
         p, TrustContext(slice.keys[keyRef], slice.issuers[slice.keys[keyRef].issuerId], skewSeconds), now).Accepted?
  }

  /** The certificate row admits an artifact issued at `issuedAt` and holds usable material. */
  predicate CertificateAdmits(row: CertificateRow, loads: PemCheck, keyRef: string, issuedAt: Time) {
    && row.certificateId == keyRef
    && Verifies(row.keyStatus)
    && HasMaterial(row, loads)
    && row.notBefore <= issuedAt && (row.notAfter.Some? ==> issuedAt <= row.notAfter.value)
  }

  /** The issuer row is active and in force at `now`. */
  predicate IssuerInForce(row: IssuerRow, issuerId: string, now: Time) {
    && row.issuerId == issuerId && row.enrollmentStatus == "active"
    && row.createdAt <= now && Before(now, row.expiresAt)
  }

  /** A verified proof row that still holds backs the host for the issuer's id. */
  predicate ProofHolds(row: DomainProofRow, issuer: IssuerRow, host: string, now: Time) {
    && row.verificationStatus == "verified" && row.issuerId == issuer.issuerId
    && Before(now, row.expiresAt) && CanonicalDomain(row.domain).Ok?
    && UnderDomain(host, CanonicalDomain(row.domain).value, issuer.allowSubdomains)
  }

  /** The three rows name one issuer id and admit the artifact at `now`. */
  predicate Admits(
    c: CertificateRow, r: IssuerRow, d: DomainProofRow, loads: PemCheck, keyRef: string, p: Presentation, now: Time)
  {
    && CertificateAdmits(c, loads, keyRef, p.window.issuedAt)
    && IssuerInForce(r, c.issuerId, now)
    && HostOf(p).Some? && ProofHolds(d, r, HostOf(p).value, now)
  }

  ghost predicate Justified(t: Tables, loads: PemCheck, keyRef: string, p: Presentation, now: Time) {
    exists c, r, d ::
      c in t.certificates && r in t.issuers && d in t.proofs && Admits(c, r, d, loads, keyRef, p, now)
  }

  /** The issuer and proof rows are those of the certificate's own root, authority and issuer. */
  predicate OwnRows(c: CertificateRow, r: IssuerRow, d: DomainProofRow) {
    && SameIssuer(r, c.rootProgramId, c.delegatedAuthorityId, c.issuerId)
    && SameIssuer(r, d.rootProgramId, d.delegatedAuthorityId, d.issuerId)
  }

  ghost predicate OwnJustified(t: Tables, loads: PemCheck, keyRef: string, p: Presentation, now: Time) {
    exists c, r, d ::
      && c in t.certificates && r in t.issuers && d in t.proofs && Admits(c, r, d, loads, keyRef, p, now)
      && OwnRows(c, r, d)
  }

  // ----- The rows that decide -----

  /** Positions, in fetch order, of the rows an answer rests on. */
  datatype Deciders = Deciders(certificate: nat, issuer: nat, proof: nat)

  /**
   * The certificate's row, the last projectable row of its issuer id, and the last verified row, spelled
   * alike, behind the first domain that covers the host.
   */
  predicate Decide(t: Tables, keyRef: string, p: Presentation, w: Deciders) {
    && w.certificate < |t.certificates| && w.issuer < |t.issuers| && w.proof < |t.proofs|
    && t.certificates[w.certificate].certificateId == keyRef
    && var id := t.certificates[w.certificate].issuerId;
       && LastProjectable(t.issuers, id, w.issuer)
       && HostOf(p).Some?
       && var cover := FirstCover(
            HostOf(p).value, IssuerDomains(VerifiedProofs(t.proofs), id), t.issuers[w.issuer].allowSubdomains);
          cover.Some? && GivesEntry(t.proofs, id, cover.value, w.proof)
  }

  predicate AdmitsAt(t: Tables, w: Deciders, loads: PemCheck, keyRef: string, p: Presentation, now: Time)
    requires w.certificate < |t.certificates| && w.issuer < |t.issuers| && w.proof < |t.proofs|
  {
    Admits(t.certificates[w.certificate], t.issuers[w.issuer], t.proofs[w.proof], loads, keyRef, p, now)
  }

  lemma VerifyingRow(row: CertificateRow, loads: PemCheck, entry: KeyEntry)
    requires EntryOf(row, loads) == [entry] && entry.state != "revoked" && entry.state != "suspended"
    ensures Verifies(row.keyStatus) && HasMaterial(row, loads) && entry.publicKeyPem == row.publicKeyMaterialPem
    ensures entry.notBefore == row.notBefore && entry.notAfter == row.notAfter
    ensures entry.keyRef == row.certificateId && entry.issuerId == row.issuerId
  {
    RowProjectsExactly(row, loads);
  }

  /** What acceptance says about the trust it used. */
  lemma AcceptedShape(p: Presentation, trust: TrustContext, now: Time)
    requires VerifyPresentedCode(p, trust, now).Accepted?
    ensures trust.issuer.status == "active" && trust.key.state != "revoked" && trust.key.state != "suspended"
    ensures trust.key.notBefore <= p.window.issuedAt
    ensures trust.key.notAfter.Some? ==> p.window.issuedAt <= trust.key.notAfter.value
    ensures trust.issuer.issuedAt <= now && Before(now, trust.issuer.expiresAt)
    ensures DeciderProof(p, trust).Some? && Before(now, DeciderProof(p, trust).value.value)
  {
    AcceptedExactly(p, trust, now);
    ClosesAtExactly(p, trust, now);
  }

  /** The domain that decided an acceptance is given by a row that still holds. */
  lemma DecidingProof(t: Tables, row: IssuerRow, trust: TrustContext, p: Presentation, now: Time) returns (k: nat)
    requires Projectable(row) && IssuerRecordOf(row, VerifiedProofs(t.proofs)) == [trust.issuer]
    requires DeciderProof(p, trust).Some? && Before(now, DeciderProof(p, trust).value.value)
    ensures HostOf(p).Some? && k < |t.proofs| && ProofHolds(t.proofs[k], row, HostOf(p).value, now)
    ensures var cover := FirstCover(
              HostOf(p).value, IssuerDomains(VerifiedProofs(t.proofs), row.issuerId), row.allowSubdomains);
            cover.Some? && GivesEntry(t.proofs, row.issuerId, cover.value, k)
  {
    var domains := IssuerDomains(VerifiedProofs(t.proofs), row.issuerId);
    RecordExactlyWhenProjectable(row, VerifiedProofs(t.proofs));
    IssuerDomainsCanonical(VerifiedProofs(t.proofs), row.issuerId);
    CanonicalMapFixed(domains, true);
    var entry := DeciderProof(p, trust).value;
    FirstCoverIsEarliest(HostOf(p).value, domains, row.allowSubdomains);
    assert entry in domains;
    CoversExactly(HostOf(p).value, entry.domain, row.allowSubdomains);
    LastVerifiedGoverns(t.proofs, row.issuerId, entry);
    k :| GivesEntry(t.proofs, row.issuerId, entry, k);
  }

  /** Whatever is accepted under projected trust is decided by rows that admit it. */
  lemma DecidingRows(s: TrustState, loads: PemCheck, keyRef: string, p: Presentation, skewSeconds: nat, now: Time)
    returns (w: Deciders)
    requires Loadable(s) && AcceptsFrom(Projection(s, loads), keyRef, p, skewSeconds, now)
    ensures Decide(s.tables, keyRef, p, w) && AdmitsAt(s.tables, w, loads, keyRef, p, now)
  {
    var (t, slice, proofs) := (s.tables, Projection(s, loads), VerifiedProofs(s.tables.proofs));
    var key, issuer := slice.keys[keyRef], slice.issuers[slice.keys[keyRef].issuerId];
    var trust := TrustContext(key, issuer, skewSeconds);
    KeyHasRow(t.certificates, loads, keyRef);
    var c: nat :| KeyRow(t.certificates, loads, c, key);
    AcceptedShape(p, trust, now);
    VerifyingRow(t.certificates[c], loads, key);
    LastProjectableGoverns(t.issuers, proofs, key.issuerId);
    var i: nat :| LastProjectable(t.issuers, key.issuerId, i);
    RecordExactlyWhenProjectable(t.issuers[i], proofs);
    var k := DecidingProof(t, t.issuers[i], trust, p, now);
    w := Deciders(c, i, k);
  }

  /** A certificate in a verifying status projects with its material and window, rotated and expired ones included. */
  lemma VerifyingEntry(row: CertificateRow, loads: PemCheck, keyRef: string, issuedAt: Time)
    requires CertificateAdmits(row, loads, keyRef, issuedAt)
    ensures |EntryOf(row, loads)| == 1
    ensures var entry := EntryOf(row, loads)[0];
            && entry.keyRef == keyRef && entry.issuerId == row.issuerId
            && entry.publicKeyPem == row.publicKeyMaterialPem && entry.publicKeyPem.Some?
            && entry.notBefore == row.notBefore && entry.notAfter == row.notAfter
            && entry.state == if row.keyStatus == "active" then "active" else "retired"
  {
    RowProjectsExactly(row, loads);
  }

  /** A key and an issuer that rows admit let through whatever is signed and current. */
  lemma AdmittedIsAccepted(
    t: Tables, w: Deciders, loads: PemCheck, keyRef: string, trust: TrustContext, p: Presentation, now: Time)
    requires Decide(t, keyRef, p, w) && AdmitsAt(t, w, loads, keyRef, p, now)
    requires EntryOf(t.certificates[w.certificate], loads) == [trust.key]
    requires IssuerRecordOf(t.issuers[w.issuer], VerifiedProofs(t.proofs)) == [trust.issuer]
    requires SignedByCertificate(p) && ArtifactCurrent(p.window, trust.skewSeconds, now)
    requires p.policy.Some? ==> p.policy.value.allowed
    ensures VerifyPresentedCode(p, trust, now).Accepted?
  {
    var (r, proofs) := (t.issuers[w.issuer], VerifiedProofs(t.proofs));
    AdmittedTrust(t, w, loads, keyRef, trust, p, now);
    RecordExactlyWhenProjectable(r, proofs);
    IssuerDomainsCanonical(proofs, r.issuerId);
    AdmittedCover(t, w, loads, keyRef, trust, p, now);
    AcceptedExactlyWhen(p, trust, now);
  }

  lemma AdmittedTrust(
    t: Tables, w: Deciders, loads: PemCheck, keyRef: string, trust: TrustContext, p: Presentation, now: Time)
    requires Decide(t, keyRef, p, w) && AdmitsAt(t, w, loads, keyRef, p, now)
    requires EntryOf(t.certificates[w.certificate], loads) == [trust.key]
    requires IssuerRecordOf(t.issuers[w.issuer], VerifiedProofs(t.proofs)) == [trust.issuer]
    ensures StatusesPass(trust) && IssuerCurrent(trust.issuer, now) && KeyAdmits(trust.key, p.window.issuedAt)
  {
    VerifyingEntry(t.certificates[w.certificate], loads, keyRef, p.window.issuedAt);
    RecordExactlyWhenProjectable(t.issuers[w.issuer], VerifiedProofs(t.proofs));
  }

  lemma AdmittedCover(
    t: Tables, w: Deciders, loads: PemCheck, keyRef: string, trust: TrustContext, p: Presentation, now: Time)
    requires Decide(t, keyRef, p, w) && AdmitsAt(t, w, loads, keyRef, p, now)
    requires IssuerRecordOf(t.issuers[w.issuer], VerifiedProofs(t.proofs)) == [trust.issuer]
    ensures CoverHolds(HostOf(p).value, trust.issuer.verifiedDomains, trust.issuer.allowSubdomains, now)
  {
    RecordExactlyWhenProjectable(t.issuers[w.issuer], VerifiedProofs(t.proofs));
  }

  /**
   * Acceptance in terms of the tables: under distinct certificates a presentation is accepted exactly when the
   * rows that decide about it admit it, it is signed and current, and no policy refuses it. In particular a
   * rotated or expired certificate goes on verifying what it signed.
   */
  lemma AcceptedExactlyWhenRowsAdmit(
    s: TrustState, loads: PemCheck, keyRef: string, p: Presentation, skewSeconds: nat, now: Time)
    requires Loadable(s) && DistinctCertificates(s.tables.certificates)
    ensures AcceptsFrom(Projection(s, loads), keyRef, p, skewSeconds, now) <==>
            && (exists w :: Decide(s.tables, keyRef, p, w) && AdmitsAt(s.tables, w, loads, keyRef, p, now))
            && SignedByCertificate(p) && ArtifactCurrent(p.window, skewSeconds, now)
            && (p.policy.Some? ==> p.policy.value.allowed)
  {
    var (t, slice) := (s.tables, Projection(s, loads));
    if AcceptsFrom(slice, keyRef, p, skewSeconds, now) {
      var w := DecidingRows(s, loads, keyRef, p, skewSeconds, now);
      AcceptanceIsCurrent(p, TrustContext(slice.keys[keyRef], slice.issuers[slice.keys[keyRef].issuerId], skewSeconds), now);
    }
    if w :| Decide(t, keyRef, p, w) && AdmitsAt(t, w, loads, keyRef, p, now) {
      if SignedByCertificate(p) && ArtifactCurrent(p.window, skewSeconds, now) && (p.policy.Some? ==> p.policy.value.allowed) {
        DecidersResolve(s, loads, keyRef, p, now, w);
        AdmittedIsAccepted(
          t, w, loads, keyRef, TrustContext(slice.keys[keyRef], slice.issuers[slice.keys[keyRef].issuerId], skewSeconds), p, now);
      }
    }
  }

  lemma AcceptanceIsCurrent(p: Presentation, trust: TrustContext, now: Time)
    requires VerifyPresentedCode(p, trust, now).Accepted?
    ensures SignedByCertificate(p) && ArtifactCurrent(p.window, trust.skewSeconds, now)
    ensures p.policy.Some? ==> p.policy.value.allowed
  {
    AcceptedExactly(p, trust, now);
    ClosesAtExactly(p, trust, now);
  }

  /** The projection resolves the key to the entries of the deciding rows. */
  lemma DecidersResolve(s: TrustState, loads: PemCheck, keyRef: string, p: Presentation, now: Time, w: Deciders)
    requires Loadable(s) && DistinctCertificates(s.tables.certificates)
    requires Decide(s.tables, keyRef, p, w) && AdmitsAt(s.tables, w, loads, keyRef, p, now)
    ensures var (t, slice) := (s.tables, Projection(s, loads));
            && keyRef in slice.keys && slice.keys[keyRef].issuerId in slice.issuers
            && EntryOf(t.certificates[w.certificate], loads) == [slice.keys[keyRef]]
            && IssuerRecordOf(t.issuers[w.issuer], VerifiedProofs(t.proofs)) == [slice.issuers[slice.keys[keyRef].issuerId]]
  {
    var t := s.tables;
    var c := t.certificates[w.certificate];
    VerifyingEntry(c, loads, keyRef, p.window.issuedAt);
    KeyOfRow(t.certificates, loads, w.certificate);
    LastProjectableGoverns(t.issuers, VerifiedProofs(t.proofs), c.issuerId);
  }

  /** The schema leaves no choice of deciding rows. */
  lemma DecidersAreUnique(t: Tables, keyRef: string, p: Presentation, v: Deciders, w: Deciders)
    requires DistinctCertificates(t.certificates) && Decide(t, keyRef, p, v) && Decide(t, keyRef, p, w)
    ensures v == w
  {
    assert v.certificate == w.certificate;
    var id := t.certificates[w.certificate].issuerId;
    assert v.issuer == w.issuer;
    var domains := IssuerDomains(VerifiedProofs(t.proofs), id);
    var cover := FirstCover(HostOf(p).value, domains, t.issuers[w.issuer].allowSubdomains);
    FirstCoverIsEarliest(HostOf(p).value, domains, t.issuers[w.issuer].allowSubdomains);
    LastVerifiedGoverns(t.proofs, id, cover.value);
  }

  /** The certificate's own issuer row is the last projectable one of its id, in fetch order. */
  ghost predicate OwnIssuerGoverns(t: Tables, c: CertificateRow) {
    exists i :: LastProjectable(t.issuers, c.issuerId, i)
                && SameIssuer(t.issuers[i], c.rootProgramId, c.delegatedAuthorityId, c.issuerId)
  }

  /** The last verified row of the certificate's issuer id and this domain carries the certificate's root and authority. */
  ghost predicate OwnProofGoverns(t: Tables, c: CertificateRow, domain: string) {
    exists k :: LastVerified(t.proofs, c.issuerId, domain, k)
                && t.proofs[k].rootProgramId == c.rootProgramId && t.proofs[k].delegatedAuthorityId == c.delegatedAuthorityId
  }

  /** Some own issuer row is in force, and some own proof still holds for the host under it. */
  ghost predicate OwnRowsSuffice(t: Tables, c: CertificateRow, host: string, now: Time) {
    exists r, d ::
      r in t.issuers && d in t.proofs && OwnRows(c, r, d) && IssuerInForce(r, c.issuerId, now) && ProofHolds(d, r, host, now)
  }

  lemma OwnRowsGovern(t: Tables, keyRef: string, p: Presentation, w: Deciders)
    requires Decide(t, keyRef, p, w)
    ensures var (c, r, d) := (t.certificates[w.certificate], t.issuers[w.issuer], t.proofs[w.proof]);
            OwnRows(c, r, d) <==> OwnIssuerGoverns(t, c) && OwnProofGoverns(t, c, d.domain)
  {
    var (c, d) := (t.certificates[w.certificate], t.proofs[w.proof]);
    assert LastProjectable(t.issuers, c.issuerId, w.issuer);
    assert LastVerified(t.proofs, c.issuerId, d.domain, w.proof);
    forall i | LastProjectable(t.issuers, c.issuerId, i) ensures i == w.issuer {
    }
    forall k | LastVerified(t.proofs, c.issuerId, d.domain, k) ensures k == w.proof {
    }
  }

  lemma SoleCertificate(rows: seq<CertificateRow>, a: CertificateRow, b: CertificateRow)
    requires DistinctCertificates(rows) && a in rows && b in rows && a.certificateId == b.certificateId
    ensures a == b
  {
    var i :| 0 <= i < |rows| && rows[i] == a;
    var j :| 0 <= j < |rows| && rows[j] == b;
  }

  lemma OwnRowsJustify(t: Tables, c: CertificateRow, loads: PemCheck, keyRef: string, p: Presentation, now: Time)
    requires DistinctCertificates(t.certificates) && c in t.certificates && HostOf(p).Some?
    requires CertificateAdmits(c, loads, keyRef, p.window.issuedAt)
    ensures OwnJustified(t, loads, keyRef, p, now) <==> OwnRowsSuffice(t, c, HostOf(p).value, now)
  {
    if OwnJustified(t, loads, keyRef, p, now) {
      var c', r, d :| && c' in t.certificates && r in t.issuers && d in t.proofs && Admits(c', r, d, loads, keyRef, p, now)
                      && OwnRows(c', r, d);
      SoleCertificate(t.certificates, c', c);
    }
    if OwnRowsSuffice(t, c, HostOf(p).value, now) {
      var r, d :| && r in t.issuers && d in t.proofs && OwnRows(c, r, d)
                  && IssuerInForce(r, c.issuerId, now) && ProofHolds(d, r, HostOf(p).value, now);
      assert Admits(c, r, d, loads, keyRef, p, now);
    }
  }

  /**
   * The deciding rows are the certificate's own exactly when, in fetch order, its own issuer row is the
   * last projectable one of its id and the last verified row of that id and raw domain carries its root
   * and authority. Then the acceptance is justified by own rows; in general it is exactly when the
   * certificate's own issuer row is in force and one of its own proofs holds for the host.
   */
  lemma OwnRowsDecideExactly(
    s: TrustState, loads: PemCheck, keyRef: string, p: Presentation, skewSeconds: nat, now: Time, w: Deciders)
    requires Loadable(s) && SchemaHolds(s.tables) && AcceptsFrom(Projection(s, loads), keyRef, p, skewSeconds, now)
    requires Decide(s.tables, keyRef, p, w)
    ensures var t := s.tables;
            var (c, r, d) := (t.certificates[w.certificate], t.issuers[w.issuer], t.proofs[w.proof]);
            && (OwnRows(c, r, d) <==> OwnIssuerGoverns(t, c) && OwnProofGoverns(t, c, d.domain))
            && (OwnRows(c, r, d) ==> OwnJustified(t, loads, keyRef, p, now))
            && (OwnJustified(t, loads, keyRef, p, now) <==> OwnRowsSuffice(t, c, HostOf(p).value, now))
  {
    var t := s.tables;
    var v := DecidingRows(s, loads, keyRef, p, skewSeconds, now);
    DecidersAreUnique(t, keyRef, p, v, w);
    var (c, r, d) := (t.certificates[w.certificate], t.issuers[w.issuer], t.proofs[w.proof]);
    assert c in t.certificates && r in t.issuers && d in t.proofs && Admits(c, r, d, loads, keyRef, p, now);
    OwnRowsGovern(t, keyRef, p, w);
    OwnRowsJustify(t, c, loads, keyRef, p, now);
  }

  /** No two issuer rows share an id, whatever their roots and authorities. */
  predicate DistinctIssuerIds(rows: seq<IssuerRow>) {
    DistinctBy(rows, (row: IssuerRow) => row.issuerId)
  }

  lemma SoleIssuerRow(rows: seq<IssuerRow>, a: IssuerRow, b: IssuerRow)
    requires DistinctIssuerIds(rows) && a in rows && b in rows && a.issuerId == b.issuerId
    ensures a == b
  {
    var i :| 0 <= i < |rows| && rows[i] == a;
    var j :| 0 <= j < |rows| && rows[j] == b;
  }

  /** A referencing row's issuer row is the only one of its id. */
  lemma ReferencedRow(rows: seq<IssuerRow>, r: IssuerRow, root: string, authority: string, issuerId: string)
    requires DistinctIssuerIds(rows) && r in rows && r.issuerId == issuerId
    requires HasIssuer(rows, root, authority, issuerId)
    ensures SameIssuer(r, root, authority, issuerId)
  {
    var i :| 0 <= i < |rows| && SameIssuer(rows[i], root, authority, issuerId);
    assert rows[i] in rows;
    SoleIssuerRow(rows, rows[i], r);
  }

  /** With distinct issuer ids, foreign keys make the justifying rows the certificate's own. */
  lemma DistinctIdsNameOwnRows(t: Tables, loads: PemCheck, keyRef: string, p: Presentation, now: Time)
    requires Justified(t, loads, keyRef, p, now) && ForeignKeys(t) && DistinctIssuerIds(t.issuers)
    ensures OwnJustified(t, loads, keyRef, p, now)
  {
    var c, r, d :| c in t.certificates && r in t.issuers && d in t.proofs && Admits(c, r, d, loads, keyRef, p, now);
    ReferencedRow(t.issuers, r, c.rootProgramId, c.delegatedAuthorityId, c.issuerId);
    ReferencedRow(t.issuers, r, d.rootProgramId, d.delegatedAuthorityId, d.issuerId);
  }

  /**
   * Whatever is accepted under projected trust is justified by rows of the projected state: a usable
   * certificate row that admits the artifact, an active issuer row in force, and a verified proof row
   * that still holds for the host, all of one issuer id; with distinct issuer ids they are the
   * certificate's own.
   */
  lemma AcceptanceIsJustified(
    s: TrustState, loads: PemCheck, keyRef: string, p: Presentation, skewSeconds: nat, now: Time)
    requires Loadable(s) && AcceptsFrom(Projection(s, loads), keyRef, p, skewSeconds, now)
    ensures Justified(s.tables, loads, keyRef, p, now)
    ensures ForeignKeys(s.tables) && DistinctIssuerIds(s.tables.issuers) ==> OwnJustified(s.tables, loads, keyRef, p, now)
  {
    var w := DecidingRows(s, loads, keyRef, p, skewSeconds, now);
    assert s.tables.certificates[w.certificate] in s.tables.certificates;
    assert s.tables.issuers[w.issuer] in s.tables.issuers && s.tables.proofs[w.proof] in s.tables.proofs;
    if ForeignKeys(s.tables) && DistinctIssuerIds(s.tables.issuers) {
      DistinctIdsNameOwnRows(s.tables, loads, keyRef, p, now);
    }
  }

  // ----- Failing inputs -----

  lemma OneKey(c: CertificateRow, loads: PemCheck)
    ensures WriteKeys(map[], ProjectKeys([c], loads)) ==
            match ProjectCertificateRow(c, loads).entry
            case Some(entry) => map[entry.keyRef := entry]
            case None => map[]
  {
    assert [c][..0] == [];
    assert ProjectKeys([c], loads) == EntryOf(c, loads);
    WriteKeysAppend(map[], [], EntryOf(c, loads));
    assert [] + EntryOf(c, loads) == EntryOf(c, loads);
  }

  lemma TwoIssuersReference(own: IssuerRow, other: IssuerRow)
    ensures HasIssuer([own, other], own.rootProgramId, own.delegatedAuthorityId, own.issuerId)
    ensures HasIssuer([own, other], other.rootProgramId, other.delegatedAuthorityId, other.issuerId)
  {
    assert SameIssuer([own, other][0], own.rootProgramId, own.delegatedAuthorityId, own.issuerId);
    assert SameIssuer([own, other][1], other.rootProgramId, other.delegatedAuthorityId, other.issuerId);
  }

  /**
   * The failing input: a certificate whose own issuer row is revoked, and a row of the same id under
   * another root, active and fetched later. The schema holds, and nothing blocks the certificate's key.
   */
  lemma AnotherRootsRowUnblocks(c: CertificateRow, own: IssuerRow, other: IssuerRow, token: Token, loads: PemCheck)
    requires c.keyStatus == "active" && HasMaterial(c, loads)
    requires SameIssuer(own, c.rootProgramId, c.delegatedAuthorityId, c.issuerId) && own.enrollmentStatus == "revoked"
    requires other.issuerId == own.issuerId && other.rootProgramId != own.rootProgramId && other.enrollmentStatus == "active"
    ensures var s := TrustState(Tables([c], [own, other], []), Some(token));
            && SchemaHolds(s.tables) && Loadable(s)
            && var slice := Projection(s, loads);
               && c.certificateId in slice.keys && c.issuerId in slice.issuers
               && slice.keys[c.certificateId].issuerId == c.issuerId
               && BlockingState(slice.keys[c.certificateId], slice.issuers[c.issuerId]) == None
  {
    TwoRowsSchema(c, own, other);
    assert VerifiedProofs([]) == [];
    ActiveKey(c, loads);
    OtherRowGoverns(own, other);
    UnblockedExactly(
      WriteKeys(map[], ProjectKeys([c], loads))[c.certificateId], InstalledIssuers([own, other], [])[own.issuerId]);
  }

  lemma TwoRowsSchema(c: CertificateRow, own: IssuerRow, other: IssuerRow)
    requires SameIssuer(own, c.rootProgramId, c.delegatedAuthorityId, c.issuerId)
    requires other.rootProgramId != own.rootProgramId
    ensures SchemaHolds(Tables([c], [own, other], []))
  {
    TwoIssuersReference(own, other);
  }

  lemma OtherRowGoverns(own: IssuerRow, other: IssuerRow)
    requires other.issuerId == own.issuerId && other.enrollmentStatus == "active"
    ensures own.issuerId in InstalledIssuers([own, other], [])
    ensures InstalledIssuers([own, other], [])[own.issuerId].status == "active"
  {
    LastProjectableGoverns([own, other], [], own.issuerId);
    assert LastProjectable([own, other], own.issuerId, 1);
    RecordExactlyWhenProjectable(other, []);
  }

  lemma SingleIsCanonical(domain: string, expiresAt: Option<Time>)
    requires IsCanonicalDomain(domain)
    ensures IsCanonicalMap([Proof(domain, expiresAt)])
  {
  }

  lemma OneProofGroup(d: DomainProofRow)
    requires d.verificationStatus == "verified"
    ensures VerifiedProofs([d]) == [d] && ProofIssuers([d]) == {d.issuerId}
    ensures GroupedProofs([d], d.issuerId) == [Proof(d.domain, d.expiresAt)]
  {
    assert [d][..0] == [];
    assert [d][0].issuerId in ProofIssuers([d]);
  }

  /** The only verified proof gives its issuer id its only domain. */
  lemma OneProofDomains(d: DomainProofRow)
    requires d.verificationStatus == "verified" && IsCanonicalDomain(d.domain)
    ensures DomainsUnambiguous(VerifiedProofs([d]))
    ensures IssuerDomains(VerifiedProofs([d]), d.issuerId) == [Proof(d.domain, d.expiresAt)]
  {
    OneProofGroup(d);
    SingleIsCanonical(d.domain, d.expiresAt);
    CanonicalMapFixed([Proof(d.domain, d.expiresAt)], false);
  }

  lemma PlainAcceptance(p: Presentation, trust: TrustContext, domain: string, expiresAt: Option<Time>, now: Time)
    requires BlockingState(trust.key, trust.issuer).None? && trust.key.publicKeyPem.Some?
    requires SignedByCertificate(p)
    requires TimeWindows(now, p.window, trust.key, trust.issuer, trust.skewSeconds).None?
    requires trust.issuer.verifiedDomains == [Proof(domain, expiresAt)] && IsCanonicalDomain(domain) && Before(now, expiresAt)
    requires p.rawHost == Some(domain) && p.policy.None?
    ensures VerifyPresentedCode(p, trust, now).Accepted?
  {
    SingleIsCanonical(domain, expiresAt);
    CoverDecidesAcceptance(p, trust, now);
    OnlyCover(domain, expiresAt, trust.issuer.allowSubdomains, now);
    assert HostOf(p) == Some(domain);
  }

  lemma OnlyCover(domain: string, expiresAt: Option<Time>, allowSubdomains: bool, now: Time)
    requires Before(now, expiresAt)
    ensures CoverHolds(domain, [Proof(domain, expiresAt)], allowSubdomains, now)
  {
  }

  /** An active key and the record of an active issuer row with one domain accept a current code for it. */
  lemma ActiveRowsAccept(
    c: CertificateRow, own: IssuerRow, d: DomainProofRow, loads: PemCheck, trust: TrustContext, p: Presentation, now: Time)
    requires trust.key.state == "active" && trust.key.publicKeyPem.Some?
    requires trust.key.notBefore == c.notBefore && trust.key.notAfter == c.notAfter
    requires CertificateAdmits(c, loads, c.certificateId, p.window.issuedAt) && IssuerInForce(own, c.issuerId, now)
    requires trust.issuer == Stem(own).(verifiedDomains := [Proof(d.domain, d.expiresAt)]) && trust.issuer.status == "active"
    requires IsCanonicalDomain(d.domain) && Before(now, d.expiresAt)
    requires p.rawHost == Some(d.domain) && p.policy.None?
    requires SignedByCertificate(p) && ArtifactCurrent(p.window, trust.skewSeconds, now)
    ensures VerifyPresentedCode(p, trust, now).Accepted?
  {
    TimeWindowsExactly(p, trust, now);
    PlainAcceptance(p, trust, d.domain, d.expiresAt, now);
  }

  /** An active row and a pending one of the same id project to the active one's record. */
  lemma ActiveRowInstalls(own: IssuerRow, other: IssuerRow, proofs: seq<DomainProofRow>)
    requires own.enrollmentStatus == "active" && other.issuerId == own.issuerId && other.enrollmentStatus == "pending"
    ensures var issuers := InstalledIssuers([own, other], proofs);
            own.issuerId in issuers
            && issuers[own.issuerId] == Stem(own).(verifiedDomains := IssuerDomains(proofs, own.issuerId))
            && issuers[own.issuerId].status == "active"
  {
    LastProjectableGoverns([own, other], proofs, own.issuerId);
    assert LastProjectable([own, other], own.issuerId, 0);
    RecordExactlyWhenProjectable(own, proofs);
  }

  lemma OneProofSchema(c: CertificateRow, own: IssuerRow, other: IssuerRow, d: DomainProofRow)
    requires SameIssuer(own, c.rootProgramId, c.delegatedAuthorityId, c.issuerId)
    requires SameIssuer(other, d.rootProgramId, d.delegatedAuthorityId, d.issuerId) && other.rootProgramId != own.rootProgramId
    ensures SchemaHolds(Tables([c], [own, other], [d]))
  {
    TwoIssuersReference(own, other);
  }

  lemma ForeignProofOwnsNothing(
    c: CertificateRow, own: IssuerRow, other: IssuerRow, d: DomainProofRow, loads: PemCheck, keyRef: string,
    p: Presentation, now: Time)
    requires d.rootProgramId != c.rootProgramId
    ensures !OwnJustified(Tables([c], [own, other], [d]), loads, keyRef, p, now)
  {
  }

  lemma ActiveKey(c: CertificateRow, loads: PemCheck)
    requires c.keyStatus == "active" && HasMaterial(c, loads)
    ensures var keys := WriteKeys(map[], ProjectKeys([c], loads));
            c.certificateId in keys
            && var key := keys[c.certificateId];
               && key.state == "active" && key.publicKeyPem.Some? && key.issuerId == c.issuerId
               && key.notBefore == c.notBefore && key.notAfter == c.notAfter
  {
    RowProjectsExactly(c, loads);
    OneKey(c, loads);
  }

  /**
   * The failing input for proofs: root A's issuer is active and holds the certificate, root B's issuer of
   * the same id is pending, and the only verified proof of the domain was filed under B. The schema holds,
   * a code signed under A's certificate is accepted for that domain, and no own rows justify it.
   */
  lemma AnotherRootsProofAccepts(
    c: CertificateRow, own: IssuerRow, other: IssuerRow, d: DomainProofRow, token: Token, loads: PemCheck,
    p: Presentation, skewSeconds: nat, now: Time)
    requires c.keyStatus == "active" && CertificateAdmits(c, loads, c.certificateId, p.window.issuedAt)
    requires SameIssuer(own, c.rootProgramId, c.delegatedAuthorityId, c.issuerId) && IssuerInForce(own, c.issuerId, now)
    requires other.issuerId == own.issuerId && other.rootProgramId != own.rootProgramId && other.enrollmentStatus == "pending"
    requires SameIssuer(other, d.rootProgramId, d.delegatedAuthorityId, d.issuerId)
    requires d.verificationStatus == "verified" && IsCanonicalDomain(d.domain) && Before(now, d.expiresAt)
    requires p.rawHost == Some(d.domain) && p.policy.None?
    requires SignedByCertificate(p) && ArtifactCurrent(p.window, skewSeconds, now)
    ensures var s := TrustState(Tables([c], [own, other], [d]), Some(token));
            && SchemaHolds(s.tables) && Loadable(s)
            && AcceptsFrom(Projection(s, loads), c.certificateId, p, skewSeconds, now)
            && !OwnJustified(s.tables, loads, c.certificateId, p, now)
  {
    var s := TrustState(Tables([c], [own, other], [d]), Some(token));
    OneProofSchema(c, own, other, d);
    OneProofDomains(d);
    ActiveRowInstalls(own, other, VerifiedProofs([d]));
    ActiveKey(c, loads);
    var slice := Projection(s, loads);
    var trust := TrustContext(slice.keys[c.certificateId], slice.issuers[c.issuerId], skewSeconds);
    ActiveRowsAccept(c, own, d, loads, trust, p, now);
    ForeignProofOwnsNothing(c, own, other, d, loads, c.certificateId, p, now);
  }

  // ----- Over whole runs -----

  lemma JustifiedInAnyOrder(
    fetched: TrustState, committed: TrustState, loads: PemCheck, keyRef: string, p: Presentation, now: Time)
    requires SameRows(fetched, committed) && SchemaHolds(committed.tables)
    requires Justified(fetched.tables, loads, keyRef, p, now)
    ensures Justified(committed.tables, loads, keyRef, p, now)
  {
    SameRowsSameFacts(fetched, committed);
    var c, r, d :|
      c in fetched.tables.certificates && r in fetched.tables.issuers && d in fetched.tables.proofs
      && Admits(c, r, d, loads, keyRef, p, now);
    assert c in committed.tables.certificates && r in committed.tables.issuers && d in committed.tables.proofs;
  }

  /** Some fetch order of the state's rows projects to trust under which the presentation is accepted. */
  ghost predicate AcceptedInSomeOrder(
    state: TrustState, loads: PemCheck, keyRef: string, p: Presentation, skewSeconds: nat, now: Time)
  {
    exists fetched ::
      SameRows(fetched, state) && Loadable(fetched) && AcceptsFrom(Projection(fetched, loads), keyRef, p, skewSeconds, now)
  }

  /**
   * The rows of version `i`, which was the committed state at `at`, justify the acceptance: in some fetch
   * order they lead to it, so its deciding rows are among them.
   */
  ghost predicate JustifiedAsOf(
    log: seq<Version>, i: nat, at: Time, loads: PemCheck, keyRef: string, p: Presentation, skewSeconds: nat, now: Time)
  {
    && CurrentAt(log, i, at)
    && AcceptedInSomeOrder(log[i].state, loads, keyRef, p, skewSeconds, now)
    && Justified(log[i].state.tables, loads, keyRef, p, now)
    && (DistinctIssuerIds(log[i].state.tables.issuers) ==> OwnJustified(log[i].state.tables, loads, keyRef, p, now))
  }

  /** A version no earlier than one that was current at an instant was current then or later. */
  lemma LaterBackingIsNewer(log: seq<Version>, clock: Time, a: nat, aAt: Time, b: nat, bAt: Time) returns (at: Time)
    requires Chronological(log, clock) && CurrentAt(log, a, aAt) && CurrentAt(log, b, bAt) && a <= b
    ensures CurrentAt(log, b, at) && aAt <= at
  {
    at := if a == b then aAt else bAt;
    if a < b {
      assert aAt <= log[a + 1].since <= log[b].since;
    }
  }

  /** An acceptance under entries the slice still shares with a state's projection is justified by the state's rows. */
  lemma SliceAcceptanceIsJustified(
    state: TrustState, slice: Slice, issuerIds: set<string>, keyRefs: set<string>, loads: PemCheck,
    keyRef: string, p: Presentation, skewSeconds: nat, now: Time)
    requires ProjectsOutside(state, slice, issuerIds, keyRefs, loads) && SchemaHolds(state.tables)
    requires AcceptsFrom(slice, keyRef, p, skewSeconds, now)
    requires keyRef !in keyRefs && slice.keys[keyRef].issuerId !in issuerIds
    ensures AcceptedInSomeOrder(state, loads, keyRef, p, skewSeconds, now)
    ensures Justified(state.tables, loads, keyRef, p, now)
    ensures DistinctIssuerIds(state.tables.issuers) ==> OwnJustified(state.tables, loads, keyRef, p, now)
  {
    var fetched :| && SameRows(fetched, state) && Loadable(fetched)
                   && AgreeOutside(slice, Projection(fetched, loads), issuerIds, keyRefs);
    assert AcceptsFrom(Projection(fetched, loads), keyRef, p, skewSeconds, now);
    AcceptanceIsJustified(fetched, loads, keyRef, p, skewSeconds, now);
    JustifiedInAnyOrder(fetched, state, loads, keyRef, p, now);
    if DistinctIssuerIds(state.tables.issuers) {
      DistinctIdsNameOwnRows(state.tables, loads, keyRef, p, now);
    }
  }

  /** No local write since the last reload has disturbed the projected key or its issuer. */
  predicate UntouchedTrust(r: System, keyRef: string) {
    var slice := ProjectedSlice(r.store);
    keyRef in slice.keys && keyRef !in r.touchedKeys && slice.keys[keyRef].issuerId !in r.touchedIssuers
  }

  lemma AcceptanceIsJustifiedIn(
    r: System, loads: PemCheck, k: nat, keyRef: string, p: Presentation, skewSeconds: nat, now: Time)
    returns (i: nat, at: Time)
    requires Invariant(r, loads) && r.manager.maxStalenessSeconds >= 0
    requires k < |r.answers| && Answering(r.answers[k].kind)
    requires AcceptsFrom(ProjectedSlice(r.store), keyRef, p, skewSeconds, now) && UntouchedTrust(r, keyRef)
    ensures r.answers[k].now - r.manager.maxStalenessSeconds * SECOND <= at
    ensures JustifiedAsOf(r.log, i, at, loads, keyRef, p, skewSeconds, now)
  {
    var a := r.answers[k];
    assert AnswerIsBacked(r, a, loads);
    i := r.backing;
    at := LaterBackingIsNewer(r.log, r.clock, a.backing, a.confirmedAt, r.backing, r.confirmedAt);
    SliceAcceptanceIsJustified(
      r.log[i].state, ProjectedSlice(r.store), r.touchedIssuers, r.touchedKeys, loads, keyRef, p, skewSeconds, now);
  }

  /**
   * Over every run: once a refresh answered at caller time `a.now`, an acceptance under projected entries
   * that no local write has disturbed since the last reload is justified by rows that were the committed
   * state at some instant no earlier than `a.now` minus the budget, and by the certificate's own rows when
   * that state's issuer ids were distinct.
   */
  lemma AcceptanceIsRecentlyJustified(
    s: System, events: seq<Event>, loads: PemCheck, k: nat, keyRef: string,
    p: Presentation, skewSeconds: nat, now: Time)
    requires Initial(s) && s.manager.maxStalenessSeconds >= 0
    requires var r := Run(s, events, loads);
             && k < |r.answers| && Answering(r.answers[k].kind)
             && AcceptsFrom(ProjectedSlice(r.store), keyRef, p, skewSeconds, now) && UntouchedTrust(r, keyRef)
    ensures var r := Run(s, events, loads);
            exists i: nat, at: Time ::
              && r.answers[k].now - s.manager.maxStalenessSeconds * SECOND <= at
              && JustifiedAsOf(r.log, i, at, loads, keyRef, p, skewSeconds, now)
  {
    RunKeepsInvariant(s, events, loads);
    RunKeepsBudget(s, events, loads);
    var i, at := AcceptanceIsJustifiedIn(Run(s, events, loads), loads, k, keyRef, p, skewSeconds, now);
  }
}

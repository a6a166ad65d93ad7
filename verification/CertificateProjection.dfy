/**
 * What each certificate row becomes in the projection, in terms of the row's own columns: a key, a defect
 * or both, and never nothing.
 */
module CertificateProjection {
  import opened Wrappers
  import opened Counting
  import opened Text
  import opened TrustRules
  import opened TrustTransitions
  import opened TrustDatabase
  import opened TrustProjection

  /** The row's key text is more than white space, and the library reads it. */
  predicate HasMaterial(row: CertificateRow, loads: PemCheck) {
    row.publicKeyMaterialPem.Some? && !Blank(row.publicKeyMaterialPem.value) && loads(row.publicKeyMaterialPem.value)
  }

  /** A status under which artifacts are still verified. */
  predicate Verifies(status: string) {
    status == "active" || status == "rotated" || status == "expired"
  }

  /** A status that refuses whatever the key signed. */
  predicate Blocks(status: string) {
    status == "suspended" || status == "revoked"
  }

  predicate IsProjected(row: CertificateRow, loads: PemCheck) {
    Blocks(row.keyStatus) || (Verifies(row.keyStatus) && HasMaterial(row, loads))
  }

  lemma MaterialExactly(row: CertificateRow, loads: PemCheck)
    ensures UsablePublicKey(row.publicKeyMaterialPem, loads) <==> HasMaterial(row, loads)
  {
    if row.publicKeyMaterialPem.Some? {
      TrimsAwayExactly(row.publicKeyMaterialPem.value);
    }
  }

  lemma StatusProjectsExactly(status: string)
    ensures status in KEY_PROJECTION <==> Verifies(status) || Blocks(status)
    ensures Verifies(status) ==> KEY_PROJECTION[status] == if status == "active" then "active" else "retired"
    ensures Blocks(status) ==> KEY_PROJECTION[status] == status
  {
  }

  /**
   * The key and the defect of a row. Rows that block are projected even without key text, and then reported;
   * rows that verify are projected only with it, and otherwise reported as excluded.
   */
  lemma RowProjectsExactly(row: CertificateRow, loads: PemCheck)
    ensures EntryOf(row, loads) ==
            if !IsProjected(row, loads) then []
            else
              [KeyEntry(
                 row.certificateId, row.issuerId, row.algorithmId,
                 if HasMaterial(row, loads) then row.publicKeyMaterialPem else None,
                 if row.keyStatus == "rotated" || row.keyStatus == "expired" then "retired" else row.keyStatus,
                 row.notBefore, row.notAfter, row.revokedAt, row.revocationReason, "projection")]
    ensures DefectOf(row, loads) ==
            if !IsProjected(row, loads) then [Defect(ExcludedVerifyingRow, row.certificateId)]
            else if !HasMaterial(row, loads) then [Defect(ProjectedBlockingRow, row.certificateId)]
            else []
  {
    MaterialExactly(row, loads);
    StatusProjectsExactly(row.keyStatus);
  }

  function Excluded(defects: seq<Defect>): nat {
    Count(defects, (d: Defect) => d.defectClass == ExcludedVerifyingRow)
  }

  function Bare(keys: seq<KeyEntry>): nat {
    Count(keys, (key: KeyEntry) => key.publicKeyPem == None)
  }

  lemma AppendedRow(keys: seq<KeyEntry>, defects: seq<Defect>, row: CertificateRow, loads: PemCheck)
    ensures var (entry, defect) := (EntryOf(row, loads), DefectOf(row, loads));
            && |keys + entry| + Excluded(defects + defect) == |keys| + Excluded(defects) + 1
            && |defects + defect| - Excluded(defects + defect) - Bare(keys + entry) ==
               |defects| - Excluded(defects) - Bare(keys)
  {
    RowProjectsExactly(row, loads);
    var (entry, defect) := (EntryOf(row, loads), DefectOf(row, loads));
    if entry == [] {
      assert keys + entry == keys;
    } else {
      CountAppend(keys, entry[0], (key: KeyEntry) => key.publicKeyPem == None);
    }
    if defect == [] {
      assert defects + defect == defects;
    } else {
      CountAppend(defects, defect[0], (d: Defect) => d.defectClass == ExcludedVerifyingRow);
    }
  }

  /**
   * No row is lost: every certificate is a key or an excluded row, and every key without material is
   * matched by a defect that reports it.
   */
  lemma {:induction false} EveryRowIsAccountedFor(rows: seq<CertificateRow>, loads: PemCheck)
    ensures |ProjectKeys(rows, loads)| + Excluded(ProjectDefects(rows, loads)) == |rows|
    ensures |ProjectDefects(rows, loads)| == Excluded(ProjectDefects(rows, loads)) + Bare(ProjectKeys(rows, loads))
  {
    if rows != [] {
      var front, last := rows[..|rows| - 1], rows[|rows| - 1];
      EveryRowIsAccountedFor(front, loads);
      AppendedRow(ProjectKeys(front, loads), ProjectDefects(front, loads), last, loads);
    }
  }
}

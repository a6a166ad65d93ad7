/**
 * Issuer records, signing keys and the precedence-ordered trust rules both the
 * scanner and the verifier apply to them.
 */
module TrustRules {
  import opened Wrappers
  import opened VerifiedDomains
  import opened SignedSchema

  /** Instants, in microseconds. */
  type Time = int

  const SECOND: Time := 1_000_000

  datatype IssuerRecord = IssuerRecord(
    issuerId: string,
    issuerName: string,
    rootId: string,
    status: string,
    issuedAt: Time,
    expiresAt: Option<Time>,
    verifiedDomains: seq<Proof<Option<Time>>>,
    allowSubdomains: bool,
    source: string)

  datatype KeyEntry = KeyEntry(
    keyRef: string,
    issuerId: string,
    algorithmId: string,
    publicKeyPem: Option<string>,
    state: string,
    notBefore: Time,
    notAfter: Option<Time>,
    revokedAt: Option<Time>,
    revocationReason: Option<string>,
    source: string)

  /** A row the projection could not take over as it is, kept for the operator. */
  datatype DefectClass = ProjectedBlockingRow | ExcludedVerifyingRow

  datatype Defect = Defect(defectClass: DefectClass, rowRef: string)

  const KEY_STATES := {"active", "retired", "revoked", "suspended"}
  const VERIFYING_STATES := {"active", "retired"}

  datatype Refusal = Refusal(stage: string, cause: string)

  /** Status-based blocks, which no clock can lift. */
  function BlockingState(key: KeyEntry, issuer: IssuerRecord): Option<Refusal> {
    if issuer.status == "revoked" then Some(Refusal("issuer_status", "issuer-revoked"))
    else if issuer.status == "expired" then Some(Refusal("issuer_status", "record-expired"))
    else if issuer.status != "active" then Some(Refusal("issuer_status", "issuer-suspended"))
    else if key.state == "revoked" then Some(Refusal("key_status", "key-revoked"))
    else if key.state == "suspended" then Some(Refusal("key_status", "key-suspended"))
    else None
  }

  /** The validity window an artifact claims, as read from its timestamps. */
  datatype Window = Window(issuedAt: Time, expiresAt: Option<Time>)

  /** Reads the window; the parser has already refused claims whose timestamps do not read. */
  function ClaimedWindow(claims: Claims, clock: TimestampReader): Window
    requires WellFormed(claims, clock)
  {
    Window(
      clock(claims.issuedAt).value,
      if claims.expiresAt.None? then None else Some(clock(claims.expiresAt.value).value))
  }

  /** The first window this artifact misses, if any. */
  function TimeWindows(now: Time, window: Window, key: KeyEntry, issuer: IssuerRecord, skewSeconds: nat)
    : Option<Refusal>
  {
    var skew := skewSeconds * SECOND;
    if now < issuer.issuedAt then Some(Refusal("issuer_status", "record-not-yet-valid"))
    else if issuer.expiresAt.Some? && now >= issuer.expiresAt.value then Some(Refusal("issuer_status", "record-expired"))
    else if window.issuedAt < key.notBefore || (key.notAfter.Some? && window.issuedAt > key.notAfter.value) then
      Some(Refusal("key_status", "key-window-mismatch"))
    else if now < window.issuedAt - skew then Some(Refusal("time_window", "object-not-yet-valid"))
    else if window.expiresAt.Some? && now >= window.expiresAt.value + skew then
      Some(Refusal("time_window", "object-expired"))
    else None
  }
}

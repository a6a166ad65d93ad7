/**
 * The verifier's pipeline over one presentation: blocking states, key material,
 * signature, time windows, destination. It keeps no state between presentations.
 */
module NarrowedVerifier {
  import opened Wrappers
  import opened Text
  import opened VerifiedDomains
  import opened SignedSchema
  import opened TrustRules

  // ----- Destination matching -----

  /** What the issuer's destination policy says about one destination; absent when no rule applies. */
  datatype PolicyDecision = PolicyDecision(allowed: bool, matchedDomain: Option<string>, cause: string)

  datatype DestinationVerdict =
    | DestinationRefused(cause: string)
    | DestinationMatched(domain: string)

  predicate DomainCovers(host: string, domain: string, allowSubdomains: bool) {
    host == domain || (allowSubdomains && IsSameOrSubdomain(host, domain))
  }

  /** The verdict once `proof` is the first verified domain that covers the host. */
  function JudgeMatch(proof: Proof<Option<Time>>, policy: Option<PolicyDecision>, now: Time): DestinationVerdict {
    if proof.value.Some? && proof.value.value <= now then DestinationRefused("destination-not-authorized")
    else
      match policy
      case None => DestinationMatched(proof.domain)
      case Some(decision) =>
        if !decision.allowed then DestinationRefused(decision.cause)
        else DestinationMatched(if decision.matchedDomain.Some? then decision.matchedDomain.value else proof.domain)
  }

  /** The first verified domain, in map order, that covers the host. */
  function FirstCover(host: string, proofs: seq<Proof<Option<Time>>>, allowSubdomains: bool): Option<Proof<Option<Time>>> {
    if proofs == [] then None
    else if DomainCovers(host, proofs[0].domain, allowSubdomains) then Some(proofs[0])
    else FirstCover(host, proofs[1..], allowSubdomains)
  }

  /** `rawHost` is the host the URL parser extracted from the payload, if it could. */
  function MatchDestination(
    rawHost: Option<string>,
    proofs: seq<Proof<Option<Time>>>,
    allowSubdomains: bool,
    policy: Option<PolicyDecision>,
    now: Time): DestinationVerdict
  {
    if rawHost.None? || CanonicalDomain(rawHost.value).Err? then DestinationRefused("")
    else
      match CanonicalMap(proofs, true)
      case Err(_) => DestinationRefused("policy-invalid")
      case Ok(normalized) =>
        match FirstCover(CanonicalDomain(rawHost.value).value, normalized, allowSubdomains)
        case None => DestinationRefused("")
        case Some(proof) => JudgeMatch(proof, policy, now)
  }

  /** The matching loop: the first rule that covers the host decides. */
  method MatchPayload(
    rawHost: Option<string>,
    proofs: seq<Proof<Option<Time>>>,
    allowSubdomains: bool,
    policy: Option<PolicyDecision>,
    now: Time) returns (verdict: DestinationVerdict)
    ensures verdict == MatchDestination(rawHost, proofs, allowSubdomains, policy, now)
  {
    if rawHost.None? {
      return DestinationRefused("");
    }
    var host := CanonicalDomain(rawHost.value);
    if host.Err? {
      return DestinationRefused("");
    }
    var normalized := CanonicalizeDomainMap(proofs, true);
    if normalized.Err? {
      return DestinationRefused("policy-invalid");
    }
    var rules := normalized.value;
    for i := 0 to |rules|
      invariant FirstCover(host.value, rules, allowSubdomains) == FirstCover(host.value, rules[i..], allowSubdomains)
    {
      var rule := rules[i];
      assert rules[i..][1..] == rules[i + 1..];
      if host.value == rule.domain || (allowSubdomains && IsSameOrSubdomain(host.value, rule.domain)) {
        if rule.value.Some? && rule.value.value <= now {
          return DestinationRefused("destination-not-authorized");
        }
        if policy.Some? {
          var decision := policy.value;
          if decision.allowed && decision.matchedDomain.None? {
            return DestinationMatched(rule.domain);
          }
          return if decision.allowed then DestinationMatched(decision.matchedDomain.value)
                 else DestinationRefused(decision.cause);
        }
        return DestinationMatched(rule.domain);
      }
    }
    return DestinationRefused("");
  }

  /** The cover is the earliest one: every earlier domain misses the host. */
  lemma {:induction false} FirstCoverIsEarliest(host: string, proofs: seq<Proof<Option<Time>>>, allowSubdomains: bool)
    ensures match FirstCover(host, proofs, allowSubdomains)
            case None => forall i :: 0 <= i < |proofs| ==> !DomainCovers(host, proofs[i].domain, allowSubdomains)
            case Some(proof) =>
              exists i :: && 0 <= i < |proofs| && proofs[i] == proof
                          && DomainCovers(host, proofs[i].domain, allowSubdomains)
                          && forall j :: 0 <= j < i ==> !DomainCovers(host, proofs[j].domain, allowSubdomains)
  {
    if proofs != [] && !DomainCovers(host, proofs[0].domain, allowSubdomains) {
      var rest := proofs[1..];
      FirstCoverIsEarliest(host, rest, allowSubdomains);
      match FirstCover(host, rest, allowSubdomains) {
        case None =>
          forall i | 0 <= i < |proofs| ensures !DomainCovers(host, proofs[i].domain, allowSubdomains) {
            if i > 0 { assert proofs[i] == rest[i - 1]; }
          }
        case Some(proof) =>
          var i :| && 0 <= i < |rest| && rest[i] == proof
                   && DomainCovers(host, rest[i].domain, allowSubdomains)
                   && forall j :: 0 <= j < i ==> !DomainCovers(host, rest[j].domain, allowSubdomains);
          assert proofs[i + 1] == proof;
          forall j | 0 <= j < i + 1 ensures !DomainCovers(host, proofs[j].domain, allowSubdomains) {
            if j > 0 { assert proofs[j] == rest[j - 1]; }
          }
      }
    }
  }

  /** The host is the domain or, where subdomains count, its labels end with the domain's. */
  predicate UnderDomain(host: string, domain: string, allowSubdomains: bool) {
    host == domain || (allowSubdomains && IsSuffix(Split(domain, '.'), Split(host, '.')))
  }

  lemma CoversExactly(host: string, domain: string, allowSubdomains: bool)
    ensures DomainCovers(host, domain, allowSubdomains) <==> UnderDomain(host, domain, allowSubdomains)
  {
    SubdomainIsLabelExact(host, domain);
  }

  // ----- The pipeline -----

  datatype Verdict = Accepted(domain: string) | Refused(stage: string, cause: string)

  /** Everything about a presentation that the clock does not change. */
  datatype Presentation = Presentation(
    envelope: Envelope,
    window: Window,
    certificate: Certificate,
    rawHost: Option<string>,
    policy: Option<PolicyDecision>,
    check: SignatureCheck)

  /** The presentation of an envelope the claims parser accepted. */
  function Present(
    envelope: Envelope,
    clock: TimestampReader,
    certificate: Certificate,
    rawHost: Option<string>,
    policy: Option<PolicyDecision>,
    check: SignatureCheck): Presentation
    requires WellFormed(envelope.claims, clock)
  {
    Presentation(envelope, ClaimedWindow(envelope.claims, clock), certificate, rawHost, policy, check)
  }

  datatype TrustContext = TrustContext(key: KeyEntry, issuer: IssuerRecord, skewSeconds: nat)

  function VerifyPresentedCode(p: Presentation, trust: TrustContext, now: Time): Verdict {
    var blocking := BlockingState(trust.key, trust.issuer);
    if blocking.Some? then Refused(blocking.value.stage, blocking.value.cause)
    else if trust.key.publicKeyPem.None? then Refused("key_status", "trust-state-unavailable")
    else if !EnvelopeVerifies(p.envelope, p.certificate, p.check) then Refused("signed_schema", "")
    else
      var time := TimeWindows(now, p.window, trust.key, trust.issuer, trust.skewSeconds);
      if time.Some? then Refused(time.value.stage, time.value.cause)
      else
        match MatchDestination(p.rawHost, trust.issuer.verifiedDomains, trust.issuer.allowSubdomains, p.policy, now)
        case DestinationRefused(cause) => Refused("payload_revalidation", cause)
        case DestinationMatched(domain) => Accepted(domain)
  }

  // ----- The clock times of acceptance -----

  function Later(a: Time, b: Time): Time { if a < b then b else a }

  function Earliest(a: Option<Time>, b: Option<Time>): Option<Time> {
    match (a, b)
    case (None, _) => b
    case (_, None) => a
    case (Some(x), Some(y)) => Some(if x < y then x else y)
  }

  function OpensAt(p: Presentation, trust: TrustContext): Time {
    Later(trust.issuer.issuedAt, p.window.issuedAt - trust.skewSeconds * SECOND)
  }

  function DeciderProof(p: Presentation, trust: TrustContext): Option<Proof<Option<Time>>> {
    if p.rawHost.None? || CanonicalDomain(p.rawHost.value).Err? || CanonicalMap(trust.issuer.verifiedDomains, true).Err?
    then None
    else FirstCover(CanonicalDomain(p.rawHost.value).value, CanonicalMap(trust.issuer.verifiedDomains, true).value,
                    trust.issuer.allowSubdomains)
  }

  /** The first instant the artifact has lapsed: issuer expiry, artifact expiry plus skew, or domain-proof expiry. */
  function ClosesAt(p: Presentation, trust: TrustContext): Option<Time> {
    var artifact := if p.window.expiresAt.None? then None else Some(p.window.expiresAt.value + trust.skewSeconds * SECOND);
    var proof := if DeciderProof(p, trust).None? then None else DeciderProof(p, trust).value.value;
    Earliest(trust.issuer.expiresAt, Earliest(artifact, proof))
  }

  /** What the signature stage asks for, term by term. */
  predicate SignedByCertificate(p: Presentation) {
    && p.certificate.algorithmId == "rsa-pss-sha256-v1"
    && p.envelope.claims.certificateRef == p.certificate.certificateRef
    && (p.envelope.codeAlgorithmId.Some? ==> p.envelope.codeAlgorithmId.value == p.certificate.algorithmId)
    && p.check(CanonicalClaims(p.envelope.claims), p.envelope.signature, p.certificate.publicKeyPem)
  }

  /** The conditions of acceptance that no clock changes. */
  predicate TimelesslyAcceptable(p: Presentation, trust: TrustContext) {
    && BlockingState(trust.key, trust.issuer).None?
    && trust.key.publicKeyPem.Some?
    && SignedByCertificate(p)
    && trust.key.notBefore <= p.window.issuedAt
    && (trust.key.notAfter.Some? ==> p.window.issuedAt <= trust.key.notAfter.value)
    && DeciderProof(p, trust).Some?
    && (p.policy.Some? ==> p.policy.value.allowed)
  }

  predicate Before(now: Time, closes: Option<Time>) {
    closes.Some? ==> now < closes.value
  }

  predicate Within(now: Time, opens: Time, closes: Option<Time>) {
    opens <= now && Before(now, closes)
  }

  /** The artifact's and the proof's shares of the closing time. */
  function ArtifactCloses(p: Presentation, trust: TrustContext): Option<Time> {
    if p.window.expiresAt.None? then None else Some(p.window.expiresAt.value + trust.skewSeconds * SECOND)
  }

  lemma TimeWindowsExactly(p: Presentation, trust: TrustContext, now: Time)
    ensures TimeWindows(now, p.window, trust.key, trust.issuer, trust.skewSeconds).None? <==>
            && trust.key.notBefore <= p.window.issuedAt
            && (trust.key.notAfter.Some? ==> p.window.issuedAt <= trust.key.notAfter.value)
            && OpensAt(p, trust) <= now && Before(now, trust.issuer.expiresAt) && Before(now, ArtifactCloses(p, trust))
  {
  }

  lemma DestinationMatchesExactly(p: Presentation, trust: TrustContext, now: Time)
    ensures MatchDestination(p.rawHost, trust.issuer.verifiedDomains, trust.issuer.allowSubdomains, p.policy, now)
            .DestinationMatched? <==>
            && DeciderProof(p, trust).Some? && Before(now, DeciderProof(p, trust).value.value)
            && (p.policy.Some? ==> p.policy.value.allowed)
  {
  }

  lemma BeforeEarliest(now: Time, a: Option<Time>, b: Option<Time>)
    ensures Before(now, Earliest(a, b)) <==> Before(now, a) && Before(now, b)
  {
  }

  lemma ClosesAtExactly(p: Presentation, trust: TrustContext, now: Time)
    requires DeciderProof(p, trust).Some?
    ensures Before(now, ClosesAt(p, trust)) <==>
            && Before(now, trust.issuer.expiresAt) && Before(now, ArtifactCloses(p, trust))
            && Before(now, DeciderProof(p, trust).value.value)
  {
    var (artifact, proof) := (ArtifactCloses(p, trust), DeciderProof(p, trust).value.value);
    BeforeEarliest(now, artifact, proof);
    BeforeEarliest(now, trust.issuer.expiresAt, Earliest(artifact, proof));
    assert ClosesAt(p, trust) == Earliest(trust.issuer.expiresAt, Earliest(artifact, proof));
  }

  /** Acceptance is passing the stages, one by one. */
  lemma AcceptedStages(p: Presentation, trust: TrustContext, now: Time)
    ensures VerifyPresentedCode(p, trust, now).Accepted? <==>
            && BlockingState(trust.key, trust.issuer).None? && trust.key.publicKeyPem.Some? && SignedByCertificate(p)
            && TimeWindows(now, p.window, trust.key, trust.issuer, trust.skewSeconds).None?
            && MatchDestination(p.rawHost, trust.issuer.verifiedDomains, trust.issuer.allowSubdomains, p.policy, now)
               .DestinationMatched?
  {
  }

  /** Acceptance is a timeless condition and one half-open interval of clock times. */
  lemma AcceptedExactly(p: Presentation, trust: TrustContext, now: Time)
    ensures VerifyPresentedCode(p, trust, now).Accepted? <==>
            TimelesslyAcceptable(p, trust) && Within(now, OpensAt(p, trust), ClosesAt(p, trust))
  {
    AcceptedStages(p, trust, now);
    TimeWindowsExactly(p, trust, now);
    DestinationMatchesExactly(p, trust, now);
    if DeciderProof(p, trust).Some? {
      ClosesAtExactly(p, trust, now);
    }
  }

  /** The deciding domain covers the host and its proof still holds. */
  predicate CoverHolds(host: string, domains: seq<Proof<Option<Time>>>, allowSubdomains: bool, now: Time) {
    var cover := FirstCover(host, domains, allowSubdomains);
    cover.Some? && Before(now, cover.value.value)
  }

  /** The canonical host of the presented payload. */
  function HostOf(p: Presentation): Option<string> {
    if p.rawHost.Some? && CanonicalDomain(p.rawHost.value).Ok? then Some(CanonicalDomain(p.rawHost.value).value) else None
  }

  /** Every stage but the search for a covering domain lets the presentation through. */
  predicate OtherStagesPass(p: Presentation, trust: TrustContext, now: Time) {
    && BlockingState(trust.key, trust.issuer).None? && trust.key.publicKeyPem.Some?
    && SignedByCertificate(p)
    && TimeWindows(now, p.window, trust.key, trust.issuer, trust.skewSeconds).None?
    && HostOf(p).Some? && (p.policy.Some? ==> p.policy.value.allowed)
  }

  lemma DeciderIsCover(p: Presentation, trust: TrustContext)
    requires IsCanonicalMap(trust.issuer.verifiedDomains)
    ensures DeciderProof(p, trust) ==
            if HostOf(p).None? then None
            else FirstCover(HostOf(p).value, trust.issuer.verifiedDomains, trust.issuer.allowSubdomains)
  {
    CanonicalMapFixed(trust.issuer.verifiedDomains, true);
  }

  /** Over a canonical domain map, acceptance is the other stages together with the cover of the host. */
  lemma CoverDecidesAcceptance(p: Presentation, trust: TrustContext, now: Time)
    requires IsCanonicalMap(trust.issuer.verifiedDomains)
    ensures VerifyPresentedCode(p, trust, now).Accepted? <==>
            OtherStagesPass(p, trust, now)
            && CoverHolds(HostOf(p).value, trust.issuer.verifiedDomains, trust.issuer.allowSubdomains, now)
  {
    AcceptedStages(p, trust, now);
    DeciderIsCover(p, trust);
    DestinationMatchesExactly(p, trust, now);
  }

  ghost predicate AcceptsExactlyWithin(p: Presentation, trust: TrustContext, opens: Time, closes: Option<Time>) {
    forall now: Time :: VerifyPresentedCode(p, trust, now).Accepted? <==> Within(now, opens, closes)
  }

  /** For fixed trust state and policy, the accepting clock times form one half-open interval, possibly empty. */
  lemma AcceptanceIsOneInterval(p: Presentation, trust: TrustContext)
    ensures exists opens: Time, closes: Option<Time> :: AcceptsExactlyWithin(p, trust, opens, closes)
  {
    var opens := if TimelesslyAcceptable(p, trust) then OpensAt(p, trust) else 0;
    var closes := if TimelesslyAcceptable(p, trust) then ClosesAt(p, trust) else Some(0);
    forall now: Time
      ensures VerifyPresentedCode(p, trust, now).Accepted? <==> Within(now, opens, closes)
    {
      AcceptedExactly(p, trust, now);
    }
    assert AcceptsExactlyWithin(p, trust, opens, closes);
  }

  /** A blocked key or issuer is refused at a status stage, whatever else holds and with or without key material. */
  lemma BlockedIsRefusedFirst(p: Presentation, trust: TrustContext, now: Time)
    requires BlockingState(trust.key, trust.issuer).Some?
    ensures var v := VerifyPresentedCode(p, trust, now);
            v.Refused? && (v.stage == "issuer_status" || v.stage == "key_status")
  {
  }

  /**
   * A presented code whose claims came from the parser is accepted only when its signature covers its
   * canonical claims under a certificate of the supported algorithm that the claims and the hint agree with,
   * and only while the times it claims, read by the parser's clock, admit `now` within the skew.
   */
  lemma AcceptedCodeIsSignedAndCurrent(
    envelope: Envelope, clock: TimestampReader, certificate: Certificate, rawHost: Option<string>,
    policy: Option<PolicyDecision>, check: SignatureCheck, trust: TrustContext, now: Time)
    requires WellFormed(envelope.claims, clock)
    requires VerifyPresentedCode(Present(envelope, clock, certificate, rawHost, policy, check), trust, now).Accepted?
    ensures check(CanonicalClaims(envelope.claims), envelope.signature, certificate.publicKeyPem)
    ensures certificate.algorithmId == "rsa-pss-sha256-v1"
    ensures envelope.claims.certificateRef == certificate.certificateRef
    ensures envelope.codeAlgorithmId.Some? ==> envelope.codeAlgorithmId.value == certificate.algorithmId
    ensures clock(envelope.claims.issuedAt).value - trust.skewSeconds * SECOND <= now
    ensures envelope.claims.expiresAt.Some? ==>
              now < clock(envelope.claims.expiresAt.value).value + trust.skewSeconds * SECOND
    ensures trust.key.notBefore <= clock(envelope.claims.issuedAt).value
  {
    var p := Present(envelope, clock, certificate, rawHost, policy, check);
    AcceptedExactly(p, trust, now);
    ClosesAtExactly(p, trust, now);
  }

  // ----- Why a presentation is refused -----

  /** Issuer and key are of a status that lets the later stages speak. */
  predicate StatusesPass(trust: TrustContext) {
    && trust.issuer.status == "active" && trust.key.state != "revoked" && trust.key.state != "suspended"
    && trust.key.publicKeyPem.Some?
  }

  /** Refusals by status, which come before all others: exactly the issuer's or key's own state. */
  lemma StatusRefusalsExactly(p: Presentation, trust: TrustContext, now: Time)
    ensures var v := VerifyPresentedCode(p, trust, now);
            var (issuer, key) := (trust.issuer.status, trust.key.state);
            && (v == Refused("issuer_status", "issuer-revoked") <==> issuer == "revoked")
            && (issuer == "expired" ==> v == Refused("issuer_status", "record-expired"))
            && (v == Refused("issuer_status", "issuer-suspended") <==> issuer !in {"active", "revoked", "expired"})
            && (v == Refused("key_status", "key-revoked") <==> issuer == "active" && key == "revoked")
            && (v == Refused("key_status", "key-suspended") <==> issuer == "active" && key == "suspended")
            && (v == Refused("key_status", "trust-state-unavailable") <==>
                  issuer == "active" && key !in {"revoked", "suspended"} && trust.key.publicKeyPem.None?)
  {
  }

  /** With statuses and material in order, the signature stage refuses exactly when one of its four terms fails. */
  lemma SignatureRefusalExactly(p: Presentation, trust: TrustContext, now: Time)
    requires trust.issuer.status == "active" && trust.key.state != "revoked" && trust.key.state != "suspended"
    requires trust.key.publicKeyPem.Some?
    ensures var v := VerifyPresentedCode(p, trust, now);
            v.Refused? && v.stage == "signed_schema" <==>
            || !p.check(CanonicalClaims(p.envelope.claims), p.envelope.signature, p.certificate.publicKeyPem)
            || p.certificate.algorithmId != "rsa-pss-sha256-v1"
            || p.envelope.claims.certificateRef != p.certificate.certificateRef
            || (p.envelope.codeAlgorithmId.Some? && p.envelope.codeAlgorithmId.value != p.certificate.algorithmId)
  {
  }

  /** The issuer's record is in force at `now`. */
  predicate IssuerCurrent(issuer: IssuerRecord, now: Time) {
    issuer.issuedAt <= now && (issuer.expiresAt.Some? ==> now < issuer.expiresAt.value)
  }

  /** The artifact was issued inside the key's validity, ends included. */
  predicate KeyAdmits(key: KeyEntry, issuedAt: Time) {
    key.notBefore <= issuedAt && (key.notAfter.Some? ==> issuedAt <= key.notAfter.value)
  }

  /** Which window a signed presentation misses, and in what order they are asked. */
  lemma TimeRefusalsExactly(p: Presentation, trust: TrustContext, now: Time)
    requires StatusesPass(trust) && SignedByCertificate(p)
    ensures var v := VerifyPresentedCode(p, trust, now);
            var (issuer, key, w, skew) := (trust.issuer, trust.key, p.window, trust.skewSeconds * SECOND);
            && (v == Refused("issuer_status", "record-not-yet-valid") <==> now < issuer.issuedAt)
            && (v == Refused("issuer_status", "record-expired") <==>
                  issuer.issuedAt <= now && issuer.expiresAt.Some? && issuer.expiresAt.value <= now)
            && (v == Refused("key_status", "key-window-mismatch") <==>
                  IssuerCurrent(issuer, now) && !KeyAdmits(key, w.issuedAt))
            && (v == Refused("time_window", "object-not-yet-valid") <==>
                  IssuerCurrent(issuer, now) && KeyAdmits(key, w.issuedAt) && now < w.issuedAt - skew)
            && (v == Refused("time_window", "object-expired") <==>
                  IssuerCurrent(issuer, now) && KeyAdmits(key, w.issuedAt) && w.issuedAt - skew <= now
                  && w.expiresAt.Some? && w.expiresAt.value + skew <= now)
  {
  }

  /** The artifact's own window admits the clock within the skew. */
  predicate ArtifactCurrent(w: Window, skewSeconds: nat, now: Time) {
    && w.issuedAt - skewSeconds * SECOND <= now
    && (w.expiresAt.Some? ==> now < w.expiresAt.value + skewSeconds * SECOND)
  }

  /** Acceptance over a canonical domain map, all five stages in terms of the records and the claims. */
  lemma AcceptedExactlyWhen(p: Presentation, trust: TrustContext, now: Time)
    requires IsCanonicalMap(trust.issuer.verifiedDomains)
    ensures VerifyPresentedCode(p, trust, now).Accepted? <==>
            && StatusesPass(trust) && SignedByCertificate(p) && IssuerCurrent(trust.issuer, now)
            && KeyAdmits(trust.key, p.window.issuedAt) && ArtifactCurrent(p.window, trust.skewSeconds, now)
            && HostOf(p).Some?
            && CoverHolds(HostOf(p).value, trust.issuer.verifiedDomains, trust.issuer.allowSubdomains, now)
            && (p.policy.Some? ==> p.policy.value.allowed)
  {
    CoverDecidesAcceptance(p, trust, now);
    TimeWindowsExactly(p, trust, now);
  }

  /** What is left is refused for its destination: no domain covers the host, its proof has lapsed, or the policy says no. */
  lemma DestinationRefusalExactly(p: Presentation, trust: TrustContext, now: Time)
    requires IsCanonicalMap(trust.issuer.verifiedDomains)
    ensures var v := VerifyPresentedCode(p, trust, now);
            v.Refused? && v.stage == "payload_revalidation" <==>
            && StatusesPass(trust) && SignedByCertificate(p) && IssuerCurrent(trust.issuer, now)
            && KeyAdmits(trust.key, p.window.issuedAt) && ArtifactCurrent(p.window, trust.skewSeconds, now)
            && !(&& HostOf(p).Some?
                 && CoverHolds(HostOf(p).value, trust.issuer.verifiedDomains, trust.issuer.allowSubdomains, now)
                 && (p.policy.Some? ==> p.policy.value.allowed))
  {
    AcceptedExactlyWhen(p, trust, now);
    StatusRefusalsExactly(p, trust, now);
    if StatusesPass(trust) {
      SignatureRefusalExactly(p, trust, now);
      if SignedByCertificate(p) {
        TimeRefusalsExactly(p, trust, now);
      }
    }
  }

  /**
   * What the destination matcher reports: the domain the policy matched or else the covering one, or why not. A
   * domain map that cannot be canonicalised is invalid policy; a host that is unreadable or not covered is
   * refused without a cause.
   */
  lemma DestinationReportExactly(
    rawHost: Option<string>, domains: seq<Proof<Option<Time>>>, allowSubdomains: bool, policy: Option<PolicyDecision>,
    now: Time)
    ensures var verdict := MatchDestination(rawHost, domains, allowSubdomains, policy, now);
            if rawHost.None? || CanonicalDomain(rawHost.value).Err? then verdict == DestinationRefused("")
            else if CanonicalMap(domains, true).Err? then verdict == DestinationRefused("policy-invalid")
            else
              match FirstCover(CanonicalDomain(rawHost.value).value, CanonicalMap(domains, true).value, allowSubdomains)
              case None => verdict == DestinationRefused("")
              case Some(cover) =>
                && (!Before(now, cover.value) ==> verdict == DestinationRefused("destination-not-authorized"))
                && (Before(now, cover.value) && policy.Some? && !policy.value.allowed ==>
                      verdict == DestinationRefused(policy.value.cause))
                && (Before(now, cover.value) && policy.Some? && policy.value.allowed && policy.value.matchedDomain.Some? ==>
                      verdict == DestinationMatched(policy.value.matchedDomain.value))
                && (Before(now, cover.value) && policy.Some? && policy.value.allowed && policy.value.matchedDomain.None? ==>
                      verdict == DestinationMatched(cover.domain))
                && (Before(now, cover.value) && policy.None? ==> verdict == DestinationMatched(cover.domain))
  {
  }

  /** The verdict carries the matcher's report: its domain on acceptance, its cause on refusal. */
  lemma VerdictCarriesReport(p: Presentation, trust: TrustContext, now: Time)
    ensures var report := MatchDestination(
              p.rawHost, trust.issuer.verifiedDomains, trust.issuer.allowSubdomains, p.policy, now);
            match VerifyPresentedCode(p, trust, now)
            case Accepted(domain) => report == DestinationMatched(domain)
            case Refused(stage, cause) => stage == "payload_revalidation" ==> report == DestinationRefused(cause)
  {
  }

  /** The domain an acceptance reports is the policy's matched one, or else the one that covers the host. */
  lemma AcceptedDomainExactly(p: Presentation, trust: TrustContext, now: Time)
    requires VerifyPresentedCode(p, trust, now).Accepted?
    ensures DeciderProof(p, trust).Some?
    ensures VerifyPresentedCode(p, trust, now).domain ==
            if p.policy.Some? && p.policy.value.matchedDomain.Some? then p.policy.value.matchedDomain.value
            else DeciderProof(p, trust).value.domain
  {
    VerdictCarriesReport(p, trust, now);
  }

  // ----- Retirement -----

  function Retired(key: KeyEntry, now: Time): KeyEntry {
    key.(state := "retired", notAfter := Some(now))
  }

  /** The clock interval does not depend on the key. */
  lemma IntervalIgnoresKey(p: Presentation, trust: TrustContext, key: KeyEntry)
    ensures OpensAt(p, trust.(key := key)) == OpensAt(p, trust)
    ensures ClosesAt(p, trust.(key := key)) == ClosesAt(p, trust)
    ensures DeciderProof(p, trust.(key := key)) == DeciderProof(p, trust)
  {
    assert trust.(key := key).issuer == trust.issuer;
  }

  lemma RetiredIsTimelesslyAcceptable(p: Presentation, trust: TrustContext, t: Time)
    requires trust.key.state == "active"
    requires trust.key.notAfter.Some? ==> t <= trust.key.notAfter.value
    ensures TimelesslyAcceptable(p, trust.(key := Retired(trust.key, t))) <==>
            TimelesslyAcceptable(p, trust) && p.window.issuedAt <= t
  {
    IntervalIgnoresKey(p, trust, Retired(trust.key, t));
    RetiredIsNotBlocked(trust.key, trust.issuer, t);
  }

  lemma RetiredIsNotBlocked(key: KeyEntry, issuer: IssuerRecord, t: Time)
    requires key.state == "active"
    ensures BlockingState(Retired(key, t), issuer) == BlockingState(key, issuer)
  {
  }

  /** After retirement at `t`, a key that had not already lapsed accepts exactly its former artifacts issued by `t`. */
  lemma RetiredKeyAcceptsFormerArtifacts(p: Presentation, trust: TrustContext, t: Time, now: Time)
    requires trust.key.state == "active"
    requires trust.key.notAfter.Some? ==> t <= trust.key.notAfter.value
    ensures var after := trust.(key := Retired(trust.key, t));
            VerifyPresentedCode(p, after, now).Accepted? <==>
            VerifyPresentedCode(p, trust, now).Accepted? && p.window.issuedAt <= t
  {
    var after := trust.(key := Retired(trust.key, t));
    AcceptedExactly(p, trust, now);
    AcceptedExactly(p, after, now);
    IntervalIgnoresKey(p, trust, Retired(trust.key, t));
    RetiredIsTimelesslyAcceptable(p, trust, t);
  }

  /**
   * Retiring a key widens its window exactly when the key had already lapsed before `t`: the
   * retirement overwrites an earlier end of validity.
   */
  lemma RetirementWidensExactly(key: KeyEntry, t: Time)
    ensures (exists issuedAt: Time ::
               KeyAdmits(Retired(key, t), issuedAt) && !KeyAdmits(key, issuedAt)) <==>
            key.notAfter.Some? && key.notAfter.value < t && key.notBefore <= t
  {
    if key.notAfter.Some? && key.notAfter.value < t && key.notBefore <= t {
      assert KeyAdmits(Retired(key, t), t) && !KeyAdmits(key, t);
    }
  }

  /** When verifying keys have material, the refusal for missing material needs an unblocked key in an unknown state. */
  lemma MissingMaterialRefusedExactly(p: Presentation, trust: TrustContext, now: Time)
    requires trust.key.state in VERIFYING_STATES ==> trust.key.publicKeyPem.Some?
    ensures VerifyPresentedCode(p, trust, now) == Refused("key_status", "trust-state-unavailable") <==>
            trust.issuer.status == "active" && trust.key.publicKeyPem.None? && trust.key.state !in KEY_STATES
  {
  }
}

/** What the decision core and the formal table both speak: tiers, profiles, families, states, annotations. */
module ResidualVocabulary {

  /** A residual's tier; `Unmodelled` stands for every string outside the published vocabulary. */
  datatype Tier =
    | Pass | Warn | Fail | Block | NotApplicable
    | NoIssuer | UnacceptedIssuer | RevokedIssuer | InvalidManagedClaim | CrossRootContradiction
    | Stale | Unavailable | NotChecked
    | Unmodelled(text: string)

  datatype Profile =
    | StrictOnline | BoundedOnline | BoundedOffline | ProductionTrusted | ReferenceTesting
    | UnknownProfile(text: string)

  datatype Family =
    | IssuerChain | DestinationPolicy | RedirectFlow | RuntimeSafety | Freshness | ArtifactIntegrity
    | UnknownFamily(text: string)

  datatype Residuals = Residuals(
    issuerChain: Tier,
    destinationPolicy: Tier,
    redirectFlow: Tier,
    runtimeSafety: Tier,
    freshness: Tier,
    artifactIntegrity: Tier)

  datatype PrimaryState = Unverified | SignedUnacceptedIssuer | VerifiedIssuer | VerifiedIssuerDestinationRisky | Blocked

  datatype Annotation =
    | ArtifactWarning | StaleOfflineWarning | LimitedRuntimeSafetyVisibility | RedirectVariationWarning
    | InvalidTrustClaimWarning | PolicyProfileWarning | IncompleteVerificationWarning

  function TierOf(r: Residuals, family: Family): Tier {
    match family
    case IssuerChain => r.issuerChain
    case DestinationPolicy => r.destinationPolicy
    case RedirectFlow => r.redirectFlow
    case RuntimeSafety => r.runtimeSafety
    case Freshness => r.freshness
    case ArtifactIntegrity => r.artifactIntegrity
    case UnknownFamily(text) => Unmodelled(text)
  }
}

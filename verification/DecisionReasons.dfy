/**
 * The reason codes of every residual decision, in terms of the residual vector alone. The cases below are
 * exclusive and cover every vector.
 */
module DecisionReasons {
  import opened Wrappers
  import opened ResidualVocabulary
  import opened ResidualDecision

  predicate Bad(tier: Tier) {
    tier == Fail || tier == Block
  }

  // ----- What is adverse, or captured by the kind of issuer -----

  /** The issuer's chain is neither an invalid claim nor revoked. */
  predicate Standing(r: Residuals) {
    r.issuerChain != InvalidManagedClaim && r.issuerChain != RevokedIssuer
  }

  predicate NothingAdverse(r: Residuals) {
    && Standing(r)
    && !Bad(r.destinationPolicy) && !Bad(r.redirectFlow) && !Bad(r.runtimeSafety) && !Bad(r.freshness)
  }

  /** Neither adverse, nor stale under a strict profile, nor with a damaged artifact. */
  predicate Sound(r: Residuals, profile: Profile) {
    NothingAdverse(r) && !(profile == StrictOnline && r.freshness == Warn) && !Bad(r.artifactIntegrity)
  }

  /** Only the runtime verdict and the required evidence are left to ask about. */
  predicate IssuerSpeaks(r: Residuals, profile: Profile) {
    && Sound(r, profile)
    && r.issuerChain != CrossRootContradiction && r.issuerChain != NoIssuer && r.issuerChain != UnacceptedIssuer
  }

  lemma AdverseStep(r: Residuals, family: Family, reason: Reason, rest: seq<(Family, Reason)>)
    ensures FirstAdverse(r, [(family, reason)] + rest) ==
            if Bad(TierOf(r, family)) then Some(reason) else FirstAdverse(r, rest)
  {
    assert ([(family, reason)] + rest)[1..] == rest;
  }

  lemma FirstAdverseExactly(r: Residuals)
    ensures FirstAdverse(r, ADVERSE) ==
            if Bad(r.destinationPolicy) then Some(DestinationPolicyFailed)
            else if Bad(r.redirectFlow) then Some(RedirectFlowFailed)
            else if Bad(r.runtimeSafety) then Some(RuntimeSafetyBlock)
            else if Bad(r.freshness) then Some(FreshnessBlock)
            else None
  {
    AdverseStep(r, Freshness, FreshnessBlock, []);
    AdverseStep(r, RuntimeSafety, RuntimeSafetyBlock, [(Freshness, FreshnessBlock)]);
    AdverseStep(r, RedirectFlow, RedirectFlowFailed, [(RuntimeSafety, RuntimeSafetyBlock), (Freshness, FreshnessBlock)]);
    AdverseStep(
      r, DestinationPolicy, DestinationPolicyFailed,
      [(RedirectFlow, RedirectFlowFailed), (RuntimeSafety, RuntimeSafetyBlock), (Freshness, FreshnessBlock)]);
    assert ADVERSE == [(DestinationPolicy, DestinationPolicyFailed)]
                      + [(RedirectFlow, RedirectFlowFailed), (RuntimeSafety, RuntimeSafetyBlock), (Freshness, FreshnessBlock)];
  }

  /** An adverse residual is named, the first in the fixed order; an invalid claim and a revoked issuer come before all. */
  lemma AdverseReasons(r: Residuals, profile: Profile, mandatory: set<Family>)
    ensures var reasons := Decided(r, profile, mandatory).reasons;
            && (r.issuerChain == InvalidManagedClaim ==>
                  reasons == if profile == ReferenceTesting then [InvalidManagedTrustClaim, ReferenceTestingProfile]
                             else [InvalidManagedTrustClaim])
            && (r.issuerChain == RevokedIssuer ==> reasons == [IssuerRevoked])
            && (Standing(r) && Bad(r.destinationPolicy) ==> reasons == [DestinationPolicyFailed])
            && (Standing(r) && !Bad(r.destinationPolicy) && Bad(r.redirectFlow) ==> reasons == [RedirectFlowFailed])
            && (Standing(r) && !Bad(r.destinationPolicy) && !Bad(r.redirectFlow) && Bad(r.runtimeSafety) ==>
                  reasons == [RuntimeSafetyBlock])
            && (Standing(r) && !NothingAdverse(r) && !Bad(r.destinationPolicy) && !Bad(r.redirectFlow)
                && !Bad(r.runtimeSafety) ==>
                  reasons == [FreshnessBlock])
  {
    FirstAdverseExactly(r);
  }

  /** After those: staleness under a strict profile, the artifact, and the kind of issuer. */
  lemma CaptureReasons(r: Residuals, profile: Profile, mandatory: set<Family>)
    requires NothingAdverse(r)
    ensures var reasons := Decided(r, profile, mandatory).reasons;
            var stale := profile == StrictOnline && r.freshness == Warn;
            && (stale ==> reasons == [FreshnessStale])
            && (!stale && r.artifactIntegrity == Block ==> reasons == [ArtifactIntegrityBlock])
            && (!stale && r.artifactIntegrity == Fail ==> reasons == [ArtifactIntegrityFailed])
            && (Sound(r, profile) && r.issuerChain == CrossRootContradiction ==> reasons == [CrossRoot])
            && (Sound(r, profile) && r.issuerChain == NoIssuer ==> reasons == [NoIssuerPath])
            && (Sound(r, profile) && r.issuerChain == UnacceptedIssuer ==> reasons == [SignedByUnacceptedIssuer])
  {
    FirstAdverseExactly(r);
  }

  // ----- The runtime verdict and the required evidence -----

  predicate RuntimeSpeaks(r: Residuals, profile: Profile) {
    && IssuerSpeaks(r, profile) && r.runtimeSafety != Stale && r.runtimeSafety != NotChecked
    && !(profile == StrictOnline && r.runtimeSafety == Unavailable)
  }

  lemma PastTheRules(r: Residuals, profile: Profile, mandatory: set<Family>)
    requires IssuerSpeaks(r, profile)
    ensures AdverseRule(r, profile, mandatory) == None
    ensures RuntimeSpeaks(r, profile) ==> Decided(r, profile, mandatory) == TerminalRule(r, profile, mandatory)
  {
    FirstAdverseExactly(r);
  }

  /** A runtime verdict that says nothing is named before any evidence is asked for. */
  lemma RuntimeReasons(r: Residuals, profile: Profile, mandatory: set<Family>)
    requires IssuerSpeaks(r, profile)
    ensures var reasons := Decided(r, profile, mandatory).reasons;
            && (r.runtimeSafety == Stale ==> reasons == [RuntimeSafetyStale])
            && (r.runtimeSafety == NotChecked ==> reasons == [RuntimeSafetyNotChecked])
            && (profile == StrictOnline && r.runtimeSafety == Unavailable ==> reasons == [RuntimeSafetyUnavailable])
  {
    PastTheRules(r, profile, mandatory);
  }

  /** The evidence a required family would have to bring is not there; a risk verdict counts as evidence. */
  predicate Lacks(r: Residuals, mandatory: set<Family>, family: Family) {
    && family in mandatory
    && match family
       case IssuerChain => r.issuerChain != Pass
       case DestinationPolicy => r.destinationPolicy != Pass && r.destinationPolicy != NotApplicable
       case RedirectFlow => r.redirectFlow != Pass && r.redirectFlow != Warn && r.redirectFlow != NotApplicable
       case RuntimeSafety => r.runtimeSafety != Pass && r.runtimeSafety != Warn
       case Freshness => r.freshness != Pass && r.freshness != Warn && r.freshness != NotApplicable
       case ArtifactIntegrity => r.artifactIntegrity != Pass && r.artifactIntegrity != Warn
       case UnknownFamily(_) => true
  }

  lemma LacksExactly(r: Residuals, mandatory: set<Family>, family: Family)
    requires !family.UnknownFamily?
    ensures LacksRequired(r, mandatory, family) <==> Lacks(r, mandatory, family)
  {
  }

  /** Family `k` of the vector is the first that lacks its evidence. */
  predicate FirstLacking(r: Residuals, mandatory: set<Family>, families: seq<Family>, k: int) {
    0 <= k < |families| && Lacks(r, mandatory, families[k]) && forall i :: 0 <= i < k ==> !Lacks(r, mandatory, families[i])
  }

  lemma {:induction false} GapIsFirstLacking(r: Residuals, mandatory: set<Family>, families: seq<Family>)
    requires forall i :: 0 <= i < |families| ==> !families[i].UnknownFamily?
    ensures match RequiredGap(r, mandatory, families)
            case Some(family) => exists k :: FirstLacking(r, mandatory, families, k) && families[k] == family
            case None => forall i :: 0 <= i < |families| ==> !Lacks(r, mandatory, families[i])
    decreases |families|
  {
    if families != [] {
      LacksExactly(r, mandatory, families[0]);
      var rest := families[1..];
      if Lacks(r, mandatory, families[0]) {
        assert FirstLacking(r, mandatory, families, 0);
      } else {
        GapIsFirstLacking(r, mandatory, rest);
        if RequiredGap(r, mandatory, rest).Some? {
          var k :| FirstLacking(r, mandatory, rest, k) && rest[k] == RequiredGap(r, mandatory, rest).value;
          assert FirstLacking(r, mandatory, families, k + 1);
        } else {
          assert forall i :: 1 <= i < |families| ==> families[i] == rest[i - 1];
        }
      }
    }
  }

  lemma KnownVector()
    ensures RESIDUAL_FAMILIES == [IssuerChain, DestinationPolicy, RedirectFlow, RuntimeSafety, Freshness, ArtifactIntegrity]
    ensures forall i :: 0 <= i < |RESIDUAL_FAMILIES| ==> !RESIDUAL_FAMILIES[i].UnknownFamily?
  {
  }

  /**
   * Where no risk verdict settles the matter, the first required family that lacks its evidence is named; if none
   * does, a vector that is not eligible throughout is reported as one the rules do not model.
   */
  lemma EvidenceReasons(r: Residuals, profile: Profile, mandatory: set<Family>)
    requires RuntimeSpeaks(r, profile) && !(r.runtimeSafety == Warn && NonRuntimeEligible(r))
    ensures var (d, families) := (
              Decided(r, profile, mandatory),
              [IssuerChain, DestinationPolicy, RedirectFlow, RuntimeSafety, Freshness, ArtifactIntegrity]);
            if exists k :: FirstLacking(r, mandatory, families, k) then
              exists k :: FirstLacking(r, mandatory, families, k) && d.reasons == [RequiredEvidenceMissing(families[k])]
            else if d.state != VerifiedIssuer then d.reasons == [UnmodeledResidualCombination]
            else NonRuntimeEligible(r) && (r.runtimeSafety == Pass || r.runtimeSafety == Unavailable)
  {
    PastTheRules(r, profile, mandatory);
    KnownVector();
    GapIsFirstLacking(r, mandatory, RESIDUAL_FAMILIES);
  }

  // ----- Positive decisions -----

  function If<T>(condition: bool, x: T): seq<T> {
    if condition then [x] else []
  }

  lemma WhenAppends<T>(s: seq<T>, condition: bool, x: T)
    ensures When(s, condition, x) == s + If(condition, x)
  {
  }

  /** One annotation for each warning. */
  function Marks(r: Residuals, profile: Profile): seq<Annotation> {
    If(r.freshness == Warn, StaleOfflineWarning)
    + If(r.runtimeSafety == Unavailable, LimitedRuntimeSafetyVisibility)
    + If(r.artifactIntegrity == Warn, ArtifactWarning)
    + If(r.redirectFlow == Warn, RedirectVariationWarning)
    + If(profile == ReferenceTesting, PolicyProfileWarning)
  }

  /** One reason for each warning, in the same order. */
  function Cautions(r: Residuals, profile: Profile): seq<Reason> {
    If(r.freshness == Warn, FreshnessWarning)
    + If(r.runtimeSafety == Unavailable, RuntimeSafetyUnavailable)
    + If(r.artifactIntegrity == Warn, ArtifactIntegrityWarning)
    + If(r.redirectFlow == Warn, RedirectVariation)
    + If(profile == ReferenceTesting, ReferenceTestingProfile)
  }

  lemma FiveInOrder<T>(a: bool, x: T, b: bool, y: T, c: bool, z: T, d: bool, v: T, e: bool, w: T)
    ensures When(When(When(When(When([], a, x), b, y), c, z), d, v), e, w) ==
            If(a, x) + If(b, y) + If(c, z) + If(d, v) + If(e, w)
  {
    WhenAppends([], a, x);
    WhenAppends(If(a, x), b, y);
    WhenAppends(If(a, x) + If(b, y), c, z);
    WhenAppends(If(a, x) + If(b, y) + If(c, z), d, v);
    WhenAppends(If(a, x) + If(b, y) + If(c, z) + If(d, v), e, w);
  }

  lemma CarriedInOrder(r: Residuals, profile: Profile)
    ensures Annotations(r, profile) == Marks(r, profile)
    ensures Reasons(r, profile) == Cautions(r, profile)
  {
    var (stale, limited, artifact, redirect, testing) := (
      r.freshness.Warn?, r.runtimeSafety.Unavailable?, r.artifactIntegrity.Warn?, r.redirectFlow.Warn?,
      profile.ReferenceTesting?);
    FiveInOrder(
      stale, StaleOfflineWarning, limited, LimitedRuntimeSafetyVisibility, artifact, ArtifactWarning,
      redirect, RedirectVariationWarning, testing, PolicyProfileWarning);
    FiveInOrder(
      stale, FreshnessWarning, limited, RuntimeSafetyUnavailable, artifact, ArtifactIntegrityWarning,
      redirect, RedirectVariation, testing, ReferenceTestingProfile);
  }

  lemma PositiveIsTerminal(r: Residuals, profile: Profile, mandatory: set<Family>)
    requires var state := Decided(r, profile, mandatory).state;
             state == VerifiedIssuer || state == VerifiedIssuerDestinationRisky
    ensures Decided(r, profile, mandatory) == TerminalRule(r, profile, mandatory)
  {
    FirstAdverseExactly(r);
  }

  /** A positive decision carries one caution and one annotation for each warning, and a risk verdict last. */
  lemma CautionReasons(r: Residuals, profile: Profile, mandatory: set<Family>)
    requires var state := Decided(r, profile, mandatory).state;
             state == VerifiedIssuer || state == VerifiedIssuerDestinationRisky
    ensures var d := Decided(r, profile, mandatory);
            && d.annotations == Marks(r, profile)
            && d.reasons == Cautions(r, profile)
                            + If(d.state == VerifiedIssuerDestinationRisky, RuntimeSafetyWarning)
  {
    PositiveIsTerminal(r, profile, mandatory);
    CarriedInOrder(r, profile);
  }

  // ----- Attention -----

  /** No warning is in force, and the runtime verdict is there. */
  predicate NothingWarned(r: Residuals, profile: Profile) {
    && r.freshness != Warn && r.runtimeSafety == Pass && r.artifactIntegrity == Pass && r.redirectFlow != Warn
    && profile != ReferenceTesting
  }

  lemma UnmarkedUnverified(r: Residuals, profile: Profile, mandatory: set<Family>)
    ensures var d := Decided(r, profile, mandatory);
            d.state == Unverified && d.annotations == [] <==> Sound(r, profile) && r.issuerChain == NoIssuer
  {
    FirstAdverseExactly(r);
  }

  lemma UnmarkedVerified(r: Residuals, profile: Profile, mandatory: set<Family>)
    requires Decided(r, profile, mandatory).state == VerifiedIssuer
    ensures Decided(r, profile, mandatory).annotations == [] <==> NothingWarned(r, profile)
  {
    CautionReasons(r, profile, mandatory);
    PositiveExactly(r, profile, mandatory);
  }

  /**
   * How much attention a decision demands: the most when it blocks, none when it asserts the issuer with nothing
   * warned, little when all it says is that there is no issuer, and a warning otherwise.
   */
  lemma AttentionExactly(r: Residuals, profile: Profile, mandatory: set<Family>)
    ensures var d := Decided(r, profile, mandatory);
            && (AttentionRank(d) == 3 <==> d.state == Blocked)
            && (AttentionRank(d) == 1 <==> Sound(r, profile) && r.issuerChain == NoIssuer)
            && (AttentionRank(d) == 0 <==> d.state == VerifiedIssuer && NothingWarned(r, profile))
            && AttentionRank(d) <= 3
  {
    UnmarkedUnverified(r, profile, mandatory);
    if Decided(r, profile, mandatory).state == VerifiedIssuer {
      UnmarkedVerified(r, profile, mandatory);
    }
  }
}

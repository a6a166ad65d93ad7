/**
 * The trust decision over six residuals: precedence-ordered rules, the attention they
 * demand.
 */
module ResidualDecision {
  import opened Wrappers
  import opened ResidualVocabulary

  datatype Reason =
    | InvalidManagedTrustClaim | ReferenceTestingProfile | IssuerRevoked
    | DestinationPolicyFailed | RedirectFlowFailed | RuntimeSafetyBlock | FreshnessBlock | FreshnessStale
    | ArtifactIntegrityBlock | ArtifactIntegrityFailed | CrossRoot | NoIssuerPath | SignedByUnacceptedIssuer
    | RuntimeSafetyStale | RuntimeSafetyUnavailable | RuntimeSafetyNotChecked
    | FreshnessWarning | ArtifactIntegrityWarning | RedirectVariation | RuntimeSafetyWarning
    | RequiredEvidenceMissing(family: Family) | UnmodeledResidualCombination

  datatype Decision = Decision(state: PrimaryState, annotations: seq<Annotation>, reasons: seq<Reason>)

  datatype DecisionError = UnknownProfileError | UnknownResidualFamilyError

  const RESIDUAL_FAMILIES: seq<Family> :=
    [IssuerChain, DestinationPolicy, RedirectFlow, RuntimeSafety, Freshness, ArtifactIntegrity]

  predicate Eligible(family: Family, tier: Tier) {
    match family
    case IssuerChain => tier.Pass?
    case DestinationPolicy => tier.Pass? || tier.NotApplicable?
    case RedirectFlow => tier.Pass? || tier.Warn? || tier.NotApplicable?
    case RuntimeSafety => tier.Pass? || tier.Unavailable?
    case Freshness => tier.Pass? || tier.Warn? || tier.NotApplicable?
    case ArtifactIntegrity => tier.Pass? || tier.Warn?
    case UnknownFamily(_) => false
  }

  predicate Insufficient(family: Family, tier: Tier) {
    family.RuntimeSafety? && (tier.Unavailable? || tier.NotChecked? || tier.Stale?)
  }

  predicate AllEligible(r: Residuals) {
    NonRuntimeEligible(r) && Eligible(RuntimeSafety, r.runtimeSafety)
  }

  predicate NonRuntimeEligible(r: Residuals) {
    && Eligible(IssuerChain, r.issuerChain) && Eligible(DestinationPolicy, r.destinationPolicy)
    && Eligible(RedirectFlow, r.redirectFlow) && Eligible(Freshness, r.freshness)
    && Eligible(ArtifactIntegrity, r.artifactIntegrity)
  }

  predicate Adverse(tier: Tier) {
    tier.Fail? || tier.Block?
  }

  function Blocking(reason: Reason): Decision {
    Decision(Blocked, [], [reason])
  }

  function Caution(reason: Reason): Decision {
    Decision(Unverified, [IncompleteVerificationWarning], [reason])
  }

  function StrictOr(profile: Profile, reason: Reason): Decision {
    if profile.StrictOnline? then Blocking(reason) else Caution(reason)
  }

  // ----- The decision as a function -----

  const ADVERSE: seq<(Family, Reason)> :=
    [(DestinationPolicy, DestinationPolicyFailed), (RedirectFlow, RedirectFlowFailed),
     (RuntimeSafety, RuntimeSafetyBlock), (Freshness, FreshnessBlock)]

  /** The reason of the first listed family whose tier is adverse. */
  function FirstAdverse(r: Residuals, rules: seq<(Family, Reason)>): Option<Reason> {
    if rules == [] then None
    else if Adverse(TierOf(r, rules[0].0)) then Some(rules[0].1)
    else FirstAdverse(r, rules[1..])
  }

  lemma AdverseMeans(r: Residuals)
    ensures FirstAdverse(r, ADVERSE).Some? <==>
            Adverse(r.destinationPolicy) || Adverse(r.redirectFlow) || Adverse(r.runtimeSafety) || Adverse(r.freshness)
  {
    assert ADVERSE[1..][0] == ADVERSE[1] && ADVERSE[1..][1..] == ADVERSE[2..];
    assert ADVERSE[2..][0] == ADVERSE[2] && ADVERSE[2..][1..] == ADVERSE[3..];
    assert ADVERSE[3..][0] == ADVERSE[3] && ADVERSE[3..][1..] == [];
    assert FirstAdverse(r, ADVERSE[3..]).Some? <==> Adverse(r.freshness);
    assert FirstAdverse(r, ADVERSE[2..]).Some? <==> Adverse(r.runtimeSafety) || Adverse(r.freshness);
  }

  /** The adverse rules, which decide before any neutral issuer can capture the case. */
  function AdverseRule(r: Residuals, profile: Profile, mandatory: set<Family>): Option<Decision> {
    if r.issuerChain.InvalidManagedClaim? then
      Some(if profile.ReferenceTesting?
           then Decision(Unverified, [InvalidTrustClaimWarning, PolicyProfileWarning],
                         [InvalidManagedTrustClaim, ReferenceTestingProfile])
           else Blocking(InvalidManagedTrustClaim))
    else if r.issuerChain.RevokedIssuer? then Some(Blocking(IssuerRevoked))
    else if FirstAdverse(r, ADVERSE).Some? then Some(Blocking(FirstAdverse(r, ADVERSE).value))
    else if profile.StrictOnline? && r.freshness.Warn? then Some(Blocking(FreshnessStale))
    else if r.artifactIntegrity.Block? then Some(Blocking(ArtifactIntegrityBlock))
    else if r.artifactIntegrity.Fail? then
      Some(if ArtifactIntegrity in mandatory then Blocking(ArtifactIntegrityFailed)
           else Decision(Unverified, [ArtifactWarning], [ArtifactIntegrityFailed]))
    else None
  }

  /** Contradiction, neutral capture, and the named runtime insufficiencies. */
  function CaptureRule(r: Residuals, profile: Profile): Option<Decision> {
    if r.issuerChain.CrossRootContradiction? then Some(StrictOr(profile, CrossRoot))
    else if r.issuerChain.NoIssuer? then Some(Decision(Unverified, [], [NoIssuerPath]))
    else if r.issuerChain.UnacceptedIssuer? then Some(Decision(SignedUnacceptedIssuer, [], [SignedByUnacceptedIssuer]))
    else if r.runtimeSafety.Stale? then Some(StrictOr(profile, RuntimeSafetyStale))
    else if profile.StrictOnline? && r.runtimeSafety.Unavailable? then Some(Blocking(RuntimeSafetyUnavailable))
    else if r.runtimeSafety.NotChecked? then Some(StrictOr(profile, RuntimeSafetyNotChecked))
    else None
  }

  /** `s`, with `x` appended when the condition holds. */
  function When<T>(s: seq<T>, condition: bool, x: T): seq<T> {
    if condition then s + [x] else s
  }

  function Annotations(r: Residuals, profile: Profile): seq<Annotation> {
    var stale := When([], r.freshness.Warn?, StaleOfflineWarning);
    var limited := When(stale, r.runtimeSafety.Unavailable?, LimitedRuntimeSafetyVisibility);
    var artifact := When(limited, r.artifactIntegrity.Warn?, ArtifactWarning);
    var redirect := When(artifact, r.redirectFlow.Warn?, RedirectVariationWarning);
    When(redirect, profile.ReferenceTesting?, PolicyProfileWarning)
  }

  function Reasons(r: Residuals, profile: Profile): seq<Reason> {
    var stale := When([], r.freshness.Warn?, FreshnessWarning);
    var limited := When(stale, r.runtimeSafety.Unavailable?, RuntimeSafetyUnavailable);
    var artifact := When(limited, r.artifactIntegrity.Warn?, ArtifactIntegrityWarning);
    var redirect := When(artifact, r.redirectFlow.Warn?, RedirectVariation);
    When(redirect, profile.ReferenceTesting?, ReferenceTestingProfile)
  }

  /** A required family whose evidence could not be established; a risky runtime verdict is evidence. */
  predicate LacksRequired(r: Residuals, mandatory: set<Family>, family: Family) {
    var tier := TierOf(r, family);
    && family in mandatory
    && (Insufficient(family, tier) || !Eligible(family, tier))
    && !(family.RuntimeSafety? && tier.Warn?)
  }

  predicate SomeRequiredMissing(r: Residuals, mandatory: set<Family>) {
    exists family :: family in mandatory && !family.UnknownFamily? && LacksRequired(r, mandatory, family)
  }

  /** The first family, in vector order, that lacks its required evidence. */
  function RequiredGap(r: Residuals, mandatory: set<Family>, families: seq<Family>): Option<Family> {
    if families == [] then None
    else if LacksRequired(r, mandatory, families[0]) then Some(families[0])
    else RequiredGap(r, mandatory, families[1..])
  }

  /** The rules left once no adverse, neutral or named insufficiency rule applies. */
  function TerminalRule(r: Residuals, profile: Profile, mandatory: set<Family>): Decision {
    if r.runtimeSafety.Warn? && NonRuntimeEligible(r) then
      Decision(VerifiedIssuerDestinationRisky, Annotations(r, profile), Reasons(r, profile) + [RuntimeSafetyWarning])
    else
      match RequiredGap(r, mandatory, RESIDUAL_FAMILIES)
      case Some(family) => StrictOr(profile, RequiredEvidenceMissing(family))
      case None =>
        if !AllEligible(r) then Caution(UnmodeledResidualCombination)
        else Decision(VerifiedIssuer, Annotations(r, profile), Reasons(r, profile))
  }

  predicate KnownFamilies(mandatory: set<Family>) {
    forall family :: family in mandatory ==> !family.UnknownFamily?
  }

  function Decided(r: Residuals, profile: Profile, mandatory: set<Family>): Decision {
    match AdverseRule(r, profile, mandatory)
    case Some(decision) => decision
    case None =>
      match CaptureRule(r, profile)
      case Some(decision) => decision
      case None => TerminalRule(r, profile, mandatory)
  }

  function DecideOutcome(r: Residuals, profile: Profile, mandatory: set<Family>): Result<Decision, DecisionError> {
    if profile.UnknownProfile? then Err(UnknownProfileError)
    else if !KnownFamilies(mandatory) then Err(UnknownResidualFamilyError)
    else Ok(Decided(r, profile, mandatory))
  }

  // ----- The decision as the source takes it -----

  method Decide(r: Residuals, profile: Profile, mandatory: set<Family>) returns (outcome: Result<Decision, DecisionError>)
    ensures outcome == DecideOutcome(r, profile, mandatory)
  {
    if profile.UnknownProfile? {
      return Err(UnknownProfileError);
    }
    var unknown := set family | family in mandatory && family !in RESIDUAL_FAMILIES;
    UnknownIsOutside(mandatory);
    if unknown != {} {
      return Err(UnknownResidualFamilyError);
    }

    if r.issuerChain.InvalidManagedClaim? {
      if profile.ReferenceTesting? {
        return Ok(Decision(Unverified, [InvalidTrustClaimWarning, PolicyProfileWarning],
                           [InvalidManagedTrustClaim, ReferenceTestingProfile]));
      }
      return Ok(Blocking(InvalidManagedTrustClaim));
    }
    if r.issuerChain.RevokedIssuer? {
      return Ok(Blocking(IssuerRevoked));
    }
    for i := 0 to |ADVERSE|
      invariant FirstAdverse(r, ADVERSE) == FirstAdverse(r, ADVERSE[i..])
    {
      assert ADVERSE[i..][1..] == ADVERSE[i + 1..];
      if Adverse(TierOf(r, ADVERSE[i].0)) {
        return Ok(Blocking(ADVERSE[i].1));
      }
    }
    if profile.StrictOnline? && r.freshness.Warn? {
      return Ok(Blocking(FreshnessStale));
    }
    if r.artifactIntegrity.Block? {
      return Ok(Blocking(ArtifactIntegrityBlock));
    }
    if r.artifactIntegrity.Fail? {
      if ArtifactIntegrity in mandatory {
        return Ok(Blocking(ArtifactIntegrityFailed));
      }
      return Ok(Decision(Unverified, [ArtifactWarning], [ArtifactIntegrityFailed]));
    }
    var decision := DecideNeutral(r, profile, mandatory);
    return Ok(decision);
  }

  /** The rules after the adverse ones. */
  method DecideNeutral(r: Residuals, profile: Profile, mandatory: set<Family>) returns (decision: Decision)
    ensures decision ==
            if CaptureRule(r, profile).Some? then CaptureRule(r, profile).value else TerminalRule(r, profile, mandatory)
  {
    if r.issuerChain.CrossRootContradiction? {
      return if profile.StrictOnline? then Blocking(CrossRoot) else Caution(CrossRoot);
    }
    if r.issuerChain.NoIssuer? {
      return Decision(Unverified, [], [NoIssuerPath]);
    }
    if r.issuerChain.UnacceptedIssuer? {
      return Decision(SignedUnacceptedIssuer, [], [SignedByUnacceptedIssuer]);
    }
    if r.runtimeSafety.Stale? {
      return if profile.StrictOnline? then Blocking(RuntimeSafetyStale) else Caution(RuntimeSafetyStale);
    }
    if profile.StrictOnline? && (r.runtimeSafety.Unavailable? || r.runtimeSafety.NotChecked?) {
      return Blocking(if r.runtimeSafety.Unavailable? then RuntimeSafetyUnavailable else RuntimeSafetyNotChecked);
    }
    if r.runtimeSafety.NotChecked? {
      return Caution(RuntimeSafetyNotChecked);
    }
    decision := DecideTerminal(r, profile, mandatory);
  }

  /** The cautions a state that asserts verification carries along. */
  method CarryCautions(r: Residuals, profile: Profile) returns (annotations: seq<Annotation>, reasons: seq<Reason>)
    ensures annotations == Annotations(r, profile) && reasons == Reasons(r, profile)
  {
    annotations, reasons := [], [];
    if r.freshness.Warn? {
      annotations, reasons := annotations + [StaleOfflineWarning], reasons + [FreshnessWarning];
    }
    if r.runtimeSafety.Unavailable? {
      annotations, reasons := annotations + [LimitedRuntimeSafetyVisibility], reasons + [RuntimeSafetyUnavailable];
    }
    if r.artifactIntegrity.Warn? {
      annotations, reasons := annotations + [ArtifactWarning], reasons + [ArtifactIntegrityWarning];
    }
    if r.redirectFlow.Warn? {
      annotations, reasons := annotations + [RedirectVariationWarning], reasons + [RedirectVariation];
    }
    if profile.ReferenceTesting? {
      annotations, reasons := annotations + [PolicyProfileWarning], reasons + [ReferenceTestingProfile];
    }
  }

  method DecideTerminal(r: Residuals, profile: Profile, mandatory: set<Family>) returns (decision: Decision)
    ensures decision == TerminalRule(r, profile, mandatory)
  {
    var annotations, reasons := CarryCautions(r, profile);
    if r.runtimeSafety.Warn? && NonRuntimeEligible(r) {
      reasons := reasons + [RuntimeSafetyWarning];
      return Decision(VerifiedIssuerDestinationRisky, annotations, reasons);
    }
    for i := 0 to |RESIDUAL_FAMILIES|
      invariant RequiredGap(r, mandatory, RESIDUAL_FAMILIES) == RequiredGap(r, mandatory, RESIDUAL_FAMILIES[i..])
    {
      var family := RESIDUAL_FAMILIES[i];
      var tier := TierOf(r, family);
      assert RESIDUAL_FAMILIES[i..][1..] == RESIDUAL_FAMILIES[i + 1..];
      if family !in mandatory {
        continue;
      }
      if !Insufficient(family, tier) && Eligible(family, tier) {
        continue;
      }
      if family.RuntimeSafety? && tier.Warn? {
        continue;
      }
      return if profile.StrictOnline? then Blocking(RequiredEvidenceMissing(family))
             else Caution(RequiredEvidenceMissing(family));
    }
    if !AllEligible(r) {
      return Caution(UnmodeledResidualCombination);
    }
    return Decision(VerifiedIssuer, annotations, reasons);
  }

  lemma VectorHoldsKnownFamilies(family: Family)
    ensures family in RESIDUAL_FAMILIES <==> !family.UnknownFamily?
  {
    assert RESIDUAL_FAMILIES[0] == IssuerChain && RESIDUAL_FAMILIES[1] == DestinationPolicy;
    assert RESIDUAL_FAMILIES[2] == RedirectFlow && RESIDUAL_FAMILIES[3] == RuntimeSafety;
    assert RESIDUAL_FAMILIES[4] == Freshness && RESIDUAL_FAMILIES[5] == ArtifactIntegrity;
  }

  lemma UnknownIsOutside(mandatory: set<Family>)
    ensures KnownFamilies(mandatory) <==> (set family | family in mandatory && family !in RESIDUAL_FAMILIES) == {}
  {
    var unknown := set family | family in mandatory && family !in RESIDUAL_FAMILIES;
    forall family | family in mandatory ensures family in unknown <==> family.UnknownFamily? {
      VectorHoldsKnownFamilies(family);
    }
    if unknown == {} {
      forall family | family in mandatory ensures !family.UnknownFamily? {
        assert family !in unknown;
      }
    }
  }

  // ----- When the decision asserts issuer verification -----

  lemma {:induction false} GapIsSomeFamily(r: Residuals, mandatory: set<Family>, families: seq<Family>)
    ensures match RequiredGap(r, mandatory, families)
            case Some(family) => family in families && LacksRequired(r, mandatory, family)
            case None => forall family :: family in families ==> !LacksRequired(r, mandatory, family)
  {
    if families != [] && !LacksRequired(r, mandatory, families[0]) {
      GapIsSomeFamily(r, mandatory, families[1..]);
      assert forall family :: family in families ==> family == families[0] || family in families[1..];
    }
  }

  /** The scan finds a gap exactly when some required family lacks its evidence. */
  lemma GapExactly(r: Residuals, mandatory: set<Family>)
    ensures RequiredGap(r, mandatory, RESIDUAL_FAMILIES).Some? <==> SomeRequiredMissing(r, mandatory)
  {
    GapIsSomeFamily(r, mandatory, RESIDUAL_FAMILIES);
    forall family | family in mandatory ensures family in RESIDUAL_FAMILIES <==> !family.UnknownFamily? {
      VectorHoldsKnownFamilies(family);
    }
  }

  /**
   * Exactly when a decision asserts issuer verification: every non-runtime family is positive-eligible,
   * and the runtime verdict is clean, tolerably absent, or risky; strict profiles tolerate no stale
   * freshness and no absent verdict, and a required runtime verdict may not be absent.
   */
  lemma PositiveExactly(r: Residuals, profile: Profile, mandatory: set<Family>)
    ensures var state := Decided(r, profile, mandatory).state;
            var current := !(profile.StrictOnline? && r.freshness.Warn?);
            && (state == VerifiedIssuer <==>
                  && NonRuntimeEligible(r) && current
                  && (r.runtimeSafety.Pass?
                      || (r.runtimeSafety.Unavailable? && !profile.StrictOnline? && RuntimeSafety !in mandatory)))
            && (state == VerifiedIssuerDestinationRisky <==> NonRuntimeEligible(r) && current && r.runtimeSafety.Warn?)
  {
    AdverseMeans(r);
    GapExactly(r, mandatory);
    if LacksRequired(r, mandatory, RuntimeSafety) {
      assert SomeRequiredMissing(r, mandatory);
    }
  }

  // ----- Attention -----

  function AttentionRank(d: Decision): nat {
    if d.state == Blocked then 3
    else if d.state == SignedUnacceptedIssuer || d.state == VerifiedIssuerDestinationRisky || d.annotations != [] then 2
    else if d.state == Unverified then 1
    else 0
  }

  lemma GapGrows(r: Residuals, mandatory: set<Family>, larger: set<Family>)
    requires mandatory <= larger
    ensures RequiredGap(r, mandatory, RESIDUAL_FAMILIES).Some? ==> RequiredGap(r, larger, RESIDUAL_FAMILIES).Some?
  {
    GapExactly(r, mandatory);
    GapExactly(r, larger);
    if family :| family in mandatory && !family.UnknownFamily? && LacksRequired(r, mandatory, family) {
      assert LacksRequired(r, larger, family);
    }
  }

  /** Requiring more evidence never lowers the attention a decision demands. */
  lemma MoreMandatoryNeverLowersAttention(r: Residuals, profile: Profile, mandatory: set<Family>, larger: set<Family>)
    requires mandatory <= larger
    ensures AttentionRank(Decided(r, profile, mandatory)) <= AttentionRank(Decided(r, profile, larger))
  {
    GapGrows(r, mandatory, larger);
  }

  /** The strict online profile never demands less attention than the bounded and production ones. */
  lemma StrictDemandsMost(r: Residuals, profile: Profile, mandatory: set<Family>)
    requires profile.BoundedOnline? || profile.BoundedOffline? || profile.ProductionTrusted?
    ensures AttentionRank(Decided(r, profile, mandatory)) <= AttentionRank(Decided(r, StrictOnline, mandatory))
  {
  }

  /**
   * The artifact tier is not monotone: a contradiction under the strict profile is blocked when the
   * artifact passes, and only unverified when it fails, because the failure decides first.
   */
  lemma ArtifactFailureCanLowerAttention(r: Residuals, mandatory: set<Family>)
    requires r == Residuals(CrossRootContradiction, Pass, Pass, Pass, Pass, Pass) && ArtifactIntegrity !in mandatory
    ensures AttentionRank(Decided(r.(artifactIntegrity := Fail), StrictOnline, mandatory))
            < AttentionRank(Decided(r, StrictOnline, mandatory))
  {
  }

  /** What the strict profile blocks once no adverse rule applies: a contradiction, or missing evidence. */
  predicate StrictBlocksLater(r: Residuals, mandatory: set<Family>) {
    || r.issuerChain.CrossRootContradiction?
    || (&& !r.issuerChain.NoIssuer? && !r.issuerChain.UnacceptedIssuer?
        && (|| Insufficient(RuntimeSafety, r.runtimeSafety)
            || (!(r.runtimeSafety.Warn? && NonRuntimeEligible(r)) && SomeRequiredMissing(r, mandatory))))
  }

  /** Exactly when a failing artifact demands less attention than the same vector with a passing or warning one. */
  lemma ArtifactFailureLowersAttentionExactly(r: Residuals, profile: Profile, mandatory: set<Family>)
    requires r.artifactIntegrity.Pass? || r.artifactIntegrity.Warn?
    ensures AttentionRank(Decided(r.(artifactIntegrity := Fail), profile, mandatory))
            < AttentionRank(Decided(r, profile, mandatory)) <==>
            && profile.StrictOnline? && ArtifactIntegrity !in mandatory
            && AdverseRule(r, profile, mandatory).None? && StrictBlocksLater(r, mandatory)
  {
    FailedArtifact(r, profile, mandatory);
    if AdverseRule(r, profile, mandatory).None? {
      BlockedPastAdverse(r, profile, mandatory);
    }
  }

  lemma FailedArtifact(r: Residuals, profile: Profile, mandatory: set<Family>)
    requires r.artifactIntegrity.Pass? || r.artifactIntegrity.Warn?
    ensures var failed := Decided(r.(artifactIntegrity := Fail), profile, mandatory);
            if AdverseRule(r, profile, mandatory).Some? then AttentionRank(failed) == AttentionRank(Decided(r, profile, mandatory))
            else AttentionRank(failed) == if ArtifactIntegrity in mandatory then 3 else 2
  {
    SameAdverse(r, r.(artifactIntegrity := Fail));
  }

  /** The listed adverse families do not include the artifact. */
  lemma SameAdverse(r: Residuals, r': Residuals)
    requires r' == r.(artifactIntegrity := r'.artifactIntegrity)
    ensures FirstAdverse(r, ADVERSE) == FirstAdverse(r', ADVERSE)
  {
    SameFirstAdverse(r, r', ADVERSE);
  }

  lemma {:induction false} SameFirstAdverse(r: Residuals, r': Residuals, rules: seq<(Family, Reason)>)
    requires r' == r.(artifactIntegrity := r'.artifactIntegrity)
    requires forall i :: 0 <= i < |rules| ==> rules[i].0 != ArtifactIntegrity
    ensures FirstAdverse(r, rules) == FirstAdverse(r', rules)
  {
    if rules != [] {
      SameFirstAdverse(r, r', rules[1..]);
    }
  }

  lemma BlockedPastAdverse(r: Residuals, profile: Profile, mandatory: set<Family>)
    requires AdverseRule(r, profile, mandatory).None?
    ensures AttentionRank(Decided(r, profile, mandatory)) == 3 <==> profile.StrictOnline? && StrictBlocksLater(r, mandatory)
  {
    GapExactly(r, mandatory);
  }
}

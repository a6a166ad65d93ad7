/**
 * The paper's formal decision table, encoded a second time with its own tables and its own
 * requiredness scan. It shares nothing with the decision core but the vocabulary.
 */
module FormalTable {
  import opened Wrappers
  import opened ResidualVocabulary

  const FORMAL_FAMILIES: seq<Family> :=
    [IssuerChain, DestinationPolicy, RedirectFlow, RuntimeSafety, Freshness, ArtifactIntegrity]

  /** The modelled tiers of each family. */
  const FORMAL_TIERS: map<Family, set<Tier>> := map[
    IssuerChain := {Pass, NoIssuer, UnacceptedIssuer, RevokedIssuer, InvalidManagedClaim, CrossRootContradiction},
    DestinationPolicy := {Pass, Fail, NotApplicable},
    RedirectFlow := {Pass, Warn, Fail, NotApplicable},
    RuntimeSafety := {Pass, Warn, Block, Stale, Unavailable, NotChecked},
    Freshness := {Pass, Warn, Block, NotApplicable},
    ArtifactIntegrity := {Pass, Warn, Fail, Block}
  ]

  const FORMAL_POSITIVE_ELIGIBLE: map<Family, set<Tier>> := map[
    IssuerChain := {Pass},
    DestinationPolicy := {Pass, NotApplicable},
    RedirectFlow := {Pass, Warn, NotApplicable},
    RuntimeSafety := {Pass, Unavailable},
    Freshness := {Pass, Warn, NotApplicable},
    ArtifactIntegrity := {Pass, Warn}
  ]

  const FORMAL_INSUFFICIENCY: map<Family, set<Tier>> := map[
    RuntimeSafety := {Stale, Unavailable, NotChecked}
  ]

  datatype FormalOutcome = FormalOutcome(state: PrimaryState, marks: set<Annotation>)

  datatype FormalError = FormalUnknownProfile | UnmodelledTier | FormalUnknownFamily

  const FORMAL_BLOCKED := FormalOutcome(Blocked, {})
  const FORMAL_CAUTION := FormalOutcome(Unverified, {IncompleteVerificationWarning})

  /** `tier in TABLE.get(family, {})` */
  predicate Listed(table: map<Family, set<Tier>>, family: Family, tier: Tier) {
    family in table && tier in table[family]
  }

  predicate Modelled(r: Residuals) {
    forall i :: 0 <= i < |FORMAL_FAMILIES| ==> Listed(FORMAL_TIERS, FORMAL_FAMILIES[i], TierOf(r, FORMAL_FAMILIES[i]))
  }

  predicate FormalFamilies(mandatory: set<Family>) {
    forall family :: family in mandatory ==> family in FORMAL_TIERS
  }

  /** A mandatory family whose tier is insufficient, or neither positive-eligible nor the risky runtime verdict. */
  predicate FailsRequirement(r: Residuals, mandatory: set<Family>, family: Family) {
    var tier := TierOf(r, family);
    && family in mandatory
    && !(family == RuntimeSafety && tier == Warn)
    && (Listed(FORMAL_INSUFFICIENCY, family, tier) || !Listed(FORMAL_POSITIVE_ELIGIBLE, family, tier))
  }

  predicate SomeRequirementFails(r: Residuals, mandatory: set<Family>) {
    exists i :: 0 <= i < |FORMAL_FAMILIES| && FailsRequirement(r, mandatory, FORMAL_FAMILIES[i])
  }

  predicate FormallyEligible(r: Residuals, besides: set<Family>) {
    forall i :: 0 <= i < |FORMAL_FAMILIES| && FORMAL_FAMILIES[i] !in besides ==>
      Listed(FORMAL_POSITIVE_ELIGIBLE, FORMAL_FAMILIES[i], TierOf(r, FORMAL_FAMILIES[i]))
  }

  /** The bare blocked state: classes whose relative order is not observable. */
  predicate MandatoryBlock(r: Residuals, profile: Profile, mandatory: set<Family>) {
    || r.issuerChain == RevokedIssuer || r.destinationPolicy == Fail || r.redirectFlow == Fail
    || r.runtimeSafety == Block || r.freshness == Block || (profile == StrictOnline && r.freshness == Warn)
    || r.artifactIntegrity == Block || (r.artifactIntegrity == Fail && ArtifactIntegrity in mandatory)
  }

  /** Classes 2 to 4 and the named insufficiencies of class 5. */
  function FormalEarly(r: Residuals, profile: Profile, mandatory: set<Family>): Option<FormalOutcome> {
    var strict := if profile == StrictOnline then FORMAL_BLOCKED else FORMAL_CAUTION;
    if r.issuerChain == InvalidManagedClaim then
      Some(if profile == ReferenceTesting then FormalOutcome(Unverified, {InvalidTrustClaimWarning, PolicyProfileWarning})
           else FORMAL_BLOCKED)
    else if MandatoryBlock(r, profile, mandatory) then Some(FORMAL_BLOCKED)
    else if r.artifactIntegrity == Fail then Some(FormalOutcome(Unverified, {ArtifactWarning}))
    else if r.issuerChain == CrossRootContradiction then Some(strict)
    else if r.issuerChain == NoIssuer then Some(FormalOutcome(Unverified, {}))
    else if r.issuerChain == UnacceptedIssuer then Some(FormalOutcome(SignedUnacceptedIssuer, {}))
    else if r.runtimeSafety == Stale || r.runtimeSafety == NotChecked then Some(strict)
    else if profile == StrictOnline && r.runtimeSafety == Unavailable then Some(FORMAL_BLOCKED)
    else None
  }

  function FormalMarks(r: Residuals, profile: Profile): set<Annotation> {
    (if r.freshness == Warn then {StaleOfflineWarning} else {})
    + (if r.runtimeSafety == Unavailable then {LimitedRuntimeSafetyVisibility} else {})
    + (if r.artifactIntegrity == Warn then {ArtifactWarning} else {})
    + (if r.redirectFlow == Warn then {RedirectVariationWarning} else {})
    + (if profile == ReferenceTesting then {PolicyProfileWarning} else {})
  }

  /** The rest of the table: requiredness, then the risky downgrade, totality and the positive rule. */
  function FormalLate(r: Residuals, profile: Profile, mandatory: set<Family>): FormalOutcome {
    if SomeRequirementFails(r, mandatory) then (if profile == StrictOnline then FORMAL_BLOCKED else FORMAL_CAUTION)
    else if r.runtimeSafety == Warn && FormallyEligible(r, {RuntimeSafety}) then
      FormalOutcome(VerifiedIssuerDestinationRisky, FormalMarks(r, profile))
    else if !FormallyEligible(r, {}) then FORMAL_CAUTION
    else FormalOutcome(VerifiedIssuer, FormalMarks(r, profile))
  }

  function FormalRow(r: Residuals, profile: Profile, mandatory: set<Family>): FormalOutcome {
    var early := FormalEarly(r, profile, mandatory);
    if early.Some? then early.value else FormalLate(r, profile, mandatory)
  }

  /** The table's answer to any input: the checks of profile, tiers and families come in this order. */
  function TableOutcome(r: Residuals, profile: Profile, mandatory: set<Family>): Result<FormalOutcome, FormalError> {
    if profile.UnknownProfile? then Err(FormalUnknownProfile)
    else if !Modelled(r) then Err(UnmodelledTier)
    else if !FormalFamilies(mandatory) then Err(FormalUnknownFamily)
    else Ok(FormalRow(r, profile, mandatory))
  }

  method FormalTableDecision(r: Residuals, profile: Profile, mandatory: set<Family>)
    returns (outcome: Result<FormalOutcome, FormalError>)
    ensures outcome == TableOutcome(r, profile, mandatory)
  {
    if profile.UnknownProfile? {
      return Err(FormalUnknownProfile);
    }
    for i := 0 to |FORMAL_FAMILIES|
      invariant forall j :: 0 <= j < i ==> Listed(FORMAL_TIERS, FORMAL_FAMILIES[j], TierOf(r, FORMAL_FAMILIES[j]))
    {
      if !Listed(FORMAL_TIERS, FORMAL_FAMILIES[i], TierOf(r, FORMAL_FAMILIES[i])) {
        return Err(UnmodelledTier);
      }
    }
    if !FormalFamilies(mandatory) {
      return Err(FormalUnknownFamily);
    }

    if r.issuerChain == InvalidManagedClaim {
      if profile == ReferenceTesting {
        return Ok(FormalOutcome(Unverified, {InvalidTrustClaimWarning, PolicyProfileWarning}));
      }
      return Ok(FORMAL_BLOCKED);
    }
    if r.issuerChain == RevokedIssuer || r.destinationPolicy == Fail || r.redirectFlow == Fail {
      return Ok(FORMAL_BLOCKED);
    }
    if r.runtimeSafety == Block || r.freshness == Block {
      return Ok(FORMAL_BLOCKED);
    }
    if profile == StrictOnline && r.freshness == Warn {
      return Ok(FORMAL_BLOCKED);
    }
    if r.artifactIntegrity == Block || (r.artifactIntegrity == Fail && ArtifactIntegrity in mandatory) {
      return Ok(FORMAL_BLOCKED);
    }
    if r.artifactIntegrity == Fail {
      return Ok(FormalOutcome(Unverified, {ArtifactWarning}));
    }
    if r.issuerChain == CrossRootContradiction {
      return Ok(if profile == StrictOnline then FORMAL_BLOCKED else FORMAL_CAUTION);
    }
    if r.issuerChain == NoIssuer {
      return Ok(FormalOutcome(Unverified, {}));
    }
    if r.issuerChain == UnacceptedIssuer {
      return Ok(FormalOutcome(SignedUnacceptedIssuer, {}));
    }
    if r.runtimeSafety == Stale || r.runtimeSafety == NotChecked {
      return Ok(if profile == StrictOnline then FORMAL_BLOCKED else FORMAL_CAUTION);
    }
    if profile == StrictOnline && r.runtimeSafety == Unavailable {
      return Ok(FORMAL_BLOCKED);
    }
    var late := FormalTail(r, profile, mandatory);
    return Ok(late);
  }

  /** The table past its early exits, with the marks collected in a set. */
  method FormalTail(r: Residuals, profile: Profile, mandatory: set<Family>) returns (outcome: FormalOutcome)
    ensures outcome == FormalLate(r, profile, mandatory)
  {
    for i := 0 to |FORMAL_FAMILIES|
      invariant forall j :: 0 <= j < i ==> !FailsRequirement(r, mandatory, FORMAL_FAMILIES[j])
    {
      var family := FORMAL_FAMILIES[i];
      if family !in mandatory {
        continue;
      }
      var tier := TierOf(r, family);
      if family == RuntimeSafety && tier == Warn {
        continue;
      }
      if Listed(FORMAL_INSUFFICIENCY, family, tier) || !Listed(FORMAL_POSITIVE_ELIGIBLE, family, tier) {
        assert FailsRequirement(r, mandatory, FORMAL_FAMILIES[i]);
        return if profile == StrictOnline then FORMAL_BLOCKED else FORMAL_CAUTION;
      }
    }
    var marks := {};
    if r.freshness == Warn {
      marks := marks + {StaleOfflineWarning};
    }
    if r.runtimeSafety == Unavailable {
      marks := marks + {LimitedRuntimeSafetyVisibility};
    }
    if r.artifactIntegrity == Warn {
      marks := marks + {ArtifactWarning};
    }
    if r.redirectFlow == Warn {
      marks := marks + {RedirectVariationWarning};
    }
    if profile == ReferenceTesting {
      marks := marks + {PolicyProfileWarning};
    }
    assert marks == FormalMarks(r, profile);
    if r.runtimeSafety == Warn && FormallyEligible(r, {RuntimeSafety}) {
      return FormalOutcome(VerifiedIssuerDestinationRisky, marks);
    }
    if !FormallyEligible(r, {}) {
      return FORMAL_CAUTION;
    }
    return FormalOutcome(VerifiedIssuer, marks);
  }
}

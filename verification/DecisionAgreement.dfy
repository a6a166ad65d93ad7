/** The decision core against the formal table: separate tables, opposite rule orders, one answer. */
module DecisionAgreement {
  import opened Wrappers
  import opened ResidualVocabulary
  import opened ResidualDecision
  import opened FormalTable

  // ----- The tables -----

  /** The two encodings list the same eligible tiers and the same insufficiency tiers for every family. */
  lemma TablesAgree(family: Family, tier: Tier)
    ensures Listed(FORMAL_POSITIVE_ELIGIBLE, family, tier) <==> Eligible(family, tier)
    ensures Listed(FORMAL_INSUFFICIENCY, family, tier) <==> Insufficient(family, tier)
  {
  }

  lemma FamilyListed(family: Family)
    ensures family in FORMAL_TIERS <==> !family.UnknownFamily?
    ensures !family.UnknownFamily? ==> exists i :: 0 <= i < |FORMAL_FAMILIES| && FORMAL_FAMILIES[i] == family
  {
    assert FORMAL_FAMILIES[0] == IssuerChain && FORMAL_FAMILIES[1] == DestinationPolicy;
    assert FORMAL_FAMILIES[2] == RedirectFlow && FORMAL_FAMILIES[3] == RuntimeSafety;
    assert FORMAL_FAMILIES[4] == Freshness && FORMAL_FAMILIES[5] == ArtifactIntegrity;
  }

  lemma RequirementsAgree(r: Residuals, mandatory: set<Family>)
    ensures SomeRequirementFails(r, mandatory) <==> SomeRequiredMissing(r, mandatory)
  {
    if i :| 0 <= i < |FORMAL_FAMILIES| && FailsRequirement(r, mandatory, FORMAL_FAMILIES[i]) {
      TablesAgree(FORMAL_FAMILIES[i], TierOf(r, FORMAL_FAMILIES[i]));
      assert LacksRequired(r, mandatory, FORMAL_FAMILIES[i]) && !FORMAL_FAMILIES[i].UnknownFamily?;
    }
    if family :| family in mandatory && !family.UnknownFamily? && LacksRequired(r, mandatory, family) {
      TablesAgree(family, TierOf(r, family));
      FamilyListed(family);
      var i :| 0 <= i < |FORMAL_FAMILIES| && FORMAL_FAMILIES[i] == family;
      assert FailsRequirement(r, mandatory, FORMAL_FAMILIES[i]);
    }
  }

  lemma EligibilityAgrees(r: Residuals)
    ensures FormallyEligible(r, {RuntimeSafety}) <==> NonRuntimeEligible(r)
    ensures FormallyEligible(r, {}) <==> AllEligible(r)
  {
    assert FORMAL_FAMILIES[0] == IssuerChain && FORMAL_FAMILIES[1] == DestinationPolicy;
    assert FORMAL_FAMILIES[2] == RedirectFlow && FORMAL_FAMILIES[3] == RuntimeSafety;
    assert FORMAL_FAMILIES[4] == Freshness && FORMAL_FAMILIES[5] == ArtifactIntegrity;
    TablesAgree(IssuerChain, r.issuerChain);
    TablesAgree(DestinationPolicy, r.destinationPolicy);
    TablesAgree(RedirectFlow, r.redirectFlow);
    TablesAgree(RuntimeSafety, r.runtimeSafety);
    TablesAgree(Freshness, r.freshness);
    TablesAgree(ArtifactIntegrity, r.artifactIntegrity);
  }

  /** The two reject the same mandatory sets. */
  lemma FamiliesAgree(mandatory: set<Family>)
    ensures FormalFamilies(mandatory) <==> KnownFamilies(mandatory)
  {
    forall family | family in mandatory ensures family in FORMAL_TIERS <==> !family.UnknownFamily? {
      FamilyListed(family);
    }
  }

  // ----- The outcomes -----

  function Seen(annotations: seq<Annotation>): set<Annotation> {
    set a | a in annotations
  }

  /** A decision as the table would put it. */
  function Formal(d: Decision): FormalOutcome {
    FormalOutcome(d.state, Seen(d.annotations))
  }

  lemma MarksAreAnnotations(r: Residuals, profile: Profile)
    ensures Seen(Annotations(r, profile)) == FormalMarks(r, profile)
  {
  }

  lemma SeenFew(a: Annotation, b: Annotation)
    ensures Seen([]) == {} && Seen([a]) == {a} && Seen([a, b]) == {a, b}
  {
    assert [a][0] == a && [a, b][0] == a && [a, b][1] == b;
  }

  /** On modelled tiers an adverse verdict is the table's own. */
  lemma SomeAdverseModelled(r: Residuals)
    requires Modelled(r)
    ensures FirstAdverse(r, ADVERSE).Some? <==>
            r.destinationPolicy.Fail? || r.redirectFlow.Fail? || r.runtimeSafety.Block? || r.freshness.Block?
  {
    AdverseMeans(r);
    assert FORMAL_FAMILIES[1] == DestinationPolicy && FORMAL_FAMILIES[2] == RedirectFlow;
    assert FORMAL_FAMILIES[3] == RuntimeSafety && FORMAL_FAMILIES[4] == Freshness;
    assert Listed(FORMAL_TIERS, DestinationPolicy, r.destinationPolicy) && Listed(FORMAL_TIERS, RedirectFlow, r.redirectFlow);
    assert Listed(FORMAL_TIERS, RuntimeSafety, r.runtimeSafety) && Listed(FORMAL_TIERS, Freshness, r.freshness);
  }

  /** Up to requiredness both encodings take the same early exits. */
  lemma EarlyExitsAgree(r: Residuals, profile: Profile, mandatory: set<Family>)
    requires Modelled(r)
    ensures var adverse := AdverseRule(r, profile, mandatory);
            FormalEarly(r, profile, mandatory) ==
            if adverse.Some? then Some(Formal(adverse.value))
            else if CaptureRule(r, profile).Some? then Some(Formal(CaptureRule(r, profile).value))
            else None
  {
    SomeAdverseModelled(r);
    SeenFew(InvalidTrustClaimWarning, PolicyProfileWarning);
    SeenFew(ArtifactWarning, PolicyProfileWarning);
    SeenFew(IncompleteVerificationWarning, PolicyProfileWarning);
  }

  /** Past the early exits the order of the risky downgrade and requiredness is not observable. */
  lemma TerminalsAgree(r: Residuals, profile: Profile, mandatory: set<Family>)
    requires FormalEarly(r, profile, mandatory).None?
    ensures Formal(TerminalRule(r, profile, mandatory)) == FormalLate(r, profile, mandatory)
  {
    MarksAreAnnotations(r, profile);
    RequirementsAgree(r, mandatory);
    EligibilityAgrees(r);
    GapExactly(r, mandatory);
    SeenFew(IncompleteVerificationWarning, PolicyProfileWarning);
    RiskyLacksNothing(r, mandatory);
  }

  /** A risky runtime verdict among eligible families fails no requirement. */
  lemma RiskyLacksNothing(r: Residuals, mandatory: set<Family>)
    ensures r.runtimeSafety.Warn? && NonRuntimeEligible(r) ==> !SomeRequiredMissing(r, mandatory)
  {
  }

  /**
   * On every modelled vector the decision core and the formal table agree on state and annotations,
   * although one takes the risky downgrade before requiredness and the other after it.
   */
  lemma DecisionMatchesFormalTable(r: Residuals, profile: Profile, mandatory: set<Family>)
    requires Modelled(r)
    ensures var d := Decided(r, profile, mandatory);
            FormalOutcome(d.state, Seen(d.annotations)) == FormalRow(r, profile, mandatory)
  {
    EarlyExitsAgree(r, profile, mandatory);
    if FormalEarly(r, profile, mandatory).None? {
      TerminalsAgree(r, profile, mandatory);
    }
  }

  lemma FamilyTiersAreModelled(r: Residuals, i: nat)
    requires i < |FORMAL_FAMILIES|
    requires || Eligible(FORMAL_FAMILIES[i], TierOf(r, FORMAL_FAMILIES[i]))
             || (FORMAL_FAMILIES[i] == RuntimeSafety && r.runtimeSafety.Warn?)
    ensures Listed(FORMAL_TIERS, FORMAL_FAMILIES[i], TierOf(r, FORMAL_FAMILIES[i]))
  {
  }

  /** The states that assert issuer verification are reached on modelled tiers only. */
  lemma PositiveIsModelled(r: Residuals, profile: Profile, mandatory: set<Family>)
    requires var state := Decided(r, profile, mandatory).state;
             state == VerifiedIssuer || state == VerifiedIssuerDestinationRisky
    ensures Modelled(r)
  {
    PositiveExactly(r, profile, mandatory);
    forall i | 0 <= i < |FORMAL_FAMILIES|
      ensures Listed(FORMAL_TIERS, FORMAL_FAMILIES[i], TierOf(r, FORMAL_FAMILIES[i]))
    {
      FamilyTiersAreModelled(r, i);
    }
  }

  /**
   * On every input the two encodings fail or agree together: on the same unknown profiles and, over modelled
   * tiers, the same unknown families, with the same state and annotations otherwise. On a tier outside the
   * model the table fails, and the decision core never asserts issuer verification.
   */
  lemma EncodingsFailOrAgree(r: Residuals, profile: Profile, mandatory: set<Family>)
    ensures var (core, table) := (DecideOutcome(r, profile, mandatory), TableOutcome(r, profile, mandatory));
            && (core == Err(UnknownProfileError) <==> table == Err(FormalUnknownProfile))
            && (Modelled(r) ==>
                  && (core == Err(UnknownResidualFamilyError) <==> table == Err(FormalUnknownFamily))
                  && (core.Ok? <==> table.Ok?)
                  && (core.Ok? ==> table.value == Formal(core.value)))
            && (!Modelled(r) ==>
                  && table.Err?
                  && (core.Ok? ==> core.value.state != VerifiedIssuer && core.value.state != VerifiedIssuerDestinationRisky))
  {
    FamiliesAgree(mandatory);
    if Modelled(r) {
      DecisionMatchesFormalTable(r, profile, mandatory);
    } else if DecideOutcome(r, profile, mandatory).Ok? {
      var state := Decided(r, profile, mandatory).state;
      if state == VerifiedIssuer || state == VerifiedIssuerDestinationRisky {
        PositiveIsModelled(r, profile, mandatory);
      }
    }
  }
}

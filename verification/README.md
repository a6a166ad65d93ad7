# Verifier trust model

This project models the stateful trust machinery of a signed QR code verifier and the
string canonicalisers, counters and rules it stands on, and proves what they keep.

- **Trust projection** (`TrustDatabase`, `TrustProjection`, `TrustStore`, `TrustRules`,
  `TrustTransitions`, `ProjectionProtocol`, `RefreshOutcomes`, `RevocationRequests`, `StoreHistories`,
  `CertificateProjection`, `Provenance`, `RowOrder`, `ProofOrder`): the governance tables and their (epoch, version)
  token, the loader, the scanner's in-memory store, and whole runs in which writers, the loss
  and recreation of the version row, local publishers and queueing callers interleave at every
  point where the verifier awaits the database. Main results: cache coherence, bounded
  staleness, enforcement of revocation, and every acceptance traced back to the rows that
  justify it.
- **Governance** (`Governance`, `GovernanceOutcomes`, `GovernanceBuilders`, `EventKeys`): idempotency key, state
  change, token bump, audit and outbox in one transaction, over serial histories in which any call may die under any statement, and the
  thirteen builders of the mutations.
- **Destinations** (`PercentEncoding`, `EscapeForms`, `PathResolution`, `RulePrefixes`, `VerifiedDomains`,
  `DomainSpelling`, `DestinationPolicy`): percent normalisation, dot-segment removal against section 5.2.4 of
  RFC 3986, domain maps, segment-exact prefixes and the rule matcher.
- **Counters** (`Counting`, `RateLimiter`, `SharedRateLimiter`, `SharedWindows`, `RedisSteps`, `VerdictRate`,
  `ScanSpikes`): the sliding window, the shared fixed window with its fallback, minute buckets and the spike
  detector, each against the full log of events.
- **Envelopes** (`Json`, `SignedSchema`, `EnvelopeParsing`): the claims text, the envelope round trip and the
  identity string.
- **Rules** (`NarrowedVerifier`, `ResidualVocabulary`, `ResidualDecision`, `DecisionReasons`,
  `FormalTable`, `DecisionAgreement`): the presentation pipeline and the trust decision with its independent
  formal table.
- **Containers** (`PdfContainer`): which rendered PDF pages may be dropped.

Instants of the trust machinery are integers in microseconds; limiter and cache clocks are
reals. `Wrappers`, `Text` and `Permutations` hold the shared result types and the laws of
trimming, splitting, joining and reordering.

In these places the code does not do what one would expect of it. The model follows the code,
gives an input that fails, and proves exactly when the expectation holds.

- The loader keys issuers by issuer id alone, so a certificate's own revoked issuer row can be
  overruled by another root's row of the same id (`Provenance.AnotherRootsRowUnblocks`,
  `Provenance.RevokedRowIsOverruledExactly`, `Provenance.LastProjectableGoverns`).
- It keys their domain proofs by issuer id alone as well, so another root's proof can carry an
  acceptance (`Provenance.AnotherRootsProofAccepts`, `Provenance.OwnRowsDecideExactly`,
  `Provenance.LastVerifiedGoverns`).
- Its queries ask for no order, so the projection can depend on the order of issuer rows and of
  proof rows (`RowOrder.ProofOrderDecidesExpiry`, `RowOrder.FetchOrderExactly`).
- Removing a key forgets that it was revoked, so it can be republished and used until the next reload
  (`ProjectionProtocol.RepublishedKeyIsReused`, `ProjectionProtocol.RevocationIsEnforced`).
- Distinct request ids do not always give distinct outbox events, because request ids and target
  ids may contain ':' (`Governance.DistinctRequestIdsMayShareAnEvent`,
  `EventKeys.KeysCollideExactly`).
- Canonicalising a rule prefix twice can change it (`PathResolution.RulePrefixIsNotIdempotent`,
  `RulePrefixes.RulePrefixStableExactly`).
- Retiring a key can extend the validity of a key that had already lapsed
  (`NarrowedVerifier.RetirementWidensExactly`).
- The store accepts keys in unknown states, so the verifier's missing-material refusal is
  reachable (`TrustProjection.PendingKeyIsRefusedForMaterial`,
  `TrustProjection.ResolvedKeysAreVerifiable`).
- A local write can displace a projected entry, and clearing the store leaves the manager's token
  behind (`TrustStore.LocalIssuerDisplacesProjected`, `TrustProjection.ClearedStoreIsReused`,
  `TrustStore.LocalOpKeepsSliceExactly`).
- A failing artifact can demand less attention than a clean one
  (`ResidualDecision.ArtifactFailureCanLowerAttention`,
  `ResidualDecision.ArtifactFailureLowersAttentionExactly`).
- A denial's `retry_after` can understate the wait once the limit was lowered
  (`RateLimiter.LoweredLimitUnderstatesWait`, `RateLimiter.RetryAfterIsLeastExactly`,
  `RateLimiter.GrowingLimitsNameLeastWait`).
- A status request for a certificate that is not there is applied and audited
  (`GovernanceBuilders.MissingRowRequests`, `GovernanceBuilders.StatusRequestsApplyExactly`).
- The +1 second on the Redis expiry covers delays up to one second and no longer
  (`RedisSteps.PromptRunCovers`, `RedisSteps.LateIncrementOverruns`).

## Model

| member | source | states |
|---|---|---|
| ProjectionProtocol.CacheCoherence | backend/app/services/trust_projection.py:235-278 | In every run of writers, version-row loss and recreation, probes, snapshot loads with writes in between and rows fetched in any order, failures, cancellations and arbitrary local writes: whenever the manager holds a token and no local write has touched a projected entry since the last reload, the store's projected slice is the projection of every committed version that carried that token, its rows in some order. |
| ProjectionProtocol.BoundedStaleness | backend/app/services/trust_projection.py:235-288 | Over every run, a reused or fresh answer rests on a database state current no earlier than the caller's own clock reading, and a stale one on a state current no earlier than that minus the budget, however late callers reached the lock and however many refreshes failed; a fresh answer also undoes every local disturbance. |
| ProjectionProtocol.RevocationIsEnforced | backend/app/services/narrowed_verifier_poc.py:81-106 | Once a certificate is durably revoked at T, after any answer with a clock reading beyond T plus the budget every presentation that resolves its key is refused at `issuer_status` or `key_status`, with or without key material, unless a local writer republished the key after removing it since the last reload; under an active issuer it is refused as revoked if and only if nobody did. |
| ProjectionProtocol.RepublishedKeyIsReused | backend/app/services/scanner_trust_store.py:271-272 | The failing input: from a process start over any loadable state that holds a certificate as revoked, a run that removes its key, republishes it as active and refreshes any time later gets the answer "reused" and resolves the active key. |
| ProjectionProtocol.LocalOpKeepsRevocations | backend/app/services/scanner_trust_store.py:198-239 | What a store holds of a durable revocation changes only when a removed key is republished: put_key refuses to un-revoke, and the rest leave a held revocation alone or remove the key. |
| ProjectionProtocol.InstallRevokes | backend/app/services/scanner_trust_store.py:241-269 | A reload over any store brings every durable revocation into it, in whatever order the rows were fetched. |
| ProjectionProtocol.RunKeepsInvariant | backend/app/services/trust_projection.py:235-288 | Every reachable state of the protocol keeps the log, manager, queue and answer invariants the three results above rest on. |
| ProjectionProtocol.UnhydratedStoreIsEmpty | backend/app/services/trust_projection.py:221-230 | A manager that never confirmed a token has put nothing into the store's projected slice. |
| RefreshOutcomes.FailuresAreServedExactly | backend/app/services/trust_projection.py:280-288 | Over every run, a refresh that confirms nothing at caller time now is answered "stale-served" if some earlier refresh confirmed a version and the last to do so read its clock no earlier than now minus the budget, and "unavailable" otherwise, whatever else happened in between. |
| RefreshOutcomes.RefreshesAnswerExactly | backend/app/services/trust_projection.py:235-278 | Over every run, a probe that finds the held token answers "reused", an install of a loadable fetch "fresh"; a missing version row, an unloadable fetch and a lost connection answer as failures, and no other step answers anybody. |
| TrustProjection.TrustProjectionManager.EnsureFresh | backend/app/services/trust_projection.py:235-278 | A connected call does to token, last success and store exactly what the protocol's refresh step does, and answers with its outcome, which `RefreshOutcomes` gives over every run; an unconnected one changes nothing and answers "inert". |
| TrustProjection.TrustProjectionManager.Degrade | backend/app/services/trust_projection.py:280-288 | A failed refresh answers from the age of the last success and moves nothing; `RefreshOutcomes.FailuresAreServedExactly` says which answer that is over every run. |
| TrustProjection.LoadTrustSnapshot | backend/app/services/trust_projection.py:166-215 | The loader's dictionaries and lists are the snapshot of one committed state, and it raises exactly when the version row is missing or some issuer's proofs are ambiguous. |
| TrustProjection.GroupProofs | backend/app/services/trust_projection.py:177-181 | The grouping loop yields, per issuer id, that issuer's verified proofs with later rows overwriting earlier ones of the same raw domain. |
| TrustProjection.CanonicalizeGroups | backend/app/services/trust_projection.py:182-190 | Every group is replaced by its canonical map, or the load fails exactly when some group is ambiguous. |
| TrustProjection.BuildKeys | backend/app/services/trust_projection.py:200-208 | Keys and defects collected by the loop are those of the rows, in order. |
| CertificateProjection.RowProjectsExactly | backend/app/services/trust_projection.py:59-121 | In the row's own columns: rows in a blocking status are projected with or without key text, rows in a verifying one only with text that is not blank and loads; every column is carried over, and each row without usable text is reported as excluded or as projected without material. |
| CertificateProjection.EveryRowIsAccountedFor | backend/app/services/trust_projection.py:200-208 | No certificate row is lost: every one is a key or an excluded row, and the remaining defects are as many as the keys without material. |
| TrustProjection.RevokedCertificateIsProjected | backend/app/services/trust_projection.py:73-121 | A durably revoked certificate is in the projected slice as a revoked key whether or not its material is present or loads. |
| TrustProjection.IssuerDomainsCanonical | backend/app/services/trust_projection.py:182-190 | What the loader hands to the issuer projection is already canonical, so canonicalising it again is the identity. |
| TrustProjection.ReachableStoresAreWellFormed | backend/app/services/scanner_trust_store.py:190-272 | In every store reachable through local writes and reloads fed by the loader, verifying keys have material and every domain map is canonical and collision-free. |
| TrustProjection.ResolvedKeysAreVerifiable | backend/app/services/narrowed_verifier_poc.py:96-106 | For a key resolved from a reachable store the matcher's re-canonicalisation is the identity, and the missing-material refusal can fire only for an unblocked local key in a state outside the known four. |
| TrustProjection.PendingKeyIsRefusedForMaterial | backend/app/services/narrowed_verifier_poc.py:96-106 | The failing input: a reachable store with an active issuer and a "pending" key without material is refused for missing material. The store's own method takes any state text; the endpoint that publishes keys admits four (backend/app/schemas/poc.py:161), so only other callers of the store reach this. |
| TrustProjection.ClearedStoreIsReused | backend/app/services/scanner_trust_store.py:280-283 | The failing input: after `clear` the manager still holds its token and answers "reused" over an empty store. |
| Provenance.AcceptanceIsJustified | backend/app/services/narrowed_verifier_poc.py:71-162 | Whatever is accepted under projected trust is justified by rows of the projected state: a usable certificate row in a verifying status whose window admits the artifact, an active issuer row in force and a verified, unexpired proof row covering the host, all of one issuer id; with distinct issuer ids the foreign keys make them the rows of the certificate's own root, authority and issuer. |
| Provenance.DecidingRows | backend/app/services/trust_projection.py:146-208 | Every acceptance under projected trust rests on three rows that admit it: the certificate's, the last projectable one of its issuer id, and the last verified proof, spelled alike, behind the first domain that covers the host. |
| Provenance.AcceptedExactlyWhenRowsAdmit | backend/app/services/narrowed_verifier_poc.py:71-162 | With distinct certificates a presentation is accepted if and only if the rows that decide about it admit it, its signature and its claimed times hold and no policy refuses it. |
| Provenance.VerifyingEntry | backend/app/services/trust_projection.py:73-121 | A rotated or expired certificate with usable text projects as a retired key with its material and window, so it goes on verifying what it signed. |
| Provenance.OwnRowsDecideExactly | backend/app/services/trust_projection.py:177-199 | With the schema intact those rows are the certificate's own if and only if its own issuer row is the last projectable one of its id and the last verified row of that id and raw domain carries its root and authority; then own rows justify the acceptance, and in general they do if and only if the own issuer row is in force and an own proof holds for the host. |
| Provenance.AnotherRootsProofAccepts | backend/app/services/trust_projection.py:177-181 | The failing input: with the schema intact, a code signed under root A's certificate is accepted for a domain whose only verified proof was filed under root B's pending issuer of the same id, and no own rows justify it. |
| Provenance.LastVerifiedGoverns | backend/app/services/trust_projection.py:177-190 | A projected domain's expiry is that of the last verified row, in fetch order, of its issuer id and raw domain, and that row is unique. |
| ProofOrder.DomainsInFetchOrder | backend/app/services/trust_projection.py:177-190 | Of two domains of a record, the one asked first whether it covers a host is the one of which a proof was verified first in fetch order; a later row of a known domain moves nothing. |
| Provenance.DomainsOkExactly | backend/app/services/trust_projection.py:182-190 | An issuer id's domains canonicalise if and only if its verified rows name hostnames and no two spell one host differently. |
| Provenance.AcceptanceIsRecentlyJustified | backend/app/services/trust_projection.py:235-288 | Over every run, once a refresh answered, an acceptance under a projected key and issuer that no local write has disturbed since the last reload is justified by rows that were the committed state no earlier than the answering caller's clock minus the budget: fetched in some order they lead to it, so its deciding rows are among them; with distinct issuer ids they are the certificate's own. |
| Provenance.LastProjectableGoverns | backend/app/services/trust_projection.py:192-198 | The projected record of an issuer id is that of its last row, in fetch order, with a status the projection knows. |
| Provenance.RevokedRowIsOverruledExactly | backend/app/services/trust_projection.py:192-198 | A revoked issuer row fails to block a key that is not itself revoked or suspended if and only if a later row of its id is the last projectable one and is active. |
| Provenance.AnotherRootsRowUnblocks | backend/app/services/trust_projection.py:177-199 | The failing input: with the schema intact, a certificate whose own issuer row is revoked projects as unblocked when another root's row of the same id is active and fetched later. |
| RowOrder.IssuerIgnoresOrderExactly | backend/app/services/trust_projection.py:146-164 | For one listing of the proofs, the record of an issuer id is the same in every order of the issuer rows if and only if all its projectable rows give one record. |
| RowOrder.FetchOrderExactly | backend/app/services/trust_projection.py:146-215 | The whole projection: with the schema intact, every fetch order of issuers, proofs and certificates loads alike, with the same keys and the same records up to the order of their domains, if and only if the state does not load or, for each id that projects, its projectable rows record the same and its verified proofs of one raw domain agree on the expiry. |
| RowOrder.LoadableExactly | backend/app/services/trust_projection.py:166-190 | Whether a fetch loads never depends on the order: it does if and only if the version row is there and every issuer id's verified proofs name hostnames spelled in one way. |
| RowOrder.ProofOrderDecidesExpiry | backend/app/services/trust_projection.py:177-181 | The failing input: with the schema intact and a single projectable row of the id, two roots' verified proofs of one domain make its expiry that of whichever proof is fetched last. |
| RowOrder.KeysIgnoreOrder | backend/app/services/trust_projection.py:200-208 | Distinct certificates project to the same keys in every fetch order. |
| RowOrder.ProjectionIgnoresOrder | backend/app/services/trust_projection.py:166-215 | With distinct issuer ids the schema makes fetch order unobservable: every order loads or none does, with the same keys and the same records up to the order of each record's domains. |
| RowOrder.CoherentUpToDomainOrder | backend/app/services/trust_projection.py:235-278 | Cache coherence without the order: when the rows of the version that carries the token agree in this sense, the undisturbed slice is its projection up to the order of each record's domains. |
| VerifiedDomains.CanonicalMapExactly | backend/app/services/destination_canonicalization.py:142-163 | With or without blank filtering, a domain map is accepted if and only if every key that is not skipped is a hostname and no two spell the same one, and its entries are then the canonical ones in order. |
| RowOrder.CoverIgnoresOrderExactly | backend/app/services/payload_revalidation_poc.py:318-360 | Whether some proof still holds for a host is the same in every order of the domains if and only if the covering proofs all hold or have all lapsed. |
| RowOrder.MatchedDomainIgnoresOrderExactly | backend/app/services/payload_revalidation_poc.py:318-360 | Which domain is reported as matched is the same in every order if and only if only one entry covers the host. |
| RowOrder.AcceptanceIgnoresDomainOrder | backend/app/services/payload_revalidation_poc.py:318-360 | Over a canonical map, acceptance is the same in every order of the domains if and only if some other stage fails or the covering proofs agree; without subdomains it always is. |
| Provenance.KeyHasRow | backend/app/services/trust_projection.py:73-121 | Every projected key is the projection of a certificate row of its ref. |
| Provenance.IssuerHasRow | backend/app/services/trust_projection.py:124-143 | Every projected issuer is the projection of an issuer row of its id. |
| TrustDatabase.ProjectedWritesBump | backend/app/services/management_plane.py:101-102 | Every statement that changes a projected table is one whose mutation has to bump the token; `GovernanceBuilders` proves that each builder sets the flag. |
| GovernanceBuilders.BuildersBumpProjectedChanges | backend/app/services/management_plane.py:441-1264 | Whichever of the thirteen builders made it, a mutation that changes a projected table carries the bump flag. |
| GovernanceBuilders.BuildersAreWellBuilt | backend/app/services/management_plane.py:441-1264 | Every builder sets the flag for exactly the statements on trust rows. |
| GovernanceBuilders.BuildersUseTheVocabulary | backend/app/services/management_plane.py:441-1264 | Every builder's action and target type are in the vocabulary the event ids are read with. |
| GovernanceBuilders.BuiltHistoriesBumpEveryChange | backend/app/services/management_plane.py:68-170 | Over every history of built calls, an entry that changes a projected table changes the token with it, and the trust state is what committing just the applied writes gives. |
| GovernanceBuilders.BuiltCallsEmitOneEvent | backend/app/services/management_plane.py:415-438 | Built calls whose keys cannot collide add one outbox row each. |
| GovernanceBuilders.CertificateStatusRequest | backend/app/services/management_plane.py:1060-1098 | What a certificate status request names is what its statement writes, revocation reason included. |
| GovernanceBuilders.IssuerStatusRequest | backend/app/services/management_plane.py:700-747 | An issuer status request gives the issuer's row the status it names and demands that the row is there. |
| GovernanceBuilders.DomainProofRequest | backend/app/services/management_plane.py:606-697 | A domain proof request leaves a row with the domain, status and expiry it names, under its issuer. |
| GovernanceBuilders.CertificateRequest | backend/app/services/management_plane.py:1007-1057 | A certificate request appends one active, unrevoked row of its issuer with the algorithm, material and window it names. |
| GovernanceBuilders.IssuerRequest | backend/app/services/management_plane.py:549-603 | An enrolment request leaves the issuer's row pending under the name it gives. |
| GovernanceBuilders.TargetIsTheRow | backend/app/services/management_plane.py:441-1138 | A mutation is filed, in its target and scope, under the row its statement writes. |
| GovernanceBuilders.RowsAreDemandedExactly | backend/app/services/management_plane.py:700-1138 | Exactly four of the requests fail when the row they change is not there. |
| GovernanceBuilders.StatusRequestsApplyExactly | backend/app/services/management_plane.py:68-170 | A status request that gets past its key applies, for an issuer, if and only if the status is known and the row is there; for a certificate, if and only if the status is known and no revocation would be undone, whether or not the row is there. |
| GovernanceBuilders.MissingRowRequests | backend/app/services/management_plane.py:68-170 | A status request for an issuer that is not there fails and leaves nothing; the failing input is one for a certificate that is not there, which applies and leaves an audit row for a change of no row. |
| TrustDatabase.CommitKeepsRevoked | backend/migrations/versions/20260901_0009_trust_projection_governance.py:26-49 | No committed write un-revokes a certificate or loses its row. |
| TrustDatabase.CertificateStatusEffect | backend/app/services/management_plane.py:1060-1098 | A status statement is refused exactly for an unknown status or a revoked certificate that would change; an accepted one gives every row of the certificate the status, on revocation the instant and the reason too, and leaves all other rows alone. |
| TrustDatabase.IssuerStatusEffect | backend/app/services/management_plane.py:700-747 | An accepted issuer status statement writes the status into exactly the rows of that root, authority and issuer. |
| TrustDatabase.DomainProofEffect | backend/app/services/management_plane.py:606-697 | An accepted proof statement leaves a row that says what it says, in place of the live one for the same root, authority, issuer and domain if there is one, and no other row changes; it is refused exactly for an unknown status or an issuer that is not there. |
| TrustDatabase.CertificateEnrollmentEffect | backend/app/services/management_plane.py:1007-1057 | A certificate is enrolled exactly when its id is new and its issuer is there; it joins as an active row and nothing else changes. |
| TrustDatabase.IssuerEnrollmentEffect | backend/app/services/management_plane.py:549-603 | An issuer enrolled for the first time is pending, without subdomains or expiry; enrolled again it is renamed and pending, and nothing else changes. |
| RevocationRequests.AppliedRevocationLasts | backend/app/services/management_plane.py:1060-1098 | Over every history of calls: once a request to revoke a certificate that is there has applied, the certificate is revoked in the ledger it leaves and in every later one. |
| RevocationRequests.RequestedRevocationIsEnforced | backend/app/services/trust_projection.py:235-288 | Over every run, from the request to the refusal: after the write of a revocation at T, any answer with a clock reading beyond T plus the budget leaves a store that refuses every presentation under that key at a status stage, unless a local writer republished the key since the last reload. |
| TrustDatabase.CommitKeepsSchema | backend/migrations/versions/20260525_0002_qr_trust_reference_schema.py:88-213 | Every write keeps the primary keys of certificates and issuers, the unique index on live domain proofs and both foreign keys. |
| TrustDatabase.SameRowsSameFacts | backend/app/services/trust_projection.py:146-177 | The rows fetched in another order keep distinct keys and the same members. |
| TrustDatabase.EndpointAgreesWithTrigger | backend/app/api/endpoints/management.py:1033-1120 | A status request the endpoint lets through never trips the terminal-status trigger, and one it refuses as terminal is exactly one the trigger would refuse. |
| ProjectionProtocol.AppendKeepsTokens | backend/app/services/trust_state.py:18-37 | A bump, a deletion or a recreation under a fresh epoch never makes one token name two states. |
| TrustTransitions.TerminalStatusIsForever | backend/app/services/trust_transitions.py:12-25 | No sequence of requests leaves a status whose row of the table is empty, revocation first of all. |
| TrustTransitions.StatusesStayInTable | backend/app/services/trust_transitions.py:49-66 | Requests never lead outside a closed table's vocabulary. |
| TrustTransitions.StatusesStayInBothTables | backend/app/services/trust_transitions.py:12-66 | Both tables are closed: certificates and trust keys never leave their statuses. |
| TrustTransitions.OnlyRevocationIsTerminal | backend/app/services/trust_transitions.py:12-66 | In both tables revocation is the only status without a way out, and no requests undo it. |
| TrustTransitions.ExpiredNeverReactivates | backend/app/services/trust_transitions.py:12-25 | However requests continue, an expired certificate or trust key ends expired or revoked. |
| TrustTransitions.RevocationAlwaysAvailable | backend/app/services/trust_transitions.py:12-25 | From every other status of a certificate or trust key revocation is an allowed request. |
| TrustTransitions.CertificateRule | backend/app/services/trust_transitions.py:12-66 | The table is one rule: between the five statuses every change is allowed, except that a revoked certificate changes no more, an expired one is only revoked, and only a suspended one becomes active. |
| TrustTransitions.TrustKeyRule | backend/app/services/trust_transitions.py:12-66 | The trust keys' table is the same rule over its four statuses. |
| TrustStore.ScannerTrustStore.PublishIssuer | backend/app/services/scanner_trust_store.py:190-196 | The issuer is stored with its canonical domain map, or refused with the store unchanged when the map is invalid. |
| TrustStore.ScannerTrustStore.PublishKey | backend/app/services/scanner_trust_store.py:198-213 | The key is stored, or refused with the store unchanged for one of the source's reasons. |
| TrustStore.ScannerTrustStore.RetireIssuerKeys | backend/app/services/scanner_trust_store.py:233-239 | The in-place loop retires exactly the issuer's other active keys, overwriting their end of validity. |
| TrustStore.ScannerTrustStore.ReplaceProjection | backend/app/services/scanner_trust_store.py:241-269 | The reload drops every projected entry, writes the new ones over what is left, including local entries of the same ref, replaces the defects and leaves the governance map alone. |
| TrustStore.ScannerTrustStore.AttachGovernance | backend/app/services/scanner_trust_store.py:215-219 | The issuer's governance is replaced and nothing else changes. |
| TrustStore.ScannerTrustStore.Forget | backend/app/services/scanner_trust_store.py:271-272 | The key is dropped and nothing else changes. |
| TrustStore.ScannerTrustStore.ClearAll | backend/app/services/scanner_trust_store.py:280-283 | Issuers, keys and governance are dropped; the reported defects stay. |
| TrustStore.ReplaceInstallsSlice | backend/app/services/scanner_trust_store.py:241-269 | After a reload the projected slice is exactly what was loaded, whatever local entries it collided with. |
| TrustStore.LocalOpKeepsSliceExactly | backend/app/services/scanner_trust_store.py:190-283 | A locally tagged write leaves the projected slice alone if and only if it does not replace, retire, remove or clear a projected entry. |
| TrustStore.LocalOpDisturbsOnly | backend/app/services/scanner_trust_store.py:190-283 | Entry by entry: any local write leaves every projected issuer and key alone but those it names. |
| TrustStore.LocalIssuerDisplacesProjected | backend/app/services/scanner_trust_store.py:190-196 | The failing input: a local issuer published over a projected one of its id leaves nothing of it projected. |
| TrustStore.RetireKeysLeavesOnlyExempt | backend/app/services/scanner_trust_store.py:233-239 | After retirement only the exempted key can still be active for the issuer; every other issuer's keys are untouched. |
| StoreHistories.PublishedExactly | backend/app/services/scanner_trust_store.py:198-213 | A key is stored as it is unless it would bring a revoked key back or verify without material, in that order of complaint, and nothing else changes. |
| StoreHistories.RetiredExactly | backend/app/services/scanner_trust_store.py:233-239 | Retirement ends exactly the issuer's other active keys at the given instant; every other key, the exempt one included, stays as it is. |
| StoreHistories.RemovedExactly | backend/app/services/scanner_trust_store.py:271-283 | Removing a key takes that key alone; clearing the store leaves nothing but the reported defects. |
| StoreHistories.ReloadKeepsLocalEntries | backend/app/services/scanner_trust_store.py:241-269 | Local issuers and keys that a reload does not name outlive it unchanged, projected ones it does not name are dropped, and governance is left alone. |
| StoreHistories.RevocationIsTerminalLocally | backend/app/services/scanner_trust_store.py:198-213 | Through every history of local writes that neither removes it nor clears the store, a revoked key stays revoked. |
| StoreHistories.LastAttachedGoverns | backend/app/services/scanner_trust_store.py:215-222 | Over every history, the governance of an issuer is the one attached last, since the store was last cleared. |
| TrustStore.RetirementEffect | backend/app/services/scanner_trust_store.py:233-239 | What each presentation under a stored key experiences: retired keys accept exactly their former artifacts issued by the retirement, all other keys behave as before. |
| TrustStore.LocalOpKeepsStoreWellFormed | backend/app/services/scanner_trust_store.py:190-283 | Every local write keeps material and canonical maps in place. |
| NarrowedVerifier.AcceptedExactly | backend/app/services/narrowed_verifier_poc.py:71-162 | Acceptance is a condition on trust state, signature, key window and destination that no clock changes, together with one half-open interval of clock times. |
| NarrowedVerifier.AcceptanceIsOneInterval | backend/app/services/narrowed_verifier_poc.py:71-162 | For fixed trust state and policy the accepting clock times form one half-open interval. |
| NarrowedVerifier.BlockedIsRefusedFirst | backend/app/services/narrowed_verifier_poc.py:84-94 | A blocked issuer or key is refused at a status stage whatever else holds. |
| NarrowedVerifier.AcceptedCodeIsSignedAndCurrent | backend/app/services/narrowed_verifier_poc.py:108-135 | A presented code with parsed claims is accepted only when the signature check holds on its canonical claims, the certificate's algorithm is the supported one, claims and hint agree with the certificate, and the times the claims say admit the clock within the skew. |
| NarrowedVerifier.AcceptedExactlyWhen | backend/app/services/narrowed_verifier_poc.py:71-162 | Over a canonical domain map a presentation is accepted if and only if issuer and key are in good status with material, the signature check, algorithm, certificate reference and hint agree, the issuer's, key's and artifact's windows admit, the domain that covers the host still holds, and no policy refuses. |
| NarrowedVerifier.StatusRefusalsExactly | backend/app/services/scanner_trust_store.py:75-105 | Each refusal by status is given exactly for its own state of issuer and key, before every other stage. |
| NarrowedVerifier.SignatureRefusalExactly | backend/app/services/signed_schema_poc.py:183-243 | With statuses and material in order, the signature stage refuses if and only if the check fails on the canonical claims, the algorithm is not the supported one, the certificate references differ or the hint contradicts. |
| NarrowedVerifier.TimeRefusalsExactly | backend/app/services/scanner_trust_store.py:108-146 | Which of the five time causes a signed presentation is refused for, each exactly when its window is the first missed. |
| NarrowedVerifier.DestinationRefusalExactly | backend/app/services/payload_revalidation_poc.py:278-369 | The destination stage refuses if and only if all before it pass and no domain covers the host, its proof has lapsed or the policy refuses. |
| NarrowedVerifier.DestinationReportExactly | backend/app/services/payload_revalidation_poc.py:278-369 | The domain reported for a match is the policy's, or else the covering one; the cause of a refusal is the invalid map's, the lapsed proof's or the policy's, and none for a host that is unreadable or not covered. |
| NarrowedVerifier.AcceptedDomainExactly | backend/app/services/narrowed_verifier_poc.py:136-162 | An acceptance reports the policy's matched domain, or else the one that decided. |
| NarrowedVerifier.CoversExactly | backend/app/services/payload_revalidation_poc.py:94-96 | A domain covers a host exactly when it is the host or, where subdomains count, its labels end the host's. |
| NarrowedVerifier.RetiredKeyAcceptsFormerArtifacts | backend/app/services/scanner_trust_store.py:108-169 | A key retired at t before its end of validity accepts exactly what it accepted before, issued by t. |
| NarrowedVerifier.RetirementWidensExactly | backend/app/services/scanner_trust_store.py:233-239 | Retirement widens a key's window exactly when the key had already lapsed at an earlier instant. |
| NarrowedVerifier.MissingMaterialRefusedExactly | backend/app/services/narrowed_verifier_poc.py:96-106 | The missing-material refusal fires exactly for an active issuer and a key without material in an unknown state, when verifying keys have material. |
| NarrowedVerifier.MatchPayload | backend/app/services/payload_revalidation_poc.py:278-369 | The loop over verified domains answers as the first domain, in map order, that covers the host. |
| NarrowedVerifier.FirstCoverIsEarliest | backend/app/services/payload_revalidation_poc.py:318-360 | The deciding domain covers the host and no earlier one does. |
| DestinationPolicy.MatchRules | backend/app/services/payload_revalidation_poc.py:239-275 | The loop's early returns and two running variables compute the settled verdict of the rules' judgements. |
| DestinationPolicy.PolicyAnswersExactly | backend/app/services/payload_revalidation_poc.py:236-275 | The policy approves exactly when some rule approves and no rule before it approves or is unreadable; it is invalid exactly when an unreadable rule comes first; it is silent exactly when every rule is; otherwise it reports the first objection. |
| DestinationPolicy.ReadableRulesApproveTogether | backend/app/services/payload_revalidation_poc.py:239-275 | While every rule can be read, approval does not depend on the order or repetition of rules. |
| DestinationPolicy.JudgedExactly | backend/app/services/payload_revalidation_poc.py:143-201 | One rule in terms of its fields: it approves if and only if it names the host (the expected final host, or a listed one, or one above it), lists the scheme (or the scheme is https where none is listed), lists the port if there is one, covers the path and lists every query key; it is unreadable, or silent, or objects, each in its exact case. |
| DestinationPolicy.RulesDecideExactly | backend/app/services/payload_revalidation_poc.py:236-275 | The rules in order, in terms of their fields: approval exactly when some rule contains the destination and none before it is unreadable, invalid exactly when an unreadable one comes first, silent exactly when none speaks about the host. |
| DestinationPolicy.PolicyDecidesExactly | backend/app/services/payload_revalidation_poc.py:205-275 | The decision handed to the matcher: approval exactly for a resolver or by the rules, with the host as its domain in the second case; each refusal and each silence has its exact case. |
| DestinationPolicy.DecidedWithoutRules | backend/app/services/payload_revalidation_poc.py:205-226 | An absent document decides nothing, an invalid one refuses as invalid policy, and a destination without canonical form is a normalization failure. |
| DestinationPolicy.CoveredExactly | backend/app/services/payload_revalidation_poc.py:170-181 | A prefix list covers a canonical path exactly when some listed prefix's segments begin the path's and every listed one before it can be read; it is unreadable exactly when an unreadable one comes before any that covers. |
| DestinationPolicy.ApprovalContains | backend/app/services/payload_revalidation_poc.py:158-199 | An approving rule names the host, lists the scheme and the port, covers the path segment by segment and lists the query keys, each in the rule's own fields. |
| DestinationPolicy.ContainedIsApproved | backend/app/services/payload_revalidation_poc.py:158-199 | Conversely a rule approves whatever its fields contain. |
| DestinationPolicy.ApprovalIsContained | backend/app/services/payload_revalidation_poc.py:239-275 | An approving policy has a rule for the host that contains the destination. |
| DestinationPolicy.AcceptedDestinationIsContained | backend/app/services/payload_revalidation_poc.py:202-275 | An accepted artifact leads to a host one of the issuer's verified domains covers, and under that same host, which is the canonical destination's, to an approved resolver, to nothing any rule speaks about, or to a destination contained in a rule; the domain reported covers the host too, and an unreadable document accepts nothing. |
| DestinationPolicy.PolicyHostIsMatchedHost | backend/app/services/payload_revalidation_poc.py:202-236 | The host the rules are matched against is the one the verified domain has to cover. |
| PercentEncoding.NormalizePercentEncoding | backend/app/services/destination_canonicalization.py:47-71 | The index-and-output loop spells the component's meaning canonically or fails. |
| PercentEncoding.NormalIdempotent | backend/app/services/destination_canonicalization.py:47-71 | Normalising twice is normalising once. |
| PercentEncoding.NormalDecidesMeaning | backend/app/services/destination_canonicalization.py:47-71 | Two components normalise alike exactly when they mean the same up to unreserved escapes and hex case (sections 2.3 and 6.2.2 of RFC 3986). |
| PercentEncoding.NormalPreservesDecodedText | backend/app/services/destination_canonicalization.py:47-71 | The fully decoded text is unchanged. |
| PercentEncoding.NormalFailsExactly | backend/app/services/destination_canonicalization.py:47-71 | Normalisation fails exactly when some '%' does not open an escape of a non-null octet. |
| PercentEncoding.NormalNotLonger | backend/app/services/destination_canonicalization.py:47-71 | Normalisation never lengthens a component. |
| EscapeForms.NormalEscapesAreNeeded | backend/app/services/destination_canonicalization.py:47-71 | Every escape left in a normal form has upper-case digits and stands for a character that is not a letter, a digit, '-', '.', '_' or '~'. |
| EscapeForms.NormalKeepsDelimiters | backend/app/services/destination_canonicalization.py:47-71 | The delimiters outside escapes are the same before and after: no escape becomes one and none becomes an escape. |
| PathResolution.RemoveDotSegments | backend/app/services/destination_canonicalization.py:74-84 | The segment stack's loop resolves the path's segments. |
| PathResolution.StripTrailingSlashes | backend/app/services/destination_canonicalization.py:87-90 | The loop strips trailing slashes down to "/". |
| PathResolution.StackImplementsRfc3986 | backend/app/services/destination_canonicalization.py:74-90 | For every path starting with "/" the segment stack and the input-buffer algorithm of section 5.2.4 of RFC 3986 agree once trailing slashes are stripped. |
| PathResolution.CanonicalizePath | backend/app/services/destination_canonicalization.py:204-206 | The three-stage pipeline of a destination path. |
| PathResolution.CanonicalPathIsCanonical | backend/app/services/destination_canonicalization.py:204-206 | Its result is rooted, has no trailing slash, no dot segment even when the dots arrived escaped, and canonical escapes. |
| PathResolution.CanonicalPathIdempotent | backend/app/services/destination_canonicalization.py:204-206 | The pipeline is idempotent. |
| PathResolution.CanonicalPathsAreTheFixedPoints | backend/app/services/destination_canonicalization.py:204-206 | The canonical paths are exactly the pipeline's fixed points. |
| PathResolution.CanonicalPathNotLonger | backend/app/services/destination_canonicalization.py:204-206 | The pipeline never lengthens a rooted path. |
| PathResolution.CanonicalizeRulePrefix | backend/app/services/destination_canonicalization.py:213-219 | A rule prefix is trimmed, rooted and run through the same pipeline. |
| RulePrefixes.RulePrefixStableExactly | backend/app/services/destination_canonicalization.py:213-219 | Canonicalising a rule prefix again changes nothing if and only if the last non-empty segment that survives dot resolution does not end in white space. |
| RulePrefixes.DotFreePrefixStableExactly | backend/app/services/destination_canonicalization.py:213-219 | For a prefix without dot segments: if and only if the trimmed prefix, its trailing slashes removed, does not end in white space. |
| RulePrefixes.TightPrefixIsStable | backend/app/services/destination_canonicalization.py:213-219 | For every prefix: no white space directly before a '/' of the trimmed text is enough. |
| PathResolution.RulePrefixIsNotIdempotent | backend/app/services/destination_canonicalization.py:213-219 | A concrete prefix, "/a /", that a second canonicalisation changes. |
| PathResolution.PrefixMatchIsSegmentExact | backend/app/services/destination_canonicalization.py:222-225 | On canonical paths a prefix covers a path exactly when its segments begin the path's. |
| PathResolution.PrefixMatchIsPartialOrder | backend/app/services/destination_canonicalization.py:222-225 | Coverage of canonical paths is reflexive, antisymmetric and transitive. |
| PathResolution.ContinuedSegmentIsNotCovered | backend/app/services/destination_canonicalization.py:222-225 | A prefix never covers a path that merely continues its last segment. |
| VerifiedDomains.CanonicalDomainsAreHostnames | backend/app/services/destination_canonicalization.py:109-139 | The fixed points of domain canonicalisation are exactly the lower-case valid hostnames. |
| VerifiedDomains.CanonicalDomainIdempotent | backend/app/services/destination_canonicalization.py:93-139 | Canonicalising a domain twice is canonicalising it once. |
| DomainSpelling.CanonicalDomainExactly | backend/app/services/destination_canonicalization.py:93-139 | In characters: a raw domain canonicalises to a host if and only if the host is a lower-case host name of at most 253 characters with labels of 1 to 63 letters, digits and inner hyphens, and the raw text is it in any mix of cases, with or without a final dot, between white space. |
| VerifiedDomains.CanonicalizeDomainMap | backend/app/services/destination_canonicalization.py:142-163 | The map-building loop keeps order, may skip blanks and refuses a second spelling of a key. |
| VerifiedDomains.CanonicalMapIsCanonical | backend/app/services/destination_canonicalization.py:142-163 | An accepted map has canonical keys, no two of them equal. |
| VerifiedDomains.CanonicalMapIdempotent | backend/app/services/destination_canonicalization.py:142-163 | Canonicalising a map twice, with or without blank filtering, is canonicalising it once. |
| VerifiedDomains.SubdomainIsLabelExact | backend/app/services/payload_revalidation_poc.py:94-95 | A host is under a domain exactly when the domain's labels end the host's. |
| VerifiedDomains.SubdomainIsPartialOrder | backend/app/services/payload_revalidation_poc.py:94-95 | Being the same host or a subdomain is a partial order. |
| Governance.ManagementPlaneService.RecordGovernanceMutation | backend/app/services/management_plane.py:67-167 | Statement by statement in one transaction: without a fault the committed ledger and the answer are those of the call; a fault under a statement leaves the ledger as it was or comes too late to matter; a lost reply leaves the committed effect. |
| Governance.ManagementPlaneService.BeginIdempotentMutation | backend/app/services/management_plane.py:169-199 | The conditional insert and the select behind it claim a free or expired key, and otherwise let the stored row decide. |
| Governance.CallIsOneCommit | backend/app/services/management_plane.py:75-102 | A call that passes its key does to trust tables and token exactly the protocol's commit; a call that does not apply changes nothing at all; changed tables always carry a changed token. |
| Governance.ServeAll | backend/app/services/management_plane.py:68-170 | The service over any list of calls, each with the fault that befalls it, leaves the ledger some serial history of just these calls leaves, and every answer that arrives is that history's. |
| Governance.NoCommittedRowIsProcessing | backend/app/services/management_plane.py:201-211 | In every history of calls aborted at arbitrary statements every committed idempotency row is completed with a response, so no serial caller is told to wait. |
| Governance.AppliesAtMostOncePerPeriod | backend/app/services/management_plane.py:312-326 | Two applications under one key lie at least the 24-hour validity period apart, whatever the clocks in between. |
| Governance.ReplayReturnsTheRecord | backend/app/services/management_plane.py:182-199 | Within the validity period the same request returns the recorded result, a different one is refused, and neither changes the ledger. |
| GovernanceOutcomes.HeldKeyDecides | backend/app/services/management_plane.py:172-205 | A key whose row has not expired decides alone: conflict exactly for another request's hash, replay exactly for a completed row with a response, in progress otherwise, and nothing is written. |
| GovernanceOutcomes.AppliedExactly | backend/app/services/management_plane.py:68-170 | A call applies if and only if no held key stops it and its statement is accepted and changes a row where one is demanded. |
| GovernanceOutcomes.AppliedLeaves | backend/app/services/management_plane.py:68-170 | An applied call leaves its audit row, its event unless one of that name is queued, its key completed with the result for a day, and a result that counts those rows. |
| GovernanceOutcomes.OutboxHoldsTheFirst | backend/app/services/management_plane.py:98-150 | Over every history, queued events keep their content, and a new one carries the mutation of the first applied call of its name. |
| Governance.HistoryIsItsAppliedCalls | backend/app/services/management_plane.py:75-167 | A history leaves one audit row per applied call, in order, and the trust state that committing exactly those writes gives. |
| Governance.OutboxIsAppliedEvents | backend/app/services/management_plane.py:295-310 | The outbox holds the event ids it held and those of the applied calls, and no others. |
| EventKeys.KeysCollideExactly | backend/app/services/management_plane.py:416-434 | For a vocabulary of actions and target types without ':': two deduplication keys can name one event if and only if they are equal or one continues the other with an action and its target type, ending there or at a ':'. |
| EventKeys.BuilderKindsAreSeparable | backend/app/services/management_plane.py:449-1230 | The thirteen kinds the builders write are such a vocabulary. |
| Governance.DistinctRequestIdsMayShareAnEvent | backend/app/services/management_plane.py:416-434 | Distinct request ids alone do not give distinct events: a family of pairs with one action and target type shares an event. |
| Governance.EachAppliedCallEmitsOneEvent | backend/app/services/management_plane.py:295-310 | From any outbox whose ids cannot collide with the calls', when no two applied calls have keys that can collide, every applied call adds and reports exactly one outbox row. |
| RateLimiter.InMemoryRequestRateLimiter.Check | backend/app/services/request_rate_limiter.py:35-61 | The pop-and-append loop leaves the key's bucket and the answer of one check, and touches no other key. |
| RateLimiter.InMemoryRequestRateLimiter.Remaining | backend/app/services/request_rate_limiter.py:63-75 | The read-only count of what is left. |
| RateLimiter.SlidingWindowIsSafe | backend/app/services/request_rate_limiter.py:35-61 | Over every run with a forward clock, a fixed limit and window, no interval of window length, half-open at either end, holds more admissions than the limit. |
| RateLimiter.DeniedExactlyWhenFull | backend/app/services/request_rate_limiter.py:49-58 | After every such run the next request is denied exactly when `limit` admissions lie in its trailing window, and its `retry_after` is the least positive whole number of seconds that suffices. |
| RateLimiter.CheckAnswersExactly | backend/app/services/request_rate_limiter.py:35-61 | The answer to one check: a denial for a whole window without a positive limit, otherwise admission exactly while fewer stamps than the limit are younger than the window, and a wait until the oldest of them is that old, rounded up to a second at least. |
| RateLimiter.RetryAfterIsLeastExactly | backend/app/services/request_rate_limiter.py:53-58 | For any bucket, as after a change of limit, the named wait is the least one if and only if the oldest live stamp and the one whose expiry makes room have the same age in whole seconds. |
| RateLimiter.GrowingLimitsNameLeastWait | backend/app/services/request_rate_limiter.py:49-58 | Over every run whose limits and windows may change: while no earlier check of the key used a larger limit, every denial names the least sufficient wait. |
| RateLimiter.LoweredLimitUnderstatesWait | backend/app/services/request_rate_limiter.py:53-58 | The failing input: after two checks under limit 2, a check under limit 1 names one second, after which it is still denied. |
| RateLimiter.RemainingPredictsCheck | backend/app/services/request_rate_limiter.py:63-75 | `remaining` is positive exactly when a check at that instant admits, and an admission lowers it by one for a positive window. |
| SharedRateLimiter.RequestRateLimiter.TryRedis | backend/app/services/request_rate_limiter.py:125-153 | INCR, EXPIRE on the first count, TTL on denial, with a failure possible at each. |
| SharedRateLimiter.RequestRateLimiter.Check | backend/app/services/request_rate_limiter.py:96-123 | Redis when it answers, the in-memory window on no client and on any exception. |
| SharedRateLimiter.WindowHoldsLimit | backend/app/services/request_rate_limiter.py:125-153 | A window's counter never expires inside the window, has counted every admission it gave, and gave at most the limit, over every process and every fault. |
| SharedRateLimiter.RedisAdmitsAtMostTwiceTheLimit | backend/app/services/request_rate_limiter.py:125-153 | In any half-open interval of window length the shared counter admits at most twice the limit. |
| SharedRateLimiter.ProcessAdmitsAtMostThriceTheLimit | backend/app/services/request_rate_limiter.py:96-153 | With Redis failing at arbitrary points mid-call, one process admits at most three times the limit per key in any such interval on a common clock. |
| SharedRateLimiter.SharedRemainingPredictsCheck | backend/app/services/request_rate_limiter.py:162-182 | With a healthy Redis `remaining` is positive exactly when a check admits, and an admission spends one. |
| SharedRateLimiter.RedisAnswersExactly | backend/app/services/request_rate_limiter.py:127-160 | Redis gives no answer exactly on a window of zero or a fault under a command that is reached; otherwise it admits exactly up to the limit, and a denial names the counter's time to live, or the window where that is not positive. |
| SharedWindows.CountersCountArrivals | backend/app/services/request_rate_limiter.py:127-160 | Over every run in which Redis answers the key's requests, a window's counter holds exactly the requests that arrived in it and expires a second after a whole window from the first. |
| SharedWindows.FirstRequestsAreAdmitted | backend/app/services/request_rate_limiter.py:127-160 | After every such run the next request is admitted if and only if fewer than the limit have arrived in its window; other keys and faults under them play no part. |
| RedisSteps.PromptRunCovers | backend/app/services/request_rate_limiter.py:137-148 | Command by command, interleaved in any way: while each INCR arrives within a second of its clock reading, a window's counter outlives the window by a second and admits at most the limit; EXPIRE may be as late as it likes. |
| RedisSteps.PromptCallsAdmitAtMostTwiceTheLimit | backend/app/services/request_rate_limiter.py:137-148 | Under that delay any interval of window length holds at most twice the limit of admitted clock readings. |
| RedisSteps.LateIncrementOverruns | backend/app/services/request_rate_limiter.py:137-148 | The second is tight: for any longer delay a one-second window admits two calls under limit 1. |
| VerdictRate.InMemoryVerdictCache.RecordCachedScan | backend/app/services/verdict_cache.py:131-142 | Prune when due, then count up the minute's live entry or start it over. |
| VerdictRate.InMemoryVerdictCache.CachedScanCount | backend/app/services/verdict_cache.py:144-152 | The loop sums the live counts of the minutes overlapping the window; an inverted window counts nothing. |
| VerdictRate.PruningIsUnobservable | backend/app/services/verdict_cache.py:131-152 | Over every run with a forward clock no later read can tell whether the cache ever pruned. |
| VerdictRate.CacheCountsTheLog | backend/app/services/verdict_cache.py:62-72 | With retention of a minute and a minute more than the window reaches back, the count is exactly the logged scans in the minutes overlapping the window. |
| VerdictRate.CacheCountsWholeMinutes | backend/app/services/verdict_cache.py:62-72 | In seconds: the scans counted are those in the whole minutes that meet the window. |
| VerdictRate.EntryCountsItsPeriod | backend/app/services/verdict_cache.py:131-142 | Whatever the retention, a minute's entry counts the scans since the one that began its period and expires with that one; later scans do not renew it. |
| ScanSpikes.DetectEnvelopeSpikes | backend/app/services/scan_accounting.py:160-207 | The envelopes whose merged counts pass floor and ratio, stably sorted by recent count and truncated; the cache reads its own clock for each count of each candidate. |
| ScanSpikes.ReportedExactly | backend/app/services/scan_accounting.py:160-205 | A candidate is reported, with its merged counts, if and only if the recent one reaches the floor and either the usual traffic is zero or recent * remaining >= ratio * prior * window, where prior is what the baseline holds beyond the recent count. |
| ScanSpikes.SteadyTrafficIsNotListed | backend/app/services/scan_accounting.py:186-191 | Traffic at its usual rate is never listed for a ratio above one. |
| ScanSpikes.SortSorts | backend/app/services/scan_accounting.py:206-206 | The sort lists the same spikes, largest first. |
| ScanSpikes.ListedAreLargest | backend/app/services/scan_accounting.py:206-207 | A limit lists that many spikes, a negative one leaves that many out, and none left out is larger than one listed. |
| ScanSpikes.TrailingScansKeepSpikes | backend/app/services/scan_accounting.py:181-191 | Scans inside the trailing window never clear a spike. |
| ScanSpikes.SpikeSurvivesScan | backend/app/services/scan_accounting.py:160-206 | End to end through the cache: with retention for both windows, the delay of each read and a minute, one more cached scan in the trailing window raises both counts by one and leaves a spiking envelope spiking. |
| ScanSpikes.ListedSpikeStaysListed | backend/app/services/scan_accounting.py:160-207 | Sort and truncation included: one more cached scan of a listed envelope keeps it on the list, whatever the other candidates are. |
| Json.LoadsPrint | backend/app/services/signed_schema_poc.py:149-154 | Printed JSON, escaped as in section 7 of RFC 8259, parses back to itself. |
| Json.PrintSelfDelimiting | backend/app/services/signed_schema_poc.py:149-154 | No printed object is a proper prefix of another, whatever follows. |
| Json.LoadsFollowed | backend/app/services/signed_schema_poc.py:149-154 | After a printed value only blanks, tabs and line ends may follow; any other text is refused. |
| SignedSchema.CanonicalClaimsInjective | backend/app/services/signed_schema_poc.py:149-154 | The claims encoding is injective. |
| SignedSchema.CanonicalClaimsUniquelyDecodable | backend/app/services/signed_schema_poc.py:149-165 | Canonical claims followed by any text determine both the claims and that text. |
| EnvelopeParsing.ClaimsTextIsSpelled | backend/app/services/signed_schema_poc.py:149-154 | The signed text, spelled out: one compact object of visible ASCII with the five members in their fixed order. |
| SignedSchema.EnvelopeIdIdentifies | backend/app/services/signed_schema_poc.py:162-165 | With a collision-free digest an envelope id names exactly one pair of claims and signature. |
| SignedSchema.ParsedClaimsAreWellFormed | backend/app/services/signed_schema_poc.py:103-146 | The parser's results are trimmed, non-blank, have readable timestamps and an expiry unless reusable. |
| SignedSchema.WellFormedClaimsReparse | backend/app/services/signed_schema_poc.py:103-154 | Re-reading well-formed claims returns them. |
| EnvelopeParsing.ParsedExactly | backend/app/services/signed_schema_poc.py:93-146 | The parser returns given claims if and only if the five fields and no others, the last of each name, say them: version 2, trimmed texts that are not blank, readable timestamps and an expiry after the issue unless it is null. |
| EnvelopeParsing.VersionIsDiagnosedFirst | backend/app/services/signed_schema_poc.py:113-127 | A wrong version is diagnosed as such whatever other fields are there; a stray field is, once the version is right. |
| EnvelopeParsing.DecodedExactly | backend/app/services/qr_artifact_poc.py:909-949 | The decoder returns a given envelope if and only if the payload is not blank, at most 8192 characters long and JSON for an object whose fields, and no others, say it. |
| SignedSchema.EnvelopeRoundTripExactly | backend/app/services/qr_artifact_poc.py:890-949 | For claims from the parser, decoding an encoded envelope returns it if and only if its signature and its algorithm hint, if any, are trimmed and non-empty. |
| SignedSchema.DecodedIsWellFormed | backend/app/services/qr_artifact_poc.py:909-949 | Whatever the decoder accepts carries well-formed claims and a trimmed signature. |
| SignedSchema.DecodedEnvelopeSurvives | backend/app/services/qr_artifact_poc.py:890-949 | A decoded envelope survives another trip if and only if its hint was not blank text. |
| ResidualDecision.Decide | backend/app/services/trust_residuals_decision.py:266-488 | The early returns, the annotation lists and the family loops compute the decision, or the error for an unknown profile or family. |
| ResidualDecision.PositiveExactly | backend/app/services/trust_residuals_decision.py:266-488 | For arbitrary tiers, profiles and mandatory sets: exactly which vectors reach each of the two states that assert issuer verification; every non-runtime family must be positive-eligible. |
| DecisionReasons.AdverseReasons | backend/app/services/trust_residuals_decision.py:299-324 | Which adverse residual is named as the reason: an invalid claim, a revoked issuer, then the first of destination, redirect, runtime and freshness that failed or blocked. |
| DecisionReasons.CaptureReasons | backend/app/services/trust_residuals_decision.py:326-371 | After those: staleness under the strict profile, the artifact, and a contradiction, a missing or an unaccepted issuer, each in its exact case. |
| DecisionReasons.RuntimeReasons | backend/app/services/trust_residuals_decision.py:373-411 | A runtime verdict that is stale, not checked, or under the strict profile unavailable is named before any evidence is asked for. |
| DecisionReasons.EvidenceReasons | backend/app/services/trust_residuals_decision.py:447-488 | The reason names the first required family, in the vector's order, that lacks its evidence; without one, an ineligible vector is reported as not modelled. |
| DecisionReasons.CautionReasons | backend/app/services/trust_residuals_decision.py:413-445 | A positive decision carries one annotation and one reason for each warning, in one order, and the risk verdict last. |
| DecisionReasons.AttentionExactly | backend/app/services/trust_residuals_decision.py:491-505 | A decision demands the most attention exactly when it blocks, none exactly when it asserts the issuer with nothing warned, little exactly when a sound vector has no issuer, and a warning otherwise. |
| ResidualDecision.MoreMandatoryNeverLowersAttention | backend/app/services/trust_residuals_decision.py:447-477 | Enlarging the mandatory set never lowers the attention demanded. |
| ResidualDecision.StrictDemandsMost | backend/app/services/trust_residuals_decision.py:266-510 | The strict online profile never demands less attention than the bounded and production ones. |
| ResidualDecision.ArtifactFailureCanLowerAttention | backend/app/services/trust_residuals_decision.py:338-364 | The decision is not monotone in the artifact tier: a concrete vector on which a failing artifact lowers attention. |
| ResidualDecision.ArtifactFailureLowersAttentionExactly | backend/app/services/trust_residuals_decision.py:338-477 | A failure in place of a passing or warning artifact lowers attention if and only if the profile is strict, the artifact is not required, no adverse rule applies, and a contradiction or missing evidence would have blocked. |
| FormalTable.FormalTableDecision | scripts/trust_residuals_formal_table.py:114-252 | The independent encoding over its own tables, with its own requiredness scan before the risky downgrade, marks collected in a set, and errors for unmodelled input. |
| DecisionAgreement.TablesAgree | scripts/trust_residuals_formal_table.py:73-90 | The two encodings list the same eligible and the same insufficiency tiers. |
| DecisionAgreement.RequirementsAgree | scripts/trust_residuals_formal_table.py:195-208 | The two requiredness scans find a failing family for the same vectors and mandatory sets. |
| DecisionAgreement.DecisionMatchesFormalTable | scripts/trust_residuals_formal_table.py:114-252 | On every modelled vector decision and formal table agree on state and annotation set although they keep separate tables and order two rules oppositely. |
| DecisionAgreement.EncodingsFailOrAgree | scripts/trust_residuals_formal_table.py:114-252 | On every input the two fail or agree together: on unknown profiles, and over modelled tiers on unknown families; on an unmodelled tier the table fails and the decision core never asserts issuer verification. |
| PdfContainer.AnalyzeFindings | backend/app/services/qr_artifact_poc.py:549-588 | Each indicator is reported exactly for its finding, integrity follows the indicators, and the score is 35, 45, 15, 25 and 20 for the five findings that hold. |
| PdfContainer.RenderedItemAddsEvidence | backend/app/services/qr_artifact_poc.py:606-621 | A rendered page is redundant exactly when one kept item shows all its payloads and indicators. |
| PdfContainer.CollectPdfItems | backend/app/services/qr_artifact_poc.py:731-735 | The loop keeps the embedded items and each rendered page not covered by what it kept so far. |
| PdfContainer.EveryPageIsShown | backend/app/services/qr_artifact_poc.py:606-621 | Every rendered page is kept, or some kept item shows all its payloads and indicators. |
| PdfContainer.DroppingPagesKeepsVerdict | backend/app/services/qr_artifact_poc.py:101-127 | Payload set, indicator set, integrity and maximum risk equal those over every embedded and rendered item. |
| PdfContainer.VerdictMeans | backend/app/services/qr_artifact_poc.py:101-127 | The aggregates in terms of the items: every payload and indicator shown, a warning exactly if one item warns, and the largest score. |
| PdfContainer.KeptPagesAddEvidence | backend/app/services/qr_artifact_poc.py:606-621 | Every kept page shows a payload or an indicator that any one item kept before it lacks, or no payload at all. |

## Left out

- ProjectionProtocol.CacheCoherence: promises nothing between a local write to a projected entry and the next reload, because the source gives no coherence there; `TrustStore.LocalOpKeepsSliceExactly` states those writes exactly.
- GovernanceBuilders.BuildersBumpProjectedChanges: what statements on tables outside the projection report is given with the request, and the JSON text of the described state is a parameter.
- ProjectionProtocol.RevocationIsEnforced: one store and one manager per process; the connection's own timeouts are failures at any awaiting point.
- TrustProjection.LoadTrustSnapshot: whether PEM text loads as a key is an uninterpreted predicate.
- Governance.EachAppliedCallEmitsOneEvent: the event digest is taken as injective, so its truncation to 24 hex digits is not modelled.
- Governance.ManagementPlaneService.RecordGovernanceMutation: concurrent transactions are serial here, so the branch in which the conflicting row has vanished between insert and select does not arise; payload columns of audit and outbox rows are the mutation itself.
- SharedRateLimiter.ProcessAdmitsAtMostThriceTheLimit: every process and Redis read one common clock, a call happens at one instant of it, and a local and a wall clock coincide; `RedisSteps` gives each command its own instant for the shared counter alone.
- SharedRateLimiter.WindowHoldsLimit: clock readings before 1970 are outside, since truncation toward zero would merge two windows there.
- RateLimiter.DeniedExactlyWhenFull: clocks are exact reals, so floating-point rounding of a timestamp is not modelled.
- ScanSpikes.ListedSpikeStaysListed: the candidate query is given, one row for each fingerprint as its grouping makes them.
- VerdictRate.CacheCountsTheLog: only the process-local cache; the Redis hash behind the same interface is not modelled, nor are cached verdict payloads and hit summaries.
- VerifiedDomains.CanonicalDomainIdempotent: IDNA encoding is the identity on lower-case ASCII and refuses other hosts.
- DestinationPolicy.AcceptedDestinationIsContained: splitting URLs and query strings, and reading the policy document, are inputs, so that the extracted host and the canonical destination come from one URL is a hypothesis; reason texts become named objections.
- Json.LoadsPrint: strings are Unicode scalars, so an escaped lone surrogate is refused rather than read; numbers are kept as text.
- SignedSchema.EnvelopeRoundTripExactly: the timestamp reader is a parameter, and SHA-256 and the signature check are uninterpreted.
- NarrowedVerifier.AcceptedExactly: human-readable reason strings are dropped; stages and causes are kept.
- ResidualDecision.Decide: every residual family is present, and tier, profile and family strings outside the vocabulary are one constructor carrying the text; computing residuals from raw evidence is not modelled.
- PdfContainer.AnalyzeFindings: decoding and pixel heuristics are given as findings; rejection counts and e-mail containers are not modelled.
- HTTP endpoints, command line, clients and documentation scripts: input and output only.
- Evidence, report and contract checkers: flat validation of documents.
- The finite evaluation sweep over residual vectors: replaced by the agreement with the formal table.

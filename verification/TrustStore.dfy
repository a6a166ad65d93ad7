/**
 * The scanner's in-memory registry of issuers and signing keys: a durable
 * projection of the governance tables beside locally published entries.
 */
module TrustStore {
  import opened Wrappers
  import opened VerifiedDomains
  import opened TrustRules
  import opened NarrowedVerifier

  /** What the scanner shows about an issuer's governance; local publishers attach it to an issuer id. */
  datatype GovernanceTrustProjection = GovernanceTrustProjection(
    rootProgramId: string,
    delegatedAuthorityId: string,
    issuerId: string,
    issuerDisplayName: string,
    assuranceTier: string,
    destinationPolicyId: string,
    cacheEntryId: string,
    cacheStatePublishedAt: string,
    cacheGeneratedAt: string,
    cacheExpiresAt: string,
    maxStalenessSeconds: int,
    staleBehavior: string,
    sourceArtifacts: map<string, string>)

  datatype StoreState = StoreState(
    issuers: map<string, IssuerRecord>,
    keys: map<string, KeyEntry>,
    governance: map<string, GovernanceTrustProjection>,
    defects: seq<Defect>)

  const EMPTY_STORE := StoreState(map[], map[], map[], [])

  datatype PutError = RevocationIsTerminal | NoKeyMaterial

  datatype StoreOp =
    | PutIssuer(record: IssuerRecord)
    | PutKey(entry: KeyEntry)
    | RetireKeysFor(issuerId: string, now: Time, exceptKeyRef: string)
    | SetGovernance(issuerId: string, projection: GovernanceTrustProjection)
    | RemoveKey(keyRef: string)
    | Clear

  function PutKeyError(keys: map<string, KeyEntry>, entry: KeyEntry): Option<PutError> {
    if entry.keyRef in keys && keys[entry.keyRef].state == "revoked" && entry.state != "revoked"
    then Some(RevocationIsTerminal)
    else if entry.state in VERIFYING_STATES && entry.publicKeyPem.None? then Some(NoKeyMaterial)
    else None
  }

  predicate Retires(key: KeyEntry, keyRef: string, issuerId: string, exceptKeyRef: string) {
    key.issuerId == issuerId && keyRef != exceptKeyRef && key.state == "active"
  }

  function RetireKeys(keys: map<string, KeyEntry>, issuerId: string, now: Time, exceptKeyRef: string)
    : map<string, KeyEntry>
  {
    map r | r in keys :: if Retires(keys[r], r, issuerId, exceptKeyRef) then Retired(keys[r], now) else keys[r]
  }

  function ApplyOp(s: StoreState, op: StoreOp): StoreState {
    match op
    case PutIssuer(record) =>
      (match CanonicalMap(record.verifiedDomains, false)
       case Err(_) => s
       case Ok(domains) => s.(issuers := s.issuers[record.issuerId := record.(verifiedDomains := domains)]))
    case PutKey(entry) =>
      if PutKeyError(s.keys, entry).Some? then s else s.(keys := s.keys[entry.keyRef := entry])
    case RetireKeysFor(issuerId, now, exceptKeyRef) => s.(keys := RetireKeys(s.keys, issuerId, now, exceptKeyRef))
    case SetGovernance(issuerId, projection) => s.(governance := s.governance[issuerId := projection])
    case RemoveKey(keyRef) => s.(keys := s.keys - {keyRef})
    case Clear => StoreState(map[], map[], map[], s.defects)
  }

  function WriteIssuers(issuers: map<string, IssuerRecord>, records: seq<IssuerRecord>): map<string, IssuerRecord> {
    if records == [] then issuers
    else WriteIssuers(issuers, records[..|records| - 1])[records[|records| - 1].issuerId := records[|records| - 1]]
  }

  function WriteKeys(keys: map<string, KeyEntry>, entries: seq<KeyEntry>): map<string, KeyEntry> {
    if entries == [] then keys
    else WriteKeys(keys, entries[..|entries| - 1])[entries[|entries| - 1].keyRef := entries[|entries| - 1]]
  }

  function LocalIssuers(issuers: map<string, IssuerRecord>): map<string, IssuerRecord> {
    map i | i in issuers && issuers[i].source != "projection" :: issuers[i]
  }

  function LocalKeys(keys: map<string, KeyEntry>): map<string, KeyEntry> {
    map r | r in keys && keys[r].source != "projection" :: keys[r]
  }

  /** Swap in a fresh durable projection, keeping local entries it does not overwrite. */
  function ReplaceProjected(
    s: StoreState, records: seq<IssuerRecord>, entries: seq<KeyEntry>, defects: seq<Defect>): StoreState
  {
    StoreState(
      WriteIssuers(LocalIssuers(s.issuers), records), WriteKeys(LocalKeys(s.keys), entries), s.governance, defects)
  }

  function ResolveKey(s: StoreState, keyRef: string): Option<(KeyEntry, IssuerRecord)> {
    if keyRef in s.keys && s.keys[keyRef].issuerId in s.issuers
    then Some((s.keys[keyRef], s.issuers[s.keys[keyRef].issuerId])) else None
  }

  class ScannerTrustStore {
    var issuers: map<string, IssuerRecord>
    var keys: map<string, KeyEntry>
    var governance: map<string, GovernanceTrustProjection>
    var defects: seq<Defect>

    constructor ()
      ensures State() == EMPTY_STORE
    {
      issuers, keys, governance, defects := map[], map[], map[], [];
    }

    function State(): StoreState
      reads this
    {
      StoreState(issuers, keys, governance, defects)
    }

    method PublishIssuer(record: IssuerRecord) returns (r: Result<(), DomainError>)
      modifies this
      ensures State() == ApplyOp(old(State()), PutIssuer(record))
      ensures r.Ok? <==> CanonicalMap(record.verifiedDomains, false).Ok?
    {
      var domains := CanonicalizeDomainMap(record.verifiedDomains, false);
      if domains.Err? {
        return Err(domains.error);
      }
      issuers := issuers[record.issuerId := record.(verifiedDomains := domains.value)];
      return Ok(());
    }

    method PublishKey(entry: KeyEntry) returns (r: Result<(), PutError>)
      modifies this
      ensures State() == ApplyOp(old(State()), PutKey(entry))
      ensures r == match PutKeyError(old(keys), entry) case None => Ok(()) case Some(e) => Err(e)
    {
      if entry.keyRef in keys && keys[entry.keyRef].state == "revoked" && entry.state != "revoked" {
        return Err(RevocationIsTerminal);
      }
      if (entry.state == "active" || entry.state == "retired") && entry.publicKeyPem.None? {
        return Err(NoKeyMaterial);
      }
      keys := keys[entry.keyRef := entry];
      return Ok(());
    }

    method RetireIssuerKeys(issuerId: string, now: Time, exceptKeyRef: string)
      modifies this
      ensures State() == ApplyOp(old(State()), RetireKeysFor(issuerId, now, exceptKeyRef))
    {
      var items := keys;
      var pending := items.Keys;
      while pending != {}
        invariant pending <= items.Keys == keys.Keys
        invariant issuers == old(issuers) && governance == old(governance) && defects == old(defects)
        invariant forall r :: r in pending ==> keys[r] == items[r]
        invariant forall r :: r in items && r !in pending ==> keys[r] == RetireKeys(items, issuerId, now, exceptKeyRef)[r]
        decreases pending
      {
        var keyRef :| keyRef in pending;
        pending := pending - {keyRef};
        var key := items[keyRef];
        if key.issuerId != issuerId || keyRef == exceptKeyRef {
          continue;
        }
        if key.state != "active" {
          continue;
        }
        keys := keys[keyRef := key.(state := "retired", notAfter := Some(now))];
      }
      assert keys == RetireKeys(items, issuerId, now, exceptKeyRef);
    }

    method ReplaceProjection(records: seq<IssuerRecord>, entries: seq<KeyEntry>, found: seq<Defect>)
      modifies this
      ensures State() == ReplaceProjected(old(State()), records, entries, found)
    {
      issuers := map i | i in issuers && issuers[i].source != "projection" :: issuers[i];
      keys := map r | r in keys && keys[r].source != "projection" :: keys[r];
      for n := 0 to |records|
        invariant issuers == WriteIssuers(LocalIssuers(old(issuers)), records[..n])
        invariant keys == LocalKeys(old(keys)) && governance == old(governance)
      {
        assert records[..n + 1][..n] == records[..n];
        issuers := issuers[records[n].issuerId := records[n]];
      }
      assert records[..|records|] == records;
      for n := 0 to |entries|
        invariant issuers == WriteIssuers(LocalIssuers(old(issuers)), records) && governance == old(governance)
        invariant keys == WriteKeys(LocalKeys(old(keys)), entries[..n])
      {
        assert entries[..n + 1][..n] == entries[..n];
        keys := keys[entries[n].keyRef := entries[n]];
      }
      assert entries[..|entries|] == entries;
      defects := found;
    }

    method AttachGovernance(issuerId: string, projection: GovernanceTrustProjection)
      modifies this
      ensures State() == ApplyOp(old(State()), SetGovernance(issuerId, projection))
    {
      governance := governance[issuerId := projection];
    }

    method Forget(keyRef: string)
      modifies this
      ensures State() == ApplyOp(old(State()), RemoveKey(keyRef))
    {
      keys := keys - {keyRef};
    }

    method ClearAll()
      modifies this
      ensures State() == ApplyOp(old(State()), Clear)
    {
      issuers, keys, governance := map[], map[], map[];
    }

    function Resolve(keyRef: string): Option<(KeyEntry, IssuerRecord)>
      reads this
    {
      ResolveKey(State(), keyRef)
    }
  }

  // ----- Retirement -----

  /** Retiring touches exactly the issuer's other active keys, and leaves only the exempted one active. */
  lemma RetireKeysLeavesOnlyExempt(keys: map<string, KeyEntry>, issuerId: string, now: Time, exceptKeyRef: string)
    ensures var after := RetireKeys(keys, issuerId, now, exceptKeyRef);
            && after.Keys == keys.Keys
            && (forall r :: r in keys && after[r] != keys[r] ==> Retires(keys[r], r, issuerId, exceptKeyRef))
            && (forall r :: r in after && after[r].issuerId == issuerId && after[r].state == "active" ==> r == exceptKeyRef)
  {
  }

  /** What every presentation under a stored key experiences when its issuer's keys are retired at `t`. */
  lemma RetirementEffect(
    s: StoreState, issuerId: string, t: Time, exceptKeyRef: string, keyRef: string,
    p: Presentation, skewSeconds: nat, now: Time)
    requires ResolveKey(s, keyRef).Some?
    requires var key := s.keys[keyRef];
             Retires(key, keyRef, issuerId, exceptKeyRef) ==> key.notAfter.None? || t <= key.notAfter.value
    ensures var s' := ApplyOp(s, RetireKeysFor(issuerId, t, exceptKeyRef));
            var before := ResolveKey(s, keyRef).value;
            && ResolveKey(s', keyRef).Some?
            && var after := ResolveKey(s', keyRef).value;
               VerifyPresentedCode(p, TrustContext(after.0, after.1, skewSeconds), now).Accepted? <==>
               && VerifyPresentedCode(p, TrustContext(before.0, before.1, skewSeconds), now).Accepted?
               && (Retires(before.0, keyRef, issuerId, exceptKeyRef) ==> p.window.issuedAt <= t)
  {
    var before := ResolveKey(s, keyRef).value;
    var trust := TrustContext(before.0, before.1, skewSeconds);
    if Retires(before.0, keyRef, issuerId, exceptKeyRef) {
      RetiredKeyAcceptsFormerArtifacts(p, trust, t, now);
      assert trust.(key := Retired(before.0, t)) == TrustContext(Retired(before.0, t), before.1, skewSeconds);
    }
  }

  // ----- What every reachable store satisfies -----

  predicate GoodKey(entry: KeyEntry) {
    entry.state in VERIFYING_STATES ==> entry.publicKeyPem.Some?
  }

  /** Verifying keys have material, domain maps are canonical, entries sit under their own ids. */
  predicate WellFormedStore(s: StoreState) {
    && (forall r :: r in s.keys ==> s.keys[r].keyRef == r && GoodKey(s.keys[r]))
    && (forall i :: i in s.issuers ==> s.issuers[i].issuerId == i && IsCanonicalMap(s.issuers[i].verifiedDomains))
  }

  lemma LocalOpKeepsStoreWellFormed(s: StoreState, op: StoreOp)
    requires WellFormedStore(s)
    ensures WellFormedStore(ApplyOp(s, op))
  {
    if op.PutIssuer? && CanonicalMap(op.record.verifiedDomains, false).Ok? {
      CanonicalMapIsCanonical(op.record.verifiedDomains, false);
    }
  }

  lemma {:induction false} WriteIssuersKeepsWellFormed(s: StoreState, records: seq<IssuerRecord>)
    requires WellFormedStore(s)
    requires forall n :: 0 <= n < |records| ==> IsCanonicalMap(records[n].verifiedDomains)
    ensures WellFormedStore(s.(issuers := WriteIssuers(s.issuers, records)))
    decreases |records|
  {
    if records != [] {
      WriteIssuersKeepsWellFormed(s, records[..|records| - 1]);
    }
  }

  lemma {:induction false} WriteKeysKeepsWellFormed(s: StoreState, entries: seq<KeyEntry>)
    requires WellFormedStore(s)
    requires forall n :: 0 <= n < |entries| ==> GoodKey(entries[n])
    ensures WellFormedStore(s.(keys := WriteKeys(s.keys, entries)))
    decreases |entries|
  {
    if entries != [] {
      WriteKeysKeepsWellFormed(s, entries[..|entries| - 1]);
    }
  }

  lemma ReplaceKeepsStoreWellFormed(
    s: StoreState, records: seq<IssuerRecord>, entries: seq<KeyEntry>, defects: seq<Defect>)
    requires WellFormedStore(s)
    requires forall n :: 0 <= n < |records| ==> IsCanonicalMap(records[n].verifiedDomains)
    requires forall n :: 0 <= n < |entries| ==> GoodKey(entries[n])
    ensures WellFormedStore(ReplaceProjected(s, records, entries, defects))
  {
    var kept := StoreState(LocalIssuers(s.issuers), LocalKeys(s.keys), s.governance, defects);
    assert WellFormedStore(kept);
    WriteIssuersKeepsWellFormed(kept, records);
    WriteKeysKeepsWellFormed(kept.(issuers := WriteIssuers(kept.issuers, records)), entries);
  }

  // ----- The projected slice -----

  datatype Slice = Slice(issuers: map<string, IssuerRecord>, keys: map<string, KeyEntry>, defects: seq<Defect>)

  const EMPTY_SLICE := Slice(map[], map[], [])

  /** The part of the store that came from the durable tables. */
  function ProjectedSlice(s: StoreState): Slice {
    Slice(map i | i in s.issuers && s.issuers[i].source == "projection" :: s.issuers[i],
          map r | r in s.keys && s.keys[r].source == "projection" :: s.keys[r],
          s.defects)
  }

  /** The slice a snapshot's records amount to. */
  function SliceOf(records: seq<IssuerRecord>, entries: seq<KeyEntry>, defects: seq<Defect>): Slice {
    Slice(WriteIssuers(map[], records), WriteKeys(map[], entries), defects)
  }

  lemma {:induction false} WriteIssuersOverLocal(issuers: map<string, IssuerRecord>, records: seq<IssuerRecord>)
    requires forall i :: i in issuers ==> issuers[i].source != "projection"
    requires forall n :: 0 <= n < |records| ==> records[n].source == "projection"
    ensures var w := WriteIssuers(issuers, records);
            (map i | i in w && w[i].source == "projection" :: w[i]) == WriteIssuers(map[], records)
    decreases |records|
  {
    if records != [] {
      WriteIssuersOverLocal(issuers, records[..|records| - 1]);
    }
  }

  lemma {:induction false} WriteKeysOverLocal(keys: map<string, KeyEntry>, entries: seq<KeyEntry>)
    requires forall r :: r in keys ==> keys[r].source != "projection"
    requires forall n :: 0 <= n < |entries| ==> entries[n].source == "projection"
    ensures var w := WriteKeys(keys, entries);
            (map r | r in w && w[r].source == "projection" :: w[r]) == WriteKeys(map[], entries)
    decreases |entries|
  {
    if entries != [] {
      WriteKeysOverLocal(keys, entries[..|entries| - 1]);
    }
  }

  /** After a reload the projected slice is exactly what was loaded, collisions with local entries included. */
  lemma ReplaceInstallsSlice(s: StoreState, records: seq<IssuerRecord>, entries: seq<KeyEntry>, defects: seq<Defect>)
    requires forall n :: 0 <= n < |records| ==> records[n].source == "projection"
    requires forall n :: 0 <= n < |entries| ==> entries[n].source == "projection"
    ensures ProjectedSlice(ReplaceProjected(s, records, entries, defects)) == SliceOf(records, entries, defects)
  {
    WriteIssuersOverLocal(LocalIssuers(s.issuers), records);
    WriteKeysOverLocal(LocalKeys(s.keys), entries);
  }

  /** The projected issuers the operation replaces or removes, or that it passes off as projected. */
  function DisturbedIssuers(s: StoreState, op: StoreOp): set<string> {
    var projected := ProjectedSlice(s).issuers;
    match op
    case PutIssuer(record) =>
      if CanonicalMap(record.verifiedDomains, false).Ok?
         && (record.issuerId in projected || record.source == "projection") then {record.issuerId} else {}
    case Clear => projected.Keys
    case _ => {}
  }

  /** The projected keys the operation replaces, retires or removes, or that it passes off as projected. */
  function DisturbedKeys(s: StoreState, op: StoreOp): set<string> {
    var projected := ProjectedSlice(s).keys;
    match op
    case PutKey(entry) =>
      if PutKeyError(s.keys, entry).None? && (entry.keyRef in projected || entry.source == "projection")
      then {entry.keyRef} else {}
    case RetireKeysFor(issuerId, _, exceptKeyRef) =>
      set r | r in projected && Retires(projected[r], r, issuerId, exceptKeyRef)
    case RemoveKey(keyRef) => {keyRef} * projected.Keys
    case Clear => projected.Keys
    case _ => {}
  }

  /** Local writers publish under their own source tag. */
  predicate LocallyTagged(op: StoreOp) {
    && (op.PutIssuer? ==> op.record.source != "projection")
    && (op.PutKey? ==> op.entry.source != "projection")
  }

  /** The two slices agree on every issuer and key outside the given sets. */
  ghost predicate AgreeOutside(a: Slice, b: Slice, issuerIds: set<string>, keyRefs: set<string>) {
    && a.defects == b.defects
    && (forall i :: i !in issuerIds ==>
          ((i in a.issuers <==> i in b.issuers) && (i in a.issuers ==> a.issuers[i] == b.issuers[i])))
    && (forall r :: r !in keyRefs ==>
          ((r in a.keys <==> r in b.keys) && (r in a.keys ==> a.keys[r] == b.keys[r])))
  }

  lemma AgreeEverywhere(a: Slice, b: Slice)
    ensures AgreeOutside(a, b, {}, {}) <==> a == b
  {
    if AgreeOutside(a, b, {}, {}) {
      assert a.issuers == b.issuers && a.keys == b.keys;
    }
  }

  /** A local write leaves every projected entry alone but those it disturbs. */
  lemma LocalOpDisturbsOnly(s: StoreState, op: StoreOp)
    ensures AgreeOutside(ProjectedSlice(s), ProjectedSlice(ApplyOp(s, op)), DisturbedIssuers(s, op), DisturbedKeys(s, op))
  {
  }

  /** A disturbed entry of a locally tagged write is no longer the one that was projected. */
  lemma DisturbedEntriesChange(s: StoreState, op: StoreOp)
    requires LocallyTagged(op)
    ensures var (before, after) := (ProjectedSlice(s), ProjectedSlice(ApplyOp(s, op)));
            && (forall i :: i in DisturbedIssuers(s, op) ==> i in before.issuers && i !in after.issuers)
            && (forall r :: r in DisturbedKeys(s, op) ==>
                  r in before.keys && (r !in after.keys || after.keys[r] != before.keys[r]))
  {
  }

  /** A locally tagged write leaves the projected slice alone exactly when it disturbs no projected entry. */
  lemma LocalOpKeepsSliceExactly(s: StoreState, op: StoreOp)
    requires LocallyTagged(op)
    ensures ProjectedSlice(ApplyOp(s, op)) == ProjectedSlice(s) <==>
            DisturbedIssuers(s, op) == {} && DisturbedKeys(s, op) == {}
  {
    LocalOpDisturbsOnly(s, op);
    DisturbedEntriesChange(s, op);
    AgreeEverywhere(ProjectedSlice(s), ProjectedSlice(ApplyOp(s, op)));
  }

  lemma OneIssuerReload(projected: IssuerRecord)
    ensures ReplaceProjected(EMPTY_STORE, [projected], [], []) ==
            StoreState(map[projected.issuerId := projected], map[], map[], [])
  {
    assert [projected][..0] == [];
    assert LocalIssuers(map[]) == map[] && LocalKeys(map[]) == map[];
    assert WriteIssuers(map[], [projected]) == map[projected.issuerId := projected];
    assert WriteKeys(map[], []) == map[];
  }

  lemma CanonicalPut(s: StoreState, record: IssuerRecord)
    requires IsCanonicalMap(record.verifiedDomains)
    ensures ApplyOp(s, PutIssuer(record)) == s.(issuers := s.issuers[record.issuerId := record])
  {
    CanonicalMapFixed(record.verifiedDomains, false);
    assert record.(verifiedDomains := record.verifiedDomains) == record;
  }

  lemma OneIssuerSlice(id: string, record: IssuerRecord)
    ensures ProjectedSlice(StoreState(map[id := record], map[], map[], [])).issuers ==
            if record.source == "projection" then map[id := record] else map[]
  {
  }

  /** The failing input: a local issuer published over a projected one of its id leaves nothing projected. */
  lemma LocalIssuerDisplacesProjected(projected: IssuerRecord, tag: string)
    requires projected.source == "projection" && tag != "projection" && IsCanonicalMap(projected.verifiedDomains)
    ensures var s := ReplaceProjected(EMPTY_STORE, [projected], [], []);
            var local := projected.(source := tag);
            && ProjectedSlice(s).issuers == map[projected.issuerId := projected]
            && ProjectedSlice(ApplyOp(s, PutIssuer(local))).issuers == map[]
            && ApplyOp(s, PutIssuer(local)).issuers == map[projected.issuerId := local]
  {
    var s, local := StoreState(map[projected.issuerId := projected], map[], map[], []), projected.(source := tag);
    OneIssuerReload(projected);
    CanonicalPut(s, local);
    assert s.issuers[local.issuerId := local] == map[local.issuerId := local];
    OneIssuerSlice(projected.issuerId, projected);
    OneIssuerSlice(local.issuerId, local);
  }
}

/**
 * From the request to revoke a certificate to the refusal of everything it signed: the request's
 * transaction, every later state of the tables, and every verifier that refreshes in time.
 */
module RevocationRequests {
  import opened Wrappers
  import opened TrustRules
  import opened NarrowedVerifier
  import opened TrustDatabase
  import opened TrustStore
  import opened TrustProjection
  import opened GovernanceBuilders
  import G = Governance
  import P = ProjectionProtocol

  // ----- In the ledger -----

  /** What a call does to the tables: its statement's effect when it applies, nothing otherwise. */
  lemma CallOnTables(db: G.Ledger, c: G.Call, hash: G.RequestHash)
    ensures var r := G.Record(db, c, hash);
            var run := Execute(db.trust.tables, c.mutation.write, c.now);
            if r.outcome.Applied? then run.Ok? && r.ledger.trust.tables == run.value.tables
            else r.ledger.trust.tables == db.trust.tables
  {
  }

  /** No call un-revokes a certificate. */
  lemma CallKeepsRevoked(db: G.Ledger, c: G.Call, hash: G.RequestHash, certificateId: string)
    requires IsRevoked(db.trust.tables, certificateId)
    ensures IsRevoked(G.Record(db, c, hash).ledger.trust.tables, certificateId)
  {
    CallOnTables(db, c, hash);
    CommitKeepsRevoked(db.trust, c.mutation.write, false, c.freshEpoch, c.now, certificateId);
  }

  lemma {:induction false} RevokedStays(
    db: G.Ledger, entries: seq<G.Entry>, i: nat, j: nat, hash: G.RequestHash, certificateId: string)
    requires i <= j <= |entries| && IsRevoked(G.Before(db, entries, i, hash).trust.tables, certificateId)
    ensures IsRevoked(G.Before(db, entries, j, hash).trust.tables, certificateId)
    decreases j - i
  {
    if i < j {
      RevokedStays(db, entries, i, j - 1, hash, certificateId);
      G.BeforeNext(db, entries, j - 1, hash);
      CallKeepsRevoked(G.Before(db, entries, j - 1, hash), entries[j - 1].call, hash, certificateId);
    }
  }

  /**
   * Over every history: once a request to revoke a certificate that is there has applied, the certificate is
   * revoked in the ledger it leaves and in every later one, whatever is requested afterwards.
   */
  lemma AppliedRevocationLasts(
    db: G.Ledger, entries: seq<G.Entry>, i: nat, j: nat, hash: G.RequestHash,
    certificateId: string, issuer: IssuerName, reason: Option<string>, afterJson: string)
    requires i < j <= |entries| && G.AppliedAt(db, entries, i, hash)
    requires entries[i].call.mutation == Build(UpdateCertificateStatus(certificateId, issuer, "revoked", reason), afterJson)
    requires HasCertificate(G.Before(db, entries, i, hash).trust.tables.certificates, certificateId)
    ensures IsRevoked(G.Before(db, entries, j, hash).trust.tables, certificateId)
  {
    var before, c := G.Before(db, entries, i, hash), entries[i].call;
    CallOnTables(before, c, hash);
    RevocationTakesEffect(before.trust, certificateId, reason, false, c.freshEpoch, c.now);
    G.BeforeNext(db, entries, i, hash);
    RevokedStays(db, entries, i + 1, j, hash, certificateId);
  }

  // ----- In every verifier -----

  lemma StepGrowsLog(s: P.System, event: P.Event, loads: PemCheck)
    requires s.log != []
    ensures s.log <= P.Next(s, event, loads).log
  {
  }

  lemma {:induction false} RunGrowsLog(s: P.System, events: seq<P.Event>, n: nat, loads: PemCheck)
    requires s.log != [] && n <= |events|
    ensures P.Run(s, events[..n], loads).log <= P.Run(s, events, loads).log
    decreases |events|
  {
    if n == |events| {
      assert events[..n] == events;
    } else {
      var init := events[..|events| - 1];
      assert init[..n] == events[..n];
      RunGrowsLog(s, init, n, loads);
      StepGrowsLog(P.Run(s, init, loads), events[|events| - 1], loads);
    }
  }

  function Revocation(certificateId: string, reason: Option<string>, requireRows: bool, freshEpoch: string): P.Event {
    P.Write(SetCertificateStatus(certificateId, "revoked", reason), requireRows, freshEpoch)
  }

  /** The write of a revocation leaves a current version that holds it, dated now. */
  lemma RevocationIsCommitted(
    s: P.System, certificateId: string, reason: Option<string>, requireRows: bool, freshEpoch: string, loads: PemCheck)
    requires s.log != [] && freshEpoch !in s.spentEpochs && HasCertificate(P.Current(s).tables.certificates, certificateId)
    ensures var s' := P.Next(s, Revocation(certificateId, reason, requireRows, freshEpoch), loads);
            && |s'.log| == |s.log| + 1 && s'.log[|s.log|].since == s.clock
            && IsRevoked(s'.log[|s.log|].state.tables, certificateId)
  {
    RevocationTakesEffect(P.Current(s), certificateId, reason, requireRows, freshEpoch, s.clock);
  }

  /**
   * Over every run: after a request to revoke a certificate is committed at `T`, any answer whose caller time
   * exceeds `T` plus the budget leaves, then and later, a store that refuses every presentation under the
   * certificate's key at a status stage, unless a local writer republished the key since the last reload.
   */
  lemma RequestedRevocationIsEnforced(
    s: P.System, before: seq<P.Event>, after: seq<P.Event>, loads: PemCheck, certificateId: string,
    reason: Option<string>, requireRows: bool, freshEpoch: string,
    k: nat, p: Presentation, skewSeconds: nat, now: Time)
    requires P.Initial(s) && s.manager.maxStalenessSeconds >= 0
    requires var asked := P.Run(s, before, loads);
             freshEpoch !in asked.spentEpochs && HasCertificate(P.Current(asked).tables.certificates, certificateId)
    requires var r := P.Run(s, before + [Revocation(certificateId, reason, requireRows, freshEpoch)] + after, loads);
             && k < |r.answers| && P.Answering(r.answers[k].kind)
             && r.answers[k].now > P.Run(s, before, loads).clock + s.manager.maxStalenessSeconds * SECOND
             && certificateId !in r.republished && ResolveKey(r.store, certificateId).Some?
    ensures var r := P.Run(s, before + [Revocation(certificateId, reason, requireRows, freshEpoch)] + after, loads);
            var (key, issuer) := ResolveKey(r.store, certificateId).value;
            var v := VerifyPresentedCode(p, TrustContext(key, issuer, skewSeconds), now);
            v.Refused? && (v.stage == "issuer_status" || v.stage == "key_status")
  {
    var asked, request := P.Run(s, before, loads), Revocation(certificateId, reason, requireRows, freshEpoch);
    P.RunAppend(s, before, request, loads);
    RevocationIsCommitted(asked, certificateId, reason, requireRows, freshEpoch, loads);
    var events := before + [request] + after;
    assert events[..|before| + 1] == before + [request];
    RunGrowsLog(s, events, |before| + 1, loads);
    P.RevocationIsEnforced(s, events, loads, |asked.log|, certificateId, k, p, skewSeconds, now);
  }
}

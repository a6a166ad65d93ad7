/**
 * The order of an issuer's domains: that in which their first verified proofs were fetched, which decides
 * between two domains that cover one host.
 */
module ProofOrder {
  import opened Wrappers
  import opened VerifiedDomains
  import opened TrustRules
  import opened NarrowedVerifier
  import opened TrustDatabase
  import opened TrustProjection
  import opened Provenance

  /** Row `k` is the first verified proof of the issuer for the raw domain. */
  predicate FirstVerified(rows: seq<DomainProofRow>, issuerId: string, domain: string, k: int) {
    && 0 <= k < |rows| && VerifiedFor(rows[k], issuerId, domain)
    && forall j :: 0 <= j < k ==> !VerifiedFor(rows[j], issuerId, domain)
  }

  ghost predicate VerifiedBefore(rows: seq<DomainProofRow>, issuerId: string, a: string, b: string) {
    exists i, j :: i < j && FirstVerified(rows, issuerId, a, i) && FirstVerified(rows, issuerId, b, j)
  }

  lemma FirstDomain(entry: Proof<Option<Time>>, rest: Proofs)
    ensures Domains([entry] + rest) == [entry.domain] + Domains(rest)
  {
  }

  lemma {:induction false} SetEntryDomains(entries: Proofs, domain: string, value: Option<Time>)
    ensures Domains(SetEntry(entries, domain, value)) ==
            if domain in Domains(entries) then Domains(entries) else Domains(entries) + [domain]
  {
    if entries == [] {
      assert Domains([Proof(domain, value)]) == [domain];
    } else {
      var (first, rest) := (entries[0], entries[1..]);
      assert entries == [first] + rest;
      FirstDomain(first, rest);
      if first.domain == domain {
        FirstDomain(Proof(domain, value), rest);
      } else {
        SetEntryDomains(rest, domain, value);
        FirstDomain(first, SetEntry(rest, domain, value));
      }
    }
  }

  /** One more row: a new domain goes last, a known one stays where it is. */
  lemma GroupedDomains(rows: seq<DomainProofRow>, row: DomainProofRow, issuerId: string)
    ensures var before := Domains(GroupedProofs(VerifiedProofs(rows), issuerId));
            Domains(GroupedProofs(VerifiedProofs(rows + [row]), issuerId)) ==
            if VerifiedFor(row, issuerId, row.domain) && row.domain !in before then before + [row.domain] else before
  {
    var verified := VerifiedProofs(rows);
    assert (rows + [row])[..|rows|] == rows;
    if row.verificationStatus == "verified" {
      assert (verified + [row])[..|verified|] == verified;
      SetEntryDomains(GroupedProofs(verified, issuerId), row.domain, row.expiresAt);
    } else {
      assert verified + [] == verified;
    }
  }

  lemma {:induction false} FirstOfVerified(rows: seq<DomainProofRow>, issuerId: string, domain: string, j: nat)
    returns (k: nat)
    requires j < |rows| && VerifiedFor(rows[j], issuerId, domain)
    ensures k <= j && FirstVerified(rows, issuerId, domain, k)
  {
    k := j;
    if i :| 0 <= i < j && VerifiedFor(rows[i], issuerId, domain) {
      k := FirstOfVerified(rows, issuerId, domain, i);
    }
  }

  /** The listed domains are those with a verified proof, in the order in which they were first verified. */
  ghost predicate InFetchOrder(rows: seq<DomainProofRow>, issuerId: string, listed: seq<string>) {
    && (forall domain :: domain in listed <==> exists j :: 0 <= j < |rows| && VerifiedFor(rows[j], issuerId, domain))
    && (forall a, b :: 0 <= a < b < |listed| ==> VerifiedBefore(rows, issuerId, listed[a], listed[b]))
  }

  lemma VerifiedBeforeStays(front: seq<DomainProofRow>, last: DomainProofRow, issuerId: string, a: string, b: string)
    requires VerifiedBefore(front, issuerId, a, b)
    ensures VerifiedBefore(front + [last], issuerId, a, b)
  {
    var i, j :| i < j && FirstVerified(front, issuerId, a, i) && FirstVerified(front, issuerId, b, j);
    assert FirstVerified(front + [last], issuerId, a, i) && FirstVerified(front + [last], issuerId, b, j);
  }

  lemma NewDomainIsLast(front: seq<DomainProofRow>, last: DomainProofRow, issuerId: string, a: string)
    requires VerifiedFor(last, issuerId, last.domain)
    requires forall j :: 0 <= j < |front| ==> !VerifiedFor(front[j], issuerId, last.domain)
    requires exists j :: 0 <= j < |front| && VerifiedFor(front[j], issuerId, a)
    ensures VerifiedBefore(front + [last], issuerId, a, last.domain)
  {
    var j: nat :| j < |front| && VerifiedFor(front[j], issuerId, a);
    var i := FirstOfVerified(front, issuerId, a, j);
    assert FirstVerified(front + [last], issuerId, a, i);
    assert FirstVerified(front + [last], issuerId, last.domain, |front|);
  }

  lemma FetchOrderStep(
    front: seq<DomainProofRow>, last: DomainProofRow, issuerId: string, before: seq<string>, after: seq<string>)
    requires InFetchOrder(front, issuerId, before)
    requires after == if VerifiedFor(last, issuerId, last.domain) && last.domain !in before then before + [last.domain]
                      else before
    ensures InFetchOrder(front + [last], issuerId, after)
  {
    var rows := front + [last];
    assert forall j :: 0 <= j < |front| ==> rows[j] == front[j];
    assert rows[|front|] == last;
    forall a, b | 0 <= a < b < |after| ensures VerifiedBefore(rows, issuerId, after[a], after[b]) {
      if b < |before| {
        VerifiedBeforeStays(front, last, issuerId, after[a], after[b]);
      } else {
        assert after[a] == before[a] && before[a] in before;
        NewDomainIsLast(front, last, issuerId, after[a]);
      }
    }
  }

  lemma {:induction false} GroupedInFetchOrder(rows: seq<DomainProofRow>, issuerId: string)
    ensures InFetchOrder(rows, issuerId, Domains(GroupedProofs(VerifiedProofs(rows), issuerId)))
    decreases |rows|
  {
    if rows != [] {
      var (front, last) := (rows[..|rows| - 1], rows[|rows| - 1]);
      assert rows == front + [last];
      GroupedInFetchOrder(front, issuerId);
      GroupedDomains(front, last, issuerId);
      FetchOrderStep(
        front, last, issuerId, Domains(GroupedProofs(VerifiedProofs(front), issuerId)),
        Domains(GroupedProofs(VerifiedProofs(rows), issuerId)));
    }
  }

  /** Entry by entry, the canonical domains of the raw ones. */
  predicate SpelledBy(entries: Proofs, canonical: Proofs) {
    |canonical| == |entries| && forall i :: 0 <= i < |entries| ==> Spells(entries[i], canonical[i])
  }

  lemma SpelledByStep(front: Proofs, last: Proof<Option<Time>>, canonical: Proofs, entry: Proof<Option<Time>>)
    requires SpelledBy(front, canonical) && Spells(last, entry)
    ensures SpelledBy(front + [last], canonical + [entry])
  {
  }

  lemma CanonicalLast(front: Proofs, last: Proof<Option<Time>>)
    requires CanonicalMap(front + [last], false).Ok?
    ensures CanonicalMap(front, false).Ok? && CanonicalDomain(last.domain).Ok?
    ensures CanonicalMap(front + [last], false).value ==
            CanonicalMap(front, false).value + [Proof(CanonicalDomain(last.domain).value, last.value)]
  {
    assert (front + [last])[..|front|] == front;
  }

  /** The canonical map, where there is one, goes entry by entry. */
  ghost predicate KeepsOrder(entries: Proofs) {
    CanonicalMap(entries, false).Ok? ==> SpelledBy(entries, CanonicalMap(entries, false).value)
  }

  lemma KeepsOrderStep(front: Proofs, last: Proof<Option<Time>>)
    requires KeepsOrder(front)
    ensures KeepsOrder(front + [last])
  {
    if CanonicalMap(front + [last], false).Ok? {
      CanonicalLast(front, last);
      SpelledByStep(
        front, last, CanonicalMap(front, false).value, Proof(CanonicalDomain(last.domain).value, last.value));
    }
  }

  lemma {:induction false} CanonicalInOrder(entries: Proofs)
    ensures KeepsOrder(entries)
    decreases |entries|
  {
    if entries != [] {
      var (front, last) := (entries[..|entries| - 1], entries[|entries| - 1]);
      CanonicalInOrder(front);
      KeepsOrderStep(front, last);
      assert entries == front + [last];
    }
  }

  /**
   * Of two domains of a record, the one listed first, which is asked first whether it covers a host, is the one
   * of which a proof was verified first in fetch order.
   */
  lemma DomainsInFetchOrder(rows: seq<DomainProofRow>, issuerId: string, a: nat, b: nat)
    requires a < b < |IssuerDomains(VerifiedProofs(rows), issuerId)|
    ensures var listed := IssuerDomains(VerifiedProofs(rows), issuerId);
            exists x, y ::
              && CanonicalDomain(x) == Ok(listed[a].domain) && CanonicalDomain(y) == Ok(listed[b].domain)
              && VerifiedBefore(rows, issuerId, x, y)
  {
    var grouped := GroupedProofs(VerifiedProofs(rows), issuerId);
    CanonicalInOrder(grouped);
    GroupedInFetchOrder(rows, issuerId);
    assert Spells(grouped[a], IssuerDomains(VerifiedProofs(rows), issuerId)[a]);
    assert Spells(grouped[b], IssuerDomains(VerifiedProofs(rows), issuerId)[b]);
    assert VerifiedBefore(rows, issuerId, Domains(grouped)[a], Domains(grouped)[b]);
  }
}

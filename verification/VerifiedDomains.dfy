/**
 * Canonical hostnames, the domain maps issuers prove control over, and the
 * label-exact subdomain rule. IDNA is the identity on lower-case ASCII here.
 */
module VerifiedDomains {
  import opened Wrappers
  import opened Text
  import opened Permutations

  datatype DomainError =
    | InvalidHost
    | CannotEncode
    | NotAHostname
    | InvalidHostname
    | AmbiguousDomain(canonical: string)

  function LowerChar(c: char): char {
    if 'A' <= c <= 'Z' then (c as int - 'A' as int + 'a' as int) as char else c
  }

  function Lower(s: string): (r: string)
    ensures |r| == |s|
    ensures forall i :: 0 <= i < |s| ==> r[i] == LowerChar(s[i])
  {
    seq(|s|, i requires 0 <= i < |s| => LowerChar(s[i]))
  }

  predicate IsAscii(s: string) {
    forall i :: 0 <= i < |s| ==> (s[i] as int) < 128
  }

  predicate IsAlphanumeric(c: char) {
    'a' <= c <= 'z' || 'A' <= c <= 'Z' || '0' <= c <= '9'
  }

  /** IDNA encoding restricted to ASCII: labels of 64 or more octets do not encode. */
  function EncodeIdna(host: string): Result<string, DomainError> {
    if IsAscii(host) && (forall part | part in Split(host, '.') :: |part| < 64) then Ok(host)
    else Err(CannotEncode)
  }

  function CanonicalHost(rawHost: string): Result<string, DomainError> {
    var lowered := Lower(Trim(rawHost));
    var host := if lowered != [] && lowered[|lowered| - 1] == '.' then lowered[..|lowered| - 1] else lowered;
    if host == [] || "" in Split(host, '.') then Err(InvalidHost) else EncodeIdna(host)
  }

  predicate ValidLabel(part: string) {
    && 0 < |part| <= 63
    && part[0] != '-' && part[|part| - 1] != '-'
    && forall i :: 0 <= i < |part| ==> part[i] == '-' || IsAlphanumeric(part[i])
  }

  predicate ValidHostname(host: string) {
    |host| <= 253 && forall part | part in Split(host, '.') :: ValidLabel(part)
  }

  predicate HostnameText(candidate: string) {
    && candidate != []
    && forall i :: 0 <= i < |candidate| ==>
         candidate[i] != '/' && candidate[i] != ':' && !IsSpace(candidate[i])
  }

  function CanonicalDomain(rawDomain: string): Result<string, DomainError> {
    var candidate := Trim(rawDomain);
    if !HostnameText(candidate) then Err(NotAHostname)
    else
      match CanonicalHost(candidate)
      case Err(e) => Err(e)
      case Ok(host) => if ValidHostname(host) then Ok(host) else Err(InvalidHostname)
  }

  predicate IsCanonicalDomain(domain: string) {
    CanonicalDomain(domain) == Ok(domain)
  }

  lemma {:induction false} CharOfParts(s: string, sep: char, i: nat)
    requires i < |s| && s[i] != sep
    ensures exists p, k :: 0 <= p < |Split(s, sep)| && 0 <= k < |Split(s, sep)[p]| && Split(s, sep)[p][k] == s[i]
    decreases |s|
  {
    var parts, rest := Split(s, sep), Split(s[1..], sep);
    if i == 0 {
      assert parts[0][0] == s[0];
    } else {
      CharOfParts(s[1..], sep, i - 1);
      var p, k :| 0 <= p < |rest| && 0 <= k < |rest[p]| && rest[p][k] == s[1..][i - 1];
      if s[0] == sep {
        assert parts[p + 1][k] == s[i];
      } else if p == 0 {
        assert parts[0][k + 1] == s[i];
      } else {
        assert parts[p][k] == s[i];
      }
    }
  }

  lemma HostnameChars(host: string, i: nat)
    requires ValidHostname(host) && i < |host|
    ensures host[i] == '.' || host[i] == '-' || IsAlphanumeric(host[i])
  {
    if host[i] != '.' {
      CharOfParts(host, '.', i);
      var parts := Split(host, '.');
      var p, k :| 0 <= p < |parts| && 0 <= k < |parts[p]| && parts[p][k] == host[i];
      assert ValidLabel(parts[p]);
    }
  }

  lemma LabelsNotEmpty(host: string)
    requires ValidHostname(host)
    ensures forall i :: 0 <= i < |Split(host, '.')| ==> Split(host, '.')[i] != ""
  {
    forall i | 0 <= i < |Split(host, '.')| ensures Split(host, '.')[i] != "" {
      assert ValidLabel(Split(host, '.')[i]);
    }
  }

  lemma TrailingSeparatorLeavesEmptyPart(s: string, sep: char)
    requires s != [] && s[|s| - 1] == sep
    ensures Split(s, sep)[|Split(s, sep)| - 1] == ""
  {
    var a := s[..|s| - 1];
    assert s == a + [sep] + [];
    SplitConcat(a, [], sep);
  }

  lemma HostnameEnd(host: string)
    requires ValidHostname(host)
    ensures host != [] && host[|host| - 1] != '.'
  {
    LabelsNotEmpty(host);
    assert host != [] by {
      assert Split(host, '.')[0] != "";
    }
    if host[|host| - 1] == '.' {
      TrailingSeparatorLeavesEmptyPart(host, '.');
    }
  }

  predicate IsLower(s: string) {
    forall i :: 0 <= i < |s| ==> !('A' <= s[i] <= 'Z')
  }

  lemma HostnamesAreCanonical(domain: string)
    requires ValidHostname(domain) && IsLower(domain)
    ensures IsCanonicalDomain(domain)
  {
    HostnameEnd(domain);
    forall i | 0 <= i < |domain|
      ensures domain[i] != '/' && domain[i] != ':' && !IsSpace(domain[i]) && (domain[i] as int) < 128
    {
      HostnameChars(domain, i);
    }
    TrimIsTrimmed(domain);
    assert Lower(domain) == domain;
    assert "" !in Split(domain, '.');
  }

  /** Canonical domains are exactly the lower-case valid hostnames. */
  lemma CanonicalDomainsAreHostnames(domain: string)
    ensures IsCanonicalDomain(domain) <==> ValidHostname(domain) && IsLower(domain)
  {
    if ValidHostname(domain) && IsLower(domain) {
      HostnamesAreCanonical(domain);
    }
    if IsCanonicalDomain(domain) {
      var candidate := Trim(domain);
      var lowered := Lower(Trim(candidate));
      assert domain <= lowered;
    }
  }

  /** Canonicalising a domain is idempotent. */
  lemma CanonicalDomainIdempotent(rawDomain: string)
    requires CanonicalDomain(rawDomain).Ok?
    ensures IsCanonicalDomain(CanonicalDomain(rawDomain).value)
  {
    CanonicalisedIsHostname(rawDomain);
    CanonicalDomainsAreHostnames(CanonicalDomain(rawDomain).value);
  }

  lemma CanonicalisedIsHostname(rawDomain: string)
    requires CanonicalDomain(rawDomain).Ok?
    ensures ValidHostname(CanonicalDomain(rawDomain).value) && IsLower(CanonicalDomain(rawDomain).value)
  {
    var (host, lowered) := (CanonicalDomain(rawDomain).value, Lower(Trim(Trim(rawDomain))));
    assert host <= lowered;
  }

  // ----- Domain maps: dictionaries in insertion order -----

  /** One entry of a Python dictionary keyed by domain; the order of entries is the insertion order. */
  datatype Proof<V> = Proof(domain: string, value: V)

  function Domains<V>(entries: seq<Proof<V>>): seq<string> {
    seq(|entries|, i requires 0 <= i < |entries| => entries[i].domain)
  }

  /** Dictionary keys are distinct. */
  predicate DistinctDomains<V>(entries: seq<Proof<V>>) {
    forall i, j :: 0 <= i < j < |entries| ==> entries[i].domain != entries[j].domain
  }

  predicate IsCanonicalMap<V>(entries: seq<Proof<V>>) {
    && DistinctDomains(entries)
    && forall i :: 0 <= i < |entries| ==> IsCanonicalDomain(entries[i].domain)
  }

  predicate Skipped(rawDomain: string, ignoreBlank: bool) {
    ignoreBlank && Blank(rawDomain)
  }

  /** One more dictionary entry: blanks may be dropped, a second raw spelling of a key is refused. */
  function AddEntry<V>(entries: seq<Proof<V>>, entry: Proof<V>, ignoreBlank: bool)
    : Result<seq<Proof<V>>, DomainError>
  {
    if Skipped(entry.domain, ignoreBlank) then Ok(entries)
    else
      match CanonicalDomain(entry.domain)
      case Err(e) => Err(e)
      case Ok(domain) =>
        if domain in Domains(entries) then Err(AmbiguousDomain(domain))
        else Ok(entries + [Proof(domain, entry.value)])
  }

  /** The map with canonical keys, in the original order. */
  function CanonicalMap<V>(entries: seq<Proof<V>>, ignoreBlank: bool): Result<seq<Proof<V>>, DomainError> {
    if entries == [] then Ok([])
    else
      match CanonicalMap(entries[..|entries| - 1], ignoreBlank)
      case Err(e) => Err(e)
      case Ok(front) => AddEntry(front, entries[|entries| - 1], ignoreBlank)
  }

  lemma {:induction false} CanonicalMapErrSticks<V>(entries: seq<Proof<V>>, n: nat, ignoreBlank: bool)
    requires n <= |entries| && CanonicalMap(entries[..n], ignoreBlank).Err?
    ensures CanonicalMap(entries, ignoreBlank) == CanonicalMap(entries[..n], ignoreBlank)
    decreases |entries|
  {
    if n < |entries| {
      assert entries[..|entries| - 1][..n] == entries[..n];
      CanonicalMapErrSticks(entries[..|entries| - 1], n, ignoreBlank);
    } else {
      assert entries[..n] == entries;
    }
  }

  method CanonicalizeDomainMap<V>(entries: seq<Proof<V>>, ignoreBlank: bool)
    returns (r: Result<seq<Proof<V>>, DomainError>)
    ensures r == CanonicalMap(entries, ignoreBlank)
  {
    var normalized: seq<Proof<V>> := [];
    for i := 0 to |entries|
      invariant CanonicalMap(entries[..i], ignoreBlank) == Ok(normalized)
    {
      var entry := entries[i];
      assert entries[..i + 1][..i] == entries[..i];
      assert CanonicalMap(entries[..i + 1], ignoreBlank) == AddEntry(normalized, entry, ignoreBlank);
      TrimsAwayExactly(entry.domain);
      if ignoreBlank && Trim(entry.domain) == [] {
        continue;
      }
      var domain := CanonicalDomain(entry.domain);
      if domain.Err? {
        CanonicalMapErrSticks(entries, i + 1, ignoreBlank);
        return Err(domain.error);
      }
      if domain.value in Domains(normalized) {
        CanonicalMapErrSticks(entries, i + 1, ignoreBlank);
        return Err(AmbiguousDomain(domain.value));
      }
      normalized := normalized + [Proof(domain.value, entry.value)];
    }
    assert entries[..|entries|] == entries;
    return Ok(normalized);
  }

  /** The raw entry spells the canonical one. */
  predicate Spells<V(==)>(raw: Proof<V>, entry: Proof<V>) {
    CanonicalDomain(raw.domain) == Ok(entry.domain) && raw.value == entry.value
  }

  function CanonicalEntry<V>(entry: Proof<V>, ignoreBlank: bool): seq<Proof<V>> {
    if ignoreBlank && Blank(entry.domain) then []
    else
      match CanonicalDomain(entry.domain)
      case Ok(domain) => [Proof(domain, entry.value)]
      case Err(_) => []
  }

  function CanonicalEntries<V>(entries: seq<Proof<V>>, ignoreBlank: bool): seq<Proof<V>> {
    Select(entries, (entry: Proof<V>) => CanonicalEntry(entry, ignoreBlank))
  }

  predicate AllHostnames<V>(entries: seq<Proof<V>>, ignoreBlank: bool) {
    forall i :: 0 <= i < |entries| ==>
      (ignoreBlank && Blank(entries[i].domain)) || CanonicalDomain(entries[i].domain).Ok?
  }

  predicate DistinctEntries<V>(entries: seq<Proof<V>>) {
    DistinctBy(entries, (entry: Proof<V>) => entry.domain)
  }

  lemma DomainListed<V>(entries: seq<Proof<V>>, domain: string)
    ensures domain in Domains(entries) <==> exists i :: 0 <= i < |entries| && entries[i].domain == domain
  {
    if i :| 0 <= i < |entries| && entries[i].domain == domain {
      assert Domains(entries)[i] == domain;
    }
  }

  lemma AllHostnamesStep<V>(front: seq<Proof<V>>, last: Proof<V>, ignoreBlank: bool)
    ensures AllHostnames(front + [last], ignoreBlank) <==>
            && AllHostnames(front, ignoreBlank)
            && ((ignoreBlank && Blank(last.domain)) || CanonicalDomain(last.domain).Ok?)
  {
    var all := front + [last];
    assert forall i :: 0 <= i < |front| ==> all[i] == front[i];
    assert all[|front|] == last;
  }

  /**
   * A map is accepted exactly when every key that is not skipped is a hostname and no two of them spell
   * the same one; its entries are then the canonical ones, in order.
   */
  lemma {:induction false} CanonicalMapExactly<V>(entries: seq<Proof<V>>, ignoreBlank: bool)
    ensures CanonicalMap(entries, ignoreBlank).Ok? <==>
            AllHostnames(entries, ignoreBlank) && DistinctEntries(CanonicalEntries(entries, ignoreBlank))
    ensures CanonicalMap(entries, ignoreBlank).Ok? ==>
              CanonicalMap(entries, ignoreBlank).value == CanonicalEntries(entries, ignoreBlank)
    decreases |entries|
  {
    if entries != [] {
      var front, last := entries[..|entries| - 1], entries[|entries| - 1];
      CanonicalMapExactly(front, ignoreBlank);
      assert entries == front + [last];
      AllHostnamesStep(front, last, ignoreBlank);
      var (before, more) := (CanonicalEntries(front, ignoreBlank), CanonicalEntry(last, ignoreBlank));
      assert CanonicalEntries(entries, ignoreBlank) == before + more;
      if more != [] {
        DomainListed(before, more[0].domain);
        DistinctAppend(before, more[0], (entry: Proof<V>) => entry.domain);
      } else {
        assert before + more == before;
      }
    }
  }

  lemma CanonicalMapAppend<V>(entries: seq<Proof<V>>, entry: Proof<V>)
    requires IsCanonicalMap(entries)
    requires IsCanonicalDomain(entry.domain) && entry.domain !in Domains(entries)
    ensures IsCanonicalMap(entries + [entry])
  {
    forall i | 0 <= i < |entries| ensures entries[i].domain != entry.domain {
      assert Domains(entries)[i] == entries[i].domain;
    }
  }

  lemma AddEntryCanonical<V>(entries: seq<Proof<V>>, entry: Proof<V>, ignoreBlank: bool)
    requires IsCanonicalMap(entries)
    ensures AddEntry(entries, entry, ignoreBlank).Ok? ==>
              IsCanonicalMap(AddEntry(entries, entry, ignoreBlank).value)
  {
    if AddEntry(entries, entry, ignoreBlank).Ok? && !Skipped(entry.domain, ignoreBlank) {
      CanonicalDomainIdempotent(entry.domain);
      CanonicalMapAppend(entries, Proof(CanonicalDomain(entry.domain).value, entry.value));
    }
  }

  /** An accepted map is canonical: its keys are canonical and no two collide. */
  lemma {:induction false} CanonicalMapIsCanonical<V>(entries: seq<Proof<V>>, ignoreBlank: bool)
    requires CanonicalMap(entries, ignoreBlank).Ok?
    ensures IsCanonicalMap(CanonicalMap(entries, ignoreBlank).value)
    decreases |entries|
  {
    if entries != [] {
      var front := entries[..|entries| - 1];
      CanonicalMapIsCanonical(front, ignoreBlank);
      AddEntryCanonical(CanonicalMap(front, ignoreBlank).value, entries[|entries| - 1], ignoreBlank);
    }
  }

  lemma AddCanonicalEntry<V>(entries: seq<Proof<V>>, entry: Proof<V>, ignoreBlank: bool)
    requires IsCanonicalDomain(entry.domain)
    requires forall i :: 0 <= i < |entries| ==> entries[i].domain != entry.domain
    ensures AddEntry(entries, entry, ignoreBlank) == Ok(entries + [entry])
  {
  }

  lemma CanonicalMapStep<V>(front: seq<Proof<V>>, last: Proof<V>, ignoreBlank: bool)
    requires CanonicalMap(front, ignoreBlank) == Ok(front)
    ensures CanonicalMap(front + [last], ignoreBlank) == AddEntry(front, last, ignoreBlank)
  {
    assert (front + [last])[..|front|] == front;
  }

  lemma CanonicalMapSplits<V>(front: seq<Proof<V>>, last: Proof<V>)
    requires IsCanonicalMap(front + [last])
    ensures IsCanonicalMap(front) && IsCanonicalDomain(last.domain)
    ensures forall i :: 0 <= i < |front| ==> front[i].domain != last.domain
  {
    var entries := front + [last];
    assert entries[|front|] == last;
    assert forall i :: 0 <= i < |front| ==> entries[i] == front[i];
  }

  /** Canonicalising a canonical map is the identity, with or without blank filtering. */
  lemma {:induction false} CanonicalMapFixed<V>(entries: seq<Proof<V>>, ignoreBlank: bool)
    requires IsCanonicalMap(entries)
    ensures CanonicalMap(entries, ignoreBlank) == Ok(entries)
    decreases |entries|
  {
    if entries != [] {
      var front, last := entries[..|entries| - 1], entries[|entries| - 1];
      assert entries == front + [last];
      CanonicalMapSplits(front, last);
      CanonicalMapFixed(front, ignoreBlank);
      CanonicalMapExtends(front, last, ignoreBlank);
    }
  }

  lemma CanonicalMapExtends<V>(front: seq<Proof<V>>, last: Proof<V>, ignoreBlank: bool)
    requires CanonicalMap(front, ignoreBlank) == Ok(front) && IsCanonicalMap(front + [last])
    ensures CanonicalMap(front + [last], ignoreBlank) == Ok(front + [last])
  {
    CanonicalMapSplits(front, last);
    AddCanonicalEntry(front, last, ignoreBlank);
    CanonicalMapStep(front, last, ignoreBlank);
  }

  /** Canonicalising a map twice is canonicalising it once. */
  lemma CanonicalMapIdempotent<V>(entries: seq<Proof<V>>, first: bool, second: bool)
    requires CanonicalMap(entries, first).Ok?
    ensures CanonicalMap(CanonicalMap(entries, first).value, second) == CanonicalMap(entries, first)
  {
    CanonicalMapIsCanonical(entries, first);
    CanonicalMapFixed(CanonicalMap(entries, first).value, second);
  }

  // ----- Subdomains -----

  predicate IsSameOrSubdomain(candidate: string, verified: string) {
    candidate == verified || EndsWith(candidate, "." + verified)
  }

  /** A host is under a verified domain exactly when the domain's labels end the host's. */
  lemma SubdomainIsLabelExact(candidate: string, verified: string)
    ensures IsSameOrSubdomain(candidate, verified) <==> IsSuffix(Split(verified, '.'), Split(candidate, '.'))
  {
    PartsSuffix(candidate, verified, '.');
  }

  lemma SuffixTransitive<T>(a: seq<T>, b: seq<T>, c: seq<T>)
    requires IsSuffix(a, b) && IsSuffix(b, c)
    ensures IsSuffix(a, c)
  {
    assert c[|c| - |a|..] == c[|c| - |b|..][|b| - |a|..];
  }

  /** Being the same host or a subdomain is a partial order. */
  lemma SubdomainIsPartialOrder(a: string, b: string, c: string)
    ensures IsSameOrSubdomain(a, a)
    ensures IsSameOrSubdomain(a, b) && IsSameOrSubdomain(b, a) ==> a == b
    ensures IsSameOrSubdomain(a, b) && IsSameOrSubdomain(b, c) ==> IsSameOrSubdomain(a, c)
  {
    if IsSameOrSubdomain(a, b) && IsSameOrSubdomain(b, c) {
      SubdomainIsLabelExact(a, b);
      SubdomainIsLabelExact(b, c);
      SubdomainIsLabelExact(a, c);
      SuffixTransitive(Split(c, '.'), Split(b, '.'), Split(a, '.'));
    }
  }
}

/**
 * What the verified-domain canonicalisation accepts, and as what, in terms of the characters of the raw text.
 */
module DomainSpelling {
  import opened Wrappers
  import opened Text
  import opened VerifiedDomains

  /** A label of a host name: at most 63 lower-case letters, digits and hyphens, no hyphen at either end. */
  predicate HostLabel(part: string) {
    && 1 <= |part| <= 63 && part[0] != '-' && part[|part| - 1] != '-'
    && forall i :: 0 <= i < |part| ==> 'a' <= part[i] <= 'z' || '0' <= part[i] <= '9' || part[i] == '-'
  }

  /** A host name of at most 253 characters. */
  predicate HostName(host: string) {
    |host| <= 253 && forall p :: 0 <= p < |Split(host, '.')| ==> HostLabel(Split(host, '.')[p])
  }

  /** The text is the host in any mix of cases, possibly with one final dot. */
  predicate SpelledAs(text: string, host: string) {
    && (|text| == |host| || (|text| == |host| + 1 && text[|host|] == '.'))
    && forall i :: 0 <= i < |host| ==>
         host[i] as int == if 'A' <= text[i] <= 'Z' then text[i] as int + 32 else text[i] as int
  }

  /** White space, a spelling of the host, white space. */
  ghost predicate Names(raw: string, host: string) {
    exists before, text, after ::
      raw == before + text + after && Blank(before) && Blank(after) && SpelledAs(text, host)
  }

  lemma {:induction false} LowerParts(s: string)
    requires IsLower(s)
    ensures forall p :: 0 <= p < |Split(s, '.')| ==> IsLower(Split(s, '.')[p])
  {
    if s != [] {
      LowerParts(s[1..]);
    }
  }

  lemma HostNameExactly(host: string)
    ensures HostName(host) <==> ValidHostname(host) && IsLower(host)
  {
    if HostName(host) {
      assert ValidHostname(host);
      forall i | 0 <= i < |host| ensures !('A' <= host[i] <= 'Z') {
        if host[i] != '.' {
          CharOfParts(host, '.', i);
          var p, k :| 0 <= p < |Split(host, '.')| && 0 <= k < |Split(host, '.')[p]| && Split(host, '.')[p][k] == host[i];
          assert HostLabel(Split(host, '.')[p]);
        }
      }
    }
    if ValidHostname(host) && IsLower(host) {
      LowerParts(host);
      forall p | 0 <= p < |Split(host, '.')| ensures HostLabel(Split(host, '.')[p]) {
        assert ValidLabel(Split(host, '.')[p]) && IsLower(Split(host, '.')[p]);
      }
    }
  }

  /** Nothing in a spelling of a host name is white space, a slash or a colon. */
  lemma SpellingChars(text: string, host: string)
    requires HostName(host) && SpelledAs(text, host)
    ensures text != [] && Trimmed(text) && HostnameText(text)
  {
    HostNameExactly(host);
    HostnameEnd(host);
    forall i | 0 <= i < |text| ensures text[i] != '/' && text[i] != ':' && !IsSpace(text[i]) {
      if i < |host| {
        HostnameChars(host, i);
      }
    }
  }

  lemma SpellingLowers(text: string, host: string)
    requires SpelledAs(text, host)
    ensures Lower(text) == if |text| == |host| then host else host + "."
  {
  }

  /** The final dot, when there is one, is what the canonical form drops. */
  lemma SpellingIsCanonicalised(text: string, host: string)
    requires HostName(host) && SpelledAs(text, host)
    ensures CanonicalDomain(text) == Ok(host)
  {
    HostNameExactly(host);
    CanonicalDomainsAreHostnames(host);
    HostnameEnd(host);
    SpellingChars(text, host);
    SpellingLowers(text, host);
    TrimIsTrimmed(text);
    TrimIsTrimmed(host);
    assert (host + ".")[..|host|] == host;
    assert CanonicalHost(text) == CanonicalHost(host);
  }

  lemma CanonicalSpells(raw: string)
    requires CanonicalDomain(raw).Ok?
    ensures SpelledAs(Trim(raw), CanonicalDomain(raw).value)
  {
    TrimIsTrimmed(raw);
  }

  /**
   * A raw domain canonicalises to a host exactly when the host is a lower-case host name and the raw text is
   * a spelling of it in any mix of cases, with or without a final dot, between white space.
   */
  lemma CanonicalDomainExactly(raw: string, host: string)
    ensures CanonicalDomain(raw) == Ok(host) <==> HostName(host) && Names(raw, host)
  {
    TrimIsTrimmed(raw);
    if CanonicalDomain(raw) == Ok(host) {
      CanonicalDomainIdempotent(raw);
      CanonicalDomainsAreHostnames(host);
      HostNameExactly(host);
      var before, after := TrimParts(raw);
      CanonicalSpells(raw);
      assert SpelledAs(Trim(raw), host);
    }
    if HostName(host) && Names(raw, host) {
      var before, text, after :|
        raw == before + text + after && Blank(before) && Blank(after) && SpelledAs(text, host);
      SpellingChars(text, host);
      TrimOfPadded(before, text, after);
      SpellingIsCanonicalised(text, host);
      assert CanonicalDomain(raw) == CanonicalDomain(text) by {
        TrimIsTrimmed(text);
      }
    }
  }
}

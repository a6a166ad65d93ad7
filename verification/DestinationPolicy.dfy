/**
 * The issuer's destination policy: rules tried in order, the first that approves or
 * cannot be read decides, and otherwise the first objection of a rule for the host is reported.
 */
module DestinationPolicy {
  import opened Wrappers
  import opened Text
  import opened PathResolution
  import opened VerifiedDomains
  import opened NarrowedVerifier

  /** A canonical destination: `queryKeys` are the decoded keys of its query, first occurrences in order. */
  datatype Destination = Destination(scheme: string, host: string, port: Option<int>, path: string, queryKeys: seq<string>)

  /**
   * One entry of `approved_destinations`. `expectedFinalHost` is present when the rule names an
   * expected final URL, and holds that URL's host if it has one.
   */
  datatype Rule =
    | NotAnObject
    | Rule(
        expectedFinalHost: Option<Option<string>>,
        allowSubdomains: bool,
        allowedHosts: seq<string>,
        allowedSchemes: seq<string>,
        allowedPorts: seq<int>,
        pathPrefixes: seq<string>,
        queryForbidden: bool,
        allowedQueryKeys: seq<string>)

  datatype Objection = SchemeNotApproved | PortNotApproved | PathOutside | QueryNotApproved | QueryKeyOutside

  /** What one rule says: nothing, yes, an objection, or that it cannot be canonicalised. */
  datatype Judgement = Silent | Approves | Objects(objection: Objection) | Unreadable

  // ----- One rule -----

  /** One entry of a list that is read in order until an entry matches or cannot be read. */
  datatype Entry = Skipped | Matches | Misses | Broken

  function HostEntry(host: string, allowed: string, allowSubdomains: bool): Entry {
    if Trim(allowed) == "" then Skipped
    else
      match CanonicalDomain(allowed)
      case Err(_) => Broken
      case Ok(domain) => if DomainCovers(host, domain, allowSubdomains) then Matches else Misses
  }

  function PrefixEntry(path: string, prefix: string): Entry {
    if Trim(prefix) == "" then Skipped
    else
      match RulePrefix(prefix)
      case Err(_) => Broken
      case Ok(canonical) => if PathMatchesPrefix(path, canonical) then Matches else Misses
  }

  /** Whether some entry matches; an unreadable one before it is an error. */
  function AnyMatches(entries: seq<Entry>): Result<bool, ()> {
    if entries == [] then Ok(false)
    else
      match entries[0]
      case Broken => Err(())
      case Matches => Ok(true)
      case _ => AnyMatches(entries[1..])
  }

  function HostEntries(host: string, allowed: seq<string>, allowSubdomains: bool): (entries: seq<Entry>)
    ensures |entries| == |allowed|
  {
    seq(|allowed|, i requires 0 <= i < |allowed| => HostEntry(host, allowed[i], allowSubdomains))
  }

  function PrefixEntries(path: string, prefixes: seq<string>): (entries: seq<Entry>)
    ensures |entries| == |prefixes|
  {
    seq(|prefixes|, i requires 0 <= i < |prefixes| => PrefixEntry(path, prefixes[i]))
  }

  function AnyHostAllows(host: string, allowed: seq<string>, allowSubdomains: bool): Result<bool, ()> {
    AnyMatches(HostEntries(host, allowed, allowSubdomains))
  }

  function AnyPrefixCovers(path: string, prefixes: seq<string>): Result<bool, ()> {
    AnyMatches(PrefixEntries(path, prefixes))
  }

  /** `_string_list`: the entries that are not blank. */
  function NonBlank(entries: seq<string>): seq<string> {
    if entries == [] then []
    else (if Trim(entries[0]) == "" then [] else [entries[0]]) + NonBlank(entries[1..])
  }

  function SchemesOf(rule: Rule): seq<string>
    requires rule.Rule?
  {
    if NonBlank(rule.allowedSchemes) == [] then ["https"] else NonBlank(rule.allowedSchemes)
  }

  predicate PortApproved(destination: Destination, rule: Rule)
    requires rule.Rule?
  {
    destination.port.Some? ==> destination.port.value in rule.allowedPorts
  }

  predicate QueryKeysApproved(destination: Destination, rule: Rule)
    requires rule.Rule?
  {
    NonBlank(rule.allowedQueryKeys) == []
    || forall i :: 0 <= i < |destination.queryKeys| ==>
         Split(destination.queryKeys[i], '=')[0] in NonBlank(rule.allowedQueryKeys)
  }

  function HostJudgement(host: string, rule: Rule): Result<bool, ()>
    requires rule.Rule?
  {
    match rule.expectedFinalHost
    case Some(None) => Ok(false)
    case Some(Some(expected)) =>
      (match CanonicalDomain(expected)
       case Err(_) => Err(())
       case Ok(domain) => Ok(host == domain))
    case None => AnyHostAllows(host, rule.allowedHosts, rule.allowSubdomains)
  }

  function Judge(destination: Destination, host: string, rule: Rule): Judgement {
    if rule.NotAnObject? then Silent
    else
      match HostJudgement(host, rule)
      case Err(_) => Unreadable
      case Ok(false) => Silent
      case Ok(true) =>
        if destination.scheme !in SchemesOf(rule) then Objects(SchemeNotApproved)
        else if !PortApproved(destination, rule) then Objects(PortNotApproved)
        else if NonBlank(rule.pathPrefixes) != [] && AnyPrefixCovers(destination.path, rule.pathPrefixes).Err? then Unreadable
        else if NonBlank(rule.pathPrefixes) != [] && !AnyPrefixCovers(destination.path, rule.pathPrefixes).value then
          Objects(PathOutside)
        else if rule.queryForbidden && destination.queryKeys != [] then Objects(QueryNotApproved)
        else if !QueryKeysApproved(destination, rule) then Objects(QueryKeyOutside)
        else Approves
  }

  // ----- The rules in order -----

  datatype RulesVerdict = NoRule | Approved | InvalidPolicy | Outside(objection: Objection)

  function Settle(judgements: seq<Judgement>, first: Option<Objection>): RulesVerdict {
    if judgements == [] then (if first.None? then NoRule else Outside(first.value))
    else
      match judgements[0]
      case Silent => Settle(judgements[1..], first)
      case Approves => Approved
      case Unreadable => InvalidPolicy
      case Objects(objection) => Settle(judgements[1..], if first.None? then Some(objection) else first)
  }

  function Judgements(destination: Destination, host: string, rules: seq<Rule>): seq<Judgement> {
    seq(|rules|, i requires 0 <= i < |rules| => Judge(destination, host, rules[i]))
  }

  function JudgeRules(destination: Destination, host: string, rules: seq<Rule>): RulesVerdict {
    Settle(Judgements(destination, host, rules), None)
  }

  /** The loop over the rules, with its two running variables. */
  method MatchRules(destination: Destination, host: string, rules: seq<Rule>) returns (verdict: RulesVerdict)
    ensures verdict == JudgeRules(destination, host, rules)
  {
    ghost var all := Judgements(destination, host, rules);
    var firstReason: Option<Objection> := None;
    var foundMatchingRule := false;
    for i := 0 to |rules|
      invariant foundMatchingRule <==> firstReason.Some?
      invariant Settle(all, None) == Settle(all[i..], firstReason)
    {
      assert all[i..][1..] == all[i + 1..];
      var judgement := Judge(destination, host, rules[i]);
      assert judgement == all[i];
      if judgement.Silent? {
        continue;
      }
      if judgement.Unreadable? {
        return InvalidPolicy;
      }
      foundMatchingRule := true;
      if judgement.Approves? {
        return Approved;
      }
      if firstReason.None? {
        firstReason := Some(judgement.objection);
      }
    }
    return if !foundMatchingRule then NoRule else Outside(firstReason.value);
  }

  predicate Decides(judgement: Judgement) {
    judgement.Approves? || judgement.Unreadable?
  }

  /** Entry `i` is the first that ends the scan. */
  predicate DecidedAt(judgements: seq<Judgement>, i: int) {
    0 <= i < |judgements| && Decides(judgements[i]) && forall k :: 0 <= k < i ==> !Decides(judgements[k])
  }

  predicate FirstObjectionAt(judgements: seq<Judgement>, i: int) {
    0 <= i < |judgements| && judgements[i].Objects? && forall k :: 0 <= k < i ==> !judgements[k].Objects?
  }

  /** The first deciding judgement settles the scan. */
  lemma {:induction false} FirstDeciderSettles(judgements: seq<Judgement>, first: Option<Objection>, i: int)
    requires DecidedAt(judgements, i)
    ensures Settle(judgements, first) == if judgements[i].Approves? then Approved else InvalidPolicy
    decreases |judgements|
  {
    if i > 0 {
      var next := if judgements[0].Objects? && first.None? then Some(judgements[0].objection) else first;
      assert !Decides(judgements[0]);
      assert forall k :: 0 <= k < i - 1 ==> judgements[1..][k] == judgements[k + 1];
      FirstDeciderSettles(judgements[1..], next, i - 1);
    }
  }

  /** Without a decider the earlier objection stands, or the first one met, or nothing. */
  lemma {:induction false} FirstObjectionSettles(judgements: seq<Judgement>, first: Option<Objection>)
    requires forall k :: 0 <= k < |judgements| ==> !Decides(judgements[k])
    ensures first.Some? ==> Settle(judgements, first) == Outside(first.value)
    ensures first.None? && (forall k :: 0 <= k < |judgements| ==> judgements[k].Silent?) ==> Settle(judgements, first) == NoRule
    ensures forall i :: first.None? && FirstObjectionAt(judgements, i) ==>
              Settle(judgements, first) == Outside(judgements[i].objection)
    decreases |judgements|
  {
    if judgements != [] {
      var rest := judgements[1..];
      assert forall k :: 0 <= k < |rest| ==> rest[k] == judgements[k + 1];
      assert !Decides(judgements[0]);
      FirstObjectionSettles(rest, if judgements[0].Objects? && first.None? then Some(judgements[0].objection) else first);
      forall i | first.None? && FirstObjectionAt(judgements, i)
        ensures Settle(judgements, first) == Outside(judgements[i].objection)
      {
        if i > 0 {
          assert !judgements[0].Objects?;
          assert FirstObjectionAt(rest, i - 1);
        }
      }
    }
  }

  lemma {:induction false} SomeDeciderOrNone(judgements: seq<Judgement>)
    ensures (exists i :: DecidedAt(judgements, i)) || forall k :: 0 <= k < |judgements| ==> !Decides(judgements[k])
    decreases |judgements|
  {
    if judgements != [] {
      var init := judgements[..|judgements| - 1];
      SomeDeciderOrNone(init);
      if i :| DecidedAt(init, i) {
        assert DecidedAt(judgements, i);
      } else if Decides(judgements[|judgements| - 1]) {
        assert DecidedAt(judgements, |judgements| - 1);
      }
    }
  }

  /**
   * The policy approves exactly when some rule approves and every rule before it can be read, and is
   * invalid exactly when some rule cannot be read and no rule before it approves.
   */
  lemma PolicyAnswersExactly(destination: Destination, host: string, rules: seq<Rule>)
    ensures var js := Judgements(destination, host, rules);
            var verdict := JudgeRules(destination, host, rules);
            && (verdict == Approved <==> exists i :: DecidedAt(js, i) && js[i].Approves?)
            && (verdict == InvalidPolicy <==> exists i :: DecidedAt(js, i) && js[i].Unreadable?)
            && (verdict == NoRule <==> forall k :: 0 <= k < |js| ==> js[k].Silent?)
            && (verdict.Outside? ==> forall i :: FirstObjectionAt(js, i) ==> js[i].objection == verdict.objection)
  {
    var js := Judgements(destination, host, rules);
    SomeDeciderOrNone(js);
    if i :| DecidedAt(js, i) {
      FirstDeciderSettles(js, None, i);
      assert forall k :: DecidedAt(js, k) ==> k == i;
    } else {
      FirstObjectionSettles(js, None);
      if k :| 0 <= k < |js| && !js[k].Silent? {
        FirstObjectionExists(js, k);
      }
    }
  }

  lemma {:induction false} FirstObjectionExists(judgements: seq<Judgement>, k: int)
    requires 0 <= k < |judgements| && judgements[k].Objects?
    ensures exists i :: FirstObjectionAt(judgements, i)
    decreases k
  {
    if j :| 0 <= j < k && judgements[j].Objects? {
      FirstObjectionExists(judgements, j);
    } else {
      assert FirstObjectionAt(judgements, k);
    }
  }

  /** While every rule can be read, approval is one rule's approval, so order and repetition do not matter. */
  lemma ReadableRulesApproveTogether(destination: Destination, host: string, rules: seq<Rule>)
    requires forall i :: 0 <= i < |rules| ==> !Judge(destination, host, rules[i]).Unreadable?
    ensures JudgeRules(destination, host, rules) == Approved <==>
            exists rule :: rule in rules && Judge(destination, host, rule).Approves?
  {
    var js := Judgements(destination, host, rules);
    PolicyAnswersExactly(destination, host, rules);
    SomeDeciderOrNone(js);
    if i :| DecidedAt(js, i) {
      assert js[i] == Judge(destination, host, rules[i]) && rules[i] in rules;
    } else if rule :| rule in rules && Judge(destination, host, rule).Approves? {
      var k :| 0 <= k < |rules| && rules[k] == rule;
      assert Decides(js[k]);
    }
  }

  // ----- What approval guarantees -----

  /** Some entry matches, and no entry before it is broken. */
  predicate MatchedAt(entries: seq<Entry>, i: int) {
    0 <= i < |entries| && entries[i].Matches? && forall k :: 0 <= k < i ==> !entries[k].Broken?
  }

  /** Some entry is broken, and no entry before it matches. */
  predicate BrokenAt(entries: seq<Entry>, i: int) {
    0 <= i < |entries| && entries[i].Broken? && forall k :: 0 <= k < i ==> !entries[k].Matches?
  }

  lemma {:induction false} MatchExactly(entries: seq<Entry>)
    ensures AnyMatches(entries) == Ok(true) <==> exists i :: MatchedAt(entries, i)
    ensures AnyMatches(entries).Err? <==> exists i :: BrokenAt(entries, i)
    decreases |entries|
  {
    if entries != [] {
      var rest := entries[1..];
      MatchExactly(rest);
      assert forall k :: 0 <= k < |rest| ==> rest[k] == entries[k + 1];
      if entries[0].Matches? {
        assert MatchedAt(entries, 0);
      } else if entries[0].Broken? {
        assert BrokenAt(entries, 0);
      } else {
        forall i ensures MatchedAt(rest, i) <==> MatchedAt(entries, i + 1) {
        }
        forall i ensures BrokenAt(rest, i) <==> BrokenAt(entries, i + 1) {
        }
        if i :| MatchedAt(entries, i) {
          assert MatchedAt(rest, i - 1);
        }
        if i :| BrokenAt(entries, i) {
          assert BrokenAt(rest, i - 1);
        }
      }
    }
  }

  // ----- The host a rule speaks about -----

  /** The listed host is this one, or one above it where subdomains are allowed. */
  predicate HostListed(host: string, listed: string, allowSubdomains: bool) {
    && Trim(listed) != "" && CanonicalDomain(listed).Ok?
    && var domain := CanonicalDomain(listed).value;
       UnderDomain(host, domain, allowSubdomains)
  }

  predicate HostUnreadable(listed: string) {
    Trim(listed) != "" && CanonicalDomain(listed).Err?
  }

  /** Entry `i` of the list names the host, and none before it is unreadable. */
  predicate HostListedAt(host: string, allowed: seq<string>, allowSubdomains: bool, i: int) {
    && 0 <= i < |allowed| && HostListed(host, allowed[i], allowSubdomains)
    && forall k :: 0 <= k < i ==> !HostUnreadable(allowed[k])
  }

  /** Entry `i` of the list is unreadable, and none before it names the host. */
  predicate HostUnreadableAt(host: string, allowed: seq<string>, allowSubdomains: bool, i: int) {
    && 0 <= i < |allowed| && HostUnreadable(allowed[i])
    && forall k :: 0 <= k < i ==> !HostListed(host, allowed[k], allowSubdomains)
  }

  /**
   * The rule names the host: as the host of its expected final URL, if it has such a URL, and otherwise
   * in its list, where nothing before it is unreadable.
   */
  ghost predicate NamesHost(host: string, rule: Rule)
    requires rule.Rule?
  {
    match rule.expectedFinalHost
    case Some(None) => false
    case Some(Some(expected)) => CanonicalDomain(expected) == Ok(host)
    case None => exists i :: HostListedAt(host, rule.allowedHosts, rule.allowSubdomains, i)
  }

  /** The rule's host cannot be read, or an unreadable one comes before any that names this host. */
  ghost predicate HostsBroken(host: string, rule: Rule)
    requires rule.Rule?
  {
    match rule.expectedFinalHost
    case Some(None) => false
    case Some(Some(expected)) => CanonicalDomain(expected).Err?
    case None => exists i :: HostUnreadableAt(host, rule.allowedHosts, rule.allowSubdomains, i)
  }

  lemma HostEntryMeans(host: string, listed: string, allowSubdomains: bool)
    ensures HostEntry(host, listed, allowSubdomains).Matches? <==> HostListed(host, listed, allowSubdomains)
    ensures HostEntry(host, listed, allowSubdomains).Broken? <==> HostUnreadable(listed)
  {
    if CanonicalDomain(listed).Ok? {
      CoversExactly(host, CanonicalDomain(listed).value, allowSubdomains);
    }
  }

  lemma HostEntryAt(host: string, allowed: seq<string>, allowSubdomains: bool, i: int)
    ensures MatchedAt(HostEntries(host, allowed, allowSubdomains), i) <==> HostListedAt(host, allowed, allowSubdomains, i)
    ensures BrokenAt(HostEntries(host, allowed, allowSubdomains), i) <==> HostUnreadableAt(host, allowed, allowSubdomains, i)
  {
    forall k | 0 <= k < |allowed|
      ensures HostEntries(host, allowed, allowSubdomains)[k].Matches? <==> HostListed(host, allowed[k], allowSubdomains)
      ensures HostEntries(host, allowed, allowSubdomains)[k].Broken? <==> HostUnreadable(allowed[k])
    {
      HostEntryMeans(host, allowed[k], allowSubdomains);
    }
  }

  lemma HostListExactly(host: string, allowed: seq<string>, allowSubdomains: bool)
    ensures AnyHostAllows(host, allowed, allowSubdomains) == Ok(true) <==>
            exists i :: HostListedAt(host, allowed, allowSubdomains, i)
    ensures AnyHostAllows(host, allowed, allowSubdomains).Err? <==>
            exists i :: HostUnreadableAt(host, allowed, allowSubdomains, i)
  {
    MatchExactly(HostEntries(host, allowed, allowSubdomains));
    forall i
      ensures MatchedAt(HostEntries(host, allowed, allowSubdomains), i) <==> HostListedAt(host, allowed, allowSubdomains, i)
      ensures BrokenAt(HostEntries(host, allowed, allowSubdomains), i) <==> HostUnreadableAt(host, allowed, allowSubdomains, i)
    {
      HostEntryAt(host, allowed, allowSubdomains, i);
    }
  }

  lemma HostJudgedExactly(host: string, rule: Rule)
    requires rule.Rule?
    ensures HostJudgement(host, rule) == Ok(true) <==> NamesHost(host, rule)
    ensures HostJudgement(host, rule).Err? <==> HostsBroken(host, rule)
  {
    HostListExactly(host, rule.allowedHosts, rule.allowSubdomains);
  }

  // ----- The paths a rule covers -----

  /** The path lies segment by segment under the prefix. */
  predicate UnderPrefix(path: string, prefix: string) {
    && Trim(prefix) != "" && RulePrefix(prefix).Ok?
    && Segments(RulePrefix(prefix).value) <= Segments(path)
  }

  predicate PrefixUnreadable(prefix: string) {
    Trim(prefix) != "" && RulePrefix(prefix).Err?
  }

  predicate UnderPrefixAt(path: string, prefixes: seq<string>, i: int) {
    && 0 <= i < |prefixes| && UnderPrefix(path, prefixes[i])
    && forall k :: 0 <= k < i ==> !PrefixUnreadable(prefixes[k])
  }

  predicate PrefixUnreadableAt(path: string, prefixes: seq<string>, i: int) {
    && 0 <= i < |prefixes| && PrefixUnreadable(prefixes[i])
    && forall k :: 0 <= k < i ==> !UnderPrefix(path, prefixes[k])
  }

  /** Some listed prefix begins the path, segment by segment, and none before it is unreadable. */
  ghost predicate UnderAPrefix(path: string, prefixes: seq<string>) {
    exists i :: UnderPrefixAt(path, prefixes, i)
  }

  ghost predicate PrefixesBroken(path: string, prefixes: seq<string>) {
    exists i :: PrefixUnreadableAt(path, prefixes, i)
  }

  lemma PrefixEntryMeans(path: string, prefix: string)
    requires IsCanonicalPath(path)
    ensures PrefixEntry(path, prefix).Matches? <==> UnderPrefix(path, prefix)
    ensures PrefixEntry(path, prefix).Broken? <==> PrefixUnreadable(prefix)
  {
    if RulePrefix(prefix).Ok? {
      var candidate := Trim(prefix);
      CanonicalPathIsCanonical(if "/" <= candidate then candidate else "/" + candidate);
      PrefixMatchIsSegmentExact(path, RulePrefix(prefix).value);
    }
  }

  lemma PrefixEntryAt(path: string, prefixes: seq<string>, i: int)
    requires IsCanonicalPath(path)
    ensures MatchedAt(PrefixEntries(path, prefixes), i) <==> UnderPrefixAt(path, prefixes, i)
    ensures BrokenAt(PrefixEntries(path, prefixes), i) <==> PrefixUnreadableAt(path, prefixes, i)
  {
    forall k | 0 <= k < |prefixes|
      ensures PrefixEntries(path, prefixes)[k].Matches? <==> UnderPrefix(path, prefixes[k])
      ensures PrefixEntries(path, prefixes)[k].Broken? <==> PrefixUnreadable(prefixes[k])
    {
      PrefixEntryMeans(path, prefixes[k]);
    }
  }

  /** A prefix list covers the path exactly when some prefix's segments begin the path's and none before it is unreadable. */
  lemma CoveredExactly(path: string, prefixes: seq<string>)
    requires IsCanonicalPath(path)
    ensures AnyPrefixCovers(path, prefixes) == Ok(true) <==> UnderAPrefix(path, prefixes)
    ensures AnyPrefixCovers(path, prefixes).Err? <==> PrefixesBroken(path, prefixes)
  {
    MatchExactly(PrefixEntries(path, prefixes));
    forall i
      ensures MatchedAt(PrefixEntries(path, prefixes), i) <==> UnderPrefixAt(path, prefixes, i)
      ensures BrokenAt(PrefixEntries(path, prefixes), i) <==> PrefixUnreadableAt(path, prefixes, i)
    {
      PrefixEntryAt(path, prefixes, i);
    }
  }

  // ----- Schemes, ports and query keys -----

  /** Some entry of the list is not blank. */
  predicate SomeListed(entries: seq<string>) {
    exists i :: 0 <= i < |entries| && Trim(entries[i]) != ""
  }

  /** The text is an entry of the list, and not blank. */
  predicate IsListed(text: string, entries: seq<string>) {
    text in entries && Trim(text) != ""
  }

  /** The listed schemes, or https when there are none. */
  predicate SchemeAllowed(scheme: string, rule: Rule)
    requires rule.Rule?
  {
    if SomeListed(rule.allowedSchemes) then IsListed(scheme, rule.allowedSchemes) else scheme == "https"
  }

  /** A destination on its scheme's own port, or on a listed one. */
  predicate PortAllowed(port: Option<int>, rule: Rule)
    requires rule.Rule?
  {
    port.None? || port.value in rule.allowedPorts
  }

  ghost predicate PathAllowed(path: string, rule: Rule)
    requires rule.Rule?
  {
    SomeListed(rule.pathPrefixes) ==> UnderAPrefix(path, rule.pathPrefixes)
  }

  /** What comes before the first '=' of the key, or all of it, is listed. */
  predicate KeyNamed(key: string, names: seq<string>) {
    exists n :: && 0 <= n <= |key| && (n == |key| || key[n] == '=') && !Contains(key[..n], '=')
                && IsListed(key[..n], names)
  }

  predicate QueryAllowed(queryKeys: seq<string>, rule: Rule)
    requires rule.Rule?
  {
    && (rule.queryForbidden ==> queryKeys == [])
    && (SomeListed(rule.allowedQueryKeys) ==>
          forall i :: 0 <= i < |queryKeys| ==> KeyNamed(queryKeys[i], rule.allowedQueryKeys))
  }

  lemma {:induction false} NonBlankMembers(entries: seq<string>, text: string)
    ensures text in NonBlank(entries) <==> IsListed(text, entries)
  {
    if entries != [] {
      NonBlankMembers(entries[1..], text);
      assert entries == [entries[0]] + entries[1..];
    }
  }

  lemma {:induction false} NonBlankEmpty(entries: seq<string>)
    ensures NonBlank(entries) == [] <==> !SomeListed(entries)
  {
    if entries != [] {
      NonBlankEmpty(entries[1..]);
      assert forall i :: 0 <= i < |entries| - 1 ==> entries[1..][i] == entries[i + 1];
      if i :| 0 <= i < |entries| && Trim(entries[i]) != "" {
        if i > 0 {
          assert Trim(entries[1..][i - 1]) != "";
        }
      }
    }
  }

  lemma FirstOfTwo(name: string, rest: string)
    requires !Contains(name, '=')
    ensures Split(name + ['='] + rest, '=')[0] == name
  {
    SplitWhole(name, '=');
    SplitConcat(name, rest, '=');
    assert Split(name, '=') == [name];
  }

  lemma FirstPart(key: string, n: nat)
    requires n <= |key| && (n == |key| || key[n] == '=') && !Contains(key[..n], '=')
    ensures Split(key, '=')[0] == key[..n]
  {
    var name := key[..n];
    if n < |key| {
      var rest := key[n + 1..];
      assert key == name + ['='] + rest;
      FirstOfTwo(name, rest);
    } else {
      assert name == key;
      SplitWhole(key, '=');
    }
  }

  lemma {:induction false} FirstSeparator(key: string, from: nat) returns (n: nat)
    requires from <= |key| && !Contains(key[..from], '=')
    ensures n <= |key| && (n == |key| || key[n] == '=') && !Contains(key[..n], '=')
    decreases |key| - from
  {
    if from == |key| || key[from] == '=' {
      n := from;
    } else {
      assert key[..from + 1] == key[..from] + [key[from]];
      n := FirstSeparator(key, from + 1);
    }
  }

  lemma KeyNamedExactly(key: string, names: seq<string>)
    ensures Split(key, '=')[0] in NonBlank(names) <==> KeyNamed(key, names)
  {
    var n := FirstSeparator(key, 0);
    FirstPart(key, n);
    NonBlankMembers(names, key[..n]);
    if m :| && 0 <= m <= |key| && (m == |key| || key[m] == '=') && !Contains(key[..m], '=') && IsListed(key[..m], names) {
      FirstPart(key, m);
    }
  }

  lemma SchemeExactly(destination: Destination, rule: Rule)
    requires rule.Rule?
    ensures destination.scheme in SchemesOf(rule) <==> SchemeAllowed(destination.scheme, rule)
  {
    NonBlankEmpty(rule.allowedSchemes);
    NonBlankMembers(rule.allowedSchemes, destination.scheme);
  }

  lemma QueryKeysExactly(destination: Destination, rule: Rule)
    requires rule.Rule?
    ensures (rule.queryForbidden ==> destination.queryKeys == []) && QueryKeysApproved(destination, rule) <==>
            QueryAllowed(destination.queryKeys, rule)
  {
    NonBlankEmpty(rule.allowedQueryKeys);
    forall i | 0 <= i < |destination.queryKeys|
      ensures Split(destination.queryKeys[i], '=')[0] in NonBlank(rule.allowedQueryKeys) <==>
              KeyNamed(destination.queryKeys[i], rule.allowedQueryKeys)
    {
      KeyNamedExactly(destination.queryKeys[i], rule.allowedQueryKeys);
    }
  }

  // ----- One rule, in terms of its fields -----

  /** The rule names the host and contains the destination, field by field. */
  ghost predicate RuleContains(destination: Destination, host: string, rule: Rule) {
    && rule.Rule? && NamesHost(host, rule)
    && SchemeAllowed(destination.scheme, rule) && PortAllowed(destination.port, rule)
    && PathAllowed(destination.path, rule) && QueryAllowed(destination.queryKeys, rule)
  }

  /** The rule has nothing to say about the host: no object at all, or readable and not naming it. */
  ghost predicate SaysNothing(host: string, rule: Rule) {
    rule.Rule? ==> !NamesHost(host, rule) && !HostsBroken(host, rule)
  }

  /** The rule cannot be read as far as it is needed. */
  ghost predicate RuleBroken(destination: Destination, host: string, rule: Rule) {
    && rule.Rule?
    && (HostsBroken(host, rule)
        || (NamesHost(host, rule) && SchemeAllowed(destination.scheme, rule) && PortAllowed(destination.port, rule)
            && SomeListed(rule.pathPrefixes) && PrefixesBroken(destination.path, rule.pathPrefixes)))
  }

  /** What a rule says, and the first thing it objects to, in terms of its fields alone. */
  lemma JudgedExactly(destination: Destination, host: string, rule: Rule)
    requires IsCanonicalPath(destination.path)
    ensures var j := Judge(destination, host, rule);
            && (j.Silent? <==> SaysNothing(host, rule))
            && (j.Approves? <==> RuleContains(destination, host, rule))
            && (j.Unreadable? <==> RuleBroken(destination, host, rule))
            && (j == Objects(SchemeNotApproved) <==>
                  rule.Rule? && NamesHost(host, rule) && !SchemeAllowed(destination.scheme, rule))
            && (j == Objects(PortNotApproved) <==>
                  && rule.Rule? && NamesHost(host, rule) && SchemeAllowed(destination.scheme, rule)
                  && !PortAllowed(destination.port, rule))
            && (j == Objects(PathOutside) <==>
                  && rule.Rule? && NamesHost(host, rule) && SchemeAllowed(destination.scheme, rule)
                  && PortAllowed(destination.port, rule) && !PathAllowed(destination.path, rule)
                  && !PrefixesBroken(destination.path, rule.pathPrefixes))
  {
    if rule.Rule? {
      HostJudgedExactly(host, rule);
      SchemeExactly(destination, rule);
      CoveredExactly(destination.path, rule.pathPrefixes);
      NonBlankEmpty(rule.pathPrefixes);
      QueryKeysExactly(destination, rule);
    }
  }

  lemma ApprovalContains(destination: Destination, host: string, rule: Rule)
    requires IsCanonicalPath(destination.path) && Judge(destination, host, rule).Approves?
    ensures RuleContains(destination, host, rule)
  {
    JudgedExactly(destination, host, rule);
  }

  /** The converse. */
  lemma ContainedIsApproved(destination: Destination, host: string, rule: Rule)
    requires IsCanonicalPath(destination.path) && RuleContains(destination, host, rule)
    ensures Judge(destination, host, rule).Approves?
  {
    JudgedExactly(destination, host, rule);
  }

  /** An approving policy has a rule that contains the destination, under approved path segments. */
  lemma ApprovalIsContained(destination: Destination, host: string, rules: seq<Rule>)
    requires IsCanonicalPath(destination.path) && JudgeRules(destination, host, rules) == Approved
    ensures exists i :: 0 <= i < |rules| && RuleContains(destination, host, rules[i])
  {
    var js := Judgements(destination, host, rules);
    PolicyAnswersExactly(destination, host, rules);
    var i :| DecidedAt(js, i) && js[i].Approves?;
    ApprovalContains(destination, host, rules[i]);
  }

  // ----- The policy document -----

  /** `None` for a resolver URL is an entry that is not an absolute HTTP URL. */
  datatype PolicyLoad = Absent | InvalidDocument | Document(resolverUrls: seq<Option<string>>, rules: seq<Rule>)

  /** The payload as the policy sees it: its URL without the query, and its canonical form if it has one. */
  datatype Payload = Payload(urlWithoutQuery: Option<string>, canonical: Option<Destination>)

  /**
   * The decision the verified-domain matcher consults. Rules are matched against the canonical domain of the
   * canonical destination's host; where it has none, the error names a normalization failure.
   */
  function PolicyDecisionFor(load: PolicyLoad, payload: Payload): Option<PolicyDecision> {
    match load
    case InvalidDocument => Some(PolicyDecision(false, None, "policy-invalid"))
    case Absent => None
    case Document(resolverUrls, rules) =>
      if payload.canonical.None? then Some(PolicyDecision(false, None, "normalization-failure"))
      else if payload.urlWithoutQuery.Some? && payload.urlWithoutQuery in resolverUrls then
        Some(PolicyDecision(true, None, ""))
      else
        match CanonicalDomain(payload.canonical.value.host)
        case Err(_) => Some(PolicyDecision(false, None, "normalization-failure"))
        case Ok(host) =>
          match JudgeRules(payload.canonical.value, host, rules)
          case NoRule => None
          case Approved => Some(PolicyDecision(true, Some(host), ""))
          case InvalidPolicy => Some(PolicyDecision(false, None, "policy-invalid"))
          case Outside(_) => Some(PolicyDecision(false, None, "destination-not-authorized"))
  }

  /**
   * The presentation and the policy's payload come from one URL: its canonical destination, when there is
   * one, has the canonical form of the extracted host and a canonical path.
   */
  predicate SamePayload(p: Presentation, payload: Payload) {
    payload.canonical.Some? ==>
      && p.rawHost.Some? && CanonicalHost(p.rawHost.value) == Ok(payload.canonical.value.host)
      && IsCanonicalPath(payload.canonical.value.path)
  }

  lemma DomainOfHost(rawHost: string)
    requires CanonicalDomain(rawHost).Ok?
    ensures CanonicalHost(rawHost) == CanonicalDomain(rawHost)
  {
    TrimIsTrimmed(rawHost);
  }

  /** The host the rules are matched against is the one the verified domain has to cover. */
  lemma PolicyHostIsMatchedHost(p: Presentation, payload: Payload)
    requires SamePayload(p, payload) && payload.canonical.Some? && HostOf(p).Some?
    ensures payload.canonical.value.host == HostOf(p).value
    ensures CanonicalDomain(payload.canonical.value.host) == Ok(HostOf(p).value)
  {
    DomainOfHost(p.rawHost.value);
    CanonicalDomainIdempotent(p.rawHost.value);
  }

  /** Rule `i` contains the destination, and no rule before it does or cannot be read. */
  ghost predicate FirstContaining(destination: Destination, host: string, rules: seq<Rule>, i: int) {
    && 0 <= i < |rules| && RuleContains(destination, host, rules[i])
    && forall k :: 0 <= k < i ==> !RuleContains(destination, host, rules[k]) && !RuleBroken(destination, host, rules[k])
  }

  /** Rule `i` cannot be read, and no rule before it contains the destination or cannot be read. */
  ghost predicate FirstBroken(destination: Destination, host: string, rules: seq<Rule>, i: int) {
    && 0 <= i < |rules| && RuleBroken(destination, host, rules[i])
    && forall k :: 0 <= k < i ==> !RuleContains(destination, host, rules[k]) && !RuleBroken(destination, host, rules[k])
  }

  lemma DecidedAtExactly(destination: Destination, host: string, rules: seq<Rule>, i: int)
    requires IsCanonicalPath(destination.path)
    ensures var js := Judgements(destination, host, rules);
            && (DecidedAt(js, i) && js[i].Approves? <==> FirstContaining(destination, host, rules, i))
            && (DecidedAt(js, i) && js[i].Unreadable? <==> FirstBroken(destination, host, rules, i))
  {
    var js := Judgements(destination, host, rules);
    forall k | 0 <= k < |rules|
      ensures js[k].Approves? <==> RuleContains(destination, host, rules[k])
      ensures js[k].Unreadable? <==> RuleBroken(destination, host, rules[k])
      ensures !(js[k].Approves? && js[k].Unreadable?)
    {
      JudgedExactly(destination, host, rules[k]);
    }
  }

  /** The verdict of the rules in order, in terms of their fields alone. */
  lemma RulesDecideExactly(destination: Destination, host: string, rules: seq<Rule>)
    requires IsCanonicalPath(destination.path)
    ensures var v := JudgeRules(destination, host, rules);
            && (v == Approved <==> exists i :: FirstContaining(destination, host, rules, i))
            && (v == InvalidPolicy <==> exists i :: FirstBroken(destination, host, rules, i))
            && (v == NoRule <==> forall i :: 0 <= i < |rules| ==> SaysNothing(host, rules[i]))
  {
    var js := Judgements(destination, host, rules);
    PolicyAnswersExactly(destination, host, rules);
    forall i
      ensures DecidedAt(js, i) && js[i].Approves? <==> FirstContaining(destination, host, rules, i)
      ensures DecidedAt(js, i) && js[i].Unreadable? <==> FirstBroken(destination, host, rules, i)
    {
      DecidedAtExactly(destination, host, rules, i);
    }
    forall i | 0 <= i < |rules| ensures js[i].Silent? <==> SaysNothing(host, rules[i]) {
      JudgedExactly(destination, host, rules[i]);
    }
  }

  predicate ToResolver(load: PolicyLoad, payload: Payload)
    requires load.Document?
  {
    payload.urlWithoutQuery.Some? && payload.urlWithoutQuery in load.resolverUrls
  }

  lemma DecisionOfVerdict(load: PolicyLoad, payload: Payload, host: string)
    requires load.Document? && payload.canonical.Some? && CanonicalDomain(payload.canonical.value.host) == Ok(host)
    ensures PolicyDecisionFor(load, payload) ==
            if ToResolver(load, payload) then Some(PolicyDecision(true, None, ""))
            else
              match JudgeRules(payload.canonical.value, host, load.rules)
              case NoRule => None
              case Approved => Some(PolicyDecision(true, Some(host), ""))
              case InvalidPolicy => Some(PolicyDecision(false, None, "policy-invalid"))
              case Outside(_) => Some(PolicyDecision(false, None, "destination-not-authorized"))
  {
  }

  /** Without a readable document, or a destination with a canonical form, no rule is asked. */
  lemma DecidedWithoutRules(load: PolicyLoad, payload: Payload)
    ensures var d := PolicyDecisionFor(load, payload);
            && (load.Absent? ==> d == None)
            && (load.InvalidDocument? ==> d.Some? && !d.value.allowed && d.value.cause == "policy-invalid")
            && (load.Document? && payload.canonical.None? ==>
                  d.Some? && !d.value.allowed && d.value.cause == "normalization-failure")
  {
  }

  /**
   * The decision under a document: an approval exactly for a resolver, or when some rule contains the destination
   * and none before it is unreadable; invalid exactly when an unreadable rule comes first; silent exactly when no
   * rule speaks about the host; and otherwise the destination is not authorized.
   */
  lemma PolicyDecidesExactly(load: PolicyLoad, payload: Payload, host: string)
    requires load.Document? && payload.canonical.Some? && IsCanonicalPath(payload.canonical.value.path)
    requires CanonicalDomain(payload.canonical.value.host) == Ok(host)
    ensures var (d, destination, rules) := (PolicyDecisionFor(load, payload), payload.canonical.value, load.rules);
            var resolver := ToResolver(load, payload);
            && (d.Some? && d.value.allowed <==> resolver || exists i :: FirstContaining(destination, host, rules, i))
            && (d.Some? && !d.value.allowed && d.value.cause == "policy-invalid" <==>
                  !resolver && exists i :: FirstBroken(destination, host, rules, i))
            && (d == None <==> !resolver && forall i :: 0 <= i < |rules| ==> SaysNothing(host, rules[i]))
            && (d.Some? && !d.value.allowed && d.value.cause != "policy-invalid" ==>
                  d.value.cause == "destination-not-authorized")
            && (d.Some? && d.value.allowed ==> d.value.matchedDomain == if resolver then None else Some(host))
  {
    RulesDecideExactly(payload.canonical.value, host, load.rules);
    DecisionOfVerdict(load, payload, host);
  }

  /** A decision that does not refuse has one of three grounds. */
  lemma PolicyGrounds(load: PolicyLoad, payload: Payload, host: string)
    requires load.Document? && payload.canonical.Some? && IsCanonicalPath(payload.canonical.value.path)
    requires CanonicalDomain(payload.canonical.value.host) == Ok(host)
    requires PolicyDecisionFor(load, payload).Some? ==> PolicyDecisionFor(load, payload).value.allowed
    ensures var destination := payload.canonical.value;
            || (payload.urlWithoutQuery.Some? && payload.urlWithoutQuery in load.resolverUrls)
            || (forall i :: 0 <= i < |load.rules| ==> SaysNothing(host, load.rules[i]))
            || (exists i :: 0 <= i < |load.rules| && RuleContains(destination, host, load.rules[i]))
  {
    var destination := payload.canonical.value;
    PolicyAnswersExactly(destination, host, load.rules);
    if JudgeRules(destination, host, load.rules) == NoRule {
      forall i | 0 <= i < |load.rules| ensures SaysNothing(host, load.rules[i]) {
        assert Judgements(destination, host, load.rules)[i].Silent?;
        JudgedExactly(destination, host, load.rules[i]);
      }
    } else if JudgeRules(destination, host, load.rules) == Approved {
      ApprovalIsContained(destination, host, load.rules);
    }
  }

  /**
   * An artifact accepted under a policy leads to a host one of the issuer's verified domains covers, and
   * under that same host to an approved resolver, to nothing any rule speaks about, or to a destination
   * contained in one of the rules; an unreadable document accepts nothing.
   */
  lemma AcceptedDestinationIsContained(
    p: Presentation, trust: TrustContext, now: int, load: PolicyLoad, payload: Payload)
    requires p.policy == PolicyDecisionFor(load, payload) && SamePayload(p, payload)
    requires VerifyPresentedCode(p, trust, now).Accepted?
    ensures !load.InvalidDocument?
    ensures HostOf(p).Some? && DeciderProof(p, trust).Some?
            && UnderDomain(HostOf(p).value, DeciderProof(p, trust).value.domain, trust.issuer.allowSubdomains)
    ensures UnderDomain(HostOf(p).value, VerifyPresentedCode(p, trust, now).domain, trust.issuer.allowSubdomains)
    ensures load.Document? ==>
              && payload.canonical.Some? && payload.canonical.value.host == HostOf(p).value
              && var (destination, host) := (payload.canonical.value, HostOf(p).value);
                 || (payload.urlWithoutQuery.Some? && payload.urlWithoutQuery in load.resolverUrls)
                 || (forall i :: 0 <= i < |load.rules| ==> SaysNothing(host, load.rules[i]))
                 || (exists i :: 0 <= i < |load.rules| && RuleContains(destination, host, load.rules[i]))
  {
    AcceptedExactly(p, trust, now);
    DeciderCovers(p, trust);
    AcceptedDomainCoversHost(p, trust, now, load, payload);
    if load.Document? && payload.canonical.Some? {
      PolicyHostIsMatchedHost(p, payload);
      PolicyGrounds(load, payload, HostOf(p).value);
    }
  }

  /** The domain reported covers the host: a policy reports none but the host itself. */
  lemma AcceptedDomainCoversHost(p: Presentation, trust: TrustContext, now: int, load: PolicyLoad, payload: Payload)
    requires p.policy == PolicyDecisionFor(load, payload) && SamePayload(p, payload)
    requires VerifyPresentedCode(p, trust, now).Accepted?
    ensures HostOf(p).Some?
    ensures UnderDomain(HostOf(p).value, VerifyPresentedCode(p, trust, now).domain, trust.issuer.allowSubdomains)
  {
    AcceptedDomainExactly(p, trust, now);
    DeciderCovers(p, trust);
    if p.policy.Some? && p.policy.value.matchedDomain.Some? {
      PolicyHostIsMatchedHost(p, payload);
      MatchedDomainIsHost(load, payload);
    }
  }

  lemma MatchedDomainIsHost(load: PolicyLoad, payload: Payload)
    requires var d := PolicyDecisionFor(load, payload); d.Some? && d.value.matchedDomain.Some?
    ensures payload.canonical.Some?
    ensures CanonicalDomain(payload.canonical.value.host) == Ok(PolicyDecisionFor(load, payload).value.matchedDomain.value)
  {
  }

  lemma DeciderCovers(p: Presentation, trust: TrustContext)
    requires DeciderProof(p, trust).Some?
    ensures HostOf(p).Some?
    ensures UnderDomain(HostOf(p).value, DeciderProof(p, trust).value.domain, trust.issuer.allowSubdomains)
  {
    CoversExactly(HostOf(p).value, DeciderProof(p, trust).value.domain, trust.issuer.allowSubdomains);
    FirstCoverIsEarliest(
      HostOf(p).value, CanonicalMap(trust.issuer.verifiedDomains, true).value, trust.issuer.allowSubdomains);
  }
}

/**
 * Server-owned lifecycle tables for certificates and trust keys, and the maps that
 * translate durable statuses into the scanner's vocabulary.
 */
module TrustTransitions {
  import opened Wrappers

  type TransitionTable = map<string, set<string>>

  const CERTIFICATE_TRANSITIONS: TransitionTable := map[
    "active" := {"rotated", "suspended", "revoked", "expired"},
    "rotated" := {"suspended", "revoked", "expired"},
    "suspended" := {"active", "rotated", "revoked", "expired"},
    "revoked" := {},
    "expired" := {"revoked"}
  ]

  const TRUST_KEY_TRANSITIONS: TransitionTable := map[
    "active" := {"suspended", "revoked", "expired"},
    "suspended" := {"active", "revoked", "expired"},
    "revoked" := {},
    "expired" := {"revoked"}
  ]

  const KEY_PROJECTION: map<string, string> := map[
    "active" := "active",
    "rotated" := "retired",
    "expired" := "retired",
    "suspended" := "suspended",
    "revoked" := "revoked"
  ]

  const ISSUER_PROJECTION: map<string, string> := map[
    "active" := "active",
    "suspended" := "suspended",
    "revoked" := "revoked",
    "expired" := "expired"
  ]

  datatype TransitionCheck = Noop | Disallowed | Terminal | Allowed

  function CheckTransition(table: TransitionTable, current: string, requested: string): TransitionCheck {
    if requested == current then Noop
    else if current !in table then Disallowed
    else if table[current] == {} then Terminal
    else if requested !in table[current] then Disallowed
    else Allowed
  }

  /** The status after a request: only an allowed transition changes it. */
  function StatusAfter(table: TransitionTable, current: string, requested: string): string {
    if CheckTransition(table, current, requested).Allowed? then requested else current
  }

  function StatusAfterAll(table: TransitionTable, current: string, requests: seq<string>): string
    decreases |requests|
  {
    if requests == [] then current
    else StatusAfterAll(table, StatusAfter(table, current, requests[0]), requests[1..])
  }

  /**
   * Between known statuses every change is allowed but these: a revoked key changes no more, an expired one is
   * only revoked, and only a suspended one becomes active.
   */
  predicate MayMove(statuses: set<string>, current: string, requested: string) {
    && current in statuses && requested in statuses && current != requested && current != "revoked"
    && (current == "expired" ==> requested == "revoked") && (requested == "active" ==> current == "suspended")
  }

  /** The certificates' table is that rule over its five statuses. */
  lemma CertificateRule(current: string, requested: string)
    ensures var check := CheckTransition(CERTIFICATE_TRANSITIONS, current, requested);
            && (check == Allowed <==> MayMove({"active", "rotated", "suspended", "revoked", "expired"}, current, requested))
            && (check == Noop <==> requested == current)
            && (check == Terminal <==> current == "revoked" && requested != "revoked")
  {
  }

  /** The trust keys' table is the same rule without rotation. */
  lemma TrustKeyRule(current: string, requested: string)
    ensures var check := CheckTransition(TRUST_KEY_TRANSITIONS, current, requested);
            && (check == Allowed <==> MayMove({"active", "suspended", "revoked", "expired"}, current, requested))
            && (check == Noop <==> requested == current)
            && (check == Terminal <==> current == "revoked" && requested != "revoked")
  {
  }

  /** No sequence of requests leads out of a status whose row in the table is empty. */
  lemma {:induction false} TerminalStatusIsForever(table: TransitionTable, current: string, requests: seq<string>)
    requires current in table && table[current] == {}
    ensures StatusAfterAll(table, current, requests) == current
  {
    if requests != [] {
      TerminalStatusIsForever(table, current, requests[1..]);
    }
  }

  predicate Closed(table: TransitionTable) {
    forall s :: s in table ==> table[s] <= table.Keys
  }

  /** Requests never leave the table's vocabulary. */
  lemma {:induction false} StatusesStayInTable(table: TransitionTable, current: string, requests: seq<string>)
    requires Closed(table) && current in table
    ensures StatusAfterAll(table, current, requests) in table
    decreases |requests|
  {
    if requests != [] {
      StatusesStayInTable(table, StatusAfter(table, current, requests[0]), requests[1..]);
    }
  }

  /** Neither table leads outside its own statuses. */
  lemma BothTablesAreClosed()
    ensures Closed(CERTIFICATE_TRANSITIONS) && Closed(TRUST_KEY_TRANSITIONS)
  {
  }

  /** Certificates and trust keys never leave the statuses of their tables. */
  lemma StatusesStayInBothTables(current: string, requests: seq<string>)
    ensures current in CERTIFICATE_TRANSITIONS ==>
              StatusAfterAll(CERTIFICATE_TRANSITIONS, current, requests) in CERTIFICATE_TRANSITIONS
    ensures current in TRUST_KEY_TRANSITIONS ==>
              StatusAfterAll(TRUST_KEY_TRANSITIONS, current, requests) in TRUST_KEY_TRANSITIONS
  {
    BothTablesAreClosed();
    if current in CERTIFICATE_TRANSITIONS {
      StatusesStayInTable(CERTIFICATE_TRANSITIONS, current, requests);
    }
    if current in TRUST_KEY_TRANSITIONS {
      StatusesStayInTable(TRUST_KEY_TRANSITIONS, current, requests);
    }
  }

  /** Revocation is the one status neither table leads out of, and no requests undo it. */
  lemma OnlyRevocationIsTerminal(status: string, requests: seq<string>)
    ensures status in CERTIFICATE_TRANSITIONS ==> (CERTIFICATE_TRANSITIONS[status] == {} <==> status == "revoked")
    ensures status in TRUST_KEY_TRANSITIONS ==> (TRUST_KEY_TRANSITIONS[status] == {} <==> status == "revoked")
    ensures StatusAfterAll(CERTIFICATE_TRANSITIONS, "revoked", requests) == "revoked"
    ensures StatusAfterAll(TRUST_KEY_TRANSITIONS, "revoked", requests) == "revoked"
  {
    TerminalStatusIsForever(CERTIFICATE_TRANSITIONS, "revoked", requests);
    TerminalStatusIsForever(TRUST_KEY_TRANSITIONS, "revoked", requests);
    assert "revoked" in CERTIFICATE_TRANSITIONS["active"] && "revoked" in CERTIFICATE_TRANSITIONS["rotated"];
    assert "revoked" in CERTIFICATE_TRANSITIONS["suspended"] && "revoked" in CERTIFICATE_TRANSITIONS["expired"];
    assert "revoked" in TRUST_KEY_TRANSITIONS["active"] && "revoked" in TRUST_KEY_TRANSITIONS["suspended"];
    assert "revoked" in TRUST_KEY_TRANSITIONS["expired"];
  }

  /** Only revocation follows expiry in a table. */
  predicate ExpiryLeadsToRevocation(table: TransitionTable) {
    && "expired" in table && table["expired"] == {"revoked"}
    && "revoked" in table && table["revoked"] == {}
  }

  lemma {:induction false} ExpiredStaysExpired(table: TransitionTable, requests: seq<string>)
    requires ExpiryLeadsToRevocation(table)
    ensures StatusAfterAll(table, "expired", requests) in {"expired", "revoked"}
  {
    if requests != [] {
      if StatusAfter(table, "expired", requests[0]) == "expired" {
        ExpiredStaysExpired(table, requests[1..]);
      } else {
        TerminalStatusIsForever(table, "revoked", requests[1..]);
      }
    }
  }

  /** Expiry is final up to revocation: no requests make an expired certificate or trust key active again. */
  lemma ExpiredNeverReactivates(requests: seq<string>)
    ensures StatusAfterAll(CERTIFICATE_TRANSITIONS, "expired", requests) in {"expired", "revoked"}
    ensures StatusAfterAll(TRUST_KEY_TRANSITIONS, "expired", requests) in {"expired", "revoked"}
  {
    ExpiredStaysExpired(CERTIFICATE_TRANSITIONS, requests);
    ExpiredStaysExpired(TRUST_KEY_TRANSITIONS, requests);
  }

  /** Revocation is one allowed request away from every other status of a certificate or trust key. */
  lemma RevocationAlwaysAvailable(current: string)
    requires current != "revoked"
    ensures current in CERTIFICATE_TRANSITIONS ==> CheckTransition(CERTIFICATE_TRANSITIONS, current, "revoked") == Allowed
    ensures current in TRUST_KEY_TRANSITIONS ==> CheckTransition(TRUST_KEY_TRANSITIONS, current, "revoked") == Allowed
  {
    assert "revoked" in CERTIFICATE_TRANSITIONS["active"] && "revoked" in TRUST_KEY_TRANSITIONS["active"];
  }
}

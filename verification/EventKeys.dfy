/**
 * Outbox event ids digest `key:action:target type:target id`. Keys and target ids are free
 * text, so two keys can spell one event; which pairs can is decided by the action and target
 * type vocabulary.
 */
module EventKeys {

  /** `a:b` */
  function Colon(a: string, b: string): string {
    a + ":" + b
  }

  lemma ColonAssociates(a: string, b: string, c: string)
    ensures Colon(Colon(a, b), c) == Colon(a, Colon(b, c))
  {
    assert a + ":" + b + ":" + c == a + ":" + (b + ":" + c);
  }

  /** An action and the type of its targets. */
  type Kind = (string, string)

  function EventText(key: string, kind: Kind, targetId: string): string {
    Colon(Colon(Colon(key, kind.0), kind.1), targetId)
  }

  predicate Plain(s: string) {
    forall i :: 0 <= i < |s| ==> s[i] != ':'
  }

  /** Names without ':', no target type named like an action. */
  predicate Separable(kinds: set<Kind>) {
    && (forall k :: k in kinds ==> Plain(k.0) && Plain(k.1))
    && (forall k, l :: k in kinds && l in kinds ==> k.1 != l.0)
  }

  function KindText(kind: Kind): string {
    Colon(kind.0, kind.1)
  }

  /** `longer` continues `shorter` with an action and its target type, and ends there or at a ':'. */
  predicate Reaches(kinds: set<Kind>, shorter: string, longer: string) {
    exists k :: k in kinds && ReachesBy(k, shorter, longer)
  }

  predicate ReachesBy(kind: Kind, shorter: string, longer: string) {
    longer == Colon(shorter, KindText(kind)) || Colon(Colon(shorter, KindText(kind)), "") <= longer
  }

  predicate CanCollide(kinds: set<Kind>, a: string, b: string) {
    a == b || Reaches(kinds, a, b) || Reaches(kinds, b, a)
  }

  // ----- Splitting at a ':' -----

  /** Equal texts under keys of different length: the longer key continues the shorter one. */
  lemma LongerContinues(a: string, r: string, b: string, q: string) returns (x: string)
    requires Colon(a, r) == Colon(b, q) && |a| < |b|
    ensures b == Colon(a, x) && r == Colon(x, q)
  {
    var s := Colon(a, r);
    x := b[|a| + 1..];
    assert s[|a|] == ':' && s[..|a|] == a && s[..|b|] == b;
    assert b == a + ":" + x;
    assert s == Colon(Colon(a, x), q);
    ColonAssociates(a, x, q);
    assert s[|a| + 1..] == r && Colon(a, Colon(x, q))[|a| + 1..] == Colon(x, q);
  }

  lemma SameLengthSplits(a: string, r: string, b: string, q: string)
    requires Colon(a, r) == Colon(b, q) && |a| == |b|
    ensures a == b && r == q
  {
    assert Colon(a, r)[..|a|] == a && Colon(b, q)[..|b|] == b;
    assert Colon(a, r)[|a| + 1..] == r && Colon(b, q)[|b| + 1..] == q;
  }

  lemma PlainIsShortest(a: string, r: string, x: string, q: string)
    requires Plain(a) && Colon(a, r) == Colon(x, q)
    ensures |a| <= |x|
  {
    assert forall i :: 0 <= i < |a| ==> Colon(a, r)[i] == a[i];
    assert Colon(x, q)[|x|] == ':';
  }

  /** A plain first field is the other text's first field, or the other one continues it. */
  lemma PlainField(a: string, r: string, x: string, q: string) returns (y: string)
    requires Plain(a) && Colon(a, r) == Colon(x, q)
    ensures (x == a && r == q) || (x == Colon(a, y) && r == Colon(y, q))
  {
    y := "";
    PlainIsShortest(a, r, x, q);
    if |x| == |a| {
      SameLengthSplits(a, r, x, q);
    } else {
      y := LongerContinues(a, r, x, q);
    }
  }

  lemma PlainIsOneField(a: string, x: string, y: string)
    requires Plain(a)
    ensures a != Colon(x, y)
  {
    assert Colon(x, y)[|x|] == ':';
  }

  lemma EventFields(key: string, kind: Kind, targetId: string)
    ensures EventText(key, kind, targetId) == Colon(key, Colon(kind.0, Colon(kind.1, targetId)))
  {
    ColonAssociates(Colon(key, kind.0), kind.1, targetId);
    ColonAssociates(key, kind.0, Colon(kind.1, targetId));
  }

  // ----- Which keys can share an event -----

  /** Equal events under keys of different length: the longer key spells out the shorter one's action and type. */
  lemma LongerKeyReaches(kinds: set<Kind>, a: string, k: Kind, i: string, b: string, l: Kind, j: string)
    requires Separable(kinds) && k in kinds && l in kinds
    requires EventText(a, k, i) == EventText(b, l, j) && |a| < |b|
    ensures Reaches(kinds, a, b)
  {
    EventFields(a, k, i);
    EventFields(b, l, j);
    var rest := Colon(l.0, Colon(l.1, j));
    var x := LongerContinues(a, Colon(k.0, Colon(k.1, i)), b, rest);
    var y := PlainField(k.0, Colon(k.1, i), x, rest);
    if x == k.0 && Colon(k.1, i) == rest {
      var z := PlainField(k.1, i, l.0, Colon(l.1, j));
      PlainIsOneField(l.0, k.1, z);
      assert false;
    } else {
      var z := PlainField(k.1, i, y, rest);
      assert ReachesBy(k, a, b) by {
        if y != k.1 {
          assert y == Colon(k.1, z);
          ColonAssociates(k.0, k.1, z);
          ColonAssociates(a, KindText(k), z);
          assert b == Colon(Colon(a, KindText(k)), z);
          assert Colon(Colon(a, KindText(k)), "") <= b;
        }
      }
    }
  }

  lemma EqualEventsCollide(kinds: set<Kind>, a: string, k: Kind, i: string, b: string, l: Kind, j: string)
    requires Separable(kinds) && k in kinds && l in kinds && EventText(a, k, i) == EventText(b, l, j)
    ensures CanCollide(kinds, a, b)
  {
    if |a| < |b| {
      LongerKeyReaches(kinds, a, k, i, b, l, j);
    } else if |b| < |a| {
      LongerKeyReaches(kinds, b, l, j, a, k, i);
    } else {
      EventFields(a, k, i);
      EventFields(b, l, j);
      SameLengthSplits(a, Colon(k.0, Colon(k.1, i)), b, Colon(l.0, Colon(l.1, j)));
    }
  }

  /** A key reached from another one shares an event with it, under any kind of its own. */
  lemma ReachedKeysCollide(kinds: set<Kind>, a: string, b: string, l: Kind, j: string) returns (k: Kind, i: string)
    requires Reaches(kinds, a, b) && l in kinds
    ensures k in kinds && EventText(a, k, i) == EventText(b, l, j)
  {
    k :| k in kinds && ReachesBy(k, a, b);
    var (head, rest) := (Colon(a, KindText(k)), Colon(l.0, Colon(l.1, j)));
    EventFields(b, l, j);
    if b == head {
      i := rest;
      ColonAssociates(a, KindText(k), rest);
      ColonAssociates(k.0, k.1, rest);
    } else {
      var z := b[|head| + 1..];
      assert b == Colon(head, z);
      i := Colon(z, rest);
      ColonAssociates(head, z, rest);
      ColonAssociates(a, KindText(k), i);
      ColonAssociates(k.0, k.1, i);
    }
    EventFields(a, k, i);
  }

  ghost predicate ShareAnEvent(kinds: set<Kind>, a: string, b: string) {
    exists k, i, l, j :: k in kinds && l in kinds && EventText(a, k, i) == EventText(b, l, j)
  }

  /**
   * Exactly when two keys can name one event: they are equal, or one continues the other with an action
   * of the vocabulary and its target type.
   */
  lemma KeysCollideExactly(kinds: set<Kind>, a: string, b: string)
    requires Separable(kinds) && kinds != {}
    ensures ShareAnEvent(kinds, a, b) <==> CanCollide(kinds, a, b)
  {
    if ShareAnEvent(kinds, a, b) {
      var k, i, l, j :| k in kinds && l in kinds && EventText(a, k, i) == EventText(b, l, j);
      EqualEventsCollide(kinds, a, k, i, b, l, j);
    }
    if CanCollide(kinds, a, b) {
      var l :| l in kinds;
      if a == b {
        assert EventText(a, l, "") == EventText(b, l, "");
      } else if Reaches(kinds, a, b) {
        var k, i := ReachedKeysCollide(kinds, a, b, l, "");
        assert k in kinds && l in kinds && EventText(a, k, i) == EventText(b, l, "");
      } else {
        var k, i := ReachedKeysCollide(kinds, b, a, l, "");
        assert l in kinds && k in kinds && EventText(a, l, "") == EventText(b, k, i);
      }
    }
  }

  // ----- The vocabulary the mutation builders write -----

  const BUILDER_KINDS: set<Kind> := {
    ("root_program.upsert", "root_program"),
    ("delegated_authority.upsert", "delegated_authority"),
    ("issuer.enroll", "issuer"),
    ("domain_proof.upsert", "domain_proof"),
    ("issuer.status.update", "issuer"),
    ("destination_policy.upsert", "destination_policy"),
    ("destination_policy.status.update", "destination_policy"),
    ("trust_key.upsert", "trust_key"),
    ("issuer_certificate.enrolled", "issuer_certificate"),
    ("issuer_certificate.status.changed", "issuer_certificate"),
    ("trust_key.status.update", "trust_key"),
    ("runtime_provider.upsert", "runtime_safety_provider"),
    ("nats_subscriber.authorize", "nats_subscriber")
  }

  predicate Dotted(s: string) {
    exists i :: 0 <= i < |s| && s[i] == '.'
  }

  /** A dotted action and an undotted type, both without ':'. */
  predicate WellNamed(kind: Kind) {
    Plain(kind.0) && Plain(kind.1) && Dotted(kind.0) && !Dotted(kind.1)
  }

  lemma BuilderNames1()
    ensures WellNamed(("root_program.upsert", "root_program"))
    ensures WellNamed(("delegated_authority.upsert", "delegated_authority"))
    ensures WellNamed(("issuer.enroll", "issuer"))
  {
    assert "root_program.upsert"[12] == '.';
    assert "delegated_authority.upsert"[19] == '.';
    assert "issuer.enroll"[6] == '.';
  }

  lemma BuilderNames2()
    ensures WellNamed(("domain_proof.upsert", "domain_proof"))
    ensures WellNamed(("issuer.status.update", "issuer"))
  {
    assert "domain_proof.upsert"[12] == '.';
    assert "issuer.status.update"[6] == '.';
  }

  lemma BuilderNames3()
    ensures WellNamed(("destination_policy.upsert", "destination_policy"))
    ensures WellNamed(("destination_policy.status.update", "destination_policy"))
    ensures WellNamed(("trust_key.upsert", "trust_key"))
  {
    assert "destination_policy.upsert"[18] == '.';
    assert "destination_policy.status.update"[18] == '.';
    assert "trust_key.upsert"[9] == '.';
  }

  lemma BuilderNames4()
    ensures WellNamed(("issuer_certificate.enrolled", "issuer_certificate"))
    ensures WellNamed(("issuer_certificate.status.changed", "issuer_certificate"))
  {
    assert "issuer_certificate.enrolled"[18] == '.';
    assert "issuer_certificate.status.changed"[18] == '.';
  }

  lemma BuilderNames5()
    ensures WellNamed(("trust_key.status.update", "trust_key"))
    ensures WellNamed(("runtime_provider.upsert", "runtime_safety_provider"))
    ensures WellNamed(("nats_subscriber.authorize", "nats_subscriber"))
  {
    assert "trust_key.status.update"[9] == '.';
    assert "runtime_provider.upsert"[16] == '.';
    assert "nats_subscriber.authorize"[15] == '.';
  }

  lemma BuilderKindsAreWellNamed(kind: Kind)
    requires kind in BUILDER_KINDS
    ensures WellNamed(kind)
  {
    BuilderNames1();
    BuilderNames2();
    BuilderNames3();
    BuilderNames4();
    BuilderNames5();
  }

  /** The builders' vocabulary is separable: actions are dotted, target types are not, and neither contains ':'. */
  lemma BuilderKindsAreSeparable()
    ensures Separable(BUILDER_KINDS) && BUILDER_KINDS != {}
  {
    assert ("issuer.enroll", "issuer") in BUILDER_KINDS;
    forall k | k in BUILDER_KINDS ensures WellNamed(k) {
      BuilderKindsAreWellNamed(k);
    }
  }
}

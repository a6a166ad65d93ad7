/** What two listings of the same rows in different orders have in common. */
module Permutations {

  predicate SameItems<T(==)>(a: seq<T>, b: seq<T>) {
    multiset(a) == multiset(b)
  }

  predicate DistinctBy<T, K(==)>(s: seq<T>, key: T -> K) {
    forall i, j :: 0 <= i < j < |s| ==> key(s[i]) != key(s[j])
  }

  lemma SameMembers<T>(a: seq<T>, b: seq<T>)
    requires SameItems(a, b)
    ensures forall x :: x in a <==> x in b
    ensures |a| == |b|
  {
    assert forall x :: x in a <==> x in multiset(a);
    assert forall x :: x in b <==> x in multiset(b);
    assert |multiset(a)| == |a| && |multiset(b)| == |b|;
  }

  function Without<T>(s: seq<T>, i: nat): seq<T>
    requires i < |s|
  {
    s[..i] + s[i + 1..]
  }

  lemma WithoutItems<T>(s: seq<T>, i: nat)
    requires i < |s|
    ensures multiset(s) == multiset(Without(s, i)) + multiset{s[i]}
  {
    assert s == s[..i] + [s[i]] + s[i + 1..];
  }

  /** The item at `i`, moved to the end. */
  lemma MovedLast<T>(s: seq<T>, i: nat)
    requires i < |s|
    ensures SameItems(Without(s, i) + [s[i]], s)
  {
    WithoutItems(s, i);
  }

  lemma MovedFirst<T>(s: seq<T>, i: nat)
    requires i < |s|
    ensures SameItems([s[i]] + Without(s, i), s)
  {
    WithoutItems(s, i);
  }

  /** Taking the same item out of two listings of the same items leaves the same items. */
  lemma WithoutSame<T>(a: seq<T>, b: seq<T>, i: nat)
    requires SameItems(a, b) && b != [] && i < |a| && a[i] == b[|b| - 1]
    ensures SameItems(Without(a, i), b[..|b| - 1])
  {
    WithoutItems(a, i);
    assert b == b[..|b| - 1] + [b[|b| - 1]];
    assert multiset(b[..|b| - 1]) == multiset(b) - multiset{b[|b| - 1]};
    assert multiset(Without(a, i)) == multiset(a) - multiset{a[i]};
  }

  /** Appending an item keeps keys distinct exactly when its key is new. */
  lemma DistinctAppend<T, K>(s: seq<T>, x: T, key: T -> K)
    ensures DistinctBy(s + [x], key) <==> DistinctBy(s, key) && forall i :: 0 <= i < |s| ==> key(s[i]) != key(x)
  {
    var all := s + [x];
    assert forall i :: 0 <= i < |s| ==> all[i] == s[i];
    assert all[|s|] == x;
    if DistinctBy(all, key) {
      forall i | 0 <= i < |s| ensures key(s[i]) != key(x) {
        assert key(all[i]) != key(all[|s|]);
      }
    }
  }

  lemma WithoutDistinct<T, K>(s: seq<T>, i: nat, key: T -> K)
    requires i < |s| && DistinctBy(s, key)
    ensures DistinctBy(Without(s, i), key)
    ensures forall x :: x in Without(s, i) ==> key(x) != key(s[i])
  {
    var rest := Without(s, i);
    assert forall j :: 0 <= j < |rest| ==> rest[j] == s[if j < i then j else j + 1];
  }

  /** Keys distinct in one order are distinct in every order. */
  lemma {:induction false} DistinctInAnyOrder<T, K>(a: seq<T>, b: seq<T>, key: T -> K)
    requires SameItems(a, b) && DistinctBy(a, key)
    ensures DistinctBy(b, key)
    decreases |b|
  {
    if b != [] {
      var front, last := b[..|b| - 1], b[|b| - 1];
      SameMembers(a, b);
      assert last in b;
      var i :| 0 <= i < |a| && a[i] == last;
      WithoutDistinct(a, i, key);
      WithoutSame(a, b, i);
      DistinctInAnyOrder(Without(a, i), front, key);
      SameMembers(Without(a, i), front);
      DistinctAppend(front, last, key);
      assert b == front + [last];
    }
  }

  function Select<T, U>(s: seq<T>, f: T -> seq<U>): seq<U> {
    if s == [] then [] else Select(s[..|s| - 1], f) + f(s[|s| - 1])
  }

  lemma SelectAppend<T, U>(s: seq<T>, x: T, f: T -> seq<U>)
    ensures Select(s + [x], f) == Select(s, f) + f(x)
  {
    assert (s + [x])[..|s|] == s;
  }

  lemma WithoutEarlier<T>(s: seq<T>, i: nat)
    requires i + 1 < |s|
    ensures Without(s, i) == Without(s[..|s| - 1], i) + [s[|s| - 1]]
  {
  }

  lemma {:induction false} SelectWithout<T, U>(s: seq<T>, f: T -> seq<U>, i: nat)
    requires i < |s|
    ensures multiset(Select(s, f)) == multiset(Select(Without(s, i), f)) + multiset(f(s[i]))
    decreases |s|
  {
    var n := |s| - 1;
    if i == n {
      assert Without(s, i) == s[..n];
    } else {
      SelectWithout(s[..n], f, i);
      WithoutEarlier(s, i);
      SelectAppend(Without(s[..n], i), s[n], f);
    }
  }

  /** Selecting from the same items gives the same items. */
  lemma {:induction false} SelectSameItems<T, U>(a: seq<T>, b: seq<T>, f: T -> seq<U>)
    requires SameItems(a, b)
    ensures SameItems(Select(a, f), Select(b, f))
    decreases |b|
  {
    SameMembers(a, b);
    if b != [] {
      var last := b[|b| - 1];
      assert last in b;
      var i :| 0 <= i < |a| && a[i] == last;
      WithoutSame(a, b, i);
      SelectSameItems(Without(a, i), b[..|b| - 1], f);
      SelectWithout(a, f, i);
    }
  }

  lemma {:induction false} SelectMembers<T(!new), U>(s: seq<T>, f: T -> seq<U>, x: U)
    ensures x in Select(s, f) <==> exists e :: e in s && x in f(e)
    decreases |s|
  {
    if s != [] {
      var front, last := s[..|s| - 1], s[|s| - 1];
      SelectMembers(front, f, x);
      assert s == front + [last];
    }
  }

  /** No two items select under one key, when each selects at most one. */
  predicate SelectedApart<T, U, K(==)>(s: seq<T>, f: T -> seq<U>, key: U -> K) {
    forall i, j :: 0 <= i < j < |s| && f(s[i]) != [] && f(s[j]) != [] ==> key(f(s[i])[0]) != key(f(s[j])[0])
  }

  lemma SelectedApartStep<T, U, K>(front: seq<T>, last: T, f: T -> seq<U>, key: U -> K)
    ensures SelectedApart(front + [last], f, key) <==>
            && SelectedApart(front, f, key)
            && (f(last) != [] ==> forall j :: 0 <= j < |front| && f(front[j]) != [] ==> key(f(front[j])[0]) != key(f(last)[0]))
  {
    var all := front + [last];
    assert all[|front|] == last;
    assert forall i :: 0 <= i < |front| ==> all[i] == front[i];
  }

  /** A key is new to a selection exactly when no item selects under it. */
  lemma KeyIsNew<T(!new), U(!new), K>(s: seq<T>, f: T -> seq<U>, key: U -> K, k: K)
    requires forall e :: e in s ==> |f(e)| <= 1
    ensures (forall i :: 0 <= i < |Select(s, f)| ==> key(Select(s, f)[i]) != k) <==>
            (forall j :: 0 <= j < |s| && f(s[j]) != [] ==> key(f(s[j])[0]) != k)
  {
    var all := Select(s, f);
    forall i | 0 <= i < |all| ensures exists j :: 0 <= j < |s| && f(s[j]) == [all[i]] {
      SelectMembers(s, f, all[i]);
      var e :| e in s && all[i] in f(e);
      assert f(e) == [all[i]];
      var j :| 0 <= j < |s| && s[j] == e;
    }
    forall j | 0 <= j < |s| && f(s[j]) != [] ensures f(s[j])[0] in all {
      SelectMembers(s, f, f(s[j])[0]);
    }
  }

  /** A selection has distinct keys exactly when no two items select under one. */
  lemma {:induction false} SelectDistinct<T(!new), U(!new), K>(s: seq<T>, f: T -> seq<U>, key: U -> K)
    requires forall e :: e in s ==> |f(e)| <= 1
    ensures DistinctBy(Select(s, f), key) <==> SelectedApart(s, f, key)
    decreases |s|
  {
    if s != [] {
      var front, last := s[..|s| - 1], s[|s| - 1];
      assert s == front + [last];
      SelectDistinct(front, f, key);
      SelectedApartStep(front, last, f, key);
      var before := Select(front, f);
      if f(last) == [] {
        assert before + f(last) == before;
      } else {
        assert f(last) == [f(last)[0]];
        DistinctAppend(before, f(last)[0], key);
        KeyIsNew(front, f, key, key(f(last)[0]));
      }
    }
  }

  lemma TakeOut<T>(s: seq<T>, x: T) returns (i: nat)
    requires x in s
    ensures i < |s| && s[i] == x && forall y :: y in s <==> y == x || y in Without(s, i)
  {
    i :| 0 <= i < |s| && s[i] == x;
    var rest := Without(s, i);
    forall y | y in s && y != x ensures y in rest {
      var j :| 0 <= j < |s| && s[j] == y;
      assert rest[if j < i then j else j - 1] == y;
    }
  }

  lemma HasMember<T(!new)>(s: seq<T>)
    requires s != []
    ensures exists x :: x in s
  {
    assert s[0] in s;
  }

  /** Listings with the same members and distinct keys hold the same items. */
  lemma {:induction false} DistinctSameMembers<T(!new), K>(a: seq<T>, b: seq<T>, key: T -> K)
    requires DistinctBy(a, key) && DistinctBy(b, key)
    requires forall x :: x in a <==> x in b
    ensures SameItems(a, b)
    decreases |a|
  {
    if b != [] {
      HasMember(b);
    }
    if a != [] {
      var front, last := a[..|a| - 1], a[|a| - 1];
      assert a == front + [last];
      DistinctAppend(front, last, key);
      var i := TakeOut(b, last);
      var rest := Without(b, i);
      assert forall j :: 0 <= j < |rest| ==> rest[j] == b[if j < i then j else j + 1];
      assert last !in front && last !in rest;
      DistinctSameMembers(front, rest, key);
      WithoutItems(b, i);
    }
  }

  function Flat<U>(parts: seq<seq<U>>): seq<U> {
    Select(parts, (part: seq<U>) => part)
  }

  /** Replacing a one-item part replaces one item. */
  lemma {:induction false} FlatReplaced<U>(parts: seq<seq<U>>, i: nat, y: U) returns (k: nat)
    requires i < |parts| && |parts[i]| == 1
    ensures k < |Flat(parts)| && Flat(parts)[k] == parts[i][0]
    ensures Flat(parts[i := [y]]) == Flat(parts)[k := y]
    decreases |parts|
  {
    var front, last := parts[..|parts| - 1], parts[|parts| - 1];
    if i == |front| {
      k := |Flat(front)|;
      assert parts[i := [y]][..|front|] == front;
    } else {
      k := FlatReplaced(front, i, y);
      assert parts[i := [y]][..|front|] == front[i := [y]];
    }
  }
}

/**
 * When canonicalising a rule prefix again changes it, read off the prefix itself.
 */
module RulePrefixes {
  import opened Wrappers
  import opened Text
  import opened PercentEncoding
  import opened PathResolution

  predicate EndsInSpace(s: string) {
    s != [] && IsSpace(s[|s| - 1])
  }

  /** The segments that dot resolution leaves of a prefix. */
  function SurvivingSegments(prefix: string): seq<string>
    requires Normal(Rooted(prefix)).Ok?
  {
    Resolve([], Split(Normal(Rooted(prefix)).value, '/')[1..])
  }

  /** The last segment that is not empty, or nothing. */
  function LastNonEmpty(segments: seq<string>): string {
    if segments == [] then ""
    else if segments[|segments| - 1] != "" then segments[|segments| - 1]
    else LastNonEmpty(segments[..|segments| - 1])
  }

  // ----- The end of the result is the end of the last segment -----

  lemma {:induction false} StrippedEnd(segments: seq<string>)
    requires SepFree(segments, '/')
    ensures EndsInSpace(WithoutTrailingSlashes("/" + Join(segments, '/'))) <==> EndsInSpace(LastNonEmpty(segments))
    decreases |segments|
  {
    if segments == [] {
      assert "/" + Join(segments, '/') == "/";
    } else {
      var front, last := segments[..|segments| - 1], segments[|segments| - 1];
      BufferIsJoin(segments);
      if last != "" {
        PlainEnd(Buffer(front), last);
      } else if front == [] {
        assert Buffer(segments) == "/";
      } else {
        assert forall i :: 0 <= i < |front| ==> front[i] == segments[i];
        BufferIsJoin(front);
        StrippedEnd(front);
        assert Buffer(segments) == Buffer(front) + "/";
        StripOneSlash(Buffer(front));
      }
    }
  }

  lemma PlainEnd(head: string, last: string)
    requires last != "" && !Contains(last, '/')
    ensures WithoutTrailingSlashes(head + "/" + last) == head + "/" + last
    ensures EndsInSpace(head + "/" + last) <==> EndsInSpace(last)
  {
    var s := head + "/" + last;
    assert s[|s| - 1] == last[|last| - 1];
  }

  /**
   * Canonicalising a rule prefix again changes nothing exactly when the last non-empty segment that
   * survives dot resolution does not end in white space: "/a /" becomes "/a ", whose second trim drops
   * the space.
   */
  lemma RulePrefixStableExactly(prefix: string)
    requires RulePrefix(prefix).Ok?
    ensures RulePrefix(RulePrefix(prefix).value) == RulePrefix(prefix) <==>
            !EndsInSpace(LastNonEmpty(SurvivingSegments(prefix)))
  {
    var raw := Split(Normal(Rooted(prefix)).value, '/')[1..];
    SplitSepFree(Normal(Rooted(prefix)).value, '/');
    assert SepFree(raw, '/');
    ResolveHasNoDots([], raw);
    StrippedEnd(SurvivingSegments(prefix));
    StableByItsEnd(prefix);
  }

  /** Resolution invents no segment. */
  lemma {:induction false} ResolveMembers(stack: seq<string>, segments: seq<string>)
    ensures forall s :: s in Resolve(stack, segments) ==> s in stack || s in segments
    decreases |segments|
  {
    if segments != [] {
      var head, rest := segments[0], segments[1..];
      assert forall s :: s in rest ==> s in segments;
      if head == "." {
        ResolveMembers(stack, rest);
      } else if head == ".." {
        ResolveMembers(if stack == [] then [] else stack[..|stack| - 1], rest);
      } else {
        ResolveMembers(stack + [head], rest);
      }
    }
  }

  // ----- Reading it off a prefix without dot segments -----

  /** Escapes hide neither white space nor '/': the last character keeps both properties. */
  lemma {:induction false} NormalEnd(s: string)
    requires s != [] && Normal(s).Ok?
    ensures var n := Normal(s).value;
            && n != [] && (IsSpace(n[|n| - 1]) <==> IsSpace(s[|s| - 1]))
            && (n[|n| - 1] == '/' <==> s[|s| - 1] == '/')
    decreases |s|
  {
    var n, u, rest := NormalHead(s);
    if rest == [] {
      assert Normal(s).value == RenderUnit(u);
      UnitEnd(s, n, u);
    } else {
      NormalEnd(rest);
    }
  }

  /** The first unit of a component, its length, and what follows. */
  lemma NormalHead(s: string) returns (n: nat, u: Unit, rest: string)
    requires s != [] && Normal(s).Ok?
    ensures 1 <= n <= |s| && rest == s[n..] && n == if s[0] == '%' then 3 else 1
    ensures Meaning(s) == Then(u, Meaning(rest)) && Renderable(u)
    ensures Normal(rest).Ok? && Normal(s).value == RenderUnit(u) + Normal(rest).value
  {
    n, u := FirstUnit(s, []);
    rest := s[n..];
    MeaningRenderable(s);
    MeaningRenderable(rest);
    var us := Meaning(s).value;
    assert us == [u] + Meaning(rest).value;
    assert us[0] == u && us[1..] == Meaning(rest).value;
  }

  /** The unit a component starts with, read off its first characters. */
  lemma FirstUnitIs(s: string, n: nat, u: Unit)
    requires 1 <= n <= |s| && n == (if s[0] == '%' then 3 else 1) && Normal(s).Ok?
    requires Meaning(s) == Then(u, Meaning(s[n..]))
    ensures if s[0] == '%'
            then IsHex(s[1]) && IsHex(s[2]) && 16 * HexValue(s[1]) + HexValue(s[2]) != 0
                 && u == EscapeMeaning(16 * HexValue(s[1]) + HexValue(s[2]))
            else u == Literal(s[0])
  {
    assert Meaning(s).Ok? && Meaning(s).value[0] == u;
  }

  /** What the spelling of one unit has in common with its source. */
  lemma UnitEnd(s: string, n: nat, u: Unit)
    requires 1 <= n <= |s| && n == (if s[0] == '%' then 3 else 1) && Normal(s).Ok? && Renderable(u)
    requires Meaning(s) == Then(u, Meaning(s[n..]))
    ensures var r := RenderUnit(u);
            && r != [] && (IsSpace(r[|r| - 1]) <==> IsSpace(s[n - 1])) && (r[|r| - 1] == '/' <==> s[n - 1] == '/')
            && (r[0] == '/' <==> s[0] == '/')
            && (|r| > 1 ==> forall i :: 0 <= i < |r| ==> !IsSpace(r[i]) && r[i] != '/')
  {
    FirstUnitIs(s, n, u);
    if s[0] == '%' {
      EscapeUnitText(16 * HexValue(s[1]) + HexValue(s[2]));
      HexIsInk(s[2]);
    }
  }

  lemma HexIsInk(c: char)
    requires IsHex(c)
    ensures !IsSpace(c) && c != '/'
  {
  }

  /** An escape means neither white space nor '/', and is spelled with neither. */
  lemma EscapeUnitText(octet: int)
    requires 0 < octet < 256 && Renderable(EscapeMeaning(octet))
    ensures var r := RenderUnit(EscapeMeaning(octet));
            r != [] && forall i :: 0 <= i < |r| ==> !IsSpace(r[i]) && r[i] != '/'
  {
    var u := EscapeMeaning(octet);
    if u.Escaped? {
      HexIsInk(UpperHex(octet / 16));
      HexIsInk(UpperHex(octet % 16));
    }
  }

  lemma SlashIsNormalText()
    ensures Meaning("/") == Ok([Literal('/')]) && Normal("/") == Ok("/")
  {
    SlashIsNormal();
    assert "/"[1..] == [];
    assert "/"[0] == '/' && Meaning([]) == Ok([]);
    assert Meaning("/") == Then(Literal('/'), Meaning([]));
    assert [Literal('/')] + [] == [Literal('/')];
  }

  /** A trailing '/' is a unit of its own. */
  lemma NormalOfSlashed(s: string)
    requires Normal(s + "/").Ok?
    ensures Normal(s).Ok? && Normal(s + "/").value == Normal(s).value + "/"
  {
    NormalFailsExactly(s + "/");
    NormalFailsExactly(s);
    forall i | 0 <= i < |s| && s[i] == '%' ensures EscapeAt(s, i) {
      assert (s + "/")[i] == '%';
      assert EscapeAt(s + "/", i);
    }
    MeaningConcat(s, "/");
    SlashIsNormalText();
    MeaningRenderable(s);
    RenderConcat(Meaning(s).value, [Literal('/')]);
    assert Render([Literal('/')]) == "/" by {
      assert [Literal('/')][1..] == [];
    }
  }

  /** Stripping trailing slashes and normalising keep the end's white space alike. */
  lemma {:induction false} StrippedNormalEnd(s: string)
    requires s != [] && s[0] == '/' && Normal(s).Ok?
    ensures EndsInSpace(WithoutTrailingSlashes(Normal(s).value)) <==> EndsInSpace(WithoutTrailingSlashes(s))
    decreases |s|
  {
    if |s| > 1 && s[|s| - 1] == '/' {
      var front := s[..|s| - 1];
      assert s == front + "/";
      NormalOfSlashed(front);
      StrippedNormalEnd(front);
      NormalEnd(front);
      StripOneSlash(front);
      StripOneSlash(Normal(front).value);
    } else {
      NormalEnd(s);
      if |s| == 1 {
        SlashIsNormalText();
        assert s == "/";
      }
    }
  }

  /**
   * For a prefix without dot segments: stable exactly when the trimmed prefix, its trailing slashes
   * removed, does not end in white space.
   */
  lemma DotFreePrefixStableExactly(prefix: string)
    requires RulePrefix(prefix).Ok? && NoDots(Split(Normal(Rooted(prefix)).value, '/')[1..])
    ensures RulePrefix(RulePrefix(prefix).value) == RulePrefix(prefix) <==>
            !EndsInSpace(WithoutTrailingSlashes(Rooted(prefix)))
  {
    var p := Normal(Rooted(prefix)).value;
    var n, u, rest := NormalHead(Rooted(prefix));
    UnitEnd(Rooted(prefix), n, u);
    DotFreeFixed(p);
    StrippedNormalEnd(Rooted(prefix));
    StableByItsEnd(prefix);
  }

  // ----- A sufficient look at the text -----

  /** No white space at the end or directly before a '/'. */
  predicate Tight(s: string) {
    forall i :: 0 <= i < |s| && IsSpace(s[i]) ==> i + 1 < |s| && s[i + 1] != '/'
  }

  /** White space at `i` of `a` is followed, in `a` or in `b`, by something other than '/'. */
  predicate InkFollows(a: string, b: string, i: nat)
    requires i < |a|
  {
    IsSpace(a[i]) ==> if i + 1 < |a| then a[i + 1] != '/' else b != [] && b[0] != '/'
  }

  lemma TightConcat(a: string, b: string)
    requires Tight(b)
    requires forall i :: 0 <= i < |a| ==> InkFollows(a, b, i)
    ensures Tight(a + b)
  {
    var s := a + b;
    forall i | 0 <= i < |s| && IsSpace(s[i]) ensures i + 1 < |s| && s[i + 1] != '/' {
      if i < |a| {
        assert s[i] == a[i] && InkFollows(a, b, i);
        assert i + 1 < |s| && s[i + 1] == if i + 1 < |a| then a[i + 1] else b[0];
      } else {
        assert s[i] == b[i - |a|];
        assert i + 1 < |s| && s[i + 1] == b[i + 1 - |a|];
      }
    }
  }

  lemma {:induction false} NormalStaysTight(s: string)
    requires Normal(s).Ok? && Tight(s)
    ensures Tight(Normal(s).value)
    decreases |s|
  {
    if s != [] {
      var n, u, rest := NormalHead(s);
      UnitEnd(s, n, u);
      assert forall i :: 0 <= i < |rest| ==> rest[i] == s[n + i];
      NormalStaysTight(rest);
      var head := RenderUnit(u);
      if rest != [] {
        var m, v, more := NormalHead(rest);
        UnitEnd(rest, m, v);
        assert Normal(rest).value[0] == RenderUnit(v)[0] && rest[0] == s[n];
      }
      assert forall i :: 0 <= i < |head| ==> InkFollows(head, Normal(rest).value, i);
      TightConcat(head, Normal(rest).value);
    }
  }

  lemma {:induction false} TightParts(s: string)
    requires Tight(s)
    ensures forall i :: 0 <= i < |Split(s, '/')| ==> !EndsInSpace(Split(s, '/')[i])
    decreases |s|
  {
    if s != [] {
      var rest := s[1..];
      assert forall i :: 0 <= i < |rest| ==> rest[i] == s[i + 1];
      TightParts(rest);
      var parts := Split(rest, '/');
      if s[0] != '/' {
        FirstPartEmpty(rest);
        assert Split(s, '/')[0] == [s[0]] + parts[0];
        assert EndsInSpace([s[0]] + parts[0]) ==> parts[0] == "";
      }
    }
  }

  lemma FirstPartEmpty(s: string)
    ensures Split(s, '/')[0] == "" <==> s == [] || s[0] == '/'
  {
  }

  lemma {:induction false} LastNonEmptyMember(segments: seq<string>)
    ensures LastNonEmpty(segments) == "" || LastNonEmpty(segments) in segments
    decreases |segments|
  {
    if segments != [] {
      LastNonEmptyMember(segments[..|segments| - 1]);
    }
  }

  /** For every prefix: no white space directly before a '/' once trimmed is enough for stability. */
  lemma TightPrefixIsStable(prefix: string)
    requires RulePrefix(prefix).Ok?
    requires var c := Trim(prefix); forall i :: 0 <= i < |c| - 1 && IsSpace(c[i]) ==> c[i + 1] != '/'
    ensures RulePrefix(RulePrefix(prefix).value) == RulePrefix(prefix)
  {
    TrimIsTrimmed(prefix);
    var c, s := Trim(prefix), Rooted(prefix);
    assert Tight(c);
    if !("/" <= c) {
      assert InkFollows("/", c, 0);
      TightConcat("/", c);
    }
    NormalStaysTight(s);
    var parts := Split(Normal(s).value, '/');
    TightParts(Normal(s).value);
    var segments := SurvivingSegments(prefix);
    ResolveMembers([], parts[1..]);
    LastNonEmptyMember(segments);
    RulePrefixStableExactly(prefix);
  }
}

/**
 * Percent-encoding normalisation (sections 2.3 and 6.2.2 of RFC 3986): unreserved
 * octets are decoded, every other escape is written in upper case.
 */
module PercentEncoding {
  import opened Wrappers

  datatype EscapeError = MalformedEscape | NullEscape

  /** One unit of a component's meaning: a literal character or an escaped reserved octet. */
  datatype Unit = Literal(c: char) | Escaped(octet: int)

  predicate IsHex(c: char) {
    '0' <= c <= '9' || 'a' <= c <= 'f' || 'A' <= c <= 'F'
  }

  function HexValue(c: char): (v: int)
    requires IsHex(c)
    ensures 0 <= v < 16
  {
    if c <= '9' then c as int - '0' as int
    else if c <= 'F' then c as int - 'A' as int + 10
    else c as int - 'a' as int + 10
  }

  function UpperHex(v: int): (c: char)
    requires 0 <= v < 16
    ensures IsHex(c) && HexValue(c) == v && !('a' <= c <= 'f')
  {
    if v < 10 then ('0' as int + v) as char else ('A' as int + v - 10) as char
  }

  function Upper(c: char): char
    requires IsHex(c)
  {
    if 'a' <= c then (c as int - 'a' as int + 'A' as int) as char else c
  }

  predicate Unreserved(c: char) {
    || 'A' <= c <= 'Z' || 'a' <= c <= 'z' || '0' <= c <= '9'
    || c == '-' || c == '.' || c == '_' || c == '~'
  }

  /** Is there a well-formed escape of a non-null octet at the head of `s`? */
  predicate EscapeAt(s: string, i: nat)
    requires i < |s|
  {
    i + 2 < |s| && IsHex(s[i + 1]) && IsHex(s[i + 2]) && !(s[i + 1] == '0' && s[i + 2] == '0')
  }

  /** What an escape of `octet` means: itself, or the unreserved character it hides. */
  function EscapeMeaning(octet: int): Unit
    requires 0 < octet < 256
  {
    if Unreserved(octet as char) then Literal(octet as char) else Escaped(octet)
  }

  function Then(u: Unit, rest: Result<seq<Unit>, EscapeError>): Result<seq<Unit>, EscapeError> {
    match rest
    case Ok(us) => Ok([u] + us)
    case Err(e) => Err(e)
  }

  /** The meaning of a component up to RFC 3986 percent-encoding equivalence. */
  function Meaning(s: string): Result<seq<Unit>, EscapeError> {
    if s == [] then Ok([])
    else if s[0] != '%' then Then(Literal(s[0]), Meaning(s[1..]))
    else if |s| < 3 || !IsHex(s[1]) || !IsHex(s[2]) then Err(MalformedEscape)
    else
      var octet := 16 * HexValue(s[1]) + HexValue(s[2]);
      if octet == 0 then Err(NullEscape) else Then(EscapeMeaning(octet), Meaning(s[3..]))
  }

  predicate Renderable(u: Unit) {
    match u
    case Literal(c) => c != '%'
    case Escaped(octet) => 0 < octet < 256 && !Unreserved(octet as char)
  }

  predicate AllRenderable(us: seq<Unit>) {
    forall i :: 0 <= i < |us| ==> Renderable(us[i])
  }

  function RenderUnit(u: Unit): string
    requires Renderable(u)
  {
    match u
    case Literal(c) => [c]
    case Escaped(octet) => ['%', UpperHex(octet / 16), UpperHex(octet % 16)]
  }

  /** The canonical spelling of a meaning. */
  function Render(us: seq<Unit>): string
    requires AllRenderable(us)
  {
    if us == [] then [] else RenderUnit(us[0]) + Render(us[1..])
  }

  lemma {:induction false} RenderAppend(us: seq<Unit>, u: Unit)
    requires AllRenderable(us) && Renderable(u)
    ensures AllRenderable(us + [u])
    ensures Render(us + [u]) == Render(us) + RenderUnit(u)
  {
    if us == [] {
      assert us + [u] == [u];
    } else {
      assert (us + [u])[1..] == us[1..] + [u];
      RenderAppend(us[1..], u);
    }
  }

  lemma {:induction false} MeaningRenderable(s: string)
    ensures Meaning(s).Ok? ==> AllRenderable(Meaning(s).value)
  {
    if s != [] {
      if s[0] != '%' {
        MeaningRenderable(s[1..]);
      } else if |s| >= 3 {
        MeaningRenderable(s[3..]);
      }
    }
  }

  /** The canonical spelling of `s`, when `s` has a meaning. */
  function Normal(s: string): Result<string, EscapeError> {
    MeaningRenderable(s);
    match Meaning(s)
    case Ok(us) => Ok(Render(us))
    case Err(e) => Err(e)
  }

  function PrependUnits(us: seq<Unit>, rest: Result<seq<Unit>, EscapeError>): Result<seq<Unit>, EscapeError> {
    match rest
    case Ok(more) => Ok(us + more)
    case Err(e) => Err(e)
  }

  lemma PrependNothing(rest: Result<seq<Unit>, EscapeError>)
    ensures PrependUnits([], rest) == rest
  {
    if rest.Ok? {
      assert [] + rest.value == rest.value;
    }
  }

  lemma PrependThen(us: seq<Unit>, u: Unit, rest: Result<seq<Unit>, EscapeError>)
    ensures PrependUnits(us, Then(u, rest)) == PrependUnits(us + [u], rest)
  {
    if rest.Ok? {
      assert us + ([u] + rest.value) == (us + [u]) + rest.value;
    }
  }

  lemma LiteralStep(s: string, i: nat)
    requires i < |s| && s[i] != '%'
    ensures Meaning(s[i..]) == Then(Literal(s[i]), Meaning(s[i + 1..]))
  {
    assert s[i..][1..] == s[i + 1..];
  }

  lemma EscapeStep(s: string, i: nat)
    requires i < |s| && s[i] == '%'
    ensures EscapeAt(s, i) ==>
              Meaning(s[i..]) ==
              Then(EscapeMeaning(16 * HexValue(s[i + 1]) + HexValue(s[i + 2])), Meaning(s[i + 3..]))
    ensures !EscapeAt(s, i) ==>
              Meaning(s[i..]) ==
              Err(if i + 2 < |s| && IsHex(s[i + 1]) && IsHex(s[i + 2]) then NullEscape else MalformedEscape)
  {
    if i + 2 < |s| {
      assert s[i..][3..] == s[i + 3..];
    }
  }

  lemma RenderEscape(high: char, low: char)
    requires IsHex(high) && IsHex(low)
    requires 16 * HexValue(high) + HexValue(low) != 0
    ensures var value := 16 * HexValue(high) + HexValue(low);
            && Renderable(EscapeMeaning(value))
            && RenderUnit(EscapeMeaning(value)) ==
               if Unreserved(value as char) then [value as char] else ['%', Upper(high), Upper(low)]
  {
    var value := 16 * HexValue(high) + HexValue(low);
    assert value / 16 == HexValue(high) && value % 16 == HexValue(low);
  }

  /** What has been read stays read: one more unit moves from the rest to the output. */
  lemma ReadUnit(component: string, index: nat, next: nat, units: seq<Unit>, unit: Unit)
    requires index <= |component| && next <= |component|
    requires AllRenderable(units) && Renderable(unit)
    requires Meaning(component) == PrependUnits(units, Meaning(component[index..]))
    requires Meaning(component[index..]) == Then(unit, Meaning(component[next..]))
    ensures AllRenderable(units + [unit]) && Render(units + [unit]) == Render(units) + RenderUnit(unit)
    ensures Meaning(component) == PrependUnits(units + [unit], Meaning(component[next..]))
  {
    PrependThen(units, unit, Meaning(component[next..]));
    RenderAppend(units, unit);
  }

  lemma MeaningIsRead(component: string, units: seq<Unit>)
    requires AllRenderable(units) && Meaning(component) == PrependUnits(units, Meaning([]))
    ensures Normal(component) == Ok(Render(units))
  {
    assert units + [] == units;
    MeaningRenderable(component);
  }

  lemma NoMeaningIsRead(component: string, units: seq<Unit>, e: EscapeError)
    requires Meaning(component) == PrependUnits(units, Err(e))
    ensures Normal(component) == Err(e)
  {
  }

  /** What the two characters after a '%' mean, if they are there. */
  lemma ReadDigits(component: string, index: nat, digits: string)
    requires index < |component| && component[index] == '%'
    requires digits == component[index + 1..(if index + 3 <= |component| then index + 3 else |component|)]
    ensures var rest := Meaning(component[index..]);
            if |digits| != 2 || !IsHex(digits[0]) || !IsHex(digits[1]) then rest == Err(MalformedEscape)
            else
              var value := 16 * HexValue(digits[0]) + HexValue(digits[1]);
              if value == 0 then rest == Err(NullEscape)
              else
                && index + 3 <= |component| && Renderable(EscapeMeaning(value))
                && rest == Then(EscapeMeaning(value), Meaning(component[index + 3..]))
                && RenderUnit(EscapeMeaning(value)) ==
                   if Unreserved(value as char) then [value as char] else ['%', Upper(digits[0]), Upper(digits[1])]
  {
    EscapeStep(component, index);
    if |digits| == 2 && IsHex(digits[0]) && IsHex(digits[1]) && 16 * HexValue(digits[0]) + HexValue(digits[1]) != 0 {
      RenderEscape(digits[0], digits[1]);
    }
  }

  /** The normalisation loop: one pass with an index and an output list. */
  method NormalizePercentEncoding(component: string) returns (r: Result<string, EscapeError>)
    ensures r == Normal(component)
  {
    var out: string := [];
    var index := 0;
    ghost var units: seq<Unit> := [];
    assert component[0..] == component;
    PrependNothing(Meaning(component));
    while index < |component|
      invariant 0 <= index <= |component|
      invariant AllRenderable(units) && out == Render(units)
      invariant Meaning(component) == PrependUnits(units, Meaning(component[index..]))
    {
      var c := component[index];
      if c != '%' {
        LiteralStep(component, index);
        ReadUnit(component, index, index + 1, units, Literal(c));
        units, out, index := units + [Literal(c)], out + [c], index + 1;
        continue;
      }
      var digits := component[index + 1..(if index + 3 <= |component| then index + 3 else |component|)];
      ReadDigits(component, index, digits);
      if |digits| != 2 || !IsHex(digits[0]) || !IsHex(digits[1]) {
        NoMeaningIsRead(component, units, MalformedEscape);
        return Err(MalformedEscape);
      }
      var value := 16 * HexValue(digits[0]) + HexValue(digits[1]);
      if value == 0 {
        NoMeaningIsRead(component, units, NullEscape);
        return Err(NullEscape);
      }
      ReadUnit(component, index, index + 3, units, EscapeMeaning(value));
      var decoded := value as char;
      out := out + if Unreserved(decoded) then [decoded] else ['%', Upper(digits[0]), Upper(digits[1])];
      units, index := units + [EscapeMeaning(value)], index + 3;
    }
    assert component[index..] == [];
    MeaningIsRead(component, units);
    return Ok(out);
  }

  lemma MeaningOfUnit(u: Unit, rest: string)
    requires Renderable(u)
    ensures Meaning(RenderUnit(u) + rest) == Then(u, Meaning(rest))
  {
    var s := RenderUnit(u) + rest;
    match u {
      case Literal(c) =>
        assert s[0] == c && s[1..] == rest;
      case Escaped(octet) =>
        assert s[0] == '%' && s[1] == UpperHex(octet / 16) && s[2] == UpperHex(octet % 16);
        assert s[3..] == rest;
    }
  }

  lemma RenderFirst(us: seq<Unit>)
    requires us != [] && AllRenderable(us)
    ensures Render(us) == RenderUnit(us[0]) + Render(us[1..])
  {
  }

  lemma MeaningOfMore(u: Unit, rest: string, us: seq<Unit>)
    requires Renderable(u) && Meaning(rest) == Ok(us)
    ensures Meaning(RenderUnit(u) + rest) == Ok([u] + us)
  {
    MeaningOfUnit(u, rest);
  }

  /** Spelling a meaning canonically and reading it back changes nothing. */
  lemma {:induction false} MeaningOfRender(us: seq<Unit>)
    requires AllRenderable(us)
    ensures Meaning(Render(us)) == Ok(us)
  {
    if us != [] {
      var u, rest := us[0], us[1..];
      MeaningOfRender(rest);
      MeaningOfMore(u, Render(rest), rest);
      RenderFirst(us);
      assert us == [u] + rest;
    }
  }

  /** Normalisation is idempotent. */
  lemma NormalIdempotent(s: string)
    requires Normal(s).Ok?
    ensures Normal(Normal(s).value) == Normal(s)
  {
    MeaningRenderable(s);
    MeaningOfRender(Meaning(s).value);
  }

  /** Two components have one canonical spelling exactly when they mean the same. */
  lemma NormalDecidesMeaning(a: string, b: string)
    requires Normal(a).Ok? && Normal(b).Ok?
    ensures Normal(a) == Normal(b) <==> Meaning(a) == Meaning(b)
  {
    MeaningRenderable(a);
    MeaningRenderable(b);
    MeaningOfRender(Meaning(a).value);
    MeaningOfRender(Meaning(b).value);
  }

  /** Full percent-decoding, reserved octets included. */
  function Decode(s: string): string {
    if s == [] then []
    else if s[0] == '%' && |s| >= 3 && IsHex(s[1]) && IsHex(s[2]) then
      [(16 * HexValue(s[1]) + HexValue(s[2])) as char] + Decode(s[3..])
    else [s[0]] + Decode(s[1..])
  }

  function DecodeUnit(u: Unit): char
    requires Renderable(u)
  {
    match u
    case Literal(c) => c
    case Escaped(octet) => octet as char
  }

  lemma DecodeOfUnit(u: Unit, rest: string)
    requires Renderable(u)
    ensures Decode(RenderUnit(u) + rest) == [DecodeUnit(u)] + Decode(rest)
  {
    var s := RenderUnit(u) + rest;
    match u {
      case Literal(c) =>
        assert s[0] == c && s[1..] == rest;
      case Escaped(octet) =>
        assert s[0] == '%' && s[1] == UpperHex(octet / 16) && s[2] == UpperHex(octet % 16);
        assert s[3..] == rest;
    }
  }

  lemma {:induction false} DecodeOfRender(us: seq<Unit>)
    requires AllRenderable(us)
    ensures Decode(Render(us)) == seq(|us|, i requires 0 <= i < |us| => DecodeUnit(us[i]))
  {
    if us != [] {
      DecodeOfRender(us[1..]);
      DecodeOfUnit(us[0], Render(us[1..]));
    }
  }

  lemma {:induction false} DecodeOfMeaning(s: string)
    requires Meaning(s).Ok? && AllRenderable(Meaning(s).value)
    ensures var us := Meaning(s).value;
            Decode(s) == seq(|us|, i requires 0 <= i < |us| => DecodeUnit(us[i]))
  {
    if s != [] {
      var us := Meaning(s).value;
      var n := if s[0] == '%' then 3 else 1;
      assert us[1..] == Meaning(s[n..]).value;
      DecodeOfMeaning(s[n..]);
    }
  }

  /** Normalisation preserves the decoded text. */
  lemma NormalPreservesDecodedText(s: string)
    requires Normal(s).Ok?
    ensures Decode(Normal(s).value) == Decode(s)
  {
    MeaningRenderable(s);
    DecodeOfRender(Meaning(s).value);
    DecodeOfMeaning(s);
  }

  /** Normalisation fails exactly when some '%' does not open an escape of a non-null octet. */
  lemma {:induction false} NormalFailsExactly(s: string)
    ensures Normal(s).Ok? <==> forall i :: 0 <= i < |s| && s[i] == '%' ==> EscapeAt(s, i)
    decreases |s|
  {
    if s != [] {
      if s[0] != '%' {
        NormalFailsExactly(s[1..]);
        if forall i :: 0 <= i < |s| && s[i] == '%' ==> EscapeAt(s, i) {
          forall i | 0 <= i < |s[1..]| && s[1..][i] == '%' ensures EscapeAt(s[1..], i) {
            assert EscapeAt(s, i + 1);
          }
        }
        if forall i :: 0 <= i < |s[1..]| && s[1..][i] == '%' ==> EscapeAt(s[1..], i) {
          forall i | 0 <= i < |s| && s[i] == '%' ensures EscapeAt(s, i) {
            assert s[1..][i - 1] == '%';
          }
        }
      } else if !EscapeAt(s, 0) {
        assert Meaning(s).Err?;
      } else {
        NormalFailsExactly(s[3..]);
        if forall i :: 0 <= i < |s| && s[i] == '%' ==> EscapeAt(s, i) {
          forall i | 0 <= i < |s[3..]| && s[3..][i] == '%' ensures EscapeAt(s[3..], i) {
            assert EscapeAt(s, i + 3);
          }
        }
        if forall i :: 0 <= i < |s[3..]| && s[3..][i] == '%' ==> EscapeAt(s[3..], i) {
          forall i | 0 <= i < |s| && s[i] == '%' ensures EscapeAt(s, i) {
            if i >= 3 { assert s[3..][i - 3] == '%'; }
          }
        }
      }
    }
  }

  /** Normalising never lengthens a component. */
  lemma {:induction false} NormalNotLonger(s: string)
    requires Normal(s).Ok?
    ensures |Normal(s).value| <= |s|
    decreases |s|
  {
    if s != [] {
      var us := Meaning(s).value;
      var n := if s[0] == '%' then 3 else 1;
      MeaningRenderable(s);
      MeaningRenderable(s[n..]);
      assert us[1..] == Meaning(s[n..]).value;
      NormalNotLonger(s[n..]);
    }
  }

  /** A canonical spelling: normalising it changes nothing. */
  predicate IsNormal(s: string) {
    Normal(s) == Ok(s)
  }

  /** How many characters the first unit takes, and which unit it is. */
  lemma FirstUnit(a: string, b: string) returns (n: nat, u: Unit)
    requires a != [] && Meaning(a).Ok?
    ensures 1 <= n <= |a| && n == if a[0] == '%' then 3 else 1
    ensures Meaning(a) == Then(u, Meaning(a[n..]))
    ensures Meaning(a + b) == Then(u, Meaning(a[n..] + b))
  {
    n := if a[0] == '%' then 3 else 1;
    u := if a[0] == '%' then EscapeMeaning(16 * HexValue(a[1]) + HexValue(a[2])) else Literal(a[0]);
    assert (a + b)[n..] == a[n..] + b;
    assert (a + b)[..n] == a[..n];
    assert forall i :: 0 <= i < n ==> (a + b)[i] == a[i];
  }

  lemma ThenPrepend(u: Unit, us: seq<Unit>, rest: Result<seq<Unit>, EscapeError>)
    ensures Then(u, PrependUnits(us, rest)) == PrependUnits([u] + us, rest)
  {
    if rest.Ok? {
      assert [u] + (us + rest.value) == ([u] + us) + rest.value;
    }
  }

  lemma {:induction false} MeaningConcat(a: string, b: string)
    requires Meaning(a).Ok?
    ensures Meaning(a + b) == PrependUnits(Meaning(a).value, Meaning(b))
    decreases |a|
  {
    if a == [] {
      assert a + b == b;
      PrependNothing(Meaning(b));
    } else {
      var n, u := FirstUnit(a, b);
      MeaningConcat(a[n..], b);
      ThenPrepend(u, Meaning(a[n..]).value, Meaning(b));
    }
  }

  lemma {:induction false} RenderConcat(us: seq<Unit>, vs: seq<Unit>)
    requires AllRenderable(us) && AllRenderable(vs)
    ensures AllRenderable(us + vs) && Render(us + vs) == Render(us) + Render(vs)
  {
    if us == [] {
      assert us + vs == vs;
    } else {
      assert (us + vs)[1..] == us[1..] + vs;
      RenderConcat(us[1..], vs);
    }
  }

  /** Canonical spellings are closed under concatenation. */
  lemma IsNormalConcat(a: string, b: string)
    requires IsNormal(a) && IsNormal(b)
    ensures IsNormal(a + b)
  {
    MeaningConcat(a, b);
    MeaningRenderable(a);
    MeaningRenderable(b);
    RenderConcat(Meaning(a).value, Meaning(b).value);
  }

  lemma UnitIsNormal(u: Unit)
    requires Renderable(u)
    ensures IsNormal(RenderUnit(u))
  {
    assert Render([u]) == RenderUnit(u) by {
      assert [u][1..] == [] && RenderUnit(u) + [] == RenderUnit(u);
    }
    MeaningOfRender([u]);
  }

  /** A canonical spelling cut before a literal that no escape contains splits into canonical spellings. */
  lemma {:induction false} IsNormalCut(a: string, c: char, b: string)
    requires IsNormal(a + [c] + b)
    requires !IsHex(c) && c != '%'
    ensures IsNormal(a) && IsNormal(b)
    decreases |a|
  {
    var s := a + [c] + b;
    MeaningRenderable(s);
    var us := Meaning(s).value;
    if a == [] {
      assert s[1..] == b;
      MeaningRenderable(b);
      assert us[1..] == Meaning(b).value;
      assert Render(us)[1..] == Render(us[1..]);
    } else {
      var n := if a[0] == '%' then 3 else 1;
      assert n <= |a| by {
        if a[0] == '%' {
          assert IsHex(s[1]) && IsHex(s[2]);
        }
      }
      assert s[n..] == a[n..] + [c] + b;
      MeaningRenderable(s[n..]);
      assert us[1..] == Meaning(s[n..]).value;
      var head := RenderUnit(us[0]);
      assert s == head + Render(us[1..]);
      assert |head| == n by {
        if a[0] == '%' {
          assert s[0] == '%';
          assert head[0] == '%';
        }
      }
      assert Render(us[1..]) == s[n..];
      IsNormalCut(a[n..], c, b);
      assert a[..n] == head;
      UnitIsNormal(us[0]);
      IsNormalConcat(a[..n], a[n..]);
      assert a[..n] + a[n..] == a;
    }
  }

  /** Text without "%" is its own canonical spelling. */
  lemma {:induction false} PlainIsNormal(s: string)
    requires forall i :: 0 <= i < |s| ==> s[i] != '%'
    ensures IsNormal(s)
  {
    if s != [] {
      PlainIsNormal(s[1..]);
      MeaningRenderable(s);
      MeaningRenderable(s[1..]);
      var us := Meaning(s).value;
      assert us == [Literal(s[0])] + Meaning(s[1..]).value;
      assert us[1..] == Meaning(s[1..]).value;
      assert s == [s[0]] + s[1..];
    }
  }
}

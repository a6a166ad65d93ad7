/**
 * What the normal form of percent-encoding looks like, character by character (section 2 of RFC 3986): every
 * escape left is a needed one in upper case, and no delimiter is made or lost.
 */
module EscapeForms {
  import opened Wrappers
  import opened PercentEncoding

  /** Letters, digits, '-', '.', '_' and '~': the characters that never need an escape (section 2.3). */
  predicate PlainCode(octet: int) {
    || 0x41 <= octet <= 0x5A || 0x61 <= octet <= 0x7A || 0x30 <= octet <= 0x39
    || octet == 0x2D || octet == 0x2E || octet == 0x5F || octet == 0x7E
  }

  predicate UpperDigit(c: char) {
    '0' <= c <= '9' || 'A' <= c <= 'F'
  }

  function DigitValue(c: char): int
    requires UpperDigit(c)
  {
    if c <= '9' then c as int - 0x30 else c as int - 0x41 + 10
  }

  /** At `i` stands an escape with upper-case digits of a character that needs one. */
  predicate NeededEscape(s: string, i: nat) {
    && i + 2 < |s| && s[i] == '%' && UpperDigit(s[i + 1]) && UpperDigit(s[i + 2])
    && var octet := 16 * DigitValue(s[i + 1]) + DigitValue(s[i + 2]);
       octet != 0 && !PlainCode(octet)
  }

  lemma EscapeIsNeeded(octet: int)
    requires Renderable(Escaped(octet))
    ensures NeededEscape(RenderUnit(Escaped(octet)), 0)
  {
    var s := RenderUnit(Escaped(octet));
    assert HexValue(s[1]) == octet / 16 && HexValue(s[2]) == octet % 16;
    assert 16 * DigitValue(s[1]) + DigitValue(s[2]) == octet;
  }

  lemma {:induction false} RenderedEscapes(us: seq<Unit>, i: nat)
    requires AllRenderable(us) && i < |Render(us)| && Render(us)[i] == '%'
    ensures NeededEscape(Render(us), i)
    decreases |us|
  {
    var (head, rest) := (RenderUnit(us[0]), Render(us[1..]));
    assert Render(us) == head + rest;
    if i < |head| {
      assert us[0].Escaped?;
      EscapeIsNeeded(us[0].octet);
    } else {
      RenderedEscapes(us[1..], i - |head|);
    }
  }

  /** Every escape in a normal form has upper-case digits and stands for a character that needs one. */
  lemma NormalEscapesAreNeeded(s: string, i: nat)
    requires Normal(s).Ok? && i < |Normal(s).value| && Normal(s).value[i] == '%'
    ensures NeededEscape(Normal(s).value, i)
  {
    MeaningRenderable(s);
    RenderedEscapes(Meaning(s).value, i);
  }

  /** The characters outside escapes that are not plain: the delimiters, in order. */
  function Delimiters(s: string): string {
    if s == [] then []
    else if s[0] == '%' && |s| >= 3 then Delimiters(s[3..])
    else (if PlainCode(s[0] as int) then [] else [s[0]]) + Delimiters(s[1..])
  }

  function LiteralDelimiters(us: seq<Unit>): string {
    if us == [] then []
    else
      (if us[0].Literal? && !PlainCode(us[0].c as int) then [us[0].c] else []) + LiteralDelimiters(us[1..])
  }

  lemma FirstDelimiter(u: Unit, us: seq<Unit>)
    ensures LiteralDelimiters([u] + us) ==
            (if u.Literal? && !PlainCode(u.c as int) then [u.c] else []) + LiteralDelimiters(us)
  {
    assert ([u] + us)[1..] == us;
  }

  lemma {:induction false} DelimitersAreLiteral(s: string)
    requires Meaning(s).Ok?
    ensures Delimiters(s) == LiteralDelimiters(Meaning(s).value)
    decreases |s|
  {
    if s != [] {
      if s[0] != '%' {
        DelimitersAreLiteral(s[1..]);
        FirstDelimiter(Literal(s[0]), Meaning(s[1..]).value);
      } else {
        DelimitersAreLiteral(s[3..]);
        FirstDelimiter(EscapeMeaning(16 * HexValue(s[1]) + HexValue(s[2])), Meaning(s[3..]).value);
      }
    }
  }

  /** Normalising neither makes nor loses a delimiter: no escape becomes one, and none becomes an escape. */
  lemma NormalKeepsDelimiters(s: string)
    requires Normal(s).Ok?
    ensures Delimiters(Normal(s).value) == Delimiters(s)
  {
    MeaningRenderable(s);
    MeaningOfRender(Meaning(s).value);
    DelimitersAreLiteral(s);
    DelimitersAreLiteral(Normal(s).value);
  }
}

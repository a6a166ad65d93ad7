/** The string operations the services rely on, with the laws their proofs need. */
module Text {

  /** The characters `str.isspace` accepts and `str.strip` removes. */
  predicate IsSpace(c: char) {
    var n := c as int;
    || 0x09 <= n <= 0x0D
    || 0x1C <= n <= 0x20
    || n == 0x85 || n == 0xA0 || n == 0x1680
    || 0x2000 <= n <= 0x200A
    || n == 0x2028 || n == 0x2029 || n == 0x202F || n == 0x205F || n == 0x3000
  }

  predicate Contains(s: string, c: char) {
    exists i :: 0 <= i < |s| && s[i] == c
  }

  function TrimLeft(s: string): string {
    if s != [] && IsSpace(s[0]) then TrimLeft(s[1..]) else s
  }

  function TrimRight(s: string): string {
    if s != [] && IsSpace(s[|s| - 1]) then TrimRight(s[..|s| - 1]) else s
  }

  /** `str.strip()` */
  function Trim(s: string): string {
    TrimRight(TrimLeft(s))
  }

  predicate Trimmed(s: string) {
    s == [] || (!IsSpace(s[0]) && !IsSpace(s[|s| - 1]))
  }

  lemma {:induction false} TrimRightShape(s: string)
    ensures TrimRight(s) <= s
    ensures TrimRight(s) == [] || !IsSpace(TrimRight(s)[|TrimRight(s)| - 1])
  {
    if s != [] && IsSpace(s[|s| - 1]) {
      TrimRightShape(s[..|s| - 1]);
    }
  }

  lemma {:induction false} TrimLeftShape(s: string)
    ensures |TrimLeft(s)| <= |s| && TrimLeft(s) == s[|s| - |TrimLeft(s)|..]
    ensures TrimLeft(s) == [] || !IsSpace(TrimLeft(s)[0])
  {
    if s != [] && IsSpace(s[0]) {
      TrimLeftShape(s[1..]);
    }
  }

  lemma {:induction false} TrimRightKeepsHead(s: string)
    requires s != [] && !IsSpace(s[0])
    ensures TrimRight(s) != [] && TrimRight(s)[0] == s[0]
  {
    if IsSpace(s[|s| - 1]) {
      TrimRightKeepsHead(s[..|s| - 1]);
    }
  }

  /** Trimming yields a trimmed string, and leaves exactly the trimmed strings alone. */
  lemma TrimIsTrimmed(s: string)
    ensures Trimmed(Trim(s))
    ensures |Trim(s)| <= |s|
    ensures Trim(s) == s <==> Trimmed(s)
    ensures Trim(Trim(s)) == Trim(s)
  {
    TrimLeftShape(s);
    TrimRightShape(TrimLeft(s));
  }

  predicate Blank(s: string) {
    forall i :: 0 <= i < |s| ==> IsSpace(s[i])
  }

  lemma {:induction false} TrimLeftParts(s: string)
    ensures |TrimLeft(s)| <= |s| && Blank(s[..|s| - |TrimLeft(s)|])
  {
    if s != [] && IsSpace(s[0]) {
      TrimLeftParts(s[1..]);
      var kept := |TrimLeft(s[1..])|;
      assert s[..|s| - kept] == [s[0]] + s[1..][..|s| - 1 - kept];
    }
  }

  lemma {:induction false} TrimRightParts(s: string)
    ensures |TrimRight(s)| <= |s| && TrimRight(s) == s[..|TrimRight(s)|] && Blank(s[|TrimRight(s)|..])
  {
    if s != [] && IsSpace(s[|s| - 1]) {
      var front := s[..|s| - 1];
      TrimRightParts(front);
      assert s[|TrimRight(front)|..] == front[|TrimRight(front)|..] + [s[|s| - 1]];
    }
  }

  /** A text is what trimming leaves of it between two stretches of white space. */
  lemma TrimParts(s: string) returns (before: string, after: string)
    ensures s == before + Trim(s) + after && Blank(before) && Blank(after)
  {
    TrimLeftShape(s);
    TrimLeftParts(s);
    var rest := TrimLeft(s);
    TrimRightParts(rest);
    before, after := s[..|s| - |rest|], rest[|Trim(s)|..];
    assert rest == Trim(s) + after;
    assert s == before + rest;
  }

  lemma {:induction false} TrimLeftOfPadded(before: string, s: string)
    requires Blank(before) && (s == [] || !IsSpace(s[0]))
    ensures TrimLeft(before + s) == s
  {
    if before == [] {
      assert before + s == s;
    } else {
      TrimLeftOfPadded(before[1..], s);
      assert (before + s)[1..] == before[1..] + s;
    }
  }

  lemma {:induction false} TrimRightOfPadded(s: string, after: string)
    requires Blank(after) && s != [] && !IsSpace(s[|s| - 1])
    ensures TrimRight(s + after) == s
  {
    if after == [] {
      assert s + after == s;
    } else {
      TrimRightOfPadded(s, after[..|after| - 1]);
      assert (s + after)[..|s + after| - 1] == s + after[..|after| - 1];
    }
  }

  /** White space around a text that neither begins nor ends in it is exactly what trimming takes away. */
  lemma TrimOfPadded(before: string, s: string, after: string)
    requires Blank(before) && Blank(after) && s != [] && Trimmed(s)
    ensures Trim(before + s + after) == s
  {
    assert before + s + after == before + (s + after);
    TrimLeftOfPadded(before, s + after);
    TrimRightOfPadded(s, after);
  }

  lemma TrimsAwayExactly(s: string)
    ensures Trim(s) == [] <==> Blank(s)
  {
    var before, after := TrimParts(s);
    TrimIsTrimmed(s);
    if Trim(s) != [] {
      assert s[|before|] == Trim(s)[0];
    } else {
      assert s == before + after;
    }
  }

  /** `str.split(sep)` for a one-character separator: never empty. */
  function Split(s: string, sep: char): (parts: seq<string>)
    ensures |parts| >= 1
  {
    if s == [] then [""]
    else if s[0] == sep then [""] + Split(s[1..], sep)
    else
      var rest := Split(s[1..], sep);
      [[s[0]] + rest[0]] + rest[1..]
  }

  /** `sep.join(parts)` */
  function Join(parts: seq<string>, sep: char): string {
    if |parts| == 0 then ""
    else if |parts| == 1 then parts[0]
    else parts[0] + [sep] + Join(parts[1..], sep)
  }

  predicate SepFree(parts: seq<string>, sep: char) {
    forall i :: 0 <= i < |parts| ==> !Contains(parts[i], sep)
  }

  lemma {:induction false} SplitSepFree(s: string, sep: char)
    ensures SepFree(Split(s, sep), sep)
  {
    if s != [] {
      SplitSepFree(s[1..], sep);
      var rest := Split(s[1..], sep);
      if s[0] != sep {
        assert !Contains([s[0]] + rest[0], sep) by {
          assert !Contains(rest[0], sep);
          forall i | 0 <= i < |[s[0]] + rest[0]| ensures ([s[0]] + rest[0])[i] != sep {
            if i > 0 { assert ([s[0]] + rest[0])[i] == rest[0][i - 1]; }
          }
        }
      }
    }
  }

  /** A separator-free string is a single part. */
  lemma {:induction false} SplitWhole(s: string, sep: char)
    requires !Contains(s, sep)
    ensures Split(s, sep) == [s]
  {
    if s != [] {
      assert !Contains(s[1..], sep);
      SplitWhole(s[1..], sep);
      assert s == [s[0]] + s[1..];
    }
  }

  /** Splitting distributes over a separator. */
  lemma {:induction false} SplitConcat(a: string, b: string, sep: char)
    ensures Split(a + [sep] + b, sep) == Split(a, sep) + Split(b, sep)
  {
    if a == [] {
      assert a + [sep] + b == [sep] + b;
      assert ([sep] + b)[1..] == b;
    } else {
      var t := a + [sep] + b;
      assert t[1..] == a[1..] + [sep] + b;
      SplitConcat(a[1..], b, sep);
    }
  }

  lemma {:induction false} JoinSplit(s: string, sep: char)
    ensures Join(Split(s, sep), sep) == s
  {
    if s != [] {
      JoinSplit(s[1..], sep);
      var rest := Split(s[1..], sep);
      if s[0] == sep {
        assert ([""] + rest)[1..] == rest;
        assert s == "" + [sep] + s[1..];
      } else {
        var parts := [[s[0]] + rest[0]] + rest[1..];
        assert parts[1..] == rest[1..];
        assert s == [s[0]] + s[1..];
        if |rest| > 1 {
          assert Join(parts, sep) == [s[0]] + (rest[0] + [sep] + Join(rest[1..], sep));
        }
      }
    }
  }

  lemma {:induction false} SplitJoin(parts: seq<string>, sep: char)
    requires |parts| >= 1 && SepFree(parts, sep)
    ensures Split(Join(parts, sep), sep) == parts
  {
    if |parts| == 1 {
      SplitWhole(parts[0], sep);
    } else {
      assert SepFree(parts[1..], sep);
      SplitJoin(parts[1..], sep);
      SplitConcat(parts[0], Join(parts[1..], sep), sep);
      assert !Contains(parts[0], sep);
      SplitWhole(parts[0], sep);
      assert parts == [parts[0]] + parts[1..];
    }
  }

  lemma {:induction false} JoinConcat(a: seq<string>, b: seq<string>, sep: char)
    requires |a| >= 1 && |b| >= 1
    ensures Join(a + b, sep) == Join(a, sep) + [sep] + Join(b, sep)
  {
    if |a| == 1 {
      assert (a + b)[1..] == b;
    } else {
      assert (a + b)[1..] == a[1..] + b;
      JoinConcat(a[1..], b, sep);
    }
  }

  /** `s` extends `p` past a separator. */
  predicate ExtendsPast(s: string, p: string, sep: char) {
    p + [sep] <= s
  }

  lemma PrefixPartsToText(s: string, p: string, sep: char)
    requires Split(p, sep) <= Split(s, sep)
    ensures s == p || ExtendsPast(s, p, sep)
  {
    var ps, ss := Split(p, sep), Split(s, sep);
    JoinSplit(p, sep);
    JoinSplit(s, sep);
    if ps != ss {
      var rest := ss[|ps|..];
      assert ss == ps + rest;
      JoinConcat(ps, rest, sep);
    }
  }

  lemma PrefixTextToParts(s: string, p: string, sep: char)
    requires ExtendsPast(s, p, sep)
    ensures Split(p, sep) <= Split(s, sep)
  {
    var b := s[|p| + 1..];
    assert s == p + [sep] + b;
    SplitConcat(p, b, sep);
  }

  /** The parts of `p` begin the parts of `s` exactly when `s` is `p` or extends it past a separator. */
  lemma PartsPrefix(s: string, p: string, sep: char)
    ensures Split(p, sep) <= Split(s, sep) <==> s == p || ExtendsPast(s, p, sep)
  {
    if Split(p, sep) <= Split(s, sep) {
      PrefixPartsToText(s, p, sep);
    }
    if ExtendsPast(s, p, sep) {
      PrefixTextToParts(s, p, sep);
    }
  }

  predicate EndsWith(s: string, t: string) {
    |t| <= |s| && s[|s| - |t|..] == t
  }

  predicate IsSuffix<T(==)>(t: seq<T>, s: seq<T>) {
    |t| <= |s| && s[|s| - |t|..] == t
  }

  lemma AppendEndsWith(a: string, b: string)
    ensures EndsWith(a + b, b)
  {
  }

  lemma SeparatedEndsWith(a: string, b: string, sep: char)
    ensures EndsWith(a + [sep] + b, [sep] + b)
  {
    assert a + [sep] + b == a + ([sep] + b);
    AppendEndsWith(a, [sep] + b);
  }

  lemma JoinSuffix(front: seq<string>, back: seq<string>, sep: char)
    requires |front| >= 1 && |back| >= 1
    ensures EndsWith(Join(front + back, sep), [sep] + Join(back, sep))
  {
    JoinConcat(front, back, sep);
    SeparatedEndsWith(Join(front, sep), Join(back, sep), sep);
  }

  lemma SuffixPartsToText(s: string, p: string, sep: char)
    requires IsSuffix(Split(p, sep), Split(s, sep))
    ensures s == p || EndsWith(s, [sep] + p)
  {
    JoinSplit(p, sep);
    JoinSplit(s, sep);
    var front := Split(s, sep)[..|Split(s, sep)| - |Split(p, sep)|];
    if front != [] {
      JoinSuffix(front, Split(p, sep), sep);
      assert front + Split(p, sep) == Split(s, sep);
    }
  }

  lemma SuffixTextToParts(s: string, p: string, sep: char)
    requires EndsWith(s, [sep] + p)
    ensures IsSuffix(Split(p, sep), Split(s, sep))
  {
    var a := s[..|s| - |p| - 1];
    assert s == a + ([sep] + p);
    assert s == a + [sep] + p;
    SplitConcat(a, p, sep);
  }

  /** The parts of `p` end the parts of `s` exactly when `s` is `p` or ends with the separator and `p`. */
  lemma PartsSuffix(s: string, p: string, sep: char)
    ensures IsSuffix(Split(p, sep), Split(s, sep)) <==> s == p || EndsWith(s, [sep] + p)
  {
    if IsSuffix(Split(p, sep), Split(s, sep)) {
      SuffixPartsToText(s, p, sep);
    }
    if EndsWith(s, [sep] + p) {
      SuffixTextToParts(s, p, sep);
    }
  }
}

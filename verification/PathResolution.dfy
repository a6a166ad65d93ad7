/**
 * Dot-segment removal, slash stripping and segment-exact prefix matching of
 * destination paths, checked against section 5.2.4 of RFC 3986.
 */
module PathResolution {
  import opened Wrappers
  import opened Text
  import opened PercentEncoding

  /** What the segments still to be read do to the stack of resolved segments. */
  function Resolve(stack: seq<string>, segments: seq<string>): seq<string>
    decreases |segments|
  {
    if segments == [] then stack
    else if segments[0] == "." then Resolve(stack, segments[1..])
    else if segments[0] == ".." then
      Resolve(if stack == [] then [] else stack[..|stack| - 1], segments[1..])
    else Resolve(stack + [segments[0]], segments[1..])
  }

  function DotFree(path: string): string {
    "/" + Join(Resolve([], Split(path, '/')[1..]), '/')
  }

  method RemoveDotSegments(path: string) returns (r: string)
    ensures r == DotFree(path)
  {
    var resolved: seq<string> := [];
    var segments := Split(path, '/')[1..];
    for i := 0 to |segments|
      invariant Resolve([], segments) == Resolve(resolved, segments[i..])
    {
      var segment := segments[i];
      assert segments[i..][1..] == segments[i + 1..];
      if segment == "." {
        continue;
      }
      if segment == ".." {
        if resolved != [] {
          resolved := resolved[..|resolved| - 1];
        }
        continue;
      }
      resolved := resolved + [segment];
    }
    return "/" + Join(resolved, '/');
  }

  function WithoutTrailingSlashes(path: string): string {
    if |path| > 1 && path[|path| - 1] == '/' then WithoutTrailingSlashes(path[..|path| - 1]) else path
  }

  method StripTrailingSlashes(path: string) returns (r: string)
    ensures r == WithoutTrailingSlashes(path)
  {
    r := path;
    while |r| > 1 && r[|r| - 1] == '/'
      invariant WithoutTrailingSlashes(r) == WithoutTrailingSlashes(path)
    {
      r := r[..|r| - 1];
    }
  }

  // ----- The input-buffer algorithm of section 5.2.4 of RFC 3986 -----

  /** Where the first segment (its leading "/" included) ends in the input buffer. */
  function FirstSegmentEnd(input: string, from: nat): (end: nat)
    requires from <= |input|
    ensures from <= end <= |input|
    decreases |input| - from
  {
    if from == |input| || input[from] == '/' then from else FirstSegmentEnd(input, from + 1)
  }

  /** The output buffer without its last segment and the "/" before it. */
  function DropLastSegment(output: string): string {
    if output == [] then []
    else if output[|output| - 1] == '/' then output[..|output| - 1]
    else DropLastSegment(output[..|output| - 1])
  }

  function Rfc3986(input: string, output: string): string
    decreases |input|
  {
    if input == [] then output
    else if "../" <= input then Rfc3986(input[3..], output)
    else if "./" <= input then Rfc3986(input[2..], output)
    else if "/./" <= input then Rfc3986(input[2..], output)
    else if input == "/." then Rfc3986("/", output)
    else if "/../" <= input then Rfc3986(input[3..], DropLastSegment(output))
    else if input == "/.." then Rfc3986("/", DropLastSegment(output))
    else if input == "." || input == ".." then output
    else
      var end := FirstSegmentEnd(input, if input[0] == '/' then 1 else 0);
      Rfc3986(input[end..], output + input[..end])
  }

  /** The text of a stack: every segment with its leading "/". */
  function Buffer(stack: seq<string>): string {
    if stack == [] then "" else Buffer(stack[..|stack| - 1]) + "/" + stack[|stack| - 1]
  }

  lemma {:induction false} DropLastSegmentOfBuffer(head: string, segment: string)
    requires !Contains(segment, '/')
    ensures DropLastSegment(head + "/" + segment) == head
    decreases |segment|
  {
    var t := head + "/" + segment;
    if segment == "" {
      assert t[..|t| - 1] == head;
    } else {
      var n := |segment| - 1;
      assert t[|t| - 1] == segment[n];
      assert t[..|t| - 1] == head + "/" + segment[..n];
      DropLastSegmentOfBuffer(head, segment[..n]);
    }
  }

  lemma {:induction false} FirstSegmentEndSkips(input: string, from: nat, end: nat)
    requires from <= end <= |input|
    requires forall i :: from <= i < end ==> input[i] != '/'
    requires end == |input| || input[end] == '/'
    ensures FirstSegmentEnd(input, from) == end
    decreases end - from
  {
    if from < end {
      FirstSegmentEndSkips(input, from + 1, end);
    }
  }

  /** Which input buffers the dot rules of the algorithm recognise. */
  lemma DotRules(segment: string, tail: string)
    requires !Contains(segment, '/')
    requires tail == [] || tail[0] == '/'
    ensures var input := "/" + segment + tail;
            && ("/./" <= input <==> segment == "." && tail != [])
            && ("/../" <= input <==> segment == ".." && tail != [])
            && (input == "/." <==> segment == "." && tail == [])
            && (input == "/.." <==> segment == ".." && tail == [])
            && FirstSegmentEnd(input, 1) == |segment| + 1
  {
    var input := "/" + segment + tail;
    assert forall i :: 0 <= i < |segment| ==> input[i + 1] == segment[i];
    assert tail != [] ==> input[|segment| + 1] == '/';
    FirstSegmentEndSkips(input, 1, |segment| + 1);
    assert |segment| > 1 ==> input[2] == segment[1] != '/';
    assert |segment| > 2 ==> input[3] == segment[2] != '/';
    assert segment == "." <==> |segment| == 1 && input[1] == '.';
    assert segment == ".." <==> |segment| == 2 && input[1] == '.' && input[2] == '.';
  }

  /** The last input segment moves to the output, or a trailing dot leaves a "/". */
  lemma RfcLastSegment(segment: string, output: string)
    requires !Contains(segment, '/')
    ensures Rfc3986("/" + segment, output) ==
            if segment == "." then output + "/"
            else if segment == ".." then DropLastSegment(output) + "/"
            else output + "/" + segment
  {
    var input := "/" + segment;
    assert input == "/" + segment + "";
    DotRules(segment, "");
    FirstSegmentEndSkips("/", 1, 1);
    assert "/"[..1] == "/" && "/"[1..] == [];
    if segment != "." && segment != ".." {
      assert input[|input|..] == [] && input[..|input|] == input;
      assert output + ("/" + segment) == output + "/" + segment;
    }
  }

  lemma RfcCurrentSegment(rest: string, output: string)
    ensures Rfc3986("/./" + rest, output) == Rfc3986("/" + rest, output)
  {
    var input := "/./" + rest;
    assert input[0] == '/' && input[1] == '.' && input[2] == '/';
    assert "/./" <= input && !("../" <= input) && !("./" <= input);
    assert input[2..] == "/" + rest;
  }

  lemma RfcParentSegment(rest: string, output: string)
    ensures Rfc3986("/../" + rest, output) == Rfc3986("/" + rest, DropLastSegment(output))
  {
    var input := "/../" + rest;
    assert input[0] == '/' && input[1] == '.' && input[2] == '.' && input[3] == '/';
    assert "/../" <= input && !("../" <= input) && !("./" <= input) && !("/./" <= input);
    assert input[3..] == "/" + rest;
  }

  /** A segment the dot rules do not recognise moves to the output. */
  lemma RfcMoves(input: string, output: string, end: nat)
    requires input != [] && input[0] == '/' && 1 <= end <= |input| && FirstSegmentEnd(input, 1) == end
    requires !("/./" <= input) && !("/../" <= input) && input != "/." && input != "/.."
    ensures Rfc3986(input, output) == Rfc3986(input[end..], output + input[..end])
  {
    assert !("../" <= input) && !("./" <= input);
  }

  lemma RfcPlainSegment(segment: string, tail: string, output: string)
    requires !Contains(segment, '/') && segment != "." && segment != ".."
    requires tail != [] && tail[0] == '/'
    ensures Rfc3986("/" + segment + tail, output) == Rfc3986(tail, output + "/" + segment)
  {
    var input := "/" + segment + tail;
    DotRules(segment, tail);
    RfcMoves(input, output, |segment| + 1);
    assert input[|segment| + 1..] == tail;
    assert input[..|segment| + 1] == "/" + segment;
    assert output + ("/" + segment) == output + "/" + segment;
  }

  /** An input segment followed by more input moves, vanishes or pops the output. */
  lemma RfcInnerSegment(segment: string, rest: string, output: string)
    requires !Contains(segment, '/')
    ensures Rfc3986("/" + segment + ("/" + rest), output) ==
            if segment == "." then Rfc3986("/" + rest, output)
            else if segment == ".." then Rfc3986("/" + rest, DropLastSegment(output))
            else Rfc3986("/" + rest, output + "/" + segment)
  {
    if segment == "." {
      assert "/" + segment + ("/" + rest) == "/./" + rest;
      RfcCurrentSegment(rest, output);
    } else if segment == ".." {
      assert "/" + segment + ("/" + rest) == "/../" + rest;
      RfcParentSegment(rest, output);
    } else {
      RfcPlainSegment(segment, "/" + rest, output);
    }
  }

  lemma StripOneSlash(s: string)
    requires |s| >= 1
    ensures WithoutTrailingSlashes(s + "/") == WithoutTrailingSlashes(s)
  {
    assert (s + "/")[..|s + "/"| - 1] == s;
  }

  lemma {:induction false} BufferIsJoin(stack: seq<string>)
    requires stack != []
    ensures Buffer(stack) == "/" + Join(stack, '/')
  {
    if |stack| > 1 {
      var front, last := stack[..|stack| - 1], stack[|stack| - 1];
      BufferIsJoin(front);
      JoinConcat(front, [last], '/');
      assert front + [last] == stack;
    } else {
      assert Buffer(stack) == Buffer([]) + "/" + stack[0];
    }
  }

  /** A trailing dot segment and the bare stack agree once slashes are stripped. */
  lemma TrailingSlashAgrees(stack: seq<string>)
    ensures WithoutTrailingSlashes(Buffer(stack) + "/") == WithoutTrailingSlashes("/" + Join(stack, '/'))
  {
    if stack != [] {
      BufferIsJoin(stack);
      StripOneSlash(Buffer(stack));
    }
  }

  lemma PopAgrees(stack: seq<string>)
    requires SepFree(stack, '/')
    ensures DropLastSegment(Buffer(stack)) == Buffer(if stack == [] then [] else stack[..|stack| - 1])
  {
    if stack != [] {
      DropLastSegmentOfBuffer(Buffer(stack[..|stack| - 1]), stack[|stack| - 1]);
    }
  }

  lemma {:induction false} BufferAgreesWithStack(stack: seq<string>, segments: seq<string>)
    requires segments != [] && SepFree(stack, '/') && SepFree(segments, '/')
    ensures WithoutTrailingSlashes(Rfc3986("/" + Join(segments, '/'), Buffer(stack))) ==
            WithoutTrailingSlashes("/" + Join(Resolve(stack, segments), '/'))
    decreases |segments|
  {
    var segment := segments[0];
    assert !Contains(segment, '/');
    PopAgrees(stack);
    var popped := if stack == [] then [] else stack[..|stack| - 1];
    var pushed := stack + [segment];
    assert pushed[..|pushed| - 1] == stack;
    assert Buffer(pushed) == Buffer(stack) + "/" + segment;
    if |segments| == 1 {
      assert segments[1..] == [];
      RfcLastSegment(segment, Buffer(stack));
      if segment == "." {
        TrailingSlashAgrees(stack);
      } else if segment == ".." {
        TrailingSlashAgrees(popped);
      } else {
        BufferIsJoin(pushed);
      }
    } else {
      var rest := Join(segments[1..], '/');
      assert "/" + Join(segments, '/') == "/" + segment + ("/" + rest);
      RfcInnerSegment(segment, rest, Buffer(stack));
      assert SepFree(segments[1..], '/');
      var next := if segment == "." then stack else if segment == ".." then popped else pushed;
      assert SepFree(next, '/');
      BufferAgreesWithStack(next, segments[1..]);
    }
  }

  /**
   * For every path that starts with "/", the segment stack and the input-buffer algorithm of
   * section 5.2.4 of RFC 3986 agree once trailing slashes are stripped.
   */
  lemma StackImplementsRfc3986(path: string)
    requires path != [] && path[0] == '/'
    ensures WithoutTrailingSlashes(DotFree(path)) == WithoutTrailingSlashes(Rfc3986(path, ""))
  {
    var parts := Split(path, '/');
    JoinSplit(path, '/');
    SplitSepFree(path, '/');
    assert parts[0] == "" && |parts| >= 2;
    assert SepFree(parts[1..], '/');
    BufferAgreesWithStack([], parts[1..]);
    assert path == "/" + Join(parts[1..], '/');
  }

  // ----- The whole path pipeline -----

  /** Normalise, resolve, strip: what a destination path becomes. */
  function CanonicalPath(path: string): Result<string, EscapeError> {
    match Normal(path)
    case Ok(p) => Ok(WithoutTrailingSlashes(DotFree(p)))
    case Err(e) => Err(e)
  }

  method CanonicalizePath(path: string) returns (r: Result<string, EscapeError>)
    ensures r == CanonicalPath(if path == "" then "/" else path)
  {
    var normal := NormalizePercentEncoding(if path == "" then "/" else path);
    if normal.Err? {
      return Err(normal.error);
    }
    var resolved := RemoveDotSegments(normal.value);
    var stripped := StripTrailingSlashes(resolved);
    return Ok(stripped);
  }

  /** The trimmed prefix, with a leading "/". */
  function Rooted(prefix: string): string {
    var candidate := Trim(prefix);
    if "/" <= candidate then candidate else "/" + candidate
  }

  function RulePrefix(prefix: string): Result<string, EscapeError> {
    CanonicalPath(Rooted(prefix))
  }

  method CanonicalizeRulePrefix(prefix: string) returns (r: Result<string, EscapeError>)
    ensures r == RulePrefix(prefix)
  {
    var candidate := Trim(prefix);
    if !("/" <= candidate) {
      candidate := "/" + candidate;
    }
    var normal := NormalizePercentEncoding(candidate);
    if normal.Err? {
      return Err(normal.error);
    }
    var resolved := RemoveDotSegments(normal.value);
    var stripped := StripTrailingSlashes(resolved);
    return Ok(stripped);
  }

  /** The segments of a canonical path; "/" has none. */
  function Segments(path: string): seq<string> {
    if path == "/" then [] else Split(path, '/')[1..]
  }

  predicate NoDots(segments: seq<string>) {
    forall i :: 0 <= i < |segments| ==> segments[i] != "." && segments[i] != ".."
  }

  /** What the pipeline produces: rooted, no trailing slash, no dot segment, canonical escapes. */
  predicate IsCanonicalPath(path: string) {
    && path != [] && path[0] == '/'
    && (|path| > 1 ==> path[|path| - 1] != '/')
    && NoDots(Segments(path))
    && IsNormal(path)
  }

  lemma {:induction false} ResolveHasNoDots(stack: seq<string>, segments: seq<string>)
    requires NoDots(stack) && SepFree(stack, '/') && SepFree(segments, '/')
    ensures NoDots(Resolve(stack, segments)) && SepFree(Resolve(stack, segments), '/')
    decreases |segments|
  {
    if segments != [] {
      assert SepFree(segments[1..], '/');
      var next := if segments[0] == "." then stack
                  else if segments[0] == ".." then (if stack == [] then [] else stack[..|stack| - 1])
                  else stack + [segments[0]];
      ResolveHasNoDots(next, segments[1..]);
    }
  }

  lemma {:induction false} ResolveWithoutDots(stack: seq<string>, segments: seq<string>)
    requires NoDots(segments)
    ensures Resolve(stack, segments) == stack + segments
    decreases |segments|
  {
    if segments != [] {
      ResolveWithoutDots(stack + [segments[0]], segments[1..]);
      assert stack + [segments[0]] + segments[1..] == stack + segments;
    } else {
      assert stack + segments == stack;
    }
  }

  predicate AllNormal(segments: seq<string>) {
    forall i :: 0 <= i < |segments| ==> IsNormal(segments[i])
  }

  lemma {:induction false} SplitNormal(s: string)
    requires IsNormal(s)
    ensures AllNormal(Split(s, '/'))
    decreases |s|
  {
    var parts := Split(s, '/');
    JoinSplit(s, '/');
    if |parts| == 1 {
    } else {
      var rest := Join(parts[1..], '/');
      assert s == parts[0] + ['/'] + rest;
      IsNormalCut(parts[0], '/', rest);
      SplitSepFree(s, '/');
      assert SepFree(parts[1..], '/');
      SplitJoin(parts[1..], '/');
      SplitNormal(rest);
      assert parts == [parts[0]] + Split(rest, '/');
    }
  }

  lemma SlashIsNormal()
    ensures IsNormal("/") && IsNormal("")
  {
    PlainIsNormal("/");
    PlainIsNormal("");
  }

  lemma {:induction false} JoinNormal(segments: seq<string>)
    requires AllNormal(segments)
    ensures IsNormal(Join(segments, '/'))
  {
    SlashIsNormal();
    if |segments| > 1 {
      JoinNormal(segments[1..]);
      IsNormalConcat(segments[0], "/");
      IsNormalConcat(segments[0] + "/", Join(segments[1..], '/'));
    }
  }

  lemma {:induction false} ResolveNormal(stack: seq<string>, segments: seq<string>)
    requires AllNormal(stack) && AllNormal(segments)
    ensures AllNormal(Resolve(stack, segments))
    decreases |segments|
  {
    if segments != [] {
      var next := if segments[0] == "." then stack
                  else if segments[0] == ".." then (if stack == [] then [] else stack[..|stack| - 1])
                  else stack + [segments[0]];
      ResolveNormal(next, segments[1..]);
    }
  }

  lemma {:induction false} StripShape(s: string)
    requires s != [] && s[0] == '/' && IsNormal(s) && NoDots(Split(s, '/')[1..])
    ensures var t := WithoutTrailingSlashes(s);
            && t != [] && t[0] == '/' && (|t| > 1 ==> t[|t| - 1] != '/')
            && IsNormal(t) && NoDots(Split(t, '/')[1..])
    decreases |s|
  {
    if |s| > 1 && s[|s| - 1] == '/' {
      var a := s[..|s| - 1];
      assert s == a + ['/'] + [];
      IsNormalCut(a, '/', []);
      SplitConcat(a, [], '/');
      assert Split(s, '/')[1..] == Split(a, '/')[1..] + [""];
      assert NoDots(Split(a, '/')[1..]) by {
        forall i | 0 <= i < |Split(a, '/')[1..]|
          ensures Split(a, '/')[1..][i] != "." && Split(a, '/')[1..][i] != ".."
        {
          assert Split(a, '/')[1..][i] == Split(s, '/')[1..][i];
        }
      }
      StripShape(a);
    }
  }

  /** Whatever the pipeline accepts becomes a canonical path. */
  lemma CanonicalPathIsCanonical(path: string)
    requires CanonicalPath(path).Ok?
    ensures IsCanonicalPath(CanonicalPath(path).value)
  {
    var p := Normal(path).value;
    NormalIdempotent(path);
    SplitNormal(p);
    SplitSepFree(p, '/');
    var raw := Split(p, '/')[1..];
    assert SepFree(raw, '/');
    ResolveHasNoDots([], raw);
    ResolveNormal([], raw);
    var segments := Resolve([], raw);
    JoinNormal(segments);
    SlashIsNormal();
    IsNormalConcat("/", Join(segments, '/'));
    var s := DotFree(p);
    assert s == [] + ['/'] + Join(segments, '/');
    SplitConcat([], Join(segments, '/'), '/');
    if segments == [] {
      assert Split(s, '/')[1..] == [""];
    } else {
      SplitJoin(segments, '/');
      assert Split(s, '/')[1..] == segments;
    }
    StripShape(s);
  }

  lemma RootedParts(path: string)
    requires path != [] && path[0] == '/'
    ensures |Split(path, '/')| >= 2 && Split(path, '/')[0] == ""
    ensures path == "/" + Join(Split(path, '/')[1..], '/')
  {
    JoinSplit(path, '/');
  }

  lemma DotFreeFixed(path: string)
    requires path != [] && path[0] == '/' && NoDots(Split(path, '/')[1..])
    ensures DotFree(path) == path
  {
    RootedParts(path);
    var raw := Split(path, '/')[1..];
    ResolveWithoutDots([], raw);
    assert [] + raw == raw;
  }

  lemma CanonicalPathFixed(path: string)
    requires IsCanonicalPath(path)
    ensures CanonicalPath(path) == Ok(path)
  {
    if path == "/" {
      assert Split(path, '/')[1..] == [""] by {
        SplitConcat([], [], '/');
        assert path == [] + ['/'] + [];
      }
    }
    DotFreeFixed(path);
  }

  /** The path pipeline is idempotent and its results are exactly the canonical paths. */
  lemma CanonicalPathIdempotent(path: string)
    requires CanonicalPath(path).Ok?
    ensures CanonicalPath(CanonicalPath(path).value) == CanonicalPath(path)
  {
    CanonicalPathIsCanonical(path);
    CanonicalPathFixed(CanonicalPath(path).value);
  }

  lemma CanonicalPathsAreTheFixedPoints(path: string)
    ensures CanonicalPath(path) == Ok(path) <==> IsCanonicalPath(path)
  {
    if CanonicalPath(path) == Ok(path) {
      CanonicalPathIsCanonical(path);
    }
    if IsCanonicalPath(path) {
      CanonicalPathFixed(path);
    }
  }

  lemma {:induction false} ResolveNotLonger(stack: seq<string>, segments: seq<string>)
    ensures |Buffer(Resolve(stack, segments))| <= |Buffer(stack)| + |segments| + TotalLength(segments)
    decreases |segments|
  {
    if segments != [] {
      var pushed := stack + [segments[0]];
      assert pushed[..|pushed| - 1] == stack;
      var next := if segments[0] == "." then stack
                  else if segments[0] == ".." then (if stack == [] then [] else stack[..|stack| - 1])
                  else pushed;
      ResolveNotLonger(next, segments[1..]);
    }
  }

  function TotalLength(segments: seq<string>): nat {
    if segments == [] then 0 else |segments[0]| + TotalLength(segments[1..])
  }

  lemma {:induction false} JoinLength(segments: seq<string>)
    requires segments != []
    ensures |Join(segments, '/')| + 1 == |segments| + TotalLength(segments)
  {
    if |segments| > 1 {
      JoinLength(segments[1..]);
    } else {
      assert segments[1..] == [];
    }
  }

  lemma {:induction false} StripNotLonger(s: string)
    ensures |WithoutTrailingSlashes(s)| <= |s|
    decreases |s|
  {
    if |s| > 1 && s[|s| - 1] == '/' {
      StripNotLonger(s[..|s| - 1]);
    }
  }

  /** The pipeline never lengthens a rooted path. */
  lemma CanonicalPathNotLonger(path: string)
    requires path != [] && path[0] == '/' && CanonicalPath(path).Ok?
    ensures |CanonicalPath(path).value| <= |path|
  {
    NormalNotLonger(path);
    var p := Normal(path).value;
    MeaningRenderable(path);
    assert p[0] == '/';
    RootedParts(p);
    var raw := Split(p, '/')[1..];
    JoinLength(raw);
    ResolveNotLonger([], raw);
    var segments := Resolve([], raw);
    if segments != [] {
      BufferIsJoin(segments);
    }
    StripNotLonger(DotFree(p));
  }

  /** A canonicalised rule prefix is stable exactly when it does not end in white space. */
  lemma StableByItsEnd(prefix: string)
    requires RulePrefix(prefix).Ok?
    ensures var once := RulePrefix(prefix).value;
            once != [] && (RulePrefix(once) == Ok(once) <==> !IsSpace(once[|once| - 1]))
  {
    var candidate := Trim(prefix);
    var rooted := if "/" <= candidate then candidate else "/" + candidate;
    CanonicalPathIsCanonical(rooted);
    var once := CanonicalPath(rooted).value;
    TrimIsTrimmed(once);
    if IsSpace(once[|once| - 1]) {
      var again := Trim(once);
      TrimLeftShape(once);
      TrimRightShape(TrimLeft(once));
      assert TrimLeft(once) == once;
      TrimRightKeepsHead(once);
      assert |again| < |once| && "/" <= again;
      if CanonicalPath(again).Ok? {
        CanonicalPathNotLonger(again);
      }
    } else {
      assert "/" <= once;
      CanonicalPathFixed(once);
    }
  }

  lemma SpacedPathStripped()
    ensures CanonicalPath("/a /") == Ok("/a ")
  {
    PlainIsNormal("/a /");
    SplitSpacedPrefix();
    DotFreeFixed("/a /");
    assert "/a /"[..3] == "/a ";
  }

  lemma SpacedPrefixOnce()
    ensures RulePrefix("/a /") == Ok("/a ")
  {
    TrimIsTrimmed("/a /");
    SpacedPathStripped();
  }

  lemma SplitSpacedPrefix()
    ensures Split("/a /", '/') == ["", "a ", ""]
  {
    var parts := ["", "a ", ""];
    assert parts[1..] == ["a ", ""] && parts[1..][1..] == [""];
    SplitJoin(parts, '/');
    assert Join(parts, '/') == "/a /";
  }

  lemma SpacedPrefixTwice()
    ensures RulePrefix("/a ") == Ok("/a")
  {
    assert "/a "[..2] == "/a";
    assert Trim("/a ") == "/a";
    PlainIsNormal("/a");
    var parts := ["", "a"];
    assert parts[1..] == ["a"];
    SplitJoin(parts, '/');
    assert Join(parts, '/') == "/a";
    DotFreeFixed("/a");
  }

  lemma RulePrefixIsNotIdempotent()
    ensures exists prefix :: RulePrefix(prefix).Ok? && RulePrefix(RulePrefix(prefix).value) != RulePrefix(prefix)
  {
    SpacedPrefixOnce();
    SpacedPrefixTwice();
    assert RulePrefix(RulePrefix("/a /").value) != RulePrefix("/a /");
  }

  // ----- Prefix matching -----

  predicate PathMatchesPrefix(path: string, prefix: string) {
    prefix == "/" || path == prefix || prefix + "/" <= path
  }

  /** A rule prefix covers a path exactly when the rule's segments begin the path's. */
  lemma PrefixMatchIsSegmentExact(path: string, prefix: string)
    requires IsCanonicalPath(path) && IsCanonicalPath(prefix)
    ensures PathMatchesPrefix(path, prefix) <==> Segments(prefix) <= Segments(path)
  {
    RootedParts(path);
    RootedParts(prefix);
    PartsPrefix(path, prefix, '/');
    var ps, ss := Split(prefix, '/'), Split(path, '/');
    assert ps == [""] + ps[1..] && ss == [""] + ss[1..];
    assert ps <= ss <==> ps[1..] <= ss[1..];
    if path == "/" && prefix != "/" {
      assert !(prefix + "/" <= path);
      assert |ps[1..]| >= 1;
    }
  }

  /** A canonical path is determined by its segments. */
  lemma SegmentsInjective(p: string, q: string)
    requires IsCanonicalPath(p) && IsCanonicalPath(q) && Segments(p) == Segments(q)
    ensures p == q
  {
    RootedParts(p);
    RootedParts(q);
  }

  /** Coverage of canonical paths is a partial order. */
  lemma PrefixMatchIsPartialOrder(p: string, q: string, r: string)
    requires IsCanonicalPath(p) && IsCanonicalPath(q) && IsCanonicalPath(r)
    ensures PathMatchesPrefix(p, p)
    ensures PathMatchesPrefix(p, q) && PathMatchesPrefix(q, p) ==> p == q
    ensures PathMatchesPrefix(p, q) && PathMatchesPrefix(q, r) ==> PathMatchesPrefix(p, r)
  {
    PrefixMatchIsSegmentExact(p, q);
    PrefixMatchIsSegmentExact(q, p);
    PrefixMatchIsSegmentExact(q, r);
    PrefixMatchIsSegmentExact(p, r);
    if Segments(p) <= Segments(q) && Segments(q) <= Segments(p) {
      SegmentsInjective(p, q);
    }
  }

  /** A rule never covers a path that merely continues its last segment: "/pay" and "/payments". */
  lemma ContinuedSegmentIsNotCovered(prefix: string, tail: string)
    requires IsCanonicalPath(prefix) && prefix != "/"
    requires tail != [] && tail[0] != '/'
    ensures !PathMatchesPrefix(prefix + tail, prefix)
  {
    assert (prefix + tail)[|prefix|] == tail[0];
  }
}

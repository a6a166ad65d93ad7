/**
 * The JSON text the signed schema is written in: Python's compact ASCII printer and
 * its parser (section 7 of RFC 8259 for strings). Strings are Unicode scalars.
 */
module Json {
  import opened Wrappers

  datatype Json =
    | Null
    | Bool(truth: bool)
    | Number(text: string)
    | Str(text: string)
    | Arr(items: seq<Json>)
    | Obj(fields: seq<Field>)

  datatype Field = Field(name: string, value: Json)

  // ----- Printing -----

  function HexDigit(v: int): (c: char)
    requires 0 <= v < 16
    ensures '0' <= c <= '9' || 'a' <= c <= 'f'
  {
    if v < 10 then ('0' as int + v) as char else ('a' as int + v - 10) as char
  }

  /** "\uXXXX" */
  function UnicodeEscape(unit: int): (s: string)
    requires 0 <= unit < 0x10000
    ensures |s| == 6
  {
    ['\\', 'u', HexDigit(unit / 0x1000), HexDigit(unit / 0x100 % 0x10), HexDigit(unit / 0x10 % 0x10), HexDigit(unit % 0x10)]
  }

  function SimpleEscape(c: char): Option<char> {
    if c == '\"' then Some('\"')
    else if c == '\\' then Some('\\')
    else if c == '\n' then Some('n')
    else if c == '\r' then Some('r')
    else if c == '\t' then Some('t')
    else if c as int == 0x0C then Some('f')
    else if c as int == 0x08 then Some('b')
    else None
  }

  function EscapeChar(c: char): (s: string)
    ensures s != []
  {
    var n := c as int;
    if SimpleEscape(c).Some? then ['\\', SimpleEscape(c).value]
    else if 0x20 <= n < 0x7F then [c]
    else if n < 0x10000 then UnicodeEscape(n)
    else UnicodeEscape(0xD800 + (n - 0x10000) / 0x400) + UnicodeEscape(0xDC00 + (n - 0x10000) % 0x400)
  }

  function EscapeText(text: string): string {
    if text == [] then [] else EscapeChar(text[0]) + EscapeText(text[1..])
  }

  function PrintString(text: string): string {
    "\"" + (EscapeText(text) + "\"")
  }

  /** The values the signed schema writes: strings, null and objects of them. */
  predicate Textual(v: Json) {
    match v
    case Null => true
    case Str(_) => true
    case Obj(fields) => forall i :: 0 <= i < |fields| ==> Textual(fields[i].value)
    case _ => false
  }

  /** `json.dumps(v, separators=(",", ":"), ensure_ascii=True)` */
  function Print(v: Json): string
    requires Textual(v)
    decreases v, 0
  {
    match v
    case Null => "null"
    case Str(text) => PrintString(text)
    case Obj(fields) => "{" + PrintFields(fields)
  }

  /** The fields of an object, with the brace that closes it. */
  function PrintFields(fields: seq<Field>): string
    requires forall i :: 0 <= i < |fields| ==> Textual(fields[i].value)
    decreases fields
  {
    if fields == [] then "}"
    else PrintField(fields[0]) + (if |fields| == 1 then "}" else "," + PrintFields(fields[1..]))
  }

  function PrintField(field: Field): string
    requires Textual(field.value)
    decreases field
  {
    PrintString(field.name) + (":" + Print(field.value))
  }

  // ----- Parsing -----

  /** A value read from the front of some text, and the text left over. */
  datatype Read<T> = Read(value: T, rest: string)

  predicate IsHexDigit(c: char) {
    '0' <= c <= '9' || 'a' <= c <= 'f' || 'A' <= c <= 'F'
  }

  function HexDigitValue(c: char): (v: int)
    requires IsHexDigit(c)
    ensures 0 <= v < 16
  {
    if c <= '9' then c as int - '0' as int
    else if c <= 'F' then c as int - 'A' as int + 10
    else c as int - 'a' as int + 10
  }

  /** The code unit of a "\uXXXX" escape at the front of `s`. */
  function ParseUnit(s: string): (unit: Option<int>)
    ensures unit.Some? ==> |s| >= 6 && 0 <= unit.value < 0x10000
  {
    if |s| >= 6 && s[0] == '\\' && s[1] == 'u' && IsHexDigit(s[2]) && IsHexDigit(s[3]) && IsHexDigit(s[4]) && IsHexDigit(s[5])
    then Some(((HexDigitValue(s[2]) * 16 + HexDigitValue(s[3])) * 16 + HexDigitValue(s[4])) * 16 + HexDigitValue(s[5]))
    else None
  }

  function UnescapeSimple(c: char): Option<char> {
    if c == '\"' then Some('\"')
    else if c == '\\' then Some('\\')
    else if c == '/' then Some('/')
    else if c == 'n' then Some('\n')
    else if c == 'r' then Some('\r')
    else if c == 't' then Some('\t')
    else if c == 'f' then Some(0x0C as char)
    else if c == 'b' then Some(0x08 as char)
    else None
  }

  function ParseEscape(s: string): (r: Option<Read<char>>)
    requires s != [] && s[0] == '\\'
    ensures r.Some? ==> |r.value.rest| < |s|
  {
    if |s| >= 2 && UnescapeSimple(s[1]).Some? then Some(Read(UnescapeSimple(s[1]).value, s[2..]))
    else
      match ParseUnit(s)
      case None => None
      case Some(unit) =>
        if 0xD800 <= unit < 0xDC00 then
          match ParseUnit(s[6..])
          case None => None
          case Some(low) =>
            if 0xDC00 <= low < 0xE000
            then Some(Read((0x10000 + (unit - 0xD800) * 0x400 + (low - 0xDC00)) as char, s[12..]))
            else None
        else if 0xDC00 <= unit < 0xE000 then None
        else Some(Read(unit as char, s[6..]))
  }

  /** The rest of a string literal, after its opening quote. */
  function ParseText(s: string): (r: Option<Read<string>>)
    ensures r.Some? ==> |r.value.rest| < |s|
    decreases |s|
  {
    if s == [] then None
    else if s[0] == '\"' then Some(Read([], s[1..]))
    else if s[0] == '\\' then
      match ParseEscape(s)
      case None => None
      case Some(head) =>
        (match ParseText(head.rest)
         case None => None
         case Some(tail) => Some(Read([head.value] + tail.value, tail.rest)))
    else if (s[0] as int) < 0x20 then None
    else
      match ParseText(s[1..])
      case None => None
      case Some(tail) => Some(Read([s[0]] + tail.value, tail.rest))
  }

  predicate IsJsonSpace(c: char) {
    c == ' ' || c == '\t' || c == '\n' || c == '\r'
  }

  function SkipSpace(s: string): (r: string)
    ensures |r| <= |s|
  {
    if s != [] && IsJsonSpace(s[0]) then SkipSpace(s[1..]) else s
  }

  function DigitsEnd(s: string, from: nat): (end: nat)
    requires from <= |s|
    ensures from <= end <= |s|
    decreases |s| - from
  {
    if from < |s| && '0' <= s[from] <= '9' then DigitsEnd(s, from + 1) else from
  }

  /** Where the number literal at the front of `s` ends; 0 when there is none. */
  function NumberEnd(s: string): (end: nat)
    ensures end <= |s|
  {
    var first := if s != [] && s[0] == '-' then 1 else 0;
    if first == |s| || !('0' <= s[first] <= '9') then 0
    else
      var integer := if s[first] == '0' then first + 1 else DigitsEnd(s, first);
      var fraction :=
        if integer + 1 < |s| && s[integer] == '.' && DigitsEnd(s, integer + 1) > integer + 1
        then DigitsEnd(s, integer + 1) else integer;
      var sign :=
        if fraction + 1 < |s| && (s[fraction] == 'e' || s[fraction] == 'E') then
          (if s[fraction + 1] == '-' || s[fraction + 1] == '+' then fraction + 2 else fraction + 1)
        else 0;
      if 0 < sign <= |s| && DigitsEnd(s, sign) > sign then DigitsEnd(s, sign) else fraction
  }

  function ParseWord(s: string, word: string, v: Json): (r: Option<Read<Json>>)
    ensures r.Some? ==> word <= s && |r.value.rest| == |s| - |word|
  {
    if word <= s then Some(Read(v, s[|word|..])) else None
  }

  function ParseValue(s: string): (r: Option<Read<Json>>)
    ensures r.Some? ==> |r.value.rest| < |s|
    decreases |s|, 0
  {
    if s == [] then None
    else if s[0] == '\"' then
      match ParseText(s[1..])
      case None => None
      case Some(t) => Some(Read(Str(t.value), t.rest))
    else if s[0] == '{' then
      var body := SkipSpace(s[1..]);
      if body != [] && body[0] == '}' then Some(Read(Obj([]), body[1..]))
      else
        match ParseFields(body)
        case None => None
        case Some(fs) => Some(Read(Obj(fs.value), fs.rest))
    else if s[0] == '[' then
      var body := SkipSpace(s[1..]);
      if body != [] && body[0] == ']' then Some(Read(Arr([]), body[1..]))
      else
        match ParseItems(body)
        case None => None
        case Some(items) => Some(Read(Arr(items.value), items.rest))
    else if s[0] == 'n' then ParseWord(s, "null", Null)
    else if s[0] == 't' then ParseWord(s, "true", Bool(true))
    else if s[0] == 'f' then ParseWord(s, "false", Bool(false))
    else if s[0] == 'N' then ParseWord(s, "NaN", Number("NaN"))
    else if s[0] == 'I' then ParseWord(s, "Infinity", Number("Infinity"))
    else if "-I" <= s then ParseWord(s, "-Infinity", Number("-Infinity"))
    else if NumberEnd(s) > 0 then Some(Read(Number(s[..NumberEnd(s)]), s[NumberEnd(s)..]))
    else None
  }

  /** A name, a colon and a value. */
  function ParseField(s: string): (r: Option<Read<Field>>)
    ensures r.Some? ==> |r.value.rest| < |s|
    decreases |s|, 1
  {
    if s == [] || s[0] != '\"' then None
    else
      match ParseText(s[1..])
      case None => None
      case Some(name) =>
        var colon := SkipSpace(name.rest);
        if colon == [] || colon[0] != ':' then None
        else
          match ParseValue(SkipSpace(colon[1..]))
          case None => None
          case Some(v) => Some(Read(Field(name.value, v.value), v.rest))
  }

  /** One or more fields up to the closing brace. */
  function ParseFields(s: string): (r: Option<Read<seq<Field>>>)
    ensures r.Some? ==> |r.value.rest| < |s|
    decreases |s|, 2
  {
    match ParseField(s)
    case None => None
    case Some(field) =>
      var next := SkipSpace(field.rest);
      if next == [] then None
      else if next[0] == '}' then Some(Read([field.value], next[1..]))
      else if next[0] != ',' then None
      else
        match ParseFields(SkipSpace(next[1..]))
        case None => None
        case Some(more) => Some(Read([field.value] + more.value, more.rest))
  }

  /** One or more items up to the closing bracket. */
  function ParseItems(s: string): (r: Option<Read<seq<Json>>>)
    ensures r.Some? ==> |r.value.rest| < |s|
    decreases |s|, 1
  {
    match ParseValue(s)
    case None => None
    case Some(v) =>
      var next := SkipSpace(v.rest);
      if next == [] then None
      else if next[0] == ']' then Some(Read([v.value], next[1..]))
      else if next[0] != ',' then None
      else
        match ParseItems(SkipSpace(next[1..]))
        case None => None
        case Some(more) => Some(Read([v.value] + more.value, more.rest))
  }

  /** `json.loads` */
  function Loads(s: string): Option<Json> {
    match ParseValue(SkipSpace(s))
    case None => None
    case Some(v) => if SkipSpace(v.rest) == [] then Some(v.value) else None
  }

  /** `mapping.get(name)`: a repeated key keeps its last value. */
  function Lookup(fields: seq<Field>, name: string): Option<Json> {
    if fields == [] then None
    else if fields[|fields| - 1].name == name then Some(fields[|fields| - 1].value)
    else Lookup(fields[..|fields| - 1], name)
  }

  /** With distinct names, every field is found under its name. */
  lemma {:induction false} LookupAt(fields: seq<Field>, i: nat)
    requires i < |fields|
    requires forall j, k :: 0 <= j < k < |fields| ==> fields[j].name != fields[k].name
    ensures Lookup(fields, fields[i].name) == Some(fields[i].value)
    decreases |fields|
  {
    if i < |fields| - 1 {
      LookupAt(fields[..|fields| - 1], i);
    }
  }

  lemma {:induction false} LookupAbsent(fields: seq<Field>, name: string)
    requires forall j :: 0 <= j < |fields| ==> fields[j].name != name
    ensures Lookup(fields, name) == None
    decreases |fields|
  {
    if fields != [] {
      LookupAbsent(fields[..|fields| - 1], name);
    }
  }

  // ----- Round trip -----

  lemma HexDigitRoundTrip(v: int)
    requires 0 <= v < 16
    ensures IsHexDigit(HexDigit(v)) && HexDigitValue(HexDigit(v)) == v
  {
  }

  lemma HexDigitsAddUp(unit: int)
    requires 0 <= unit < 0x10000
    ensures ((unit / 0x1000 * 16 + unit / 0x100 % 0x10) * 16 + unit / 0x10 % 0x10) * 16 + unit % 0x10 == unit
  {
    assert unit / 0x100 == unit / 0x1000 * 16 + unit / 0x100 % 0x10;
    assert unit / 0x10 == unit / 0x100 * 16 + unit / 0x10 % 0x10;
  }

  lemma ParseUnitOf(s: string, a: int, b: int, c: int, d: int)
    requires 0 <= a < 16 && 0 <= b < 16 && 0 <= c < 16 && 0 <= d < 16
    requires |s| >= 6 && s[0] == '\\' && s[1] == 'u'
    requires s[2] == HexDigit(a) && s[3] == HexDigit(b) && s[4] == HexDigit(c) && s[5] == HexDigit(d)
    ensures ParseUnit(s) == Some(((a * 16 + b) * 16 + c) * 16 + d)
  {
    HexDigitRoundTrip(a);
    HexDigitRoundTrip(b);
    HexDigitRoundTrip(c);
    HexDigitRoundTrip(d);
  }

  lemma UnitRoundTrip(unit: int, rest: string)
    requires 0 <= unit < 0x10000
    ensures ParseUnit(UnicodeEscape(unit) + rest) == Some(unit)
    ensures (UnicodeEscape(unit) + rest)[1] == 'u' && (UnicodeEscape(unit) + rest)[6..] == rest
  {
    ParseUnitOf(UnicodeEscape(unit) + rest, unit / 0x1000, unit / 0x100 % 0x10, unit / 0x10 % 0x10, unit % 0x10);
    HexDigitsAddUp(unit);
  }

  lemma UnicodeEscapeRoundTrip(unit: int, rest: string)
    requires 0 <= unit < 0x10000 && !(0xD800 <= unit < 0xE000)
    ensures ParseEscape(UnicodeEscape(unit) + rest) == Some(Read(unit as char, rest))
  {
    UnitRoundTrip(unit, rest);
  }

  lemma SurrogatePairRoundTrip(high: int, low: int, rest: string)
    requires 0xD800 <= high < 0xDC00 <= low < 0xE000
    ensures ParseEscape(UnicodeEscape(high) + (UnicodeEscape(low) + rest)) ==
            Some(Read((0x10000 + (high - 0xD800) * 0x400 + (low - 0xDC00)) as char, rest))
  {
    var s := UnicodeEscape(high) + (UnicodeEscape(low) + rest);
    UnitRoundTrip(high, UnicodeEscape(low) + rest);
    UnitRoundTrip(low, rest);
    assert s[12..] == s[6..][6..];
  }

  lemma EscapeRoundTrip(c: char, rest: string)
    requires EscapeChar(c)[0] == '\\'
    ensures ParseEscape(EscapeChar(c) + rest) == Some(Read(c, rest))
  {
    var n := c as int;
    if SimpleEscape(c).Some? {
      assert (EscapeChar(c) + rest)[2..] == rest;
    } else if n < 0x10000 {
      UnicodeEscapeRoundTrip(n, rest);
    } else {
      var high, low := 0xD800 + (n - 0x10000) / 0x400, 0xDC00 + (n - 0x10000) % 0x400;
      assert EscapeChar(c) + rest == UnicodeEscape(high) + (UnicodeEscape(low) + rest);
      SurrogatePairRoundTrip(high, low, rest);
    }
  }

  lemma {:induction false} TextRoundTrip(text: string, rest: string)
    ensures ParseText(EscapeText(text) + ("\"" + rest)) == Some(Read(text, rest))
    decreases |text|
  {
    if text == [] {
      assert EscapeText(text) + ("\"" + rest) == "\"" + rest;
      assert ("\"" + rest)[1..] == rest;
    } else {
      var c := text[0];
      var tail := EscapeText(text[1..]) + ("\"" + rest);
      assert EscapeText(text) + ("\"" + rest) == EscapeChar(c) + tail;
      TextRoundTrip(text[1..], rest);
      assert [c] + text[1..] == text;
      if EscapeChar(c)[0] == '\\' {
        EscapeRoundTrip(c, tail);
      } else {
        assert ([c] + tail)[1..] == tail;
      }
    }
  }

  lemma QuotedThenRest(body: string, rest: string)
    ensures var s := "\"" + (body + "\"") + rest;
            s != [] && s[0] == '\"' && s[1..] == body + ("\"" + rest)
  {
    var s := "\"" + (body + "\"") + rest;
    assert s == "\"" + ((body + "\"") + rest);
    assert (body + "\"") + rest == body + ("\"" + rest);
  }

  lemma StringRoundTrip(text: string, rest: string)
    ensures PrintString(text) + rest != [] && (PrintString(text) + rest)[0] == '\"'
    ensures ParseText((PrintString(text) + rest)[1..]) == Some(Read(text, rest))
  {
    TextRoundTrip(text, rest);
    QuotedThenRest(EscapeText(text), rest);
  }

  lemma PrintHead(v: Json)
    requires Textual(v)
    ensures Print(v) != []
    ensures !IsJsonSpace(Print(v)[0])
  {
  }

  lemma NoSpaceToSkip(s: string)
    requires s != [] && !IsJsonSpace(s[0])
    ensures SkipSpace(s) == s
  {
  }

  lemma NullRoundTrip(rest: string)
    ensures ParseValue("null" + rest) == Some(Read(Null, rest))
  {
    assert ("null" + rest)[4..] == rest && "null" <= "null" + rest;
  }

  lemma ColonText(name: string, value: string, rest: string)
    ensures name + (":" + value) + rest == name + ((":" + value) + rest)
    ensures ((":" + value) + rest)[0] == ':' && ((":" + value) + rest)[1..] == value + rest
  {
    assert (":" + value) + rest == ":" + (value + rest);
  }

  lemma {:induction false} ValueRoundTrip(v: Json, rest: string)
    requires Textual(v)
    ensures ParseValue(Print(v) + rest) == Some(Read(v, rest))
    decreases v, 0
  {
    match v {
      case Null =>
        NullRoundTrip(rest);
      case Str(text) =>
        StringRoundTrip(text, rest);
      case Obj(fields) =>
        var s := "{" + PrintFields(fields) + rest;
        assert s[1..] == PrintFields(fields) + rest;
        if fields == [] {
          assert s[1..][1..] == rest;
        } else {
          FieldsRoundTrip(fields, rest);
        }
    }
  }

  lemma {:induction false} FieldRoundTrip(field: Field, rest: string)
    requires Textual(field.value)
    ensures var s := PrintField(field) + rest;
            s != [] && s[0] == '\"' && ParseField(s) == Some(Read(field, rest))
    decreases field, 0
  {
    var head := ":" + Print(field.value);
    ColonText(PrintString(field.name), Print(field.value), rest);
    StringRoundTrip(field.name, head + rest);
    PrintHead(field.value);
    ValueRoundTrip(field.value, rest);
  }

  /** What the parser does with a printed field and the text after it. */
  lemma {:induction false} FieldThenRest(field: Field, after: string)
    requires Textual(field.value)
    requires after != [] && (after[0] == '}' || (after[0] == ',' && |after| > 1 && !IsJsonSpace(after[1])))
    ensures ParseFields(PrintField(field) + after) ==
            if after[0] == '}' then Some(Read([field], after[1..]))
            else match ParseFields(after[1..])
                 case None => None
                 case Some(more) => Some(Read([field] + more.value, more.rest))
    decreases field, 1
  {
    FieldRoundTrip(field, after);
    NoSpaceToSkip(after);
    if after[0] == ',' {
      NoSpaceToSkip(after[1..]);
    }
  }

  lemma Reassociate(a: string, b: string, c: string)
    ensures a + b + c == a + (b + c)
  {
  }

  lemma PrintFieldsUnfold(fields: seq<Field>, rest: string)
    requires fields != [] && forall i :: 0 <= i < |fields| ==> Textual(fields[i].value)
    ensures PrintFields(fields) + rest ==
            PrintField(fields[0])
            + (if |fields| == 1 then "}" + rest else "," + (PrintFields(fields[1..]) + rest))
  {
    var head := PrintField(fields[0]);
    if |fields| == 1 {
      Reassociate(head, "}", rest);
    } else {
      Reassociate(head, "," + PrintFields(fields[1..]), rest);
      Reassociate(",", PrintFields(fields[1..]), rest);
    }
  }

  lemma {:induction false} FieldsRoundTrip(fields: seq<Field>, rest: string)
    requires fields != [] && forall i :: 0 <= i < |fields| ==> Textual(fields[i].value)
    ensures var s := PrintFields(fields) + rest;
            s != [] && s[0] == '\"' && ParseFields(s) == Some(Read(fields, rest))
    decreases fields, 0
  {
    var field, more := fields[0], fields[1..];
    PrintFieldsUnfold(fields, rest);
    assert PrintField(field)[0] == '\"';
    assert fields == [field] + more;
    if |fields| == 1 {
      assert [field] == fields;
      FieldThenRest(field, "}" + rest);
      assert ("}" + rest)[1..] == rest;
    } else {
      var after := "," + (PrintFields(more) + rest);
      FieldsRoundTrip(more, rest);
      assert after[1..] == PrintFields(more) + rest;
      assert after[1] == '\"';
      FieldThenRest(field, after);
    }
  }

  /** Printing a value and loading it returns the value. */
  lemma LoadsPrint(v: Json)
    requires Textual(v)
    ensures Loads(Print(v)) == Some(v)
  {
    PrintHead(v);
    ValueRoundTrip(v, []);
    assert Print(v) + [] == Print(v);
  }

  /** JSON text delimits itself: a printed value followed by anything is read back uniquely. */
  lemma PrintSelfDelimiting(v: Json, w: Json, a: string, b: string)
    requires Textual(v) && Textual(w)
    requires Print(v) + a == Print(w) + b
    ensures v == w && a == b
  {
    ValueRoundTrip(v, a);
    ValueRoundTrip(w, b);
  }

  lemma {:induction false} SkipsAllExactly(s: string)
    ensures SkipSpace(s) == [] <==> forall i :: 0 <= i < |s| ==> s[i] in [' ', '\t', '\n', '\r']
  {
    if s != [] {
      SkipsAllExactly(s[1..]);
      if s[0] in [' ', '\t', '\n', '\r'] {
        assert forall i :: 1 <= i < |s| ==> s[i] == s[1..][i - 1];
      }
    }
  }

  /** What follows a printed value may only be blank, tab, newline or carriage return. */
  lemma LoadsFollowed(v: Json, after: string)
    requires Textual(v)
    ensures Loads(Print(v) + after) ==
            if forall i :: 0 <= i < |after| ==> after[i] in [' ', '\t', '\n', '\r'] then Some(v) else None
  {
    PrintHead(v);
    ValueRoundTrip(v, after);
    SkipsAllExactly(after);
    NoSpaceToSkip(Print(v) + after);
  }

  // ----- The printed characters -----

  /** Visible ASCII and the blank. */
  predicate Visible(s: string) {
    forall i :: 0 <= i < |s| ==> 0x20 <= s[i] as int < 0x7F
  }

  lemma {:induction false} EscapedIsVisible(text: string)
    ensures Visible(EscapeText(text))
  {
    if text != [] {
      EscapedIsVisible(text[1..]);
    }
  }

  /** Whatever is printed is visible ASCII, so it has one encoding in bytes. */
  lemma {:induction false} PrintedIsVisible(v: Json)
    requires Textual(v)
    ensures Visible(Print(v))
    decreases v, 0
  {
    match v {
      case Null =>
      case Str(text) => EscapedIsVisible(text);
      case Obj(fields) => FieldsAreVisible(fields);
    }
  }

  lemma {:induction false} FieldsAreVisible(fields: seq<Field>)
    requires forall i :: 0 <= i < |fields| ==> Textual(fields[i].value)
    ensures Visible(PrintFields(fields))
    decreases fields
  {
    if fields != [] {
      EscapedIsVisible(fields[0].name);
      PrintedIsVisible(fields[0].value);
      FieldsAreVisible(fields[1..]);
    }
  }

  lemma {:induction false} PlainTextIsKept(text: string)
    requires Visible(text) && forall i :: 0 <= i < |text| ==> text[i] != '\"' && text[i] != '\\'
    ensures EscapeText(text) == text
  {
    if text != [] {
      PlainTextIsKept(text[1..]);
      assert EscapeChar(text[0]) == [text[0]];
    }
  }
}

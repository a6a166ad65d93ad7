/**
 * The claims text, and what the claims parser and the payload decoder accept, in terms of the JSON fields.
 */
module EnvelopeParsing {
  import opened Wrappers
  import opened Text
  import opened Json
  import opened SignedSchema

  // ----- The signed text -----

  /** A name the printer leaves as it is. */
  predicate PlainName(name: string) {
    Visible(name) && forall i :: 0 <= i < |name| ==> name[i] != '\"' && name[i] != '\\'
  }

  function Member(name: string, value: string): string {
    "\"" + name + "\":" + value
  }

  predicate Printable(fields: seq<Field>) {
    forall i :: 0 <= i < |fields| ==> PlainName(fields[i].name) && Textual(fields[i].value)
  }

  function Members(fields: seq<Field>): (texts: seq<string>)
    requires Printable(fields)
    ensures |texts| == |fields|
  {
    seq(|fields|, i requires 0 <= i < |fields| => Member(fields[i].name, Print(fields[i].value)))
  }

  lemma PrintedMember(field: Field)
    requires PlainName(field.name) && Textual(field.value)
    ensures PrintField(field) == Member(field.name, Print(field.value))
  {
    PlainTextIsKept(field.name);
  }

  lemma {:induction false} PrintedMembers(fields: seq<Field>)
    requires fields != [] && Printable(fields)
    ensures PrintFields(fields) == Join(Members(fields), ',') + "}"
    decreases |fields|
  {
    var (first, rest) := (Members(fields)[0], fields[1..]);
    PrintedMember(fields[0]);
    if rest == [] {
      assert Join(Members(fields), ',') == first;
    } else {
      PrintedMembers(rest);
      assert Members(fields)[1..] == Members(rest);
      Reassociate(first + [','], Join(Members(rest), ','), "}");
      Reassociate(first, ",", PrintFields(rest));
    }
  }

  lemma NamesArePlain()
    ensures PlainName("version") && PlainName("certificate_ref") && PlainName("issued_at")
    ensures PlainName("expires_at") && PlainName("payload")
  {
  }

  /** The five members, in their fixed order. */
  function ClaimMembers(claims: Claims): seq<string> {
    [ Member("version", PrintString(claims.version)),
      Member("certificate_ref", PrintString(claims.certificateRef)),
      Member("issued_at", PrintString(claims.issuedAt)),
      Member("expires_at", if claims.expiresAt.None? then "null" else PrintString(claims.expiresAt.value)),
      Member("payload", PrintString(claims.payload)) ]
  }

  lemma MembersOfClaims(claims: Claims)
    ensures Printable(ClaimFields(claims)) && Members(ClaimFields(claims)) == ClaimMembers(claims)
  {
    ClaimFieldsTextual(claims);
    NamesArePlain();
    var (fields, texts) := (ClaimFields(claims), ClaimMembers(claims));
    assert Members(fields)[0] == texts[0] && Members(fields)[1] == texts[1] && Members(fields)[2] == texts[2];
    assert Members(fields)[3] == texts[3] && Members(fields)[4] == texts[4];
  }

  /** What is signed: one compact object of visible ASCII, with the five claims in their fixed order. */
  lemma ClaimsTextIsSpelled(claims: Claims)
    ensures CanonicalClaims(claims) == "{" + (Join(ClaimMembers(claims), ',') + "}")
    ensures Visible(CanonicalClaims(claims))
  {
    ClaimFieldsTextual(claims);
    MembersOfClaims(claims);
    PrintedMembers(ClaimFields(claims));
    PrintedIsVisible(Obj(ClaimFields(claims)));
  }

  // ----- Fields -----

  /** Field `k` is the last of its name: the one a parsed object keeps. */
  predicate LastNamed(fields: seq<Field>, name: string, k: int) {
    0 <= k < |fields| && fields[k].name == name && forall i :: k < i < |fields| ==> fields[i].name != name
  }

  ghost predicate Says(fields: seq<Field>, name: string, v: Json) {
    exists k :: LastNamed(fields, name, k) && fields[k].value == v
  }

  lemma {:induction false} LookupExactly(fields: seq<Field>, name: string)
    ensures match Lookup(fields, name)
            case Some(v) => Says(fields, name, v)
            case None => forall i :: 0 <= i < |fields| ==> fields[i].name != name
    ensures forall v :: Says(fields, name, v) ==> Lookup(fields, name) == Some(v)
  {
    if fields != [] {
      var n := |fields| - 1;
      if fields[n].name == name {
        assert LastNamed(fields, name, n);
      } else {
        LookupExactly(fields[..n], name);
        assert forall k :: LastNamed(fields, name, k) <==> LastNamed(fields[..n], name, k);
      }
    }
  }

  /** The field is a text that is more than white space, and this is what trimming leaves of it. */
  ghost predicate ReadsText(fields: seq<Field>, name: string, text: string) {
    exists raw: string :: Says(fields, name, Str(raw)) && !Blank(raw) && text == Trim(raw)
  }

  lemma ReadsTextExactly(fields: seq<Field>, name: string, text: string)
    ensures ReadsText(fields, name, text) <==>
            Lookup(fields, name).Some? && RequiredString(name, Lookup(fields, name).value) == Ok(text)
  {
    LookupExactly(fields, name);
    if Lookup(fields, name).Some? && Lookup(fields, name).value.Str? {
      TrimsAwayExactly(Lookup(fields, name).value.text);
    }
    if ReadsText(fields, name, text) {
      var raw: string :| Says(fields, name, Str(raw)) && !Blank(raw) && text == Trim(raw);
      TrimsAwayExactly(raw);
    }
  }

  // ----- The claims -----

  ghost predicate ReadsExpiry(data: seq<Field>, claims: Claims, clock: TimestampReader) {
    match claims.expiresAt
    case None => Says(data, "expires_at", Null)
    case Some(text) =>
      && Says(data, "expires_at", Str(text)) && clock(text).Some? && clock(claims.issuedAt).Some?
      && clock(claims.issuedAt).value < clock(text).value
  }

  predicate ClaimName(name: string) {
    || name == "version" || name == "certificate_ref" || name == "issued_at"
    || name == "expires_at" || name == "payload"
  }

  predicate OnlyClaimNames(data: seq<Field>) {
    forall i :: 0 <= i < |data| ==> ClaimName(data[i].name)
  }

  lemma ClaimNameExactly(name: string)
    ensures name in CLAIM_NAMES <==> ClaimName(name)
  {
    var names := CLAIM_NAMES;
    assert |names| == 5 && names[0] == "version" && names[1] == "certificate_ref" && names[2] == "issued_at";
    assert names[3] == "expires_at" && names[4] == "payload";
  }

  lemma OnlyClaimNamesExactly(data: seq<Field>)
    ensures OnlyClaimNames(data) <==> !exists i :: 0 <= i < |data| && data[i].name !in CLAIM_NAMES
  {
    forall i | 0 <= i < |data| ensures data[i].name in CLAIM_NAMES <==> ClaimName(data[i].name) {
      ClaimNameExactly(data[i].name);
    }
  }

  /** The five fields and no others say these claims, of version 2, with an expiry after the issue if there is one. */
  ghost predicate ReadsAs(data: seq<Field>, claims: Claims, clock: TimestampReader) {
    && OnlyClaimNames(data)
    && claims.version == "2" && ReadsText(data, "version", claims.version)
    && ReadsText(data, "certificate_ref", claims.certificateRef)
    && Says(data, "issued_at", Str(claims.issuedAt)) && clock(claims.issuedAt).Some?
    && ReadsExpiry(data, claims, clock)
    && ReadsText(data, "payload", claims.payload)
  }

  lemma FieldsOf(data: seq<Field>, claims: Claims)
    ensures ReadsText(data, "version", claims.version) <==>
            Lookup(data, "version").Some? && RequiredString("version", Lookup(data, "version").value) == Ok(claims.version)
    ensures ReadsText(data, "certificate_ref", claims.certificateRef) <==>
            && Lookup(data, "certificate_ref").Some?
            && RequiredString("certificate_ref", Lookup(data, "certificate_ref").value) == Ok(claims.certificateRef)
    ensures ReadsText(data, "payload", claims.payload) <==>
            Lookup(data, "payload").Some? && RequiredString("payload", Lookup(data, "payload").value) == Ok(claims.payload)
  {
    ReadsTextExactly(data, "version", claims.version);
    ReadsTextExactly(data, "certificate_ref", claims.certificateRef);
    ReadsTextExactly(data, "payload", claims.payload);
  }

  lemma TimesOf(data: seq<Field>, claims: Claims)
    ensures Says(data, "issued_at", Str(claims.issuedAt)) <==> Lookup(data, "issued_at") == Some(Str(claims.issuedAt))
    ensures Says(data, "expires_at", ExpiryJson(claims.expiresAt)) <==>
            Lookup(data, "expires_at") == Some(ExpiryJson(claims.expiresAt))
  {
    LookupExactly(data, "issued_at");
    LookupExactly(data, "expires_at");
  }

  /** The names the parser requires and allows are the five. */
  lemma NamesMissing(data: seq<Field>)
    ensures FirstMissing(data, CLAIM_NAMES).None? <==>
            && Lookup(data, "version").Some? && Lookup(data, "certificate_ref").Some? && Lookup(data, "issued_at").Some?
            && Lookup(data, "expires_at").Some? && Lookup(data, "payload").Some?
  {
    var names := CLAIM_NAMES;
    assert names[0] == "version" && names[1] == "certificate_ref" && names[2] == "issued_at";
    assert names[3] == "expires_at" && names[4] == "payload" && |names| == 5;
    if FirstMissing(data, names).None? {
      assert Lookup(data, names[0]).Some? && Lookup(data, names[1]).Some? && Lookup(data, names[2]).Some?;
      assert Lookup(data, names[3]).Some? && Lookup(data, names[4]).Some?;
    }
  }

  /** Claims that the parser returns, field by field. */
  predicate FieldsGive(data: seq<Field>, claims: Claims, clock: TimestampReader)
    requires FirstMissing(data, CLAIM_NAMES).None?
  {
    NamesMissing(data);
    && claims.version == "2" && RequiredString("version", Lookup(data, "version").value) == Ok(claims.version)
    && OnlyClaimNames(data)
    && RequiredString("certificate_ref", Lookup(data, "certificate_ref").value) == Ok(claims.certificateRef)
    && Lookup(data, "issued_at").value == Str(claims.issuedAt) && clock(claims.issuedAt).Some?
    && Lookup(data, "expires_at").value == ExpiryJson(claims.expiresAt)
    && ClaimExpiry(ExpiryJson(claims.expiresAt), clock(claims.issuedAt).value, clock) == Ok(claims.expiresAt)
    && RequiredString("payload", Lookup(data, "payload").value) == Ok(claims.payload)
  }

  lemma ParsedFields(data: seq<Field>, clock: TimestampReader, claims: Claims)
    ensures ParseClaims(data, clock) == Ok(claims) <==>
            FirstMissing(data, CLAIM_NAMES).None? && FieldsGive(data, claims, clock)
  {
    NamesMissing(data);
    OnlyClaimNamesExactly(data);
  }

  lemma FieldsGiveExactly(data: seq<Field>, clock: TimestampReader, claims: Claims)
    requires FirstMissing(data, CLAIM_NAMES).None?
    ensures FieldsGive(data, claims, clock) <==> ReadsAs(data, claims, clock)
  {
    FieldsOf(data, claims);
    TimesOf(data, claims);
    NamesMissing(data);
  }

  lemma NothingMissing(data: seq<Field>, clock: TimestampReader, claims: Claims)
    requires ReadsAs(data, claims, clock)
    ensures FirstMissing(data, CLAIM_NAMES).None?
  {
    NamesMissing(data);
    FieldsOf(data, claims);
    TimesOf(data, claims);
    assert Says(data, "expires_at", ExpiryJson(claims.expiresAt));
  }

  /** The parser returns these claims exactly when the fields read as them. */
  lemma ParsedExactly(data: seq<Field>, clock: TimestampReader, claims: Claims)
    ensures ParseClaims(data, clock) == Ok(claims) <==> ReadsAs(data, claims, clock)
  {
    ParsedFields(data, clock, claims);
    if FirstMissing(data, CLAIM_NAMES).None? {
      FieldsGiveExactly(data, clock, claims);
    } else if ReadsAs(data, claims, clock) {
      NothingMissing(data, clock, claims);
    }
  }

  /** An older version is diagnosed as such whatever fields it carries; a stray field only under the right version. */
  lemma VersionIsDiagnosedFirst(data: seq<Field>, clock: TimestampReader, version: string)
    requires FirstMissing(data, CLAIM_NAMES).None? && ReadsText(data, "version", version)
    ensures version != "2" ==> ParseClaims(data, clock) == Err(UnsupportedVersion)
    ensures version == "2" && !OnlyClaimNames(data) ==> ParseClaims(data, clock) == Err(UnknownField)
  {
    ReadsTextExactly(data, "version", version);
    OnlyClaimNamesExactly(data);
  }

  // ----- The payload -----

  ghost predicate ReadsHint(fields: seq<Field>, hint: Option<string>) {
    match hint
    case None =>
      || (forall i :: 0 <= i < |fields| ==> fields[i].name != "code_algorithm_id")
      || Says(fields, "code_algorithm_id", Null) || Says(fields, "code_algorithm_id", Str(""))
    case Some(text) => exists raw: string :: Says(fields, "code_algorithm_id", Str(raw)) && raw != "" && text == Trim(raw)
  }

  lemma HintExactly(fields: seq<Field>, hint: Option<string>)
    ensures ReadsHint(fields, hint) <==> ReadAlgorithmHint(fields) == Ok(hint)
  {
    LookupExactly(fields, "code_algorithm_id");
  }

  lemma SignatureExactly(fields: seq<Field>, signature: string)
    ensures ReadsText(fields, "signature", signature) <==> ReadSignature(fields) == Ok(signature)
  {
    ReadsTextExactly(fields, "signature", signature);
  }

  predicate EnvelopeName(name: string) {
    name == "claims" || name == "signature" || name == "code_algorithm_id"
  }

  predicate OnlyEnvelopeNames(fields: seq<Field>) {
    forall i :: 0 <= i < |fields| ==> EnvelopeName(fields[i].name)
  }

  lemma OnlyEnvelopeNamesExactly(fields: seq<Field>)
    ensures OnlyEnvelopeNames(fields) <==>
            !exists i :: 0 <= i < |fields| && fields[i].name !in ["claims", "signature", "code_algorithm_id"]
  {
    forall i | 0 <= i < |fields|
      ensures EnvelopeName(fields[i].name) <==> fields[i].name in ["claims", "signature", "code_algorithm_id"]
    {
      var names := ["claims", "signature", "code_algorithm_id"];
      assert names[0] == "claims" && names[1] == "signature" && names[2] == "code_algorithm_id";
    }
  }

  /** The claims field is an object whose fields read as the claims. */
  ghost predicate ReadsClaims(fields: seq<Field>, claims: Claims, clock: TimestampReader) {
    exists data: seq<Field> :: Says(fields, "claims", Obj(data)) && ReadsAs(data, claims, clock)
  }

  lemma ReadsClaimsExactly(fields: seq<Field>, claims: Claims, clock: TimestampReader)
    ensures ReadsClaims(fields, claims, clock) <==>
            && Lookup(fields, "claims").Some? && Lookup(fields, "claims").value.Obj?
            && ParseClaims(Lookup(fields, "claims").value.fields, clock) == Ok(claims)
  {
    LookupExactly(fields, "claims");
    if Lookup(fields, "claims").Some? && Lookup(fields, "claims").value.Obj? {
      ParsedExactly(Lookup(fields, "claims").value.fields, clock, claims);
    }
  }

  /** The object's fields, and no others, say this envelope. */
  ghost predicate ReadsEnvelope(fields: seq<Field>, envelope: Envelope, clock: TimestampReader) {
    && OnlyEnvelopeNames(fields) && ReadsClaims(fields, envelope.claims, clock)
    && ReadsText(fields, "signature", envelope.signature) && ReadsHint(fields, envelope.codeAlgorithmId)
  }

  lemma DecodedFields(fields: seq<Field>, clock: TimestampReader, envelope: Envelope)
    ensures DecodeFields(fields, clock) == Ok(envelope) <==>
            && OnlyEnvelopeNames(fields)
            && Lookup(fields, "claims").Some? && Lookup(fields, "claims").value.Obj?
            && ReadSignature(fields) == Ok(envelope.signature)
            && ReadAlgorithmHint(fields) == Ok(envelope.codeAlgorithmId)
            && ParseClaims(Lookup(fields, "claims").value.fields, clock) == Ok(envelope.claims)
  {
    OnlyEnvelopeNamesExactly(fields);
  }

  lemma FieldsDecodeExactly(fields: seq<Field>, clock: TimestampReader, envelope: Envelope)
    ensures DecodeFields(fields, clock) == Ok(envelope) <==> ReadsEnvelope(fields, envelope, clock)
  {
    DecodedFields(fields, clock, envelope);
    ReadsClaimsExactly(fields, envelope.claims, clock);
    SignatureExactly(fields, envelope.signature);
    HintExactly(fields, envelope.codeAlgorithmId);
  }

  /**
   * The decoder returns this envelope exactly when the payload is more than white space, at most 8192
   * characters long, and JSON for an object whose fields read as it.
   */
  lemma DecodedExactly(payload: string, clock: TimestampReader, envelope: Envelope)
    ensures DecodeEnvelope(payload, clock) == Ok(envelope) <==>
            && !Blank(payload) && |payload| <= 8192
            && Loads(payload).Some? && Loads(payload).value.Obj?
            && ReadsEnvelope(Loads(payload).value.fields, envelope, clock)
  {
    TrimsAwayExactly(payload);
    if Loads(payload).Some? && Loads(payload).value.Obj? {
      FieldsDecodeExactly(Loads(payload).value.fields, clock, envelope);
    }
  }
}

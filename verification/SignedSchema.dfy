/**
 * The signed claims, their canonical text and the envelope they travel in:
 * parsing, canonicalisation, the QR payload round trip and envelope identity.
 */
module SignedSchema {
  import opened Wrappers
  import opened Text
  import opened Json

  /** Reads one claim timestamp; the instant is in microseconds. */
  type TimestampReader = string -> Option<int>

  const SUPPORTED_ALGORITHM_ID := "rsa-pss-sha256-v1"
  const SUPPORTED_CLAIMS_VERSION := "2"
  const MAX_QR_PAYLOAD_CHARS := 8192
  const CLAIM_NAMES := ["version", "certificate_ref", "issued_at", "expires_at", "payload"]

  datatype Claims = Claims(
    version: string,
    certificateRef: string,
    issuedAt: string,
    expiresAt: Option<string>,
    payload: string)

  datatype Envelope = Envelope(claims: Claims, signature: string, codeAlgorithmId: Option<string>)

  datatype Certificate = Certificate(certificateRef: string, algorithmId: string, publicKeyPem: Option<string>)

  datatype SchemaError =
    | MissingField(name: string)
    | NotAString(name: string)
    | EmptyField(name: string)
    | UnsupportedVersion
    | UnknownField
    | BadTimestamp(name: string)
    | ExpiryNotAfterIssue

  datatype QrError =
    | EmptyPayload
    | PayloadTooLong
    | NotJson
    | NotAnObject
    | UnsupportedKeys
    | NoClaimsObject
    | NoSignature
    | BadAlgorithmHint
    | BadClaims(error: SchemaError)

  // ----- Parsing claims -----

  /** A required, trimmed, non-blank string field. */
  function RequiredString(name: string, value: Json): Result<string, SchemaError> {
    match value
    case Str(text) => if Trim(text) == [] then Err(EmptyField(name)) else Ok(Trim(text))
    case _ => Err(NotAString(name))
  }

  function TimestampField(name: string, value: Json, clock: TimestampReader): Result<int, SchemaError> {
    match value
    case Str(text) => (match clock(text) case Some(t) => Ok(t) case None => Err(BadTimestamp(name)))
    case _ => Err(BadTimestamp(name))
  }

  function ClaimExpiry(value: Json, issuedAt: int, clock: TimestampReader): Result<Option<string>, SchemaError> {
    if value.Null? then Ok(None)
    else
      match TimestampField("expires_at", value, clock)
      case Err(e) => Err(e)
      case Ok(t) => if t <= issuedAt then Err(ExpiryNotAfterIssue) else Ok(Some(value.text))
  }

  /** The first claim name the mapping lacks. */
  function FirstMissing(data: seq<Field>, names: seq<string>): (r: Option<string>)
    ensures r.None? <==> forall i :: 0 <= i < |names| ==> Lookup(data, names[i]).Some?
  {
    if names == [] then None
    else if Lookup(data, names[0]).None? then Some(names[0])
    else FirstMissing(data, names[1..])
  }

  function ParseClaims(data: seq<Field>, clock: TimestampReader): Result<Claims, SchemaError> {
    var missing := FirstMissing(data, CLAIM_NAMES);
    if missing.Some? then Err(MissingField(missing.value))
    else
      assert && Lookup(data, CLAIM_NAMES[0]).Some? && Lookup(data, CLAIM_NAMES[1]).Some?
             && Lookup(data, CLAIM_NAMES[2]).Some? && Lookup(data, CLAIM_NAMES[3]).Some?
             && Lookup(data, CLAIM_NAMES[4]).Some?;
      match RequiredString("version", Lookup(data, "version").value)
      case Err(e) => Err(e)
      case Ok(version) =>
        if version != SUPPORTED_CLAIMS_VERSION then Err(UnsupportedVersion)
        else if exists i :: 0 <= i < |data| && data[i].name !in CLAIM_NAMES then Err(UnknownField)
        else
          match RequiredString("certificate_ref", Lookup(data, "certificate_ref").value)
          case Err(e) => Err(e)
          case Ok(certificateRef) =>
            var rawIssuedAt := Lookup(data, "issued_at").value;
            match TimestampField("issued_at", rawIssuedAt, clock)
            case Err(e) => Err(e)
            case Ok(issuedAt) =>
              match ClaimExpiry(Lookup(data, "expires_at").value, issuedAt, clock)
              case Err(e) => Err(e)
              case Ok(expiresAt) =>
                match RequiredString("payload", Lookup(data, "payload").value)
                case Err(e) => Err(e)
                case Ok(payload) => Ok(Claims(version, certificateRef, rawIssuedAt.text, expiresAt, payload))
  }

  // ----- Canonical text and envelope identity -----

  function ExpiryJson(expiresAt: Option<string>): Json {
    match expiresAt
    case None => Null
    case Some(text) => Str(text)
  }

  function ClaimFields(claims: Claims): seq<Field> {
    [ Field("version", Str(claims.version)),
      Field("certificate_ref", Str(claims.certificateRef)),
      Field("issued_at", Str(claims.issuedAt)),
      Field("expires_at", ExpiryJson(claims.expiresAt)),
      Field("payload", Str(claims.payload)) ]
  }

  lemma ClaimFieldsTextual(claims: Claims)
    ensures Textual(Obj(ClaimFields(claims)))
  {
  }

  function CanonicalClaims(claims: Claims): string {
    ClaimFieldsTextual(claims);
    Print(Obj(ClaimFields(claims)))
  }

  /** The text whose digest identifies one issued artifact. */
  function EnvelopeIdMaterial(claims: Claims, signature: string): string {
    CanonicalClaims(claims) + ("." + signature)
  }

  function ComputeEnvelopeId(sha256: string -> string, claims: Claims, signature: string): string {
    sha256(EnvelopeIdMaterial(claims, signature))
  }

  lemma ClaimFieldsInjective(a: Claims, b: Claims)
    requires ClaimFields(a) == ClaimFields(b)
    ensures a == b
  {
    assert ClaimFields(a)[0] == ClaimFields(b)[0];
    assert ClaimFields(a)[1] == ClaimFields(b)[1];
    assert ClaimFields(a)[2] == ClaimFields(b)[2];
    assert ClaimFields(a)[3] == ClaimFields(b)[3];
    assert ClaimFields(a)[4] == ClaimFields(b)[4];
  }

  /** No canonical claims text is a prefix of another, so whatever follows it is determined too. */
  lemma CanonicalClaimsUniquelyDecodable(a: Claims, b: Claims, afterA: string, afterB: string)
    requires CanonicalClaims(a) + afterA == CanonicalClaims(b) + afterB
    ensures a == b && afterA == afterB
  {
    ClaimFieldsTextual(a);
    ClaimFieldsTextual(b);
    PrintSelfDelimiting(Obj(ClaimFields(a)), Obj(ClaimFields(b)), afterA, afterB);
    ClaimFieldsInjective(a, b);
  }

  /** The claims encoding is injective. */
  lemma CanonicalClaimsInjective(a: Claims, b: Claims)
    ensures CanonicalClaims(a) == CanonicalClaims(b) <==> a == b
  {
    if CanonicalClaims(a) == CanonicalClaims(b) {
      assert CanonicalClaims(a) + [] == CanonicalClaims(b) + [];
      CanonicalClaimsUniquelyDecodable(a, b, [], []);
    }
  }

  /** With a collision-free digest, an envelope id names exactly one (claims, signature) pair. */
  lemma EnvelopeIdIdentifies(sha256: string -> string, a: Claims, s: string, b: Claims, t: string)
    requires forall x, y :: sha256(x) == sha256(y) ==> x == y
    ensures ComputeEnvelopeId(sha256, a, s) == ComputeEnvelopeId(sha256, b, t) <==> a == b && s == t
  {
    if ComputeEnvelopeId(sha256, a, s) == ComputeEnvelopeId(sha256, b, t) {
      CanonicalClaimsUniquelyDecodable(a, b, "." + s, "." + t);
      assert ("." + s)[1..] == s && ("." + t)[1..] == t;
    }
  }

  // ----- What the parser accepts -----

  /** The claims the parser can produce. */
  predicate WellFormed(claims: Claims, clock: TimestampReader) {
    && claims.version == SUPPORTED_CLAIMS_VERSION
    && claims.certificateRef != [] && Trimmed(claims.certificateRef)
    && claims.payload != [] && Trimmed(claims.payload)
    && clock(claims.issuedAt).Some?
    && (claims.expiresAt.Some? ==>
          && clock(claims.expiresAt.value).Some?
          && clock(claims.issuedAt).value < clock(claims.expiresAt.value).value)
  }

  lemma ParsedClaimsAreWellFormed(data: seq<Field>, clock: TimestampReader)
    requires ParseClaims(data, clock).Ok?
    ensures WellFormed(ParseClaims(data, clock).value, clock)
  {
    var names := CLAIM_NAMES;
    assert && Lookup(data, names[0]).Some? && Lookup(data, names[1]).Some?
           && Lookup(data, names[2]).Some? && Lookup(data, names[3]).Some? && Lookup(data, names[4]).Some?;
    TrimIsTrimmed(Lookup(data, "certificate_ref").value.text);
    TrimIsTrimmed(Lookup(data, "payload").value.text);
  }

  lemma ClaimFieldsLookup(claims: Claims)
    ensures var data := ClaimFields(claims);
            && Lookup(data, "version") == Some(Str(claims.version))
            && Lookup(data, "certificate_ref") == Some(Str(claims.certificateRef))
            && Lookup(data, "issued_at") == Some(Str(claims.issuedAt))
            && Lookup(data, "expires_at") == Some(ExpiryJson(claims.expiresAt))
            && Lookup(data, "payload") == Some(Str(claims.payload))
  {
    var data := ClaimFields(claims);
    LookupAt(data, 0);
    LookupAt(data, 1);
    LookupAt(data, 2);
    LookupAt(data, 3);
    LookupAt(data, 4);
  }

  /** Re-reading well-formed claims returns them. */
  lemma WellFormedClaimsReparse(claims: Claims, clock: TimestampReader)
    requires WellFormed(claims, clock)
    ensures ParseClaims(ClaimFields(claims), clock) == Ok(claims)
  {
    ClaimFieldsLookup(claims);
    TrimIsTrimmed(claims.certificateRef);
    TrimIsTrimmed(claims.payload);
    assert Trim("2") == "2";
    var data := ClaimFields(claims);
    assert FirstMissing(data, CLAIM_NAMES).None?;
    forall i | 0 <= i < |data| ensures data[i].name in CLAIM_NAMES {
      assert data[i].name == CLAIM_NAMES[i];
    }
  }

  // ----- The QR payload -----

  function ValidatePayloadSize(payload: string): Result<string, QrError> {
    if Trim(payload) == [] then Err(EmptyPayload)
    else if |payload| > MAX_QR_PAYLOAD_CHARS then Err(PayloadTooLong)
    else Ok(payload)
  }

  function EnvelopeFields(envelope: Envelope): seq<Field> {
    [ Field("claims", Obj(ClaimFields(envelope.claims))), Field("signature", Str(envelope.signature)) ]
    + match envelope.codeAlgorithmId
      case None => []
      case Some(hint) => [Field("code_algorithm_id", Str(hint))]
  }

  lemma EnvelopeFieldsTextual(envelope: Envelope)
    ensures Textual(Obj(EnvelopeFields(envelope)))
  {
    ClaimFieldsTextual(envelope.claims);
  }

  function EncodeEnvelope(envelope: Envelope): Result<string, QrError> {
    EnvelopeFieldsTextual(envelope);
    ValidatePayloadSize(Print(Obj(EnvelopeFields(envelope))))
  }

  function ReadSignature(fields: seq<Field>): Result<string, QrError> {
    match Lookup(fields, "signature")
    case Some(Str(text)) => if Trim(text) == [] then Err(NoSignature) else Ok(Trim(text))
    case _ => Err(NoSignature)
  }

  function ReadAlgorithmHint(fields: seq<Field>): Result<Option<string>, QrError> {
    match Lookup(fields, "code_algorithm_id")
    case None => Ok(None)
    case Some(Null) => Ok(None)
    case Some(Str(text)) => Ok(if text == [] then None else Some(Trim(text)))
    case _ => Err(BadAlgorithmHint)
  }

  function DecodeFields(fields: seq<Field>, clock: TimestampReader): Result<Envelope, QrError> {
    if exists i :: 0 <= i < |fields| && fields[i].name !in ["claims", "signature", "code_algorithm_id"]
    then Err(UnsupportedKeys)
    else
      match Lookup(fields, "claims")
      case Some(Obj(data)) =>
        (match ReadSignature(fields)
         case Err(e) => Err(e)
         case Ok(signature) =>
           match ReadAlgorithmHint(fields)
           case Err(e) => Err(e)
           case Ok(hint) =>
             match ParseClaims(data, clock)
             case Err(e) => Err(BadClaims(e))
             case Ok(claims) => Ok(Envelope(claims, signature, hint)))
      case _ => Err(NoClaimsObject)
  }

  function DecodeEnvelope(payload: string, clock: TimestampReader): Result<Envelope, QrError> {
    match ValidatePayloadSize(payload)
    case Err(e) => Err(e)
    case Ok(text) =>
      match Loads(text)
      case None => Err(NotJson)
      case Some(Obj(fields)) => DecodeFields(fields, clock)
      case Some(_) => Err(NotAnObject)
  }

  /** Nothing the decoder would trim or drop. */
  predicate Settled(envelope: Envelope) {
    && envelope.signature != [] && Trimmed(envelope.signature)
    && (envelope.codeAlgorithmId.Some? ==>
          envelope.codeAlgorithmId.value != [] && Trimmed(envelope.codeAlgorithmId.value))
  }

  lemma EnvelopeFieldsLookup(envelope: Envelope)
    ensures var fields := EnvelopeFields(envelope);
            && Lookup(fields, "claims") == Some(Obj(ClaimFields(envelope.claims)))
            && Lookup(fields, "signature") == Some(Str(envelope.signature))
            && Lookup(fields, "code_algorithm_id") ==
               (match envelope.codeAlgorithmId case None => None case Some(hint) => Some(Str(hint)))
  {
    var fields := EnvelopeFields(envelope);
    LookupAt(fields, 0);
    LookupAt(fields, 1);
    if envelope.codeAlgorithmId.Some? {
      LookupAt(fields, 2);
    } else {
      LookupAbsent(fields, "code_algorithm_id");
    }
  }

  lemma EnvelopeFieldsKnown(envelope: Envelope)
    ensures forall i :: 0 <= i < |EnvelopeFields(envelope)| ==>
              EnvelopeFields(envelope)[i].name in ["claims", "signature", "code_algorithm_id"]
  {
    var (fields, known) := (EnvelopeFields(envelope), ["claims", "signature", "code_algorithm_id"]);
    forall i | 0 <= i < |fields| ensures fields[i].name in known {
      assert fields[i].name == known[i];
    }
  }

  lemma DecodeOfFields(envelope: Envelope, clock: TimestampReader)
    requires WellFormed(envelope.claims, clock)
    ensures DecodeFields(EnvelopeFields(envelope), clock) ==
            if Trim(envelope.signature) == [] then Err(NoSignature)
            else Ok(Envelope(
                   envelope.claims,
                   Trim(envelope.signature),
                   if envelope.codeAlgorithmId.None? || envelope.codeAlgorithmId.value == [] then None
                   else Some(Trim(envelope.codeAlgorithmId.value))))
  {
    EnvelopeFieldsKnown(envelope);
    EnvelopeFieldsLookup(envelope);
    WellFormedClaimsReparse(envelope.claims, clock);
  }

  /** Decoding an encoded envelope, field by field. */
  lemma DecodeOfEncode(envelope: Envelope, clock: TimestampReader)
    requires WellFormed(envelope.claims, clock) && EncodeEnvelope(envelope).Ok?
    ensures DecodeEnvelope(EncodeEnvelope(envelope).value, clock) ==
            if Trim(envelope.signature) == [] then Err(NoSignature)
            else Ok(Envelope(
                   envelope.claims,
                   Trim(envelope.signature),
                   if envelope.codeAlgorithmId.None? || envelope.codeAlgorithmId.value == [] then None
                   else Some(Trim(envelope.codeAlgorithmId.value))))
  {
    EnvelopeFieldsTextual(envelope);
    LoadsPrint(Obj(EnvelopeFields(envelope)));
    DecodeOfFields(envelope, clock);
  }

  /**
   * Encoding and decoding returns the envelope exactly when its signature and its algorithm hint
   * (if present) are trimmed and non-empty.
   */
  lemma EnvelopeRoundTripExactly(envelope: Envelope, clock: TimestampReader)
    requires WellFormed(envelope.claims, clock) && EncodeEnvelope(envelope).Ok?
    ensures DecodeEnvelope(EncodeEnvelope(envelope).value, clock) == Ok(envelope) <==> Settled(envelope)
  {
    DecodeOfEncode(envelope, clock);
    TrimIsTrimmed(envelope.signature);
    if envelope.codeAlgorithmId.Some? {
      TrimIsTrimmed(envelope.codeAlgorithmId.value);
    }
  }

  /** Whatever the decoder accepts carries well-formed claims and a trimmed signature. */
  lemma DecodedIsWellFormed(payload: string, clock: TimestampReader)
    requires DecodeEnvelope(payload, clock).Ok?
    ensures var e := DecodeEnvelope(payload, clock).value;
            && WellFormed(e.claims, clock)
            && (Settled(e) <==> e.codeAlgorithmId != Some([]))
  {
    var fields := Loads(payload).value.fields;
    ParsedClaimsAreWellFormed(Lookup(fields, "claims").value.fields, clock);
    TrimIsTrimmed(Lookup(fields, "signature").value.text);
    match Lookup(fields, "code_algorithm_id") {
      case Some(Str(text)) => TrimIsTrimmed(text);
      case _ =>
    }
  }

  /** A decoded envelope survives another trip exactly when its hint was not blank text. */
  lemma DecodedEnvelopeSurvives(payload: string, clock: TimestampReader)
    requires DecodeEnvelope(payload, clock).Ok? && EncodeEnvelope(DecodeEnvelope(payload, clock).value).Ok?
    ensures var e := DecodeEnvelope(payload, clock).value;
            DecodeEnvelope(EncodeEnvelope(e).value, clock) == Ok(e) <==> e.codeAlgorithmId != Some([])
  {
    DecodedIsWellFormed(payload, clock);
    EnvelopeRoundTripExactly(DecodeEnvelope(payload, clock).value, clock);
  }

  // ----- Verifying an envelope -----

  /** `verify_signature`, left uninterpreted. */
  type SignatureCheck = (string, string, Option<string>) -> bool

  /** Accepts when the algorithm is supported, the references agree and the signature covers the canonical claims. */
  predicate EnvelopeVerifies(envelope: Envelope, certificate: Certificate, check: SignatureCheck) {
    && certificate.algorithmId == SUPPORTED_ALGORITHM_ID
    && envelope.claims.certificateRef == certificate.certificateRef
    && (envelope.codeAlgorithmId.Some? ==> envelope.codeAlgorithmId.value == certificate.algorithmId)
    && check(CanonicalClaims(envelope.claims), envelope.signature, certificate.publicKeyPem)
  }
}

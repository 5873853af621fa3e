/** The error type every layer returns (crates/pkg/src/errors.rs). The older
    copy in src/pkg/errors/mod.rs has the first five of these variants with the
    same texts; this one type stands for both. */
module Errors {
  import opened Text
  import opened Numerals

  type U128 = n: nat | n < 0x1_0000_0000_0000_0000_0000_0000_0000_0000

  /** A UUID, kept as its 128-bit value. Ids come from outside the model. */
  datatype Uuid = Uuid(bits: U128)

  /** `Uuid::nil()`, the all-zero id. */
  const NilUuid: Uuid := Uuid(0)

  /** The hyphenated lowercase form `xxxxxxxx-xxxx-xxxx-xxxx-xxxxxxxxxxxx`. */
  function UuidText(u: Uuid): (s: string)
    ensures |s| == 36
    ensures s[8] == s[13] == s[18] == s[23] == '-'
  {
    var h := HexFixed(u.bits, 32);
    h[..8] + "-" + h[8..12] + "-" + h[12..16] + "-" + h[16..20] + "-" + h[20..]
  }

  /** Distinct ids are displayed differently. */
  lemma UuidTextInjective(a: Uuid, b: Uuid)
    requires UuidText(a) == UuidText(b)
    ensures a == b
  {
    var ha, hb := HexFixed(a.bits, 32), HexFixed(b.bits, 32);
    var s := UuidText(a);
    assert ha[..8] == s[..8] == hb[..8];
    assert ha[8..12] == s[9..13] == hb[8..12];
    assert ha[12..16] == s[14..18] == hb[12..16];
    assert ha[16..20] == s[19..23] == hb[16..20];
    assert ha[20..] == s[24..] == hb[20..];
    assert ha == ha[..8] + ha[8..12] + ha[12..16] + ha[16..20] + ha[20..];
    assert hb == hb[..8] + hb[8..12] + hb[12..16] + hb[16..20] + hb[20..];
    Pow16Of32();
    HexRoundTrip(a.bits, 32);
    HexRoundTrip(b.bits, 32);
  }

  datatype RepositoryError =
    | NotFound(id: Uuid)
    | AlreadyExists(id: Uuid)
    | ValidationError(message: string)
    | DatabaseError(message: string)
    | InternalError(message: string)
    | Unauthorized(message: string)
    | Forbidden(message: string)
    | BadRequest(message: string)

  /** The `#[error(...)]` texts, that is `e.to_string()`. */
  function Display(e: RepositoryError): string {
    match e
    case NotFound(id) => "Entity with ID " + UuidText(id) + " not found"
    case AlreadyExists(id) => "Entity with ID " + UuidText(id) + " already exists"
    case ValidationError(m) => "Validation error: " + m
    case DatabaseError(m) => "Database error: " + m
    case InternalError(m) => "Internal error: " + m
    case Unauthorized(m) => "Unauthorized: " + m
    case Forbidden(m) => "Forbidden: " + m
    case BadRequest(m) => "Bad request: " + m
  }

  /** Every display text starts with its variant's own prefix and ends with the
      payload; the first character alone tells the variants apart except for the
      two id-carrying ones. */
  lemma DisplayShape(e: RepositoryError)
    ensures e.NotFound? || e.AlreadyExists? ==>
      Display(e)[..15] == "Entity with ID " && Display(e)[15..51] == UuidText(e.id)
    ensures e.NotFound? ==> Display(e)[51..] == " not found"
    ensures e.AlreadyExists? ==> Display(e)[51..] == " already exists"
    ensures e.ValidationError? ==> Display(e) == "Validation error: " + e.message
    ensures e.DatabaseError? ==> Display(e) == "Database error: " + e.message
    ensures e.InternalError? ==> Display(e) == "Internal error: " + e.message
    ensures e.Unauthorized? ==> Display(e) == "Unauthorized: " + e.message
    ensures e.Forbidden? ==> Display(e) == "Forbidden: " + e.message
    ensures e.BadRequest? ==> Display(e) == "Bad request: " + e.message
  {
  }

  /** Two errors with the same display text are the same error. */
  lemma DisplayInjective(a: RepositoryError, b: RepositoryError)
    requires Display(a) == Display(b)
    ensures a == b
  {
    var s := Display(a);
    assert s[0] == Display(b)[0];
    match a
    case NotFound(x) =>
      var y := b.id;
      assert s[52] == Display(b)[52];
      assert UuidText(x) == s[15..51] == UuidText(y);
      UuidTextInjective(x, y);
    case AlreadyExists(x) =>
      var y := b.id;
      assert s[52] == Display(b)[52];
      assert UuidText(x) == s[15..51] == UuidText(y);
      UuidTextInjective(x, y);
    case ValidationError(m) => PrefixCancel("Validation error: ", m, b.message);
    case DatabaseError(m) => PrefixCancel("Database error: ", m, b.message);
    case InternalError(m) => PrefixCancel("Internal error: ", m, b.message);
    case Unauthorized(m) => PrefixCancel("Unauthorized: ", m, b.message);
    case Forbidden(m) => PrefixCancel("Forbidden: ", m, b.message);
    case BadRequest(m) => PrefixCancel("Bad request: ", m, b.message);
  }

  /** `impl From<String> for RepositoryError`. */
  function FromString(s: string): (e: RepositoryError)
    ensures e.ValidationError? && Display(e) == "Validation error: " + s
  {
    ValidationError(s)
  }

  /** The `validator` crate's error collection, kept as the text its
      `to_string` renders; that rendering belongs to the crate and is not modelled. */
  datatype ValidationErrors = ValidationErrors(rendered: string)

  /** `impl From<validator::ValidationErrors> for RepositoryError`. */
  function FromValidationErrors(errors: ValidationErrors): (e: RepositoryError)
    ensures e == FromString(errors.rendered)
  {
    ValidationError(errors.rendered)
  }
}

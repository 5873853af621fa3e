/** The helpers of src/internal/shared/utils.rs: input validators, string
    clean-up and the pagination arithmetic. Letters and digits are classified
    as ASCII. */
module SharedUtils {
  import opened Wrappers
  import opened Text
  import opened Numerals
  import opened Validation

  // ---- validation ----

  /** `validate_email`: empty first, then the email pattern. */
  function ValidateEmail(email: string): (r: Result<(), string>)
    ensures email == [] ==> r == Err("Email cannot be empty")
    ensures email != [] && !IsValidEmail(email) ==> r == Err("Invalid email format")
    ensures r.Ok? <==> EmailPattern(email)
  {
    EmailScanMatchesPattern(email);
    if email == [] then Err("Email cannot be empty")
    else if !IsValidEmail(email) then Err("Invalid email format")
    else Ok(())
  }

  /** The pattern `^[a-zA-Z0-9_]{3,50}$`. */
  predicate UsernamePattern(s: string) {
    3 <= |s| <= 50 && forall k :: 0 <= k < |s| ==> IsAsciiAlphanumeric(s[k]) || s[k] == '_'
  }

  /** `validate_username`: empty first, then the username pattern. */
  function ValidateUsername(username: string): (r: Result<(), string>)
    ensures username == [] ==> r == Err("Username cannot be empty")
    ensures username != [] && !UsernamePattern(username) ==>
      r == Err("Username must be 3-50 characters long and contain only letters, numbers, and underscores")
    ensures r.Ok? <==> UsernamePattern(username)
  {
    if username == [] then Err("Username cannot be empty")
    else if !UsernamePattern(username) then
      Err("Username must be 3-50 characters long and contain only letters, numbers, and underscores")
    else Ok(())
  }

  /** The workspace's rule (3 to 20) is the stricter: a name it accepts is
      accepted here too. */
  lemma UsernameRulesNest(username: string)
    requires IsValidUsername(username)
    ensures ValidateUsername(username) == Ok(())
  {
    UsernameIsAscii(username);
  }

  /** `validate_length`, on the byte length. */
  function ValidateLength(value: string, fieldName: string, min: nat, max: nat): (r: Result<(), string>)
    ensures r.Err? <==> Utf8Len(value) < min || Utf8Len(value) > max
    ensures r.Err? ==> r.error == fieldName + " must be between " + NatToDecimal(min) + " and " + NatToDecimal(max) + " characters"
  {
    var len := Utf8Len(value);
    if len < min || len > max then
      Err(fieldName + " must be between " + NatToDecimal(min) + " and " + NatToDecimal(max) + " characters")
    else Ok(())
  }

  /** `validate_not_empty`: rejected exactly when the value is all white space. */
  function ValidateNotEmpty(value: string, fieldName: string): (r: Result<(), string>)
    ensures r.Err? <==> forall k :: 0 <= k < |value| ==> IsWhitespace(value[k])
    ensures r.Err? ==> r.error == fieldName + " cannot be empty"
  {
    TrimEmpty(value);
    if Trim(value) == [] then Err(fieldName + " cannot be empty") else Ok(())
  }

  function ValidatePositive(value: I32, fieldName: string): (r: Result<(), string>)
    ensures r.Err? <==> value <= 0
    ensures r.Err? ==> r.error == fieldName + " must be positive"
  {
    if value <= 0 then Err(fieldName + " must be positive") else Ok(())
  }

  function ValidateRange(value: I32, fieldName: string, min: I32, max: I32): (r: Result<(), string>)
    ensures r.Err? <==> value < min || value > max
    ensures r.Err? ==> r.error == fieldName + " must be between " + IntToDecimal(min) + " and " + IntToDecimal(max)
  {
    if value < min || value > max then
      Err(fieldName + " must be between " + IntToDecimal(min) + " and " + IntToDecimal(max))
    else Ok(())
  }

  /** `validate_positive` accepts what `validate_range` with bounds
      1..i32::MAX accepts. */
  lemma PositiveIsRange(value: I32, fieldName: string)
    ensures ValidatePositive(value, fieldName).Ok? <==> ValidateRange(value, fieldName, 1, 0x7FFF_FFFF).Ok?
  {
  }

  // ---- string_utils ----

  /** `truncate`: text of at most `maxLen` bytes is kept; longer text is cut
      to its first `maxLen` bytes and "..." is appended. The cut panics when
      it falls inside a character. */
  function Truncate(s: string, maxLen: nat): (r: Outcome<string>)
    ensures Utf8Len(s) <= maxLen ==> r == Returns(s)
    ensures Utf8Len(s) > maxLen && r.Returns? ==>
      exists p :: p <= s && Utf8Len(p) == maxLen && r.value == p + "..."
  {
    if Utf8Len(s) <= maxLen then Returns(s)
    else
      match BytePrefix(s, maxLen)
      case Returns(p) => Returns(p + "...")
      case Panics => Panics
  }

  /** On ASCII text a truncated result is `maxLen + 3` bytes long. */
  lemma TruncateAscii(s: string, maxLen: nat)
    requires IsAscii(s)
    ensures Truncate(s, maxLen).Returns? && Utf8Len(s) == |s|
    ensures |s| > maxLen ==>
      Truncate(s, maxLen) == Returns(s[..maxLen] + "...") && Utf8Len(Truncate(s, maxLen).value) == maxLen + 3
  {
    AsciiUtf8Len(s);
    if |s| > maxLen {
      AsciiBytePrefix(s, maxLen);
      Utf8LenAppend(s[..maxLen], "...");
      AsciiUtf8Len("...");
    }
  }

  predicate Kept(c: char) {
    IsAsciiAlphanumeric(c) || IsWhitespace(c) || c == '_' || c == '-'
  }

  /** `sanitize`: the kept characters, in order. */
  function Sanitize(s: string): (r: string)
    ensures |r| <= |s|
    ensures forall c :: c in r <==> c in s && Kept(c)
  {
    if s == [] then []
    else
      assert forall c :: c in s <==> c == s[0] || c in s[1..];
      (if Kept(s[0]) then [s[0]] else []) + Sanitize(s[1..])
  }

  /** Sanitising works piece by piece: together with the one-character case
      this fixes the order of what is kept. */
  lemma {:induction false} SanitizeAppend(a: string, b: string)
    ensures Sanitize(a + b) == Sanitize(a) + Sanitize(b)
  {
    if a == [] {
      assert a + b == b;
    } else {
      assert (a + b)[0] == a[0] && (a + b)[1..] == a[1..] + b;
      SanitizeAppend(a[1..], b);
    }
  }

  lemma {:induction false} SanitizeKeepsClean(s: string)
    requires forall k :: 0 <= k < |s| ==> Kept(s[k])
    ensures Sanitize(s) == s
  {
    if s != [] {
      SanitizeKeepsClean(s[1..]);
    }
  }

  lemma SanitizeIdempotent(s: string)
    ensures Sanitize(Sanitize(s)) == Sanitize(s)
  {
    var r := Sanitize(s);
    assert forall k :: 0 <= k < |r| ==> r[k] in r;
    SanitizeKeepsClean(r);
  }

  // ---- to_slug ----

  /** `to_lowercase`, then every character that is not a letter or digit
      becomes '-'. */
  function SlugChar(c: char): (d: char)
    ensures d == '-' || (IsAsciiAlphanumeric(d) && !IsAsciiUpper(d))
  {
    var l := ToAsciiLower(c);
    if IsAsciiAlphanumeric(l) then l else '-'
  }

  function SlugChars(s: string): (r: string)
    ensures |r| == |s| && forall i :: 0 <= i < |s| ==> r[i] == SlugChar(s[i])
  {
    seq(|s|, i requires 0 <= i < |s| => SlugChar(s[i]))
  }

  /** `split(sep)`: the pieces between separators, empty ones included; there
      is always at least one. */
  function Split(s: string, sep: char): (r: seq<string>)
    ensures |r| >= 1
    ensures forall p :: p in r ==> forall k :: 0 <= k < |p| ==> p[k] != sep && p[k] in s
  {
    if s == [] then [[]]
    else
      var rest := Split(s[1..], sep);
      if s[0] == sep then [[]] + rest
      else [[s[0]] + rest[0]] + rest[1..]
  }

  /** `join(sep)`. */
  function Join(pieces: seq<string>, sep: char): string {
    if |pieces| == 0 then []
    else if |pieces| == 1 then pieces[0]
    else pieces[0] + [sep] + Join(pieces[1..], sep)
  }

  /** Joining the pieces of a split gives back the string. */
  lemma {:induction false} SplitJoin(s: string, sep: char)
    ensures Join(Split(s, sep), sep) == s
  {
    if s != [] {
      var rest := Split(s[1..], sep);
      SplitJoin(s[1..], sep);
      if s[0] == sep {
        JoinEmptyHead(rest, sep);
      } else {
        JoinExtendHead(s[0], rest, sep);
      }
    }
  }

  /** An empty first piece leaves just the separator in front. */
  lemma JoinEmptyHead(pieces: seq<string>, sep: char)
    requires |pieces| >= 1
    ensures Join([[]] + pieces, sep) == [sep] + Join(pieces, sep)
  {
    assert ([[]] + pieces)[1..] == pieces;
  }

  /** Putting a character in front of the first piece puts it in front of
      the joined text. */
  lemma JoinExtendHead(c: char, pieces: seq<string>, sep: char)
    requires |pieces| >= 1
    ensures Join([[c] + pieces[0]] + pieces[1..], sep) == [c] + Join(pieces, sep)
  {
    var r := [[c] + pieces[0]] + pieces[1..];
    if |pieces| > 1 {
      assert r[1..] == pieces[1..];
    }
  }

  function NonEmpty(pieces: seq<string>): (r: seq<string>)
    ensures forall p :: p in r <==> p in pieces && p != []
  {
    if pieces == [] then []
    else
      assert forall p :: p in pieces <==> p == pieces[0] || p in pieces[1..];
      (if pieces[0] != [] then [pieces[0]] else []) + NonEmpty(pieces[1..])
  }

  /** `to_slug`. */
  function ToSlug(s: string): string {
    Join(NonEmpty(Split(SlugChars(s), '-')), '-')
  }

  predicate SlugWordChar(c: char) {
    IsAsciiAlphanumeric(c) && !IsAsciiUpper(c)
  }

  /** Lowercase letters, digits and single inner dashes. */
  predicate SlugShape(r: string) {
    && (forall k :: 0 <= k < |r| ==> r[k] == '-' || SlugWordChar(r[k]))
    && (r != [] ==> r[0] != '-' && r[|r| - 1] != '-')
    && (forall k :: 0 <= k < |r| - 1 ==> r[k] != '-' || r[k + 1] != '-')
  }

  predicate Word(p: string) {
    p != [] && forall k :: 0 <= k < |p| ==> SlugWordChar(p[k])
  }

  lemma {:induction false} JoinWords(pieces: seq<string>)
    requires forall p :: p in pieces ==> Word(p)
    ensures SlugShape(Join(pieces, '-'))
    ensures pieces != [] ==> Join(pieces, '-') != [] && Join(pieces, '-')[0] == pieces[0][0]
  {
    if |pieces| > 1 {
      var a, b := pieces[0], Join(pieces[1..], '-');
      assert pieces[0] in pieces && pieces[1] in pieces;
      JoinWords(pieces[1..]);
      assert Word(a);
      var r := a + ['-'] + b;
      assert forall k :: 0 <= k < |r| ==> r[k] == if k < |a| then a[k] else if k == |a| then '-' else b[k - |a| - 1];
    } else if |pieces| == 1 {
      assert pieces[0] in pieces;
    }
  }

  /** The slug holds only lowercase letters, digits and '-', never at either
      end and never two in a row. */
  lemma SlugIsWellFormed(s: string)
    ensures SlugShape(ToSlug(s))
  {
    var pieces := NonEmpty(Split(SlugChars(s), '-'));
    forall p | p in pieces ensures Word(p) {
      forall k | 0 <= k < |p| ensures SlugWordChar(p[k]) {
        var i :| 0 <= i < |SlugChars(s)| && SlugChars(s)[i] == p[k];
      }
    }
    JoinWords(pieces);
  }

  // ---- pagination_utils ----

  /** `calculate_total_pages`, with integer ceiling division standing in for
      the floating-point `ceil` and the `as u32` cast saturating. */
  function TotalPages(totalItems: U64, pageSize: U32): (r: U32)
    ensures pageSize == 0 ==> r == 0
    ensures pageSize > 0 && r < 0xFFFF_FFFF ==> (r - 1) * pageSize < totalItems <= r * pageSize || (r == 0 && totalItems == 0)
    ensures pageSize > 0 && r == 0xFFFF_FFFF ==> Product(0xFFFF_FFFF - 1, pageSize) < totalItems
  {
    if pageSize == 0 then 0
    else
      var c := (totalItems + pageSize - 1) / pageSize;
      SaturatedBelow(totalItems, pageSize);
      if c > 0xFFFF_FFFF then 0xFFFF_FFFF else c
  }

  /** `calculate_offset`: page 0 gives 0; otherwise `(page - 1) * page_size`,
      which panics when it overflows `u32`. */
  function CalculateOffset(page: U32, pageSize: U32): (r: Outcome<U32>)
    ensures page == 0 ==> r == Returns(0)
    ensures page > 0 ==> (r.Returns? <==> Product(page - 1, pageSize) < 0x1_0000_0000)
    ensures page > 0 && r.Returns? ==> r.value == Product(page - 1, pageSize)
  {
    if page == 0 then Returns(0)
    else
      var offset := Product(page - 1, pageSize);
      if offset >= 0x1_0000_0000 then Panics else Returns(offset)
  }

  /** The product of two naturals, kept as one term. */
  function Product(a: nat, b: nat): nat {
    a * b
  }

  /** `validate_page`. */
  function ValidatePage(page: U32, totalPages: U32): (r: Result<(), string>)
    ensures page == 0 ==> r == Err("Page number must be greater than 0")
    ensures page > 0 && page > totalPages > 0 ==>
      r == Err("Page " + NatToDecimal(page) + " exceeds total pages " + NatToDecimal(totalPages))
    ensures r.Ok? <==> page > 0 && (totalPages == 0 || page <= totalPages)
  {
    if page == 0 then Err("Page number must be greater than 0")
    else if page > totalPages && totalPages > 0 then
      Err("Page " + NatToDecimal(page) + " exceeds total pages " + NatToDecimal(totalPages))
    else Ok(())
  }

  /** A page that passes `validate_page` against the page count of a
      non-empty collection starts inside it, and its offset does not overflow. */
  lemma OffsetWithinTotal(totalItems: U64, pageSize: U32, page: U32)
    requires 0 < totalItems < 0x1_0000_0000 && pageSize > 0
    requires ValidatePage(page, TotalPages(totalItems, pageSize)).Ok?
    ensures CalculateOffset(page, pageSize) == Returns(Product(page - 1, pageSize))
    ensures Product(page - 1, pageSize) < totalItems
  {
    var c := (totalItems + pageSize - 1) / pageSize;
    CeilingBelow(totalItems, pageSize);
    assert TotalPages(totalItems, pageSize) == c;
    ProductMonotone(page - 1, c - 1, pageSize);
  }

  /** The ceiling of `t / k` is at most `t`, and one page short of it covers
      fewer than `t` items. */
  lemma CeilingBelow(t: nat, k: nat)
    requires t > 0 && k > 0
    ensures 1 <= (t + k - 1) / k <= t
    ensures Product((t + k - 1) / k - 1, k) < t
  {
    var x := t + k - 1;
    var c, m := x / k, x % k;
    assert Product(c, k) + m == x && 0 <= m < k;
    assert c >= 1;
    ProductPred(c, k);
    ProductAtLeast(c - 1, k);
  }

  /** A ceiling of `t / k` of at least the `u32` maximum means that one page
      fewer than that maximum still covers fewer than `t` items. */
  lemma SaturatedBelow(t: nat, k: nat)
    requires k > 0
    ensures (t + k - 1) / k >= 0xFFFF_FFFF ==> Product(0xFFFF_FFFF - 1, k) < t
  {
    var c := (t + k - 1) / k;
    if c >= 0xFFFF_FFFF {
      CeilingBelow(t, k);
      ProductMonotone(0xFFFF_FFFF - 1, c - 1, k);
    }
  }

  lemma ProductPred(c: nat, k: nat)
    requires c >= 1
    ensures Product(c - 1, k) == Product(c, k) - k
  {
  }

  lemma ProductAtLeast(a: nat, k: nat)
    requires k >= 1
    ensures a <= Product(a, k)
  {
  }

  lemma ProductMonotone(a: nat, b: nat, k: nat)
    requires a <= b
    ensures Product(a, k) <= Product(b, k)
  {
    assert b * k == a * k + (b - a) * k;
  }
}

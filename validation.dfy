/** The input checks of crates/pkg/src/utils/validation.rs. The email
    pattern `^[a-zA-Z0-9._%+-]+@[a-zA-Z0-9.-]+\.[a-zA-Z]{2,}$` is written out
    as a predicate on positions; letters and digits are classified as ASCII. */
module Validation {
  import opened Wrappers
  import opened Text

  predicate LocalChar(c: char) {
    IsAsciiAlphanumeric(c) || c == '.' || c == '_' || c == '%' || c == '+' || c == '-'
  }

  predicate DomainChar(c: char) {
    IsAsciiAlphanumeric(c) || c == '.' || c == '-'
  }

  /** The email pattern matched with its '@' at `i` and its last '.' at `j`:
      a non-empty local part, a non-empty domain, and a top-level part of at
      least two letters. */
  predicate EmailSplit(s: string, i: int, j: int) {
    && 0 < i && i + 1 < j && j + 2 < |s|
    && s[i] == '@' && s[j] == '.'
    && (forall k :: 0 <= k < i ==> LocalChar(s[k]))
    && (forall k :: i < k < j ==> DomainChar(s[k]))
    && (forall k :: j < k < |s| ==> IsAsciiAlpha(s[k]))
  }

  /** The regular expression, as the existence of a match. */
  ghost predicate EmailPattern(s: string) {
    exists i, j :: EmailSplit(s, i, j)
  }

  /** The first position of `c` in `s`. */
  function FirstIndex(s: string, c: char): (r: Option<nat>)
    ensures r.None? ==> forall k :: 0 <= k < |s| ==> s[k] != c
    ensures r.Some? ==> r.value < |s| && s[r.value] == c && forall k :: 0 <= k < r.value ==> s[k] != c
  {
    if s == [] then None
    else if s[0] == c then Some(0)
    else
      match FirstIndex(s[1..], c)
      case None => None
      case Some(k) => Some(k + 1)
  }

  /** The last position of `c` in `s`. */
  function LastIndex(s: string, c: char): (r: Option<nat>)
    ensures r.None? ==> forall k :: 0 <= k < |s| ==> s[k] != c
    ensures r.Some? ==> r.value < |s| && s[r.value] == c && forall k :: r.value < k < |s| ==> s[k] != c
  {
    if s == [] then None
    else if s[|s| - 1] == c then Some(|s| - 1)
    else LastIndex(s[..|s| - 1], c)
  }

  /** `is_valid_email`: a scan that finds the '@' and the last '.' after it,
      then checks the three parts. */
  function IsValidEmail(s: string): bool {
    match FirstIndex(s, '@')
    case None => false
    case Some(i) =>
      match LastIndex(s, '.')
      case None => false
      case Some(j) => EmailSplit(s, i, j)
  }

  /** The scan accepts exactly the strings the pattern matches. */
  lemma EmailScanMatchesPattern(s: string)
    ensures IsValidEmail(s) <==> EmailPattern(s)
  {
    if EmailPattern(s) {
      var i, j :| EmailSplit(s, i, j);
      assert forall k :: 0 <= k < i ==> s[k] != '@';
      assert FirstIndex(s, '@') == Some(i);
      assert forall k :: j < k < |s| ==> s[k] != '.';
      assert LastIndex(s, '.') == Some(j);
    }
  }

  /** A local part, a domain and a top-level part of the right kinds make an
      address the pattern matches. */
  lemma EmailOfParts(local: string, domain: string, tld: string)
    requires local != [] && forall k :: 0 <= k < |local| ==> LocalChar(local[k])
    requires domain != [] && forall k :: 0 <= k < |domain| ==> DomainChar(domain[k])
    requires |tld| >= 2 && forall k :: 0 <= k < |tld| ==> IsAsciiAlpha(tld[k])
    ensures EmailPattern(local + "@" + domain + "." + tld)
  {
    var s := local + "@" + domain + "." + tld;
    var i, j := |local|, |local| + 1 + |domain|;
    assert forall k :: 0 <= k < i ==> s[k] == local[k];
    assert forall k :: i < k < j ==> s[k] == domain[k - i - 1];
    assert forall k :: j < k < |s| ==> s[k] == tld[k - j - 1];
    assert EmailSplit(s, i, j);
  }

  lemma EmailExample()
    ensures IsValidEmail("test@example.com")
  {
    EmailOfParts("test", "example", "com");
    assert "test" + "@" + "example" + "." + "com" == "test@example.com";
    EmailScanMatchesPattern("test@example.com");
  }

  lemma TaggedEmailExample()
    ensures IsValidEmail("user.name+tag@example.co.uk")
  {
    EmailOfParts("user.name+tag", "example.co", "uk");
    assert "user.name+tag" + "@" + "example.co" + "." + "uk" == "user.name+tag@example.co.uk";
    EmailScanMatchesPattern("user.name+tag@example.co.uk");
  }

  /** Without an '@' nothing matches. */
  lemma NoAtNoEmail(s: string)
    requires forall k :: 0 <= k < |s| ==> s[k] != '@'
    ensures !IsValidEmail(s)
  {
    EmailScanMatchesPattern(s);
  }

  lemma NoAtExample()
    ensures !IsValidEmail("invalid.email")
  {
    NoAtNoEmail("invalid.email");
  }

  lemma EmptyLocalExample()
    ensures !IsValidEmail("@example.com")
  {
    EmailScanMatchesPattern("@example.com");
    assert !LocalChar("@example.com"[0]);
  }

  /** `is_valid_username`: 3 to 20 bytes, each character a letter, a digit
      or '_'. */
  predicate IsValidUsername(s: string) {
    3 <= Utf8Len(s) <= 20 && forall k :: 0 <= k < |s| ==> IsAsciiAlphanumeric(s[k]) || s[k] == '_'
  }

  /** A valid username is ASCII, so its byte bounds are character bounds. */
  lemma UsernameIsAscii(s: string)
    requires IsValidUsername(s)
    ensures IsAscii(s) && 3 <= |s| <= 20
  {
    AsciiUtf8Len(s);
  }

  /** An ASCII name of 3 to 20 name characters is valid. */
  lemma AsciiUsername(s: string)
    requires IsAscii(s) && 3 <= |s| <= 20
    requires forall k :: 0 <= k < |s| ==> IsAsciiAlphanumeric(s[k]) || s[k] == '_'
    ensures IsValidUsername(s)
  {
    AsciiUtf8Len(s);
  }

  lemma UsernameExample(s: string)
    requires s == "user123"
    ensures IsValidUsername(s)
  {
    AsciiUsername(s);
  }

  lemma UnderscoreUsernameExample(s: string)
    requires s == "test_user"
    ensures IsValidUsername(s)
  {
    AsciiUsername(s);
  }

  lemma ShortUsernameExample(s: string)
    requires s == "ab"
    ensures !IsValidUsername(s)
  {
    assert IsAscii(s);
    AsciiUtf8Len(s);
  }

  lemma AtUsernameExample(s: string)
    requires s == "user@name"
    ensures !IsValidUsername(s)
  {
    assert s[4] == '@';
  }

  /** `is_strong_password`: at least 8 bytes, with an uppercase letter, a
      lowercase letter and a digit. */
  function IsStrongPassword(p: string): (b: bool)
    ensures Utf8Len(p) < 8 ==> !b
    ensures b <==> (Utf8Len(p) >= 8 && HasUpper(p) && HasLower(p) && HasDigit(p))
  {
    if Utf8Len(p) < 8 then false
    else HasUpper(p) && HasLower(p) && HasDigit(p)
  }

  predicate HasUpper(p: string) { exists k :: 0 <= k < |p| && IsAsciiUpper(p[k]) }
  predicate HasLower(p: string) { exists k :: 0 <= k < |p| && IsAsciiLower(p[k]) }
  predicate HasDigit(p: string) { exists k :: 0 <= k < |p| && IsAsciiDigit(p[k]) }

  lemma PasswordExample()
    ensures IsStrongPassword("Password123")
  {
    assert IsAsciiUpper("Password123"[0]) && IsAsciiLower("Password123"[1]) && IsAsciiDigit("Password123"[8]);
  }

  lemma LowerPasswordExample()
    ensures !IsStrongPassword("password")
  {
  }

  lemma UpperPasswordExample()
    ensures !IsStrongPassword("PASSWORD")
  {
  }

  lemma ShortPasswordExample()
    ensures !IsStrongPassword("Pass12")
  {
    AsciiUtf8Len("Pass12");
  }
}

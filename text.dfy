/** Strings as Rust sees them: a `&str` is a sequence of Unicode scalar values
    stored as UTF-8, so `len()` counts bytes and `&s[..n]` cuts at a byte index. */
module Text {
  import opened Wrappers

  /** Number of bytes the UTF-8 encoding of `c` occupies. */
  function CharUtf8Len(c: char): (n: nat)
    ensures 1 <= n <= 4
    ensures n == 1 <==> c as int < 0x80
  {
    if c as int < 0x80 then 1
    else if c as int < 0x800 then 2
    else if c as int < 0x1_0000 then 3
    else 4
  }

  /** Rust's `str::len`: the length of the UTF-8 encoding, in bytes. */
  function Utf8Len(s: string): (n: nat)
    ensures |s| <= n <= 4 * |s|
  {
    if s == [] then 0 else CharUtf8Len(s[0]) + Utf8Len(s[1..])
  }

  predicate IsAscii(s: string) {
    forall i :: 0 <= i < |s| ==> s[i] as int < 0x80
  }

  lemma {:induction false} Utf8LenAppend(a: string, b: string)
    ensures Utf8Len(a + b) == Utf8Len(a) + Utf8Len(b)
  {
    if a != [] {
      assert a + b != [];
      assert (a + b)[0] == a[0];
      assert (a + b)[1..] == a[1..] + b;
      Utf8LenAppend(a[1..], b);
    } else {
      assert a + b == b;
    }
  }

  /** On ASCII text the byte length and the character count agree. */
  lemma {:induction false} AsciiUtf8Len(s: string)
    requires IsAscii(s)
    ensures Utf8Len(s) == |s|
  {
    if s != [] {
      assert s[0] as int < 0x80;
      assert IsAscii(s[1..]) by {
        forall i | 0 <= i < |s[1..]| ensures s[1..][i] as int < 0x80 {
          assert s[1..][i] == s[i + 1];
        }
      }
      AsciiUtf8Len(s[1..]);
    }
  }

  /** Rust's `&s[..n]`: the prefix of `s` that is exactly `n` bytes long. It
      panics when `n` is past the end or falls inside a character. */
  function BytePrefix(s: string, n: nat): (r: Outcome<string>)
    ensures r.Returns? ==> r.value <= s && Utf8Len(r.value) == n
    ensures r.Panics? ==> forall k :: 0 <= k <= |s| ==> Utf8Len(s[..k]) != n
  {
    if n == 0 then Returns([])
    else if s == [] then Panics
    else if n < CharUtf8Len(s[0]) then
      assert forall k :: 0 < k <= |s| ==> Utf8Len(s[..k]) == CharUtf8Len(s[0]) + Utf8Len(s[1..][..k - 1]) by {
        forall k | 0 < k <= |s|
          ensures Utf8Len(s[..k]) == CharUtf8Len(s[0]) + Utf8Len(s[1..][..k - 1])
        {
          assert s[..k][0] == s[0];
          assert s[..k][1..] == s[1..][..k - 1];
        }
      }
      Panics
    else
      match BytePrefix(s[1..], n - CharUtf8Len(s[0]))
      case Returns(p) =>
        assert [s[0]] + p <= s;
        assert ([s[0]] + p)[0] == s[0] && ([s[0]] + p)[1..] == p;
        Returns([s[0]] + p)
      case Panics =>
        assert forall k :: 0 < k <= |s| ==> Utf8Len(s[..k]) == CharUtf8Len(s[0]) + Utf8Len(s[1..][..k - 1]) by {
          forall k | 0 < k <= |s|
            ensures Utf8Len(s[..k]) == CharUtf8Len(s[0]) + Utf8Len(s[1..][..k - 1])
          {
            assert s[..k][0] == s[0];
            assert s[..k][1..] == s[1..][..k - 1];
          }
        }
        Panics
  }

  /** On ASCII text every byte index up to the length is a character boundary. */
  lemma AsciiBytePrefix(s: string, n: nat)
    requires IsAscii(s) && n <= |s|
    ensures BytePrefix(s, n) == Returns(s[..n])
  {
    assert IsAscii(s[..n]) by {
      forall i | 0 <= i < n ensures s[..n][i] as int < 0x80 {
        assert s[..n][i] == s[i];
      }
    }
    AsciiUtf8Len(s[..n]);
    PrefixByLength(s, s[..n], BytePrefix(s, n));
  }

  /** Two prefixes of the same string with the same byte length are equal. */
  lemma {:induction false} PrefixByLength(s: string, p: string, r: Outcome<string>)
    requires p <= s && r == BytePrefix(s, Utf8Len(p))
    ensures r == Returns(p)
  {
    assert s[..|p|] == p;
    if r.Returns? {
      SamePrefixSameLength(s, p, r.value);
    }
  }

  lemma {:induction false} SamePrefixSameLength(s: string, p: string, q: string)
    requires p <= s && q <= s && Utf8Len(p) == Utf8Len(q)
    ensures p == q
  {
    if p != [] && q != [] {
      assert p[0] == s[0] == q[0];
      assert p[1..] <= s[1..] && q[1..] <= s[1..];
      SamePrefixSameLength(s[1..], p[1..], q[1..]);
      assert p == [p[0]] + p[1..] && q == [q[0]] + q[1..];
    }
  }

  // ASCII character classes. Rust's `char::is_uppercase`, `is_alphanumeric`
  // and friends follow Unicode; this model classifies only ASCII characters.

  predicate IsAsciiUpper(c: char) { 'A' <= c <= 'Z' }
  predicate IsAsciiLower(c: char) { 'a' <= c <= 'z' }
  predicate IsAsciiDigit(c: char) { '0' <= c <= '9' }
  predicate IsAsciiAlpha(c: char) { IsAsciiUpper(c) || IsAsciiLower(c) }
  predicate IsAsciiAlphanumeric(c: char) { IsAsciiAlpha(c) || IsAsciiDigit(c) }

  function ToAsciiLower(c: char): (d: char)
    ensures IsAsciiUpper(c) ==> IsAsciiLower(d) && d as int == c as int + 32
    ensures !IsAsciiUpper(c) ==> d == c
  {
    if IsAsciiUpper(c) then (c as int + 32) as char else c
  }

  function ToAsciiUpper(c: char): (d: char)
    ensures IsAsciiLower(c) ==> IsAsciiUpper(d) && d as int == c as int - 32
    ensures !IsAsciiLower(c) ==> d == c
  {
    if IsAsciiLower(c) then (c as int - 32) as char else c
  }

  /** Rust's `char::is_whitespace`: the Unicode White_Space property. */
  predicate IsWhitespace(c: char) {
    var n := c as int;
    || (0x09 <= n <= 0x0D) || n == 0x20 || n == 0x85 || n == 0xA0 || n == 0x1680
    || (0x2000 <= n <= 0x200A) || n == 0x2028 || n == 0x2029 || n == 0x202F
    || n == 0x205F || n == 0x3000
  }

  function TrimStart(s: string): (r: string)
    ensures |r| <= |s| && r == s[|s| - |r|..]
    ensures r != [] ==> !IsWhitespace(r[0])
    ensures forall i :: 0 <= i < |s| - |r| ==> IsWhitespace(s[i])
  {
    if s != [] && IsWhitespace(s[0]) then TrimStart(s[1..]) else s
  }

  function TrimEnd(s: string): (r: string)
    ensures |r| <= |s| && r == s[..|r|]
    ensures r != [] ==> !IsWhitespace(r[|r| - 1])
    ensures forall i :: |r| <= i < |s| ==> IsWhitespace(s[i])
  {
    if s != [] && IsWhitespace(s[|s| - 1]) then TrimEnd(s[..|s| - 1]) else s
  }

  /** `r` is the piece of `s` that starts at `i`, and everything of `s`
      around it is white space. */
  predicate CutFromWhitespace(s: string, r: string, i: nat) {
    && i + |r| <= |s| && r == s[i..i + |r|]
    && (forall k :: 0 <= k < i ==> IsWhitespace(s[k]))
    && (forall k :: i + |r| <= k < |s| ==> IsWhitespace(s[k]))
  }

  /** Rust's `str::trim`: `s` without its leading and trailing white space. */
  function Trim(s: string): (r: string)
    ensures exists i: nat :: CutFromWhitespace(s, r, i)
    ensures r != [] ==> !IsWhitespace(r[0]) && !IsWhitespace(r[|r| - 1])
  {
    var t := TrimStart(s);
    var r := TrimEnd(t);
    var i := |s| - |t|;
    assert r == s[i..i + |r|];
    forall k | i + |r| <= k < |s| ensures IsWhitespace(s[k]) {
      assert s[k] == t[k - i];
    }
    assert CutFromWhitespace(s, r, i);
    r
  }

  /** `Trim` removes a string entirely exactly when it is all white space. */
  lemma TrimEmpty(s: string)
    ensures Trim(s) == [] <==> forall k :: 0 <= k < |s| ==> IsWhitespace(s[k])
  {
  }

  /** `t` occurs in `s` as a contiguous piece (Rust's `str::contains`). */
  predicate Contains(s: string, t: string) {
    exists i: nat | i <= |s| :: OccursAt(s, t, i)
  }

  predicate OccursAt(s: string, t: string, i: nat) {
    i + |t| <= |s| && s[i..i + |t|] == t
  }

  /** A string occurs in any text built around it. */
  lemma OccursBetween(a: string, t: string, b: string)
    ensures OccursAt(a + t + b, t, |a|) && Contains(a + t + b, t)
  {
    assert (a + t + b)[|a|..|a| + |t|] == t;
    assert |a| <= |a + t + b| && OccursAt(a + t + b, t, |a|);
  }

  /** A separator that occurs in neither left part splits a string uniquely. */
  lemma SplitAtFirst(x: string, y: string, x': string, y': string, sep: char)
    requires sep !in x && sep !in x'
    requires x + [sep] + y == x' + [sep] + y'
    ensures x == x' && y == y'
  {
    var s := x + [sep] + y;
    assert |x| == |x'| by {
      assert s[|x|] == sep && (x' + [sep] + y')[|x'|] == sep;
      assert forall k :: 0 <= k < |x| ==> s[k] == x[k];
      assert forall k :: 0 <= k < |x'| ==> s[k] == x'[k];
    }
    assert x == s[..|x|] == x';
    assert y == s[|x| + 1..] == y';
  }

  /** A separator that occurs in neither right part splits a string uniquely. */
  lemma SplitAtLast(x: string, y: string, x': string, y': string, sep: char)
    requires sep !in y && sep !in y'
    requires x + [sep] + y == x' + [sep] + y'
    ensures x == x' && y == y'
  {
    var s := x + [sep] + y;
    assert |y| == |y'| by {
      assert s[|s| - 1 - |y|] == sep && s[|s| - 1 - |y'|] == sep;
      assert forall k :: 0 <= k < |y| ==> s[|x| + 1 + k] == y[k];
      assert forall k :: 0 <= k < |y'| ==> s[|x'| + 1 + k] == y'[k];
    }
    assert x == s[..|x|] == x';
    assert y == s[|x| + 1..] == y';
  }

  lemma PrefixCancel(p: string, a: string, b: string)
    requires p + a == p + b
    ensures a == b
  {
    assert a == (p + a)[|p|..];
    assert b == (p + b)[|p|..];
  }

  /** Code-point (byte-wise) lexicographic order on strings: the order of
      PostgreSQL's "C" collation. */
  predicate StrLess(a: string, b: string) {
    if a == [] then b != []
    else if b == [] then false
    else a[0] < b[0] || (a[0] == b[0] && StrLess(a[1..], b[1..]))
  }

  lemma {:induction false} StrLessIrreflexive(a: string)
    ensures !StrLess(a, a)
  {
    if a != [] {
      StrLessIrreflexive(a[1..]);
    }
  }

  lemma {:induction false} StrLessTransitive(a: string, b: string, c: string)
    requires StrLess(a, b) && StrLess(b, c)
    ensures StrLess(a, c)
  {
    if a != [] && b != [] && c != [] && a[0] == b[0] == c[0] {
      StrLessTransitive(a[1..], b[1..], c[1..]);
    }
  }

  lemma {:induction false} StrLessTotal(a: string, b: string)
    ensures a == b || StrLess(a, b) || StrLess(b, a)
  {
    if a != [] && b != [] && a[0] == b[0] {
      StrLessTotal(a[1..], b[1..]);
      if a[1..] == b[1..] {
        assert a == [a[0]] + a[1..] && b == [b[0]] + b[1..];
      }
    }
  }
}

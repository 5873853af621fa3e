/** The case conversions and the truncation of crates/pkg/src/utils/string_utils.rs.
    Letters are classified and case-mapped as ASCII. */
module StringUtils {
  import opened Wrappers
  import opened Text

  /** `s` with every character in `cs` removed, the rest in order. */
  function Drop(s: string, cs: set<char>): (r: string)
    ensures |r| <= |s|
  {
    if s == [] then []
    else
      (if s[0] in cs then [] else [s[0]]) + Drop(s[1..], cs)
  }

  /** What `Drop` keeps: the characters of `s` outside `cs`. */
  lemma {:induction false} DropMembers(s: string, cs: set<char>)
    ensures forall c :: c in Drop(s, cs) <==> c in s && c !in cs
  {
    if s != [] {
      DropMembers(s[1..], cs);
      assert forall c :: c in s <==> c == s[0] || c in s[1..];
    }
  }

  lemma {:induction false} DropAppend(a: string, b: string, cs: set<char>)
    ensures Drop(a + b, cs) == Drop(a, cs) + Drop(b, cs)
  {
    if a == [] {
      assert a + b == b;
    } else {
      assert (a + b)[0] == a[0] && (a + b)[1..] == a[1..] + b;
      DropAppend(a[1..], b, cs);
    }
  }

  /** Every character through `ToAsciiLower`. */
  function LowerAll(s: string): (r: string)
    ensures |r| == |s| && forall i :: 0 <= i < |s| ==> r[i] == ToAsciiLower(s[i])
  {
    seq(|s|, i requires 0 <= i < |s| => ToAsciiLower(s[i]))
  }

  lemma LowerAllSnoc(s: string, n: nat)
    requires 0 < n <= |s|
    ensures LowerAll(s[..n]) == LowerAll(s[..n - 1]) + [ToAsciiLower(s[n - 1])]
  {
  }

  predicate NoUpper(s: string) {
    forall i :: 0 <= i < |s| ==> !IsAsciiUpper(s[i])
  }

  // ---- to_snake_case ----

  /** What `to_snake_case` pushes for the character at `i`: an uppercase
      letter is lowered, with a '_' before it unless it is the first
      character or follows another uppercase letter; anything else is copied. */
  function SnakePiece(s: string, i: nat): (r: string)
    requires i < |s|
  {
    if IsAsciiUpper(s[i]) then
      (if i > 0 && !IsAsciiUpper(s[i - 1]) then "_" else "") + [ToAsciiLower(s[i])]
    else [s[i]]
  }

  /** The output after the first `n` characters. */
  function SnakeUpTo(s: string, n: nat): string
    requires n <= |s|
  {
    if n == 0 then [] else SnakeUpTo(s, n - 1) + SnakePiece(s, n - 1)
  }

  function Snake(s: string): string {
    SnakeUpTo(s, |s|)
  }

  /** `to_snake_case`, with its `prev_is_uppercase` flag. */
  method ToSnakeCase(s: string) returns (result: string)
    ensures result == Snake(s)
  {
    result := "";
    var prevIsUppercase := false;
    for i := 0 to |s|
      invariant result == SnakeUpTo(s, i)
      invariant prevIsUppercase == (i > 0 && IsAsciiUpper(s[i - 1]))
    {
      var ch := s[i];
      if IsAsciiUpper(ch) {
        if i > 0 && !prevIsUppercase {
          result := result + "_";
        }
        result := result + [ToAsciiLower(ch)];
        prevIsUppercase := true;
      } else {
        result := result + [ch];
        prevIsUppercase := false;
      }
    }
  }

  lemma {:induction false} SnakeUpToNoUpper(s: string, n: nat)
    requires n <= |s|
    ensures NoUpper(SnakeUpTo(s, n))
  {
    if n > 0 {
      SnakeUpToNoUpper(s, n - 1);
      var p := SnakePiece(s, n - 1);
      assert NoUpper(p);
      var a := SnakeUpTo(s, n - 1);
      assert forall i :: 0 <= i < |a + p| ==> (a + p)[i] == if i < |a| then a[i] else p[i - |a|];
    }
  }

  /** Apart from underscores, a piece is its character lowered. */
  lemma SnakePieceLetters(s: string, i: nat)
    requires i < |s|
    ensures Drop(SnakePiece(s, i), {'_'}) == Drop([ToAsciiLower(s[i])], {'_'})
  {
    if IsAsciiUpper(s[i]) && i > 0 && !IsAsciiUpper(s[i - 1]) {
      DropAppend("_", [ToAsciiLower(s[i])], {'_'});
    }
  }

  lemma {:induction false} SnakeUpToKeepsLetters(s: string, n: nat)
    requires n <= |s|
    ensures Drop(SnakeUpTo(s, n), {'_'}) == Drop(LowerAll(s[..n]), {'_'})
  {
    if n > 0 {
      var a, p := SnakeUpTo(s, n - 1), SnakePiece(s, n - 1);
      var l, c := LowerAll(s[..n - 1]), [ToAsciiLower(s[n - 1])];
      calc {
        Drop(SnakeUpTo(s, n), {'_'});
        Drop(a + p, {'_'});
        { DropAppend(a, p, {'_'}); }
        Drop(a, {'_'}) + Drop(p, {'_'});
        { SnakeUpToKeepsLetters(s, n - 1); SnakePieceLetters(s, n - 1); }
        Drop(l, {'_'}) + Drop(c, {'_'});
        { DropAppend(l, c, {'_'}); }
        Drop(l + c, {'_'});
        { LowerAllSnoc(s, n); }
        Drop(LowerAll(s[..n]), {'_'});
      }
    }
  }

  /** The output holds no uppercase letter, and apart from underscores it is
      the input lowered, character for character. */
  lemma SnakeFacts(s: string)
    ensures NoUpper(Snake(s))
    ensures Drop(Snake(s), {'_'}) == Drop(LowerAll(s), {'_'})
  {
    SnakeUpToNoUpper(s, |s|);
    SnakeUpToKeepsLetters(s, |s|);
    assert s[..|s|] == s;
  }

  lemma {:induction false} SnakeUpToOfLower(t: string, n: nat)
    requires NoUpper(t) && n <= |t|
    ensures SnakeUpTo(t, n) == t[..n]
  {
    if n > 0 {
      SnakeUpToOfLower(t, n - 1);
      assert t[..n] == t[..n - 1] + [t[n - 1]];
    }
  }

  /** Text without uppercase letters is left as it is, so converting twice
      is converting once. */
  lemma SnakeIdempotent(s: string)
    ensures Snake(Snake(s)) == Snake(s)
  {
    SnakeFacts(s);
    var t := Snake(s);
    SnakeUpToOfLower(t, |t|);
    assert t[..|t|] == t;
  }

  lemma SnakeOfPascal()
    ensures Snake("HelloWorld") == "hello_world"
  {
    assert SnakeUpTo("HelloWorld", 2) == "he";
    assert SnakeUpTo("HelloWorld", 4) == "hell";
    assert SnakeUpTo("HelloWorld", 5) == "hello";
    assert SnakeUpTo("HelloWorld", 6) == "hello_w";
    assert SnakeUpTo("HelloWorld", 8) == "hello_wor";
    assert SnakeUpTo("HelloWorld", 10) == "hello_world";
  }

  lemma SnakeOfCamel()
    ensures Snake("helloWorld") == "hello_world"
  {
    assert SnakeUpTo("helloWorld", 2) == "he";
    assert SnakeUpTo("helloWorld", 4) == "hell";
    assert SnakeUpTo("helloWorld", 5) == "hello";
    assert SnakeUpTo("helloWorld", 6) == "hello_w";
    assert SnakeUpTo("helloWorld", 8) == "hello_wor";
    assert SnakeUpTo("helloWorld", 10) == "hello_world";
  }

  // ---- to_camel_case ----

  predicate IsSeparator(c: char) { c == '_' || c == '-' }

  /** What `to_camel_case` pushes for the character at `i`: a separator is
      dropped; the first character is lowered; a character right after a
      separator is raised; anything else is copied. `capitalize_next` holds
      exactly when the previous character was a separator. */
  function CamelPiece(s: string, i: nat): (r: string)
    requires i < |s|
  {
    if IsSeparator(s[i]) then []
    else if i == 0 then [ToAsciiLower(s[i])]
    else if IsSeparator(s[i - 1]) then [ToAsciiUpper(s[i])]
    else [s[i]]
  }

  function CamelUpTo(s: string, n: nat): string
    requires n <= |s|
  {
    if n == 0 then [] else CamelUpTo(s, n - 1) + CamelPiece(s, n - 1)
  }

  function Camel(s: string): string {
    CamelUpTo(s, |s|)
  }

  /** `to_camel_case`, with its `capitalize_next` flag. */
  method ToCamelCase(s: string) returns (result: string)
    ensures result == Camel(s)
  {
    result := "";
    var capitalizeNext := false;
    for i := 0 to |s|
      invariant result == CamelUpTo(s, i)
      invariant capitalizeNext == (i > 0 && IsSeparator(s[i - 1]))
    {
      var ch := s[i];
      if ch == '_' || ch == '-' {
        capitalizeNext := true;
      } else if i == 0 {
        result := result + [ToAsciiLower(ch)];
      } else if capitalizeNext {
        result := result + [ToAsciiUpper(ch)];
        capitalizeNext := false;
      } else {
        result := result + [ch];
      }
    }
  }

  lemma LowerAllAppend(a: string, b: string)
    ensures LowerAll(a + b) == LowerAll(a) + LowerAll(b)
  {
  }

  /** Lowered, a piece is its character lowered, or nothing for a separator. */
  lemma CamelPieceLetters(s: string, i: nat)
    requires i < |s|
    ensures LowerAll(CamelPiece(s, i)) == Drop([ToAsciiLower(s[i])], {'_', '-'})
  {
  }

  lemma {:induction false} CamelUpToKeepsLetters(s: string, n: nat)
    requires n <= |s|
    ensures LowerAll(CamelUpTo(s, n)) == Drop(LowerAll(s[..n]), {'_', '-'})
  {
    if n > 0 {
      CamelUpToKeepsLetters(s, n - 1);
      CamelPieceLetters(s, n - 1);
      LowerAllSnoc(s, n);
      KeepLettersStep(CamelUpTo(s, n - 1), CamelPiece(s, n - 1), LowerAll(s[..n - 1]), [ToAsciiLower(s[n - 1])]);
    }
  }

  /** One step of the induction above, on the strings alone. */
  lemma KeepLettersStep(a: string, p: string, l: string, c: string)
    requires LowerAll(a) == Drop(l, {'_', '-'}) && LowerAll(p) == Drop(c, {'_', '-'})
    ensures LowerAll(a + p) == Drop(l + c, {'_', '-'})
  {
    LowerAllAppend(a, p);
    DropAppend(l, c, {'_', '-'});
  }

  /** The output holds no separator, and lowered it is the input lowered
      with its separators removed: no letter is lost, added or moved. */
  lemma CamelFacts(s: string)
    ensures forall c :: c in Camel(s) ==> !IsSeparator(c)
    ensures LowerAll(Camel(s)) == Drop(LowerAll(s), {'_', '-'})
  {
    CamelUpToKeepsLetters(s, |s|);
    assert s[..|s|] == s;
    DropMembers(LowerAll(s), {'_', '-'});
    forall c | c in Camel(s) ensures !IsSeparator(c) {
      var i :| 0 <= i < |Camel(s)| && Camel(s)[i] == c;
      assert LowerAll(Camel(s))[i] == ToAsciiLower(c);
    }
  }

  lemma {:induction false} CamelUpToHead(s: string, n: nat)
    requires 1 <= n <= |s| && !IsSeparator(s[0])
    ensures CamelUpTo(s, n) != [] && CamelUpTo(s, n)[0] == ToAsciiLower(s[0])
  {
    if n > 1 {
      CamelUpToHead(s, n - 1);
    }
  }

  lemma {:induction false} CamelUpToOfPlain(t: string, n: nat)
    requires n <= |t| && (forall c :: c in t ==> !IsSeparator(c))
    requires t != [] ==> ToAsciiLower(t[0]) == t[0]
    ensures CamelUpTo(t, n) == t[..n]
  {
    if n > 0 {
      CamelUpToOfPlain(t, n - 1);
      assert t[..n] == t[..n - 1] + [t[n - 1]];
    }
  }

  /** Converting twice is converting once when the input does not start
      with a separator. */
  lemma CamelIdempotent(s: string)
    requires s == [] || !IsSeparator(s[0])
    ensures Camel(Camel(s)) == Camel(s)
  {
    CamelFacts(s);
    var t := Camel(s);
    if s != [] {
      CamelUpToHead(s, |s|);
    }
    CamelUpToOfPlain(t, |t|);
    assert t[..|t|] == t;
  }

  /** A leading separator raises the first letter, so a second conversion
      changes the result. */
  lemma LeadingSeparatorRaises()
    ensures Camel("_ab") == "Ab"
    ensures Camel(Camel("_ab")) == "ab"
  {
    assert CamelUpTo("_ab", 1) == "";
    assert CamelUpTo("_ab", 2) == "A";
    assert CamelUpTo("Ab", 1) == "a";
  }

  lemma CamelExamples()
    ensures Camel("hello_world") == "helloWorld"
    ensures Camel("hello-world") == "helloWorld"
  {
    assert CamelUpTo("hello_world", 2) == "he";
    assert CamelUpTo("hello_world", 4) == "hell";
    assert CamelUpTo("hello_world", 6) == "hello";
    assert CamelUpTo("hello_world", 8) == "helloWo";
    assert CamelUpTo("hello_world", 10) == "helloWorl";
    assert CamelUpTo("hello-world", 2) == "he";
    assert CamelUpTo("hello-world", 4) == "hell";
    assert CamelUpTo("hello-world", 6) == "hello";
    assert CamelUpTo("hello-world", 8) == "helloWo";
    assert CamelUpTo("hello-world", 10) == "helloWorl";
  }

  // ---- truncate ----

  function SaturatingSub(a: nat, b: nat): (r: nat)
    ensures r == if a >= b then a - b else 0
  {
    if a >= b then a - b else 0
  }

  /** `truncate`: text of at most `maxLen` bytes is kept; longer text is cut
      to its first `maxLen - 3` bytes (saturating) and "..." is appended. The
      cut panics when it falls inside a character. */
  function Truncate(s: string, maxLen: nat): (r: Outcome<string>)
    ensures Utf8Len(s) <= maxLen ==> r == Returns(s)
    ensures Utf8Len(s) > maxLen && r.Returns? ==>
      exists p :: p <= s && Utf8Len(p) == SaturatingSub(maxLen, 3) && r.value == p + "..."
  {
    if Utf8Len(s) <= maxLen then Returns(s)
    else
      match BytePrefix(s, SaturatingSub(maxLen, 3))
      case Returns(p) => Returns(p + "...")
      case Panics => Panics
  }

  /** On ASCII text the cut never panics and a truncated result is exactly
      `max(maxLen, 3)` bytes long. */
  lemma TruncateAscii(s: string, maxLen: nat)
    requires IsAscii(s)
    ensures Truncate(s, maxLen).Returns? && Utf8Len(s) == |s|
    ensures |s| > maxLen ==>
      Truncate(s, maxLen) == Returns(s[..SaturatingSub(maxLen, 3)] + "...")
      && Utf8Len(Truncate(s, maxLen).value) == if maxLen >= 3 then maxLen else 3
  {
    AsciiUtf8Len(s);
    if Utf8Len(s) > maxLen {
      var n := SaturatingSub(maxLen, 3);
      AsciiBytePrefix(s, n);
      Utf8LenAppend(s[..n], "...");
      AsciiUtf8Len("...");
    }
  }

  lemma TruncateShort(s: string)
    requires s == "hello"
    ensures Truncate(s, 10) == Returns("hello")
  {
    assert IsAscii(s);
    TruncateAscii(s, 10);
  }

  lemma TruncateLong(s: string)
    requires s == "hello world"
    ensures Truncate(s, 8) == Returns("hello...")
  {
    assert IsAscii(s);
    TruncateAscii(s, 8);
    assert SaturatingSub(8, 3) == 5 && s[..5] + "..." == "hello...";
  }
}

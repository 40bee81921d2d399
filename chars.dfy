/** Character classes used by the string utilities' regular expressions and
    trimming, and the ASCII case mapping.

    Whitespace is ECMAScript's WhiteSpace plus LineTerminator, the set that both
    `String.prototype.trim` and the regular-expression class `\s` use. */
module Chars {

  /** JavaScript `\s`: TAB, VT, FF, SPACE, NBSP, ZWNBSP, the Unicode Zs
      category, and the line terminators LF, CR, LS, PS. */
  predicate IsSpace(c: char) {
    var u := c as int;
    || (0x09 <= u <= 0x0D)      // TAB, LF, VT, FF, CR
    || u == 0x20 || u == 0xA0   // SPACE, NO-BREAK SPACE
    || u == 0x1680 || (0x2000 <= u <= 0x200A) || u == 0x202F || u == 0x205F || u == 0x3000
    || u == 0x2028 || u == 0x2029  // LINE and PARAGRAPH SEPARATOR
    || u == 0xFEFF              // ZERO WIDTH NO-BREAK SPACE
  }

  /** `r` occurs in `s` starting at index `k`. */
  predicate OccursAt(r: string, s: string, k: int) {
    0 <= k <= |s| - |r| && s[k..k + |r|] == r
  }

  /** No character of `t` is whitespace. */
  predicate NoSpace(t: string) {
    forall i :: 0 <= i < |t| ==> !IsSpace(t[i])
  }

  /** The longest prefix of `s` without whitespace: what `\S*` matches at
      the start of `s`. */
  function NonSpacePrefix(s: string): (w: string)
    ensures |w| <= |s| && w == s[..|w|]
    ensures NoSpace(w)
    ensures |w| == |s| || IsSpace(s[|w|])
  {
    if s == [] || IsSpace(s[0]) then [] else [s[0]] + NonSpacePrefix(s[1..])
  }

  /** A run without whitespace followed by whitespace (or nothing) is
      exactly what `\S*` matches. */
  lemma {:induction false} NonSpacePrefixOf(w: string, y: string)
    requires NoSpace(w) && (y == [] || IsSpace(y[0]))
    ensures NonSpacePrefix(w + y) == w
    decreases |w|
  {
    if w == [] {
      assert w + y == y;
    } else {
      assert (w + y)[0] == w[0] && (w + y)[1..] == w[1..] + y;
      NonSpacePrefixOf(w[1..], y);
      assert w == [w[0]] + w[1..];
    }
  }

  /** `\S*` runs at least as far as the first `k` characters do without
      whitespace. */
  lemma {:induction false} NonSpacePrefixCovers(s: string, k: int)
    requires 0 <= k <= |s| && NoSpace(s[..k])
    ensures |NonSpacePrefix(s)| >= k
    decreases k
  {
    if k > 0 {
      assert s[0] == s[..k][0];
      assert s[1..][..k - 1] == s[..k][1..];
      NonSpacePrefixCovers(s[1..], k - 1);
    }
  }

  predicate IsAsciiUpper(c: char) { 'A' <= c <= 'Z' }

  predicate IsAsciiLower(c: char) { 'a' <= c <= 'z' }

  predicate IsAsciiLetter(c: char) { IsAsciiUpper(c) || IsAsciiLower(c) }

  /** JavaScript `\d` (ASCII digits only). */
  predicate IsDigit(c: char) { '0' <= c <= '9' }

  /** JavaScript `\w`: `[A-Za-z0-9_]`. */
  predicate IsWordChar(c: char) { IsAsciiLetter(c) || IsDigit(c) || c == '_' }

  /** The class `[a-zA-Z0-9]`. */
  predicate IsAlnum(c: char) { IsAsciiLetter(c) || IsDigit(c) }

  function UpperChar(c: char): (u: char)
    ensures IsAsciiLower(c) ==> IsAsciiUpper(u) && u as int == c as int - 32
    ensures !IsAsciiLower(c) ==> u == c
  {
    if IsAsciiLower(c) then (c as int - 32) as char else c
  }

  function LowerChar(c: char): (l: char)
    ensures IsAsciiUpper(c) ==> IsAsciiLower(l) && l as int == c as int + 32
    ensures !IsAsciiUpper(c) ==> l == c
  {
    if IsAsciiUpper(c) then (c as int + 32) as char else c
  }

  /** Case mapping keeps every character class that the scanners look at. */
  lemma CaseMappingKeepsClasses(c: char)
    ensures IsWordChar(UpperChar(c)) == IsWordChar(c) && IsWordChar(LowerChar(c)) == IsWordChar(c)
    ensures IsSpace(UpperChar(c)) == IsSpace(c) && IsSpace(LowerChar(c)) == IsSpace(c)
    ensures IsDigit(UpperChar(c)) == IsDigit(c) && IsDigit(LowerChar(c)) == IsDigit(c)
    ensures !IsAsciiUpper(LowerChar(c)) && !IsAsciiLower(UpperChar(c))
    ensures UpperChar(LowerChar(c)) == UpperChar(c) && LowerChar(UpperChar(c)) == LowerChar(c)
  {
  }

  /** `String.prototype.toUpperCase`, restricted to the ASCII letters. */
  function ToUpper(s: string): (r: string)
    ensures |r| == |s|
    ensures forall i :: 0 <= i < |s| ==> r[i] == UpperChar(s[i])
  {
    seq(|s|, i requires 0 <= i < |s| => UpperChar(s[i]))
  }

  /** `String.prototype.toLowerCase`, restricted to the ASCII letters. */
  function ToLower(s: string): (r: string)
    ensures |r| == |s|
    ensures forall i :: 0 <= i < |s| ==> r[i] == LowerChar(s[i])
  {
    seq(|s|, i requires 0 <= i < |s| => LowerChar(s[i]))
  }

  /** Upper-casing after lower-casing is the same as upper-casing, and the
      other way round: neither mapping loses more than the other keeps. */
  lemma CaseMappingComposes(s: string)
    ensures ToUpper(ToLower(s)) == ToUpper(s)
    ensures ToLower(ToUpper(s)) == ToLower(s)
  {
    forall i | 0 <= i < |s| ensures ToUpper(ToLower(s))[i] == ToUpper(s)[i] && ToLower(ToUpper(s))[i] == ToLower(s)[i] {
      CaseMappingKeepsClasses(s[i]);
    }
  }

  /** Both mappings are idempotent and leave everything but ASCII letters alone. */
  lemma CaseMappingIdempotent(s: string)
    ensures ToUpper(ToUpper(s)) == ToUpper(s)
    ensures ToLower(ToLower(s)) == ToLower(s)
    ensures forall i :: 0 <= i < |s| && !IsAsciiLetter(s[i]) ==> ToUpper(s)[i] == s[i] == ToLower(s)[i]
  {
  }

  /** Lower-casing leaves a string without upper-case letters alone. */
  lemma ToLowerNoUpper(s: string)
    requires forall i :: 0 <= i < |s| ==> !IsAsciiUpper(s[i])
    ensures ToLower(s) == s
  {
  }

  /** The examples in the documentation of `toUpperCase` and `toLowerCase`. */
  lemma CaseMappingExamples()
    ensures ToUpper("hello") == "HELLO" && ToUpper("Hello World") == "HELLO WORLD"
    ensures ToLower("HELLO") == "hello" && ToLower("Hello World") == "hello world"
  {
  }

  /** Case mapping works character by character, so it distributes over concatenation. */
  lemma CaseMappingConcat(a: string, b: string)
    ensures ToUpper(a + b) == ToUpper(a) + ToUpper(b)
    ensures ToLower(a + b) == ToLower(a) + ToLower(b)
  {
  }
}

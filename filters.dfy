/** Character-class filters: `removeSpecialChars` (`/[^a-zA-Z0-9]/g`
    replaced by nothing) and `isAlpha` (`/^[A-Za-z]+$/`). */
module Filters {
  import opened Chars

  /** `removeSpecialChars(data)`: only the ASCII letters and digits remain,
      in their original order. */
  function RemoveSpecialChars(s: string): (r: string)
    ensures |r| <= |s|
    ensures forall i :: 0 <= i < |r| ==> IsAlnum(r[i])
  {
    if s == [] then []
    else (if IsAlnum(s[0]) then [s[0]] else []) + RemoveSpecialChars(s[1..])
  }

  /** The filter works character by character: the result for a
      concatenation is the concatenation of the results. Together with the
      one-character case this pins the filter down. */
  lemma {:induction false} RemoveSpecialCharsConcat(a: string, b: string)
    ensures RemoveSpecialChars(a + b) == RemoveSpecialChars(a) + RemoveSpecialChars(b)
    decreases |a|
  {
    if a != [] {
      assert (a + b)[1..] == a[1..] + b;
      RemoveSpecialCharsConcat(a[1..], b);
    } else {
      assert a + b == b;
    }
  }

  /** A string of letters and digits is kept whole and one without any is
      dropped; so filtering a second time changes nothing. */
  lemma {:induction false} RemoveSpecialCharsExtremes(s: string)
    ensures (forall i :: 0 <= i < |s| ==> IsAlnum(s[i])) ==> RemoveSpecialChars(s) == s
    ensures (forall i :: 0 <= i < |s| ==> !IsAlnum(s[i])) ==> RemoveSpecialChars(s) == []
    ensures RemoveSpecialChars(RemoveSpecialChars(s)) == RemoveSpecialChars(s)
    decreases |s|
  {
    if s != [] {
      RemoveSpecialCharsExtremes(s[1..]);
      assert s == [s[0]] + s[1..];
    }
    var r := RemoveSpecialChars(s);
    if r != [] && |r| < |s| {
      RemoveSpecialCharsExtremes(r);
    }
  }

  /** The filter of a concatenation, from the filters of its two parts. */
  lemma RemoveSpecialCharsJoin(x: string, y: string, rx: string, ry: string)
    requires RemoveSpecialChars(x) == rx && RemoveSpecialChars(y) == ry
    ensures RemoveSpecialChars(x + y) == rx + ry
  {
    RemoveSpecialCharsConcat(x, y);
  }

  /** The documentation's first example of `removeSpecialChars`. */
  lemma RemoveSpecialCharsExampleWords()
    ensures RemoveSpecialChars("Hello@World!") == "HelloWorld"
  {
    assert RemoveSpecialChars("Hello@") == "Hello";
    assert RemoveSpecialChars("World!") == "World";
    RemoveSpecialCharsJoin("Hello@", "World!", "Hello", "World");
    WordsGlue();
  }

  lemma WordsGlue()
    ensures "Hello@" + "World!" == "Hello@World!" && "Hello" + "World" == "HelloWorld"
  {
  }

  /** The documentation's example of `removeSpecialChars` on an address. */
  lemma RemoveSpecialCharsExampleEmail()
    ensures RemoveSpecialChars("user.name@email.com") == "usernameemailcom"
  {
    EmailHead();
    EmailTail();
    RemoveSpecialCharsJoin("user.name@", "email.com", "username", "emailcom");
    EmailGlue();
  }

  lemma EmailHead()
    ensures RemoveSpecialChars("user.name@") == "username"
  {
    EmailUser();
    EmailName();
    RemoveSpecialCharsJoin("user.", "name@", "user", "name");
    EmailHeadGlue();
  }

  lemma EmailUser()
    ensures RemoveSpecialChars("user.") == "user"
  {
  }

  lemma EmailName()
    ensures RemoveSpecialChars("name@") == "name"
  {
  }

  lemma EmailHeadGlue()
    ensures "user." + "name@" == "user.name@"
    ensures "user" + "name" == "username"
  {
  }

  lemma EmailTail()
    ensures RemoveSpecialChars("email.com") == "emailcom"
  {
  }

  lemma EmailGlue()
    ensures "user.name@" + "email.com" == "user.name@email.com"
    ensures "username" + "emailcom" == "usernameemailcom"
  {
  }

  /** The documentation's example of `removeSpecialChars` on digits. */
  lemma RemoveSpecialCharsExampleDigits()
    ensures RemoveSpecialChars("123-456-789") == "123456789"
  {
    assert RemoveSpecialChars("123-4") == "1234";
    assert RemoveSpecialChars("56-789") == "56789";
    RemoveSpecialCharsJoin("123-4", "56-789", "1234", "56789");
    DigitsGlue();
  }

  lemma DigitsGlue()
    ensures "123-4" + "56-789" == "123-456-789" && "1234" + "56789" == "123456789"
  {
  }

  /** All characters of `s` are ASCII letters (the `+` part of the pattern). */
  function AllLetters(s: string): (r: bool)
    ensures r <==> forall i :: 0 <= i < |s| ==> IsAsciiLetter(s[i])
  {
    s == [] || (IsAsciiLetter(s[0]) && AllLetters(s[1..]))
  }

  /** `isAlpha(data)`: non-empty and made of ASCII letters only. */
  function IsAlpha(s: string): (r: bool)
    ensures r <==> |s| > 0 && forall i :: 0 <= i < |s| ==> IsAsciiLetter(s[i])
  {
    s != [] && AllLetters(s)
  }

  /** A string that passes `isAlpha` is left alone by `removeSpecialChars`,
      and its upper-cased form passes too. */
  lemma IsAlphaKeptByFilters(s: string)
    requires IsAlpha(s)
    ensures RemoveSpecialChars(s) == s
    ensures IsAlpha(ToUpper(s)) && IsAlpha(ToLower(s))
  {
  }

  /** The examples in the documentation of `isAlpha`, and the empty string. */
  lemma IsAlphaExamples()
    ensures IsAlpha("Hello")
    ensures !IsAlpha("Hello123")
    ensures !IsAlpha("Hello World")
    ensures !IsAlpha("")
  {
    assert !IsAsciiLetter("Hello123"[5]);
    assert !IsAsciiLetter("Hello World"[5]);
  }
}

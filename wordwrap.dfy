/** `wordWrap(data, maxLength)`: every match of the pattern
    `(?![^\n]{1,maxLength}$)([^\n]{1,maxLength})\s`, taken from left to
    right, has its whitespace character replaced by a newline.

    In words: from the current position, unless the rest of the text is a
    last line of at most `maxLength` characters, take the longest run of
    at most `maxLength` characters other than a newline that is followed
    by whitespace, and break the line at that whitespace character. */
module WordWrap {
  import opened Chars
  import opened Results

  /** No character of `t` is a line feed (the class `[^\n]`). */
  predicate NoNewline(t: string) {
    forall i :: 0 <= i < |t| ==> t[i] != '\n'
  }

  /** The number of characters before the first line feed of `s`: how far
      `[^\n]*` can run. */
  function LineRun(s: string): (m: nat)
    ensures m <= |s| && NoNewline(s[..m])
    ensures m == |s| || s[m] == '\n'
  {
    if s == [] || s[0] == '\n' then 0
    else
      var m := 1 + LineRun(s[1..]);
      assert s[..m] == [s[0]] + s[1..][..m - 1];
      m
  }

  /** The negative lookahead `(?![^\n]{1,n}$)` fails at the start of `s`:
      what is left is a last line of 1 to `n` characters. */
  predicate LastLine(s: string, n: nat) {
    1 <= |s| <= n && NoNewline(s)
  }

  /** Backtracking of the greedy group: the largest `b <= k` whose
      character is whitespace, or 0 when none of `s[1..k + 1]` is. */
  function BreakFrom(s: string, k: nat): (b: nat)
    requires k < |s|
    ensures b <= k
    ensures b > 0 ==> IsSpace(s[b])
    ensures forall j :: b < j <= k ==> !IsSpace(s[j])
  {
    if k == 0 then 0 else if IsSpace(s[k]) then k else BreakFrom(s, k - 1)
  }

  function Min(x: int, y: int): int { if x < y then x else y }

  /** Where `([^\n]{1,n})\s` matches at the start of `s`: the length of the
      group, or 0 when the pattern does not match there. */
  function BreakAt(s: string, n: nat): (k: nat)
    requires s != []
    ensures k > 0 ==> k <= n && k < |s| && NoNewline(s[..k]) && IsSpace(s[k])
    ensures forall j :: k < j <= n && j < |s| && NoNewline(s[..j]) ==> !IsSpace(s[j])
  {
    var m := LineRun(s);
    var k := BreakFrom(s, Min(n, Min(m, |s| - 1)));
    assert forall j :: 0 <= j <= m ==> s[..j] == s[..m][..j];
    assert forall j :: m < j <= |s| ==> s[..j][m] == '\n';
    k
  }

  /** The global replacement, for a pattern whose bound `n` is at least 1. */
  function Wrap(s: string, n: nat): (r: string)
    requires n >= 1
    decreases |s|
  {
    if s == [] then []
    else
      var k := BreakAt(s, n);
      if !LastLine(s, n) && k > 0 then s[..k] + "\n" + Wrap(s[k + 1..], n)
      else [s[0]] + Wrap(s[1..], n)
  }

  /** `wordWrap(data, maxLength)`. A bound of 0 makes the pattern's
      quantifier `{1,0}` out of order, and building it throws. */
  function WordWrap(s: string, maxLength: nat): (r: Result<string>)
    ensures maxLength == 0 <==> r == Err(SyntaxError)
    ensures r.Ok? ==> BreaksOnly(s, r.value)
  {
    if maxLength == 0 then Err(SyntaxError)
    else
      WrapBreaksOnly(s, maxLength);
      Ok(Wrap(s, maxLength))
  }

  /** `r` is `s` with some whitespace characters turned into line feeds and
      nothing else changed. */
  predicate BreaksOnly(s: string, r: string) {
    |r| == |s| && forall i :: 0 <= i < |s| ==> r[i] == s[i] || (IsSpace(s[i]) && r[i] == '\n')
  }

  lemma BreaksOnlyCons(s: string, r: string)
    requires s != [] && BreaksOnly(s[1..], r)
    ensures BreaksOnly(s, [s[0]] + r)
  {
    var y := [s[0]] + r;
    forall i | 0 <= i < |s| ensures y[i] == s[i] || (IsSpace(s[i]) && y[i] == '\n') {
      if i > 0 {
        assert y[i] == r[i - 1] && s[1..][i - 1] == s[i];
      }
    }
  }

  lemma BreaksOnlyBreak(s: string, k: nat, r: string)
    requires k < |s| && IsSpace(s[k]) && BreaksOnly(s[k + 1..], r)
    ensures BreaksOnly(s, s[..k] + "\n" + r)
  {
    var y := s[..k] + "\n" + r;
    forall i | 0 <= i < |s| ensures y[i] == s[i] || (IsSpace(s[i]) && y[i] == '\n') {
      if i < k {
        assert y[i] == s[..k][i];
      } else if i == k {
        assert y[i] == '\n';
      } else {
        assert y[i] == r[i - k - 1] && s[k + 1..][i - k - 1] == s[i];
      }
    }
  }

  /** Wrapping only turns whitespace characters into line feeds: the text
      keeps its length and every other character. */
  lemma {:induction false} WrapBreaksOnly(s: string, n: nat)
    requires n >= 1
    ensures BreaksOnly(s, Wrap(s, n))
    decreases |s|
  {
    if s != [] {
      var d := Consumed(s, n);
      WrapBreaksOnly(s[d..], n);
      WrapStep(s, n, d);
    }
  }

  /** How much of `s` one step of `Wrap` consumes: the line and its broken
      whitespace character, or a single character. */
  function Consumed(s: string, n: nat): (d: nat)
    requires s != []
    ensures 1 <= d <= |s|
  {
    if !LastLine(s, n) && BreakAt(s, n) > 0 then BreakAt(s, n) + 1 else 1
  }

  lemma WrapStep(s: string, n: nat, d: nat)
    requires n >= 1 && s != [] && d == Consumed(s, n)
    requires BreaksOnly(s[d..], Wrap(s[d..], n))
    ensures BreaksOnly(s, Wrap(s, n))
  {
    var k := BreakAt(s, n);
    if !LastLine(s, n) && k > 0 {
      WrapStepBreak(s, n, k, Wrap(s[k + 1..], n));
    } else {
      WrapStepKeep(s, n, Wrap(s[1..], n));
    }
  }

  /** A break at `k`, and the rest wrapped by the induction hypothesis. */
  lemma WrapStepBreak(s: string, n: nat, k: nat, w: string)
    requires n >= 1 && s != [] && k == BreakAt(s, n) && k > 0 && !LastLine(s, n)
    requires w == Wrap(s[k + 1..], n) && BreaksOnly(s[k + 1..], w)
    ensures BreaksOnly(s, Wrap(s, n))
  {
    assert Wrap(s, n) == s[..k] + "\n" + w;
    BreaksOnlyBreak(s, k, w);
  }

  /** The first character kept, and the rest wrapped by the induction
      hypothesis. */
  lemma WrapStepKeep(s: string, n: nat, w: string)
    requires n >= 1 && s != [] && (LastLine(s, n) || BreakAt(s, n) == 0)
    requires w == Wrap(s[1..], n) && BreaksOnly(s[1..], w)
    ensures BreaksOnly(s, Wrap(s, n))
  {
    assert Wrap(s, n) == [s[0]] + w;
    BreaksOnlyCons(s, w);
  }

  /** Text without whitespace has nowhere to break and comes back as it was. */
  lemma {:induction false} WrapNoSpace(s: string, n: nat)
    requires n >= 1 && NoSpace(s)
    ensures Wrap(s, n) == s
    decreases |s|
  {
    if s != [] {
      assert NoSpace(s[1..]);
      WrapNoSpace(s[1..], n);
      assert [s[0]] + s[1..] == s;
    }
  }

  /** A last line of at most `n` characters is never broken, even where it
      has whitespace. */
  lemma {:induction false} WrapLastLine(s: string, n: nat)
    requires n >= 1 && |s| <= n && NoNewline(s)
    ensures Wrap(s, n) == s
    decreases |s|
  {
    if s != [] {
      assert LastLine(s, n);
      assert NoNewline(s[1..]);
      WrapLastLine(s[1..], n);
      assert [s[0]] + s[1..] == s;
    }
  }

  /** A word of exactly `n` characters followed by a blank other than a line
      feed, with more text after it, is broken right after the word. */
  lemma WrapFullWord(w: string, c: char, t: string, n: nat)
    requires n >= 1 && |w| == n && NoNewline(w) && IsSpace(c) && c != '\n'
    ensures Wrap(w + [c] + t, n) == w + "\n" + Wrap(t, n)
  {
    var s := w + [c] + t;
    assert s[..n] == w && s[n] == c && s[n + 1..] == t;
    assert !NoNewline(s) || !LastLine(s, n);
    assert BreakAt(s, n) == n;
  }

  /** The documentation's first example: two words of exactly the bound
      are each broken off. */
  lemma WordWrapExampleLong()
    ensures WordWrap("Long text here", 4) == Ok("Long\ntext\nhere")
  {
    var a, b, c := "Long", "text", "here";
    ExamplePieces(a, b, c);
    WrapFullWord(a, ' ', b + " " + c, 4);
    WrapFullWord(b, ' ', c, 4);
    WrapNoSpace(c, 4);
  }

  /** The documentation's second example: a short last line stays whole. */
  lemma WordWrapExampleShort()
    ensures WordWrap("Short", 10) == Ok("Short")
  {
    var short := "Short";
    assert NoNewline(short);
    WrapLastLine(short, 10);
  }

  /** The documentation's third example: a word longer than the bound is
      not split. */
  lemma WordWrapExampleLongWord()
    ensures WordWrap("VeryLongWord", 4) == Ok("VeryLongWord")
  {
    var long := "VeryLongWord";
    assert NoSpace(long);
    WrapNoSpace(long, 4);
  }

  lemma ExamplePieces(a: string, b: string, c: string)
    requires a == "Long" && b == "text" && c == "here"
    ensures NoNewline(a) && NoNewline(b) && NoSpace(c) && IsSpace(' ')
    ensures b + [' '] + c == b + " " + c
    ensures a + [' '] + (b + " " + c) == "Long text here"
    ensures a + "\n" + (b + "\n" + c) == "Long\ntext\nhere"
  {
  }
}

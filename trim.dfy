/** `trim`: leading and trailing whitespace removed. Whitespace is the class
    that `String.prototype.trim` strips, the same one as `\s`. */
module Trimming {
  import opened Chars
  import Seqs

  /** Every character of `t` is whitespace. */
  predicate AllSpace(t: string) {
    forall i :: 0 <= i < |t| ==> IsSpace(t[i])
  }

  /** `t` neither starts nor ends with whitespace. */
  predicate NoOuterSpace(t: string) {
    t == [] || (!IsSpace(t[0]) && !IsSpace(t[|t| - 1]))
  }

  /** The string without its leading whitespace. */
  function TrimStart(s: string): (r: string)
    ensures |r| <= |s| && r == s[|s| - |r|..]
    ensures AllSpace(s[..|s| - |r|])
    ensures r == [] || !IsSpace(r[0])
  {
    if s != [] && IsSpace(s[0]) then
      var r := TrimStart(s[1..]);
      TrimStartStep(s, s[1..], r);
      r
    else s
  }

  lemma TrimStartStep(s: string, p: string, r: string)
    requires s != [] && IsSpace(s[0]) && p == s[1..]
    requires |r| <= |p| && r == p[|p| - |r|..] && AllSpace(p[..|p| - |r|])
    ensures r == s[|s| - |r|..] && AllSpace(s[..|s| - |r|])
  {
    var k := |s| - |r|;
    assert s[k..] == p[k - 1..];
    assert s[..k] == [s[0]] + p[..k - 1];
  }

  /** The string without its trailing whitespace. */
  function TrimEnd(s: string): (r: string)
    ensures |r| <= |s| && r == s[..|r|]
    ensures AllSpace(s[|r|..])
    ensures r == [] || !IsSpace(r[|r| - 1])
  {
    if s != [] && IsSpace(s[|s| - 1]) then
      var r := TrimEnd(s[..|s| - 1]);
      TrimEndStep(s, s[..|s| - 1], r);
      r
    else s
  }

  lemma TrimEndStep(s: string, p: string, r: string)
    requires s != [] && IsSpace(s[|s| - 1]) && p == s[..|s| - 1]
    requires |r| <= |p| && r == p[..|r|] && AllSpace(p[|r|..])
    ensures r == s[..|r|] && AllSpace(s[|r|..])
  {
    assert s[..|r|] == p[..|r|];
    assert s[|r|..] == p[|r|..] + [s[|s| - 1]];
  }

  /** `trim(data)`. */
  function Trim(s: string): (r: string)
    ensures NoOuterSpace(r)
  {
    var t := TrimStart(s);
    var r := TrimEnd(t);
    TrimOuter(t, r);
    r
  }

  lemma TrimOuter(t: string, r: string)
    requires t == [] || !IsSpace(t[0])
    requires |r| <= |t| && r == t[..|r|] && (r == [] || !IsSpace(r[|r| - 1]))
    ensures NoOuterSpace(r)
  {
    if r != [] {
      assert r[0] == t[0];
    }
  }

  /** The trimmed string is a piece of the input with only whitespace
      before and after it. */
  lemma TrimIsMiddle(s: string)
    ensures exists k :: OccursAt(Trim(s), s, k) && AllSpace(s[..k]) && AllSpace(s[k + |Trim(s)|..])
  {
    var t := TrimStart(s);
    var r := TrimEnd(t);
    assert Trim(s) == r;
    TrimPieces(s, t, r);
    var k := |s| - |t|;
    assert OccursAt(r, s, k) && AllSpace(s[..k]) && AllSpace(s[k + |r|..]);
  }

  /** Where the trimmed string sits in `s`: right after the leading
      whitespace. */
  lemma TrimSlice(s: string)
    ensures OccursAt(Trim(s), s, |s| - |TrimStart(s)|)
  {
    var t := TrimStart(s);
    var r := TrimEnd(t);
    assert Trim(s) == r;
    TrimPieces(s, t, r);
  }

  /** Trimming keeps the piece of `s` between its leading and its trailing
      whitespace. */
  lemma TrimPieces(s: string, t: string, r: string)
    requires |t| <= |s| && t == s[|s| - |t|..] && AllSpace(s[..|s| - |t|])
    requires |r| <= |t| && r == t[..|r|] && AllSpace(t[|r|..])
    ensures OccursAt(r, s, |s| - |t|) && AllSpace(s[|s| - |t| + |r|..])
  {
    var k := |s| - |t|;
    Seqs.SliceOfSuffix(s, k, |r|);
  }

  lemma {:induction false} TrimStartOf(a: string, t: string)
    requires AllSpace(a)
    requires t == [] || !IsSpace(t[0])
    ensures TrimStart(a + t) == t
    decreases |a|
  {
    if a != [] {
      assert (a + t)[1..] == a[1..] + t;
      TrimStartOf(a[1..], t);
    } else {
      assert a + t == t;
    }
  }

  lemma {:induction false} TrimEndOf(t: string, b: string)
    requires AllSpace(b)
    requires t == [] || !IsSpace(t[|t| - 1])
    ensures TrimEnd(t + b) == t
    decreases |b|
  {
    if b != [] {
      assert (t + b)[..|t + b| - 1] == t + b[..|b| - 1];
      TrimEndOf(t, b[..|b| - 1]);
    } else {
      assert t + b == t;
    }
  }

  /** Whatever whitespace surrounds a string that neither starts nor ends
      with whitespace, `trim` removes exactly that whitespace. So `trim`
      keeps the middle of the string as it is, and a string without outer
      whitespace is returned unchanged. */
  lemma TrimOf(a: string, t: string, b: string)
    requires AllSpace(a) && AllSpace(b) && NoOuterSpace(t)
    ensures Trim(a + t + b) == t
  {
    if t == [] {
      assert a + t + b == a + b;
      assert AllSpace(a + b);
      TrimStartOf(a + b, []);
      assert a + b + [] == a + b;
      TrimEndOf([], []);
    } else {
      assert a + t + b == a + (t + b);
      TrimStartOf(a, t + b);
      TrimEndOf(t, b);
    }
  }

  /** A string without outer whitespace is its own trimmed form; so `trim`
      is idempotent. */
  lemma TrimIdempotent(s: string)
    ensures NoOuterSpace(s) ==> Trim(s) == s
    ensures Trim(Trim(s)) == Trim(s)
  {
    if NoOuterSpace(s) {
      TrimStartOf([], s);
      TrimEndOf(s, []);
    }
    var t := Trim(s);
    TrimStartOf([], t);
    TrimEndOf(t, []);
  }

  /** The documentation's examples of `trim` with spaces around the word
      and with none. */
  lemma TrimExamplesSpaces()
    ensures Trim("  hello  ") == "hello"
    ensures Trim("hello") == "hello"
  {
    assert AllSpace("  ") && NoOuterSpace("hello");
    TrimOf("  ", "hello", "  ");
    assert "  " + "hello" + "  " == "  hello  ";
    TrimIdempotent("hello");
  }

  /** The documentation's example of `trim` with tabs and newlines. */
  lemma TrimExample()
    ensures Trim("\n\thello\t\n") == "hello"
  {
    assert AllSpace("\n\t") && AllSpace("\t\n");
    TrimOf("\n\t", "hello", "\t\n");
    assert "\n\t" + "hello" + "\t\n" == "\n\thello\t\n";
  }
}

/** `extractUrls`: every match of the global pattern `(https?:\/\/[^\s]+)`,
    from left to right: `http://` or `https://` followed by the longest
    non-empty run of non-whitespace. */
module Urls {
  import opened Chars
  import opened Seqs

  const Http := "http://"
  const Https := "https://"

  /** A match of the pattern begins at the start of `s`: one of the two
      schemes, then at least one character that is not whitespace. */
  predicate UrlStart(s: string) {
    || (|s| > 7 && s[..7] == Http && !IsSpace(s[7]))
    || (|s| > 8 && s[..8] == Https && !IsSpace(s[8]))
  }

  /** What a URL found by `extractUrls` looks like: a scheme and at least
      one more character, no whitespace anywhere. */
  predicate IsUrl(u: string) {
    UrlStart(u) && NoSpace(u)
  }

  /** `extractUrls(data)`. The match at a position runs to the next
      whitespace (the scheme holds none), and the scan goes on after it;
      so every string it returns is a URL. */
  function ExtractUrls(s: string): (urls: seq<string>)
    ensures forall k :: 0 <= k < |urls| ==> IsUrl(urls[k])
    decreases |s|
  {
    if s == [] then []
    else if UrlStart(s) then
      var u := NonSpacePrefix(s);
      assert |u| > 0 by {
        assert !IsSpace(s[0]);
      }
      UrlPrefix(s);
      [u] + ExtractUrls(s[|u|..])
    else
      ExtractUrls(s[1..])
  }

  /** `u` was found in `s` at `j`, and the match could not have been longer:
      it ends at whitespace or at the end of `s`. */
  predicate FoundAt(u: string, s: string, j: int) {
    OccursAt(u, s, j) && (j + |u| == |s| || IsSpace(s[j + |u|]))
  }

  /** Every URL found is a scheme plus non-whitespace, and it is a maximal
      piece of the input. */
  lemma {:induction false} ExtractedAreUrls(s: string)
    ensures AllFound(ExtractUrls(s), s)
    decreases |s|
  {
    if s == [] {
    } else if UrlStart(s) {
      var u := NonSpacePrefix(s);
      assert !IsSpace(s[0]);
      ExtractedAreUrls(s[|u|..]);
      ExtractedStepUrl(s);
    } else {
      ExtractedAreUrls(s[1..]);
      ExtractedStepSkip(s);
    }
  }

  /** Every URL in `urls` is a URL found in `s`. */
  ghost predicate AllFound(urls: seq<string>, s: string) {
    forall k :: 0 <= k < |urls| ==> IsUrl(urls[k]) && exists j :: FoundAt(urls[k], s, j)
  }

  /** Where the scan of `ExtractUrls` finds its matches, from left to right. */
  function UrlPositions(s: string): (js: seq<nat>)
    ensures |js| == |ExtractUrls(s)|
    decreases |s|
  {
    if s == [] then []
    else if UrlStart(s) then
      var n := |NonSpacePrefix(s)|;
      assert n > 0 by {
        assert !IsSpace(s[0]);
      }
      [0] + Shift(UrlPositions(s[n..]), n)
    else
      Shift(UrlPositions(s[1..]), 1)
  }

  /** Positions in a suffix that starts at `d`, as positions in the whole. */
  function Shift(js: seq<nat>, d: nat): (r: seq<nat>)
    ensures |r| == |js| && forall k :: 0 <= k < |js| ==> r[k] == js[k] + d
  {
    seq(|js|, k requires 0 <= k < |js| => js[k] + d)
  }

  /** Each URL is a match that begins at its position: a URL starts there
      and the match runs to the next whitespace. */
  ghost predicate Located(s: string, urls: seq<string>, js: seq<nat>) {
    && |js| == |urls|
    && forall k :: 0 <= k < |js| ==> IsUrl(urls[k]) && FoundAt(urls[k], s, js[k]) && UrlStart(s[js[k]..])
  }

  /** The matches come from left to right, each after the end of the one
      before it. */
  predicate Ordered(urls: seq<string>, js: seq<nat>)
    requires |js| == |urls|
  {
    forall k :: 0 <= k < |js| - 1 ==> js[k] + |urls[k]| <= js[k + 1]
  }

  /** Position `i` lies inside one of the matches. */
  ghost predicate Covered(i: int, urls: seq<string>, js: seq<nat>)
    requires |js| == |urls|
  {
    exists k :: 0 <= k < |js| && js[k] <= i < js[k] + |urls[k]|
  }

  /** No URL start from `from` on is missed: each lies inside a match. */
  ghost predicate Complete(s: string, from: nat, urls: seq<string>, js: seq<nat>)
    requires |js| == |urls|
  {
    forall i :: from <= i < |s| && UrlStart(s[i..]) ==> Covered(i, urls, js)
  }

  /** The matches of the global pattern, exactly: every URL found begins at
      a URL start and runs to whitespace or the end; the matches are in
      order and do not overlap; and every position where a URL starts lies
      inside one of them, so none is missed. A start inside a match is not
      a match of its own, which is what a global scan that resumes after
      each match does. */
  lemma {:induction false} ExtractedMatches(s: string)
    ensures Located(s, ExtractUrls(s), UrlPositions(s))
    ensures Ordered(ExtractUrls(s), UrlPositions(s))
    ensures Complete(s, 0, ExtractUrls(s), UrlPositions(s))
    decreases |s|
  {
    if s != [] {
      if UrlStart(s) {
        var u := NonSpacePrefix(s);
        assert !IsSpace(s[0]);
        ExtractedMatches(s[|u|..]);
        MatchesTail(s, |u|, ExtractUrls(s[|u|..]), UrlPositions(s[|u|..]));
        MatchesLead(s, u, ExtractUrls(s[|u|..]), Shift(UrlPositions(s[|u|..]), |u|));
      } else {
        ExtractedMatches(s[1..]);
        MatchesTail(s, 1, ExtractUrls(s[1..]), UrlPositions(s[1..]));
      }
    }
  }

  /** The matches of a suffix that starts at `d`, moved to the whole string. */
  lemma MatchesTail(s: string, d: nat, urls: seq<string>, js: seq<nat>)
    requires d <= |s| && Located(s[d..], urls, js) && Ordered(urls, js) && Complete(s[d..], 0, urls, js)
    ensures Located(s, urls, Shift(js, d)) && Ordered(urls, Shift(js, d)) && Complete(s, d, urls, Shift(js, d))
    ensures forall k :: 0 <= k < |js| ==> Shift(js, d)[k] >= d
  {
    var sj := Shift(js, d);
    TailLocated(s, d, urls, js, sj);
    TailComplete(s, d, urls, js, sj);
  }

  lemma TailLocated(s: string, d: nat, urls: seq<string>, js: seq<nat>, sj: seq<nat>)
    requires d <= |s| && Located(s[d..], urls, js) && sj == Shift(js, d)
    ensures Located(s, urls, sj)
  {
    forall k | 0 <= k < |js| ensures FoundAt(urls[k], s, sj[k]) && UrlStart(s[sj[k]..]) {
      FoundShift(urls[k], s, d, js[k]);
      assert s[d..][js[k]..] == s[sj[k]..];
    }
  }

  lemma TailComplete(s: string, d: nat, urls: seq<string>, js: seq<nat>, sj: seq<nat>)
    requires d <= |s| && |js| == |urls| && Complete(s[d..], 0, urls, js) && sj == Shift(js, d)
    ensures Complete(s, d, urls, sj)
  {
    forall i | d <= i < |s| && UrlStart(s[i..]) ensures Covered(i, urls, sj) {
      assert s[d..][i - d..] == s[i..];
      var k :| 0 <= k < |js| && js[k] <= i - d < js[k] + |urls[k]|;
      assert sj[k] <= i < sj[k] + |urls[k]|;
    }
  }

  /** A URL at the start, before the matches of the rest. */
  lemma MatchesLead(s: string, u: string, urls: seq<string>, js: seq<nat>)
    requires UrlStart(s) && u == NonSpacePrefix(s) && |u| > 0
    requires Located(s, urls, js) && Ordered(urls, js) && Complete(s, |u|, urls, js)
    requires forall k :: 0 <= k < |js| ==> js[k] >= |u|
    ensures Located(s, [u] + urls, [0] + js)
    ensures Ordered([u] + urls, [0] + js)
    ensures Complete(s, 0, [u] + urls, [0] + js)
  {
    LeadLocated(s, u, urls, js);
    LeadOrdered(u, urls, js);
    LeadComplete(s, u, urls, js);
  }

  lemma LeadLocated(s: string, u: string, urls: seq<string>, js: seq<nat>)
    requires UrlStart(s) && u == NonSpacePrefix(s) && Located(s, urls, js)
    ensures Located(s, [u] + urls, [0] + js)
  {
    var us, ps := [u] + urls, [0] + js;
    UrlPrefix(s);
    FoundFirst(s);
    assert s[0..] == s;
    forall k | 0 <= k < |ps| ensures IsUrl(us[k]) && FoundAt(us[k], s, ps[k]) && UrlStart(s[ps[k]..]) {
      if k > 0 {
        assert us[k] == urls[k - 1] && ps[k] == js[k - 1];
      }
    }
  }

  lemma LeadOrdered(u: string, urls: seq<string>, js: seq<nat>)
    requires |js| == |urls| && Ordered(urls, js)
    requires forall k :: 0 <= k < |js| ==> js[k] >= |u|
    ensures Ordered([u] + urls, [0] + js)
  {
    var us, ps := [u] + urls, [0] + js;
    forall k | 0 <= k < |ps| - 1 ensures ps[k] + |us[k]| <= ps[k + 1] {
      if k > 0 {
        assert us[k] == urls[k - 1] && ps[k] == js[k - 1] && ps[k + 1] == js[k];
      }
    }
  }

  lemma LeadComplete(s: string, u: string, urls: seq<string>, js: seq<nat>)
    requires |js| == |urls| && Complete(s, |u|, urls, js)
    ensures Complete(s, 0, [u] + urls, [0] + js)
  {
    var us, ps := [u] + urls, [0] + js;
    forall i | 0 <= i < |s| && UrlStart(s[i..]) ensures Covered(i, us, ps) {
      if i < |u| {
        assert ps[0] <= i < ps[0] + |us[0]|;
      } else {
        var k :| 0 <= k < |js| && js[k] <= i < js[k] + |urls[k]|;
        assert ps[k + 1] <= i < ps[k + 1] + |us[k + 1]|;
      }
    }
  }

  lemma ExtractedStepUrl(s: string)
    requires UrlStart(s)
    requires |NonSpacePrefix(s)| > 0
    requires AllFound(ExtractUrls(s[|NonSpacePrefix(s)|..]), s[|NonSpacePrefix(s)|..])
    ensures AllFound(ExtractUrls(s), s)
  {
    var u := NonSpacePrefix(s);
    var urls := ExtractUrls(s[|u|..]);
    assert ExtractUrls(s) == [u] + urls;
    UrlPrefix(s);
    FoundFirst(s);
    AllFoundCons(u, urls, s, |u|);
  }

  /** A URL found at the start, followed by URLs found in a suffix. */
  lemma AllFoundCons(u: string, urls: seq<string>, s: string, d: nat)
    requires IsUrl(u) && FoundAt(u, s, 0)
    requires d <= |s| && AllFound(urls, s[d..])
    ensures AllFound([u] + urls, s)
  {
    var all := [u] + urls;
    forall k | 0 <= k < |all| ensures IsUrl(all[k]) && exists j :: FoundAt(all[k], s, j) {
      if k == 0 {
        assert FoundAt(all[k], s, 0);
      } else {
        assert all[k] == urls[k - 1];
        var j :| FoundAt(urls[k - 1], s[d..], j);
        FoundShift(urls[k - 1], s, d, j);
      }
    }
  }

  lemma ExtractedStepSkip(s: string)
    requires s != [] && !UrlStart(s)
    requires AllFound(ExtractUrls(s[1..]), s[1..])
    ensures AllFound(ExtractUrls(s), s)
  {
    var urls := ExtractUrls(s[1..]);
    forall k | 0 <= k < |urls| ensures exists j :: FoundAt(urls[k], s, j) {
      var j :| FoundAt(urls[k], s[1..], j);
      FoundShift(urls[k], s, 1, j);
    }
  }

  lemma FoundFirst(s: string)
    ensures FoundAt(NonSpacePrefix(s), s, 0)
  {
    var u := NonSpacePrefix(s);
    assert s[0..|u|] == s[..|u|];
  }

  /** A match found in a suffix is found in the whole string. */
  lemma FoundShift(u: string, s: string, d: int, j: int)
    requires 0 <= d <= |s| && FoundAt(u, s[d..], j)
    ensures FoundAt(u, s, d + j)
  {
    assert s[d..][j..j + |u|] == s[d + j..d + j + |u|];
  }

  /** The match at the start of `s` is a URL. */
  lemma UrlPrefix(s: string)
    requires UrlStart(s)
    ensures IsUrl(NonSpacePrefix(s))
  {
    var u := NonSpacePrefix(s);
    if |s| > 7 && s[..7] == Http && !IsSpace(s[7]) {
      assert NoSpace(s[..8]) by {
        forall i | 0 <= i < 8 ensures !IsSpace(s[..8][i]) {
          if i < 7 {
            assert s[i] == Http[i];
          }
        }
      }
      NonSpacePrefixCovers(s, 8);
      assert u[..7] == s[..7];
    } else {
      assert NoSpace(s[..9]) by {
        forall i | 0 <= i < 9 ensures !IsSpace(s[..9][i]) {
          if i < 8 {
            assert s[i] == Https[i];
          }
        }
      }
      NonSpacePrefixCovers(s, 9);
      assert u[..8] == s[..8];
    }
  }

  /** Whether a match begins at the start of a string depends only on the
      string up to its first whitespace. */
  lemma UrlStartConcat(x: string, y: string)
    requires x != [] && (y == [] || IsSpace(x[|x| - 1]) || IsSpace(y[0]))
    ensures UrlStart(x + y) == UrlStart(x)
  {
    var z := x + y;
    assert NoSpace(Http) && NoSpace(Https);
    assert z[|x| - 1] == x[|x| - 1];
    assert y != [] ==> z[|x|] == y[0];
    assert |x| <= 7 && |z| >= 7 ==> z[..7][|x| - 1] == z[|x| - 1];
    assert |x| < 7 && |z| >= 7 ==> z[..7][|x|] == z[|x|];
    assert |x| <= 8 && |z| >= 8 ==> z[..8][|x| - 1] == z[|x| - 1];
    assert |x| < 8 && |z| >= 8 ==> z[..8][|x|] == z[|x|];
    PrefixOfConcat(x, y, 7);
    PrefixOfConcat(x, y, 8);
  }

  lemma PrefixOfConcat(x: string, y: string, n: nat)
    ensures n < |x| ==> (x + y)[..n] == x[..n] && (x + y)[n] == x[n]
  {
  }

  /** The scan restarts at whitespace: cutting the input next to a
      whitespace character cuts the list of URLs at the same place. */
  lemma {:induction false} ExtractUrlsConcat(x: string, y: string)
    requires x == [] || y == [] || IsSpace(x[|x| - 1]) || IsSpace(y[0])
    ensures ExtractUrls(x + y) == ExtractUrls(x) + ExtractUrls(y)
    decreases |x|
  {
    if x == [] {
      EmptyUnit(y);
      EmptyUnit(ExtractUrls(y));
    } else if y == [] {
      EmptyUnit(x);
      EmptyUnit(ExtractUrls(x));
    } else if UrlStart(x) {
      ExtractUrlsConcatUrl(x, y);
    } else {
      if |x| > 1 {
        assert x[1..][|x| - 2] == x[|x| - 1];
        ExtractUrlsConcat(x[1..], y);
      }
      ExtractUrlsConcatSkip(x, y);
    }
  }

  /** The step of `ExtractUrlsConcat` where no URL starts `x`. */
  lemma ExtractUrlsConcatSkip(x: string, y: string)
    requires x != [] && y != [] && !UrlStart(x)
    requires IsSpace(x[|x| - 1]) || IsSpace(y[0])
    requires |x| > 1 ==> ExtractUrls(x[1..] + y) == ExtractUrls(x[1..]) + ExtractUrls(y)
    ensures ExtractUrls(x + y) == ExtractUrls(x) + ExtractUrls(y)
  {
    UrlStartConcat(x, y);
    ConsSplit(x, y);
    if |x| == 1 {
      EmptyUnit(y);
      EmptyUnit(ExtractUrls(y));
    }
  }

  /** The step of `ExtractUrlsConcat` where a URL starts `x`. */
  lemma {:induction false} ExtractUrlsConcatUrl(x: string, y: string)
    requires x != [] && y != [] && UrlStart(x)
    requires IsSpace(x[|x| - 1]) || IsSpace(y[0])
    ensures ExtractUrls(x + y) == ExtractUrls(x) + ExtractUrls(y)
    decreases |x|, 0
  {
    UrlStartConcat(x, y);
    var u := NonSpacePrefix(x);
    var rest := x[|u|..];
    SplitAt(x, |u|);
    UrlLead(x, u, rest);
    Assoc(u, rest, y);
    Parts(u, rest + y);
    if rest == [] {
      EmptyUnit(y);
      EmptyUnit(ExtractUrls(y));
      NonSpacePrefixOf(u, y);
    } else {
      NonSpacePrefixOf(u, rest + y);
      ConsSplit(rest, y);
      assert rest[|rest| - 1] == x[|x| - 1];
      ExtractUrlsConcat(rest, y);
    }
    UrlLead(x + y, u, rest + y);
    Assoc([u], ExtractUrls(rest), ExtractUrls(y));
  }

  /** A URL at the start of `s` is the first one found, and the scan goes on
      right after it. */
  lemma UrlLead(s: string, u: string, t: string)
    requires UrlStart(s) && u == NonSpacePrefix(s) && t == s[|u|..]
    ensures ExtractUrls(s) == [u] + ExtractUrls(t)
  {
    assert !IsSpace(s[0]);
  }

  /** Where no URL starts, the character is passed over and the scan goes
      on at the next one. With `UrlLead` this settles every input. */
  lemma UrlSkip(s: string)
    requires s != [] && !UrlStart(s)
    ensures ExtractUrls(s) == ExtractUrls(s[1..])
  {
  }

  /** A URL in parentheses: the match starts after `(` and, since `)` is
      not whitespace, takes the closing parenthesis along. */
  lemma ExtractUrlsExampleParen()
    ensures ExtractUrls("(https://x)") == ["https://x)"]
  {
    ParenSkip("(https://x)", "https://x)");
    ParenUrl("https://x)");
  }

  lemma ParenSkip(s: string, u: string)
    requires s == "(https://x)" && u == "https://x)"
    ensures ExtractUrls(s) == ExtractUrls(u)
  {
    assert s[1..] == u;
    assert !UrlStart(s) by {
      assert s[..7][0] != Http[0] && s[..8][0] != Https[0];
    }
    UrlSkip(s);
  }

  lemma ParenUrl(u: string)
    requires u == "https://x)"
    ensures ExtractUrls(u) == [u]
  {
    assert IsUrl(u) by {
      assert u[..8] == Https;
    }
    SingleUrl(u);
  }

  /** Text without a colon holds no URL. */
  lemma {:induction false} NoColonNoUrls(s: string)
    requires forall i :: 0 <= i < |s| ==> s[i] != ':'
    ensures ExtractUrls(s) == []
    decreases |s|
  {
    if s != [] {
      assert |s| > 7 ==> s[..7][4] == s[4];
      assert |s| > 8 ==> s[..8][5] == s[5];
      NoColonNoUrls(s[1..]);
    }
  }

  /** A URL standing alone is found whole. */
  lemma SingleUrl(u: string)
    requires IsUrl(u)
    ensures ExtractUrls(u) == [u]
  {
    EmptyUnit(u);
    NonSpacePrefixOf(u, []);
    SplitAt(u, |u|);
  }

  /** The documentation's example
      `extractUrls('Visit https://example.com and http://test.com')`. */
  lemma ExtractUrlsExample()
    ensures ExtractUrls("Visit https://example.com and http://test.com")
         == ["https://example.com", "http://test.com"]
  {
    var a, u, b, v := "Visit ", "https://example.com", " and ", "http://test.com";
    ExamplePieces(a, u, b, v);
    TwoUrls(a, u, b, v);
  }

  /** Two URLs in text that has no colon elsewhere and whitespace around
      each URL are the two URLs found. */
  lemma TwoUrls(a: string, u: string, b: string, v: string)
    requires forall i :: 0 <= i < |a| ==> a[i] != ':'
    requires forall i :: 0 <= i < |b| ==> b[i] != ':'
    requires a != [] && b != [] && IsSpace(a[|a| - 1]) && IsSpace(b[0]) && IsSpace(b[|b| - 1])
    requires IsUrl(u) && IsUrl(v)
    ensures ExtractUrls(a + u + b + v) == [u, v]
  {
    UrlAfterText(a, u);
    TextAfter(a + u, b, [u]);
    var x := a + u + b;
    SnocSplit(a + u, b);
    SingleUrl(v);
    ExtractUrlsConcat(x, v);
  }

  /** A URL after text without a colon that ends in whitespace is the only
      URL found. */
  lemma UrlAfterText(a: string, u: string)
    requires forall i :: 0 <= i < |a| ==> a[i] != ':'
    requires a != [] && IsSpace(a[|a| - 1]) && IsUrl(u)
    ensures ExtractUrls(a + u) == [u]
  {
    NoColonNoUrls(a);
    SingleUrl(u);
    ExtractUrlsConcat(a, u);
    EmptyUnit([u]);
  }

  /** Text without a colon that starts with whitespace adds no URL. */
  lemma TextAfter(x: string, b: string, urls: seq<string>)
    requires forall i :: 0 <= i < |b| ==> b[i] != ':'
    requires b != [] && IsSpace(b[0]) && ExtractUrls(x) == urls
    ensures ExtractUrls(x + b) == urls
  {
    NoColonNoUrls(b);
    ExtractUrlsConcat(x, b);
    EmptyUnit(urls);
  }

  lemma ExamplePieces(a: string, u: string, b: string, v: string)
    requires a == "Visit " && u == "https://example.com" && b == " and " && v == "http://test.com"
    ensures forall i :: 0 <= i < |a| ==> a[i] != ':'
    ensures forall i :: 0 <= i < |b| ==> b[i] != ':'
    ensures IsSpace(a[|a| - 1]) && IsSpace(b[0]) && IsSpace(b[|b| - 1])
    ensures IsUrl(u) && IsUrl(v)
    ensures a + u + b + v == "Visit https://example.com and http://test.com"
  {
    ExampleUrls(u, v);
    ExampleGap(a);
    ExampleGap(b);
    ExampleText(a, u, b, v);
  }

  lemma ExampleText(a: string, u: string, b: string, v: string)
    requires a == "Visit " && u == "https://example.com" && b == " and " && v == "http://test.com"
    ensures a + u + b + v == "Visit https://example.com and http://test.com"
  {
    assert a + u == "Visit https://example.com";
    assert a + u + b == "Visit https://example.com and ";
  }

  lemma ExampleGap(a: string)
    requires a == "Visit " || a == " and "
    ensures forall i :: 0 <= i < |a| ==> a[i] != ':'
    ensures IsSpace(a[|a| - 1]) && (a == " and " ==> IsSpace(a[0]))
  {
  }

  lemma ExampleUrls(u: string, v: string)
    requires u == "https://example.com" && v == "http://test.com"
    ensures IsUrl(u) && IsUrl(v)
  {
    assert u[..8] == Https;
    assert v[..7] == Http;
  }

  /** The documentation's example `extractUrls('No URLs here')`. */
  lemma ExtractUrlsExampleNone()
    ensures ExtractUrls("No URLs here") == []
  {
    var s := "No URLs here";
    assert forall i :: 0 <= i < |s| ==> s[i] != ':';
    NoColonNoUrls(s);
  }
}

/** Literal search: `replaceAll`, written as `split` followed by `join`, and
    `countOccurrences` for search strings that hold no regular-expression
    operator. Both find occurrences from left to right without overlap. */
module SplitJoin {
  import Seqs

  /** `x` occurs at the start of `t`. */
  predicate IsPrefix(x: string, t: string) {
    |x| <= |t| && t[..|x|] == x
  }

  /** `x` occurs somewhere in `t`. */
  ghost predicate Contains(t: string, x: string) {
    exists i :: 0 <= i <= |t| && IsPrefix(x, t[i..])
  }

  /** `String.prototype.split` with a string separator. The empty separator
      cuts the string into single characters (and the empty string into no
      pieces at all). */
  function Split(s: string, sep: string): (pieces: seq<string>)
    ensures sep == [] ==> |pieces| == |s| && forall i :: 0 <= i < |s| ==> pieces[i] == [s[i]]
    ensures sep != [] ==> |pieces| >= 1
  {
    if sep == [] then seq(|s|, i requires 0 <= i < |s| => [s[i]])
    else SplitFrom(s, sep, [])
  }

  /** Scans `s` for `sep`; `cur` is the piece collected since the last cut. */
  function SplitFrom(s: string, sep: string, cur: string): (pieces: seq<string>)
    requires sep != []
    ensures |pieces| >= 1
    decreases |s|
  {
    if s == [] then [cur]
    else if IsPrefix(sep, s) then [cur] + SplitFrom(s[|sep|..], sep, [])
    else SplitFrom(s[1..], sep, cur + [s[0]])
  }

  /** The number of characters in all the pieces together. */
  function TotalLength(pieces: seq<string>): nat {
    if pieces == [] then 0 else |pieces[0]| + TotalLength(pieces[1..])
  }

  /** `Array.prototype.join`: the pieces with `sep` between neighbours, so
      one copy of `sep` fewer than there are pieces. */
  function Join(pieces: seq<string>, sep: string): (r: string)
    ensures |pieces| == 1 ==> r == pieces[0]
    ensures |pieces| >= 1 ==> |r| == TotalLength(pieces) + (|pieces| - 1) * |sep|
  {
    if |pieces| == 0 then []
    else if |pieces| == 1 then pieces[0]
    else
      var rest := Join(pieces[1..], sep);
      assert (|pieces| - 2) * |sep| + |sep| == (|pieces| - 1) * |sep|;
      pieces[0] + sep + rest
  }

  /** `replaceAll(data, searchValue, replaceValue)`. Replacing a string by
      itself changes nothing. */
  function ReplaceAll(s: string, search: string, replacement: string): (r: string)
    ensures search == replacement ==> r == s
  {
    if search == replacement then
      JoinSplit(s, search);
      Join(Split(s, search), replacement)
    else Join(Split(s, search), replacement)
  }

  lemma {:induction false} JoinSplitFrom(s: string, sep: string, cur: string)
    requires sep != []
    ensures Join(SplitFrom(s, sep, cur), sep) == cur + s
    decreases |s|
  {
    if s == [] {
    } else if IsPrefix(sep, s) {
      var rest := SplitFrom(s[|sep|..], sep, []);
      JoinSplitFrom(s[|sep|..], sep, []);
      assert ([cur] + rest)[1..] == rest;
      assert s == sep + s[|sep|..];
    } else {
      JoinSplitFrom(s[1..], sep, cur + [s[0]]);
      assert (cur + [s[0]]) + s[1..] == cur + s;
    }
  }

  lemma {:induction false} JoinSingletons(s: string)
    ensures Join(Split(s, []), []) == s
    decreases |s|
  {
    if |s| > 1 {
      JoinSingletons(s[1..]);
      var p := Split(s, []);
      SingletonsTail(s);
      assert Join(p, []) == [s[0]] + [] + Join(p[1..], []);
      Seqs.EmptyUnit([s[0]]);
      Seqs.SplitAt(s, 1);
    }
  }

  lemma SingletonsTail(s: string)
    requires s != []
    ensures Split(s, [])[1..] == Split(s[1..], [])
  {
  }

  /** Joining the pieces with the separator they were cut at gives back the
      string. */
  lemma JoinSplit(s: string, sep: string)
    ensures Join(Split(s, sep), sep) == s
  {
    if sep == [] {
      JoinSingletons(s);
    } else {
      JoinSplitFrom(s, sep, []);
    }
  }

  lemma PrefixExtend(x: string, t: string, u: string)
    ensures IsPrefix(x, t) ==> IsPrefix(x, t + u)
  {
    if |x| <= |t| {
      assert (t + u)[..|x|] == t[..|x|];
    }
  }

  /** The scan has looked at every start position inside `cur` and found no
      occurrence there. */
  ghost predicate ScannedFree(s: string, sep: string, cur: string) {
    forall i :: 0 <= i < |cur| ==> !IsPrefix(sep, (cur + s)[i..])
  }

  lemma {:induction false} SplitFromPiecesFree(s: string, sep: string, cur: string)
    requires sep != []
    requires ScannedFree(s, sep, cur)
    ensures forall k :: 0 <= k < |SplitFrom(s, sep, cur)| ==> !Contains(SplitFrom(s, sep, cur)[k], sep)
    decreases |s|
  {
    var pieces := SplitFrom(s, sep, cur);
    if s == [] {
      assert cur + s == cur;
    } else if IsPrefix(sep, s) {
      var rest := SplitFrom(s[|sep|..], sep, []);
      SplitFromPiecesFree(s[|sep|..], sep, []);
      forall i | 0 <= i <= |cur| ensures !IsPrefix(sep, cur[i..]) {
        if i < |cur| {
          PrefixExtend(sep, cur[i..], s);
          assert cur[i..] + s == (cur + s)[i..];
        }
      }
      assert pieces == [cur] + rest;
    } else {
      var cur' := cur + [s[0]];
      forall i | 0 <= i < |cur'| ensures !IsPrefix(sep, (cur' + s[1..])[i..]) {
        assert cur' + s[1..] == cur + s;
        if i == |cur| {
          assert (cur + s)[i..] == s;
        }
      }
      SplitFromPiecesFree(s[1..], sep, cur');
    }
  }

  /** No piece that `split` returns contains the separator: every occurrence
      was cut at, reading from the left. */
  lemma SplitPiecesFree(s: string, sep: string)
    requires sep != []
    ensures forall k :: 0 <= k < |Split(s, sep)| ==> !Contains(Split(s, sep)[k], sep)
  {
    SplitFromPiecesFree(s, sep, []);
  }

  /** A non-empty search string that does not occur leaves the string as it
      is, whatever the replacement. */
  lemma ReplaceAbsent(s: string, search: string, replacement: string)
    requires search != [] && !Contains(s, search)
    ensures Split(s, search) == [s]
    ensures ReplaceAll(s, search, replacement) == s
  {
    SplitFromAbsent(s, search, []);
    assert [] + s == s;
  }

  lemma {:induction false} SplitFromAbsent(s: string, sep: string, cur: string)
    requires sep != [] && !Contains(s, sep)
    ensures SplitFrom(s, sep, cur) == [cur + s]
    decreases |s|
  {
    if s == [] {
      assert cur + s == cur;
    } else {
      assert !IsPrefix(sep, s[0..]);
      assert s[0..] == s;
      forall i | 0 <= i <= |s[1..]| ensures !IsPrefix(sep, s[1..][i..]) {
        assert s[1..][i..] == s[i + 1..];
      }
      SplitFromAbsent(s[1..], sep, cur + [s[0]]);
      assert (cur + [s[0]]) + s[1..] == cur + s;
    }
  }

  /** `split` cuts at the leftmost occurrence of the separator: with `i` the
      first position where it occurs, the first piece is everything before
      `i` and the scan starts again right after that occurrence. (With no
      occurrence at all, `ReplaceAbsent` gives the single piece `s`.) */
  lemma SplitFirstCut(s: string, sep: string, i: nat)
    requires sep != [] && i + |sep| <= |s| && IsPrefix(sep, s[i..])
    requires forall j :: 0 <= j < i ==> !IsPrefix(sep, s[j..])
    ensures Split(s, sep) == [s[..i]] + Split(s[i + |sep|..], sep)
  {
    SplitFromFirstCut(s, sep, [], i);
    Seqs.EmptyUnit(s[..i]);
  }

  lemma {:induction false} SplitFromFirstCut(s: string, sep: string, cur: string, i: nat)
    requires sep != [] && i + |sep| <= |s| && IsPrefix(sep, s[i..])
    requires forall j :: 0 <= j < i ==> !IsPrefix(sep, s[j..])
    ensures SplitFrom(s, sep, cur) == [cur + s[..i]] + SplitFrom(s[i + |sep|..], sep, [])
    decreases i
  {
    if i == 0 {
      assert s[0..] == s && s[..0] == [];
      Seqs.EmptyUnit(cur);
    } else {
      assert !IsPrefix(sep, s[0..]);
      assert s[0..] == s;
      var t := s[1..];
      forall j | 0 <= j < i - 1 ensures !IsPrefix(sep, t[j..]) {
        assert t[j..] == s[j + 1..];
      }
      assert t[i - 1..] == s[i..];
      SplitFromFirstCut(t, sep, cur + [s[0]], i - 1);
      FirstCutStep(s, sep, cur, i);
    }
  }

  /** The slices that one skipped character shifts. */
  lemma FirstCutStep(s: string, sep: string, cur: string, i: nat)
    requires 0 < i && i + |sep| <= |s|
    ensures (cur + [s[0]]) + s[1..][..i - 1] == cur + s[..i]
    ensures s[1..][i - 1 + |sep|..] == s[i + |sep|..]
  {
    assert [s[0]] + s[1..][..i - 1] == s[..i];
  }

  /** A separator that overlaps itself is cut at its leftmost occurrence:
      `'aaa'.split('aa')` is `['', 'a']`, so
      `replaceAll('aaa', 'aa', 'b') == 'ba'`. */
  lemma ReplaceAllExampleOverlap()
    ensures Split("aaa", "aa") == ["", "a"]
    ensures ReplaceAll("aaa", "aa", "b") == "ba"
  {
    var s, sep := "aaa", "aa";
    assert IsPrefix(sep, s[0..]);
    SplitFirstCut(s, sep, 0);
    assert s[..0] == "" && s[2..] == "a";
    ReplaceAbsent("a", sep, "b");
  }

  /** A string whose first character differs from the separator's is not cut there. */
  lemma SplitFromSkip(s: string, sep: string, cur: string)
    requires sep != [] && s != [] && s[0] != sep[0]
    ensures SplitFrom(s, sep, cur) == SplitFrom(s[1..], sep, cur + [s[0]])
    ensures Count(s, sep) == Count(s[1..], sep)
  {
    assert !IsPrefix(sep, s) by {
      if |sep| <= |s| {
        assert s[..|sep|][0] != sep[0];
      }
    }
  }

  /** The example in the documentation of `replaceAll` that replaces a
      one-character separator. */
  lemma ReplaceAllExampleDots()
    ensures ReplaceAll("a.b.c", ".", "-") == "a-b-c"
  {
    assert "a.b.c"[1..] == ".b.c" && ".b.c"[1..] == "b.c" && "b.c"[1..] == ".c" && ".c"[1..] == "c" && "c"[1..] == "";
    SplitFromSkip("a.b.c", ".", "");
    SplitFromSkip("b.c", ".", "");
    SplitFromSkip("c", ".", "");
    assert "" + ['a'] == "a" && "" + ['b'] == "b" && "" + ['c'] == "c";
    assert Split("a.b.c", ".") == ["a", "b", "c"];
  }

  /** The example in the documentation of `replaceAll` that replaces whole words. */
  lemma ReplaceAllExampleWords()
    ensures ReplaceAll("hello hello", "hello", "hi") == "hi hi"
  {
    assert "hello hello"[5..] == " hello" && " hello"[1..] == "hello" && "hello"[5..] == "";
    SplitFromSkip(" hello", "hello", "");
    assert "" + [' '] == " ";
    assert Split("hello hello", "hello") == ["", " ", ""];
  }

  /** The example in the documentation of `replaceAll` with matches at both ends. */
  lemma ReplaceAllExampleEnds()
    ensures ReplaceAll("abc123abc", "abc", "xyz") == "xyz123xyz"
  {
    assert "abc123abc"[3..] == "123abc";
    SplitExampleMiddle();
    assert Split("abc123abc", "abc") == ["", "123", ""];
  }

  /** The part of `ReplaceAllExampleEnds` after the first match. */
  lemma SplitExampleMiddle()
    ensures SplitFrom("123abc", "abc", "") == ["123", ""]
  {
    assert "123abc"[1..] == "23abc" && "23abc"[1..] == "3abc" && "3abc"[1..] == "abc";
    SplitFromSkip("123abc", "abc", "");
    SplitFromSkip("23abc", "abc", "1");
    SplitFromSkip("3abc", "abc", "12");
    assert "" + ['1'] == "1" && "1" + ['2'] == "12" && "12" + ['3'] == "123";
    assert "abc"[3..] == "";
  }

  /** Characters that `new RegExp` gives a meaning of their own. */
  predicate IsRegExpOperator(c: char) {
    c in "\\^$.*+?()[]{}|"
  }

  /** A search string that a regular expression matches literally. */
  predicate IsLiteralPattern(x: string) {
    forall i :: 0 <= i < |x| ==> !IsRegExpOperator(x[i])
  }

  /** Leftmost, non-overlapping occurrences of a non-empty `x` in `s`; as
      they do not overlap, together they are no longer than `s`. */
  function Count(s: string, x: string): (n: nat)
    requires x != []
    ensures n * |x| <= |s|
    decreases |s|
  {
    if s == [] then 0
    else if IsPrefix(x, s) then
      var m := Count(s[|x|..], x);
      assert (1 + m) * |x| == |x| + m * |x|;
      1 + m
    else Count(s[1..], x)
  }

  /** Each replaced occurrence changes the length by the difference between
      the replacement and the search string. */
  lemma ReplaceAllLength(s: string, search: string, replacement: string)
    requires search != []
    ensures |ReplaceAll(s, search, replacement)| == |s| + Count(s, search) * (|replacement| - |search|)
  {
    var pieces := Split(s, search);
    var n := Count(s, search);
    SplitFromCount(s, search, []);
    JoinSplit(s, search);
    assert |s| == TotalLength(pieces) + n * |search|;
    assert n * (|replacement| - |search|) == n * |replacement| - n * |search|;
  }

  lemma {:induction false} SplitFromCount(s: string, x: string, cur: string)
    requires x != []
    ensures |SplitFrom(s, x, cur)| == Count(s, x) + 1
    decreases |s|
  {
    if s == [] {
    } else if IsPrefix(x, s) {
      SplitFromCount(s[|x|..], x, []);
    } else {
      SplitFromCount(s[1..], x, cur + [s[0]]);
    }
  }

  lemma {:induction false} CountZero(s: string, x: string)
    requires x != []
    ensures Count(s, x) == 0 <==> !Contains(s, x)
    decreases |s|
  {
    if s == [] {
    } else if IsPrefix(x, s) {
      assert s[0..] == s;
    } else {
      CountZero(s[1..], x);
      if Contains(s, x) {
        var i :| 0 <= i <= |s| && IsPrefix(x, s[i..]);
        assert i != 0;
        assert s[1..][i - 1..] == s[i..];
      }
      if Contains(s[1..], x) {
        var i :| 0 <= i <= |s[1..]| && IsPrefix(x, s[1..][i..]);
        assert s[1..][i..] == s[i + 1..];
      }
    }
  }

  /** `countOccurrences(data, searchStr)` for a search string without
      regular-expression operators. The empty pattern matches at every
      position, the end included. A non-empty one is counted as `split` cuts:
      one occurrence fewer than there are pieces. */
  function CountOccurrences(s: string, search: string): (n: nat)
    requires IsLiteralPattern(search)
    ensures search == [] ==> n == |s| + 1
    ensures search != [] ==> n + 1 == |Split(s, search)|
  {
    if search == [] then |s| + 1
    else
      SplitFromCount(s, search, []);
      Count(s, search)
  }

  /** The count is zero exactly when the search string does not occur. */
  lemma CountOccurrencesZero(s: string, search: string)
    requires IsLiteralPattern(search)
    ensures CountOccurrences(s, search) == 0 <==> !Contains(s, search)
  {
    if search == [] {
      assert IsPrefix(search, s[0..]);
    } else {
      CountZero(s, search);
    }
  }

  /** The documentation's example of `countOccurrences` with a word. */
  lemma CountOccurrencesExampleWords()
    ensures CountOccurrences("hello hello", "hello") == 2
  {
    assert "hello hello"[5..] == " hello" && " hello"[1..] == "hello" && "hello"[5..] == "";
    SplitFromSkip(" hello", "hello", "");
  }

  /** The documentation's example of `countOccurrences` with two
      non-overlapping matches. */
  lemma CountOccurrencesExampleBanana()
    ensures CountOccurrences("banana", "na") == 2
  {
    assert "banana"[1..] == "anana" && "anana"[1..] == "nana" && "nana"[2..] == "na" && "na"[2..] == "";
    SplitFromSkip("banana", "na", "");
    SplitFromSkip("anana", "na", "");
  }

  /** The documentation's example of `countOccurrences` with no match. */
  lemma CountOccurrencesExampleAbsent()
    ensures CountOccurrences("abc", "xyz") == 0
  {
    assert "abc"[1..] == "bc" && "bc"[1..] == "c" && "c"[1..] == "";
    SplitFromSkip("abc", "xyz", "");
    SplitFromSkip("bc", "xyz", "");
    SplitFromSkip("c", "xyz", "");
  }

  /** Adjacent matches of a one-character pattern are all counted. */
  lemma CountOccurrencesExampleAdjacent()
    ensures CountOccurrences("aaa", "a") == 3
  {
    assert "aaa"[1..] == "aa" && "aa"[1..] == "a" && "a"[1..] == "";
    assert IsPrefix("a", "aaa") && IsPrefix("a", "aa") && IsPrefix("a", "a");
  }
}

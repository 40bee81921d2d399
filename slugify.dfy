/** `slugify`: lower-case, trim, drop everything but word characters,
    whitespace and hyphens (`/[^\w\s-]/g`), turn each run of whitespace,
    underscores and hyphens into one hyphen (`/[\s_-]+/g`), and strip the
    hyphens at both ends (`/^-+|-+$/g`). */
module Slugs {
  import opened Chars
  import opened Trimming
  import opened Seqs
  import SplitJoin

  /** Characters that survive `/[^\w\s-]/g`. */
  predicate IsSlugInput(c: char) { IsWordChar(c) || IsSpace(c) || c == '-' }

  /** Characters of the class `[\s_-]`. */
  predicate IsSeparator(c: char) { IsSpace(c) || c == '_' || c == '-' }

  /** Characters a slug is made of: `[a-z0-9-]`. */
  predicate IsSlugChar(c: char) { IsAsciiLower(c) || IsDigit(c) || c == '-' }

  predicate AllSlugInput(t: string) { forall i :: 0 <= i < |t| ==> IsSlugInput(t[i]) }

  predicate AllSlugChars(t: string) { forall i :: 0 <= i < |t| ==> IsSlugChar(t[i]) }

  predicate NoUpper(t: string) { forall i :: 0 <= i < |t| ==> !IsAsciiUpper(t[i]) }

  predicate NoDoubleHyphen(t: string) {
    forall i :: 0 <= i < |t| - 1 ==> !(t[i] == '-' && t[i + 1] == '-')
  }

  /** A well-formed slug: only `[a-z0-9-]`, no hyphen at either end and no
      two hyphens in a row. */
  predicate IsSlug(t: string) {
    && AllSlugChars(t)
    && (t == [] || (t[0] != '-' && t[|t| - 1] != '-'))
    && NoDoubleHyphen(t)
  }

  /** `.replace(/[^\w\s-]/g, '')`: keeps word characters, whitespace and
      hyphens, and adds no upper-case letter. */
  function KeepSlugInput(s: string): (r: string)
    ensures AllSlugInput(r)
    ensures NoUpper(s) ==> NoUpper(r)
  {
    if s == [] then []
    else (if IsSlugInput(s[0]) then [s[0]] else []) + KeepSlugInput(s[1..])
  }

  /** Input made only of kept characters passes unchanged. */
  lemma {:induction false} KeepSlugInputAll(s: string)
    requires AllSlugInput(s)
    ensures KeepSlugInput(s) == s
    decreases |s|
  {
    if s != [] {
      KeepSlugInputAll(s[1..]);
      assert s == [s[0]] + s[1..];
    }
  }

  /** The filter works character by character: filtering a concatenation
      filters each part, so what is kept stays in order. */
  lemma {:induction false} KeepSlugInputConcat(x: string, y: string)
    ensures KeepSlugInput(x + y) == KeepSlugInput(x) + KeepSlugInput(y)
    decreases |x|
  {
    if x == [] {
      assert x + y == y;
    } else {
      ConsSplit(x, y);
      KeepSlugInputConcat(x[1..], y);
      var h := if IsSlugInput(x[0]) then [x[0]] else [];
      Assoc(h, KeepSlugInput(x[1..]), KeepSlugInput(y));
    }
  }

  /** One character is kept exactly when it is a word character, whitespace
      or a hyphen, and dropped otherwise. */
  lemma KeepSlugInputChar(c: char)
    ensures KeepSlugInput([c]) == if IsSlugInput(c) then [c] else []
  {
    assert [c][1..] == [];
  }

  /** Text made only of dropped characters disappears. */
  lemma {:induction false} KeepSlugInputNone(s: string)
    requires forall i :: 0 <= i < |s| ==> !IsSlugInput(s[i])
    ensures KeepSlugInput(s) == []
    decreases |s|
  {
    if s != [] {
      assert forall i :: 0 <= i < |s[1..]| ==> s[1..][i] == s[i + 1];
      KeepSlugInputNone(s[1..]);
    }
  }

  /** `.replace(/[\s_-]+/g, '-')`: every maximal run of separators becomes
      one hyphen; the other characters are kept. A separator followed by
      another one is dropped, and the last of a run is written as `-`. */
  function CollapseSeparators(s: string): (r: string)
    ensures s == [] <==> r == []
    ensures |r| <= |s|
    decreases |s|
  {
    if s == [] then []
    else if !IsSeparator(s[0]) then [s[0]] + CollapseSeparators(s[1..])
    else if |s| > 1 && IsSeparator(s[1]) then CollapseSeparators(s[1..])
    else "-" + CollapseSeparators(s[1..])
  }

  /** A hyphen starts (ends) the collapsed string exactly when a separator
      starts (ends) the input. */
  lemma {:induction false} CollapseEnds(s: string)
    requires s != []
    ensures CollapseSeparators(s)[0] == '-' <==> IsSeparator(s[0])
    ensures CollapseSeparators(s)[|CollapseSeparators(s)| - 1] == '-' <==> IsSeparator(s[|s| - 1])
    decreases |s|
  {
    if |s| > 1 {
      CollapseEnds(s[1..]);
    }
  }

  /** Collapsing lower-case slug input leaves only `[a-z0-9-]`, with no two
      hyphens in a row. */
  lemma {:induction false} CollapseShape(s: string)
    requires AllSlugInput(s) && NoUpper(s)
    ensures AllSlugChars(CollapseSeparators(s)) && NoDoubleHyphen(CollapseSeparators(s))
    decreases |s|
  {
    if s != [] {
      var rest := s[1..];
      assert AllSlugInput(rest) && NoUpper(rest) by {
        assert forall i :: 0 <= i < |rest| ==> rest[i] == s[i + 1];
      }
      CollapseShape(rest);
      var c := CollapseSeparators(rest);
      if !IsSeparator(s[0]) {
        assert CollapseSeparators(s) == [s[0]] + c;
      } else if |s| > 1 && IsSeparator(s[1]) {
      } else {
        if rest != [] {
          CollapseEnds(rest);
        }
        assert CollapseSeparators(s) == "-" + c;
      }
    }
  }

  /** The string without its leading hyphens. */
  function DropLeadingHyphens(s: string): (r: string)
    ensures |r| <= |s| && r == s[|s| - |r|..]
    ensures r == [] || r[0] != '-'
  {
    if s != [] && s[0] == '-' then DropLeadingHyphens(s[1..]) else s
  }

  /** The string without its trailing hyphens. */
  function DropTrailingHyphens(s: string): (r: string)
    ensures |r| <= |s| && r == s[..|r|]
    ensures r == [] || r[|r| - 1] != '-'
    ensures r != [] && s[0] != '-' ==> r[0] != '-'
  {
    if s != [] && s[|s| - 1] == '-' then DropTrailingHyphens(s[..|s| - 1]) else s
  }

  /** `.replace(/^-+|-+$/g, '')`: the hyphens at both ends are removed. */
  function StripHyphens(s: string): (r: string)
    ensures r == [] || (r[0] != '-' && r[|r| - 1] != '-')
    ensures exists k :: OccursAt(r, s, k)
  {
    var t := DropLeadingHyphens(s);
    var r := DropTrailingHyphens(t);
    assert OccursAt(r, s, |s| - |t|);
    r
  }

  /** `slugify(data)`. Whatever the input, the result is a well-formed slug:
      only `[a-z0-9-]`, no hyphen at either end, no two hyphens in a row. */
  function Slugify(s: string): (r: string)
    ensures IsSlug(r)
  {
    var kept := KeepSlugInput(Trim(ToLower(s)));
    SlugInputLowered(s);
    CollapseShape(kept);
    StrippedIsSlug(CollapseSeparators(kept));
    StripHyphens(CollapseSeparators(kept))
  }

  /** What reaches the collapsing step holds no upper-case letter. */
  lemma SlugInputLowered(s: string)
    ensures NoUpper(KeepSlugInput(Trim(ToLower(s))))
  {
    var lower := ToLower(s);
    LowerNoUpper(s);
    TrimNoUpper(lower);
    var trimmed := Trim(lower);
    assert NoUpper(trimmed);
  }

  lemma TrimNoUpper(s: string)
    requires NoUpper(s)
    ensures NoUpper(Trim(s))
  {
    TrimSlice(s);
    NoUpperSlice(Trim(s), s, |s| - |TrimStart(s)|);
  }

  lemma LowerNoUpper(s: string)
    ensures NoUpper(ToLower(s))
  {
  }

  lemma NoUpperSlice(r: string, s: string, k: int)
    requires OccursAt(r, s, k) && NoUpper(s)
    ensures NoUpper(r)
  {
    forall i | 0 <= i < |r| ensures !IsAsciiUpper(r[i]) {
      assert r[i] == s[k + i];
    }
  }

  /** Stripping the end hyphens of a string of slug characters without
      double hyphens gives a well-formed slug. */
  lemma StrippedIsSlug(c: string)
    requires AllSlugChars(c) && NoDoubleHyphen(c)
    ensures IsSlug(StripHyphens(c))
  {
    var r := StripHyphens(c);
    var k :| OccursAt(r, c, k);
    SlugCharsSlice(r, c, k);
  }

  lemma SlugCharsSlice(r: string, c: string, k: int)
    requires OccursAt(r, c, k) && AllSlugChars(c) && NoDoubleHyphen(c)
    ensures AllSlugChars(r) && NoDoubleHyphen(r)
  {
    forall i | 0 <= i < |r| ensures IsSlugChar(r[i]) {
      assert r[i] == c[k + i];
    }
    forall i | 0 <= i < |r| - 1 ensures !(r[i] == '-' && r[i + 1] == '-') {
      assert r[i] == c[k + i] && r[i + 1] == c[k + i + 1];
    }
  }

  /** Collapsing leaves a string of slug characters without double hyphens
      as it is. */
  lemma {:induction false} CollapseSlug(t: string)
    requires AllSlugChars(t) && NoDoubleHyphen(t)
    ensures CollapseSeparators(t) == t
    decreases |t|
  {
    if t != [] {
      var rest := t[1..];
      assert AllSlugChars(rest) && NoDoubleHyphen(rest) by {
        assert forall i :: 0 <= i < |rest| ==> rest[i] == t[i + 1];
      }
      CollapseSlug(rest);
      SlugCharSeparator(t[0]);
      if |t| > 1 {
        SlugCharSeparator(t[1]);
      }
      assert t == [t[0]] + rest;
    }
  }

  /** Among the slug characters, only the hyphen is a separator. */
  lemma SlugCharSeparator(c: char)
    requires IsSlugChar(c)
    ensures IsSeparator(c) <==> c == '-'
  {
  }

  /** A well-formed slug is its own slug; so `slugify` is idempotent. */
  lemma SlugifyIdempotent(s: string)
    ensures IsSlug(s) ==> Slugify(s) == s
    ensures Slugify(Slugify(s)) == Slugify(s)
  {
    if IsSlug(s) {
      SlugFixed(s);
    }
    SlugFixed(Slugify(s));
  }

  lemma SlugFixed(t: string)
    requires IsSlug(t)
    ensures Slugify(t) == t
  {
    SlugKept(t);
    CollapseSlug(t);
    StripNone(t);
  }

  /** Lower-casing, trimming and filtering leave a slug as it is. */
  lemma SlugKept(t: string)
    requires IsSlug(t)
    ensures KeepSlugInput(Trim(ToLower(t))) == t
  {
    SlugLower(t);
    SlugTrimmed(t);
    SlugAllInput(t);
  }

  lemma SlugLower(t: string)
    requires IsSlug(t)
    ensures ToLower(t) == t
  {
    assert NoUpper(t);
    ToLowerNoUpper(t);
  }

  lemma SlugTrimmed(t: string)
    requires IsSlug(t)
    ensures Trim(t) == t
  {
    if t != [] {
      SlugCharSeparator(t[0]);
      SlugCharSeparator(t[|t| - 1]);
    }
    TrimIdempotent(t);
  }

  lemma SlugAllInput(t: string)
    requires IsSlug(t)
    ensures KeepSlugInput(t) == t
  {
    assert AllSlugInput(t);
    KeepSlugInputAll(t);
  }

  /** A string with no hyphen at either end has no hyphen to strip. */
  lemma StripNone(t: string)
    requires t == [] || (t[0] != '-' && t[|t| - 1] != '-')
    ensures StripHyphens(t) == t
  {
    assert DropLeadingHyphens(t) == t;
  }

  /** Collapsing works on the two sides of a cut separately, as long as the
      cut does not fall inside a run of separators. */
  lemma {:induction false} CollapseConcat(x: string, y: string)
    requires x == [] || y == [] || !IsSeparator(x[|x| - 1]) || !IsSeparator(y[0])
    ensures CollapseSeparators(x + y) == CollapseSeparators(x) + CollapseSeparators(y)
    decreases |x|
  {
    if x == [] {
      assert x + y == y;
    } else if |x| == 1 {
      assert x[1..] + y == y;
      CollapseConcatStep(x, y);
    } else {
      CollapseConcat(x[1..], y);
      CollapseConcatStep(x, y);
    }
  }

  /** One step of `CollapseConcat`: from the cut after the first character
      of `x` to the cut after all of `x`. */
  lemma CollapseConcatStep(x: string, y: string)
    requires x != []
    requires |x| == 1 ==> y == [] || !IsSeparator(x[0]) || !IsSeparator(y[0])
    requires CollapseSeparators(x[1..] + y) == CollapseSeparators(x[1..]) + CollapseSeparators(y)
    ensures CollapseSeparators(x + y) == CollapseSeparators(x) + CollapseSeparators(y)
  {
    ConsSplit(x, y);
    var cx, cy := CollapseSeparators(x[1..]), CollapseSeparators(y);
    if !IsSeparator(x[0]) {
      Assoc([x[0]], cx, cy);
    } else if |x| > 1 && IsSeparator(x[1]) {
    } else {
      Assoc("-", cx, cy);
    }
  }

  /** A non-empty run of separators collapses to one hyphen. */
  lemma {:induction false} CollapseRun(seps: string)
    requires seps != [] && forall i :: 0 <= i < |seps| ==> IsSeparator(seps[i])
    ensures CollapseSeparators(seps) == "-"
    decreases |seps|
  {
    if |seps| > 1 {
      CollapseRun(seps[1..]);
    }
  }

  /** A string without separators is left alone. */
  lemma {:induction false} CollapseWord(w: string)
    requires NoSeparator(w)
    ensures CollapseSeparators(w) == w
    decreases |w|
  {
    if w != [] {
      CollapseWord(w[1..]);
      assert w == [w[0]] + w[1..];
    }
  }

  predicate AllHyphens(t: string) { forall i :: 0 <= i < |t| ==> t[i] == '-' }

  /** Stripping removes exactly the hyphens around a string that neither
      starts nor ends with one. */
  lemma StripHyphensOf(u: string, w: string, v: string)
    requires AllHyphens(u) && AllHyphens(v)
    requires w != [] && w[0] != '-' && w[|w| - 1] != '-'
    ensures StripHyphens(u + w + v) == w
  {
    DropLeadingOf(u, w + v);
    assert u + w + v == u + (w + v);
    DropTrailingOf(w, v);
  }

  lemma {:induction false} DropLeadingOf(u: string, t: string)
    requires AllHyphens(u)
    requires t != [] && t[0] != '-'
    ensures DropLeadingHyphens(u + t) == t
    decreases |u|
  {
    if u == [] {
      assert u + t == t;
    } else {
      assert (u + t)[1..] == u[1..] + t;
      DropLeadingOf(u[1..], t);
    }
  }

  lemma {:induction false} DropTrailingOf(t: string, v: string)
    requires AllHyphens(v)
    requires t != [] && t[|t| - 1] != '-'
    ensures DropTrailingHyphens(t + v) == t
    decreases |v|
  {
    if v == [] {
      assert t + v == t;
    } else {
      assert (t + v)[..|t + v| - 1] == t + v[..|v| - 1];
      DropTrailingOf(t, v[..|v| - 1]);
    }
  }

  /** Every character is an underscore or a hyphen. */
  predicate Hyphenish(t: string) { forall i :: 0 <= i < |t| ==> t[i] == '_' || t[i] == '-' }

  predicate AllAlnum(t: string) { forall i :: 0 <= i < |t| ==> IsAlnum(t[i]) }

  /** Two runs of letters and digits framed by underscores and hyphens come
      out lower-cased and joined by a single hyphen. The documentation's
      example `slugify('__Hello--World__') == 'hello-world'` is an instance. */
  lemma SlugifyTwoWords(p: string, a: string, m: string, b: string, q: string)
    requires Hyphenish(p) && Hyphenish(m) && Hyphenish(q) && m != []
    requires a != [] && b != [] && AllAlnum(a) && AllAlnum(b)
    ensures Slugify(p + a + m + b + q) == ToLower(a) + "-" + ToLower(b)
  {
    var la, lb := ToLower(a), ToLower(b);
    LowerAlnum(a);
    LowerAlnum(b);
    FramedKept(p, a, m, b, q);
    FramedCollapsed(p, la, m, lb, q);
  }

  /** Lower-casing, trimming and filtering leave the framed words as the
      lower-cased words in the same frame. */
  lemma FramedKept(p: string, a: string, m: string, b: string, q: string)
    requires Hyphenish(p) && Hyphenish(m) && Hyphenish(q)
    requires a != [] && b != [] && AllLowerAlnum(ToLower(a)) && AllLowerAlnum(ToLower(b))
    ensures KeepSlugInput(Trim(ToLower(p + a + m + b + q))) == p + ToLower(a) + m + ToLower(b) + q
  {
    var la, lb := ToLower(a), ToLower(b);
    var t := p + la + m + lb + q;
    LowerPieces(p, a, m, b, q);
    PiecesOuter(p, la, m, lb, q);
    TrimIdempotent(t);
    PiecesSlugInput(p, la, m, lb, q);
    KeepSlugInputAll(t);
  }

  /** Collapsing and stripping the framed lower-case words joins them with
      one hyphen and drops the frame. */
  lemma FramedCollapsed(p: string, la: string, m: string, lb: string, q: string)
    requires Hyphenish(p) && Hyphenish(m) && Hyphenish(q) && m != []
    requires la != [] && lb != [] && AllLowerAlnum(la) && AllLowerAlnum(lb)
    ensures StripHyphens(CollapseSeparators(p + la + m + lb + q)) == la + "-" + lb
  {
    CollapsePieces(p, la, m, lb, q);
    var cp, cq := CollapseSeparators(p), CollapseSeparators(q);
    HyphenRun(p);
    HyphenRun(q);
    var w := la + "-" + lb;
    JoinedEnds(la, lb);
    Assoc(cp, la + "-", lb);
    Assoc(cp, la, "-");
    StripHyphensOf(cp, w, cq);
  }

  predicate AllLowerAlnum(t: string) {
    forall i :: 0 <= i < |t| ==> IsAlnum(t[i]) && !IsAsciiUpper(t[i])
  }

  /** Lower-casing letters and digits gives lower-case letters and digits. */
  lemma LowerAlnum(a: string)
    requires AllAlnum(a)
    ensures AllLowerAlnum(ToLower(a))
  {
    var la := ToLower(a);
    forall i | 0 <= i < |a| ensures IsAlnum(la[i]) && !IsAsciiUpper(la[i]) {
      CaseMappingKeepsClasses(a[i]);
    }
  }

  lemma JoinedEnds(la: string, lb: string)
    requires la != [] && lb != [] && AllLowerAlnum(la) && AllLowerAlnum(lb)
    ensures (la + "-" + lb)[0] != '-' && (la + "-" + lb)[|la + "-" + lb| - 1] != '-'
  {
    assert !IsAlnum('-');
  }

  /** Lower-casing the framed words touches only the words. */
  lemma LowerPieces(p: string, a: string, m: string, b: string, q: string)
    requires Hyphenish(p) && Hyphenish(m) && Hyphenish(q)
    ensures ToLower(p + a + m + b + q) == p + ToLower(a) + m + ToLower(b) + q
  {
    CaseMappingConcat(p + a + m + b, q);
    CaseMappingConcat(p + a + m, b);
    CaseMappingConcat(p + a, m);
    CaseMappingConcat(p, a);
    ToLowerNoUpper(p);
    ToLowerNoUpper(m);
    ToLowerNoUpper(q);
  }

  /** The framed words neither start nor end with whitespace. */
  lemma PiecesOuter(p: string, la: string, m: string, lb: string, q: string)
    requires Hyphenish(p) && Hyphenish(q)
    requires la != [] && lb != [] && AllLowerAlnum(la) && AllLowerAlnum(lb)
    ensures NoOuterSpace(p + la + m + lb + q)
  {
    var u := p + la;
    if p == [] {
      EmptyUnit(la);
    } else {
      ConsSplit(p, la);
    }
    ConsSplit(u, m);
    ConsSplit(u + m, lb);
    ConsSplit(u + m + lb, q);
    var v := u + m + lb;
    SnocSplit(u + m, lb);
    if q == [] {
      EmptyUnit(v);
    } else {
      SnocSplit(v, q);
    }
  }

  /** The framed words consist of slug input only. */
  lemma PiecesSlugInput(p: string, la: string, m: string, lb: string, q: string)
    requires Hyphenish(p) && Hyphenish(m) && Hyphenish(q)
    requires AllLowerAlnum(la) && AllLowerAlnum(lb)
    ensures AllSlugInput(p + la + m + lb + q)
  {
    AllSlugInputConcat(p, la);
    AllSlugInputConcat(p + la, m);
    AllSlugInputConcat(p + la + m, lb);
    AllSlugInputConcat(p + la + m + lb, q);
  }

  /** Slug input followed by slug input is slug input. */
  lemma AllSlugInputConcat(x: string, y: string)
    requires AllSlugInput(x) && AllSlugInput(y)
    ensures AllSlugInput(x + y)
  {
  }

  /** Collapsing the framed words turns the middle run into one hyphen. */
  lemma CollapsePieces(p: string, la: string, m: string, lb: string, q: string)
    requires Hyphenish(p) && Hyphenish(m) && Hyphenish(q) && m != []
    requires la != [] && lb != [] && AllLowerAlnum(la) && AllLowerAlnum(lb)
    ensures CollapseSeparators(p + la + m + lb + q)
         == CollapseSeparators(p) + la + "-" + lb + CollapseSeparators(q)
  {
    NoSeparatorIn(la);
    NoSeparatorIn(lb);
    CollapseMiddle(p, la, m, lb);
    SnocSplit(p + la + m, lb);
    CollapseConcat(p + la + m + lb, q);
  }

  predicate NoSeparator(t: string) { forall i :: 0 <= i < |t| ==> !IsSeparator(t[i]) }

  lemma NoSeparatorIn(t: string)
    requires AllLowerAlnum(t)
    ensures NoSeparator(t)
  {
  }

  lemma CollapseMiddle(p: string, la: string, m: string, lb: string)
    requires Hyphenish(m) && m != []
    requires la != [] && lb != [] && NoSeparator(la) && NoSeparator(lb)
    ensures CollapseSeparators(p + la + m + lb) == CollapseSeparators(p) + la + "-" + lb
  {
    if p == [] {
      EmptyUnit(la);
    } else {
      SnocSplit(p, la);
    }
    CollapseConcat(p, la);
    ConsSplit(m, lb);
    CollapseConcat(p + la, m);
    CollapseConcat(p + la + m, lb);
    CollapseWord(la);
    CollapseWord(lb);
    CollapseRun(m);
  }

  /** A collapsed run of underscores and hyphens is empty or one hyphen. */
  lemma HyphenRun(p: string)
    requires Hyphenish(p)
    ensures AllHyphens(CollapseSeparators(p))
  {
    if p != [] {
      CollapseRun(p);
    }
  }

  /** The documentation's example `slugify('__Hello--World__')`. */
  lemma SlugifyExample()
    ensures Slugify("__Hello--World__") == "hello-world"
  {
    var p, a, m, b := "__", "Hello", "--", "World";
    ExamplePieces(p, a, m, b);
    SlugifyTwoWords(p, a, m, b, p);
  }

  lemma ExamplePieces(p: string, a: string, m: string, b: string)
    requires p == "__" && a == "Hello" && m == "--" && b == "World"
    ensures Hyphenish(p) && Hyphenish(m) && AllAlnum(a) && AllAlnum(b)
    ensures p + a + m + b + p == "__Hello--World__"
    ensures ToLower(a) + "-" + ToLower(b) == "hello-world"
  {
  }
  /** Words to be joined: each a non-empty run of ASCII letters and digits. */
  predicate AlnumWords(ws: seq<string>) {
    forall k :: 0 <= k < |ws| ==> ws[k] != [] && AllAlnum(ws[k])
  }

  predicate LowerAlnumWords(ls: seq<string>) {
    forall k :: 0 <= k < |ls| ==> ls[k] != [] && AllLowerAlnum(ls[k])
  }

  /** Each word lower-cased. */
  function LowerAll(ws: seq<string>): (ls: seq<string>)
    ensures |ls| == |ws|
    ensures forall k :: 0 <= k < |ws| ==> ls[k] == ToLower(ws[k])
  {
    if ws == [] then [] else [ToLower(ws[0])] + LowerAll(ws[1..])
  }

  /** Words of letters and digits separated by single spaces, possibly
      followed by characters the filter drops, become the lower-cased words
      joined by hyphens. The documentation's examples
      `slugify('Hello World!')` and `slugify('My Article Title 123')` are
      instances. */
  lemma SlugifySpaced(ws: seq<string>, junk: string)
    requires |ws| >= 1 && AlnumWords(ws)
    requires forall i :: 0 <= i < |junk| ==> !IsSlugInput(junk[i])
    ensures Slugify(SplitJoin.Join(ws, " ") + junk) == SplitJoin.Join(LowerAll(ws), "-")
  {
    var ls := LowerAll(ws);
    var x, t, c := SplitJoin.Join(ws, " ") + junk, SplitJoin.Join(ls, " "), SplitJoin.Join(ls, "-");
    SpacedStages(ws, junk, ls, x, t, c);
    SlugifyStages(x, t + junk, t, c, c);
  }

  /** What each stage of `slugify` makes of spaced words. */
  lemma SpacedStages(ws: seq<string>, junk: string, ls: seq<string>, x: string, t: string, c: string)
    requires |ws| >= 1 && AlnumWords(ws)
    requires forall i :: 0 <= i < |junk| ==> !IsSlugInput(junk[i])
    requires ls == LowerAll(ws) && x == SplitJoin.Join(ws, " ") + junk
    requires t == SplitJoin.Join(ls, " ") && c == SplitJoin.Join(ls, "-")
    ensures ToLower(x) == t + junk && KeepSlugInput(Trim(t + junk)) == t
    ensures CollapseSeparators(t) == c && StripHyphens(c) == c
  {
    SpacedLowered(ws, junk);
    LoweredWords(ws);
    SpacedKept(ls, junk);
    HyphenStages(ls, t, c);
  }

  lemma HyphenStages(ls: seq<string>, t: string, c: string)
    requires |ls| >= 1 && LowerAlnumWords(ls)
    requires t == SplitJoin.Join(ls, " ") && c == SplitJoin.Join(ls, "-")
    ensures CollapseSeparators(t) == c && StripHyphens(c) == c
  {
    JoinedCollapsed(ls);
    JoinedNoEndHyphen(ls);
    StripNone(c);
  }

  /** `slugify` as its four stages. */
  lemma SlugifyStages(x: string, lowered: string, kept: string, collapsed: string, r: string)
    requires ToLower(x) == lowered && KeepSlugInput(Trim(lowered)) == kept
    requires CollapseSeparators(kept) == collapsed && StripHyphens(collapsed) == r
    ensures Slugify(x) == r
  {
  }

  /** Hyphen-joined lower-case words neither start nor end with a hyphen. */
  lemma JoinedNoEndHyphen(ls: seq<string>)
    requires |ls| >= 1 && LowerAlnumWords(ls)
    ensures var c := SplitJoin.Join(ls, "-"); c != [] && c[0] != '-' && c[|c| - 1] != '-'
  {
    JoinEnds(ls, "-");
    var w, v := ls[0], ls[|ls| - 1];
    assert IsAlnum(w[0]) && IsAlnum(v[|v| - 1]);
  }

  /** Lower-casing touches only the words, not the spaces or the dropped
      characters. */
  lemma SpacedLowered(ws: seq<string>, junk: string)
    requires forall i :: 0 <= i < |junk| ==> !IsSlugInput(junk[i])
    ensures ToLower(SplitJoin.Join(ws, " ") + junk) == SplitJoin.Join(LowerAll(ws), " ") + junk
  {
    CaseMappingConcat(SplitJoin.Join(ws, " "), junk);
    LowerJoin(ws);
    ToLowerNoUpper(junk);
  }

  /** Lower-casing words joined by spaces lower-cases each word. */
  lemma {:induction false} LowerJoin(ws: seq<string>)
    ensures ToLower(SplitJoin.Join(ws, " ")) == SplitJoin.Join(LowerAll(ws), " ")
    decreases |ws|
  {
    if |ws| >= 2 {
      LowerJoin(ws[1..]);
      LowerJoinStep(ws);
    }
  }

  lemma LowerJoinStep(ws: seq<string>)
    requires |ws| >= 2
    requires ToLower(SplitJoin.Join(ws[1..], " ")) == SplitJoin.Join(LowerAll(ws[1..]), " ")
    ensures ToLower(SplitJoin.Join(ws, " ")) == SplitJoin.Join(LowerAll(ws), " ")
  {
    var ls := LowerAll(ws);
    JoinCons(ws, " ");
    LowerAllCons(ws);
    JoinCons(ls, " ");
    LowerSpaced(ws[0], SplitJoin.Join(ws[1..], " "));
  }

  /** A join of two or more pieces is the first piece, the separator and the
      join of the rest. */
  lemma JoinCons(ps: seq<string>, sep: string)
    requires |ps| >= 2
    ensures SplitJoin.Join(ps, sep) == ps[0] + sep + SplitJoin.Join(ps[1..], sep)
  {
  }

  lemma LowerAllCons(ws: seq<string>)
    requires ws != []
    ensures LowerAll(ws)[1..] == LowerAll(ws[1..])
  {
    ConsSplit([ToLower(ws[0])], LowerAll(ws[1..]));
  }

  lemma LowerSpaced(w: string, r: string)
    ensures ToLower(w + " " + r) == ToLower(w) + " " + ToLower(r)
  {
    CaseMappingConcat(w + " ", r);
    CaseMappingConcat(w, " ");
    ToLowerNoUpper(" ");
  }

  lemma LoweredWords(ws: seq<string>)
    requires AlnumWords(ws)
    ensures LowerAlnumWords(LowerAll(ws))
  {
    forall k | 0 <= k < |ws| ensures ToLower(ws[k]) != [] && AllLowerAlnum(ToLower(ws[k])) {
      LowerAlnum(ws[k]);
    }
  }

  /** Trimming and filtering keep the lower-case words and their spaces, and
      drop what follows. */
  lemma SpacedKept(ls: seq<string>, junk: string)
    requires |ls| >= 1 && LowerAlnumWords(ls)
    requires forall i :: 0 <= i < |junk| ==> !IsSlugInput(junk[i])
    ensures KeepSlugInput(Trim(SplitJoin.Join(ls, " ") + junk)) == SplitJoin.Join(ls, " ")
  {
    var t := SplitJoin.Join(ls, " ");
    assert Trim(t + junk) == t + junk by {
      JoinedOuter(ls, junk);
      TrimIdempotent(t + junk);
    }
    assert KeepSlugInput(t + junk) == t by {
      KeepSlugInputConcat(t, junk);
      KeepSlugInputNone(junk);
      JoinedSlugInput(ls);
      KeepSlugInputAll(t);
      EmptyUnit(t);
    }
  }

  /** Words joined by spaces, followed by dropped characters, have no
      whitespace at either end. */
  lemma JoinedOuter(ls: seq<string>, junk: string)
    requires |ls| >= 1 && LowerAlnumWords(ls)
    requires forall i :: 0 <= i < |junk| ==> !IsSlugInput(junk[i])
    ensures NoOuterSpace(SplitJoin.Join(ls, " ") + junk)
  {
    var t := SplitJoin.Join(ls, " ");
    var x := t + junk;
    JoinEnds(ls, " ");
    var w, v := ls[0], ls[|ls| - 1];
    assert !IsSpace(x[0]) by {
      ConsSplit(t, junk);
      AlnumNotSpace(w[0]);
    }
    assert !IsSpace(x[|x| - 1]) by {
      if junk != [] {
        SnocSplit(t, junk);
        assert !IsSlugInput(junk[|junk| - 1]);
      } else {
        EmptyUnit(t);
        AlnumNotSpace(v[|v| - 1]);
      }
    }
  }

  lemma AlnumNotSpace(c: char)
    requires IsAlnum(c)
    ensures !IsSpace(c)
  {
  }

  /** Lower-case words and spaces are all slug input. */
  lemma {:induction false} JoinedSlugInput(ls: seq<string>)
    requires LowerAlnumWords(ls)
    ensures AllSlugInput(SplitJoin.Join(ls, " "))
    decreases |ls|
  {
    if |ls| >= 2 {
      JoinedSlugInput(ls[1..]);
      var r := SplitJoin.Join(ls[1..], " ");
      assert SplitJoin.Join(ls, " ") == ls[0] + " " + r;
      AllSlugInputConcat(ls[0], " ");
      AllSlugInputConcat(ls[0] + " ", r);
    }
  }

  /** Each single space between words becomes one hyphen. */
  lemma {:induction false} JoinedCollapsed(ls: seq<string>)
    requires |ls| >= 1 && LowerAlnumWords(ls)
    ensures CollapseSeparators(SplitJoin.Join(ls, " ")) == SplitJoin.Join(ls, "-")
    decreases |ls|
  {
    NoSeparatorIn(ls[0]);
    if |ls| == 1 {
      CollapseWord(ls[0]);
    } else {
      JoinedCollapsed(ls[1..]);
      JoinEnds(ls[1..], " ");
      var r := SplitJoin.Join(ls[1..], " ");
      NoSeparatorIn(ls[1]);
      CollapseSpaceStep(ls[0], r, SplitJoin.Join(ls[1..], "-"));
      assert SplitJoin.Join(ls, " ") == ls[0] + " " + r;
      assert SplitJoin.Join(ls, "-") == ls[0] + "-" + SplitJoin.Join(ls[1..], "-");
    }
  }

  lemma CollapseSpaceStep(w: string, r: string, c: string)
    requires w != [] && NoSeparator(w) && r != [] && !IsSeparator(r[0])
    requires CollapseSeparators(r) == c
    ensures CollapseSeparators(w + " " + r) == w + "-" + c
  {
    Assoc(w, " ", r);
    CollapseConcat(w, " " + r);
    CollapseConcat(" ", r);
    CollapseRun(" ");
    CollapseWord(w);
    Assoc(w, "-", c);
  }

  /** A join of non-empty words starts with the first word's first character
      and ends with the last word's last character. */
  lemma {:induction false} JoinEnds(ls: seq<string>, sep: string)
    requires |ls| >= 1 && forall k :: 0 <= k < |ls| ==> ls[k] != []
    ensures var j := SplitJoin.Join(ls, sep);
      j != [] && j[0] == ls[0][0] && j[|j| - 1] == ls[|ls| - 1][|ls[|ls| - 1]| - 1]
    decreases |ls|
  {
    if |ls| >= 2 {
      JoinEnds(ls[1..], sep);
      var r := SplitJoin.Join(ls[1..], sep);
      assert SplitJoin.Join(ls, sep) == ls[0] + sep + r;
    }
  }

  /** The documentation's example `slugify('Hello World!')`. */
  lemma SlugifyExampleSpaces()
    ensures Slugify("Hello World!") == "hello-world"
  {
    var ws := ["Hello", "World"];
    SpacedExamplePieces(ws);
    SlugifySpaced(ws, "!");
  }

  lemma SpacedExamplePieces(ws: seq<string>)
    requires ws == ["Hello", "World"]
    ensures AlnumWords(ws)
    ensures SplitJoin.Join(ws, " ") + "!" == "Hello World!"
    ensures SplitJoin.Join(LowerAll(ws), "-") == "hello-world"
  {
    assert ws[1..] == ["World"];
    var ls := LowerAll(ws);
    assert ls == ["hello", "world"] by {
      assert ToLower("Hello") == "hello" && ToLower("World") == "world";
    }
    assert ls[1..] == ["world"];
  }

  /** The documentation's example `slugify('My Article Title 123')`. */
  lemma SlugifyExampleTitle()
    ensures Slugify("My Article Title 123") == "my-article-title-123"
  {
    var ws := ["My", "Article", "Title", "123"];
    TitleExamplePieces(ws);
    SlugifySpaced(ws, "");
  }

  lemma TitleExamplePieces(ws: seq<string>)
    requires ws == ["My", "Article", "Title", "123"]
    ensures AlnumWords(ws)
    ensures SplitJoin.Join(ws, " ") + "" == "My Article Title 123"
    ensures SplitJoin.Join(LowerAll(ws), "-") == "my-article-title-123"
  {
    TitleSpaced(ws);
    TitleLowered(ws, LowerAll(ws));
    TitleHyphened(LowerAll(ws));
  }

  lemma TitleSpaced(ws: seq<string>)
    requires ws == ["My", "Article", "Title", "123"]
    ensures SplitJoin.Join(ws, " ") + "" == "My Article Title 123"
  {
    JoinFour("My", "Article", "Title", "123", " ");
  }

  lemma TitleLowered(ws: seq<string>, ls: seq<string>)
    requires ws == ["My", "Article", "Title", "123"] && ls == LowerAll(ws)
    ensures ls == ["my", "article", "title", "123"]
  {
    assert ToLower("My") == "my" && ToLower("Article") == "article";
    assert ToLower("Title") == "title" && ToLower("123") == "123";
  }

  lemma TitleHyphened(ls: seq<string>)
    requires ls == ["my", "article", "title", "123"]
    ensures SplitJoin.Join(ls, "-") == "my-article-title-123"
  {
    JoinFour("my", "article", "title", "123", "-");
  }

  lemma JoinFour(a: string, b: string, c: string, d: string, sep: string)
    ensures SplitJoin.Join([a, b, c, d], sep) == a + sep + b + sep + c + sep + d
  {
    var ps := [a, b, c, d];
    assert ps[1..] == [b, c, d] && ps[1..][1..] == [c, d] && ps[1..][1..][1..] == [d];
    JoinCons(ps, sep);
    JoinCons(ps[1..], sep);
    JoinCons(ps[1..][1..], sep);
  }
}

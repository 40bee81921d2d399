/** The transforms that cut and paste by index: `truncate`, `mask`, `reverse`
    and `capitalize`. Indices count characters. */
module Slicing {
  import opened Chars
  import opened Results

  function Max(x: int, y: int): int { if x < y then y else x }

  function Min(x: int, y: int): int { if x < y then x else y }

  /** The fixed marker that `truncate` appends. */
  const Ellipsis: string := "..."

  /** `truncate(data, maxLength)`: a string longer than `maxLength` is cut to its
      first `maxLength` characters (`substring` clamps a negative length to 0)
      and the ellipsis is appended; any other string is returned as it is. */
  function Truncate(s: string, maxLength: int): (r: string)
    ensures |s| <= maxLength ==> r == s
    ensures |s| > maxLength ==>
      && |r| == Max(0, maxLength) + |Ellipsis|
      && r[..|r| - |Ellipsis|] == s[..|r| - |Ellipsis|]
      && r[|r| - |Ellipsis|..] == Ellipsis
  {
    if |s| > maxLength then s[..Max(0, maxLength)] + Ellipsis else s
  }

  /** What precedes the ellipsis never exceeds `maxLength` characters, and
      truncating a second time changes nothing. */
  lemma TruncateBound(s: string, maxLength: int)
    requires maxLength >= 0
    ensures |Truncate(s, maxLength)| <= maxLength
         || (|Truncate(s, maxLength)| == maxLength + 3 && Truncate(s, maxLength)[maxLength..] == Ellipsis)
    ensures Truncate(Truncate(s, maxLength), maxLength) == Truncate(s, maxLength)
  {
  }

  /** The examples in the documentation of `truncate`. */
  lemma TruncateExamples()
    ensures Truncate("Hello World", 5) == "Hello..."
    ensures Truncate("Hi", 5) == "Hi"
    ensures Truncate("Hello World", 0) == "..."
    ensures forall s: string :: s != [] ==> Truncate(s, 0) == "..."
    ensures Truncate("", -1) == "..."
  {
  }

  /** `String.prototype.repeat`: `count` copies of `c`, side by side. */
  function Repeat(c: string, count: nat): (r: string)
    ensures |r| == count * |c|
    ensures forall i :: 0 <= i < |r| ==> r[i] in c
    ensures |c| == 1 ==> forall i :: 0 <= i < |r| ==> r[i] == c[0]
    ensures forall i :: 0 <= i < |r| ==> r[i] == c[i % |c|]
  {
    if count == 0 then []
    else
      var rest := Repeat(c, count - 1);
      var r := c + rest;
      forall i | 0 <= i < |r| ensures r[i] == c[i % |c|] {
        if i < |c| {
          ModUnique(i, |c|, 0, i);
        } else {
          assert r[i] == rest[i - |c|];
          ModShift(i, |c|);
        }
      }
      r
  }

  /** Shifting by one period does not change the remainder. */
  lemma ModShift(i: int, n: int)
    requires 0 < n <= i
    ensures (i - n) % n == i % n
  {
    var q := i / n;
    assert i - n == (q - 1) * n + i % n;
    ModUnique(i - n, n, q - 1, i % n);
  }

  /** Division with remainder has one answer. */
  lemma ModUnique(a: int, n: int, q: int, r: int)
    requires n > 0 && 0 <= r < n && a == q * n + r
    ensures a % n == r
  {
    var q', r' := a / n, a % n;
    assert (q - q') * n == r' - r;
    if q > q' {
      assert (q - q') * n >= n by { MulAtLeast(q - q', n); }
    } else if q < q' {
      assert (q' - q) * n >= n by { MulAtLeast(q' - q, n); }
    }
  }

  lemma MulAtLeast(k: int, n: int)
    requires k >= 1 && n > 0
    ensures k * n >= n
  {
  }

  /** `mask(data, start, end, maskChar)`: `start` is raised to 0 and `end`
      lowered to the length; if that leaves `end` before `start`, `repeat`
      throws a RangeError. Otherwise the characters in `[start, end)` are
      replaced by `end - start` copies of `maskChar`. */
  function Mask(s: string, start: int, end: int, maskChar: string): (r: Result<string>)
    ensures r.Err? <==> Max(0, start) > Min(|s|, end)
    ensures r.Err? ==> r.error == RangeError
    ensures r.Ok? ==>
      var a, b := Max(0, start), Min(|s|, end);
      var m := |Repeat(maskChar, b - a)|;
      && |r.value| == a + m + (|s| - b)
      && r.value[..a] == s[..a]
      && r.value[a..a + m] == Repeat(maskChar, b - a)
      && r.value[a + m..] == s[b..]
  {
    var a, b := Max(0, start), Min(|s|, end);
    if b - a < 0 then Err(RangeError)
    else
      var filler := Repeat(maskChar, b - a);
      var r := s[..a] + filler + s[b..];
      assert r[..a] == s[..a];
      assert r[a..a + |filler|] == filler;
      assert r[a + |filler|..] == s[b..];
      Ok(r)
  }

  /** With a one-character mask the length is kept: every position in the
      clamped range holds the mask character and every other one is untouched. */
  lemma MaskPointwise(s: string, start: int, end: int, c: char)
    requires 0 <= start <= end <= |s|
    ensures Mask(s, start, end, [c]).Ok?
    ensures |Mask(s, start, end, [c]).value| == |s|
    ensures forall i :: 0 <= i < |s| ==>
      Mask(s, start, end, [c]).value[i] == if start <= i < end then c else s[i]
  {
    var r := Mask(s, start, end, [c]).value;
    forall i | 0 <= i < |s| ensures r[i] == if start <= i < end then c else s[i] {
      if i < start {
        assert r[..start][i] == s[..start][i];
      } else if i >= end {
        assert r[end..][i - end] == s[end..][i - end];
      }
    }
  }

  /** `mask(data, start, end)` without a `maskChar`, which then defaults to
      `'*'`: the length is kept and exactly the clamped window is starred. */
  function MaskDefault(s: string, start: int, end: int): (r: Result<string>)
    ensures r.Err? <==> Max(0, start) > Min(|s|, end)
    ensures r.Ok? ==> |r.value| == |s|
    ensures r.Ok? ==> forall i :: 0 <= i < |s| ==>
      r.value[i] == if Max(0, start) <= i < Min(|s|, end) then '*' else s[i]
  {
    var a, b := Max(0, start), Min(|s|, end);
    if a <= b then
      MaskPointwise(s, a, b, '*');
      assert Mask(s, a, b, "*") == Mask(s, start, end, "*");
      Mask(s, start, end, "*")
    else
      Mask(s, start, end, "*")
  }

  /** The examples in the documentation of `mask`; the third one, whose `end`
      is negative, throws instead of masking from the end. The last two leave
      out `maskChar`. */
  lemma MaskExamples()
    ensures Mask("1234567890", 4, 8, "*") == Ok("1234****90")
    ensures MaskDefault("user@email.com", 0, 4) == Ok("****@email.com")
    ensures MaskDefault("password", 1, -1) == Err(RangeError)
  {
    MaskExampleDigits();
    MaskExampleEmail();
  }

  lemma MaskExampleDigits()
    ensures Mask("1234567890", 4, 8, "*") == Ok("1234****90")
  {
    MaskPointwise("1234567890", 4, 8, '*');
    assert Mask("1234567890", 4, 8, "*").value == "1234****90";
  }

  lemma MaskExampleEmail()
    ensures Mask("user@email.com", 0, 4, "*") == Ok("****@email.com")
  {
    var s, stars := "user@email.com", Repeat("*", 4);
    assert stars == "****";
    assert s[..0] == [] && s[4..] == "@email.com";
    assert Mask(s, 0, 4, "*") == Ok([] + stars + s[4..]);
    assert [] + stars + s[4..] == "****@email.com";
  }

  /** `reverse(data)`: the characters in the opposite order. */
  function Reverse(s: string): (r: string)
    ensures |r| == |s|
    ensures forall i :: 0 <= i < |s| ==> r[i] == s[|s| - 1 - i]
  {
    if s == [] then [] else Reverse(s[1..]) + [s[0]]
  }

  /** Reversing twice gives back the string. */
  lemma ReverseInvolution(s: string)
    ensures Reverse(Reverse(s)) == s
  {
  }

  /** Reversal turns concatenation around. */
  lemma ReverseConcat(a: string, b: string)
    ensures Reverse(a + b) == Reverse(b) + Reverse(a)
  {
  }

  /** The documentation's first example of `reverse`. */
  lemma ReverseExampleHello()
    ensures Reverse("hello") == "olleh"
  {
    var r := Reverse("hello");
    assert r == [r[0], r[1], r[2], r[3], r[4]];
  }

  /** The documentation's example of `reverse` with two words. */
  lemma ReverseExampleWords()
    ensures Reverse("Hello World") == "dlroW olleH"
  {
    var a, b := "Hello", " World";
    assert a + b == "Hello World";
    ReverseConcat(a, b);
    assert Reverse(a) == "olleH" by {
      var r := Reverse(a);
      assert r == [r[0], r[1], r[2], r[3], r[4]];
    }
    assert Reverse(b) == "dlroW " by {
      var r := Reverse(b);
      assert r == [r[0], r[1], r[2], r[3], r[4], r[5]];
    }
    assert "dlroW " + "olleH" == "dlroW olleH";
  }

  /** The documentation's example of `reverse` with digits. */
  lemma ReverseExampleDigits()
    ensures Reverse("12345") == "54321"
  {
    var r := Reverse("12345");
    assert r == [r[0], r[1], r[2], r[3], r[4]];
  }

  /** `capitalize(data)`: the first character upper-cased, the rest untouched;
      the empty string stays empty. */
  function Capitalize(s: string): (r: string)
    ensures |r| == |s|
    ensures s != [] ==> r[0] == UpperChar(s[0]) && r[1..] == s[1..]
  {
    if s == [] then [] else [UpperChar(s[0])] + s[1..]
  }

  /** Capitalizing agrees with upper-casing the first character alone, and is
      idempotent. */
  lemma CapitalizeProperties(s: string)
    ensures Capitalize(s) == ToUpper(s[..if s == [] then 0 else 1]) + s[if s == [] then 0 else 1..]
    ensures Capitalize(Capitalize(s)) == Capitalize(s)
  {
    if s != [] {
      CaseMappingKeepsClasses(s[0]);
    }
  }

  /** The examples in the documentation of `capitalize`. */
  lemma CapitalizeExamples()
    ensures Capitalize("hello") == "Hello"
    ensures Capitalize("hello world") == "Hello world"
    ensures Capitalize("HELLO") == "HELLO"
    ensures Capitalize("") == ""
  {
  }
}

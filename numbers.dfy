/** `extractNumbers`: the maximal runs of decimal digits (the global pattern
    `\d+`), from left to right, each read as a number. */
module Numbers {
  import opened Chars
  import opened Seqs

  predicate AllDigits(t: string) {
    forall i :: 0 <= i < |t| ==> IsDigit(t[i])
  }

  /** The longest prefix of `s` made of digits. */
  function DigitPrefix(s: string): (d: string)
    ensures |d| <= |s| && d == s[..|d|]
    ensures AllDigits(d)
    ensures |d| == |s| || !IsDigit(s[|d|])
  {
    if s == [] || !IsDigit(s[0]) then [] else [s[0]] + DigitPrefix(s[1..])
  }

  /** Every match of the global pattern `\d+`, in order. */
  function DigitRuns(s: string): (runs: seq<string>)
    ensures forall k :: 0 <= k < |runs| ==> runs[k] != [] && AllDigits(runs[k])
    decreases |s|
  {
    if s == [] then []
    else if !IsDigit(s[0]) then DigitRuns(s[1..])
    else
      var d := DigitPrefix(s);
      [d] + DigitRuns(s[|d|..])
  }

  /** The value of a string of decimal digits, as `Number` reads it
      (leading zeros do not matter). */
  function DecimalValue(d: string): nat
    requires AllDigits(d)
  {
    if d == [] then 0 else DecimalValue(d[..|d| - 1]) * 10 + (d[|d| - 1] as int - '0' as int)
  }

  /** `extractNumbers(data)`. */
  function ExtractNumbers(s: string): (ns: seq<nat>)
    ensures |ns| == |DigitRuns(s)|
    ensures forall k :: 0 <= k < |ns| ==> ns[k] == DecimalValue(DigitRuns(s)[k])
  {
    var runs := DigitRuns(s);
    seq(|runs|, k requires 0 <= k < |runs| => DecimalValue(runs[k]))
  }

  /** The digits of `s`, in order: an independent description of what the
      runs hold together. */
  function DigitsOf(s: string): (t: string)
    ensures AllDigits(t) && |t| <= |s|
  {
    if s == [] then [] else (if IsDigit(s[0]) then [s[0]] else []) + DigitsOf(s[1..])
  }

  /** All runs one after the other. */
  function Flatten(runs: seq<string>): string {
    if runs == [] then [] else runs[0] + Flatten(runs[1..])
  }

  lemma {:induction false} DigitsOfConcat(x: string, y: string)
    ensures DigitsOf(x + y) == DigitsOf(x) + DigitsOf(y)
    decreases |x|
  {
    if x == [] {
      EmptyUnit(y);
      EmptyUnit(DigitsOf(y));
    } else {
      ConsSplit(x, y);
      DigitsOfConcat(x[1..], y);
      Assoc(if IsDigit(x[0]) then [x[0]] else [], DigitsOf(x[1..]), DigitsOf(y));
    }
  }

  lemma {:induction false} DigitsOfDigits(d: string)
    requires AllDigits(d)
    ensures DigitsOf(d) == d
    decreases |d|
  {
    if d != [] {
      DigitsOfDigits(d[1..]);
      assert d == [d[0]] + d[1..];
    }
  }

  /** The runs hold, together and in order, exactly the digits of the input:
      no digit is lost, none is invented, none is reordered. */
  lemma {:induction false} DigitRunsFlatten(s: string)
    ensures Flatten(DigitRuns(s)) == DigitsOf(s)
    decreases |s|
  {
    if s == [] {
    } else if !IsDigit(s[0]) {
      DigitRunsFlatten(s[1..]);
      EmptyUnit(DigitsOf(s[1..]));
    } else {
      var d := DigitPrefix(s);
      var rest := s[|d|..];
      var runs := DigitRuns(rest);
      DigitRunsFlatten(rest);
      ConsSplit([d], runs);
      SplitAt(s, |d|);
      DigitsOfConcat(d, rest);
      DigitsOfDigits(d);
    }
  }

  /** The input has no digit exactly when no number is extracted. */
  lemma NoDigitsNoNumbers(s: string)
    ensures ExtractNumbers(s) == [] <==> DigitsOf(s) == []
  {
    DigitRunsFlatten(s);
    var runs := DigitRuns(s);
    if runs != [] {
      assert Flatten(runs) == runs[0] + Flatten(runs[1..]);
      assert runs[0] != [];
    }
  }

  /** The scan restarts after a non-digit: cutting the input next to one
      cuts the list of runs at the same place. */
  lemma {:induction false} DigitRunsConcat(x: string, y: string)
    requires x == [] || y == [] || !IsDigit(x[|x| - 1]) || !IsDigit(y[0])
    ensures DigitRuns(x + y) == DigitRuns(x) + DigitRuns(y)
    decreases |x|
  {
    if x == [] {
      EmptyUnit(y);
      EmptyUnit(DigitRuns(y));
    } else if y == [] {
      EmptyUnit(x);
      EmptyUnit(DigitRuns(x));
    } else if !IsDigit(x[0]) {
      ConsSplit(x, y);
      DigitRunsConcat(x[1..], y);
    } else {
      DigitRunsConcatRun(x, y);
    }
  }

  /** The step of `DigitRunsConcat` where `x` starts with a run. */
  lemma {:induction false} DigitRunsConcatRun(x: string, y: string)
    requires x != [] && y != [] && IsDigit(x[0])
    requires !IsDigit(x[|x| - 1]) || !IsDigit(y[0])
    ensures DigitRuns(x + y) == DigitRuns(x) + DigitRuns(y)
    decreases |x|, 0
  {
    var d := DigitPrefix(x);
    ConsSplit(x, y);
    var rest := x[|d|..];
    SplitAt(x, |d|);
    Assoc(d, rest, y);
    Parts(d, rest + y);
    Parts(d, rest);
    if rest == [] {
      EmptyUnit(y);
      DigitPrefixOf(d, y);
    } else {
      DigitPrefixOf(d, rest + y);
      ConsSplit(rest, y);
      assert rest[|rest| - 1] == x[|x| - 1];
      DigitRunsConcat(rest, y);
    }
    Assoc([d], DigitRuns(rest), DigitRuns(y));
  }

  lemma {:induction false} DigitPrefixOf(d: string, y: string)
    requires AllDigits(d) && (y == [] || !IsDigit(y[0]))
    ensures DigitPrefix(d + y) == d
    decreases |d|
  {
    if d == [] {
      EmptyUnit(y);
    } else {
      ConsSplit(d, y);
      DigitPrefixOf(d[1..], y);
      assert d == [d[0]] + d[1..];
    }
  }

  /** A non-empty run of digits is one number. */
  lemma DigitRunsOfRun(d: string)
    requires d != [] && AllDigits(d)
    ensures DigitRuns(d) == [d]
  {
    EmptyUnit(d);
    DigitPrefixOf(d, []);
    SplitAt(d, |d|);
  }

  predicate NoDigit(t: string) {
    forall i :: 0 <= i < |t| ==> !IsDigit(t[i])
  }

  lemma {:induction false} NoDigitRuns(t: string)
    requires NoDigit(t)
    ensures DigitRuns(t) == []
    decreases |t|
  {
    if t != [] {
      NoDigitRuns(t[1..]);
    }
  }

  /** Two runs of digits separated, and possibly surrounded, by text
      without digits give exactly those two numbers. */
  lemma TwoNumbers(p: string, a: string, m: string, b: string, q: string)
    requires NoDigit(p) && NoDigit(m) && NoDigit(q) && m != []
    requires a != [] && AllDigits(a) && b != [] && AllDigits(b)
    ensures ExtractNumbers(p + a + m + b + q) == [DecimalValue(a), DecimalValue(b)]
  {
    TwoRuns(p, a, m, b, q);
  }

  lemma TwoRuns(p: string, a: string, m: string, b: string, q: string)
    requires NoDigit(p) && NoDigit(m) && NoDigit(q) && m != []
    requires a != [] && AllDigits(a) && b != [] && AllDigits(b)
    ensures DigitRuns(p + a + m + b + q) == [a, b]
  {
    OneRunFirst(p, a, m);
    ConsSplit(m, b);
    SnocSplit(p + a + m, b);
    DigitRunsConcat(p + a + m, b);
    DigitRunsOfRun(b);
    DigitRunsConcat(p + a + m + b, q);
    NoDigitRuns(q);
    EmptyUnit([a, b]);
  }

  lemma OneRunFirst(p: string, a: string, m: string)
    requires NoDigit(p) && NoDigit(m) && m != []
    requires a != [] && AllDigits(a)
    ensures DigitRuns(p + a + m) == [a]
    ensures !IsDigit((p + a + m)[|p + a + m| - 1])
  {
    NoDigitRuns(p);
    NoDigitRuns(m);
    DigitRunsOfRun(a);
    DigitRunsConcat(p, a);
    SnocSplit(p, a);
    SnocSplit(p + a, m);
    if p == [] {
      EmptyUnit(a);
    }
    EmptyUnit([a]);
    DigitRunsConcat(p + a, m);
  }

  /** The documentation's example `extractNumbers('Price: $19.99')`: the
      decimal point separates two numbers. */
  lemma ExtractNumbersExamplePrice()
    ensures ExtractNumbers("Price: $19.99") == [19, 99]
  {
    var p, a, m, b := "Price: $", "19", ".", "99";
    PricePieces(p, a, m, b);
    TwoNumbers(p, a, m, b, []);
  }

  lemma PricePieces(p: string, a: string, m: string, b: string)
    requires p == "Price: $" && a == "19" && m == "." && b == "99"
    ensures NoDigit(p) && NoDigit(m) && NoDigit([]) && AllDigits(a) && AllDigits(b)
    ensures p + a + m + b + [] == "Price: $19.99"
    ensures DecimalValue(a) == 19 && DecimalValue(b) == 99
  {
    assert a[..1] == "1" && b[..1] == "9";
    assert "1"[..0] == [] && "9"[..0] == [];
    assert DecimalValue("1") == 1 && DecimalValue("9") == 9;
  }

  /** The documentation's example `extractNumbers('abc123def456')`. */
  lemma ExtractNumbersExampleLetters()
    ensures ExtractNumbers("abc123def456") == [123, 456]
  {
    var p, a, m, b := "abc", "123", "def", "456";
    LettersPieces(p, a, m, b);
    TwoNumbers(p, a, m, b, []);
  }

  lemma LettersPieces(p: string, a: string, m: string, b: string)
    requires p == "abc" && a == "123" && m == "def" && b == "456"
    ensures NoDigit(p) && NoDigit(m) && NoDigit([]) && AllDigits(a) && AllDigits(b)
    ensures p + a + m + b + [] == "abc123def456"
    ensures DecimalValue(a) == 123 && DecimalValue(b) == 456
  {
    assert a[..2] == "12" && "12"[..1] == "1" && "1"[..0] == [];
    assert b[..2] == "45" && "45"[..1] == "4" && "4"[..0] == [];
    assert DecimalValue("1") == 1 && DecimalValue("4") == 4;
    assert DecimalValue("12") == 12 && DecimalValue("45") == 45;
  }

  /** The documentation's example `extractNumbers('no numbers')`. */
  lemma ExtractNumbersExampleNone()
    ensures ExtractNumbers("no numbers") == []
  {
    var s := "no numbers";
    assert NoDigit(s);
    NoDigitRuns(s);
  }
}

/** `toTitleCase`: every match of the global pattern `\w\S*` (a word character followed by
    the rest of its run of non-whitespace) is replaced by its first character
    upper-cased and the rest lower-cased. Characters before a run's first
    word character, and whitespace, are kept as they are. */
module TitleCase {
  import opened Chars
  import opened Seqs

  /** `toTitleCase(data)`, scanning from the left as the global replace does. */
  function ToTitleCase(s: string): (r: string)
    ensures |r| == |s|
    decreases |s|
  {
    if s == [] then []
    else if IsWordChar(s[0]) then
      var w := NonSpacePrefix(s);
      assert |w| > 0 by {
        assert !IsSpace(s[0]);
      }
      [UpperChar(w[0])] + ToLower(w[1..]) + ToTitleCase(s[|w|..])
    else
      [s[0]] + ToTitleCase(s[1..])
  }

  /** What one match becomes. */
  function TitleWord(w: string): string
    requires w != []
  {
    [UpperChar(w[0])] + ToLower(w[1..])
  }

  /** A run of non-whitespace that starts with a word character is one
      match: its first character is upper-cased, the rest lower-cased. */
  lemma TitleCaseWord(w: string)
    requires w != [] && IsWordChar(w[0]) && NoSpace(w)
    ensures ToTitleCase(w) == TitleWord(w)
  {
    EmptyUnit(w);
    NonSpacePrefixOf(w, []);
    EmptyUnit(TitleWord(w));
  }

  /** The scan restarts at whitespace: cutting the input next to a
      whitespace character cuts the output at the same place. */
  lemma {:induction false} TitleCaseConcat(x: string, y: string)
    requires x == [] || y == [] || IsSpace(x[|x| - 1]) || IsSpace(y[0])
    ensures ToTitleCase(x + y) == ToTitleCase(x) + ToTitleCase(y)
    decreases |x|
  {
    if x == [] {
      EmptyUnit(y);
      EmptyUnit(ToTitleCase(y));
    } else if y == [] {
      EmptyUnit(x);
      EmptyUnit(ToTitleCase(x));
    } else if IsWordChar(x[0]) {
      TitleCaseConcatWord(x, y);
    } else {
      ConsSplit(x, y);
      TitleCaseConcat(x[1..], y);
      Assoc([x[0]], ToTitleCase(x[1..]), ToTitleCase(y));
    }
  }

  /** A match followed by whitespace or by the end is replaced on its own,
      and the scan goes on after it. */
  lemma TitleCaseLead(w: string, u: string)
    requires w != [] && IsWordChar(w[0]) && NoSpace(w)
    requires u == [] || IsSpace(u[0])
    ensures ToTitleCase(w + u) == TitleWord(w) + ToTitleCase(u)
  {
    NonSpacePrefixOf(w, u);
    ConsSplit(w, u);
    Parts(w, u);
  }

  /** A character that is not a word character starts no match: it is kept
      as it is, and the scan goes on at the next one. With `TitleCaseLead`
      this settles every input. */
  lemma TitleCaseSkip(c: char, t: string)
    requires !IsWordChar(c)
    ensures ToTitleCase([c] + t) == [c] + ToTitleCase(t)
  {
    ConsSplit([c], t);
  }

  /** A run that starts with punctuation: the match begins at its first word
      character, so `toTitleCase('(hELLO') == '(Hello'`. */
  lemma TitleCaseExampleParen()
    ensures ToTitleCase("(hELLO") == "(Hello"
  {
    var w := "hELLO";
    assert IsWordChar(w[0]) && NoSpace(w);
    TitleCaseWord(w);
    TitleCaseSkip('(', w);
    assert TitleWord(w) == "Hello";
    assert ['('] + w == "(hELLO";
  }

  /** The step of `TitleCaseConcat` where `x` starts with a match. */
  lemma {:induction false} TitleCaseConcatWord(x: string, y: string)
    requires x != [] && y != [] && IsWordChar(x[0])
    requires IsSpace(x[|x| - 1]) || IsSpace(y[0])
    ensures ToTitleCase(x + y) == ToTitleCase(x) + ToTitleCase(y)
    decreases |x|, 0
  {
    var w := NonSpacePrefix(x);
    assert !IsSpace(x[0]);
    var rest := x[|w|..];
    SplitAt(x, |w|);
    TitleCaseLead(w, rest);
    var t := TitleWord(w);
    if rest == [] {
      EmptyUnit(w);
      TitleCaseLead(w, y);
      EmptyUnit(t);
    } else {
      Assoc(w, rest, y);
      ConsSplit(rest, y);
      TitleCaseLead(w, rest + y);
      assert rest[|rest| - 1] == x[|x| - 1];
      TitleCaseConcat(rest, y);
      Assoc(t, ToTitleCase(rest), ToTitleCase(y));
    }
  }

  /** Title-casing changes the case of letters and nothing else: lowering
      the result gives the same as lowering the input. In particular
      whitespace, digits, underscores and every other non-letter stay in
      place, and the result has the input's length. */
  lemma {:induction false} TitleCaseOnlyChangesCase(s: string)
    ensures ToLower(ToTitleCase(s)) == ToLower(s)
    decreases |s|
  {
    if s == [] {
    } else if IsWordChar(s[0]) {
      var w := NonSpacePrefix(s);
      assert !IsSpace(s[0]);
      var rest := s[|w|..];
      SplitAt(s, |w|);
      TitleCaseOnlyChangesCase(rest);
      TitleWordLower(w);
      CaseMappingConcat(TitleWord(w), ToTitleCase(rest));
      CaseMappingConcat(w, rest);
    } else {
      TitleCaseOnlyChangesCase(s[1..]);
      CaseMappingConcat([s[0]], ToTitleCase(s[1..]));
      CaseMappingConcat([s[0]], s[1..]);
      assert s == [s[0]] + s[1..];
    }
  }

  /** One replaced match is the matched text up to case. */
  lemma TitleWordLower(w: string)
    requires w != []
    ensures ToLower(TitleWord(w)) == ToLower(w)
    ensures |TitleWord(w)| == |w|
  {
    CaseMappingKeepsClasses(w[0]);
    CaseMappingIdempotent(w[1..]);
    CaseMappingConcat([UpperChar(w[0])], ToLower(w[1..]));
    CaseMappingConcat([w[0]], w[1..]);
    assert w == [w[0]] + w[1..];
  }

  /** Whitespace sits at the same places in the input and in the result. */
  lemma TitleCaseKeepsSpaces(s: string, i: int)
    requires 0 <= i < |s|
    ensures IsSpace(ToTitleCase(s)[i]) <==> IsSpace(s[i])
  {
    TitleCaseOnlyChangesCase(s);
    CaseMappingKeepsClasses(s[i]);
    CaseMappingKeepsClasses(ToTitleCase(s)[i]);
    assert ToLower(ToTitleCase(s))[i] == ToLower(s)[i];
  }

  /** Title-casing twice changes nothing more. */
  lemma {:induction false} TitleCaseIdempotent(s: string)
    ensures ToTitleCase(ToTitleCase(s)) == ToTitleCase(s)
    decreases |s|
  {
    if s == [] {
    } else if IsWordChar(s[0]) {
      var w := NonSpacePrefix(s);
      assert !IsSpace(s[0]);
      var rest := s[|w|..];
      var t, tr := TitleWord(w), ToTitleCase(rest);
      TitleCaseIdempotent(rest);
      TitleWordFixed(w);
      if rest != [] {
        TitleCaseKeepsSpaces(rest, 0);
      }
      TitleCaseConcat(t, tr);
    } else {
      TitleCaseIdempotent(s[1..]);
      var z := ToTitleCase(s[1..]);
      ConsSplit([s[0]], z);
    }
  }

  /** A replaced match is replaced by itself when scanned again. */
  lemma TitleWordFixed(w: string)
    requires w != [] && IsWordChar(w[0]) && NoSpace(w)
    ensures ToTitleCase(TitleWord(w)) == TitleWord(w)
  {
    var t := TitleWord(w);
    CaseMappingKeepsClasses(w[0]);
    forall i | 1 <= i < |w| ensures !IsSpace(t[i]) {
      CaseMappingKeepsClasses(w[i]);
    }
    TitleCaseWord(t);
    Parts([UpperChar(w[0])], ToLower(w[1..]));
    CaseMappingIdempotent(w[1..]);
  }

  /** Two runs that start with a word character, separated by one
      whitespace character, are title-cased one by one. */
  lemma TitleCaseTwoWords(a: string, c: char, b: string)
    requires a != [] && IsWordChar(a[0]) && NoSpace(a)
    requires b != [] && IsWordChar(b[0]) && NoSpace(b)
    requires IsSpace(c)
    ensures ToTitleCase(a + [c] + b) == TitleWord(a) + [c] + TitleWord(b)
  {
    TitleCaseConcat(a, [c]);
    TitleCaseConcat(a + [c], b);
    TitleCaseWord(a);
    TitleCaseWord(b);
    assert ToTitleCase([c]) == [c];
  }

  /** The documentation's first example: `toTitleCase('hello world')`. */
  lemma TitleCaseExampleLower()
    ensures ToTitleCase("hello world") == "Hello World"
  {
    var a, b := "hello", "world";
    ExampleLowerPieces(a, b);
    TitleCaseTwoWords(a, ' ', b);
  }

  lemma ExampleLowerPieces(a: string, b: string)
    requires a == "hello" && b == "world"
    ensures a + [' '] + b == "hello world"
    ensures a != [] && IsWordChar(a[0]) && NoSpace(a) && b != [] && IsWordChar(b[0]) && NoSpace(b)
    ensures TitleWord(a) + [' '] + TitleWord(b) == "Hello World"
  {
  }

  /** The documentation's second example: `toTitleCase('HELLO WORLD')`. */
  lemma TitleCaseExampleUpper()
    ensures ToTitleCase("HELLO WORLD") == "Hello World"
  {
    var a, b := "HELLO", "WORLD";
    ExampleUpperPieces(a, b);
    TitleCaseTwoWords(a, ' ', b);
  }

  lemma ExampleUpperPieces(a: string, b: string)
    requires a == "HELLO" && b == "WORLD"
    ensures a + [' '] + b == "HELLO WORLD"
    ensures a != [] && IsWordChar(a[0]) && NoSpace(a) && b != [] && IsWordChar(b[0]) && NoSpace(b)
    ensures TitleWord(a) + [' '] + TitleWord(b) == "Hello World"
  {
  }

  /** `toTitleCase('hello_world')`: the underscore is a word character, so
      the whole input is one match and only its first letter is upper-cased.
      The result is `'Hello_world'`, not the `'Hello_World'` that the
      documentation comment of `toTitleCase` shows. */
  lemma TitleCaseExampleUnderscore()
    ensures ToTitleCase("hello_world") == "Hello_world"
  {
    var w := "hello_world";
    ExampleUnderscorePieces(w);
    TitleCaseWord(w);
  }

  lemma ExampleUnderscorePieces(w: string)
    requires w == "hello_world"
    ensures w != [] && IsWordChar(w[0]) && NoSpace(w)
    ensures TitleWord(w) == "Hello_world"
  {
    var t := w[1..];
    assert t == "ello_world";
    ToLowerNoUpper(t);
    assert UpperChar(w[0]) == 'H';
  }
}

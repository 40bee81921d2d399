/** `isValidEmail`: a test of the whole string against
    `^[^\s@]+@[^\s@]+\.[^\s@]+$`. */
module Email {
  import opened Chars

  /** A character of the class `[^\s@]`. */
  predicate IsPlain(c: char) { !IsSpace(c) && c != '@' }

  predicate AllPlain(t: string) { forall k :: 0 <= k < |t| ==> IsPlain(t[k]) }

  /** One way the pattern matches `s`: the `@` at `i`, the literal dot at
      `j`, a non-empty run of `[^\s@]` before, between and after. */
  predicate EmailSplit(s: string, i: int, j: int) {
    && 0 < i && i + 1 < j && j + 1 < |s|
    && s[i] == '@' && s[j] == '.'
    && forall k :: 0 <= k < |s| && k != i ==> IsPlain(s[k])
  }

  /** The index of the first `@` in `s`, or `|s|` when there is none. */
  function FirstAt(s: string): (i: nat)
    ensures i <= |s|
    ensures i < |s| ==> s[i] == '@'
    ensures forall k :: 0 <= k < i ==> s[k] != '@'
  {
    if s == [] || s[0] == '@' then 0 else 1 + FirstAt(s[1..])
  }

  /** The part after the `@`: `[^\s@]+\.[^\s@]+`, that is, plain characters
      with a dot that is neither first nor last. */
  predicate IsDomain(d: string) {
    AllPlain(d) && |d| >= 3 && '.' in d[1..|d| - 1]
  }

  /** `isValidEmail(data)`, deciding the match from the first `@`. A valid
      address is at least five characters long (`a@b.c`) and neither begins
      nor ends with whitespace or `@`. */
  predicate IsValidEmail(s: string): (ok: bool)
    ensures ok ==> |s| >= 5 && IsPlain(s[0]) && IsPlain(s[|s| - 1])
  {
    var i := FirstAt(s);
    0 < i < |s| && AllPlain(s[..i]) && IsDomain(s[i + 1..])
  }

  /** The decision agrees with the pattern: it accepts exactly the strings
      that split as the pattern requires. */
  lemma IsValidEmailMatches(s: string)
    ensures IsValidEmail(s) <==> exists i, j :: EmailSplit(s, i, j)
  {
    if IsValidEmail(s) {
      var i := FirstAt(s);
      var d := s[i + 1..];
      var m :| 0 <= m < |d| - 2 && d[1..|d| - 1][m] == '.';
      var j := i + 2 + m;
      assert s[j] == '.';
      forall k | 0 <= k < |s| && k != i ensures IsPlain(s[k]) {
        if k < i {
          assert s[k] == s[..i][k];
        } else {
          assert s[k] == d[k - i - 1];
        }
      }
      assert EmailSplit(s, i, j);
    }
    if exists i, j :: EmailSplit(s, i, j) {
      var i, j :| EmailSplit(s, i, j);
      assert FirstAt(s) == i by {
        var f := FirstAt(s);
        assert f <= i;
        assert f < |s| ==> s[f] == '@';
      }
      var d := s[i + 1..];
      assert d[1..|d| - 1][j - i - 2] == '.';
    }
  }

  /** A valid address holds no whitespace and exactly one `@`, with
      something on each side of it. */
  lemma ValidEmailOneAt(s: string)
    requires IsValidEmail(s)
    ensures NoSpace(s)
    ensures exists i :: 0 < i < |s| - 1 && s[i] == '@' && forall k :: 0 <= k < |s| && s[k] == '@' ==> k == i
  {
    IsValidEmailMatches(s);
    var i, j :| EmailSplit(s, i, j);
    assert forall k :: 0 <= k < |s| && k != i ==> IsPlain(s[k]);
  }

  /** The documentation's accepted example `isValidEmail('test@example.com')`. */
  lemma IsValidEmailExampleValid()
    ensures IsValidEmail("test@example.com")
  {
    var s := "test@example.com";
    assert EmailSplit(s, 4, 12);
    IsValidEmailMatches(s);
  }

  /** The documentation's example `isValidEmail('invalid.email')`: no `@`. */
  lemma IsValidEmailExampleNoAt()
    ensures !IsValidEmail("invalid.email")
  {
    var s := "invalid.email";
    assert forall k :: 0 <= k < |s| ==> s[k] != '@';
  }

  /** The documentation's example `isValidEmail('test@domain')`: no dot
      after the `@`. */
  lemma IsValidEmailExampleNoDot()
    ensures !IsValidEmail("test@domain")
  {
    var s := "test@domain";
    var i := FirstAt(s);
    assert s[4] == '@' && s[0] != '@' && s[1] != '@' && s[2] != '@' && s[3] != '@';
    assert i == 4;
    NoDotDomain(s[5..]);
  }

  lemma NoDotDomain(d: string)
    requires d == "domain"
    ensures !IsDomain(d)
  {
    assert d[1..|d| - 1] == "omai";
  }
}

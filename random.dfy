/** `random(length, charset)`: a string of `length` characters, each picked
    from `charset` by a call of `Math.random()`. The random numbers are
    passed in as `rolls`, each in `[0, 1)` as `Math.random()` promises;
    `Math.floor(roll * charset.length)` is computed on exact reals. */
module RandomString {

  /** The charset used when the caller gives none. */
  const DefaultCharset: string := "ABCDEFGHIJKLMNOPQRSTUVWXYZabcdefghijklmnopqrstuvwxyz0123456789"

  /** A roll as `Math.random()` returns it. */
  predicate IsRoll(r: real) { 0.0 <= r < 1.0 }

  predicate AllRolls(rolls: seq<real>) {
    forall i :: 0 <= i < |rolls| ==> IsRoll(rolls[i])
  }

  /** `Math.floor(roll * n)`: the index a roll selects among `n` characters. */
  function Index(r: real, n: nat): (k: int)
    requires IsRoll(r)
    ensures n > 0 ==> 0 <= k < n
    ensures n == 0 ==> k == 0
  {
    var x := r * n as real;
    assert x < n as real || n == 0 by {
      if n > 0 {
        assert r * n as real < 1.0 * n as real;
      }
    }
    x.Floor
  }

  /** A roll selects index `k` exactly when it falls in the `k`-th of `n`
      equal parts of `[0, 1)`; so every index is equally likely. */
  lemma IndexInterval(r: real, n: nat, k: int)
    requires IsRoll(r) && n > 0
    ensures Index(r, n) == k <==> (k as real) / (n as real) <= r < ((k + 1) as real) / (n as real)
  {
    var m := n as real;
    var lo, hi := (k as real) / m, ((k + 1) as real) / m;
    Scale(lo, r, m);
    Scale(r, hi, m);
  }

  lemma Scale(x: real, y: real, m: real)
    requires m > 0.0
    ensures x <= y <==> x * m <= y * m
    ensures x < y <==> x * m < y * m
  {
  }

  /** `charset.charAt(index)` for the index a roll selects: one character
      of a non-empty charset, the empty string for an empty one. */
  function Pick(charset: string, r: real): (p: string)
    requires IsRoll(r)
    ensures charset == [] ==> p == []
    ensures charset != [] ==> |p| == 1 && p[0] in charset
  {
    var k := Index(r, |charset|);
    if 0 <= k < |charset| then [charset[k]] else []
  }

  /** The string the loop builds from a sequence of rolls, one pick per
      roll: one character per roll from a non-empty charset, none from an
      empty one, and only characters of the charset. */
  function Picks(charset: string, rolls: seq<real>): (s: string)
    requires AllRolls(rolls)
    ensures |s| == if charset == [] then 0 else |rolls|
    ensures forall c :: c in s ==> c in charset
  {
    if rolls == [] then []
    else Picks(charset, rolls[..|rolls| - 1]) + Pick(charset, rolls[|rolls| - 1])
  }

  /** The `k`-th character is the pick of the `k`-th roll. */
  lemma {:induction false} PicksAt(charset: string, rolls: seq<real>, k: int)
    requires AllRolls(rolls) && charset != [] && 0 <= k < |rolls|
    ensures |Picks(charset, rolls)| == |rolls|
    ensures Picks(charset, rolls)[k] == charset[Index(rolls[k], |charset|)]
    decreases |rolls|
  {
    var front := rolls[..|rolls| - 1];
    if k < |rolls| - 1 {
      PicksAt(charset, front, k);
    }
  }

  function Max(x: int, y: int): int { if x < y then y else x }

  /** `random(length, charset)`, one roll used per iteration. */
  method Random(length: int, charset: string, rolls: seq<real>) returns (result: string)
    requires AllRolls(rolls) && length <= |rolls|
    ensures result == Picks(charset, rolls[..Max(0, length)])
    ensures |result| == if charset == [] then 0 else Max(0, length)
    ensures forall c :: c in result ==> c in charset
  {
    result := "";
    var i := 0;
    while i < length
      invariant 0 <= i <= Max(0, length)
      invariant result == Picks(charset, rolls[..i])
    {
      PicksSnoc(charset, rolls, i);
      result := result + Pick(charset, rolls[i]);
      i := i + 1;
    }
  }

  /** `random(length)` without a charset: the default charset of letters and
      digits, one of them per roll. */
  method RandomDefault(length: int, rolls: seq<real>) returns (result: string)
    requires AllRolls(rolls) && length <= |rolls|
    ensures result == Picks(DefaultCharset, rolls[..Max(0, length)])
    ensures |result| == Max(0, length)
    ensures forall c :: c in result ==> c in DefaultCharset
  {
    result := Random(length, DefaultCharset, rolls);
  }

  /** One more roll adds its pick at the end. */
  lemma PicksSnoc(charset: string, rolls: seq<real>, i: nat)
    requires AllRolls(rolls) && i < |rolls|
    ensures Picks(charset, rolls[..i + 1]) == Picks(charset, rolls[..i]) + Pick(charset, rolls[i])
  {
    assert rolls[..i + 1][..i] == rolls[..i];
  }
}

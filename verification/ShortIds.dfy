/** Spreadsheet-style node ids: A..Z, AA, AB, ... as a bijective base-26 numeral. */
module ShortIds {

  function Letter(d: nat): char
    requires d < 26
  {
    'A' + d as char
  }

  function Digit(c: char): nat
    requires 'A' <= c <= 'Z'
  {
    (c - 'A') as nat
  }

  function ShortIdOf(n: nat): string {
    if n < 26 then [Letter(n)] else ShortIdOf(n / 26 - 1) + [Letter(n % 26)]
  }

  method ShortId(index: nat) returns (result: string)
    ensures result == ShortIdOf(index)
  {
    var n := index;
    result := "";
    while true
      invariant ShortIdOf(index) == ShortIdOf(n) + result
      decreases n
    {
      var remainder := n % 26;
      result := [Letter(remainder)] + result;
      if n < 26 {
        break;
      }
      assert ShortIdOf(n) == ShortIdOf(n / 26 - 1) + [Letter(remainder)];
      n := n / 26 - 1;
    }
  }

  /** Nonempty strings of capital letters. */
  predicate IsName(s: string) {
    s != [] && forall k :: 0 <= k < |s| ==> 'A' <= s[k] <= 'Z'
  }

  function IndexOf(s: string): nat
    requires IsName(s)
  {
    if |s| == 1 then Digit(s[0]) else (IndexOf(s[..|s| - 1]) + 1) * 26 + Digit(s[|s| - 1])
  }

  lemma {:induction false} IndexOfShortId(n: nat)
    ensures IsName(ShortIdOf(n)) && IndexOf(ShortIdOf(n)) == n
  {
    if n >= 26 {
      IndexOfShortId(n / 26 - 1);
      var s := ShortIdOf(n);
      assert s[..|s| - 1] == ShortIdOf(n / 26 - 1);
    }
  }

  lemma {:induction false} ShortIdOfIndex(s: string)
    requires IsName(s)
    ensures ShortIdOf(IndexOf(s)) == s
  {
    if |s| > 1 {
      var init, d := s[..|s| - 1], Digit(s[|s| - 1]);
      ShortIdOfIndex(init);
      var n := IndexOf(s);
      assert n / 26 == IndexOf(init) + 1 && n % 26 == d;
      assert s == init + [Letter(d)];
    } else {
      assert s == [Letter(Digit(s[0]))];
    }
  }

  lemma ShortIdInjective(m: nat, n: nat)
    requires ShortIdOf(m) == ShortIdOf(n)
    ensures m == n
  {
    IndexOfShortId(m);
    IndexOfShortId(n);
  }
}

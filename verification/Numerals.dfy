/** Positional numerals, most significant digit first, as the formatting macros print them. */
module Numerals {

  function Numeral(base: nat, n: nat): (ds: seq<nat>)
    requires base >= 2
    ensures ds != [] && forall k :: 0 <= k < |ds| ==> ds[k] < base
  {
    if n < base then [n]
    else
      DivShrinks(base, n);
      Numeral(base, n / base) + [n % base]
  }

  lemma DivShrinks(base: nat, n: nat)
    requires 2 <= base <= n
    ensures 0 <= n / base < n && 0 <= n % base < base && n == n / base * base + n % base
  {
    var q := n / base;
    assert n == q * base + n % base;
    assert q >= 0 && q * 2 <= q * base;
  }

  function Value(base: nat, ds: seq<nat>): nat {
    if ds == [] then 0 else Value(base, ds[..|ds| - 1]) * base + ds[|ds| - 1]
  }

  lemma {:induction false} NumeralValue(base: nat, n: nat)
    requires base >= 2
    ensures Value(base, Numeral(base, n)) == n
  {
    if n >= base {
      DivShrinks(base, n);
      NumeralValue(base, n / base);
      var ds := Numeral(base, n);
      assert ds[..|ds| - 1] == Numeral(base, n / base);
    } else {
      assert [n][..0] == [];
    }
  }

  lemma NumeralInjective(base: nat, m: nat, n: nat)
    requires base >= 2 && Numeral(base, m) == Numeral(base, n)
    ensures m == n
  {
    NumeralValue(base, m);
    NumeralValue(base, n);
  }
}

/** Rounding up, and the few facts about products and quotients that the bounds rest on. */
module Arithmetic {

  function Ceil(x: real): int {
    var f := x.Floor;
    if f as real == x then f else f + 1
  }

  lemma CeilNotPositive(x: real)
    ensures Ceil(x) <= 0 <==> x <= 0.0
  {
  }

  lemma CeilMonotone(x: real, y: real)
    requires x <= y
    ensures Ceil(x) <= Ceil(y)
  {
  }

  lemma CeilBounds(x: real)
    ensures Ceil(x) as real - 1.0 < x <= Ceil(x) as real
  {
  }

  /** `n` times `x`, by repeated addition. */
  function Times(n: nat, x: nat): nat {
    if n == 0 then 0 else x + Times(n - 1, x)
  }

  lemma {:induction false} TimesIsProduct(n: nat, x: nat)
    ensures Times(n, x) == n * x
  {
    if n > 0 { TimesIsProduct(n - 1, x); }
  }

  lemma {:induction false} TimesAdd(n: nat, a: nat, b: nat)
    ensures Times(n, a + b) == Times(n, a) + Times(n, b)
  {
    if n > 0 { TimesAdd(n - 1, a, b); }
  }

  lemma {:induction false} TimesPlus(m: nat, n: nat, x: nat)
    ensures Times(m + n, x) == Times(m, x) + Times(n, x)
  {
    if m > 0 { TimesPlus(m - 1, n, x); }
  }

  lemma {:induction false} TimesMonotone(n: nat, a: nat, b: nat)
    requires a <= b
    ensures Times(n, a) <= Times(n, b)
  {
    if n > 0 { TimesMonotone(n - 1, a, b); }
  }
}

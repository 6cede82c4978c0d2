// Division by a variable, in steps small enough for the verifier.
module Arithmetic {
  lemma DivMod(x: int, n: int)
    requires n > 0
    ensures x == n * (x / n) + x % n && 0 <= x % n < n
  {
  }

  lemma {:induction false} NextMultiple(n: int, q: int, q': int)
    requires n >= 0
    ensures q < q' ==> n * q + n <= n * q'
    decreases q' - q
  {
    if q < q' {
      NextMultiple(n, q, q' - 1);
      assert n * q' == n * (q' - 1) + n;
    }
  }

  lemma QuotientsAgree(n: int, q: int, m: int, q': int, m': int)
    requires n * q + m == n * q' + m' && 0 <= m < n && 0 <= m' < n
    ensures q == q' && m == m'
  {
    NextMultiple(n, q, q');
    NextMultiple(n, q', q);
  }

  lemma Quotient(x: int, n: int, q: int, m: int)
    requires x == n * q + m && 0 <= m < n
    ensures x / n == q && x % n == m
  {
    DivMod(x, n);
    QuotientsAgree(n, x / n, x % n, q, m);
  }

  function Div(x: nat, n: nat): nat
    requires n > 0
  {
    DivMod(x, n);
    NonNegativeQuotient(n, x / n, x);
    x / n
  }

  function Mod(x: nat, n: nat): (m: nat)
    requires n > 0
    ensures m < n
  {
    DivMod(x, n);
    x % n
  }

  lemma DivIs(x: nat, n: nat, q: nat, m: nat)
    requires x == n * q + m && m < n
    ensures Div(x, n) == q && Mod(x, n) == m
  {
    Quotient(x, n, q, m);
  }

  lemma DivIsSome(x: nat, n: nat) returns (q: nat, m: nat)
    requires n > 0
    ensures q == Div(x, n) && m == Mod(x, n) && x == n * q + m && m < n
  {
    DivMod(x, n);
    q, m := Div(x, n), Mod(x, n);
  }

  lemma NonNegativeQuotient(n: int, q: int, x: int)
    requires n > 0 && x >= 0 && n * q <= x < n * q + n
    ensures q >= 0
  {
    NextMultiple(n, q, 0);
  }
}

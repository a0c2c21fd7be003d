/** Powers of two, and the little arithmetic of shifts that goes with them. */
module Powers {
  function Pow2(e: nat): (r: nat)
    ensures r > 0
  {
    if e == 0 then 1 else 2 * Pow2(e - 1)
  }

  lemma {:induction false} Pow2Grows(a: nat, b: nat)
    requires a <= b
    ensures Pow2(a) <= Pow2(b)
    ensures a < b ==> 2 * Pow2(a) <= Pow2(b)
    decreases b
  {
    if a < b {
      Pow2Grows(a, b - 1);
    }
  }

  lemma {:induction false} Pow2Add(a: nat, b: nat)
    ensures Pow2(a + b) == Pow2(a) * Pow2(b)
  {
    if a > 0 {
      Pow2Add(a - 1, b);
    }
  }

  lemma MulLe(a: nat, b: nat, p: nat)
    requires a <= b
    ensures a * p <= b * p
  {
  }

  lemma DivBounds(n: nat, p: nat)
    requires p > 0
    ensures n / p * p <= n < (n / p + 1) * p
  {
  }

  lemma SmallMod(a: nat, p: nat)
    requires a < p
    ensures a % p == a
  {
  }

  function Product(a: nat, b: nat): (r: nat)
  {
    a * b
  }

  function Quotient(n: nat, p: nat): (r: nat)
    requires p > 0
  {
    n / p
  }

  /** The unsigned right shift. */
  function Shr(n: nat, e: nat): (r: nat)
  {
    Quotient(n, Pow2(e))
  }

  lemma ShrBounds(n: nat, e: nat)
    ensures Shr(n, e) * Pow2(e) <= n < (Shr(n, e) + 1) * Pow2(e)
  {
    DivBounds(n, Pow2(e));
  }
}

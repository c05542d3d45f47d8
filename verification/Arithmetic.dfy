/**
 Go's integer division and remainder.  They are defined by repeated subtraction
 so that proofs about the ring never meet non-linear arithmetic; `DivIsQuotient`
 relates them to the mathematical operators.
 */
module Arithmetic {

  function Div(a: nat, b: nat): nat
    requires b > 0
  {
    if a < b then 0 else 1 + Div(a - b, b)
  }

  function Mod(a: nat, b: nat): (r: nat)
    requires b > 0
    ensures r < b
  {
    if a < b then a else Mod(a - b, b)
  }

  /** Go's `/`, which truncates toward zero. */
  function TruncDiv(a: int, b: nat): int
    requires b > 0
  {
    if a >= 0 then Div(a, b) else 0 - Div(-a, b)
  }

  /** Go's `%`, which has the sign of the dividend. */
  function TruncMod(a: int, b: nat): (r: int)
    requires b > 0
    ensures r < b && 0 - b < r
  {
    if a >= 0 then Mod(a, b) else 0 - Mod(-a, b)
  }

  // ---------- facts ----------

  lemma Distribute(n: int, x: int, y: int)
    ensures n * (x - y) == n * x - n * y
    ensures n * (x + y) == n * x + n * y
  {
  }

  /** A non-zero multiple of `n` is at least `n` away from zero. */
  lemma MultipleSize(n: int, d: int)
    requires n > 0
    ensures d >= 1 ==> n * d >= n
    ensures d <= -1 ==> n * d <= -n
  {
    assert n * d == n * (d - 1) + n && n * d == n * (d + 1) - n;
    if d >= 1 {
      assert n * (d - 1) >= 0;
    } else if d <= -1 {
      assert n * (d + 1) <= 0;
    }
  }

  lemma QuotientOrder(n: int, q: int, r: int, p: int, s: int)
    requires n > 0 && 0 <= r < n && 0 <= s < n && n * q + r <= n * p + s
    ensures q <= p
  {
    MultipleSize(n, q - p);
    Distribute(n, q, p);
  }

  lemma QuotientUnique(n: int, q: int, r: int, p: int, s: int)
    requires n > 0 && 0 <= r < n && 0 <= s < n && n * q + r == n * p + s
    ensures q == p && r == s
  {
    QuotientOrder(n, q, r, p, s);
    QuotientOrder(n, p, s, q, r);
  }

  lemma {:induction false} DivMod(a: nat, b: nat)
    requires b > 0
    ensures a == b * Div(a, b) + Mod(a, b)
  {
    if a >= b {
      DivMod(a - b, b);
      Distribute(b, 1, Div(a - b, b));
    }
  }

  lemma DivIsQuotient(a: nat, b: nat)
    requires b > 0
    ensures Div(a, b) == a / b && Mod(a, b) == a % b
  {
    DivMod(a, b);
    QuotientUnique(b, Div(a, b), Mod(a, b), a / b, a % b);
  }

  /** Below zero the quotient rounds toward zero and the remainder keeps the sign of the dividend. */
  lemma TruncIsQuotient(a: int, b: nat)
    requires b > 0
    ensures TruncDiv(a, b) == if a >= 0 then a / b else -(-a / b)
    ensures TruncMod(a, b) == if a >= 0 then a % b else -(-a % b)
  {
    if a >= 0 {
      DivIsQuotient(a, b);
    } else {
      DivIsQuotient(-a, b);
    }
  }

  lemma DivUnique(a: nat, b: nat, q: nat, r: nat)
    requires r < b && a == b * q + r
    ensures Div(a, b) == q && Mod(a, b) == r
  {
    DivMod(a, b);
    QuotientUnique(b, Div(a, b), Mod(a, b), q, r);
  }

  lemma DivMonotone(a: nat, b: nat, n: nat)
    requires n > 0 && a <= b
    ensures Div(a, n) <= Div(b, n)
  {
    DivMod(a, n);
    DivMod(b, n);
    QuotientOrder(n, Div(a, n), Mod(a, n), Div(b, n), Mod(b, n));
  }

  lemma TruncDivMonotone(a: int, b: int, n: nat)
    requires n > 0 && a <= b
    ensures TruncDiv(a, n) <= TruncDiv(b, n)
  {
    if a >= 0 {
      DivMonotone(a, b, n);
    } else if b < 0 {
      DivMonotone(-b, -a, n);
    }
  }

  lemma DivShift(a: nat, n: nat, k: nat)
    requires n > 0
    ensures 0 <= n * k && Div(a + n * k, n) == Div(a, n) + k
  {
    DivMod(a, n);
    Distribute(n, Div(a, n), k);
    assert n * k >= 0;
    DivUnique(a + n * k, n, Div(a, n) + k, Mod(a, n));
  }
}

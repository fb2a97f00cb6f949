/** Small facts of nonlinear arithmetic, each proved alone to keep the proofs that use them cheap. */
module Arith {
  function Abs(x: int): nat { if x < 0 then -x else x }

  function Min(a: int, b: int): int { if a < b then a else b }

  function Max(a: int, b: int): int { if a < b then b else a }

  /** Division rounding towards zero. */
  function Truncated(a: int, n: int): int
    requires n > 0
  {
    if a < 0 then -((-a) / n) else a / n
  }

  /** The remainder that goes with it, negative for a negative number. */
  function Rest(a: int, n: int): int
    requires n > 0
  {
    if a < 0 then -((-a) % n) else a % n
  }

  predicate Int16(v: int) { -0x8000 <= v < 0x8000 }

  predicate Int32(v: int) { -0x8000_0000 <= v < 0x8000_0000 }

  /** What a 16-bit variable holds after an assignment. */
  function Wrapped16(v: int): (w: int)
    ensures Int16(w) && (Int16(v) ==> w == v)
  {
    (v + 0x8000) % 0x1_0000 - 0x8000
  }

  function TwoTo(n: nat): nat { if n == 0 then 1 else 2 * TwoTo(n - 1) }

  lemma {:induction false} Distributes(a: int, b: int, n: int)
    ensures (a - b) * n == a * n - b * n
  {
  }

  lemma {:induction false} AtLeastOnce(d: int, n: int)
    requires 1 <= d && 0 <= n
    ensures n <= d * n
  {
    assert d * n == (d - 1) * n + n;
  }

  lemma {:induction false} NotBelow(a: int, b: int, n: int)
    requires a < b && 0 <= n
    ensures a * n + n <= b * n
  {
    Distributes(b, a, n);
    AtLeastOnce(b - a, n);
  }

  /** A quotient and a remainder are determined by the number they make. */
  lemma {:induction false} SameQuotient(a: int, b: int, i: int, j: int, n: int)
    requires 0 <= i < n && 0 <= j < n && a * n + i == b * n + j
    ensures a == b && i == j
  {
    if a < b {
      NotBelow(a, b, n);
    } else if b < a {
      NotBelow(b, a, n);
    }
  }

  lemma {:induction false} QuotientBelow(k: nat, n: nat, m: nat)
    requires n > 0 && k < n * m
    ensures k / n < m
  {
    Remainder(k, n);
    if k / n >= m {
      Monotone(m, k / n, n);
    }
  }

  lemma {:induction false} ProductIsNat(a: nat, b: nat)
    ensures 0 <= a * b
  {
  }

  lemma {:induction false} QuotientIsNat(a: nat, n: nat)
    requires n > 0
    ensures 0 <= a / n
  {
  }

  lemma {:induction false} OneMore(a: int, n: int)
    ensures a * (n + 1) == a * n + a
  {
  }

  /** A product with a part of n lies between 0 and the product with n. */
  lemma {:induction false} Scaled(a: int, i: int, n: int)
    requires 0 <= i <= n
    ensures if a >= 0 then 0 <= a * i <= a * n else a * n <= a * i <= 0
  {
    assert a * n == a * i + a * (n - i);
  }

  lemma {:induction false} Monotone(a: int, b: int, n: nat)
    requires a <= b
    ensures a * n <= b * n
  {
    Distributes(b, a, n);
    ProductIsNat(b - a, n);
  }

  lemma {:induction false} Swap(a: int, b: int, c: int)
    ensures a * b * c == a * c * b
  {
  }

  lemma {:induction false} Cancel(a: int, b: int, n: int)
    requires n > 0
    ensures a * n < b * n <==> a < b
  {
    if a < b {
      NotBelow(a, b, n);
    } else {
      Monotone(b, a, n);
    }
  }

  lemma {:induction false} OneAfter(a: int, b: int, n: int)
    requires b == a + 1
    ensures b * n == a * n + n
  {
  }

  lemma {:induction false} Sum(a: int, b: int, n: int)
    ensures (a + b) * n == a * n + b * n
  {
  }

  lemma {:induction false} Associate<T>(a: seq<T>, b: seq<T>, c: seq<T>)
    ensures (a + b) + c == a + (b + c)
  {
  }

  lemma {:induction false} Divided(q: nat, r: nat, n: nat)
    requires r < n
    ensures (q * n + r) / n == q && (q * n + r) % n == r
  {
    var a := q * n + r;
    Remainder(a, n);
    SameQuotient(a / n, q, a % n, r, n);
  }

  lemma {:induction false} Remainder(a: nat, n: nat)
    requires n > 0
    ensures a - a / n * n == a % n
  {
  }
}

/** Arithmetic of block addresses: the block an address lies in, and the offset within it. Clients hide the two
    definitions and use the lemmas, which keeps division out of their proofs. */
module Blocks {

  /** The address of the block of size n that holds address a. */
  function Floor(a: nat, n: nat): nat
    requires n > 0
  {
    (a / n) * n
  }

  /** The offset of address a within its block. */
  function Offset(a: int, n: nat): nat
    requires n > 0
  {
    a % n
  }

  lemma DivUnique(a: int, n: int, q: int)
    requires n > 0 && 0 <= a - q * n < n
    ensures a / n == q && a % n == a - q * n
  {
    var d, r := a / n, a % n;
    assert a == d * n + r;
    assert (d - q) * n == (a - q * n) - r;
    if d > q {
      MulAtLeast(d - q, n);
    } else if d < q {
      MulAtLeast(q - d, n);
    }
  }

  lemma MulAtLeast(k: int, n: int)
    requires k >= 1 && n > 0
    ensures k * n >= n
  {
  }

  lemma MulOrder(p: int, q: int, n: int)
    requires n > 0 && p <= q
    ensures p * n <= q * n
  {
  }

  lemma Multiple(q: int, n: nat)
    requires n > 0
    ensures (q * n) / n == q && Offset(q * n, n) == 0
  {
    DivUnique(q * n, n, q);
  }

  lemma FloorBounds(a: nat, n: nat)
    requires n > 0
    ensures Floor(a, n) <= a < Floor(a, n) + n
    ensures Offset(Floor(a, n), n) == 0 && a == Floor(a, n) + Offset(a, n)
  {
    assert a == (a / n) * n + a % n;
    Multiple(a / n, n);
  }

  /** Block addresses are at least a block apart. */
  lemma MultiplesApart(a: int, b: int, n: nat)
    requires n > 0 && Offset(a, n) == 0 && Offset(b, n) == 0 && a < b
    ensures a + n <= b
  {
    var p, q := a / n, b / n;
    assert a == p * n && b == q * n;
    if q <= p {
      MulOrder(q, p, n);
    } else {
      MulAtLeast(q - p, n);
      assert (q - p) * n == b - a;
    }
  }

  lemma SumOfMultiples(a: int, b: int, n: nat)
    requires n > 0 && Offset(a, n) == 0 && Offset(b, n) == 0
    ensures Offset(a + b, n) == 0 && Offset(a - b, n) == 0
  {
    var p, q := a / n, b / n;
    assert a == p * n && b == q * n;
    assert a + b == (p + q) * n && a - b == (p - q) * n;
    Multiple(p + q, n);
    Multiple(p - q, n);
  }

  lemma OffsetOfSelf(n: nat)
    requires n > 0
    ensures Offset(n, n) == 0 && Offset(0, n) == 0
  {
    Multiple(1, n);
    Multiple(0, n);
  }

  lemma OffsetSmall(a: nat, n: nat)
    requires a < n
    ensures Offset(a, n) == a
  {
    DivUnique(a, n, 0);
  }

  /** A multiple of n is a multiple of what divides n. */
  lemma MultipleOfDivisor(a: nat, n: nat, w: nat)
    requires n > 0 && w > 0 && Offset(a, n) == 0 && Offset(n, w) == 0
    ensures Offset(a, w) == 0
  {
    var p, q := a / n, n / w;
    assert a == p * n && n == q * w;
    assert p * (q * w) == (p * q) * w;
    Multiple(p * q, w);
  }

  /** The block of an address is the only block address at most n - 1 below it. */
  lemma FloorUnique(a: nat, b: nat, n: nat)
    requires n > 0 && Offset(b, n) == 0 && b <= a < b + n
    ensures Floor(a, n) == b && Offset(a, n) == a - b
  {
    assert b == (b / n) * n;
    DivUnique(a, n, b / n);
  }
}

/** Powers, shifts and residues: the arithmetic the big-number routines rely on. */
module BnModular {

  function Pow(b: int, n: nat): int
  {
    if n == 0 then 1 else b * Pow(b, n - 1)
  }

  lemma {:induction false} PowAdd(b: int, m: nat, n: nat)
    ensures Pow(b, m + n) == Pow(b, m) * Pow(b, n)
  {
    if m == 0 {
    } else {
      PowAdd(b, m - 1, n);
      Associate(b, Pow(b, m - 1), Pow(b, n));
    }
  }

  lemma {:induction false} PowPositive(b: int, n: nat)
    requires b > 0
    ensures Pow(b, n) > 0
  {
    if n > 0 {
      PowPositive(b, n - 1);
      PositiveProduct(b, Pow(b, n - 1));
    }
  }

  lemma Associate(x: int, y: int, z: int)
    ensures (x * y) * z == x * (y * z)
  {
  }

  lemma Commute(x: int, y: int)
    ensures x * y == y * x
  {
  }

  lemma PositiveProduct(x: int, y: int)
    requires x > 0 && y > 0
    ensures x * y > 0
  {
  }

  lemma MulMonotone(x: int, y: int, k: int)
    requires x <= y && k >= 0
    ensures x * k <= y * k
  {
  }

  lemma MulStrict(x: int, y: int, k: int)
    requires x < y && k > 0
    ensures x * k < y * k
  {
  }

  lemma Distribute(x: int, y: int, k: int)
    ensures (x + y) * k == x * k + y * k && (x - y) * k == x * k - y * k
    ensures k * (x + y) == k * x + k * y && k * (x - y) == k * x - k * y
  {
  }

  // ----------------------------------------------------------------- residues

  lemma DivMod(a: int, n: int)
    requires n > 0
    ensures a == (a / n) * n + a % n && 0 <= a % n < n
  {
  }

  lemma Quotient(q: int, r: int, n: int)
    requires 0 <= r < n
    ensures (q * n + r) % n == r && (q * n + r) / n == q
  {
    var a := q * n + r;
    DivMod(a, n);
    var k := a / n - q;
    Distribute(a / n, q, n);
    assert k * n == r - a % n;
    if k > 0 { MulMonotone(1, k, n); assert false; }
    if k < 0 { MulMonotone(k, -1, n); assert false; }
  }

  /** Adding a multiple of `n` does not change the residue. */
  lemma AddMultiple(a: int, k: int, n: int)
    requires n > 0
    ensures (a + k * n) % n == a % n
  {
    DivMod(a, n);
    Distribute(a / n, k, n);
    Quotient(a / n + k, a % n, n);
  }

  /** Two numbers have the same residue exactly when they differ by a multiple. */
  lemma SameResidue(a: int, b: int, n: int) returns (k: int)
    requires n > 0 && a % n == b % n
    ensures a == b + k * n
  {
    DivMod(a, n);
    DivMod(b, n);
    k := a / n - b / n;
    Distribute(a / n, b / n, n);
  }

  lemma MulResidue(a: int, b: int, n: int)
    requires n > 0
    ensures (a * b) % n == ((a % n) * b) % n
  {
    DivMod(a, n);
    var q, r := a / n, a % n;
    Distribute(q * n, r, b);
    Associate(q, n, b);
    Commute(n, b);
    Associate(q, b, n);
    AddMultiple(r * b, q * b, n);
  }

  lemma MulResidues(a: int, b: int, c: int, d: int, n: int)
    requires n > 0 && a % n == c % n && b % n == d % n
    ensures (a * b) % n == (c * d) % n
  {
    MulResidue(a, b, n);
    MulResidue(c, b, n);
    Commute(c, b);
    MulResidue(b, c, n);
    MulResidue(d, c, n);
    Commute(d, c);
  }

  /** A factor invertible modulo `n` can be cancelled. */
  lemma Cancel(x: int, y: int, r: int, ri: int, n: int)
    requires n > 0 && (r * ri) % n == 1 % n && (x * r) % n == (y * r) % n
    ensures x % n == y % n
  {
    CancelOne(x, r, ri, n);
    CancelOne(y, r, ri, n);
    MulResidues(x * r, ri, y * r, ri, n);
  }

  lemma CancelOne(x: int, r: int, ri: int, n: int)
    requires n > 0 && (r * ri) % n == 1 % n
    ensures ((x * r) * ri) % n == x % n
  {
    Associate(x, r, ri);
    MulResidues(x, r * ri, x, 1, n);
  }

  lemma SmallResidue(x: int, n: int)
    requires 0 <= x < n
    ensures x % n == x
  {
    Quotient(0, x, n);
  }
}

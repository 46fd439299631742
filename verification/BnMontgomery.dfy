/** Montgomery arithmetic on integers: BN_from_montgomery in its bignum form
    (crypto/bn/bn_mont.c), the context of BN_MONT_CTX_set, and what they compute. */
module BnMontgomery {
  import opened BnModular

  type Positive = x: int | x > 0 witness 1

  /** BN_MONT_CTX: the modulus, R = 2^ri, its inverse and Ni. */
  datatype Mont = Mont(n: Positive, r: Positive, ri: int, ni: int)

  /** R*(1/R mod N) - N*Ni = 1 */
  predicate ValidMont(c: Mont)
  {
    c.n <= c.r && c.r * c.ri - c.n * c.ni == 1
  }

  /** The conversion factor a context stores: R squared modulo N. */
  function RR(c: Mont): int
  {
    c.r * c.r % c.n
  }

  /** The multiple of N that clears the low `ri` bits: two BN_mask_bits and a BN_mul. */
  function Multiplier(c: Mont, t: int): int
  {
    t % c.r * c.ni % c.r
  }

  /** The value BN_rshift leaves, before the final subtraction. */
  function Reduced(c: Mont, t: int): int
  {
    (t + Multiplier(c, t) * c.n) / c.r
  }

  /** BN_from_montgomery */
  function Redc(c: Mont, t: int): int
  {
    if Reduced(c, t) >= c.n then Reduced(c, t) - c.n else Reduced(c, t)
  }

  /** BN_mod_mul_montgomery and BN_to_montgomery */
  function MontMul(c: Mont, a: int, b: int): int
  {
    Redc(c, a * b)
  }

  function ToMont(c: Mont, a: int): int
  {
    MontMul(c, a, RR(c))
  }

  // ------------------------------------------------------------ one reduction

  /** The sum the reduction shifts right is a multiple of R. */
  lemma MultiplierClears(c: Mont, t: int)
    requires ValidMont(c)
    ensures (t + Multiplier(c, t) * c.n) % c.r == 0
  {
    var m := Multiplier(c, t);
    // m * n == t * (ni * n) == t * (r * ri - 1) modulo r
    MulResidue(t, c.ni, c.r);
    assert m % c.r == (t * c.ni) % c.r by { SmallResidue(m, c.r); }
    MulResidues(m, c.n, t * c.ni, c.n, c.r);
    Associate(t, c.ni, c.n);
    Commute(c.ni, c.n);
    Distribute(c.r * c.ri, 1, t);
    Commute(c.r, c.ri);
    Associate(c.ri, c.r, t);
    Commute(c.r, t);
    Associate(c.ri, t, c.r);
    assert t * (c.ni * c.n) == (c.ri * t) * c.r - t;
    var k := SameResidue(m * c.n, (c.ri * t) * c.r - t, c.r);
    Distribute(c.ri * t, k, c.r);
    Quotient(c.ri * t + k, 0, c.r);
  }

  /** No other multiplier below R clears them, so an algorithm that finds one word by
      word finds this one. */
  lemma MultiplierUnique(c: Mont, t: int, m: int)
    requires ValidMont(c)
    ensures 0 <= m < c.r && (t + m * c.n) % c.r == 0 <==> m == Multiplier(c, t)
  {
    hide ValidMont, Multiplier;
    var x := Multiplier(c, t);
    MultiplierRange(c, t);
    MultiplierClears(c, t);
    if 0 <= m < c.r && (t + m * c.n) % c.r == 0 {
      var k := SameResidue(t + m * c.n, t + x * c.n, c.r);
      AddMultiple(x * c.n, k, c.r);
      // n is invertible modulo r, with inverse -ni
      Negated(c);
      Cancel(m, x, c.n, -c.ni, c.r);
      SmallResidue(m, c.r);
      SmallResidue(x, c.r);
    }
  }

  lemma Negated(c: Mont)
    requires ValidMont(c)
    ensures (c.n * -c.ni) % c.r == 1 % c.r
  {
    Commute(c.r, c.ri);
    AddMultiple(1, -c.ri, c.r);
    assert c.n * -c.ni == 1 + -c.ri * c.r;
  }

  lemma ReducedExact(c: Mont, t: int)
    requires ValidMont(c)
    ensures Reduced(c, t) * c.r == t + Multiplier(c, t) * c.n
  {
    MultiplierClears(c, t);
    DivMod(t + Multiplier(c, t) * c.n, c.r);
  }

  lemma BelowTwice(u: int, r: int, n: int, t: int, m: int)
    requires r > 0 && n > 0 && u * r == t + m * n && 0 <= m < r && 0 <= t < r * n
    ensures 0 <= u < 2 * n
  {
    MulMonotone(0, m, n);
    MulStrict(m, r, n);
    assert 0 <= u * r < 2 * (r * n);
    if u < 0 { MulMonotone(u, -1, r); }
    if u >= 2 * n {
      MulMonotone(2 * n, u, r);
      Associate(2, n, r);
      Commute(n, r);
    }
  }

  lemma SameAfterSubtraction(u: int, n: int, r: int)
    requires n > 0
    ensures ((u - n) * r) % n == (u * r) % n
  {
    Distribute(u, n, r);
    Commute(n, r);
    AddMultiple(u * r, -r, n);
  }

  /** The value before the final subtraction is below 2N, and the result is the
      residue below N whose product with R is the argument. */
  lemma RedcCorrect(c: Mont, t: int)
    requires ValidMont(c)
    ensures 0 <= t < c.r * c.n ==>
      && 0 <= Reduced(c, t) < 2 * c.n
      && 0 <= Redc(c, t) < c.n
      && (Redc(c, t) * c.r) % c.n == t % c.n
  {
    var m, u := Multiplier(c, t), Reduced(c, t);
    hide Multiplier, Reduced, ValidMont;
    if 0 <= t < c.r * c.n {
      ReducedExact(c, t);
      MultiplierRange(c, t);
      BelowTwice(u, c.r, c.n, t, m);
      AddMultiple(t, m, c.n);
      SameAfterSubtraction(u, c.n, c.r);
    }
  }

  lemma MultiplierRange(c: Mont, t: int)
    requires ValidMont(c)
    ensures 0 <= Multiplier(c, t) < c.r
  {
  }

  /** A residue is determined by its product with R. */
  lemma DividedByR(c: Mont, x: int, y: int)
    requires ValidMont(c)
    ensures 0 <= x < c.n && (x * c.r) % c.n == (y * c.r) % c.n <==> x == y % c.n
  {
    Invertible(c);
    hide ValidMont;
    if 0 <= x < c.n {
      SmallResidue(x, c.n);
      if (x * c.r) % c.n == (y * c.r) % c.n { Cancel(x, y, c.r, c.ri, c.n); }
      if x == y % c.n { MulResidues(x, c.r, y, c.r, c.n); }
    }
  }

  lemma Invertible(c: Mont)
    requires ValidMont(c)
    ensures (c.r * c.ri) % c.n == 1 % c.n
  {
    Commute(c.n, c.ni);
    AddMultiple(1, c.ni, c.n);
  }

  // ------------------------------------------------------- Montgomery's form

  /** `a` in Montgomery form. */
  function InMont(c: Mont, a: int): int
  {
    a * c.r % c.n
  }

  lemma ProductInRange(c: Mont, x: int, y: int)
    ensures 0 <= x < c.r && 0 <= y < c.n ==> 0 <= x * y < c.r * c.n
  {
    if 0 <= x < c.r && 0 <= y < c.n {
      MulMonotone(0, x, y);
      if y > 0 { MulStrict(x, c.r, y); }
      Commute(c.r, y);
      Commute(c.r, c.n);
      MulStrict(y, c.n, c.r);
    }
  }

  /** BN_to_montgomery brings a number below R, reduced or not, into Montgomery form. */
  lemma ToMontIsInMont(c: Mont, a: int)
    requires ValidMont(c)
    ensures 0 <= a < c.r ==> ToMont(c, a) == InMont(c, a)
  {
    hide ValidMont, Redc;
    if 0 <= a < c.r {
      ProductInRange(c, a, RR(c));
      RedcCorrect(c, a * RR(c));
      Associate(a, c.r, c.r);
      SmallResidue(RR(c), c.n);
      MulResidues(a, RR(c), a, c.r * c.r, c.n);
      DividedByR(c, ToMont(c, a), a * c.r);
    }
  }

  /** Multiplying Montgomery forms gives the Montgomery form of the product. */
  lemma MontMulIsProduct(c: Mont, a: int, b: int)
    requires ValidMont(c)
    ensures MontMul(c, InMont(c, a), InMont(c, b)) == InMont(c, a * b)
  {
    var x, y := InMont(c, a), InMont(c, b);
    ProductInRange(c, x, y);
    RedcCorrect(c, x * y);
    SmallResidue(x, c.n);
    SmallResidue(y, c.n);
    MulResidues(x, y, a * c.r, b * c.r, c.n);
    Associate(a * c.r, b, c.r);
    Associate(a, c.r, b);
    Commute(c.r, b);
    Associate(a, b, c.r);
    assert (a * c.r) * (b * c.r) == ((a * b) * c.r) * c.r;
    DividedByR(c, MontMul(c, x, y), (a * b) * c.r);
  }

  /** BN_from_montgomery undoes the conversion. */
  lemma FromMontIsResidue(c: Mont, a: int)
    requires ValidMont(c)
    ensures Redc(c, InMont(c, a)) == a % c.n
  {
    var x := InMont(c, a);
    MulMonotone(1, c.r, c.n);
    RedcCorrect(c, x);
    SmallResidue(x, c.n);
    DividedByR(c, Redc(c, x), a);
  }

  /** Convert, multiply, convert back: the product modulo N. */
  lemma MultiplyThroughMontgomery(c: Mont, a: int, b: int)
    requires ValidMont(c)
    ensures 0 <= a < c.r && 0 <= b < c.r ==> Redc(c, MontMul(c, ToMont(c, a), ToMont(c, b))) == a * b % c.n
  {
    hide ValidMont, Redc, MontMul, ToMont, InMont;
    ToMontIsInMont(c, a);
    ToMontIsInMont(c, b);
    MontMulIsProduct(c, a, b);
    FromMontIsResidue(c, a * b);
  }
}

/** BN_MONT_CTX_set (crypto/bn/bn_mont.c): the context exists exactly for odd moduli
    and satisfies the identities of openssl/bn.h. */
module BnContext {
  import opened BnModular
  import opened BnWords
  import opened BnMontgomery
  import opened Options

  /** BN_num_bits */
  function NumBits(n: nat): nat
  {
    if n == 0 then 0 else 1 + NumBits(n / 2)
  }

  lemma {:induction false} NumBitsBound(n: nat)
    ensures n < Pow(2, NumBits(n))
    ensures n > 0 ==> NumBits(n) > 0 && Pow(2, NumBits(n) - 1) <= n
  {
    if n > 0 {
      NumBitsBound(n / 2);
    }
  }

  lemma {:induction false} PowerOfBase(k: nat)
    ensures Pow(2, BN_BITS2 * k) == P(k)
  {
    if k > 0 {
      PowerOfBase(k - 1);
      PowAdd(2, BN_BITS2, BN_BITS2 * (k - 1));
      TwoTo32();
    }
  }

  lemma TwoTo32()
    ensures Pow(2, 32) == BASE
  {
    assert Pow(2, 8) == 256;
    PowAdd(2, 8, 8);
    PowAdd(2, 16, 16);
  }

  lemma PowMonotone(b: int, m: nat, n: nat)
    requires b >= 1 && m <= n
    ensures 0 < Pow(b, m) <= Pow(b, n)
  {
    hide *;
    PowAdd(b, m, n - m);
    PowPositive(b, m);
    PowPositive(b, n - m);
    MulMonotone(1, Pow(b, n - m), Pow(b, m));
  }

  /** `ri` is the width of the words the modulus occupies. */
  lemma BitsInWords(n: nat, top: nat)
    requires top > 0 && P(top - 1) <= n < P(top)
    ensures (NumBits(n) + (BN_BITS2 - 1)) / BN_BITS2 * BN_BITS2 == BN_BITS2 * top
  {
    hide P, Pow, NumBits;
    var bits := NumBits(n);
    NumBitsBound(n);
    PowerOfBase(top - 1);
    PowerOfBase(top);
    Powers(top - 1);
    if bits > BN_BITS2 * top { PowMonotone(2, BN_BITS2 * top, bits - 1); }
    if bits <= BN_BITS2 * (top - 1) { PowMonotone(2, bits, BN_BITS2 * (top - 1)); }
    Ceiling(bits, top);
  }

  lemma Ceiling(bits: int, top: int)
    requires BN_BITS2 * (top - 1) < bits <= BN_BITS2 * top
    ensures (bits + (BN_BITS2 - 1)) / BN_BITS2 * BN_BITS2 == BN_BITS2 * top
  {
    assert (bits + (BN_BITS2 - 1)) / BN_BITS2 == top;
  }

  // ------------------------------------------------------------------- inverses

  /** What BN_mod_inverse returns, when it returns anything. */
  predicate IsInverse(x: int, a: int, n: int)
  {
    0 <= x < n && a * x % n == 1 % n
  }

  /** Powers of two are invertible modulo an odd number. */
  lemma {:induction false} OddInverse(k: nat, n: int) returns (x: int)
    requires n > 0 && n % 2 == 1
    ensures IsInverse(x, Pow(2, k), n)
  {
    if k == 0 {
      x := 1 % n;
      SmallResidue(x, n);
    } else {
      var y := OddInverse(k - 1, n);
      x := HalfInverse(Pow(2, k - 1), y, n);
    }
  }

  lemma HalfInverse(p: int, y: int, n: int) returns (x: int)
    requires n > 0 && n % 2 == 1 && IsInverse(y, p, n)
    ensures IsInverse(x, 2 * p, n)
  {
    var half := (n + 1) / 2;
    x := y * half % n;
    DivMod(y * half, n);
    SmallResidue(x, n);
    MulResidues(2 * p, x, 2 * p, y * half, n);
    HalfAndDouble(p, y, half);
    AddMultiple(1, 1, n);
    MulResidues(p * y, 2 * half, 1, 1, n);
  }

  lemma HalfAndDouble(p: int, y: int, h: int)
    ensures (2 * p) * (y * h) == (p * y) * (2 * h)
  {
    Associate(2, p, y * h);
    Associate(p, y, h);
    Commute(p * y, h);
  }

  /** ... and modulo an even number they are not. */
  lemma EvenHasNoInverse(x: int, a: int, n: int)
    requires n % 2 == 0 && a % 2 == 0
    ensures !IsInverse(x, a, n)
  {
    if IsInverse(x, a, n) {
      var k := SameResidue(a * x, 1, n);
      Commute(k, n);
      EvenProduct(a, x);
      EvenProduct(n, k);
      assert false;
    }
  }

  lemma EvenProduct(a: int, x: int)
    requires a % 2 == 0
    ensures (a * x) % 2 == 0
  {
    Associate(2, a / 2, x);
  }

  /** (R*Ri - 1) / N: exact. */
  lemma ExactNi(r: int, x: int, n: int) returns (ni: int)
    requires n > 0 && IsInverse(x, r, n)
    ensures r * x - n * ni == 1
  {
    var k := SameResidue(r * x, 1, n);
    Commute(n, k);
    return k;
  }

  /** The low word of Ni makes the product with the modulus one less than a multiple of
      the word base. */
  lemma LowWordOfNi(x: int, t: int, q: int)
    requires 0 < t < BASE && IsInverse(x, BASE, t)
    requires q == (if x * BASE != 0 then x * BASE - 1 else BASE - 1) / t
    ensures 0 <= q < BASE && (q * t + 1) % BASE == 0
  {
    if x == 0 {
      assert t == 1 by { SmallResidue(0, t); if t > 1 { SmallResidue(1, t); } }
      Quotient(1, 0, BASE);
    } else {
      var k := SameResidue(BASE * x, 1, t);
      assert k * t == x * BASE - 1;
      Quotient(k, 0, t);
      assert q * t + 1 == x * BASE + 0;
      Quotient(x, 0, BASE);
      if q >= BASE { MulMonotone(BASE, q, t); MulMonotone(x, t - 1, BASE); }
      if q < 0 { MulMonotone(q, -1, t); }
    }
  }

  /** BN_MONT_CTX_set on the magnitude of the modulus; `inverse` is what BN_mod_inverse
      finds for the word base modulo the lowest word. */
  method MontCtxSet(n: nat, inverse: Option<int>) returns (ok: bool, n0: Word, ri: nat, rr: int, ghost c: Mont)
    requires n > 0
    requires inverse.Some? ==> IsInverse(inverse.value, BASE, n % BASE)
    requires inverse.None? ==> forall x :: !IsInverse(x, BASE, n % BASE)
    ensures ok <==> n % 2 == 1
    ensures ok ==> (n0 * (n % BASE) + 1) % BASE == 0
    ensures ok ==> ValidMont(c) && c.n == n && c.r == Pow(2, ri) && rr == RR(c) && c.r >= BASE
    ensures ok ==> forall top: nat :: top > 0 && P(top - 1) <= n < P(top) ==> c.r == P(top)
  {
    hide ValidMont, Pow, P, IsInverse, NumBits;
    n0, rr, c := 0, 0, Mont(1, 1, 0, 0);
    ri := (NumBits(n) + (BN_BITS2 - 1)) / BN_BITS2 * BN_BITS2;
    var t: Word := n % BASE;
    if inverse.None? {
      if t % 2 == 1 {
        var x := OddInverse(BN_BITS2, t);
        TwoTo32();
        assert false;
      }
      return false, n0, ri, rr, c;
    }
    if t % 2 == 0 {
      EvenHasNoInverse(inverse.value, BASE, t);
      assert false;
    }
    var product := inverse.value * BASE;
    product := if product != 0 then product - 1 else BASE - 1;
    LowWordOfNi(inverse.value, t, product / t);
    n0 := product / t % BASE;
    SmallResidue(product / t, BASE);
    rr := Pow(2, ri * 2) % n;
    ok := true;
    c := OddContext(n, ri);
    PowAdd(2, ri, ri);
    NumBitsBound(n);
    TwoTo32();
    PowMonotone(2, BN_BITS2, ri);
    WholeWords(n, c.r, ri);
  }

  lemma WholeWords(n: nat, r: int, ri: nat)
    requires ri == (NumBits(n) + (BN_BITS2 - 1)) / BN_BITS2 * BN_BITS2 && r == Pow(2, ri)
    ensures forall top: nat :: top > 0 && P(top - 1) <= n < P(top) ==> r == P(top)
  {
    hide NumBits, Pow, P;
    forall top: nat | top > 0 && P(top - 1) <= n < P(top) ensures r == P(top) {
      BitsInWords(n, top);
      PowerOfBase(top);
    }
  }

  lemma OddContext(n: nat, ri: nat) returns (c: Mont)
    requires n % 2 == 1 && NumBits(n) <= ri
    ensures ValidMont(c) && c.n == n && c.r == Pow(2, ri)
  {
    NumBitsBound(n);
    PowMonotone(2, NumBits(n), ri);
    var x := OddInverse(ri, n);
    var ni := ExactNi(Pow(2, ri), x, n);
    c := Mont(n, Pow(2, ri), x, ni);
  }

  /** BN_MONT_CTX_set in its bignum form, the one that stores Ni; `inverse` is what
      BN_mod_inverse finds for R modulo N. */
  method MontCtxSetBignum(n: nat, inverse: Option<int>) returns (ok: bool, rr: int, c: Mont)
    requires n > 0
    requires inverse.Some? ==> IsInverse(inverse.value, Pow(2, NumBits(n)), n)
    requires inverse.None? ==> forall x :: !IsInverse(x, Pow(2, NumBits(n)), n)
    ensures ok <==> n % 2 == 1
    ensures ok ==> ValidMont(c) && c.n == n && c.r == Pow(2, NumBits(n)) && rr == RR(c)
  {
    hide Pow, NumBits, IsInverse;
    var ri := NumBits(n);
    NumBitsBound(n);
    PowPositive(2, ri);
    var r: Positive := Pow(2, ri);
    rr, c := 0, Mont(1, 1, 0, 0);
    if inverse.None? {
      if n % 2 == 1 {
        var x := OddInverse(ri, n);
        assert false;
      }
      return false, rr, c;
    }
    if n % 2 == 0 {
      EvenPower(ri);
      EvenHasNoInverse(inverse.value, r, n);
      assert false;
    }
    var ni0 := ExactNi(r, inverse.value, n);
    Commute(n, ni0);
    Commute(r, inverse.value);
    Quotient(ni0, 0, n);
    var ni := (inverse.value * r - 1) / n;
    PowAdd(2, ri, ri);
    return true, Pow(2, ri * 2) % n, Mont(n, r, inverse.value, ni);
  }

  lemma EvenPower(k: nat)
    requires k > 0
    ensures Pow(2, k) % 2 == 0
  {
  }
}

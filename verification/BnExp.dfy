/** Modular exponentiation (crypto/bn/bn_exp.c): the sliding window over plain or
    Montgomery arithmetic, and the version for a one-word base. */
module BnExp {
  import opened BnModular
  import opened BnWords
  import opened BnMontgomery
  import opened BnContext

  const TABLE_SIZE := 32

  // ------------------------------------------------------------------ arithmetic

  /** BN_mod_mul (or BN_mod_mul_reciprocal) modulo m, or BN_mod_mul_montgomery. */
  datatype Arith = Plain(m: Positive) | Montgomery(c: Mont)

  predicate ValidArith(k: Arith)
  {
    k.Montgomery? ==> ValidMont(k.c)
  }

  function Mul(k: Arith, x: int, y: int): int
  {
    match k
    case Plain(m) => x * y % m
    case Montgomery(c) => MontMul(c, x, y)
  }

  /** How the arithmetic represents the number `a`. */
  function Rep(k: Arith, a: int): int
  {
    match k
    case Plain(m) => a % m
    case Montgomery(c) => InMont(c, a)
  }

  lemma MulIsProduct(k: Arith, a: int, b: int)
    requires ValidArith(k)
    ensures Mul(k, Rep(k, a), Rep(k, b)) == Rep(k, a * b)
  {
    match k
    case Plain(m) =>
      SmallResidue(a % m, m);
      SmallResidue(b % m, m);
      MulResidues(a % m, b % m, a, b, m);
    case Montgomery(c) => MontMulIsProduct(c, a, b);
  }

  // --------------------------------------------------------------------- windows

  /** BN_window_bits_for_exponent_size */
  function WindowBits(b: int): int
  {
    if b > 671 then 6 else if b > 239 then 5 else if b > 79 then 4 else if b > 23 then 3 else 1
  }

  /** The bits of `p` from bit `k` up. */
  function High(p: nat, k: nat): nat
  {
    PowPositive(2, k);
    Nonnegative(p, Pow(2, k));
    p / Pow(2, k)
  }

  lemma Nonnegative(p: int, n: int)
    requires p >= 0 && n > 0
    ensures p / n >= 0
  {
  }

  /** BN_is_bit_set */
  predicate BitSet(p: nat, k: nat)
  {
    High(p, k) % 2 == 1
  }

  function Bit(p: nat, k: nat): int
  {
    if BitSet(p, k) then 1 else 0
  }

  lemma HighStep(p: nat, k: nat)
    ensures High(p, k) == 2 * High(p, k + 1) + Bit(p, k)
  {
    PowPositive(2, k);
    HalvedTwice(p, Pow(2, k));
  }

  lemma HalvedTwice(p: nat, n: int)
    requires n > 0
    ensures p / (2 * n) == p / n / 2
  {
    DivMod(p, n);
    var q := p / n;
    DivMod(q, 2);
    var r := p - q / 2 * (2 * n);
    Associate(q / 2, 2, n);
    Distribute(q / 2 * 2, q % 2, n);
    MulMonotone(0, q % 2, n);
    MulMonotone(q % 2, 1, n);
    Quotient(q / 2, r, 2 * n);
  }

  lemma HighEnds(p: nat)
    ensures High(p, 0) == p && High(p, NumBits(p)) == 0
  {
    NumBitsBound(p);
    Quotient(0, p, Pow(2, NumBits(p)));
  }

  /** The scan of one window: its odd value, its width - 1, and zeros to the next bit. */
  ghost predicate Scanned(p: nat, wstart: nat, i: nat, wvalue: nat, wend: nat)
  {
    && wend < i <= wstart + 1 && wvalue % 2 == 1 && wvalue < Pow(2, wend + 1)
    && High(p, wstart - wend) == High(p, wstart + 1) * Pow(2, wend + 1) + wvalue
    && High(p, wstart + 1 - i) == High(p, wstart - wend) * Pow(2, i - 1 - wend)
  }

  lemma ScanStart(p: nat, wstart: nat)
    requires BitSet(p, wstart)
    ensures Scanned(p, wstart, 1, 1, 0)
  {
    HighStep(p, wstart);
  }

  lemma ScanZero(p: nat, wstart: nat, i: nat, wvalue: nat, wend: nat)
    requires Scanned(p, wstart, i, wvalue, wend) && i <= wstart && !BitSet(p, wstart - i)
    ensures Scanned(p, wstart, i + 1, wvalue, wend)
  {
    HighStep(p, wstart - i);
    var d := i - 1 - wend;
    var h := High(p, wstart - wend);
    assert Pow(2, d + 1) == 2 * Pow(2, d);
    hide High, Pow;
    Associate(h, 2, Pow(2, d));
    Associate(2, h, Pow(2, d));
    Commute(h, 2);
  }

  lemma ScanOne(p: nat, wstart: nat, i: nat, wvalue: nat, wend: nat)
    requires Scanned(p, wstart, i, wvalue, wend) && i <= wstart && BitSet(p, wstart - i)
    ensures wvalue * Pow(2, i - wend) + 1 >= 0
    ensures Scanned(p, wstart, i + 1, wvalue * Pow(2, i - wend) + 1, i)
  {
    var v, d := wvalue, i - wend;
    var hi, q := High(p, wstart + 1), Pow(2, d);
    HighStep(p, wstart - i);
    PowAdd(2, wend + 1, d);
    PowPositive(2, d - 1);
    PowPositive(2, wend + 1);
    assert q == 2 * Pow(2, d - 1);
    assert Pow(2, 0) == 1;
    ShiftIn(hi, Pow(2, wend + 1), v, Pow(2, d - 1), High(p, wstart - wend), High(p, wstart + 1 - i));
  }

  lemma ShiftIn(hi: int, p: int, v: int, q: int, mid: int, next: int)
    requires q > 0 && p > 0 && 0 <= v < p && mid == hi * p + v && next == mid * q
    ensures 2 * next + 1 == hi * (p * (2 * q)) + (v * (2 * q) + 1)
    ensures 0 <= v * (2 * q) + 1 < p * (2 * q) && (v * (2 * q) + 1) % 2 == 1
  {
    Doubled(v, q);
    Doubled(p, q);
    Doubled(hi, p * q);
    MulMonotone(0, v, q);
    MulMonotone(v + 1, p, q);
    Distribute(v, 1, q);
    Distribute(hi * p, v, q);
    Associate(hi, p, q);
  }

  lemma Doubled(x: int, y: int)
    ensures x * (2 * y) == 2 * (x * y)
  {
  }

  /** Pow(2, n), as an exponent. */
  function Two(n: nat): (r: nat)
    ensures r > 0
  {
    PowPositive(2, n);
    Pow(2, n)
  }

  // ------------------------------------------------------------------ the window

  /** The scan: how far the window starting at the set bit `wstart` reaches. */
  method ScanWindow(p: nat, wstart: nat, window: nat) returns (wvalue: nat, wend: nat)
    requires BitSet(p, wstart) && window >= 1
    ensures wend < window && wend <= wstart && wvalue % 2 == 1 && wvalue < Pow(2, wend + 1)
    ensures High(p, wstart - wend) == High(p, wstart + 1) * Pow(2, wend + 1) + wvalue
  {
    wvalue, wend := 1, 0;
    ScanStart(p, wstart);
    var i := 1;
    while i < window
      invariant 1 <= i <= window && Scanned(p, wstart, i, wvalue, wend)
    {
      if wstart - i < 0 { break; }
      if BitSet(p, wstart - i) {
        ScanOne(p, wstart, i, wvalue, wend);
        wvalue := wvalue * Pow(2, i - wend) + 1;
        wend := i;
      } else {
        ScanZero(p, wstart, i, wvalue, wend);
      }
      i := i + 1;
    }
  }

  lemma {:induction false} PowPow(a: int, m: nat, n: nat)
    ensures Pow(Pow(a, m), n) == Pow(a, m * n)
  {
    if n > 0 {
      PowPow(a, m, n - 1);
      PowAdd(a, m, m * (n - 1));
      Distribute(n - 1, 1, m);
    }
  }

  ghost predicate OddTable(k: Arith, val: seq<int>, window: nat, a: int)
  {
    && window >= 1 && Pow(2, window - 1) <= |val|
    && forall i: nat :: i < Pow(2, window - 1) ==> val[i] == Rep(k, Pow(a, 2 * i + 1))
  }

  /** The odd powers of the base: val[i] holds the power 2i + 1. */
  method OddPowers(k: Arith, val: array<int>, window: nat, ghost a: int)
    requires ValidArith(k) && 1 <= window <= 6 && val.Length == TABLE_SIZE && val[0] == Rep(k, a)
    modifies val
    ensures OddTable(k, val[..], window, a)
  {
    hide ValidArith, Mul, Rep;
    assert Pow(a, 1) == a;
    TableFits(window);
    if window > 1 {
      var d := Mul(k, val[0], val[0]);
      MulIsProduct(k, a, a);
      var j := Pow(2, window - 1);
      var i := 1;
      while i < j
        invariant 1 <= i <= j
        invariant forall n: nat :: n < i ==> val[n] == Rep(k, Pow(a, 2 * n + 1))
      {
        val[i] := Mul(k, val[i - 1], d);
        MulIsProduct(k, Pow(a, 2 * i - 1), a * a);
        NextOddPower(a, 2 * i - 1);
        i := i + 1;
      }
    } else {
      assert Pow(2, 0) == 1;
    }
  }

  lemma NextOddPower(a: int, n: nat)
    ensures Pow(a, n) * (a * a) == Pow(a, n + 2)
  {
    Associate(a, a, Pow(a, n));
    Commute(Pow(a, n), a * a);
  }

  lemma TableFits(window: nat)
    requires 1 <= window <= 6
    ensures 1 <= Pow(2, window - 1) <= TABLE_SIZE && Pow(2, window) == 2 * Pow(2, window - 1)
  {
    PowMonotone(2, window - 1, 5);
    assert Pow(2, 5) == 32 by { assert Pow(2, 2) == 4; }
  }

  /** Square `n` times. */
  method Squarings(k: Arith, r0: int, n: nat, ghost x: int) returns (r: int)
    requires ValidArith(k) && r0 == Rep(k, x)
    ensures r == Rep(k, Pow(x, Two(n)))
  {
    hide ValidArith, Mul, Rep;
    r := r0;
    assert Two(0) == 1 && Pow(x, 1) == x;
    for i := 0 to n
      invariant r == Rep(k, Pow(x, Two(i)))
    {
      r := Mul(k, r, r);
      MulIsProduct(k, Pow(x, Two(i)), Pow(x, Two(i)));
      PowAdd(x, Two(i), Two(i));
      assert Two(i + 1) == Two(i) + Two(i);
    }
  }

  /** The loop of BN_mod_exp_recp, BN_mod_exp_mont and BN_mod_exp_simple: `one` and
      `base` are 1 and `a` in the arithmetic's representation. */
  method SlidingWindow(k: Arith, one: int, base: int, p: nat, ghost a: int) returns (r: int)
    requires ValidArith(k) && one == Rep(k, 1) && base == Rep(k, a) && p > 0
    ensures r == Rep(k, Pow(a, p))
  {
    hide ValidArith, Mul, Rep, High, Pow, WindowBits, OddTable, BitSet, NumBits;
    var bits := NumBits(p);
    var val := new int[TABLE_SIZE](_ => base);
    var window := WindowBits(bits);
    WindowRange(bits);
    OddPowers(k, val, window, a);
    r := one;
    var start := true;
    NumBitsBound(p);
    var wstart: int := bits - 1;
    HighEnds(p);
    NoPower(a);
    while true
      invariant 0 <= wstart < bits && OddTable(k, val[..], window, a)
      invariant r == Rep(k, Pow(a, High(p, wstart + 1))) && (start ==> High(p, wstart + 1) == 0)
      decreases wstart
    {
      if !BitSet(p, wstart) {
        NextZero(p, wstart);
        if !start {
          ghost var h := High(p, wstart + 1);
          r := Mul(k, r, r);
          MulIsProduct(k, Pow(a, h), Pow(a, h));
          PowAdd(a, h, h);
        }
        if wstart == 0 { break; }
        wstart := wstart - 1;
      } else {
        var wvalue, wend := ScanWindow(p, wstart, window);
        r := ApplyWindow(k, r, val, window, start, p, wstart, wvalue, wend, a);
        wstart := wstart - (wend + 1);
        start := false;
        if wstart < 0 { break; }
      }
    }
  }

  lemma NextZero(p: nat, k: nat)
    requires !BitSet(p, k)
    ensures High(p, k) == High(p, k + 1) + High(p, k + 1)
  {
    HighStep(p, k);
  }

  lemma WindowRange(bits: int)
    ensures 1 <= WindowBits(bits) <= 6
  {
  }

  lemma NoPower(a: int)
    ensures Pow(a, 0) == 1
  {
  }

  /** Make room for the window's bits, then multiply by the table's odd power. */
  method ApplyWindow(k: Arith, r0: int, val: array<int>, window: nat, start: bool, p: nat, wstart: nat, wvalue: nat, wend: nat, ghost a: int)
    returns (r: int)
    requires ValidArith(k) && 1 <= window <= 6 && val.Length == TABLE_SIZE
    requires OddTable(k, val[..], window, a)
    requires wend < window && wend <= wstart && wvalue % 2 == 1 && wvalue < Pow(2, wend + 1)
    requires High(p, wstart - wend) == High(p, wstart + 1) * Pow(2, wend + 1) + wvalue
    requires r0 == Rep(k, Pow(a, High(p, wstart + 1))) && (start ==> High(p, wstart + 1) == 0)
    ensures r == Rep(k, Pow(a, High(p, wstart - wend)))
  {
    hide ValidArith, Mul, Rep, High, Pow;
    ghost var h := High(p, wstart + 1);
    ghost var room := h * Two(wend + 1);
    r := r0;
    if !start {
      r := Squarings(k, r, wend + 1, Pow(a, h));
      PowPow(a, h, Two(wend + 1));
    }
    PowMonotone(2, wend + 1, window);
    TableFits(window);
    assert r == Rep(k, Pow(a, room));
    assert val[wvalue / 2] == Rep(k, Pow(a, wvalue)) by { assert 2 * (wvalue / 2) + 1 == wvalue; }
    r := Mul(k, r, val[wvalue / 2]);
    MulIsProduct(k, Pow(a, room), Pow(a, wvalue));
    PowAdd(a, room, wvalue);
  }

  // ----------------------------------------------------------------- the callers

  function Abs(m: int): nat
  {
    if m < 0 then -m else m
  }

  /** a^p modulo m: what the exponentiation functions are for. */
  function PowMod(a: int, p: nat, m: int): int
    requires m != 0
  {
    Pow(a, p) % Abs(m)
  }

  lemma ZeroBase(a: int, p: nat, n: int)
    requires n > 0 && p > 0 && a % n == 0
    ensures Pow(a, p) % n == 0
  {
    MulResidue(a, Pow(a, p - 1), n);
  }

  lemma SameBase(a: int, b: int, p: nat, n: int)
    requires n > 0 && a % n == b % n
    ensures Pow(a, p) % n == Pow(b, p) % n
  {
    if p > 0 {
      SameBase(a, b, p - 1, n);
      MulResidues(a, Pow(a, p - 1), b, Pow(b, p - 1), n);
    }
  }

  /** What a call returns: 1 with the number, 0, or -1 where the constant-time flag of the
      exponent is not supported. */
  datatype Answer = Power(value: int) | Failed | Refused

  /** BN_mod_exp_simple, and BN_mod_exp_recp with its reciprocal in place of BN_mod. */
  method ModExpSimple(a: int, p: nat, m: int, constTime: bool) returns (r: Answer)
    ensures constTime ==> r == Refused
    ensures !constTime && p > 0 ==> r == if m == 0 then Failed else Power(PowMod(a, p, m))
    ensures !constTime && p == 0 ==> r == Power(1)
  {
    if constTime {
      return Refused;
    }
    if NumBits(p) == 0 {
      return Power(1);
    }
    if m == 0 {
      return Failed;
    }
    var n: Positive := Abs(m);
    var val0 := a % n;
    if val0 == 0 {
      ZeroBase(a, p, n);
      return Power(0);
    }
    var k := Plain(n);
    SmallResidue(1, n) by { if n == 1 { Quotient(a, 0, 1); } }
    var x := SlidingWindow(k, 1, val0, p, a);
    r := Power(x);
  }

  /** What BN_mod_exp_mont_consttime returns: the power of the magnitude, and from the
      exponent 2 on with the sign of the base. */
  function SignedPower(a: int, p: nat, n: int): int
    requires n > 0
  {
    var v := Pow(Abs(a), p) % n;
    if a < 0 && p >= 2 then -v else v
  }

  /** What BN_mod_exp_mont answers, with and without the flag. */
  function MontAnswer(a: int, p: nat, m: int, constTime: bool): Answer
  {
    if m % 2 == 0 then Failed
    else if p == 0 then Power(1)
    else Power(if constTime then SignedPower(a, p, Abs(m)) else PowMod(a, p, m))
  }

  /** BN_mod_exp_mont; `c` is the caller's context or what BN_MONT_CTX_set makes. With the
      flag the answer is that of BN_mod_exp_mont_consttime, for which see BnExpConst. */
  method ModExpMont(a: int, p: nat, m: int, c: Mont, constTime: bool) returns (r: Answer)
    requires m % 2 == 1 ==> ValidMont(c) && c.n == Abs(m)
    ensures r == MontAnswer(a, p, m, constTime)
  {
    hide ValidMont, InMont, Redc, ToMont;
    if m % 2 == 0 {
      return Failed;
    }
    if NumBits(p) == 0 {
      return Power(1);
    }
    if constTime {
      return Power(SignedPower(a, p, Abs(m)));
    }
    var aa := if a < 0 || a >= Abs(m) then a % Abs(m) else a;
    SmallResidue(aa, c.n);
    SameBase(a, aa, p, c.n);
    if aa == 0 {
      ZeroBase(a, p, c.n);
      return Power(0);
    }
    ContextRange(c);
    ToMontIsInMont(c, aa);
    ToMontIsInMont(c, 1);
    var x := SlidingWindow(Montgomery(c), ToMont(c, 1), ToMont(c, aa), p, aa);
    FromMontIsResidue(c, Pow(aa, p));
    r := Power(Redc(c, x));
  }

  lemma ContextRange(c: Mont)
    requires ValidMont(c)
    ensures 0 < c.n <= c.r
  {
  }

  // ------------------------------------------------------------ a one-word base

  /** The test for overflow by dividing back is exact. */
  lemma OverflowTest(w: Word, a: Word)
    requires a > 0
    ensures w * a % BASE / a != w <==> w * a >= BASE
  {
    MulMonotone(0, w, a);
    if w * a < BASE {
      SmallResidue(w * a, BASE);
      Quotient(w, 0, a);
    } else {
      DivMod(w * a, BASE);
      var next := w * a % BASE;
      assert w * a / BASE >= 1;
      MulMonotone(1, w * a / BASE, BASE);
      if next / a == w {
        DivMod(next, a);
        assert false;
      }
    }
  }

  /** The accumulator of BN_mod_exp_mont_word: the product r*w, where `r` is in
      Montgomery form or not yet made. */
  ghost predicate Accumulates(c: Mont, one: bool, r: int, w: Word, x: int, power: int)
  {
    w > 0 && (if one then x == 1 else r == InMont(c, x)) && (x * w) % c.n == power % c.n
  }

  /** Moving the word factor into `r`: BN_TO_MONTGOMERY_WORD or BN_MOD_MUL_WORD. */
  method Fold(c: Mont, one: bool, r0: int, w: Word, ghost x: int) returns (r: int)
    requires ValidMont(c) && c.r >= BASE && (if one then x == 1 else r0 == InMont(c, x))
    ensures r == InMont(c, x * w)
  {
    if one {
      r := ToMont(c, w);
      ToMontIsInMont(c, w);
    } else {
      r := r0 * w % c.n;
      MulResidue(x * c.r, w, c.n);
      Associate(x, c.r, w);
      Commute(c.r, w);
      Associate(x, w, c.r);
    }
  }

  /** First, square r*w. */
  method SquareWord(c: Mont, one0: bool, r0: int, w0: Word, ghost x0: int, ghost power: int)
    returns (one: bool, r: int, w: Word, ghost x: int)
    requires ValidMont(c) && c.r >= BASE && Accumulates(c, one0, r0, w0, x0, power)
    ensures Accumulates(c, one, r, w, x, power * power)
  {
    hide ValidMont, InMont, MontMul;
    one, r, w, x := one0, r0, w0, x0;
    var nextW: Word := w * w % BASE;
    OverflowTest(w, w);
    MulResidues(x * w, x * w, power, power, c.n);
    assert (x * w) * (x * w) == (x * x) * (w * w) by { SquareOfProduct(x, w); }
    ghost var whole := x * w;
    if nextW / w != w {
      r := Fold(c, one, r, w, x);
      one, x := false, x * w;
      nextW := 1;
    } else {
      SmallResidue(w * w, BASE);
      PositiveProduct(w, w);
    }
    w := nextW;
    if !one {
      r := MontMul(c, r, r);
      MontMulIsProduct(c, x, x);
    }
    x := x * x;
    assert x * w == whole * whole;
  }

  lemma SquareOfProduct(x: int, w: int)
    ensures (x * w) * (x * w) == (x * x) * (w * w)
  {
    Associate(x, w, x * w);
    Associate(w, x, w);
    Commute(w, x);
    Associate(x, w, w);
    Associate(x, x, w * w);
  }

  /** Second, multiply r*w by `a` if the exponent's bit is set. */
  method MultiplyWord(c: Mont, one0: bool, r0: int, w0: Word, a: Word, ghost x0: int, ghost power: int)
    returns (one: bool, r: int, w: Word, ghost x: int)
    requires ValidMont(c) && c.r >= BASE && a > 0 && Accumulates(c, one0, r0, w0, x0, power)
    ensures Accumulates(c, one, r, w, x, power * a)
  {
    hide ValidMont, InMont;
    one, r, w, x := one0, r0, w0, x0;
    var nextW: Word := w * a % BASE;
    OverflowTest(w, a);
    MulResidues(x * w, a, power, a, c.n);
    Associate(x, w, a);
    if nextW / a != w {
      r := Fold(c, one, r, w, x);
      one, x := false, x * w;
      nextW := a;
    } else {
      SmallResidue(w * a, BASE);
      PositiveProduct(w, a);
    }
    w := nextW;
  }

  /** BN_mod_exp_mont_word; `c` as in ModExpMont, with R at least one word. */
  method ModExpMontWord(a0: Word, p: nat, m: int, c: Mont, constTime: bool) returns (r: Answer)
    requires m % 2 == 1 ==> ValidMont(c) && c.n == Abs(m) && c.r >= BASE
    ensures constTime ==> r == Refused
    ensures !constTime && m % 2 == 0 ==> r == Failed
    ensures !constTime && m % 2 == 1 && p > 0 ==> r == Power(PowMod(a0, p, m))
    ensures !constTime && m % 2 == 1 && p == 0 ==> r == Power(1)
  {
    hide ValidMont, Pow;
    if constTime {
      return Refused;
    }
    if m % 2 == 0 {
      return Failed;
    }
    var n: Positive := Abs(m);
    var a: Word := if n < BASE then a0 % n else a0;
    SameBase(a0, a, p, n) by { if n < BASE { SmallResidue(a, n); } }
    if NumBits(p) == 0 {
      return Power(1);
    }
    if a == 0 {
      ZeroBase(a, p, n) by { SmallResidue(0, n); }
      return Power(0);
    }
    SmallResidue(a, n);
    var x := ExpWordLoop(a, p, c);
    r := Power(x);
  }

  /** The accumulation over the bits below the top one. */
  method ExpWordLoop(a: Word, p: nat, c: Mont) returns (r: int)
    requires ValidMont(c) && c.r >= BASE && p > 0 && a % c.n != 0 && a > 0
    ensures r == Pow(a, p) % c.n
  {
    hide ValidMont, InMont, Redc, High, Pow, Accumulates;
    var bits: int := NumBits(p);
    var one, acc, w := true, 0, a;
    ghost var x := 1;
    AccumulatorStart(c, a, p);
    var b := bits - 2;
    while b >= 0
      invariant -1 <= b <= bits - 2 && Accumulates(c, one, acc, w, x, Pow(a, High(p, b + 1)))
    {
      ghost var power := Pow(a, High(p, b + 1));
      NextBit(a, p, b);
      one, acc, w, x := SquareWord(c, one, acc, w, x, power);
      if BitSet(p, b) {
        one, acc, w, x := MultiplyWord(c, one, acc, w, a, x, power * power);
      }
      b := b - 1;
    }
    r := FinishWord(c, one, acc, w, a, p, x);
  }

  lemma AccumulatorStart(c: Mont, a: Word, p: nat)
    requires a > 0 && p > 0
    ensures NumBits(p) > 0 && Accumulates(c, true, 0, a, 1, Pow(a, High(p, NumBits(p) - 1)))
  {
    NumBitsBound(p);
    HighStep(p, NumBits(p) - 1);
    HighEnds(p);
    TopBit(p);
    assert Pow(a, 1) == a;
  }

  lemma TopBit(p: nat)
    requires p > 0
    ensures NumBits(p) > 0 && High(p, NumBits(p) - 1) > 0
  {
    NumBitsBound(p);
    var n := Pow(2, NumBits(p) - 1);
    DivMod(p, n);
    if p / n <= 0 { MulMonotone(p / n, 0, n); }
  }

  lemma NextBit(a: int, p: nat, b: nat)
    ensures Pow(a, High(p, b + 1)) * Pow(a, High(p, b + 1)) * (if BitSet(p, b) then a else 1) == Pow(a, High(p, b))
  {
    var h := High(p, b + 1);
    HighStep(p, b);
    PowAdd(a, h, h);
    PowAdd(a, h + h, 1);
    assert Pow(a, 1) == a;
  }

  /** Finally r := r*w, out of Montgomery form. */
  method FinishWord(c: Mont, one: bool, r0: int, w: Word, a: Word, p: nat, ghost x: int) returns (r: int)
    requires ValidMont(c) && c.r >= BASE && p > 0 && a % c.n != 0
    requires Accumulates(c, one, r0, w, x, Pow(a, High(p, 0)))
    ensures r == Pow(a, p) % c.n
  {
    hide ValidMont, InMont, Redc, High, Pow;
    HighEnds(p);
    if w == 1 && one {
      AboveOne(a, c.n);
      return 1;
    }
    var acc := r0;
    ghost var y := x;
    if w != 1 {
      acc := Fold(c, one, acc, w, x);
      y := x * w;
    }
    FromMontIsResidue(c, y);
    r := Redc(c, acc);
  }

  lemma AboveOne(a: int, n: int)
    requires n > 0 && a % n != 0
    ensures 1 % n == 1
  {
    if n == 1 { Quotient(a, 0, 1); }
    SmallResidue(1, n);
  }

  // ------------------------------------------- the constant-time flag and the sign

  /** For a negative base the result is right only where it is zero. */
  lemma RightForm(a: int, p: nat, n: int)
    requires n > 0 && n % 2 == 1 && p > 0
    ensures SignedPower(a, p, n) == PowMod(a, p, n) <==> a >= 0 || Pow(a, p) % n == 0
  {
    hide Pow;
    if a < 0 {
      PowerOfNegative(-a, p);
      NegatedResidue(Pow(-a, p), n);
      if p == 1 { FirstPower(a); FirstPower(-a); OppositeResidues(-a, n); }
    }
  }

  /** It is in the right residue class also for an odd exponent of 3 or more. */
  lemma RightClass(a: int, p: nat, n: int)
    requires n > 0 && n % 2 == 1 && p > 0
    ensures SignedPower(a, p, n) % n == PowMod(a, p, n) <==> a >= 0 || Pow(a, p) % n == 0 || (p % 2 == 1 && p >= 3)
  {
    hide Pow;
    var v := Pow(Abs(a), p);
    DivMod(v, n);
    SmallResidue(v % n, n);
    if a < 0 {
      PowerOfNegative(-a, p);
      NegatedResidue(v, n);
      NegatedResidue(v % n, n);
      OppositeResidues(v, n);
      if p == 1 { FirstPower(a); FirstPower(-a); }
    }
  }

  lemma {:induction false} PowerOfNegative(b: int, p: nat)
    ensures Pow(-b, p) == if p % 2 == 0 then Pow(b, p) else -Pow(b, p)
  {
    if p > 0 {
      PowerOfNegative(b, p - 1);
      Signs(b, Pow(b, p - 1));
    }
  }

  lemma Signs(x: int, y: int)
    ensures (-x) * y == -(x * y) && (-x) * (-y) == x * y
  {
  }

  lemma NegatedResidue(v: int, n: int)
    requires n > 0
    ensures (-v) % n == if v % n == 0 then 0 else n - v % n
  {
    DivMod(v, n);
    var q, r := v / n, v % n;
    Distribute(-q, 1, n);
    Signs(q, n);
    if r == 0 { Quotient(-q, 0, n); } else { Quotient(-q - 1, n - r, n); }
  }

  /** Modulo an odd number nothing but zero is its own negative. */
  lemma OppositeResidues(v: int, n: int)
    requires n > 0 && n % 2 == 1
    ensures v % n == (-v) % n <==> v % n == 0
  {
    NegatedResidue(v, n);
  }

  /** (-1)^2 modulo 3 comes out as -1. */
  lemma NegativeSquare()
    ensures SignedPower(-1, 2, 3) == -1 && PowMod(-1, 2, 3) == 1
  {
    assert Pow(1, 1) == 1 && Pow(1, 2) == 1 && Pow(-1, 1) == -1 && Pow(-1, 2) == 1;
  }

  lemma FirstPower(a: int)
    ensures Pow(a, 1) == a
  {
    assert Pow(a, 0) == 1;
  }

  // ------------------------------------------------------------------- dispatch

  /** BN_mod_exp: the answer is the power modulo |m| except for the exponent zero and the
      modulus one, where it is 1 and not 0, and with the constant-time flag for negative
      bases. `c` is the context MontCtxSet makes. */
  method ModExp(a: int, p: nat, m: int, c: Mont, constTime: bool) returns (r: Answer)
    requires m % 2 == 1 ==> ValidMont(c) && c.n == Abs(m) && c.r >= BASE
    ensures constTime && m % 2 == 0 ==> r == Refused
    ensures !constTime && m == 0 ==> r == if p == 0 then Power(1) else Failed
    ensures m % 2 == 1 || (m != 0 && !constTime) ==>
              r.Power? && (r == Power(PowMod(a, p, m)) <==>
                !(p == 0 && Abs(m) == 1) && !(constTime && p > 0 && a < 0 && PowMod(a, p, m) != 0))
  {
    hide ValidMont, Pow, SignedPower;
    if m != 0 && p == 0 { NothingToMultiply(a, m); }
    if m % 2 == 1 {
      if p > 0 { RightForm(a, p, Abs(m)); }
      if 0 < a < BASE && !constTime {
        r := ModExpMontWord(a, p, m, c, constTime);
      } else {
        r := ModExpMont(a, p, m, c, constTime);
      }
    } else {
      r := ModExpSimple(a, p, m, constTime);
    }
  }

  lemma NothingToMultiply(a: int, m: int)
    requires m != 0
    ensures PowMod(a, 0, m) == 1 <==> Abs(m) != 1
  {
    if Abs(m) > 1 { SmallResidue(1, Abs(m)); } else { Quotient(1, 0, 1); }
  }
}

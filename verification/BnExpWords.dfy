/** BN_mod_exp_mont on BIGNUMs (crypto/bn/bn_exp.c): the sliding window with every
    product a word-by-word Montgomery reduction. */
module BnExpWords {
  import opened BnModular
  import opened BnWords
  import opened BnMontgomery
  import opened BnContext
  import opened Bignum
  import opened BnReduce
  import opened BnModMul
  import opened BnExp

  // --------------------------------------------------------- bits of an exponent

  /** BN_is_bit_set */
  predicate IsBitSet(p: Bignum, k: nat)
    requires p.Valid()
    reads p, p.d
  {
    k / BN_BITS2 < p.top && p.d[k / BN_BITS2] / Two(k % BN_BITS2) % 2 == 1
  }

  /** The words' bits are the number's. */
  lemma BitOfWords(p: Bignum, k: nat)
    requires p.Valid()
    ensures IsBitSet(p, k) <==> BitSet(p.Magnitude(), k)
  {
    hide Val, P, Pow;
    var i, j, s := k / BN_BITS2, k % BN_BITS2, p.Words();
    PowAdd(2, BN_BITS2 * i, j);
    PowerOfBase(i);
    PowPositive(2, j);
    Powers(i);
    if i >= p.top {
      ValBound(s);
      PowerGrows(p.top, i);
      MulMonotone(1, Pow(2, j), P(i));
      Commute(P(i), Pow(2, j));
      Quotient(0, p.Magnitude(), P(i) * Pow(2, j));
    } else {
      ValSplit(s, i);
      ValBound(s[..i]);
      HighWords(s[i..]);
      BitAbove(Val(s), Val(s[..i]), P(i), s[i], Val(s[i + 1..]), j);
    }
  }

  lemma HighWords(s: seq<Word>)
    requires s != []
    ensures Val(s) == s[0] + BASE * Val(s[1..])
  {
  }

  lemma BitAbove(v: nat, low: nat, p: int, w: Word, above: nat, j: nat)
    requires p > 0 && low < p && v == low + p * (w + BASE * above) && j < BN_BITS2
    ensures p * Two(j) > 0 && (v / (p * Two(j))) % 2 == w / Two(j) % 2
  {
    hide Pow, Two;
    var q, half := Two(j), Two(BN_BITS2 - 1 - j);
    WordParts(j);
    PositiveProduct(p, q);
    DivMod(w, q);
    EvenAbove(q, half, above);
    Regroup(v, low, p, q, w, w / q, w % q, 2 * (half * above), BASE * above);
    BelowUnit(low, p, q, w % q);
    HighParity(v, w / q, half * above, low + p * (w % q), p * q);
  }

  lemma HighParity(v: int, d: int, e: int, low: int, unit: int)
    requires 0 <= low < unit && v == (d + 2 * e) * unit + low
    ensures v / unit % 2 == d % 2
  {
    Quotient(d + 2 * e, low, unit);
  }

  lemma WordParts(j: nat)
    requires j < BN_BITS2
    ensures 2 * (Two(j) * Two(BN_BITS2 - 1 - j)) == BASE
  {
    hide Pow;
    PowAdd(2, j, BN_BITS2 - 1 - j);
    PowAdd(2, 1, BN_BITS2 - 1);
    TwoTo32();
    TwoIs();
  }

  lemma BelowUnit(low: int, p: int, q: int, m: int)
    requires 0 <= low < p && 0 <= m < q
    ensures 0 <= low + p * m < p * q
  {
    MulMonotone(m + 1, q, p);
    Distribute(m, 1, p);
    MulMonotone(0, m, p);
  }

  lemma TwoIs()
    ensures Pow(2, 1) == 2
  {
  }

  lemma EvenAbove(q: int, half: int, above: int)
    requires 2 * (q * half) == BASE
    ensures (2 * (half * above)) * q == BASE * above
  {
    Associate(half, above, q);
    Commute(above, q);
    Associate(half, q, above);
    Commute(half, q);
  }

  lemma Regroup(v: int, low: int, p: int, q: int, w: int, d: int, m: int, e: int, rest: int)
    requires v == low + p * (w + rest) && w == d * q + m && e * q == rest
    ensures v == (d + e) * (p * q) + (low + p * m)
  {
    Distribute(d * q + e * q, m, p);
    Distribute(d, e, q);
    Associate(p, d + e, q);
    Commute(p, d + e);
    Associate(d + e, p, q);
  }

  /** BN_num_bits */
  function BitLength(p: Bignum): nat
    requires p.Valid()
    reads p, p.d
  {
    if p.IsZero() then 0 else (p.top - 1) * BN_BITS2 + NumBits(p.d[p.top - 1])
  }

  lemma BitLengthOfWords(p: Bignum)
    requires p.Valid() && p.Normal()
    ensures BitLength(p) == NumBits(p.Magnitude())
    ensures BitLength(p) == 0 <==> p.Magnitude() == 0
  {
    hide Val, P, Pow, NumBits;
    var s, v := p.Words(), p.Magnitude();
    NumBitsBound(v);
    MacrosAgree(p, 0);
    if v == 0 {
      NoBits();
    } else {
      var i: nat, w: int := p.top - 1, p.d[p.top - 1];
      assert s == s[..i] + [w];
      ValSnoc(s[..i], w);
      ValBound(s[..i]);
      NumBitsBound(w);
      PowerOfBase(i);
      PowAdd(2, BN_BITS2 * i, NumBits(w));
      PowAdd(2, BN_BITS2 * i, NumBits(w) - 1);
      Powers(i);
      MulMonotone(w + 1, Pow(2, NumBits(w)), P(i));
      MulMonotone(Pow(2, NumBits(w) - 1), w, P(i));
      Distribute(w, 1, P(i));
      BitsAreUnique(v, BN_BITS2 * i + NumBits(w));
    }
  }

  lemma NoBits()
    ensures NumBits(0) == 0
  {
  }

  lemma BitsAreUnique(v: nat, k: nat)
    requires v > 0 && k > 0 && Pow(2, k - 1) <= v < Pow(2, k)
    ensures NumBits(v) == k
  {
    hide Pow, NumBits;
    NumBitsBound(v);
    if NumBits(v) > k { PowMonotone(2, k, NumBits(v) - 1); }
    if NumBits(v) < k { PowMonotone(2, NumBits(v), k - 1); }
  }

  // ------------------------------------------------------------------- products

  /** The modulus of a context, as BN_MONT_CTX_set stores it. */
  ghost predicate Modulus(n: Bignum, n0: Word, c: Mont)
    reads n, n.d
  {
    n.Valid() && n.top > 0 && !n.neg && Suits(n, n0, c)
  }

  /** `b` has the magnitude of `x` in Montgomery form. */
  ghost predicate Holds(b: Bignum, c: Mont, x: int)
    reads b, b.d
  {
    b.Valid() && b.Normal() && b.Magnitude() == InMont(c, x)
  }

  lemma FormsFit(n: Bignum, n0: Word, c: Mont, x: int, y: int)
    requires Modulus(n, n0, c)
    ensures ValidMont(c) && n.Valid() && n.top > 0 && !n.neg && Suits(n, n0, c)
    ensures 0 <= InMont(c, x) < c.n <= c.r && InMont(c, x) * InMont(c, y) < c.r * c.n
  {
    ProductInRange(c, InMont(c, x), InMont(c, y));
  }

  lemma Held(b: Bignum, c: Mont, x: int)
    requires Holds(b, c, x)
    ensures b.Valid() && b.Normal() && b.Magnitude() == InMont(c, x)
  {
  }

  /** A number below the weight of the modulus has no more words. */
  lemma FewWords(b: Bignum, n: Bignum)
    requires b.Valid() && b.Normal() && n.Valid() && b.Magnitude() < P(n.top)
    ensures b.top <= n.top
  {
    hide Val, P;
    if b.top > n.top {
      NormalBound(b);
      PowerGrows(n.top, b.top - 1);
    }
  }

  lemma Fits(b: Bignum, n: Bignum, n0: Word, c: Mont, x: int)
    requires Holds(b, c, x) && Modulus(n, n0, c)
    ensures b.Valid() && b.Normal() && b.top <= n.top
  {
    hide Val, P;
    FormsFit(n, n0, c, x, x);
    SuitsMeans(n, n0, c);
    FewWords(b, n);
  }

  /** BN_mod_mul_montgomery on numbers in Montgomery form, signs included. */
  method Times(memory: Memory, r: Bignum, a: Bignum, b: Bignum, n: Bignum, n0: Word, ghost c: Mont, ghost x: int, ghost y: int) returns (ok: bool)
    requires r.Valid() && Holds(a, c, x) && Holds(b, c, y) && Modulus(n, n0, c) && r != n && r.d != n.d
    modifies r, r.d, memory
    ensures memory.Refused() >= old(memory.Refused())
    ensures ok <==> 2 * n.top <= 16777215 && old(r.CanHold(n.top)) && memory.Refused() == old(memory.Refused())
    ensures ok ==> n.top <= r.d.Length
    ensures r.Valid() && (r.d == old(r.d) || fresh(r.d))
    ensures ok ==> Holds(r, c, x * y) && r.neg == old(a.top > 0 && b.top > 0 && a.neg != b.neg)
  {
    hide Suits, ValidMont, InMont, MontMul, Holds, Modulus;
    FormsFit(n, n0, c, x, y);
    Held(a, c, x);
    Held(b, c, y);
    Fits(a, n, n0, c, x);
    Fits(b, n, n0, c, y);
    MontMulIsProduct(c, x, y);
    ok := ModMulMontgomery(memory, r, a, b, n, n0, c);
    if ok { IsHeld(r, c, x * y); }
  }

  lemma IsHeld(b: Bignum, c: Mont, x: int)
    requires b.Valid() && b.Normal() && b.Magnitude() == InMont(c, x)
    ensures Holds(b, c, x)
  {
  }

  /** The product in a number of its own. */
  method FreshProduct(memory: Memory, a: Bignum, b: Bignum, n: Bignum, n0: Word, ghost c: Mont, ghost x: int, ghost y: int)
    returns (ok: bool, r: Bignum)
    requires Holds(a, c, x) && Holds(b, c, y) && Modulus(n, n0, c) && !a.neg && !b.neg
    modifies memory
    ensures memory.Refused() >= old(memory.Refused())
    ensures ok <==> 2 * n.top <= 16777215 && memory.Refused() == old(memory.Refused())
    ensures fresh(r) && fresh(r.d) && r.Valid()
    ensures ok ==> Holds(r, c, x * y) && !r.neg
  {
    r := new Bignum(0, false);
    ok := Times(memory, r, a, b, n, n0, c, x, y);
  }

  // ------------------------------------------------------------------- the table

  ghost predicate OddOnes(val: seq<Bignum>, count: nat, c: Mont, a: int)
    reads val, set i | 0 <= i < |val| :: val[i].d
  {
    count <= |val| && forall i: nat :: i < count ==> Holds(val[i], c, Pow(a, 2 * i + 1)) && !val[i].neg
  }

  /** val[i] becomes the power 2i + 1 of the base. */
  method FillTable(memory: Memory, val: array<Bignum>, window: nat, n: Bignum, n0: Word, ghost c: Mont, ghost a: int) returns (ok: bool)
    requires 1 <= window <= 6 && val.Length == TABLE_SIZE && Modulus(n, n0, c)
    requires Holds(val[0], c, a) && !val[0].neg
    modifies val, memory
    ensures memory.Refused() >= old(memory.Refused())
    ensures !ok ==> memory.Refused() > old(memory.Refused()) || 2 * n.top > 16777215
    ensures ok ==> OddOnes(val[..], Two(window - 1), c, a)
  {
    hide Holds, Modulus, Pow, InMont, Val, P, Refusals;
    FirstOdd(a);
    TableFits(window);
    var j := Two(window - 1);
    if window == 1 {
      TwoIs();
      PowZero();
      return true;
    }
    var d;
    ok, d := FreshProduct(memory, val[0], val[0], n, n0, c, a, a);
    if !ok { return; }
    var i := 1;
    while i < j
      invariant 1 <= i <= j && Holds(d, c, a * a) && !d.neg && Modulus(n, n0, c)
      invariant OddOnes(val[..], i, c, a)
      invariant memory.Refused() >= old(memory.Refused())
    {
      var next;
      ok, next := FreshProduct(memory, val[i - 1], d, n, n0, c, Pow(a, 2 * i - 1), a * a);
      if !ok { return; }
      NextOddPower(a, 2 * i - 1);
      val[i] := next;
      i := i + 1;
    }
  }

  lemma FirstOdd(a: int)
    ensures Pow(a, 2 * 0 + 1) == a
  {
    FirstPower(a);
  }

  lemma PowZero()
    ensures Pow(2, 0) == 1
  {
  }

  // -------------------------------------------------------------------- the loop

  /** The conversion factor of a context. */
  ghost predicate Factor(rr: Bignum, c: Mont)
    reads rr, rr.d
  {
    rr.Valid() && rr.Normal() && !rr.neg && rr.Magnitude() == RR(c)
  }

  /** BN_to_montgomery */
  method ToMontgomery(memory: Memory, r: Bignum, a: Bignum, rr: Bignum, n: Bignum, n0: Word, ghost c: Mont) returns (ok: bool)
    requires r.Valid() && a.Valid() && a.Normal() && a.Magnitude() < c.r
    requires Factor(rr, c) && Modulus(n, n0, c) && r != n && r.d != n.d
    modifies r, r.d, memory
    ensures memory.Refused() >= old(memory.Refused())
    ensures ok <==> 2 * n.top <= 16777215 && old(r.CanHold(n.top)) && memory.Refused() == old(memory.Refused())
    ensures ok ==> n.top <= r.d.Length
    ensures r.Valid() && (r.d == old(r.d) || fresh(r.d))
    ensures ok ==> Holds(r, c, old(a.Magnitude())) && r.neg == old(a.neg && a.top > 0 && rr.top > 0)
  {
    hide Suits, ValidMont, InMont, MontMul, Modulus, RR;
    FormsFit(n, n0, c, 0, 0);
    FactorFits(c, a.Magnitude());
    ToMontIsInMont(c, a.Magnitude());
    SuitsMeans(n, n0, c);
    ContextRange(c);
    FewWords(a, n);
    FewWords(rr, n);
    ok := ModMulMontgomery(memory, r, a, rr, n, n0, c);
  }

  lemma FactorFits(c: Mont, a: int)
    requires ValidMont(c)
    ensures 0 <= RR(c) < c.n && (0 <= a <= c.r ==> a * RR(c) < c.r * c.n)
  {
    if !(0 <= a <= c.r) { return; }
    MulMonotone(a, c.r, RR(c));
    MulStrict(RR(c), c.n, c.r);
    Commute(RR(c), c.r);
    Commute(c.n, c.r);
  }

  /** Square `count` times. */
  method SquareTimes(memory: Memory, r: Bignum, count: nat, n: Bignum, n0: Word, ghost c: Mont, ghost x: int) returns (ok: bool)
    requires Holds(r, c, x) && !r.neg && Modulus(n, n0, c) && r != n && r.d != n.d
    modifies r, r.d, memory
    ensures memory.Refused() >= old(memory.Refused())
    ensures !ok ==> memory.Refused() > old(memory.Refused()) || 2 * n.top > 16777215 || !old(r.CanHold(n.top))
    ensures ok && count > 0 ==> n.top <= r.d.Length
    ensures ok && count == 0 ==> r.d == old(r.d)
    ensures r.Valid() && (r.d == old(r.d) || fresh(r.d))
    ensures ok ==> Holds(r, c, Pow(x, Two(count))) && !r.neg
  {
    hide Holds, Modulus, Pow, InMont;
    OncePower(x);
    ok := true;
    Held(r, c, x);
    for i := 0 to count
      invariant Holds(r, c, Pow(x, Two(i))) && !r.neg && r.Valid() && (r.d == old(r.d) || fresh(r.d))
      invariant Modulus(n, n0, c) && r.d != n.d
      invariant memory.Refused() >= old(memory.Refused()) && (if i == 0 then r.d == old(r.d) else n.top <= r.d.Length)
    {
      ghost var y := Pow(x, Two(i));
      ok := Times(memory, r, r, r, n, n0, c, y, y);
      if !ok { return; }
      TwicePower(x, i);
    }
  }

  lemma OncePower(x: int)
    ensures Pow(x, Two(0)) == x
  {
    assert Pow(2, 0) == 1 && Pow(x, 0) == 1;
  }

  lemma TwicePower(x: int, i: nat)
    ensures Pow(x, Two(i)) * Pow(x, Two(i)) == Pow(x, Two(i + 1))
  {
    PowAdd(x, Two(i), Two(i));
  }

  /** The scan of ScanWindow, on the words of the exponent. */
  method ScanBits(p: Bignum, wstart: nat, window: nat) returns (wvalue: nat, wend: nat)
    requires p.Valid() && IsBitSet(p, wstart) && window >= 1
    ensures wend < window && wend <= wstart && wvalue % 2 == 1 && wvalue < Two(wend + 1)
    ensures High(p.Magnitude(), wstart - wend) == High(p.Magnitude(), wstart + 1) * Two(wend + 1) + wvalue
  {
    hide IsBitSet, BitSet, High, Val, Pow;
    ghost var e := p.Magnitude();
    wvalue, wend := 1, 0;
    BitOfWords(p, wstart);
    ScanStart(e, wstart);
    var i := 1;
    while i < window
      invariant 1 <= i <= window && Scanned(e, wstart, i, wvalue, wend)
    {
      if wstart - i < 0 { break; }
      BitOfWords(p, wstart - i);
      if IsBitSet(p, wstart - i) {
        ScanOne(e, wstart, i, wvalue, wend);
        wvalue := wvalue * Pow(2, i - wend) + 1;
        wend := i;
      } else {
        ScanZero(e, wstart, i, wvalue, wend);
      }
      i := i + 1;
    }
  }

  /** Make room for the window's bits, then multiply by the table's odd power. */
  method TakeWindow(memory: Memory, r: Bignum, val: array<Bignum>, window: nat, start: bool, wvalue: nat, wend: nat, n: Bignum, n0: Word, ghost c: Mont,
    ghost a: int, ghost h: nat) returns (ok: bool)
    requires 1 <= window <= 6 && val.Length == TABLE_SIZE && OddOnes(val[..], Two(window - 1), c, a)
    requires wend < window && wvalue % 2 == 1 && wvalue < Two(wend + 1)
    requires Holds(r, c, Pow(a, h)) && !r.neg && (start ==> h == 0) && Modulus(n, n0, c) && r != n && r.d != n.d
    requires forall i :: 0 <= i < val.Length ==> val[i] != r && val[i].d != r.d
    modifies r, r.d, memory
    ensures memory.Refused() >= old(memory.Refused())
    ensures !ok ==> memory.Refused() > old(memory.Refused()) || 2 * n.top > 16777215 || !old(r.CanHold(n.top))
    ensures ok ==> n.top <= r.d.Length
    ensures r.Valid() && (r.d == old(r.d) || fresh(r.d))
    ensures ok ==> Holds(r, c, Pow(a, h * Two(wend + 1) + wvalue)) && !r.neg
  {
    hide Holds, Modulus, Pow, InMont, Two;
    ghost var room := h * Two(wend + 1);
    Held(r, c, Pow(a, h));
    if !start {
      PowPow(a, h, Two(wend + 1));
      ok := SquareTimes(memory, r, wend + 1, n, n0, c, Pow(a, h));
      if !ok { return; }
    }
    WindowIndex(window, wend, wvalue);
    PowAdd(a, room, wvalue);
    ok := Times(memory, r, r, val[wvalue / 2], n, n0, c, Pow(a, room), Pow(a, wvalue));
  }

  /** A bit that is not set: one squaring, but for leading ones. */
  method PassZero(memory: Memory, r: Bignum, start: bool, n: Bignum, n0: Word, ghost c: Mont, ghost a: int, ghost h: nat) returns (ok: bool)
    requires Holds(r, c, Pow(a, h)) && !r.neg && (start ==> h == 0) && Modulus(n, n0, c) && r != n && r.d != n.d
    modifies r, r.d, memory
    ensures memory.Refused() >= old(memory.Refused())
    ensures !ok ==> memory.Refused() > old(memory.Refused()) || 2 * n.top > 16777215 || !old(r.CanHold(n.top))
    ensures r.Valid() && (r.d == old(r.d) || fresh(r.d))
    ensures ok ==> if start then r.d == old(r.d) else n.top <= r.d.Length
    ensures ok ==> Holds(r, c, Pow(a, h + h)) && !r.neg
  {
    hide Holds, Modulus, Pow, InMont;
    ok := true;
    Held(r, c, Pow(a, h));
    if !start {
      PowAdd(a, h, h);
      ok := Times(memory, r, r, r, n, n0, c, Pow(a, h), Pow(a, h));
    }
  }

  lemma WindowIndex(window: nat, wend: nat, wvalue: nat)
    requires 1 <= window <= 6 && wend < window && wvalue % 2 == 1 && wvalue < Two(wend + 1)
    ensures wvalue / 2 < Two(window - 1) <= TABLE_SIZE && 2 * (wvalue / 2) + 1 == wvalue
  {
    PowMonotone(2, wend + 1, window);
    TableFits(window);
  }

  /** The loop of BN_mod_exp_mont over the bits of the exponent, from the top. */
  method WindowLoop(memory: Memory, val: array<Bignum>, window: nat, p: Bignum, rr: Bignum, n: Bignum, n0: Word, ghost c: Mont, ghost a: int)
    returns (ok: bool, r: Bignum)
    requires 1 <= window <= 6 && val.Length == TABLE_SIZE && OddOnes(val[..], Two(window - 1), c, a)
    requires p.Valid() && p.Normal() && p.Magnitude() > 0 && Factor(rr, c) && Modulus(n, n0, c)
    modifies memory
    ensures memory.Refused() >= old(memory.Refused())
    ensures !ok ==> memory.Refused() > old(memory.Refused()) || 2 * n.top > 16777215
    ensures fresh(r) && fresh(r.d) && r.Valid()
    ensures ok ==> Holds(r, c, Pow(a, p.Magnitude())) && !r.neg
  {
    hide Holds, Modulus, Factor, OddOnes, Pow, InMont, Two, High, BitSet, IsBitSet, NumBits, Val, P, BitLength, Refusals;
    ghost var e := p.Magnitude();
    BitLengthOfWords(p);
    HighEnds(e);
    NoPower(a);
    var bits: nat := BitLength(p);
    var one := ValueOne();
    OneFits(n, n0, c);
    r := new Bignum(0, false);
    ok := ToMontgomery(memory, r, one, rr, n, n0, c);
    if !ok { return; }
    var start := true;
    var wstart: int := bits - 1;
    while true
      invariant 0 <= wstart < bits && ok && fresh(r) && fresh(r.d) && r.Valid()
      invariant Holds(r, c, Pow(a, High(e, wstart + 1))) && !r.neg && (start ==> High(e, wstart + 1) == 0)
      invariant memory.Refused() >= old(memory.Refused()) && n.top <= r.d.Length
      decreases wstart
    {
      BitOfWords(p, wstart);
      ghost var h := High(e, wstart + 1);
      if !IsBitSet(p, wstart) {
        NextZero(e, wstart);
        ok := PassZero(memory, r, start, n, n0, c, a, h);
        if !ok { return; }
        if wstart == 0 { break; }
        wstart := wstart - 1;
      } else {
        var wvalue, wend := ScanBits(p, wstart, window);
        ok := TakeWindow(memory, r, val, window, start, wvalue, wend, n, n0, c, a, h);
        if !ok { return; }
        wstart := wstart - (wend + 1);
        start := false;
        if wstart < 0 { break; }
      }
    }
  }

  lemma OneFits(n: Bignum, n0: Word, c: Mont)
    requires Modulus(n, n0, c)
    ensures 1 < c.r
  {
    PowersAtLeast(n.top);
  }

  // ------------------------------------------------------------- BN_mod_exp_mont

  /** `b` is the number `x` of a residue class: what the table and the loop start from. */
  ghost predicate IsResidue(b: Bignum, x: int, n: int)
    reads b, b.d
  {
    b.Valid() && b.Normal() && b.Value() == x && 0 <= x < n
  }

  lemma ResidueSign(b: Bignum, x: int, n: int)
    requires IsResidue(b, x, n)
    ensures 0 <= x < n && b.Valid() && b.Normal() && b.Magnitude() == x && !(b.neg && b.top > 0) && (b.IsZero() <==> x == 0)
  {
    hide Val, P;
    MacrosAgree(b, 0);
    if b.top > 0 {
      NormalBound(b);
      PowersPositive(b.top - 1);
    }
  }

  lemma PowersPositive(k: nat)
    ensures P(k) > 0
  {
    Powers(k);
  }

  /** The part after the arguments are checked; `aa` is the base, below the modulus. */
  method ExpOfResidue(memory: Memory, ret: Bignum, aa: Bignum, p: Bignum, rr: Bignum, n: Bignum, n0: Word, ghost c: Mont, ghost x: int) returns (ok: bool)
    requires ret.Valid() && IsResidue(aa, x, c.n) && p.Valid() && p.Normal() && p.Magnitude() > 0
    requires Modulus(n, n0, c) && Factor(rr, c) && ret != n && ret.d != n.d
    modifies ret, ret.d, memory
    ensures memory.Refused() >= old(memory.Refused())
    ensures !ok ==> memory.Refused() > old(memory.Refused()) || 2 * n.top > 16777215 || !old(ret.CanHold(n.top))
    ensures ret.Valid() && (ret.d == old(ret.d) || fresh(ret.d))
    ensures ok ==> ret.Normal() && ret.Value() == Pow(x, old(p.Magnitude())) % c.n
  {
    hide Holds, Modulus, Factor, Pow, InMont, Two, High, IsResidue, OddOnes, Val, BitLength, WindowBits, Redc, Suits, ValidMont;
    FormsFit(n, n0, c, x, 0);
    ResidueSign(aa, x, c.n);
    if aa.IsZero() {
      BitLengthOfWords(p);
      ZeroBase(x, p.Magnitude(), c.n) by { SmallResidue(0, c.n); }
      var stored := SetWord(memory, ret, 0);
      return true;
    }
    var base := new Bignum(0, false);
    ok := ToMontgomery(memory, base, aa, rr, n, n0, c);
    if !ok { return; }
    var val := new Bignum[TABLE_SIZE](_ => base);
    var window := WindowBits(BitLength(p));
    WindowRange(BitLength(p));
    ok := FillTable(memory, val, window, n, n0, c, x);
    if !ok { return; }
    var r;
    ok, r := WindowLoop(memory, val, window, p, rr, n, n0, c, x);
    if !ok { return; }
    ok := OutOfForm(memory, ret, r, n, n0, c, Pow(x, p.Magnitude()));
  }

  /** The last step: a number in Montgomery form into its residue. */
  method OutOfForm(memory: Memory, ret: Bignum, r: Bignum, n: Bignum, n0: Word, ghost c: Mont, ghost x: int) returns (ok: bool)
    requires ret.Valid() && Holds(r, c, x) && Modulus(n, n0, c) && ret != n && ret.d != n.d
    modifies ret, ret.d, memory
    ensures memory.Refused() >= old(memory.Refused())
    ensures ok <==> 2 * n.top <= 16777215 && old(ret.CanHold(n.top)) && memory.Refused() == old(memory.Refused())
    ensures ret.Valid() && (ret.d == old(ret.d) || fresh(ret.d))
    ensures ok ==> ret.Normal() && ret.Magnitude() == x % c.n && ret.neg == old(r.neg)
  {
    hide Holds, Modulus, InMont, Val, Redc, Suits, ValidMont;
    FormsFit(n, n0, c, x, x);
    Held(r, c, x);
    Fits(r, n, n0, c, x);
    FromMontIsResidue(c, x);
    MulMonotone(1, c.r, c.n);
    ok := FromMontgomery(memory, ret, r, n, n0, c);
  }

  /** BN_mod_exp_mont; `n`, `n0` and `rr` are the context for `m`, `nn` is what BN_nnmod
      makes of `a`. The result may be any of the arguments. */
  method ModExpMontWords(memory: Memory, ret: Bignum, a: Bignum, nn: Bignum, p: Bignum, m: Bignum, rr: Bignum, n: Bignum, n0: Word, ghost c: Mont)
    returns (ok: bool)
    requires ret.Valid() && a.Valid() && a.Normal() && p.Valid() && p.Normal() && m.Valid() && m.Normal()
    requires m.IsOdd() ==> Modulus(n, n0, c) && Factor(rr, c) && c.n == m.Magnitude() && IsResidue(nn, a.Value() % c.n, c.n)
    requires ret != n && ret.d != n.d
    modifies ret, ret.d, memory
    ensures memory.Refused() >= old(memory.Refused())
    ensures !ok ==> old(!m.IsOdd()) || memory.Refused() > old(memory.Refused()) || 2 * n.top > 16777215 || !old(ret.CanHold(n.top))
    ensures ret.Valid()
    ensures old(!m.IsOdd()) ==> !ok
    ensures ok && old(p.Magnitude()) == 0 ==> ret.Value() == 1
    ensures ok && old(p.Magnitude()) > 0 ==> ret.Value() == old(Pow(a.Value(), p.Magnitude()) % c.n)
  {
    hide Modulus, Factor, Pow, Val, BitLength, Suits, ValidMont;
    if !m.IsOdd() {
      return false;
    }
    BitLengthOfWords(p);
    FormsFit(n, n0, c, 0, 0);
    if BitLength(p) == 0 {
      ok := SetWord(memory, ret, 1);
      return;
    }
    ghost var x := a.Value() % c.n;
    SmallResidue(x, c.n);
    SameBase(a.Value(), x, p.Magnitude(), c.n);
    var aa := nn;
    if !a.neg {
      var cmp := Ucmp(a, m);
      if cmp < 0 {
        SmallResidue(a.Magnitude(), c.n);
        aa := a;
      }
    }
    ok := ExpOfResidue(memory, ret, aa, p, rr, n, n0, c, x);
  }
}

/** BN_copy, BN_ucmp, BN_mod_mul_montgomery and BN_from_montgomery on BIGNUMs
    (crypto/bn/bn_lib.c, bn_mont.c). */
module BnModMul {
  import opened BnModular
  import opened BnWords
  import opened BnMontgomery
  import opened Bignum
  import opened BnReduce
  import opened BnMul
  import opened BnSquare

  /** BN_copy */
  method Copy(memory: Memory, a: Bignum, b: Bignum) returns (ok: bool)
    requires a.Valid() && b.Valid() && (a == b || a.d != b.d)
    modifies a, a.d, memory
    ensures memory.Refused() >= old(memory.Refused())
    ensures ok <==> (a == b || old(a.CanHold(b.top))) && memory.Refused() == old(memory.Refused())
    ensures a.Valid() && (a.d == old(a.d) || (fresh(a.d) && a.d.Length <= 16777215))
    ensures ok ==> a.Words() == old(b.Words()) && a.neg == old(b.neg)
  {
    if a == b {
      return true;
    }
    ok := a.WExpand(memory, b.top);
    if !ok { return; }
    CopyWords(a.d, b.d, b.top);
    a.top := b.top;
    a.neg := b.neg;
  }

  /** BN_set_word, and with it BN_one and BN_zero. It fails on a number without storage alone. */
  method SetWord(memory: Memory, a: Bignum, w: Word) returns (ok: bool)
    requires a.Valid()
    modifies a, a.d, memory
    ensures memory.Refused() >= old(memory.Refused())
    ensures ok <==> (old(a.d.Length) > 0 || !a.staticData) && memory.Refused() == old(memory.Refused())
    ensures a.Valid() && (a.d == old(a.d) || fresh(a.d))
    ensures ok ==> a.Normal() && a.Value() == w
    ensures !ok ==> a.top == 0 == a.Value()
  {
    ok := a.Expand(memory, BN_BITS2);
    if !ok {
      NoWords(a);
      return;
    }
    a.neg := false;
    a.d[0] := w;
    a.top := if w != 0 then 1 else 0;
    assert a.Words() == if w != 0 then [w] else [];
    One(w);
  }

  /** BN_value_one */
  method ValueOne() returns (one: Bignum)
    ensures fresh(one) && fresh(one.d) && one.Valid() && one.Normal() && one.Magnitude() == 1 && !one.neg
  {
    one := new Bignum(1, true);
    one.d[0] := 1;
    one.top := 1;
    assert one.Words() == [1];
    One(1);
  }

  /** BN_ucmp: the sign of |a| - |b|, from the lengths or the first words that differ. */
  method Ucmp(a: Bignum, b: Bignum) returns (r: int)
    requires a.Valid() && b.Valid() && a.Normal() && b.Normal()
    ensures r > 0 <==> a.Magnitude() > b.Magnitude()
    ensures r < 0 <==> a.Magnitude() < b.Magnitude()
  {
    hide Val, P;
    var i := a.top - b.top;
    if i != 0 {
      if i > 0 { Longer(a, b); } else { Longer(b, a); }
      return i;
    }
    i := a.top - 1;
    ghost var s, t := a.Words(), b.Words();
    while i >= 0
      invariant -1 <= i < a.top && s[i + 1..] == t[i + 1..]
    {
      var t1, t2 := a.d[i], b.d[i];
      if t1 != t2 {
        if t1 > t2 { FirstDifference(t, s, i); } else { FirstDifference(s, t, i); }
        return if t1 > t2 then 1 else -1;
      }
      assert s[i..] == [s[i]] + s[i + 1..] && t[i..] == [t[i]] + t[i + 1..];
      i := i - 1;
    }
    return 0;
  }

  lemma Longer(a: Bignum, b: Bignum)
    requires a.Valid() && b.Valid() && a.Normal() && a.top > b.top
    ensures a.Magnitude() > b.Magnitude()
  {
    hide Val, P;
    NormalBound(a);
    ValBound(b.Words());
    PowerGrows(b.top, a.top - 1);
  }

  lemma FirstDifference(a: seq<Word>, b: seq<Word>, i: nat)
    requires |a| == |b| && i < |a| && a[i + 1..] == b[i + 1..] && a[i] < b[i]
    ensures Val(a) < Val(b)
  {
    hide Val, P;
    TopDifference(a[..i + 1], b[..i + 1], i);
    ValSplit(a, i + 1);
    ValSplit(b, i + 1);
  }

  lemma TopDifference(a: seq<Word>, b: seq<Word>, i: nat)
    requires |a| == |b| == i + 1 && a[i] < b[i]
    ensures Val(a) < Val(b)
  {
    hide Val, P;
    assert a == a[..i] + [a[i]] && b == b[..i] + [b[i]];
    ValSnoc(a[..i], a[i]);
    ValSnoc(b[..i], b[i]);
    ValBound(a[..i]);
    ValBound(b[..i]);
    MulMonotone(a[i] + 1, b[i], P(i));
    Distribute(a[i], 1, P(i));
  }

  /** BN_mod_mul_montgomery: for factors whose product the modulus allows, the Montgomery
      product on integers. The result may be one of the factors. */
  method ModMulMontgomery(memory: Memory, r: Bignum, a: Bignum, b: Bignum, n: Bignum, n0: Word, ghost c: Mont) returns (ok: bool)
    requires r.Valid() && a.Valid() && b.Valid() && a.Normal() && b.Normal()
    requires n.Valid() && n.top > 0 && Suits(n, n0, c)
    requires r != n && r.d != n.d && a.Magnitude() * b.Magnitude() < c.r * c.n
    modifies r, r.d, memory
    ensures memory.Refused() >= old(memory.Refused())
    ensures ok <==>
      && old(a.top == 0 || b.top == 0 || a.top + b.top <= 16777215) && 2 * n.top <= 16777215 && old(r.CanHold(n.top))
      && memory.Refused() == old(memory.Refused())
    ensures ok ==> n.top <= r.d.Length
    ensures r.Valid() && (r.d == old(r.d) || fresh(r.d))
    ensures ok ==> r.Normal() && r.top <= n.top && r.Magnitude() == MontMul(c, old(a.Magnitude()), old(b.Magnitude()))
    ensures ok ==> r.neg == old((a.top > 0 && b.top > 0 && a.neg != b.neg) != n.neg)
  {
    hide Val, P, Redc, ValidMont, Suits;
    var tmp := new Bignum(0, false);
    if a == b {
      ok := Sqr(memory, tmp, a);
    } else {
      ok := Mul(memory, tmp, a, b);
    }
    if !ok { return; }
    ok := FromMontgomeryWord(memory, r, tmp, n, n0, c);
  }

  /** BN_from_montgomery in the word build: the reduction of a copy. */
  method FromMontgomery(memory: Memory, ret: Bignum, a: Bignum, n: Bignum, n0: Word, ghost c: Mont) returns (ok: bool)
    requires ret.Valid() && a.Valid() && a.Normal() && n.Valid() && n.top > 0 && Suits(n, n0, c)
    requires ret != n && ret.d != n.d && a.Magnitude() < c.r * c.n
    modifies ret, ret.d, memory
    ensures memory.Refused() >= old(memory.Refused())
    ensures ok <==>
      && old(a.top) <= 16777215 && 2 * n.top <= 16777215 && old(ret.CanHold(n.top))
      && memory.Refused() == old(memory.Refused())
    ensures ret.Valid() && (ret.d == old(ret.d) || fresh(ret.d))
    ensures ok ==> ret.Normal() && ret.top <= n.top && ret.Magnitude() == Redc(c, old(a.Magnitude()))
    ensures ok ==> ret.neg == old(a.neg != n.neg)
  {
    hide Val, P, Redc, ValidMont, Suits;
    var t := new Bignum(0, false);
    ok := Copy(memory, t, a);
    if !ok { return; }
    CopyNormal(t, a);
    ok := FromMontgomeryWord(memory, ret, t, n, n0, c);
  }

  lemma CopyNormal(t: Bignum, a: Bignum)
    requires t.Valid() && a.Valid() && t.Words() == a.Words() && a.Normal()
    ensures t.Normal() && t.Magnitude() == a.Magnitude() && t.top == a.top
  {
    hide Val;
    assert |t.Words()| == |a.Words()|;
    if t.top > 0 { assert t.d[t.top - 1] == t.Words()[t.top - 1] == a.Words()[t.top - 1]; }
  }
}

/** bn_mul_words, bn_mul_normal and BN_mul (crypto/bn/bn_asm.c, bn_mul.c). */
module BnMul {
  import opened BnModular
  import opened BnWords
  import opened BnMontgomery
  import opened Bignum
  import opened BnReduce

  // ---------------------------------------------------------------- bn_mul_words

  /** `r` begins with the low words of `w` times the first `i` words of `a`; `c` is carried. */
  ghost predicate Multiplied(r: seq<Word>, a: seq<Word>, i: nat, w: Word, c: Word)
  {
    i <= |r| && i <= |a| && Val(r[..i]) + P(i) * c == w * Val(a[..i])
  }

  lemma MultipliedStart(r: seq<Word>, a: seq<Word>, w: Word)
    ensures Multiplied(r, a, 0, w, 0)
  {
    assert r[..0] == [] && a[..0] == [];
  }

  lemma MultipliedNext(r: seq<Word>, a: seq<Word>, i: nat, w: Word, c: Word, x: Word, c': Word)
    requires Multiplied(r, a, i, w, c) && i < |r| && i < |a| && x + BASE * c' == w * a[i] + c
    ensures Multiplied(r[i := x], a, i + 1, w, c')
  {
    assert r[i := x][..i + 1] == r[..i] + [x] && a[..i + 1] == a[..i] + [a[i]];
    ValSnoc(r[..i], x);
    ValSnoc(a[..i], a[i]);
    Powers(i);
    hide Val, P;
    MulAddSum(Val(r[..i]), 0, Val(a[..i]), P(i), w, a[i], 0, c, x, c');
  }

  method MulStep(r: array<Word>, rp: nat, a: array<Word>, ap: nat, i: nat, w: Word, c: Word) returns (c': Word)
    requires r != a && rp + i < r.Length && ap + i < a.Length && Multiplied(r[rp..], a[ap..], i, w, c)
    modifies r
    ensures Multiplied(r[rp..], a[ap..], i + 1, w, c')
    ensures forall k :: 0 <= k < r.Length && k != rp + i ==> r[k] == old(r[k])
  {
    hide Val, P, Multiplied;
    ghost var before := r[rp..];
    TwoWords(w, a[ap + i], 0, c);
    var t := w * a[ap + i] + c;
    var x: Word;
    x, c' := t % BASE, t / BASE;
    MultipliedNext(before, a[ap..], i, w, c, x, c');
    r[rp + i] := x;
    assert r[rp..] == before[i := x];
  }

  /** bn_mul_words: r = a * w over `num` words, at `rp` and from `ap`; the result is the
      carry out. */
  method MulWords(r: array<Word>, rp: nat, a: array<Word>, ap: nat, num: nat, w: Word) returns (c: Word)
    requires r != a && rp + num <= r.Length && ap + num <= a.Length
    modifies r
    ensures Multiplied(r[rp..], a[ap..], num, w, c)
    ensures forall k :: 0 <= k < r.Length && !(rp <= k < rp + num) ==> r[k] == old(r[k])
  {
    hide Val, P, Multiplied;
    c := 0;
    var i := 0;
    MultipliedStart(r[rp..], a[ap..], w);
    while num - i >= 4
      invariant 0 <= i <= num && Multiplied(r[rp..], a[ap..], i, w, c)
      invariant forall k :: 0 <= k < r.Length && !(rp <= k < rp + i) ==> r[k] == old(r[k])
    {
      c := MulStep(r, rp, a, ap, i, w, c);
      c := MulStep(r, rp, a, ap, i + 1, w, c);
      c := MulStep(r, rp, a, ap, i + 2, w, c);
      c := MulStep(r, rp, a, ap, i + 3, w, c);
      i := i + 4;
    }
    while i < num
      invariant 0 <= i <= num && Multiplied(r[rp..], a[ap..], i, w, c)
      invariant forall k :: 0 <= k < r.Length && !(rp <= k < rp + i) ==> r[k] == old(r[k])
    {
      c := MulStep(r, rp, a, ap, i, w, c);
      i := i + 1;
    }
  }

  // ---------------------------------------------------------------- bn_mul_normal

  /** One row of the product, and its carry as a new top word. */
  lemma RowInProduct(r: seq<Word>, s: seq<Word>, a: seq<Word>, j: nat, w: Word, c: Word, x: int)
    requires MulAdded(r, s, j, a, |a|, w, c) && |s| > |a| + j
    requires Val(s[..|a| + j]) == Val(a) * x
    ensures Val(r[|a| + j := c][..|a| + j + 1]) == Val(a) * (x + P(j) * w)
  {
    hide MulAdded, Val, P;
    var n := |a| + j;
    SameLength(r, s, j, a, w, c);
    Truncated(r, s, j, a, |a|, w, c, n);
    RowAdded(r[..n], s[..n], j, a, w, c);
    ValSnoc(r[..n], c);
    assert r[n := c][..n + 1] == r[..n] + [c];
    RowValue(Val(a), x, P(j), w);
  }

  lemma SameLength(r: seq<Word>, s: seq<Word>, j: nat, a: seq<Word>, w: Word, c: Word)
    requires MulAdded(r, s, j, a, |a|, w, c)
    ensures |r| == |s|
  {
    hide Val, P;
  }

  lemma RowValue(a: int, x: int, p: int, w: int)
    ensures a * x + p * (w * a) == a * (x + p * w)
  {
    Distribute(x, p * w, a);
    Associate(p, w, a);
    Commute(p * w, a);
  }

  lemma NextFactor(b: seq<Word>, j: nat)
    requires j < |b|
    ensures Val(b[..j + 1]) == Val(b[..j]) + P(j) * b[j]
  {
    assert b[..j + 1] == b[..j] + [b[j]];
    ValSnoc(b[..j], b[j]);
  }

  /** bn_mul_normal with the longer factor first: r = a * b, `na + nb` words. */
  method MulRows(r: array<Word>, a: array<Word>, na: nat, b: array<Word>, nb: nat)
    requires r != a && r != b && na <= a.Length && nb <= b.Length && na + nb <= r.Length
    modifies r
    ensures Val(r[..na + nb]) == Val(a[..na]) * Val(b[..nb])
  {
    hide Val, P, Multiplied, MulAdded;
    if nb == 0 {
      var c := MulWords(r, 0, a, 0, na, 0);
      assert r[0..] == r[..] && a[0..] == a[..];
      ProductWithNone(r[..], a[..], b[..], na, c);
      return;
    }
    var c := MulWords(r, 0, a, 0, na, b[0]);
    assert r[0..] == r[..] && a[0..] == a[..];
    ghost var first := r[..];
    r[na] := c;
    FirstRow(first, a[..], b[..], na, c);
    assert r[..na + 1] == first[..na] + [c];
    var j := 1;
    while j < nb
      invariant 1 <= j <= nb && Val(r[..na + j]) == Val(a[..na]) * Val(b[..j])
    {
      ghost var s := r[..];
      assert a[0..] == a[..];
      c := MulAddWords(r, j, a, 0, na, b[j]);
      PrefixOnly(r[..], s, j, a[..], na, b[j], c);
      assert a[..][..na] == a[..na];
      RowInProduct(r[..], s, a[..na], j, b[j], c, Val(b[..j]));
      NextFactor(b[..], j);
      assert b[..][..j] == b[..j] && b[..][..j + 1] == b[..j + 1];
      ghost var t := r[..];
      r[na + j] := c;
      assert r[..] == t[na + j := c] && r[..na + j + 1] == t[na + j := c][..na + j + 1];
      j := j + 1;
    }
  }

  lemma ProductWithNone(r: seq<Word>, a: seq<Word>, b: seq<Word>, na: nat, c: Word)
    requires na <= |r| && na <= |a| && Multiplied(r, a, na, 0, c)
    ensures Val(r[..na + 0]) == Val(a[..na]) * Val(b[..0])
  {
    Powers(na);
    if c > 0 { MulMonotone(1, c, P(na)); }
    assert b[..0] == [];
  }

  lemma FirstRow(r: seq<Word>, a: seq<Word>, b: seq<Word>, na: nat, c: Word)
    requires na <= |r| && na <= |a| && b != [] && Multiplied(r, a, na, b[0], c)
    ensures Val(r[..na] + [c]) == Val(a[..na]) * Val(b[..1])
  {
    ValSnoc(r[..na], c);
    assert b[..1] == [b[0]];
    One(b[0]);
  }

  /** bn_mul_normal: the longer factor is taken first. */
  method MulNormal(r: array<Word>, a: array<Word>, na: nat, b: array<Word>, nb: nat)
    requires r != a && r != b && na <= a.Length && nb <= b.Length && na + nb <= r.Length
    modifies r
    ensures Val(r[..na + nb]) == Val(a[..na]) * Val(b[..nb])
  {
    hide Val;
    if na < nb {
      MulRows(r, b, nb, a, na);
      Commute(Val(b[..nb]), Val(a[..na]));
    } else {
      MulRows(r, a, na, b, nb);
    }
  }

  // ---------------------------------------------------------------- the product

  /** BN_mul where it does not split its factors: `rr` becomes the product. */
  method Mul(memory: Memory, rr: Bignum, a: Bignum, b: Bignum) returns (ok: bool)
    requires rr != a && rr != b && rr.d != a.d && rr.d != b.d && rr.Valid() && a.Valid() && b.Valid()
    modifies rr, rr.d, memory
    ensures memory.Refused() >= old(memory.Refused())
    ensures ok <==> (a.top == 0 || b.top == 0 || old(rr.CanHold(a.top + b.top))) && memory.Refused() == old(memory.Refused())
    ensures rr.Valid() && (rr.d == old(rr.d) || (fresh(rr.d) && rr.d.Length <= 16777215))
    ensures ok ==> rr.Normal() && rr.Magnitude() == a.Magnitude() * b.Magnitude()
    ensures ok ==> rr.neg == (a.top > 0 && b.top > 0 && a.neg != b.neg)
  {
    hide Val;
    if a.top == 0 || b.top == 0 {
      NoWords(a);
      NoWords(b);
      rr.top := 0;
      rr.neg := false;
      NoWords(rr);
      return true;
    }
    rr.neg := a.neg != b.neg;
    var top := a.top + b.top;
    ok := rr.WExpand(memory, top);
    if !ok { return; }
    rr.top := top;
    MulNormal(rr.d, a.d, a.top, b.d, b.top);
    rr.FixTop();
  }

  lemma NoWords(a: Bignum)
    requires a.Valid()
    ensures a.top == 0 ==> a.Magnitude() == 0
  {
  }
}

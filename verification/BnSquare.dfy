/** bn_sqr_normal and BN_sqr (crypto/bn/bn_sqr.c) with their loops in bn_asm.c, for the
    build without comba and recursion. */
module BnSquare {
  import opened BnModular
  import opened BnWords
  import opened Bignum
  import opened BnReduce
  import opened BnMul

  // ---------------------------------------------------------------- bn_add_words

  /** `r` holds the first `i` words of `a + b`; `c` is carried. */
  ghost predicate Added(r: seq<Word>, a: seq<Word>, b: seq<Word>, i: nat, c: Word)
    requires i <= |r| && i <= |a| && i <= |b|
  {
    c <= 1 && Val(r[..i]) + P(i) * c == Val(a[..i]) + Val(b[..i])
  }

  lemma AddedNext(r: seq<Word>, a: seq<Word>, b: seq<Word>, i: nat, c: Word, x: Word, c': Word)
    requires i < |r| && i < |a| && i < |b| && Added(r, a, b, i, c)
    requires c' <= 1 && x + BASE * c' == a[i] + b[i] + c
    ensures Added(r[i := x], a, b, i + 1, c')
  {
    assert r[i := x][..i + 1] == r[..i] + [x] && a[..i + 1] == a[..i] + [a[i]] && b[..i + 1] == b[..i] + [b[i]];
    ValSnoc(r[..i], x);
    ValSnoc(a[..i], a[i]);
    ValSnoc(b[..i], b[i]);
    Powers(i);
    hide Val, P;
    AddSum(P(i), x, a[i], b[i], c, c');
  }

  lemma AddSum(p: int, x: int, a: int, b: int, c: int, c': int)
    requires x + BASE * c' == a + b + c
    ensures p * x + (BASE * p) * c' == p * a + p * b + p * c
  {
    assert (BASE * p) * c' == p * (BASE * c');
    Distribute(x, BASE * c', p);
    Distribute(a + b, c, p);
    Distribute(a, b, p);
  }

  /** bn_add_words: r = a + b over `n` words, `r` possibly one of them; the result is the
      carry out. */
  method AddWords(r: array<Word>, a: array<Word>, b: array<Word>, n: nat) returns (c: Word)
    requires n <= r.Length && n <= a.Length && n <= b.Length
    modifies r
    ensures Added(r[..], old(a[..]), old(b[..]), n, c)
    ensures forall k :: n <= k < r.Length ==> r[k] == old(r[k])
  {
    hide Val, P, Added;
    ghost var s, t := a[..], b[..];
    c := 0;
    var i := 0;
    AddedStart(r[..], s, t);
    while n - i >= 4
      invariant 0 <= i <= n && c <= 1 && Added(r[..], s, t, i, c)
      invariant forall k :: i <= k < n ==> a[k] == s[k] && b[k] == t[k]
      invariant forall k :: n <= k < r.Length ==> r[k] == old(r[k])
    {
      c := AddStep(r, a, b, i, c, s, t);
      c := AddStep(r, a, b, i + 1, c, s, t);
      c := AddStep(r, a, b, i + 2, c, s, t);
      c := AddStep(r, a, b, i + 3, c, s, t);
      i := i + 4;
    }
    while i < n
      invariant 0 <= i <= n && c <= 1 && Added(r[..], s, t, i, c)
      invariant forall k :: i <= k < n ==> a[k] == s[k] && b[k] == t[k]
      invariant forall k :: n <= k < r.Length ==> r[k] == old(r[k])
    {
      c := AddStep(r, a, b, i, c, s, t);
      i := i + 1;
    }
  }

  lemma AddedStart(r: seq<Word>, a: seq<Word>, b: seq<Word>)
    ensures Added(r, a, b, 0, 0)
  {
    assert r[..0] == [] && a[..0] == [] && b[..0] == [];
  }

  /** One addition of the loops above; `s` and `t` are what `a` and `b` held at the start. */
  method AddStep(r: array<Word>, a: array<Word>, b: array<Word>, i: nat, c: Word, ghost s: seq<Word>, ghost t: seq<Word>)
    returns (c': Word)
    requires i < r.Length && i < a.Length && i < b.Length && i < |s| && i < |t| && a[i] == s[i] && b[i] == t[i]
    requires c <= 1 && Added(r[..], s, t, i, c)
    modifies r
    ensures c' <= 1 && Added(r[..], s, t, i + 1, c')
    ensures forall k :: 0 <= k < r.Length && k != i ==> r[k] == old(r[k])
  {
    hide Val, P, Added;
    ghost var before := r[..];
    var ll := c + a[i] + b[i];
    var x: Word := ll % BASE;
    c' := ll / BASE;
    AddedNext(before, s, t, i, c, x, c');
    r[i] := x;
    assert r[..] == before[i := x];
  }

  // ---------------------------------------------------------------- bn_sqr_words

  /** The sum of the words' squares, each at twice its place. */
  function Squares(s: seq<Word>): nat
  {
    if s == [] then 0 else s[0] * s[0] + BASE * (BASE * Squares(s[1..]))
  }

  lemma {:induction false} SquaresSnoc(s: seq<Word>, x: Word)
    ensures Squares(s + [x]) == Squares(s) + P(2 * |s|) * (x * x)
  {
    if s == [] {
      assert s + [x] == [x] && [x][1..] == [];
    } else {
      var t := s[1..];
      assert (s + [x])[1..] == t + [x];
      SquaresSnoc(t, x);
      Powers(2 * |t|);
      Powers(2 * |t| + 1);
      hide Squares, P;
      TwicePlace(P(2 * |t|), x * x, Squares(t));
    }
  }

  lemma TwicePlace(p: int, y: int, q: int)
    ensures BASE * (BASE * (q + p * y)) == BASE * (BASE * q) + (BASE * (BASE * p)) * y
  {
    Associate(BASE * BASE, p, y);
  }

  /** bn_sqr_words: the square of word i in words 2i and 2i + 1. */
  method SqrWords(r: array<Word>, a: array<Word>, n: nat)
    requires r != a && n <= a.Length && 2 * n <= r.Length
    modifies r
    ensures Val(r[..2 * n]) == Squares(a[..n])
  {
    hide Val, P, Squares;
    var i := 0;
    SquaresStart(r[..], a[..]);
    while n - i >= 4
      invariant 0 <= i <= n && Val(r[..2 * i]) == Squares(a[..i])
    {
      SqrStep(r, a, i);
      SqrStep(r, a, i + 1);
      SqrStep(r, a, i + 2);
      SqrStep(r, a, i + 3);
      i := i + 4;
    }
    while i < n
      invariant 0 <= i <= n && Val(r[..2 * i]) == Squares(a[..i])
    {
      SqrStep(r, a, i);
      i := i + 1;
    }
  }

  lemma SquaresStart(r: seq<Word>, a: seq<Word>)
    ensures Val(r[..0]) == Squares(a[..0])
  {
  }

  method SqrStep(r: array<Word>, a: array<Word>, i: nat)
    requires r != a && i < a.Length && 2 * i + 1 < r.Length && Val(r[..2 * i]) == Squares(a[..i])
    modifies r
    ensures Val(r[..2 * (i + 1)]) == Squares(a[..i + 1])
  {
    hide Val, P, Squares;
    ghost var done := r[..2 * i];
    var lo, hi := MulAdd(0, a[i], a[i], 0);
    r[2 * i] := lo;
    r[2 * i + 1] := hi;
    assert r[..2 * (i + 1)] == (done + [lo]) + [hi];
    TwoMore(done, lo, hi);
    assert a[..i + 1] == a[..i] + [a[i]];
    SquaresSnoc(a[..i], a[i]);
  }

  lemma TwoMore(s: seq<Word>, lo: Word, hi: Word)
    ensures Val(s + [lo] + [hi]) == Val(s) + P(|s|) * (lo + BASE * hi)
  {
    hide Val, P;
    ValSnoc(s, lo);
    ValSnoc(s + [lo], hi);
    Powers(|s|);
    WordAbove(P(|s|), lo, hi);
  }

  lemma WordAbove(p: int, lo: int, hi: int)
    ensures p * (lo + BASE * hi) == p * lo + (BASE * p) * hi
  {
    Distribute(lo, BASE * hi, p);
    Commute(BASE, p);
    Associate(p, BASE, hi);
  }

  // --------------------------------------------------------------- bn_sqr_normal

  /** The products of different words, each pair once. */
  function Cross(s: seq<Word>): nat
  {
    if s == [] then 0 else BASE * (s[0] * Val(s[1..])) + BASE * (BASE * Cross(s[1..]))
  }

  /** A square is twice its mixed products and the squares of its words. */
  lemma {:induction false} SquareOfVal(s: seq<Word>)
    ensures Val(s) * Val(s) == 2 * Cross(s) + Squares(s)
  {
    if s != [] {
      SquareOfVal(s[1..]);
      assert Val(s) == s[0] + BASE * Val(s[1..]);
      SquareOfSum(s[0], Val(s[1..]), Cross(s[1..]), Squares(s[1..]));
    }
  }

  lemma SquareOfSum(x: int, v: int, cross: int, squares: int)
    requires v * v == 2 * cross + squares
    ensures (x + BASE * v) * (x + BASE * v) == 2 * (BASE * (x * v) + BASE * (BASE * cross)) + (x * x + BASE * (BASE * squares))
  {
    Distribute(x, BASE * v, x + BASE * v);
    Distribute(x, BASE * v, x);
    Distribute(x, BASE * v, BASE * v);
    Commute(x, BASE * v);
    assert (BASE * v) * (BASE * v) == BASE * (BASE * (v * v));
    assert (BASE * v) * x == BASE * (x * v);
  }

  /** The rows of the first `k` words are summed up; the others' products are missing. */
  ghost predicate RowsDone(r: seq<Word>, a: seq<Word>, k: nat)
  {
    var n := |a|;
    k < n && 2 * n <= |r| && r[2 * n - 1] == 0 && Val(r[..n + k]) + P(2 * k) * Cross(a[k..]) == Cross(a)
  }

  lemma FirstRowDone(r: seq<Word>, a: seq<Word>, c: Word)
    requires |a| > 1 && 2 * |a| <= |r| && r[0] == 0 && r[2 * |a| - 1] == 0 && r[|a|] == c
    requires Multiplied(r[1..], a[1..], |a| - 1, a[0], c)
    ensures RowsDone(r, a, 1)
  {
    var n := |a|;
    var low := r[1..n];
    assert r[1..][..n - 1] == low && a[1..][..n - 1] == a[1..];
    assert r[..n + 1] == [0] + (low + [c]);
    ValAppend([0], low + [c]);
    ValSnoc(low, c);
    One(0);
    assert P(1) == BASE && P(2) == BASE * BASE by { Powers(0); Powers(1); }
  }

  lemma NextRowDone(r: seq<Word>, s: seq<Word>, a: seq<Word>, k: nat, c: Word)
    requires 0 < k && k + 1 < |a| && RowsDone(s, a, k) && 2 * k + 1 <= |s|
    requires MulAdded(r, s, 2 * k + 1, a[k + 1..], |a| - 1 - k, a[k], c)
    ensures |r| == |s| && RowsDone(r[|a| + k := c], a, k + 1)
  {
    hide MulAdded, Val, P, Cross;
    var n, tail := |a|, a[k + 1..];
    SameLength(r, s, 2 * k + 1, tail, a[k], c);
    Truncated(r, s, 2 * k + 1, tail, |tail|, a[k], c, n + k);
    RowAdded(r[..n + k], s[..n + k], 2 * k + 1, tail, a[k], c);
    ValSnoc(r[..n + k], c);
    assert r[n + k := c][..n + (k + 1)] == r[..n + k] + [c];
    UntouchedAbove(r, s, 2 * k + 1, tail, |tail|, a[k], c);
    CrossStep(a, k);
  }

  lemma CrossStep(a: seq<Word>, k: nat)
    requires k < |a|
    ensures P(2 * k) * Cross(a[k..]) == P(2 * k + 1) * (a[k] * Val(a[k + 1..])) + P(2 * (k + 1)) * Cross(a[k + 1..])
  {
    assert a[k..][1..] == a[k + 1..];
    Powers(2 * k);
    Powers(2 * k + 1);
    hide Val, P;
    var p, x, q := P(2 * k), a[k] * Val(a[k + 1..]), Cross(a[k + 1..]);
    Distribute(BASE * x, BASE * (BASE * q), p);
    assert (BASE * p) * x == p * (BASE * x);
    assert (BASE * (BASE * p)) * q == p * (BASE * (BASE * q)) by { Associate(BASE * BASE, p, q); Commute(p, q); }
  }

  /** The rows of bn_sqr_normal. */
  method CrossProducts(r: array<Word>, a: array<Word>, n: nat)
    requires r != a && 0 < n <= a.Length && 2 * n <= r.Length
    modifies r
    ensures Val(r[..2 * n]) == Cross(a[..n])
  {
    hide Val, P, Cross, RowsDone, Multiplied, MulAdded;
    r[0], r[2 * n - 1] := 0, 0;
    var j := n - 1;
    var k := 0;
    if j > 0 {
      var c := MulWords(r, 1, a, 1, j, a[0]);
      PrefixMultiplied(r[1..], a[1..], j, a[0], c);
      ghost var first := r[1..];
      r[1 + j] := c;
      assert r[1..][..j] == first[..j] && a[..n][1..] == a[1..][..j];
      SameMultiplied(first, r[1..], a[..n][1..], j, a[0], c);
      FirstRowDone(r[..], a[..n], c);
      k := 1;
    } else {
      OneWord(r[..], a[..n]);
    }
    while k < n - 1
      invariant (k == 0 ==> n == 1) && k < n && RowsDone(r[..], a[..n], k)
    {
      ghost var s := r[..];
      var c := MulAddWords(r, 2 * k + 1, a, k + 1, n - 1 - k, a[k]);
      PrefixOnly(r[..], s, 2 * k + 1, a[k + 1..], n - 1 - k, a[k], c);
      assert a[k + 1..][..n - 1 - k] == a[..n][k + 1..];
      ghost var t := r[..];
      NextRowDone(t, s, a[..n], k, c);
      r[n + k] := c;
      assert r[..] == t[n + k := c];
      k := k + 1;
    }
    RowsEnd(r[..], a[..n]);
    assert r[..][..2 * n] == r[..2 * n];
  }

  lemma PrefixMultiplied(r: seq<Word>, a: seq<Word>, i: nat, w: Word, c: Word)
    requires Multiplied(r, a, i, w, c)
    ensures Multiplied(r, a[..i], i, w, c)
  {
    hide Val, P;
    assert a[..i][..i] == a[..i];
  }

  lemma SameMultiplied(r: seq<Word>, r': seq<Word>, a: seq<Word>, i: nat, w: Word, c: Word)
    requires Multiplied(r, a, i, w, c) && |r'| == |r| && r'[..i] == r[..i]
    ensures Multiplied(r', a, i, w, c)
  {
    hide Val, P;
  }

  lemma OneWord(r: seq<Word>, a: seq<Word>)
    requires |a| == 1 && |r| >= 2 && r[0] == 0 && r[1] == 0
    ensures RowsDone(r, a, 0)
  {
    assert r[..1] == [0] && a[0..] == a;
    One(0);
    Powers(0);
    hide Val, Cross;
  }

  lemma RowsEnd(r: seq<Word>, a: seq<Word>)
    requires a != [] && RowsDone(r, a, |a| - 1)
    ensures Val(r[..2 * |a|]) == Cross(a)
  {
    hide Val, P, Cross;
    var n := |a|;
    assert r[..2 * n] == r[..2 * n - 1] + [0];
    ValSnoc(r[..2 * n - 1], 0);
    CrossOfOne(a[n - 1..]);
  }

  lemma CrossOfOne(s: seq<Word>)
    requires |s| == 1
    ensures Cross(s) == 0
  {
    assert s[1..] == [];
    assert Val([]) == 0 && Cross([]) == 0;
  }

  /** bn_sqr_normal: r = a * a in `2 * n` words; neither addition carries. */
  method SqrNormal(r: array<Word>, a: array<Word>, n: nat, tmp: array<Word>)
    requires r != a && tmp != a && tmp != r && 0 < n <= a.Length && 2 * n <= r.Length && 2 * n <= tmp.Length
    modifies r, tmp
    ensures Val(r[..2 * n]) == Val(a[..n]) * Val(a[..n])
  {
    hide Val, P, Cross, Squares, Added;
    CrossProducts(r, a, n);
    ghost var s := r[..];
    SquareOfVal(a[..n]);
    SquareFits(a[..n]);
    var c := AddWords(r, r, r, 2 * n);
    NoCarry(r[..], s, s, 2 * n, c, 2 * Cross(a[..n]));
    SqrWords(tmp, a, n);
    ghost var twice, squares := r[..], tmp[..];
    c := AddWords(r, r, tmp, 2 * n);
    NoCarry(r[..], twice, squares, 2 * n, c, Val(a[..n]) * Val(a[..n]));
  }

  lemma SquareFits(s: seq<Word>)
    ensures Val(s) * Val(s) < P(2 * |s|) && P(2 * |s|) > 0
  {
    ValBound(s);
    PowerAdd(|s|, |s|);
    hide Val, P;
    MulMonotone(Val(s), P(|s|), Val(s));
    MulStrict(Val(s), P(|s|), P(|s|));
  }

  lemma NoCarry(r: seq<Word>, a: seq<Word>, b: seq<Word>, n: nat, c: Word, sum: nat)
    requires n <= |r| && n <= |a| && n <= |b| && Added(r, a, b, n, c)
    requires Val(a[..n]) + Val(b[..n]) == sum < P(n)
    ensures c == 0 && Val(r[..n]) == sum
  {
    hide Val, P;
    MulMonotone(if c == 0 then 0 else 1, c, P(n));
  }

  // ---------------------------------------------------------------------- BN_sqr

  /** Half the bits of the top word decide whether the square needs all its words. */
  lemma SquareTop(r: seq<Word>, a: seq<Word>)
    requires a != [] && |r| == 2 * |a| && a[|a| - 1] != 0 && Val(r) == Val(a) * Val(a)
    ensures a[|a| - 1] < 0x1_0000 ==> r[|r| - 1] == 0 && r[|r| - 2] != 0
    ensures a[|a| - 1] >= 0x1_0000 ==> r[|r| - 1] != 0
  {
    hide Val, P;
    var n, w := |a|, a[|a| - 1];
    var front, p, q := a[..n - 1], P(n - 1), P(2 * n - 2);
    assert a == front + [w];
    ValSnoc(front, w);
    ValBound(front);
    PowerAdd(n - 1, n - 1);
    Powers(2 * n - 2);
    SquareRange(Val(a), w, p, Val(front));
    var low := r[..2 * n - 2];
    assert r == low + [r[2 * n - 2]] + [r[2 * n - 1]];
    TwoMore(low, r[2 * n - 2], r[2 * n - 1]);
    ValBound(low);
    TopWords(Val(r), Val(low), r[2 * n - 2], r[2 * n - 1], q);
  }

  /** A number of top word `w` over the weight `p`, squared. */
  lemma SquareRange(v: int, w: int, p: int, low: int)
    requires p > 0 && w > 0 && 0 <= low < p && v == low + p * w
    ensures p * p <= v * v
    ensures w < 0x1_0000 ==> v * v < BASE * (p * p)
    ensures w >= 0x1_0000 ==> v * v >= BASE * (p * p)
  {
    MulMonotone(1, w, p);
    SquareMonotone(p, v);
    if w < 0x1_0000 {
      MulMonotone(w + 1, 0x1_0000, p);
      SquareMonotone(v, 0x1_0000 * p);
      MulStrict(v, 0x1_0000 * p, 0x1_0000 * p);
      MulMonotone(v, 0x1_0000 * p, v);
    } else {
      MulMonotone(0x1_0000, w, p);
      SquareMonotone(0x1_0000 * p, v);
    }
    assert (0x1_0000 * p) * (0x1_0000 * p) == BASE * (p * p);
  }

  lemma SquareMonotone(x: int, y: int)
    requires 0 <= x <= y
    ensures x * x <= y * y
  {
    MulMonotone(x, y, x);
    MulMonotone(x, y, y);
  }

  lemma TopWords(v: int, low: int, x: Word, y: Word, q: int)
    requires q > 0 && 0 <= low < q && v == low + q * (x + BASE * y)
    ensures v < BASE * q ==> y == 0
    ensures q <= v < BASE * q ==> x != 0
    ensures v >= BASE * q ==> y != 0
  {
    WordAbove(q, x, y);
    MulMonotone(0, x, q);
    MulMonotone(x, BASE - 1, q);
    if y != 0 { MulMonotone(1, y, BASE * q); }
  }

  /** BN_sqr into another number: the square without leading zero words, though nothing
      trims it. */
  method Sqr(memory: Memory, r: Bignum, a: Bignum) returns (ok: bool)
    requires r != a && r.d != a.d && r.Valid() && a.Valid() && a.Normal()
    modifies r, r.d, memory
    ensures memory.Refused() >= old(memory.Refused())
    ensures ok <==> (a.top == 0 || (old(r.CanHold(2 * a.top)) && 2 * a.top <= 16777215)) && memory.Refused() == old(memory.Refused())
    ensures r.Valid() && (r.d == old(r.d) || (fresh(r.d) && r.d.Length <= 16777215))
    ensures ok ==> r.Normal() && r.Magnitude() == a.Magnitude() * a.Magnitude()
    ensures a.top == 0 ==> ok && r.neg == old(r.neg)
    ensures ok && a.top > 0 ==> !r.neg
  {
    hide Val, P;
    var al := a.top;
    if al == 0 {
      r.top := 0;
      NoWords(a);
      NoWords(r);
      return true;
    }
    var max := 2 * al;
    ok := r.WExpand(memory, max);
    if !ok { return; }
    var tmp := new Bignum(if al == 4 || al == 8 then max else 0, false);  // `t` on the stack, or `tmp`
    ok := tmp.WExpand(memory, max);
    if !ok { return; }
    Store(r, a, tmp.d);
  }

  method Store(r: Bignum, a: Bignum, tmp: array<Word>)
    requires r != a && r.d != a.d && tmp != r.d && tmp != a.d && r.Valid() && a.Valid() && a.Normal()
    requires a.top > 0 && 2 * a.top <= r.d.Length && 2 * a.top <= tmp.Length
    modifies r`top, r`neg, r.d, tmp
    ensures r.Valid() && r.Normal() && r.Magnitude() == a.Magnitude() * a.Magnitude() && !r.neg
  {
    hide Val, P;
    var al, max := a.top, 2 * a.top;
    SqrNormal(r.d, a.d, al, tmp);
    r.neg := false;
    r.top := if a.d[al - 1] < 0x1_0000 then max - 1 else max;
    SquareWords(r.d[..max], a.Words(), r.top);
    assert r.d[..max][..r.top] == r.d[..r.top];
  }

  lemma SquareWords(r: seq<Word>, a: seq<Word>, top: nat)
    requires a != [] && |r| == 2 * |a| && a[|a| - 1] != 0 && Val(r) == Val(a) * Val(a)
    requires top == if a[|a| - 1] < 0x1_0000 then |r| - 1 else |r|
    ensures top > 0 && r[top - 1] != 0 && Val(r[..top]) == Val(r)
  {
    hide Val, P;
    SquareTop(r, a);
    TrailingZeros(r, top);
  }
}

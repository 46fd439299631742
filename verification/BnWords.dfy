/** Little-endian words and the word loops of crypto/bn/bn_asm.c and bn_mul.c, for
    the THIRTY_TWO_BIT, BN_LLONG build. */
module BnWords {
  import opened BnModular

  const BN_BITS2 := 32
  const BASE := 0x1_0000_0000

  type Word = x: int | 0 <= x < BASE

  /** The integer an array of words stands for. */
  function Val(s: seq<Word>): nat
  {
    if s == [] then 0 else s[0] + BASE * Val(s[1..])
  }

  function P(n: nat): int { Pow(BASE, n) }

  lemma {:induction false} ValAppend(a: seq<Word>, b: seq<Word>)
    ensures Val(a + b) == Val(a) + P(|a|) * Val(b)
  {
    if a == [] {
      assert a + b == b;
    } else {
      assert (a + b)[1..] == a[1..] + b;
      ValAppend(a[1..], b);
      Associate(BASE, P(|a| - 1), Val(b));
    }
  }

  lemma ValSplit(s: seq<Word>, k: nat)
    requires k <= |s|
    ensures Val(s) == Val(s[..k]) + P(k) * Val(s[k..])
  {
    assert s == s[..k] + s[k..];
    ValAppend(s[..k], s[k..]);
  }

  lemma ValSnoc(s: seq<Word>, x: Word)
    ensures Val(s + [x]) == Val(s) + P(|s|) * x
  {
    hide *;
    ValAppend(s, [x]);
    One(x);
  }

  lemma One(x: Word)
    ensures Val([x]) == x && Val([]) == 0
  {
    assert [x][1..] == [];
  }

  lemma {:induction false} ValBound(s: seq<Word>)
    ensures 0 <= Val(s) < P(|s|)
  {
    if s != [] { ValBound(s[1..]); }
  }

  lemma {:induction false} ValZeros(s: seq<Word>)
    requires forall k :: 0 <= k < |s| ==> s[k] == 0
    ensures Val(s) == 0
  {
    if s != [] { ValZeros(s[1..]); }
  }

  /** Changing the words in a window changes the value by the window's change, moved up. */
  lemma ValWindow(s: seq<Word>, t: seq<Word>, i: nat, n: nat)
    requires |s| == |t| && i + n <= |s| && s[..i] == t[..i] && s[i + n..] == t[i + n..]
    ensures Val(t) - Val(s) == P(i) * (Val(t[i..i + n]) - Val(s[i..i + n]))
  {
    WindowParts(s, i, n);
    WindowParts(t, i, n);
    Distribute(Val(t[i..i + n]), Val(s[i..i + n]), P(i));
  }

  lemma WindowParts(s: seq<Word>, i: nat, n: nat)
    requires i + n <= |s|
    ensures Val(s) == Val(s[..i]) + P(i) * Val(s[i..i + n]) + P(i + n) * Val(s[i + n..])
  {
    hide *;
    var window, above := s[i..i + n], s[i + n..];
    assert s[i..][..n] == window && s[i..][n..] == above;
    ValSplit(s, i);
    ValSplit(s[i..], n);
    PowerAdd(i, n);
    Distribute(Val(window), P(n) * Val(above), P(i));
    Associate(P(i), P(n), Val(above));
  }

  lemma PowerAdd(m: nat, n: nat)
    ensures P(m + n) == P(m) * P(n)
  {
    PowAdd(BASE, m, n);
  }

  lemma Powers(n: nat)
    ensures P(0) == 1 && P(n + 1) == BASE * P(n) && P(n) > 0 && Val([]) == 0
  {
    PowPositive(BASE, n);
  }

  // ---------------------------------------------------------- word operations

  /** mul_add(r,a,w,c): the low and high words of w*a + r + c. */
  method MulAdd(r: Word, a: Word, w: Word, c: Word) returns (r': Word, c': Word)
    ensures r' + BASE * c' == w * a + r + c
  {
    var t := w * a + r + c;
    TwoWords(w, a, r, c);
    return t % BASE, t / BASE;
  }

  lemma TwoWords(w: Word, a: Word, r: Word, c: Word)
    ensures 0 <= w * a + r + c < BASE * BASE
  {
    MulMonotone(0, w, a);
    MulMonotone(w, BASE - 1, a);
  }

  lemma MulAddSum(v: int, v0: int, va: int, p: int, w: int, a: int, r: int, c: int, r': int, c': int)
    requires v + p * c == v0 + w * va && r' + BASE * c' == w * a + r + c
    ensures (v + p * r') + (BASE * p) * c' == (v0 + p * r) + w * (va + p * a)
  {
    Distribute(va, p * a, w);
    assert w * (p * a) == p * (w * a);
    assert (BASE * p) * c' == p * (BASE * c');
    Distribute(r', BASE * c', p);
    Distribute(w * a + r, c, p);
    Distribute(w * a, r, p);
  }

  /** `r` is `s` with the first `i` words of `a` times `w` added at `rp`; `c` is carried. */
  ghost predicate MulAdded(r: seq<Word>, s: seq<Word>, rp: nat, a: seq<Word>, i: nat, w: Word, c: Word)
  {
    && |r| == |s| && rp + i <= |s| && i <= |a|
    && r[..rp] == s[..rp] && r[rp + i..] == s[rp + i..]
    && Val(r[rp..rp + i]) + P(i) * c == Val(s[rp..rp + i]) + w * Val(a[..i])
  }

  lemma MulAddedStart(s: seq<Word>, rp: nat, a: seq<Word>, w: Word)
    requires rp <= |s|
    ensures MulAdded(s, s, rp, a, 0, w, 0)
  {
    assert s[rp..rp] == [] && a[..0] == [];
  }

  lemma MulAddedNext(r: seq<Word>, s: seq<Word>, rp: nat, a: seq<Word>, i: nat, w: Word, c: Word, x: Word, c': Word)
    requires MulAdded(r, s, rp, a, i, w, c) && rp + i < |s| && i < |a|
    requires x + BASE * c' == w * a[i] + s[rp + i] + c
    ensures MulAdded(r[rp + i := x], s, rp, a, i + 1, w, c')
  {
    var r', k := r[rp + i := x], rp + i;
    var done, was, front := r[rp..k], s[rp..k], a[..i];
    assert r'[rp..k + 1] == done + [x] && s[rp..k + 1] == was + [s[k]] && a[..i + 1] == front + [a[i]];
    ValSnoc(done, x);
    ValSnoc(was, s[k]);
    ValSnoc(front, a[i]);
    Powers(i);
    hide Val, P;
    MulAddSum(Val(done), Val(was), Val(front), P(i), w, a[i], s[k], c, x, c');
  }

  /** bn_mul_add_words: r += a * w over `num` words, at `rp` and from `ap`; the result is
      the carry out. */
  method MulAddWords(r: array<Word>, rp: nat, a: array<Word>, ap: nat, num: nat, w: Word) returns (c: Word)
    requires r != a && rp + num <= r.Length && ap + num <= a.Length
    modifies r
    ensures MulAdded(r[..], old(r[..]), rp, a[ap..], num, w, c)
  {
    hide *;
    ghost var s := r[..];
    c := 0;
    var i := 0;
    MulAddedStart(s, rp, a[ap..], w);
    while num - i >= 4
      invariant 0 <= i <= num && MulAdded(r[..], s, rp, a[ap..], i, w, c)
    {
      c := MulAddStep(r, rp, a, ap, i, w, c, s);
      c := MulAddStep(r, rp, a, ap, i + 1, w, c, s);
      c := MulAddStep(r, rp, a, ap, i + 2, w, c, s);
      c := MulAddStep(r, rp, a, ap, i + 3, w, c, s);
      i := i + 4;
    }
    while i < num
      invariant 0 <= i <= num && MulAdded(r[..], s, rp, a[ap..], i, w, c)
    {
      c := MulAddStep(r, rp, a, ap, i, w, c, s);
      i := i + 1;
    }
  }

  /** One mul_add of the loops above; `s` is what `r` held at the start. */
  method MulAddStep(r: array<Word>, rp: nat, a: array<Word>, ap: nat, i: nat, w: Word, c: Word, ghost s: seq<Word>) returns (c': Word)
    requires r != a && rp + i < r.Length && ap + i < a.Length && MulAdded(r[..], s, rp, a[ap..], i, w, c)
    modifies r
    ensures MulAdded(r[..], s, rp, a[ap..], i + 1, w, c')
  {
    hide Val, P;
    ghost var before := r[..];
    var x;
    assert before[rp + i] == before[rp + i..][0] == s[rp + i];
    x, c' := MulAdd(r[rp + i], a[ap + i], w, c);
    MulAddedNext(before, s, rp, a[ap..], i, w, c, x, c');
    r[rp + i] := x;
    assert r[..] == before[rp + i := x];
  }

  /** `r` holds the first `i` words of `a - b`; `c` is borrowed. */
  ghost predicate Subtracted(r: seq<Word>, a: seq<Word>, b: seq<Word>, i: nat, c: Word)
    requires i <= |r| && i <= |a| && i <= |b|
  {
    (c == 0 || c == 1) && Val(r[..i]) - P(i) * c == Val(a[..i]) - Val(b[..i])
  }

  lemma SubtractedNext(r: seq<Word>, a: seq<Word>, b: seq<Word>, i: nat, c: Word, x: Word, c': Word)
    requires i < |r| && i < |a| && i < |b| && Subtracted(r, a, b, i, c)
    requires (c' == 0 || c' == 1) && x == a[i] - b[i] - c + BASE * c'
    ensures Subtracted(r[i := x], a, b, i + 1, c')
  {
    assert r[i := x][..i + 1] == r[..i] + [x] && a[..i + 1] == a[..i] + [a[i]] && b[..i + 1] == b[..i] + [b[i]];
    ValSnoc(r[..i], x);
    ValSnoc(a[..i], a[i]);
    ValSnoc(b[..i], b[i]);
    Powers(i);
    hide Val, P;
    SubSum(P(i), x, a[i], b[i], c, c');
  }

  lemma SubSum(p: int, x: int, t1: int, t2: int, c: int, c': int)
    requires x == t1 - t2 - c + BASE * c'
    ensures p * x - (BASE * p) * c' == p * t1 - p * t2 - p * c
  {
    assert (BASE * p) * c' == p * (BASE * c');
    Distribute(t1 - t2 - c, BASE * c', p);
    Distribute(t1 - t2, c, p);
    Distribute(t1, t2, p);
  }

  /** bn_sub_words: r = a - b over `n` words, `a` read from `ap`; the result is the borrow. */
  method SubWords(r: array<Word>, a: array<Word>, ap: nat, b: array<Word>, n: nat) returns (c: Word)
    requires r != a && r != b && n <= r.Length && ap + n <= a.Length && n <= b.Length
    modifies r
    ensures Subtracted(r[..], a[ap..], b[..], n, c)
    ensures forall k :: n <= k < r.Length ==> r[k] == old(r[k])
  {
    hide Val, P, Subtracted;
    c := 0;
    var i := 0;
    SubtractedStart(r[..], a[ap..], b[..]);
    while n - i >= 4
      invariant 0 <= i <= n && Subtracted(r[..], a[ap..], b[..], i, c)
      invariant forall k :: n <= k < r.Length ==> r[k] == old(r[k])
    {
      c := SubStep(r, a, ap, b, i, c);
      c := SubStep(r, a, ap, b, i + 1, c);
      c := SubStep(r, a, ap, b, i + 2, c);
      c := SubStep(r, a, ap, b, i + 3, c);
      i := i + 4;
    }
    while i < n
      invariant 0 <= i <= n && Subtracted(r[..], a[ap..], b[..], i, c)
      invariant forall k :: n <= k < r.Length ==> r[k] == old(r[k])
    {
      c := SubStep(r, a, ap, b, i, c);
      i := i + 1;
    }
  }

  lemma SubtractedStart(r: seq<Word>, a: seq<Word>, b: seq<Word>)
    ensures Subtracted(r, a, b, 0, 0)
  {
    assert r[..0] == [] && a[..0] == [] && b[..0] == [];
  }

  method SubStep(r: array<Word>, a: array<Word>, ap: nat, b: array<Word>, i: nat, c: Word) returns (c': Word)
    requires r != a && r != b && i < r.Length && ap + i < a.Length && i < b.Length
    requires Subtracted(r[..], a[ap..], b[..], i, c)
    modifies r
    ensures Subtracted(r[..], a[ap..], b[..], i + 1, c')
    ensures forall k :: 0 <= k < r.Length && k != i ==> r[k] == old(r[k])
  {
    hide P, Val;
    ghost var before := r[..];
    var t1, t2 := a[ap + i], b[i];
    var x: Word := (t1 - t2 - c) % BASE;
    c' := c;
    if t1 != t2 { c' := if t1 < t2 then 1 else 0; }
    SubtractedNext(before, a[ap..], b[..], i, c, x, c');
    r[i] := x;
    assert r[..] == before[i := x];
  }
}

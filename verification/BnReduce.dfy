/** BN_from_montgomery_word (crypto/bn/bn_mont.c): the reduction on words, in place,
    computes the reduction BnMontgomery states on integers. */
module BnReduce {
  import opened BnModular
  import opened BnWords
  import opened BnMontgomery
  import opened Bignum

  // ------------------------------------------------------------ one row added

  /** After `i` rows: the low `i` words are clear, and with the carry above word
      `nl + i` the words stand for `t` and a multiple of the modulus. */
  ghost predicate Reducing(s: seq<Word>, nw: seq<Word>, t: int, i: nat, carry: Word, m: int)
  {
    && |s| == 2 * |nw| && i <= |nw| && (carry == 0 || carry == 1) && 0 <= m < P(i)
    && Val(s) + P(|nw| + i) * carry == t + m * Val(nw)
    && forall k :: 0 <= k < i ==> s[k] == 0
  }

  lemma ReducingStart(s: seq<Word>, nw: seq<Word>)
    requires |s| == 2 * |nw|
    ensures Reducing(s, nw, Val(s), 0, 0, 0)
  {
    Powers(0);
  }

  lemma Truncated(r: seq<Word>, s: seq<Word>, rp: nat, a: seq<Word>, i: nat, w: Word, c: Word, max: nat)
    requires MulAdded(r, s, rp, a, i, w, c) && rp + i <= max <= |s|
    ensures MulAdded(r[..max], s[..max], rp, a, i, w, c) && r[max..] == s[max..]
  {
    hide Val, P;
    assert r[max..] == r[rp + i..][max - (rp + i)..];
    assert r[..max][rp..rp + i] == r[rp..rp + i] && s[..max][rp..rp + i] == s[rp..rp + i];
    assert r[..max][rp + i..] == r[rp + i..][..max - (rp + i)];
    assert s[..max][rp + i..] == s[rp + i..][..max - (rp + i)];
    assert r[..max][..rp] == r[..rp] && s[..max][..rp] == s[..rp];
  }

  lemma RowAdded(r: seq<Word>, s: seq<Word>, i: nat, nw: seq<Word>, w: Word, c: Word)
    requires MulAdded(r, s, i, nw, |nw|, w, c)
    ensures Val(r) + P(|nw| + i) * c == Val(s) + P(i) * (w * Val(nw))
  {
    hide *;
    var done, was, row := RowWindow(r, s, i, nw, w, c);
    PowerAdd(i, |nw|);
    RowMoved(Val(r), Val(s), done, was, P(i), P(|nw|), P(|nw| + i), row, c);
  }

  lemma RowWindow(r: seq<Word>, s: seq<Word>, i: nat, nw: seq<Word>, w: Word, c: Word)
    returns (done: int, was: int, row: int)
    requires MulAdded(r, s, i, nw, |nw|, w, c)
    ensures Val(r) - Val(s) == P(i) * (done - was)
    ensures done + P(|nw|) * c == was + row && row == w * Val(nw)
  {
    hide Val, P;
    assert nw[..|nw|] == nw;
    ValWindow(s, r, i, |nw|);
    return Val(r[i..i + |nw|]), Val(s[i..i + |nw|]), w * Val(nw);
  }

  lemma RowMoved(r: int, s: int, done: int, was: int, p: int, q: int, pq: int, row: int, c: int)
    requires pq == p * q && r - s == p * (done - was) && done + q * c == was + row
    ensures r + pq * c == s + p * row
  {
    Associate(p, q, c);
    Distribute(done - was, q * c, p);
  }

  /** The multiplier rp[0]*n0 makes the row's lowest word zero. */
  lemma LowWordClears(r: seq<Word>, s: seq<Word>, i: nat, nw: seq<Word>, w: Word, c: Word, n0: Word)
    requires |nw| > 0 && MulAdded(r, s, i, nw, |nw|, w, c)
    requires (n0 * nw[0] + 1) % BASE == 0 && w == s[i] * n0 % BASE
    ensures r[i] == 0
  {
    var nl := |nw|;
    assert nw[..nl] == nw;
    var rw, sw := r[i..i + nl], s[i..i + nl];
    LowWord(rw);
    LowWord(sw);
    LowWord(nw);
    Powers(nl - 1);
    hide Val, P;
    LowWordSum(Val(rw[1..]), Val(sw[1..]), Val(nw[1..]), rw[0], sw[0], nw[0], w, c, P(nl - 1));
    ClearingMultiplier(sw[0], n0, nw[0]);
    SmallResidue(rw[0], BASE);
  }

  lemma LowWord(s: seq<Word>)
    requires s != []
    ensures Val(s) == s[0] + BASE * Val(s[1..])
  {
  }

  lemma LowWordSum(rh: int, sh: int, nh: int, r0: int, s0: int, n0: int, w: int, c: int, p: int)
    requires (r0 + BASE * rh) + (BASE * p) * c == (s0 + BASE * sh) + w * (n0 + BASE * nh)
    ensures r0 % BASE == (s0 + w * n0) % BASE
  {
    var k := sh + w * nh - rh - p * c;
    assert (BASE * p) * c == BASE * (p * c);
    assert w * (n0 + BASE * nh) == w * n0 + BASE * (w * nh);
    assert r0 == (s0 + w * n0) + k * BASE;
    AddMultiple(s0 + w * n0, k, BASE);
  }

  lemma ClearingMultiplier(x: int, n0: int, n: int)
    requires (n0 * n + 1) % BASE == 0
    ensures (x + (x * n0 % BASE) * n) % BASE == 0
  {
    var w := x * n0 % BASE;
    MulResidue(x * n0, n, BASE);
    var k := SameResidue(w * n, x * n0 * n, BASE);
    Associate(x, n0, n);
    Distribute(n0 * n, 1, x);
    var q := (n0 * n + 1) / BASE;
    DivMod(n0 * n + 1, BASE);
    Associate(x, q, BASE);
    assert x + w * n == (x * q + k) * BASE + 0;
    Quotient(x * q + k, 0, BASE);
  }

  /** The carry the comparisons compute is the carry of the sum. */
  lemma CarryOfSum(v: Word, carry: Word, x: Word, y: Word, carry': Word)
    requires carry == 0 || carry == 1
    requires y == (v + carry + x) % BASE
    requires carry' == if (carry == 1 || y != x) && y <= x then 1 else 0
    ensures y + BASE * carry' == v + carry + x
  {
    var sum := v + carry + x;
    if sum < BASE { SmallResidue(sum, BASE); } else { AddMultiple(sum - BASE, 1, BASE); SmallResidue(sum - BASE, BASE); }
  }

  lemma WordReplaced(s: seq<Word>, j: nat, y: Word)
    requires j < |s|
    ensures Val(s[j := y]) == Val(s) + P(j) * y - P(j) * s[j]
  {
    var t := s[j := y];
    ValWindow(s, t, j, 1);
    assert t[j..j + 1] == [y] && s[j..j + 1] == [s[j]];
    One(y);
    One(s[j]);
    hide Val, P;
    Distribute(y, s[j], P(j));
  }

  lemma RowSum(v0: int, v1: int, t: int, m: int, n: int, w: int, p: int, q: int, carry: int, carry': int, v: int, x: int, y: int)
    requires v0 + q * carry == t + m * n
    requires v1 + q * v == v0 + p * (w * n)
    requires y + BASE * carry' == v + carry + x
    ensures (v1 + q * y - q * x) + (BASE * q) * carry' == t + (m + w * p) * n
  {
    Associate(BASE, q, carry');
    assert (BASE * q) * carry' == q * (BASE * carry');
    Distribute(y, BASE * carry', q);
    Distribute(v + carry, x, q);
    Distribute(v, carry, q);
    Distribute(m, w * p, n);
    assert (w * p) * n == p * (w * n);
  }

  lemma RowMultiple(m: int, w: Word, i: nat)
    requires 0 <= m < P(i)
    ensures 0 <= m + w * P(i) < P(i + 1)
  {
    Powers(i);
    MulMonotone(0, w, P(i));
    MulMonotone(w, BASE - 1, P(i));
    Distribute(BASE, 1, P(i));
  }

  lemma ReducingNext(s: seq<Word>, s1: seq<Word>, nw: seq<Word>, t: int, i: nat, carry: Word, m: int,
                     n0: Word, w: Word, v: Word, y: Word, carry': Word)
    requires i < |nw| && Reducing(s, nw, t, i, carry, m)
    requires (n0 * nw[0] + 1) % BASE == 0 && w == s[i] * n0 % BASE
    requires MulAdded(s1, s, i, nw, |nw|, w, v)
    requires y == (v + carry + s[|nw| + i]) % BASE
    requires carry' == if (carry == 1 || y != s[|nw| + i]) && y <= s[|nw| + i] then 1 else 0
    ensures Reducing(s1[|nw| + i := y], nw, t, i + 1, carry', m + w * P(i))
  {
    hide Val, P;
    var nl := |nw|;
    var j := nl + i;
    assert s1[j] == s1[j..][0] == s[j..][0];
    LowWordClears(s1, s, i, nw, w, v, n0);
    RowAdded(s1, s, i, nw, w, v);
    CarryOfSum(v, carry, s[j], y, carry');
    WordReplaced(s1, j, y);
    RowMultiple(m, w, i);
    Powers(j);
    RowSum(Val(s), Val(s1), t, m, Val(nw), w, P(i), P(j), carry, carry', v, s[j], y);
    assert forall k :: 0 <= k < i ==> s1[k] == s1[..i][k] == s[..i][k];
  }

  lemma PrefixOnly(r: seq<Word>, s: seq<Word>, rp: nat, a: seq<Word>, i: nat, w: Word, c: Word)
    requires MulAdded(r, s, rp, a, i, w, c)
    ensures MulAdded(r, s, rp, a[..i], i, w, c)
  {
    hide Val, P;
    assert a[..i][..i] == a[..i];
  }

  /** One turn of the reduction loop, at rp = r->d + i. */
  method ReduceRow(rd: array<Word>, nd: array<Word>, nl: nat, i: nat, n0: Word, carry: Word, ghost t: int, ghost m: int)
    returns (carry': Word, ghost m': int)
    requires rd != nd && i < nl <= nd.Length && 2 * nl <= rd.Length
    requires (n0 * nd[0] + 1) % BASE == 0 && Reducing(rd[..2 * nl], nd[..nl], t, i, carry, m)
    modifies rd
    ensures Reducing(rd[..2 * nl], nd[..nl], t, i + 1, carry', m')
    ensures rd[2 * nl..] == old(rd[2 * nl..])
  {
    hide Reducing, MulAdded, Val, P;
    ghost var max, nw, s := 2 * nl, nd[..nl], rd[..];
    var w: Word := rd[i] * n0 % BASE;
    assert nd[0..] == nd[..];
    var v := MulAddWords(rd, i, nd, 0, nl, w);
    ghost var s1 := rd[..];
    PrefixOnly(s1, s, i, nd[..], nl, w, v);
    Truncated(s1, s, i, nw, nl, w, v, max);
    var x := rd[nl + i];
    assert x == s[nl + i] by { UntouchedAbove(s1, s, i, nw, nl, w, v); }
    var y: Word := (v + carry + x) % BASE;
    carry' := if (carry == 1 || y != x) && y <= x then 1 else 0;
    ReducingNext(s[..max], s1[..max], nw, t, i, carry, m, n0, w, v, y, carry');
    m' := m + w * P(i);
    rd[nl + i] := y;
    assert rd[..max] == s1[..max][nl + i := y];
    assert rd[max..] == s1[max..];
  }

  lemma UntouchedAbove(r: seq<Word>, s: seq<Word>, rp: nat, a: seq<Word>, i: nat, w: Word, c: Word)
    requires MulAdded(r, s, rp, a, i, w, c)
    ensures |r| == |s| && forall k :: rp + i <= k < |s| ==> r[k] == s[k]
  {
    hide Val, P;
    assert forall k :: rp + i <= k < |s| ==> r[k] == r[rp + i..][k - (rp + i)] == s[rp + i..][k - (rp + i)];
  }

  /** The reduction loop: every low word cleared, a multiple of the modulus added. */
  method ReduceRows(rd: array<Word>, nd: array<Word>, nl: nat, n0: Word) returns (carry: Word, ghost m: int)
    requires rd != nd && 0 < nl <= nd.Length && 2 * nl <= rd.Length
    requires (n0 * nd[0] + 1) % BASE == 0
    modifies rd
    ensures Reducing(rd[..2 * nl], nd[..nl], Val(old(rd[..2 * nl])), nl, carry, m)
    ensures rd[2 * nl..] == old(rd[2 * nl..])
  {
    hide Reducing, Val, P;
    ghost var t := Val(rd[..2 * nl]);
    ReducingStart(rd[..2 * nl], nd[..nl]);
    carry, m := 0, 0;
    var i := 0;
    while i < nl
      invariant 0 <= i <= nl && Reducing(rd[..2 * nl], nd[..nl], t, i, carry, m)
      invariant rd[2 * nl..] == old(rd[2 * nl..])
    {
      carry, m := ReduceRow(rd, nd, nl, i, n0, carry, t, m);
      i := i + 1;
    }
  }

  // ------------------------------------------------------ the last subtraction

  lemma SelectByBorrow(x: int, y: int, p: int, b: int, carry: int, n: int, u: int)
    requires (b == 0 || b == 1) && (carry == 0 || carry == 1)
    requires x - p * b == y - n && y + p * carry == u
    requires 0 <= u < 2 * n && n <= p && 0 <= x < p && 0 <= y < p
    ensures b == carry ==> u >= n && x == u - n
    ensures b != carry ==> b - carry == 1 && u < n && y == u
  {
  }

  /** Four words of the copy: loads before stores, the clearing in between. */
  method CopyFour(rp: array<Word>, ap: array<Word>, at: nat, nrp: array<Word>, from: nat, i: nat)
    requires rp != ap && i + 4 <= rp.Length && at + i + 4 <= ap.Length
    requires (nrp == rp && from == 0) || (nrp == ap && from == at)
    modifies rp, ap
    ensures forall k :: 0 <= k < rp.Length ==> rp[k] == if i <= k < i + 4 then old(nrp[from + k]) else old(rp[k])
    ensures forall k :: 0 <= k < ap.Length ==> ap[k] == if at + i <= k < at + i + 4 then 0 else old(ap[k])
  {
    var t1, t2, t3 := nrp[from + i], nrp[from + i + 1], nrp[from + i + 2];
    ap[at + i] := 0;
    var t4 := nrp[from + i + 3];
    ap[at + i + 1] := 0;
    rp[i] := t1;
    ap[at + i + 2] := 0;
    rp[i + 1] := t2;
    ap[at + i + 3] := 0;
    rp[i + 2] := t3;
    rp[i + 3] := t4;
    assert t4 == old(nrp[from + i + 3]);
    assert rp[i] == t1 && rp[i + 1] == t2 && rp[i + 2] == t3 && rp[i + 3] == t4;
    assert ap[at + i] == 0 && ap[at + i + 1] == 0 && ap[at + i + 2] == 0 && ap[at + i + 3] == 0;
  }

  /** The unrolled copy of `nl` words into `rp`, from `ap` at `at` or from `rp` itself,
      clearing those of `ap` on the way. */
  method CopyAndClear(rp: array<Word>, ap: array<Word>, at: nat, nl: nat, keep: bool)
    requires rp != ap && nl <= rp.Length && at + nl <= ap.Length
    modifies rp, ap
    ensures forall k :: 0 <= k < nl ==> rp[k] == if keep then old(ap[at + k]) else old(rp[k])
    ensures forall k :: 0 <= k < ap.Length ==> ap[k] == if at <= k < at + nl then 0 else old(ap[k])
  {
    var nrp, from := rp, 0;
    if keep { nrp, from := ap, at; }
    ghost var source := nrp[from..from + nl];
    var i := 0;
    while i < nl - 4
      invariant 0 <= i <= nl && forall k :: 0 <= k < i ==> rp[k] == source[k]
      invariant forall k :: i <= k < nl ==> nrp[from + k] == source[k]
      invariant forall k :: 0 <= k < ap.Length ==> ap[k] == if at <= k < at + i then 0 else old(ap[k])
    {
      CopyFour(rp, ap, at, nrp, from, i);
      assert forall k :: 0 <= k < i + 4 ==> rp[k] == source[k];
      assert forall k :: i + 4 <= k < nl ==> nrp[from + k] == source[k];
      i := i + 4;
    }
    CopyTail(rp, ap, at, nrp, from, i, nl, source);
  }

  /** The words that are left after the fours. */
  method CopyTail(rp: array<Word>, ap: array<Word>, at: nat, nrp: array<Word>, from: nat, start: nat, nl: nat, ghost source: seq<Word>)
    requires rp != ap && start <= nl <= rp.Length && at + nl <= ap.Length && |source| == nl
    requires (nrp == rp && from == 0) || (nrp == ap && from == at)
    requires forall k :: 0 <= k < start ==> rp[k] == source[k]
    requires forall k :: start <= k < nl ==> nrp[from + k] == source[k]
    modifies rp, ap
    ensures forall k :: 0 <= k < nl ==> rp[k] == source[k]
    ensures forall k :: 0 <= k < ap.Length ==> ap[k] == if at + start <= k < at + nl then 0 else old(ap[k])
  {
    var i := start;
    while i < nl
      invariant start <= i <= nl && forall k :: 0 <= k < i ==> rp[k] == source[k]
      invariant forall k :: i <= k < nl ==> nrp[from + k] == source[k]
      invariant forall k :: 0 <= k < ap.Length ==> ap[k] == if at + start <= k < at + i then 0 else old(ap[k])
    {
      rp[i] := nrp[from + i];
      ap[at + i] := 0;
      i := i + 1;
    }
  }

  /** ret = T - N with its borrow, then the branch-free choice between it and T. */
  method FinalSubtract(rp: array<Word>, rd: array<Word>, nd: array<Word>, nl: nat, carry: Word, ghost u: int)
    requires rp != rd && rp != nd && rd != nd
    requires nl <= rp.Length && nl <= nd.Length && 2 * nl <= rd.Length
    requires (carry == 0 || carry == 1) && Val(rd[nl..2 * nl]) + P(nl) * carry == u
    requires 0 <= u < 2 * Val(nd[..nl])
    modifies rp, rd
    ensures Val(rp[..nl]) == if u >= Val(nd[..nl]) then u - Val(nd[..nl]) else u
    ensures forall k :: 0 <= k < rd.Length ==> rd[k] == if nl <= k < 2 * nl then 0 else old(rd[k])
  {
    hide Val, P, Subtracted;
    ghost var ap := rd[nl..2 * nl];
    var borrow := SubWords(rp, rd, nl, nd, nl);
    assert rd[nl..][..nl] == ap;
    BorrowOf(rp[..], rd[nl..], nd[..], nl, borrow);
    ValBound(rp[..nl]);
    ValBound(ap);
    ValBound(nd[..nl]);
    SelectByBorrow(Val(rp[..nl]), Val(ap), P(nl), borrow, carry, Val(nd[..nl]), u);
    var v: Word := borrow - carry;
    ghost var difference := rp[..nl];
    CopyAndClear(rp, rd, nl, nl, v != 0);
    assert rp[..nl] == if v != 0 then ap else difference;
  }

  lemma BorrowOf(r: seq<Word>, a: seq<Word>, b: seq<Word>, n: nat, c: Word)
    requires n <= |r| && n <= |a| && n <= |b| && Subtracted(r, a, b, n, c)
    ensures (c == 0 || c == 1) && Val(r[..n]) - P(n) * c == Val(a[..n]) - Val(b[..n])
  {
  }

  // ------------------------------------------------------------- the whole call

  /** Clearing the words above `top` keeps the number. */
  method ClearAbove(rd: array<Word>, top: nat, max: nat)
    requires top <= max <= rd.Length
    modifies rd
    ensures Val(rd[..max]) == old(Val(rd[..top]))
    ensures rd[max..] == old(rd[max..])
  {
    var i := top;
    while i < max
      invariant top <= i <= max && rd[..top] == old(rd[..top])
      invariant forall k :: top <= k < i ==> rd[k] == 0
      invariant forall k :: max <= k < rd.Length ==> rd[k] == old(rd[k])
    {
      rd[i] := 0;
      i := i + 1;
    }
    TrailingZeros(rd[..max], top);
    assert rd[..max][..top] == rd[..top];
  }

  /** When every row is in, the upper half and its carry are the quotient BnMontgomery
      defines. */
  lemma RowsAreReduced(s: seq<Word>, nw: seq<Word>, t: int, carry: Word, m: int, c: Mont)
    requires ValidMont(c) && c.n == Val(nw) && c.r == P(|nw|)
    requires Reducing(s, nw, t, |nw|, carry, m)
    ensures m == Multiplier(c, t)
    ensures Val(s[|nw|..]) + P(|nw|) * carry == Reduced(c, t)
  {
    hide *;
    var nl := |nw|;
    RowsSum(s, nw, t, carry, m);
    var high := Val(s[nl..]);
    PowerAdd(nl, nl);
    HighHalf(high, P(nl), carry, m * c.n + t);
    ReducedIs(c, t, m, high + P(nl) * carry);
  }

  lemma RowsSum(s: seq<Word>, nw: seq<Word>, t: int, carry: Word, m: int)
    requires Reducing(s, nw, t, |nw|, carry, m)
    ensures |s| == 2 * |nw| && 0 <= m < P(|nw|)
    ensures P(|nw|) * Val(s[|nw|..]) + P(|nw| + |nw|) * carry == m * Val(nw) + t
  {
    ValSplit(s, |nw|);
    ValZeros(s[..|nw|]);
    hide Val, P;
  }

  lemma HighHalf(high: int, p: int, carry: int, sum: int)
    requires p * high + (p * p) * carry == sum
    ensures (high + p * carry) * p + 0 == sum
  {
    Associate(p, p, carry);
    Distribute(high, p * carry, p);
  }

  lemma ReducedIs(c: Mont, t: int, m: int, u: int)
    requires ValidMont(c)
    ensures 0 <= m < c.r && u * c.r + 0 == m * c.n + t ==> m == Multiplier(c, t) && u == Reduced(c, t)
  {
    hide Multiplier, ValidMont;
    Quotient(u, 0, c.r);
    MultiplierUnique(c, t, m);
  }

  lemma CallerFits(r: Bignum, n: Bignum)
    requires r.Valid() && r.Normal() && n.Valid() && r.Magnitude() < P(n.top) * n.Magnitude()
    ensures r.top <= 2 * n.top
  {
    hide Val, P;
    ValBound(n.Words());
    Powers(n.top);
    MulStrict(n.Magnitude(), P(n.top), P(n.top));
    PowerAdd(n.top, n.top);
    if r.top > 2 * n.top {
      NormalBound(r);
      PowerGrows(2 * n.top, r.top - 1);
    }
  }

  lemma PowerGrows(m: nat, n: nat)
    requires m <= n
    ensures 0 < P(m) <= P(n)
  {
    PowerAdd(m, n - m);
    Powers(m);
    Powers(n - m);
    MulMonotone(1, P(n - m), P(m));
  }

  /** What BN_MONT_CTX_set leaves in `n` and `n0`, `c` being the context on integers. */
  ghost predicate Suits(n: Bignum, n0: Word, c: Mont)
    requires n.Valid() && n.top > 0
    reads n, n.d
  {
    (n0 * n.d[0] + 1) % BASE == 0 && ValidMont(c) && c.n == n.Magnitude() && c.r == P(n.top)
  }

  lemma SuitsMeans(n: Bignum, n0: Word, c: Mont)
    requires n.Valid() && n.top > 0 && Suits(n, n0, c)
    ensures (n0 * n.d[0] + 1) % BASE == 0 && ValidMont(c) && c.n == n.Magnitude() && c.r == P(n.top)
  {
  }

  /** The loop over the rows, in the terms of BnMontgomery. */
  method ReduceWords(rd: array<Word>, nd: array<Word>, nl: nat, n0: Word, ghost c: Mont) returns (carry: Word)
    requires rd != nd && 0 < nl <= nd.Length && 2 * nl <= rd.Length
    requires (n0 * nd[0] + 1) % BASE == 0 && ValidMont(c) && c.n == Val(nd[..nl]) && c.r == P(nl)
    requires Val(rd[..2 * nl]) < c.r * c.n
    modifies rd
    ensures carry == 0 || carry == 1
    ensures Val(rd[nl..2 * nl]) + P(nl) * carry == Reduced(c, old(Val(rd[..2 * nl])))
    ensures 0 <= Reduced(c, old(Val(rd[..2 * nl]))) < 2 * c.n
    ensures forall k :: 0 <= k < nl ==> rd[k] == 0
  {
    hide Val, P, Reducing, ValidMont, Multiplier, Reduced;
    ghost var t := Val(rd[..2 * nl]);
    ghost var m;
    carry, m := ReduceRows(rd, nd, nl, n0);
    ghost var s := rd[..2 * nl];
    RowsAreReduced(s, nd[..nl], t, carry, m, c);
    assert s[nl..] == rd[nl..2 * nl];
    LowWordsClear(s, nd[..nl], t, carry, m);
    assert forall k :: 0 <= k < nl ==> rd[k] == s[k];
    RedcCorrect(c, t);
  }

  lemma LowWordsClear(s: seq<Word>, nw: seq<Word>, t: int, carry: Word, m: int)
    requires Reducing(s, nw, t, |nw|, carry, m)
    ensures |s| == 2 * |nw| && (carry == 0 || carry == 1) && forall k :: 0 <= k < |nw| ==> s[k] == 0
  {
    hide Val, P;
  }

  /** Room for two words per word of the modulus, the new ones zero. */
  method Widen(memory: Memory, r: Bignum, n: Bignum) returns (ok: bool)
    requires r != n && r.d != n.d && r.Valid() && n.Valid() && r.Normal() && r.Magnitude() < P(n.top) * n.Magnitude()
    modifies r, r.d, memory
    ensures memory.Refused() >= old(memory.Refused())
    ensures ok <==> old(r.CanHold(2 * n.top)) && memory.Refused() == old(memory.Refused())
    ensures r.Valid() && (r.d == old(r.d) || fresh(r.d))
    ensures ok ==> r.top == 2 * n.top && r.Magnitude() == old(r.Magnitude()) && r.neg == (old(r.neg) != n.neg)
  {
    hide Val, P;
    CallerFits(r, n);
    var max := 2 * n.top;
    ok := r.WExpand(memory, max);
    if !ok { return; }
    r.neg := r.neg != n.neg;
    ClearAbove(r.d, r.top, max);
    r.top := max;
  }

  /** BN_from_montgomery_word: `ret` becomes the reduction of `r`, which is wiped. */
  method FromMontgomeryWord(memory: Memory, ret: Bignum, r: Bignum, n: Bignum, n0: Word, ghost c: Mont) returns (ok: bool)
    requires ret != r && ret != n && r != n && ret.d != r.d && ret.d != n.d && r.d != n.d
    requires ret.Valid() && r.Valid() && n.Valid() && r.Normal()
    requires n.top > 0 ==> Suits(n, n0, c) && r.Magnitude() < c.r * c.n
    modifies ret, ret.d, r, r.d, memory
    ensures memory.Refused() >= old(memory.Refused())
    ensures ok <==> (n.top == 0 || old(r.CanHold(2 * n.top) && ret.CanHold(n.top))) && memory.Refused() == old(memory.Refused())
    ensures ok ==> n.top <= ret.d.Length
    ensures ret.Valid() && r.Valid() && (ret.d == old(ret.d) || fresh(ret.d))
    ensures n.top == 0 ==> ok && ret.top == 0
    ensures ok && n.top > 0 ==> ret.Normal() && ret.top <= n.top && ret.Magnitude() == Redc(c, old(r.Magnitude()))
    ensures ok && n.top > 0 ==> ret.neg == (old(r.neg) != n.neg)
    ensures ok && n.top > 0 ==> r.top == 0 && 2 * n.top <= r.d.Length && forall k :: 0 <= k < 2 * n.top ==> r.d[k] == 0
  {
    hide Val, P, ValidMont, Reduced, Multiplier, Suits;
    var nl := n.top;
    if nl > 0 { SuitsMeans(n, n0, c); }
    if nl == 0 {
      ret.top := 0;
      return true;
    }
    ghost var t := r.Magnitude();
    ok := Widen(memory, r, n);
    if !ok { return; }
    var carry := ReduceWords(r.d, n.d, nl, n0, c);
    ok := StoreReduced(memory, ret, r, n, carry, Reduced(c, t));
  }

  /** Its end: the upper half of `r`, reduced once more, into `ret`. */
  method StoreReduced(memory: Memory, ret: Bignum, r: Bignum, n: Bignum, carry: Word, ghost u: int) returns (ok: bool)
    requires ret != r && ret != n && r != n && ret.d != r.d && ret.d != n.d && r.d != n.d
    requires ret.Valid() && r.Valid() && n.Valid() && n.top > 0 && r.top == 2 * n.top
    requires (carry == 0 || carry == 1) && Val(r.d[n.top..2 * n.top]) + P(n.top) * carry == u
    requires 0 <= u < 2 * n.Magnitude() && forall k :: 0 <= k < n.top ==> r.d[k] == 0
    modifies ret, ret.d, r, r.d, memory
    ensures memory.Refused() >= old(memory.Refused())
    ensures ok <==> old(ret.CanHold(n.top)) && memory.Refused() == old(memory.Refused())
    ensures ok ==> n.top <= ret.d.Length
    ensures ret.Valid() && r.Valid() && (ret.d == old(ret.d) || fresh(ret.d))
    ensures ok ==> ret.Normal() && ret.top <= n.top && ret.neg == old(r.neg)
    ensures ok ==> ret.Magnitude() == old(if u >= n.Magnitude() then u - n.Magnitude() else u)
    ensures ok ==> r.d == old(r.d) && r.top == 0 && 2 * old(n.top) <= r.d.Length && forall k :: 0 <= k < 2 * n.top ==> r.d[k] == 0
  {
    hide Val, P;
    var nl := n.top;
    ok := ret.WExpand(memory, nl);
    if !ok { return; }
    ret.top := nl;
    ret.neg := r.neg;
    FinalSubtract(ret.d, r.d, n.d, nl, carry, u);
    r.FixTop();
    ret.FixTop();
  }
}

/** BN_mod_exp_mont_consttime (crypto/bn/bn_exp.c): fixed windows over a table of powers
    whose octets are interleaved. */
module BnExpConst {
  import opened BnModular
  import opened BnWords
  import opened BnMontgomery
  import opened BnContext
  import opened Bignum
  import opened BnReduce
  import opened BnMul
  import opened BnModMul
  import opened BnExp
  import opened BnExpWords

  // ------------------------------------------------------- the octets of a word

  type Octet = x: int | 0 <= x < 256

  /** Octet `j` of a word in memory. */
  function OctetOf(w: Word, j: nat): Octet
    requires j < 4
  {
    if j == 0 then w % 256
    else if j == 1 then w / 256 % 256
    else if j == 2 then w / 0x1_0000 % 256
    else w / 0x100_0000
  }

  function Weight(j: nat): int
    requires j < 4
  {
    if j == 0 then 1 else if j == 1 then 256 else if j == 2 then 0x1_0000 else 0x100_0000
  }

  lemma WordOfOctets(w: Word)
    ensures w == OctetOf(w, 0) + 256 * OctetOf(w, 1) + 0x1_0000 * OctetOf(w, 2) + 0x100_0000 * OctetOf(w, 3)
  {
    var q1 := w / 256;
    var q2 := q1 / 256;
    TwoDivisions(w);
    TwoDivisions(q1);
    assert w == 256 * q1 + OctetOf(w, 0) && q1 == 256 * q2 + OctetOf(w, 1) && q2 == 256 * (q2 / 256) + OctetOf(w, 2);
  }

  lemma TwoDivisions(x: nat)
    ensures x / 0x1_0000 == x / 256 / 256 && x / 0x100_0000 == x / 256 / 0x1_0000
  {
  }

  lemma OctetsOfSum(a: Octet, b: Octet, c: Octet, d: Octet)
    ensures var w := a + 256 * b + 0x1_0000 * c + 0x100_0000 * d;
            0 <= w < BASE && OctetOf(w, 0) == a && OctetOf(w, 1) == b && OctetOf(w, 2) == c && OctetOf(w, 3) == d
  {
  }

  /** The word with another octet `j`. */
  function WithOctet(w: Word, j: nat, x: Octet): Word
    requires j < 4
  {
    WordOfOctets(w);
    w + (x - OctetOf(w, j)) * Weight(j)
  }

  lemma OtherOctetsStay(w: Word, j: nat, x: Octet, k: nat)
    requires j < 4 && k < 4
    ensures OctetOf(WithOctet(w, j, x), k) == if k == j then x else OctetOf(w, k)
  {
    WordOfOctets(w);
    var a, b, c, d := OctetOf(w, 0), OctetOf(w, 1), OctetOf(w, 2), OctetOf(w, 3);
    OctetsOfSum(if j == 0 then x else a, if j == 1 then x else b, if j == 2 then x else c, if j == 3 then x else d);
  }

  lemma SameOctets(w: Word, v: Word)
    requires forall j: nat :: j < 4 ==> OctetOf(w, j) == OctetOf(v, j)
    ensures w == v
  {
    WordOfOctets(w);
    WordOfOctets(v);
    assert OctetOf(w, 0) == OctetOf(v, 0) && OctetOf(w, 1) == OctetOf(v, 1);
    assert OctetOf(w, 2) == OctetOf(v, 2) && OctetOf(w, 3) == OctetOf(v, 3);
  }

  // ---------------------------------------------------------- the table of powers

  /** Where octet `i` of power `idx` lies. */
  function Place(idx: nat, i: nat, width: nat): nat
  {
    idx + i * width
  }

  lemma PlaceInside(idx: nat, i: nat, width: nat, rows: nat)
    requires idx < width && i < rows
    ensures Place(idx, i, width) < rows * width
  {
    MulMonotone(i + 1, rows, width);
    Distribute(i, 1, width);
  }

  lemma PlacesDiffer(idx: nat, i: nat, j: nat, k: nat, width: nat)
    requires idx < width && j < width && Place(idx, i, width) == Place(j, k, width)
    ensures idx == j && i == k
  {
    Quotient(i, idx, width);
    Quotient(k, j, width);
  }

  /** The table has room for `width` powers of `top` words. */
  ghost predicate Rows(size: nat, top: nat, width: nat)
  {
    size >= 4 * top * width && forall j: nat, k: nat :: j < width && k < 4 * top ==> Place(j, k, width) < size
  }

  lemma RowsFit(size: nat, top: nat, width: nat)
    requires size >= 4 * top * width
    ensures Rows(size, top, width)
  {
    forall j: nat, k: nat | j < width && k < 4 * top
      ensures Place(j, k, width) < size
    {
      PlaceInside(j, k, width, 4 * top);
    }
  }

  /** Power `idx` of the table is the number of these words. */
  ghost predicate Column(buf: seq<Octet>, idx: nat, width: nat, words: seq<Word>)
    requires Rows(|buf|, |words|, width) && idx < width
  {
    forall k: nat :: k < 4 * |words| ==> buf[Place(idx, k, width)] == OctetOf(words[k / 4], k % 4)
  }

  function Zeros(n: nat): (r: seq<Word>)
    ensures |r| == n && forall k :: 0 <= k < n ==> r[k] == 0
  {
    seq(n, _ => 0)
  }

  /** The words of a number, filled up with zeros. */
  function Padded(s: seq<Word>, n: nat): seq<Word>
    requires |s| <= n
  {
    s + Zeros(n - |s|)
  }

  lemma PaddedValue(s: seq<Word>, n: nat)
    requires |s| <= n
    ensures |Padded(s, n)| == n && Val(Padded(s, n)) == Val(s)
  {
    hide Val;
    var t := Padded(s, n);
    TrailingZeros(t, |s|);
    assert t[..|s|] == s;
  }

  /** MOD_EXP_CTIME_COPY_TO_PREBUF: it writes the words the number has and relies on zeros
      for the rest. */
  method CopyToPrebuf(b: Bignum, top: nat, buf: array<Octet>, idx: nat, width: nat)
    requires b.Valid() && b.top <= top && idx < width && Rows(buf.Length, top, width)
    requires Column(buf[..], idx, width, Zeros(top))
    modifies buf
    ensures Column(buf[..], idx, width, Padded(b.Words(), top))
    ensures forall j: nat, k: nat :: j < width && j != idx && k < 4 * top ==> buf[Place(j, k, width)] == old(buf[Place(j, k, width)])
  {
    hide OctetOf, Place, Rows;
    RowsMeans(buf.Length, top, width);
    var n := 4 * b.top;
    for i := 0 to n
      invariant forall k: nat :: k < i ==> buf[Place(idx, k, width)] == OctetOf(b.d[k / 4], k % 4)
      invariant forall k: nat :: i <= k < 4 * top ==> buf[Place(idx, k, width)] == OctetOf(0, k % 4)
      invariant forall j: nat, k: nat :: j < width && j != idx && k < 4 * top ==> buf[Place(j, k, width)] == old(buf[Place(j, k, width)])
    {
      NoOther(idx, i, top, width);
      buf[Place(idx, i, width)] := OctetOf(b.d[i / 4], i % 4);
    }
    PaddedValue(b.Words(), top);
  }

  lemma RowsMeans(size: nat, top: nat, width: nat)
    requires Rows(size, top, width)
    ensures forall j: nat, k: nat :: j < width && k < 4 * top ==> Place(j, k, width) < size
  {
  }

  lemma NoOther(idx: nat, i: nat, top: nat, width: nat)
    requires idx < width
    ensures forall j: nat, k: nat :: j < width && (j != idx || k != i) ==> Place(j, k, width) != Place(idx, i, width)
  {
    hide Place;
    forall j: nat, k: nat | j < width && (j != idx || k != i)
      ensures Place(j, k, width) != Place(idx, i, width)
    {
      if Place(j, k, width) == Place(idx, i, width) { PlacesDiffer(idx, i, j, k, width); assert false; }
    }
  }

  /** MOD_EXP_CTIME_COPY_FROM_PREBUF: the number as it was stored; the sign is left alone. */
  method CopyFromPrebuf(memory: Memory, b: Bignum, top: nat, buf: array<Octet>, idx: nat, width: nat, ghost words: seq<Word>) returns (ok: bool)
    requires b.Valid() && idx < width && |words| == top && Rows(buf.Length, top, width) && Column(buf[..], idx, width, words)
    modifies b`d, b`top, b.d, memory
    ensures memory.Refused() >= old(memory.Refused())
    ensures ok <==> old(b.CanHold(top)) && memory.Refused() == old(memory.Refused())
    ensures ok ==> top <= b.d.Length
    ensures b.Valid() && (b.d == old(b.d) || fresh(b.d))
    ensures top <= old(b.d.Length) ==> ok && b.d == old(b.d)
    ensures ok ==> b.Normal() && b.Magnitude() == Val(words)
  {
    hide OctetOf, Place, Rows, WithOctet;
    ok := b.WExpand(memory, top);
    if !ok { return; }
    b.top := 0;
    ghost var refused := memory.Refused();
    var d := b.d;
    RowsMeans(buf.Length, top, width);
    for i := 0 to 4 * top
      invariant memory.Refused() == refused && b.d == d
      invariant forall k: nat :: k < i ==> OctetOf(d[k / 4], k % 4) == OctetOf(words[k / 4], k % 4)
    {
      ghost var before := d[..];
      d[i / 4] := WithOctet(d[i / 4], i % 4, buf[Place(idx, i, width)]);
      OctetsSoFar(before, d[..], words, i, buf[Place(idx, i, width)]);
    }
    forall k | 0 <= k < top ensures d[k] == words[k] {
      forall j: nat | j < 4 ensures OctetOf(d[k], j) == OctetOf(words[k], j) {
        assert (4 * k + j) / 4 == k && (4 * k + j) % 4 == j;
      }
      SameOctets(d[k], words[k]);
    }
    b.top := top;
    assert b.Words() == words;
    b.FixTop();
  }

  lemma OctetsSoFar(before: seq<Word>, after: seq<Word>, words: seq<Word>, i: nat, x: Octet)
    requires i < 4 * |words| && |words| <= |before| && x == OctetOf(words[i / 4], i % 4)
    requires after == before[i / 4 := WithOctet(before[i / 4], i % 4, x)]
    requires forall k: nat :: k < i ==> OctetOf(before[k / 4], k % 4) == OctetOf(words[k / 4], k % 4)
    ensures forall k: nat :: k < i + 1 ==> OctetOf(after[k / 4], k % 4) == OctetOf(words[k / 4], k % 4)
  {
    hide OctetOf, WithOctet;
    forall k: nat | k < i + 1
      ensures OctetOf(after[k / 4], k % 4) == OctetOf(words[k / 4], k % 4)
    {
      if k / 4 == i / 4 { OtherOctetsStay(before[i / 4], i % 4, x, k % 4); }
    }
  }

  // --------------------------------------------------------------- fixed windows

  /** BN_window_bits_for_ctime_exponent_size, for cache lines of 64 octets. */
  function CtimeWindowBits(b: int): int
  {
    if b > 937 then 6 else if b > 306 then 5 else if b > 89 then 4 else if b > 22 then 3 else 1
  }

  /** The first `filled` powers of `x` are in the table, the rest of it is zero. */
  ghost predicate Table(buf: seq<Octet>, cols: seq<seq<Word>>, top: nat, width: nat, filled: nat, c: Mont, x: int)
    requires Rows(|buf|, top, width)
  {
    && filled <= |cols| == width && (forall j: nat :: j < width ==> |cols[j]| == top)
    && (forall j: nat :: j < width ==> Column(buf, j, width, cols[j]))
    && (forall j: nat :: j < filled ==> Val(cols[j]) == InMont(c, Pow(x, j)))
    && (forall j: nat :: filled <= j < width ==> cols[j] == Zeros(top))
  }

  /** One more power. */
  method Store(b: Bignum, top: nat, buf: array<Octet>, idx: nat, width: nat, ghost cols: seq<seq<Word>>, ghost c: Mont, ghost x: int)
    returns (ghost cols': seq<seq<Word>>)
    requires Rows(buf.Length, top, width) && idx < width && Table(buf[..], cols, top, width, idx, c, x)
    requires Holds(b, c, Pow(x, idx)) && b.top <= top
    modifies buf
    ensures Table(buf[..], cols', top, width, idx + 1, c, x)
  {
    hide Rows, Val, InMont, Pow, Padded, Zeros, Place, OctetOf;
    RowsMeans(buf.Length, top, width);
    ghost var was := buf[..];
    assert Column(was, idx, width, cols[idx]) && cols[idx] == Zeros(top);
    CopyToPrebuf(b, top, buf, idx, width);
    PaddedValue(b.Words(), top);
    cols' := cols[idx := Padded(b.Words(), top)];
    forall j: nat | j < width && j != idx ensures Column(buf[..], j, width, cols'[j]) {
      ColumnStays(was, buf[..], j, idx, width, cols[j]);
    }
  }

  lemma ColumnStays(was: seq<Octet>, now: seq<Octet>, j: nat, idx: nat, width: nat, words: seq<Word>)
    requires |was| == |now| && Rows(|was|, |words|, width) && j < width && j != idx && Column(was, j, width, words)
    requires forall i: nat, k: nat :: i < width && i != idx && k < 4 * |words| ==> Place(i, k, width) < |was| && now[Place(i, k, width)] == was[Place(i, k, width)]
    ensures Column(now, j, width, words)
  {
    hide Place, OctetOf, Rows;
  }

  /** The powers from 2 up, `tmp` left with the last one. */
  method FillPowers(memory: Memory, tmp: Bignum, am: Bignum, top: nat, buf: array<Octet>, width: nat, n: Bignum, n0: Word, ghost c: Mont, ghost x: int,
    ghost cols0: seq<seq<Word>>) returns (ok: bool, ghost cols: seq<seq<Word>>)
    requires width > 2 && Rows(buf.Length, top, width) && Table(buf[..], cols0, top, width, 2, c, x)
    requires Modulus(n, n0, c) && n.top == top && tmp.Valid() && Holds(am, c, x) && tmp != n && tmp.d != n.d && tmp != am && tmp.d != am.d
    modifies tmp, tmp.d, buf, memory
    ensures memory.Refused() >= old(memory.Refused())
    ensures !ok ==> memory.Refused() > old(memory.Refused()) || 2 * n.top > 16777215 || !old(tmp.CanHold(n.top))
    ensures ok ==> n.top <= tmp.d.Length
    ensures tmp.Valid() && (tmp.d == old(tmp.d) || fresh(tmp.d))
    ensures ok ==> Table(buf[..], cols, top, width, width, c, x)
  {
    hide Holds, Modulus, Table, Rows, Pow, InMont;
    cols := cols0;
    ok := Times(memory, tmp, am, am, n, n0, c, x, x);
    if !ok { return; }
    SecondPower(x);
    Fits(tmp, n, n0, c, x * x);
    cols := Store(tmp, top, buf, 2, width, cols, c, x);
    for i := 3 to width
      invariant ok && tmp.Valid() && (tmp.d == old(tmp.d) || fresh(tmp.d)) && n.top <= tmp.d.Length
      invariant memory.Refused() >= old(memory.Refused())
      invariant Holds(tmp, c, Pow(x, i - 1)) && Holds(am, c, x) && Modulus(n, n0, c) && n.top == top
      invariant Table(buf[..], cols, top, width, i, c, x)
    {
      NextPower(x, i - 1);
      ok := Times(memory, tmp, am, tmp, n, n0, c, x, Pow(x, i - 1));
      if !ok { return; }
      Fits(tmp, n, n0, c, Pow(x, i));
      cols := Store(tmp, top, buf, i, width, cols, c, x);
    }
  }

  lemma SecondPower(x: int)
    ensures Pow(x, 2) == x * x && Pow(x, 1) == x && Pow(x, 0) == 1
  {
    assert Pow(x, 1) == x * Pow(x, 0);
  }

  lemma NextPower(x: int, i: nat)
    ensures Pow(x, i + 1) == x * Pow(x, i)
  {
  }

  /** Fetch one power: its sign is that of the number it is fetched into. */
  method Fetch(memory: Memory, b: Bignum, top: nat, buf: array<Octet>, idx: nat, width: nat, ghost cols: seq<seq<Word>>, ghost c: Mont, ghost x: int)
    returns (ok: bool)
    requires b.Valid() && Rows(buf.Length, top, width) && idx < width && Table(buf[..], cols, top, width, width, c, x)
    modifies b`d, b`top, b.d, memory
    ensures memory.Refused() >= old(memory.Refused())
    ensures ok <==> old(b.CanHold(top)) && memory.Refused() == old(memory.Refused())
    ensures ok ==> top <= b.d.Length
    ensures b.Valid() && (b.d == old(b.d) || fresh(b.d))
    ensures ok ==> Holds(b, c, Pow(x, idx))
  {
    hide Rows, Val, InMont, Pow, Column;
    ok := CopyFromPrebuf(memory, b, top, buf, idx, width, cols[idx]);
  }

  // -------------------------------------------------------------- scanning the bits

  /** The bits above the last whole window. */
  method FirstWindow(p: Bignum, bits0: nat, window: nat) returns (wvalue: nat, bits: int)
    requires p.Valid() && window > 0 && High(p.Magnitude(), bits0 + 1) == 0
    ensures bits == bits0 / window * window - 1 && bits >= -1
    ensures wvalue == High(p.Magnitude(), bits + 1) && wvalue < Two(window)
  {
    hide High, BitSet, IsBitSet, Val, Two;
    wvalue, bits := 0, bits0;
    var i: int := bits0 % window;
    DivMod(bits0, window);
    PositiveQuotient(bits0, window);
    ghost var first := i + 1;
    TwoZero();
    while i >= 0
      invariant -1 <= i < first && bits - i == bits0 - bits0 % window && bits >= -1
      invariant wvalue == High(p.Magnitude(), bits + 1) && wvalue < Two(first - (i + 1))
    {
      BitOfWords(p, bits);
      HighStep(p.Magnitude(), bits);
      TwoNext(first - (i + 1));
      wvalue := 2 * wvalue + (if IsBitSet(p, bits) then 1 else 0);
      i, bits := i - 1, bits - 1;
    }
    TwoMonotone(first, window);
  }

  lemma PositiveQuotient(b: int, n: int)
    requires b >= 0 && n > 0
    ensures 0 <= b / n * n <= b
  {
    DivMod(b, n);
    Nonnegative(b, n);
    MulMonotone(0, b / n, n);
  }

  lemma TwoZero()
    ensures Two(0) == 1
  {
  }

  lemma TwoNext(n: nat)
    ensures Two(n + 1) == 2 * Two(n)
  {
  }

  lemma TwoMonotone(m: nat, n: nat)
    requires m <= n
    ensures Two(m) <= Two(n)
  {
    PowMonotone(2, m, n);
  }

  /** One window: as many squarings as bits read. */
  method NextWindow(memory: Memory, tmp: Bignum, p: Bignum, bits0: int, window: nat, n: Bignum, n0: Word, ghost c: Mont, ghost x: int)
    returns (ok: bool, wvalue: nat)
    requires p.Valid() && 0 < window <= bits0 + 1 && Modulus(n, n0, c) && tmp != n && tmp.d != n.d && tmp != p && tmp.d != p.d
    requires Holds(tmp, c, Pow(x, High(p.Magnitude(), bits0 + 1)))
    modifies tmp, tmp.d, memory
    ensures memory.Refused() >= old(memory.Refused())
    ensures !ok ==> memory.Refused() > old(memory.Refused()) || 2 * n.top > 16777215 || !old(tmp.CanHold(n.top))
    ensures ok ==> n.top <= tmp.d.Length
    ensures tmp.Valid() && (tmp.d == old(tmp.d) || fresh(tmp.d)) && wvalue < Two(window)
    ensures ok ==> wvalue <= High(p.Magnitude(), bits0 + 1 - window) && !tmp.neg
    ensures ok ==> Holds(tmp, c, Pow(x, High(p.Magnitude(), bits0 + 1 - window) - wvalue))
  {
    hide Holds, Modulus, Pow, InMont, Two, High, BitSet, IsBitSet, Val;
    ghost var e, h := p.Magnitude(), High(p.Magnitude(), bits0 + 1);
    ok, wvalue := true, 0;
    var bits := bits0;
    TwoZero();
    Held(tmp, c, Pow(x, h));
    for i := 0 to window
      invariant ok && bits == bits0 - i && tmp.Valid() && (tmp.d == old(tmp.d) || fresh(tmp.d)) && (i > 0 ==> !tmp.neg)
      invariant Modulus(n, n0, c) && p.Valid() && p.Magnitude() == e
      invariant memory.Refused() >= old(memory.Refused()) && (if i == 0 then tmp.d == old(tmp.d) else n.top <= tmp.d.Length)
      invariant wvalue < Two(i) && High(e, bits + 1) == h * Two(i) + wvalue && Holds(tmp, c, Pow(x, h * Two(i)))
    {
      ghost var y := h * Two(i);
      PowAdd(x, y, y);
      TwoNext(i);
      DoubleProduct(h, Two(i));
      ok := Times(memory, tmp, tmp, tmp, n, n0, c, Pow(x, y), Pow(x, y));
      if !ok {
        TwoMonotone(i, window);
        return;
      }
      BitOfWords(p, bits);
      HighStep(e, bits);
      wvalue := 2 * wvalue + (if IsBitSet(p, bits) then 1 else 0);
      bits := bits - 1;
    }
  }

  lemma DoubleProduct(h: int, q: int)
    ensures h * (2 * q) == h * q + h * q
  {
  }

  // ----------------------------------------------------------------- the loop

  /** What a Montgomery form of zero says about its number. */
  lemma ZeroForm(c: Mont, x: int, y: int)
    requires ValidMont(c)
    ensures InMont(c, x) == 0 ==> x % c.n == 0 && InMont(c, x * y) == 0 && InMont(c, y * x) == 0
  {
    hide ValidMont, Redc;
    if InMont(c, x) != 0 { return; }
    SmallResidue(0, c.n);
    assert InMont(c, 0) == 0;
    FromMontIsResidue(c, x);
    FromMontIsResidue(c, 0);
    MulResidue(x, y * c.r, c.n);
    Associate(x, y, c.r);
    Commute(x, y);
    MulResidue(0, y * c.r, c.n);
  }

  /** Two numbers have one sign, or the first is zero. */
  ghost predicate SignOf(b: Bignum, neg: bool)
    reads b, b.d
    requires b.Valid()
  {
    b.neg == neg || b.Magnitude() == 0
  }

  /** The product of a window: the sign of the fetched power. */
  method MultiplyIn(memory: Memory, tmp: Bignum, am: Bignum, n: Bignum, n0: Word, ghost c: Mont, ghost x: int, ghost y: int) returns (ok: bool)
    requires Holds(tmp, c, x) && !tmp.neg && Holds(am, c, y) && Modulus(n, n0, c) && tmp != n && tmp.d != n.d && tmp != am && tmp.d != am.d
    modifies tmp, tmp.d, memory
    ensures memory.Refused() >= old(memory.Refused())
    ensures !ok ==> memory.Refused() > old(memory.Refused()) || 2 * n.top > 16777215 || !old(tmp.CanHold(n.top))
    ensures ok ==> n.top <= tmp.d.Length
    ensures tmp.Valid() && (tmp.d == old(tmp.d) || fresh(tmp.d))
    ensures ok ==> Holds(tmp, c, x * y) && SignOf(tmp, am.neg)
  {
    hide Holds, Modulus, InMont, Val, ValidMont, Suits;
    FormsFit(n, n0, c, x, y);
    Held(tmp, c, x);
    Held(am, c, y);
    ghost var zero := tmp.top == 0 || am.top == 0;
    if tmp.top == 0 { NoWords(tmp); ZeroForm(c, x, y); }
    if am.top == 0 { NoWords(am); ZeroForm(c, y, x); }
    ok := Times(memory, tmp, tmp, am, n, n0, c, x, y);
    if ok {
      Held(tmp, c, x * y);
      assert zero ==> tmp.Magnitude() == 0;
    }
  }

  /** The windows below the first: squarings, a fetched power, a product. */
  method WindowsLoop(memory: Memory, tmp: Bignum, am: Bignum, p: Bignum, bits0: int, window: nat, top: nat, buf: array<Octet>, n: Bignum, n0: Word,
    ghost cols: seq<seq<Word>>, ghost c: Mont, ghost x: int) returns (ok: bool)
    requires p.Valid() && window > 0 && Whole(bits0 + 1, window) && Modulus(n, n0, c)
    requires Rows(buf.Length, top, Two(window)) && Table(buf[..], cols, top, Two(window), Two(window), c, x)
    requires Holds(tmp, c, Pow(x, High(p.Magnitude(), bits0 + 1))) && am.Valid() && tmp != am && tmp.d != am.d
    requires tmp !in {n, p} && am !in {n, p} && tmp.d !in {n.d, p.d} && am.d !in {n.d, p.d}
    modifies tmp, am, tmp.d, am.d, memory
    ensures memory.Refused() >= old(memory.Refused())
    ensures !ok ==> memory.Refused() > old(memory.Refused()) || 2 * n.top > 16777215 || !old(tmp.CanHold(n.top)) || !old(am.CanHold(top))
    ensures tmp.Valid() && (tmp.d == old(tmp.d) || fresh(tmp.d))
    ensures ok ==> Holds(tmp, c, Pow(x, p.Magnitude()))
    ensures ok && bits0 >= 0 ==> SignOf(tmp, old(am.neg))
    ensures ok && bits0 < 0 ==> tmp.neg == old(tmp.neg)
  {
    hide Holds, Modulus, Pow, InMont, Two, High, Val, Table, Rows, SignOf, ValidMont, Suits, P, Refusals;
    ghost var e, sign := p.Magnitude(), am.neg;
    var bits := bits0;
    ok := true;
    Held(tmp, c, Pow(x, High(e, bits + 1)));
    while bits >= 0
      invariant ok && tmp.Valid() && -1 <= bits <= bits0 && Whole(bits + 1, window) && (bits < bits0 ==> SignOf(tmp, sign)) && am.neg == sign
      invariant bits == bits0 ==> tmp.neg == old(tmp.neg)
      invariant am.Valid() && tmp.d != am.d && tmp.d !in {n.d, p.d} && am.d !in {n.d, p.d}
      invariant (tmp.d == old(tmp.d) || fresh(tmp.d)) && (am.d == old(am.d) || fresh(am.d))
      invariant Holds(tmp, c, Pow(x, High(e, bits + 1))) && p.Valid() && p.Magnitude() == e && Modulus(n, n0, c)
      invariant Table(buf[..], cols, top, Two(window), Two(window), c, x)
      invariant memory.Refused() >= old(memory.Refused())
      invariant bits == bits0 || n.top <= tmp.d.Length
      invariant if bits == bits0 then tmp.d == old(tmp.d) && am.d == old(am.d) else top <= am.d.Length
      decreases bits
    {
      ghost var h := High(e, bits + 1 - window);
      var wvalue;
      ok, wvalue := NextWindow(memory, tmp, p, bits, window, n, n0, c, x);
      if !ok { return; }
      ok := Fetch(memory, am, top, buf, wvalue, Two(window), cols, c, x);
      if !ok { return; }
      PowAdd(x, h - wvalue, wvalue);
      ok := MultiplyIn(memory, tmp, am, n, n0, c, Pow(x, h - wvalue), Pow(x, wvalue));
      if !ok { return; }
      bits := bits - window;
    }
    HighEnds(e);
  }

  /** `bits` is a number of whole windows. */
  ghost predicate Whole(bits: int, window: nat)
    requires window > 0
    decreases bits
  {
    bits == 0 || (bits >= window && Whole(bits - window, window))
  }

  lemma {:induction false} MultipleIsWhole(q: nat, window: nat)
    requires window > 0
    ensures Whole(q * window, window)
  {
    if q > 0 {
      MultipleIsWhole(q - 1, window);
      Distribute(q, 1, window);
      MulMonotone(1, q, window);
    }
  }

  // --------------------------------------------------- BN_mod_exp_mont_consttime

  /** What BN_mod leaves of `a`: the remainder with the sign of `a`. */
  ghost predicate IsRemainder(b: Bignum, a: int, n: int)
    requires n > 0
    reads b, b.d
  {
    b.Valid() && b.Normal() && b.Magnitude() == Abs(a) % n && (b.top > 0 ==> b.neg == (a < 0))
  }

  /** The whole windows: none for the exponent 1 alone. */
  lemma WholeWindows(e: nat)
    requires e > 0
    ensures NumBits(e) > 0 && 1 <= CtimeWindowBits(NumBits(e)) <= 6
    ensures NumBits(e) - 1 >= CtimeWindowBits(NumBits(e)) <==> e >= 2
    ensures e == 1 ==> CtimeWindowBits(NumBits(e)) == 1
  {
    assert NumBits(0) == 0 && NumBits(1) == 1;
    if e >= 2 { assert NumBits(e) == 2 + NumBits(e / 2 / 2); }
  }

  lemma ZeroFactor(c: Mont)
    requires ValidMont(c) && RR(c) == 0
    ensures c.n == 1
  {
    hide ValidMont, Redc, RR;
    SmallResidue(0, c.n);
    assert InMont(c, 0) == 0;
    FromMontIsResidue(c, 0);
    FromMontIsResidue(c, 1);
    ContextRange(c);
    if c.r > 1 { ToMontIsInMont(c, 1); }
    if c.n > 1 { SmallResidue(1, c.n); }
  }

  /** The first two powers and the buffer for the others. */
  method StartTable(memory: Memory, tmp: Bignum, am: Bignum, base: Bignum, top: nat, buf: array<Octet>, width: nat, rr: Bignum, n: Bignum, n0: Word,
    ghost c: Mont, ghost x: int) returns (ok: bool, ghost cols: seq<seq<Word>>)
    requires width >= 2 && Rows(buf.Length, top, width) && forall k :: 0 <= k < buf.Length ==> buf[k] == 0
    requires Factor(rr, c) && Modulus(n, n0, c) && n.top == top && tmp.Valid() && am.Valid()
    requires base.Valid() && base.Normal() && base.Magnitude() == x < c.n
    requires tmp !in {n, rr, am, base} && tmp.d !in {n.d, rr.d, am.d, base.d} && am !in {n, rr} && am.d !in {n.d, rr.d}
    modifies tmp, am, tmp.d, am.d, buf, memory
    ensures memory.Refused() >= old(memory.Refused())
    ensures !ok ==> memory.Refused() > old(memory.Refused()) || 2 * n.top > 16777215 || !old(tmp.CanHold(n.top)) || !old(am.CanHold(n.top))
    ensures ok ==> n.top <= tmp.d.Length && n.top <= am.d.Length
    ensures tmp.Valid() && (tmp.d == old(tmp.d) || fresh(tmp.d)) && am.Valid() && (am.d == old(am.d) || fresh(am.d)) && tmp.d != am.d
    ensures ok ==> Table(buf[..], cols, top, width, 2, c, x) && Holds(tmp, c, Pow(x, 0)) && Holds(am, c, x)
    ensures ok ==> !tmp.neg && am.neg == old(base.neg && base.top > 0 && rr.top > 0)
  {
    hide Holds, Modulus, Factor, Table, Rows, Pow, InMont, Val, Place, OctetOf, ValidMont, Suits;
    cols := seq(width, _ => Zeros(top));
    BlankTable(buf[..], cols, top, width, c, x);
    FormsFit(n, n0, c, x, x);
    OneFits(n, n0, c);
    SecondPower(x);
    var one := ValueOne();
    ok := ToMontgomery(memory, tmp, one, rr, n, n0, c);
    if !ok { return; }
    ok := ToMontgomery(memory, am, base, rr, n, n0, c);
    if !ok { return; }
    Fits(tmp, n, n0, c, 1);
    Fits(am, n, n0, c, x);
    cols := Store(tmp, top, buf, 0, width, cols, c, x);
    cols := Store(am, top, buf, 1, width, cols, c, x);
  }

  lemma BlankTable(buf: seq<Octet>, cols: seq<seq<Word>>, top: nat, width: nat, c: Mont, x: int)
    requires Rows(|buf|, top, width) && (forall k :: 0 <= k < |buf| ==> buf[k] == 0)
    requires |cols| == width && forall j: nat :: j < width ==> cols[j] == Zeros(top)
    ensures Table(buf, cols, top, width, 0, c, x)
  {
    hide Place;
    RowsMeans(|buf|, top, width);
  }

  /** Memory for the powers, cleared: less than 3072 octets come from the stack. */
  method PowerBuffer(memory: Memory, top: nat, width: nat) returns (ok: bool, buf: array<Octet>)
    modifies memory
    ensures memory.Refused() >= old(memory.Refused())
    ensures ok <==> memory.Refused() == old(memory.Refused())
    ensures 4 * (top * width + if 2 * top > width then 2 * top else width) < 3072 ==> ok
    ensures fresh(buf) && Rows(buf.Length, top, width) && forall k :: 0 <= k < buf.Length ==> buf[k] == 0
  {
    hide Place;
    buf := new Octet[4 * top * width](_ => 0);
    RowsFit(buf.Length, top, width);
    ok := true;
    if 4 * (top * width + if 2 * top > width then 2 * top else width) >= 3072 {
      ok := memory.Malloc();
    }
  }

  /** The whole table, in memory of its own; `tmp` and `am` as they are left. */
  method BuildTable(memory: Memory, base: Bignum, window: nat, rr: Bignum, n: Bignum, n0: Word, ghost c: Mont, ghost x: int)
    returns (ok: bool, tmp: Bignum, am: Bignum, buf: array<Octet>, ghost cols: seq<seq<Word>>)
    requires window >= 1 && base.Valid() && base.Normal() && base.Magnitude() == x < c.n && Factor(rr, c) && Modulus(n, n0, c)
    modifies memory
    ensures memory.Refused() >= old(memory.Refused())
    ensures !ok ==> memory.Refused() > old(memory.Refused()) || 2 * n.top > 16777215
    ensures ok ==> n.top <= tmp.d.Length && n.top <= am.d.Length
    ensures fresh(tmp) && fresh(tmp.d) && fresh(am) && fresh(am.d) && fresh(buf) && tmp != am && tmp.d != am.d && tmp.Valid() && am.Valid()
    ensures ok ==> Rows(buf.Length, n.top, Two(window)) && Table(buf[..], cols, n.top, Two(window), Two(window), c, x)
    ensures ok ==> am.neg == (base.neg && base.top > 0 && rr.top > 0) && (window == 1 ==> !tmp.neg)
  {
    hide Holds, Modulus, Factor, Table, Rows, Pow, InMont, Val, Two, Place;
    var top := n.top;
    TwoOrMore(window);
    var width := Two(window);
    tmp := new Bignum(top, true);
    am := new Bignum(top, true);
    cols := [];
    ok, buf := PowerBuffer(memory, top, width);
    if !ok { return; }
    ok, cols := StartTable(memory, tmp, am, base, top, buf, width, rr, n, n0, c, x);
    if ok && window > 1 {
      ok, cols := FillPowers(memory, tmp, am, top, buf, width, n, n0, c, x, cols);
    }
  }

  /** All windows: the power in Montgomery form, with its sign. */
  method AllWindows(memory: Memory, base: Bignum, p: Bignum, rr: Bignum, n: Bignum, n0: Word, ghost c: Mont, ghost x: int)
    returns (ok: bool, tmp: Bignum)
    requires base.Valid() && base.Normal() && base.Magnitude() == x < c.n && Factor(rr, c) && Modulus(n, n0, c)
    requires p.Valid() && p.Normal() && p.Magnitude() > 0
    modifies memory
    ensures memory.Refused() >= old(memory.Refused())
    ensures !ok ==> memory.Refused() > old(memory.Refused()) || 2 * n.top > 16777215
    ensures fresh(tmp) && fresh(tmp.d) && tmp.Valid()
    ensures ok ==> Holds(tmp, c, Pow(x, p.Magnitude()))
    ensures ok ==> if p.Magnitude() >= 2 then SignOf(tmp, base.neg && base.top > 0 && rr.top > 0) else !tmp.neg
  {
    hide Holds, Modulus, Factor, Table, Rows, Pow, InMont, Val, Two, High, NumBits, BitLength, CtimeWindowBits, SignOf;
    ghost var e := p.Magnitude();
    BitLengthOfWords(p);
    WholeWindows(e);
    HighEnds(e);
    var bits: nat := BitLength(p);
    var window := CtimeWindowBits(bits);
    var am, buf;
    ghost var cols;
    ok, tmp, am, buf, cols := BuildTable(memory, base, window, rr, n, n0, c, x);
    if !ok { return; }
    var wvalue, rest := FirstWindow(p, bits - 1, window);
    ok := Fetch(memory, tmp, n.top, buf, wvalue, Two(window), cols, c, x);
    if !ok { return; }
    RestOfBits(bits - 1, window);
    ok := WindowsLoop(memory, tmp, am, p, rest, window, n.top, buf, n, n0, cols, c, x);
  }

  /** The part after the arguments are checked; `base` is what goes into Montgomery form. */
  method PowerOfBase(memory: Memory, ret: Bignum, base: Bignum, p: Bignum, rr: Bignum, n: Bignum, n0: Word, ghost c: Mont, ghost a: int) returns (ok: bool)
    requires ret.Valid() && IsRemainder(base, a, c.n) && p.Valid() && p.Normal() && p.Magnitude() > 0
    requires Modulus(n, n0, c) && Factor(rr, c) && ret != n && ret.d != n.d
    modifies ret, ret.d, memory
    ensures memory.Refused() >= old(memory.Refused())
    ensures !ok ==> memory.Refused() > old(memory.Refused()) || 2 * n.top > 16777215 || !old(ret.CanHold(n.top))
    ensures ret.Valid() && (ret.d == old(ret.d) || fresh(ret.d))
    ensures ok ==> ret.Normal() && ret.Value() == SignedPower(a, old(p.Magnitude()), c.n)
  {
    hide Holds, Modulus, Factor, Pow, InMont, Val, ValidMont, Suits, SignOf, RR;
    ghost var e, x: int, sign := p.Magnitude(), Abs(a) % c.n, base.neg && base.top > 0 && rr.top > 0;
    FormsFit(n, n0, c, x, x);
    BaseSign(base, rr, c, a, sign);
    ReducedBase(a, x, e, c.n);
    var tmp;
    ok, tmp := AllWindows(memory, base, p, rr, n, n0, c, x);
    if !ok { return; }
    Held(tmp, c, Pow(x, e));
    if e >= 2 { SignMeans(tmp, sign); }
    if tmp.Magnitude() == 0 { ZeroForm(c, Pow(x, e), 1); }
    ok := OutOfForm(memory, ret, tmp, n, n0, c, Pow(x, e));
  }

  lemma SignMeans(b: Bignum, neg: bool)
    requires b.Valid() && SignOf(b, neg)
    ensures b.neg == neg || b.Magnitude() == 0
  {
  }

  /** The first power has the sign of the base, or the base is a multiple of the modulus. */
  lemma BaseSign(base: Bignum, rr: Bignum, c: Mont, a: int, sign: bool)
    requires ValidMont(c) && IsRemainder(base, a, c.n) && Factor(rr, c) && sign == (base.neg && base.top > 0 && rr.top > 0)
    ensures sign == (a < 0) || Abs(a) % c.n == 0
  {
    hide Val, ValidMont, RR;
    NoWords(base);
    if rr.top == 0 {
      NoWords(rr);
      ZeroFactor(c);
    }
  }

  lemma ReducedBase(a: int, x: int, e: nat, n: int)
    requires n > 0 && x == Abs(a) % n && e > 0
    ensures Pow(Abs(a), e) % n == Pow(x, e) % n && (x == 0 ==> Pow(x, e) % n == 0)
  {
    SmallResidue(x, n);
    SameBase(Abs(a), x, e, n);
    if x == 0 { ZeroBase(x, e, n); }
  }

  lemma TwoOrMore(window: nat)
    requires window >= 1
    ensures Two(window) >= 2 && (window == 1 ==> Two(window) == 2) && (window > 1 ==> Two(window) > 2)
  {
    PowMonotone(2, 1, window);
    if window > 1 { PowMonotone(2, 2, window); }
  }

  lemma RestOfBits(bits0: nat, window: nat)
    requires window > 0
    ensures bits0 / window >= 0 && Whole(bits0 / window * window, window) && (bits0 / window * window - 1 >= 0 <==> bits0 >= window)
  {
    Nonnegative(bits0, window);
    MultipleIsWhole(bits0 / window, window);
    DivMod(bits0, window);
    if bits0 / window > 0 { MulMonotone(1, bits0 / window, window); }
    if bits0 >= window && bits0 / window == 0 { assert false; }
  }

  /** BN_mod_exp_mont_consttime; `n`, `n0` and `rr` are the context for `m`, `rem` is what
      BN_mod leaves of `a`. The lowest word of the modulus is read unasked. */
  method ModExpMontConsttime(memory: Memory, ret: Bignum, a: Bignum, rem: Bignum, p: Bignum, m: Bignum, rr: Bignum, n: Bignum, n0: Word, ghost c: Mont)
    returns (ok: bool)
    requires ret.Valid() && a.Valid() && a.Normal() && p.Valid() && p.Normal() && m.Valid() && m.Normal() && m.top > 0
    requires m.IsOdd() ==> Modulus(n, n0, c) && Factor(rr, c) && c.n == m.Magnitude() && IsRemainder(rem, a.Value(), c.n)
    requires ret != n && ret.d != n.d
    modifies ret, ret.d, memory
    ensures memory.Refused() >= old(memory.Refused())
    ensures !ok ==> old(!m.IsOdd()) || memory.Refused() > old(memory.Refused()) || 2 * n.top > 16777215 || !old(ret.CanHold(n.top))
    ensures ret.Valid()
    ensures old(!m.IsOdd()) ==> !ok
    ensures ok && old(p.Magnitude()) == 0 ==> ret.Value() == 1
    ensures ok && old(p.Magnitude()) > 0 ==> ret.Value() == old(SignedPower(a.Value(), p.Magnitude(), c.n))
  {
    hide Modulus, Factor, Pow, Val, BitLength, Suits, ValidMont, SignedPower;
    if m.d[0] % 2 == 0 {
      return false;
    }
    BitLengthOfWords(p);
    FormsFit(n, n0, c, 0, 0);
    if BitLength(p) == 0 {
      ok := SetWord(memory, ret, 1);
      return;
    }
    var base := rem;
    if !a.neg {
      var cmp := Ucmp(a, m);
      if cmp < 0 {
        SmallResidue(a.Magnitude(), c.n);
        base := a;
      }
    }
    ok := PowerOfBase(memory, ret, base, p, rr, n, n0, c, a.Value());
  }

  /** BN_mod_exp_mont with its flag: on BIGNUMs it answers what it answers on integers;
      it fails besides only when memory is refused, a product could pass the bound on words, or
      the result has no room and its storage is not its own. */
  method ModExpMontFlagged(memory: Memory, ret: Bignum, a: Bignum, nn: Bignum, rem: Bignum, p: Bignum, m: Bignum, rr: Bignum, n: Bignum, n0: Word, ghost c: Mont, constTime: bool)
    returns (ok: bool)
    requires ret.Valid() && a.Valid() && a.Normal() && p.Valid() && p.Normal() && m.Valid() && m.Normal() && m.top > 0
    requires m.IsOdd() ==> Modulus(n, n0, c) && Factor(rr, c) && c.n == m.Magnitude()
    requires m.IsOdd() ==> IsResidue(nn, a.Value() % c.n, c.n) && IsRemainder(rem, a.Value(), c.n)
    requires ret != n && ret.d != n.d
    modifies ret, ret.d, memory
    ensures memory.Refused() >= old(memory.Refused())
    ensures !ok ==> old(!m.IsOdd()) || memory.Refused() > old(memory.Refused()) || 2 * n.top > 16777215 || !old(ret.CanHold(n.top))
    ensures ret.Valid()
    ensures ok ==> Power(ret.Value()) == old(MontAnswer(a.Value(), p.Magnitude(), m.Value(), constTime))
    ensures old(MontAnswer(a.Value(), p.Magnitude(), m.Value(), constTime)) == Failed ==> !ok
  {
    hide Modulus, Factor, Pow, Val, SignedPower;
    Parity(m);
    if constTime {
      ok := ModExpMontConsttime(memory, ret, a, rem, p, m, rr, n, n0, c);
    } else {
      ok := ModExpMontWords(memory, ret, a, nn, p, m, rr, n, n0, c);
    }
  }
}

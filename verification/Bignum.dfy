/** BIGNUM and the macros of openssl/bn.h that look at its fields. */
module Bignum {
  import opened BnModular
  import opened BnWords

  /** bn_expand_internal refuses more than INT_MAX / (4 * BN_BITS2) words. */
  const MAX_WORDS := 0x7fff_ffff / (4 * BN_BITS2)

  /** What OPENSSL_malloc draws on. */
  class Memory {
    /** Whether its n-th call is granted. */
    const grants: nat -> bool
    var tried: nat

    constructor (grants: nat -> bool)
      ensures this.grants == grants && tried == 0
    {
      this.grants := grants;
      tried := 0;
    }

    /** The calls refused so far. */
    ghost function Refused(): nat
      reads this
    {
      Refusals(grants, tried)
    }

    method Malloc() returns (ok: bool)
      modifies this
      ensures tried == old(tried) + 1 && ok == grants(old(tried))
      ensures Refused() == old(Refused()) + if ok then 0 else 1
    {
      ok := grants(tried);
      tried := tried + 1;
    }
  }

  ghost function Refusals(grants: nat -> bool, n: nat): nat
  {
    if n == 0 then 0 else Refusals(grants, n - 1) + if grants(n - 1) then 0 else 1
  }

  class Bignum {
    var d: array<Word>
    var top: nat
    var neg: bool
    const staticData: bool

    constructor (n: nat, isStatic: bool)
      ensures Valid() && Normal() && fresh(d) && d.Length == n && Value() == 0 && !neg && staticData == isStatic
    {
      d := new Word[n](_ => 0);
      top := 0;
      neg := false;
      staticData := isStatic;
    }

    ghost predicate Valid()
      reads this
    {
      top <= d.Length
    }

    ghost function Words(): seq<Word>
      requires Valid()
      reads this, d
    {
      d[..top]
    }

    ghost function Magnitude(): nat
      requires Valid()
      reads this, d
    {
      Val(Words())
    }

    ghost function Value(): int
      requires Valid()
      reads this, d
    {
      var m: int := Magnitude();
      if neg then -m else m
    }

    /** What bn_check_top asserts: no leading zero word. */
    ghost predicate Normal()
      requires Valid()
      reads this, d
    {
      top == 0 || d[top - 1] != 0
    }

    /** Room for so many words is there, or takes no more than a granted allocation. */
    predicate CanHold(words: nat)
      reads this
    {
      words <= d.Length || (!staticData && words <= 16777215)
    }

    predicate AbsIsWord(w: Word)
      requires Valid()
      reads this, d
    {
      top == 1 && d[0] == w
    }

    predicate IsZero()
      requires Valid()
      reads this, d
    {
      top == 0 || AbsIsWord(0)
    }

    predicate IsOne()
      requires Valid()
      reads this, d
    {
      AbsIsWord(1) && !neg
    }

    predicate IsWord(w: Word)
      requires Valid()
      reads this, d
    {
      if w != 0 then AbsIsWord(w) && !neg else IsZero()
    }

    predicate IsOdd()
      requires Valid()
      reads this, d
    {
      top > 0 && d[0] % 2 == 1
    }

    /** bn_fix_top */
    method FixTop()
      requires Valid()
      modifies this`top
      ensures Valid() && Normal() && top <= old(top)
      ensures Magnitude() == old(Magnitude()) && Value() == old(Value())
      ensures forall k :: top <= k < old(top) ==> d[k] == 0
    {
      if top > 0 {
        var ftl := top - 1;
        while top > 0
          invariant top <= old(top) && ftl == top - 1
          invariant forall k :: top <= k < old(top) ==> d[k] == 0
        {
          var w := d[ftl];
          ftl := ftl - 1;
          if w != 0 { break; }
          top := top - 1;
        }
        TrailingZeros(d[..old(top)], top);
        assert d[..old(top)][..top] == d[..top];
      }
    }

    /** bn_wexpand: room for `words` words, the number unchanged. */
    method WExpand(memory: Memory, words: nat) returns (ok: bool)
      requires Valid()
      modifies this`d, memory
      ensures memory.Refused() >= old(memory.Refused())
      ensures ok <==> old(CanHold(words)) && memory.Refused() == old(memory.Refused())
      ensures Valid() && Words() == old(Words()) && Value() == old(Value())
      ensures ok ==> words <= d.Length
      ensures words <= old(d.Length) ==> ok && d == old(d)
      ensures !ok ==> d == old(d)
      ensures d == old(d) || (fresh(d) && d.Length <= 16777215)
    {
      if words <= d.Length {
        return true;
      }
      ok := Expand2(memory, words);
    }

    /** bn_expand2: it fails for more than (2^31 - 1) / 128 words, for a number whose
        storage is not its own, and when memory is refused, and for nothing else. */
    method Expand2(memory: Memory, words: nat) returns (ok: bool)
      requires Valid()
      modifies this`d, memory
      ensures ok <==> words <= old(d.Length) || (!staticData && words <= 16777215 && memory.grants(old(memory.tried)))
      ensures memory.tried == old(memory.tried) + if words > old(d.Length) && !staticData && words <= 16777215 then 1 else 0
      ensures memory.Refused() == old(memory.Refused()) + if old(CanHold(words)) && !ok then 1 else 0
      ensures Valid() && Words() == old(Words()) && Value() == old(Value())
      ensures ok ==> words <= d.Length
      ensures ok && words > old(d.Length) ==> fresh(d) && d.Length == words
      ensures words <= old(d.Length) ==> ok && d == old(d)
      ensures !ok ==> d == old(d)
      ensures d == old(d) || (fresh(d) && d.Length <= 16777215)
    {
      if words > d.Length {
        if words > MAX_WORDS || staticData {
          return false;
        }
        var granted := memory.Malloc();
        if !granted { return false; }
        var a := new Word[words](_ => 0);
        CopyWords(a, d, top);
        d := a;
      }
      return true;
    }

    /** bn_expand: room for `bits` bits. */
    method Expand(memory: Memory, bits: nat) returns (ok: bool)
      requires Valid()
      modifies this`d, memory
      ensures memory.Refused() >= old(memory.Refused())
      ensures ok <==> ((bits + 31) / 32 <= old(d.Length) || old(CanHold(bits / 32 + 1))) && memory.Refused() == old(memory.Refused())
      ensures Valid() && Words() == old(Words()) && Value() == old(Value())
      ensures ok ==> bits <= BN_BITS2 * d.Length
      ensures bits <= BN_BITS2 * old(d.Length) ==> ok && d == old(d)
      ensures !ok ==> d == old(d)
      ensures d == old(d) || (fresh(d) && d.Length <= 16777215)
    {
      if (bits + BN_BITS2 - 1) / BN_BITS2 <= d.Length {
        return true;
      }
      ok := Expand2(memory, bits / BN_BITS2 + 1);
    }
  }

  /** The copy of bn_expand_internal, four words at a time and then a switch. */
  method CopyWords(a: array<Word>, b: array<Word>, top: nat)
    requires a != b && top <= a.Length && top <= b.Length
    modifies a
    ensures a[..top] == b[..top]
  {
    var at, i := 0, top / 4;
    while i > 0
      invariant 0 <= i && 0 <= at == top - top % 4 - 4 * i
      invariant forall k :: 0 <= k < at ==> a[k] == b[k]
    {
      var a0, a1, a2, a3 := b[at], b[at + 1], b[at + 2], b[at + 3];
      a[at], a[at + 1], a[at + 2], a[at + 3] := a0, a1, a2, a3;
      i, at := i - 1, at + 4;
    }
    var rest := top % 4;
    if rest == 3 { a[at + 2] := b[at + 2]; }
    if rest >= 2 { a[at + 1] := b[at + 1]; }
    if rest >= 1 { a[at] := b[at]; }
  }

  lemma TrailingZeros(s: seq<Word>, k: nat)
    requires k <= |s| && forall j :: k <= j < |s| ==> s[j] == 0
    ensures Val(s[..k]) == Val(s)
  {
    ValSplit(s, k);
    ValZeros(s[k..]);
  }

  /** A number without leading zeros is at least its top word's weight. */
  lemma NormalBound(b: Bignum)
    requires b.Valid() && b.Normal() && b.top > 0
    ensures P(b.top - 1) <= b.Magnitude() < P(b.top)
  {
    var s := b.Words();
    ValBound(s);
    ValBound(s[..b.top - 1]);
    assert s == s[..b.top - 1] + [s[b.top - 1]];
    ValSnoc(s[..b.top - 1], s[b.top - 1]);
    Powers(b.top - 1);
    MulMonotone(1, s[b.top - 1], P(b.top - 1));
  }

  lemma PowersAtLeast(n: nat)
    requires n > 0
    ensures P(n) >= BASE
  {
    Powers(n - 1);
    MulMonotone(1, P(n - 1), BASE);
  }

  /** With no leading zero word the macros read the number off the fields. */
  lemma MacrosAgree(b: Bignum, w: Word)
    requires b.Valid() && b.Normal()
    ensures b.IsZero() <==> b.Value() == 0
    ensures b.IsOne() <==> b.Value() == 1
    ensures b.IsWord(w) <==> b.Value() == w
    ensures b.IsOdd() <==> b.Value() % 2 == 1
  {
    Fields(b);
    Parity(b);
  }

  lemma Fields(b: Bignum)
    requires b.Valid() && b.Normal()
    ensures b.top == 0 ==> b.Magnitude() == 0
    ensures b.top == 1 ==> b.Magnitude() == b.d[0] > 0
    ensures b.top > 1 ==> b.Magnitude() >= BASE
  {
    if b.top == 1 {
      assert b.Words() == [b.d[0]];
      One(b.d[0]);
    } else if b.top > 1 {
      NormalBound(b);
      PowersAtLeast(b.top - 1);
    }
  }

  lemma Parity(b: Bignum)
    requires b.Valid()
    ensures b.IsOdd() <==> b.Magnitude() % 2 == 1
    ensures b.Value() % 2 == b.Magnitude() % 2
  {
    var s := b.Words();
    if s != [] {
      assert Val(s) == s[0] + BASE * Val(s[1..]);
    }
  }

  /** BN_abs_is_word is right about every number and word but zero and zero, which
      it never recognises. */
  lemma AbsIsWordExceptZero(b: Bignum, w: Word)
    requires b.Valid() && b.Normal()
    ensures (b.AbsIsWord(w) <==> b.Magnitude() == w) <==> !(w == 0 && b.Value() == 0)
  {
    Fields(b);
  }

  /** Without bn_fix_top the zero test fails exactly on zeros of two words or more. */
  lemma IsZeroUnnormalised(b: Bignum)
    requires b.Valid()
    ensures (b.IsZero() <==> b.Value() == 0) <==> !(b.top >= 2 && forall k :: 0 <= k < b.top ==> b.d[k] == 0)
  {
    var s := b.Words();
    if forall k :: 0 <= k < b.top ==> b.d[k] == 0 {
      ValZeros(s);
    } else {
      var k :| 0 <= k < b.top && b.d[k] != 0;
      NonZero(s, k);
    }
  }

  lemma {:induction false} NonZero(s: seq<Word>, k: nat)
    requires k < |s| && s[k] != 0
    ensures Val(s) > 0
  {
    if k > 0 { NonZero(s[1..], k - 1); }
  }
}

/** Headers octet by octet, as sections 8.1.2 and 8.1.3 of X.690 lay them out: what the
    readers of Asn1Header make of them, with every refusal, and what its writers put. */
module Asn1Octets {
  import opened Asn1Header

  /** The number of seven-bit digits, most significant first; bit 8 of each is ignored. */
  function FoldDigits(acc: nat, s: seq<byte>): nat
    decreases |s|
  {
    if s == [] then acc else FoldDigits(acc * 128 + s[0] % 128, s[1..])
  }

  // ---------------------------------------------------------------------- reading

  lemma {:induction false} LengthLoopMeans(s: seq<byte>, i: nat, max: int, acc: nat)
    requires max >= 0
    ensures
      LengthLoop(s, i, max, acc).Scanned? <==> i <= max && i <= |s| && FoldBytes(acc, s[..i]) <= 0x7fff_ffff
    ensures LengthLoop(s, i, max, acc).Scanned? ==> LengthLoop(s, i, max, acc) == Scanned(i, Length(FoldBytes(acc, s[..i]), false))
    decreases i
  {
    if i > 0 && s != [] && max > 0 {
      LengthLoopMeans(s[1..], i - 1, max - 1, acc * 256 + s[0]);
      if i <= |s| { assert s[..i][1..] == s[1..][..i - 1] && s[..i][0] == s[0]; }
    }
  }

  /** Length octets: one below 0x80, 0x80 for the indefinite form, and else a count of at
      most four octets whose number fits a long. One octet more than these must be allowed. */
  lemma LengthMeans(s: seq<byte>, max: int)
    ensures
      GetLength(s, max).Scanned? <==>
        && max >= 1 && |s| >= 1
        && (s[0] > 0x80 ==>
              var k := s[0] - 0x80;
              k <= 4 && k + 2 <= max && k + 1 <= |s| && FoldBytes(0, s[1..][..k]) <= 0x7fff_ffff)
    ensures
      GetLength(s, max).Scanned? ==>
        GetLength(s, max) ==
        if s[0] < 0x80 then Scanned(1, Length(s[0], false))
        else if s[0] == 0x80 then Scanned(1, Length(0, true))
        else var k := s[0] - 0x80; Scanned(k + 1, Length(FoldBytes(0, s[1..][..k]), false))
  {
    hide LengthLoop;
    if max >= 2 && |s| >= 1 && s[0] > 0x80 { LengthLoopMeans(s[1..], s[0] - 0x80, max - 2, 0); }
  }

  lemma {:induction false} DigitsGrow(acc: nat, s: seq<byte>)
    ensures acc <= FoldDigits(acc, s)
    decreases |s|
  {
    if s != [] { DigitsGrow(acc * 128 + s[0] % 128, s[1..]); }
  }

  /** A high tag ends at its first octet below 0x80. */
  lemma {:induction false} HighTagEnds(s: seq<byte>, max: int, l: nat)
    requires HighTag(s, max, l).Scanned?
    ensures
      var n := HighTag(s, max, l).n;
      s[n - 1] < 0x80 && forall j :: 0 <= j < n - 1 ==> s[j] >= 0x80
    decreases |s|
  {
    if s[0] >= 0x80 {
      HighTagEnds(s[1..], max - 1, l * 128 + (s[0] - 0x80));
      var n := HighTag(s, max, l).n;
      assert forall j :: 0 < j < n ==> s[j] == s[1..][j - 1];
    }
  }

  /** Digits of a tag, the last below 0x80: they are read when the number before the last
      one leaves room for it, and the limit does not run out on the way. */
  lemma {:induction false} HighTagMeans(s: seq<byte>, max: int, l: nat, n: nat)
    requires 1 <= n <= |s| && s[n - 1] < 0x80 && (forall j :: 0 <= j < n - 1 ==> s[j] >= 0x80) && l <= 0xff_ffff
    ensures HighTag(s, max, l).Scanned? <==> !(1 <= max <= n) && FoldDigits(l, s[..n - 1]) <= 0xff_ffff
    ensures HighTag(s, max, l).Scanned? ==> HighTag(s, max, l) == Scanned(n, (FoldDigits(l, s[..n]), max - n))
    decreases n
  {
    if n == 1 {
      assert s[..0] == [] && s[..1] == [s[0]] && [s[0]][1..] == [];
      assert FoldDigits(l, s[..1]) == FoldDigits(l * 128 + s[0] % 128, []);
    } else {
      var l' := l * 128 + (s[0] - 0x80);
      assert s[..n - 1][1..] == s[1..][..n - 2] && s[..n][1..] == s[1..][..n - 1];
      DigitsGrow(l', s[1..][..n - 2]);
      if l' <= 0xff_ffff { HighTagMeans(s[1..], max - 1, l', n - 1); }
    }
  }

  /** The identifier: class and form in the first octet, the tag in it or behind it. */
  lemma ObjectMeans(s: seq<byte>, omax: int)
    requires GetObject(s, omax).Scanned?
    ensures
      var n, o := GetObject(s, omax).n, GetObject(s, omax).value;
      && o.xclass == s[0] / 64 * 0x40 && (o.constructed <==> s[0] / 32 % 2 == 1)
      && (s[0] % 32 < 31 ==> o.tag == s[0] % 32) && (o.tooLong <==> n + o.len > omax)
      && exists t: nat :: TagEnds(s, t, o.tag) && t < n && GetLength(s[t..], omax - t) == Scanned(n - t, Length(o.len, o.inf))
  {
    hide HighTag, GetLength;
    var t := GetTag(s, omax).n;
    if s[0] % 32 == 31 {
      HighTagEnds(s[1..], omax - 1, 0);
      HighTagMeans(s[1..], omax - 1, 0, t - 1);
      assert s[t - 1] == s[1..][t - 2];
    }
    assert TagEnds(s, t, GetTag(s, omax).value.0);
  }

  /** The identifier of a tag takes the first `t` octets. */
  ghost predicate TagEnds(s: seq<byte>, t: nat, tag: nat)
  {
    if |s| > 0 && s[0] % 32 < 31 then t == 1 && tag == s[0] % 32
    else 2 <= t <= |s| && s[t - 1] < 0x80 && (forall j :: 1 <= j < t - 1 ==> s[j] >= 0x80) && tag == FoldDigits(0, s[1..][..t - 1])
  }

  // ---------------------------------------------------------------------- writing

  /** Length octets are the fewest: one below 128, else a count and no leading zero. */
  lemma LengthIsShortest(n: nat)
    requires n <= 0x7fff_ffff
    ensures
      var r := PutLength(n);
      if n < 128 then r == [n] else 2 <= |r| <= 5 && r[0] == 0x80 + (|r| - 1) && r[1] != 0 && FoldBytes(0, r[1..]) == n
  {
    if n >= 128 {
      LongLength(n);
      FoldBigEndian(n);
      NoLeadingZero(n);
      assert PutLength(n)[1..] == BigEndian(n);
    }
  }

  lemma {:induction false} NoLeadingZero(n: nat)
    requires n > 0
    ensures BigEndian(n) != [] && BigEndian(n)[0] != 0
  {
    if n >= 256 { NoLeadingZero(n / 256); } else { assert BigEndian(0) == []; }
  }

  /** Identifier octets are the fewest: tags up to 30 in the first one, others as digits
      without a leading zero, all but the last of them marked. */
  lemma IdentifierIsShortest(form: Form, tag: nat, xclass: Class)
    ensures
      var r := PutIdentifier(form, tag, xclass);
      && r[0] == xclass + (if form == Primitive then 0 else 0x20) + (if tag < 31 then tag else 31)
      && (tag < 31 <==> |r| == 1)
      && (tag >= 31 ==>
            && r[|r| - 1] < 0x80 && (forall j :: 1 <= j < |r| - 1 ==> r[j] >= 0x80)
            && r[1] != 0x80 && FoldDigits(0, r[1..]) == tag)
  {
    if tag >= 31 {
      DigitsOf(tag, true);
      assert PutIdentifier(form, tag, xclass)[1..] == Base128(tag, true);
    }
  }

  lemma {:induction false} DigitsOf(tag: nat, last: bool)
    requires tag > 0
    ensures
      var r := Base128(tag, last);
      && r != [] && FoldDigits(0, r) == tag && r[0] % 128 != 0
      && (r[|r| - 1] < 0x80 <==> last) && forall j :: 0 <= j < |r| - 1 ==> r[j] >= 0x80
    decreases tag
  {
    var front, d: byte := Base128(tag / 128, false), tag % 128 + if last then 0 else 0x80;
    assert Base128(0, false) == [];
    if tag >= 128 { DigitsOf(tag / 128, false); }
    FoldDigitsSnoc(0, front, d);
  }

  lemma {:induction false} FoldDigitsSnoc(acc: nat, s: seq<byte>, x: byte)
    ensures FoldDigits(acc, s + [x]) == FoldDigits(acc, s) * 128 + x % 128
    decreases |s|
  {
    if s == [] {
      assert (s + [x])[1..] == [];
    } else {
      assert (s + [x])[1..] == s[1..] + [x];
      FoldDigitsSnoc(acc * 128 + s[0] % 128, s[1..], x);
    }
  }
}

/** Object headers (crypto/asn1/asn1_lib.c): identifier octets, length octets and
    the end-of-contents test, each as a function on the octets that start at the
    cursor and as the method that reads or writes them through an array. */
module Asn1Header {

  type byte = x: int | 0 <= x < 256

  /** The two class bits of an identifier octet. */
  type Class = x: int | x == 0 || x == 0x40 || x == 0x80 || x == 0xc0

  /** Tags that fit in one identifier octet, the only ones the macros compare. */
  type LowTag = n: nat | n <= 30

  const V_ASN1_EOC := 0
  const V_ASN1_UNIVERSAL: Class := 0x00
  const V_ASN1_CONTEXT_SPECIFIC: Class := 0x80
  const V_ASN1_CONSTRUCTED := 0x20
  const V_ASN1_PRIMITIVE_TAG := 0x1f
  const V_ASN1_INTEGER: LowTag := 2
  const V_ASN1_OCTET_STRING: LowTag := 4
  const V_ASN1_BIT_STRING: LowTag := 3
  const V_ASN1_SEQUENCE: LowTag := 16
  const V_ASN1_SET: LowTag := 17

  // ILP32: int and long are both four octets wide on the ARM boards this tree targets.
  const SIZEOF_LONG := 4
  const LONG_MAX := 0x7fff_ffff
  const INT_MAX := 0x7fff_ffff

  // --------------------------------------------------------------- identifier

  function ConstructedBit(id: byte): int { if id / 32 % 2 == 1 then 0x20 else 0 }

  function ClassOf(id: byte): Class { id / 64 * 64 }

  /** `id & ~V_ASN1_CONSTRUCTED` */
  function WithoutConstructed(id: byte): byte { id - ConstructedBit(id) }

  // ------------------------------------------------------------------ reading

  /** What a pointer-advancing read does: it may run off the memory the caller
      owns (undefined in C), refuse, or hand back the octets used and a result. */
  datatype Scan<+T> = Overread | Refused | Scanned(n: nat, value: T)

  /** The same result, reported by a reader that had already used `k` octets. */
  function Shift<T>(r: Scan<T>, k: nat): Scan<T>
  {
    match r
    case Scanned(n, v) => Scanned(n + k, v)
    case other => other
  }

  datatype Length = Length(len: nat, inf: bool)

  datatype Object = Object(len: nat, tag: nat, xclass: Class, constructed: bool, inf: bool, tooLong: bool)
  {
    /** `ret == (V_ASN1_CONSTRUCTED+1)`: constructed, indefinite and not flagged 0x80. */
    predicate Indefinite() { constructed && inf }
  }

  /** The loop over the octets of a long-form length. */
  function LengthLoop(s: seq<byte>, i: nat, max: int, acc: nat): (r: Scan<Length>)
    ensures r.Scanned? ==> r.n == i <= |s| && !r.value.inf
    decreases i
  {
    if i == 0 then
      if acc > LONG_MAX then Refused else Scanned(0, Length(acc, false))
    else if |s| == 0 then Overread
    else if max == 0 then Refused
    else Shift(LengthLoop(s[1..], i - 1, max - 1, acc * 256 + s[0]), 1)
  }

  function GetLength(s: seq<byte>, max: int): (r: Scan<Length>)
    ensures r.Scanned? ==> 1 <= r.n <= |s|
  {
    if max < 1 then Refused
    else if |s| == 0 then Overread
    else if s[0] == 0x80 then Scanned(1, Length(0, true))
    else if s[0] < 0x80 then Scanned(1, Length(s[0], false))
    else if s[0] - 0x80 > SIZEOF_LONG || max - 1 == 0 then Refused
    else Shift(LengthLoop(s[1..], s[0] - 0x80, max - 2, 0), 1)
  }

  /** The base-128 digits of a high tag; `value` is the tag and what is left of max. */
  function HighTag(s: seq<byte>, max: int, l: nat): (r: Scan<(nat, int)>)
    ensures r.Scanned? ==> 1 <= r.n <= |s| && r.value.1 == max - r.n
    decreases |s|
  {
    if |s| == 0 then Overread
    else if s[0] >= 0x80 then
      var l' := l * 128 + (s[0] - 0x80);
      if max - 1 == 0 || l' > INT_MAX / 128 then Refused else Shift(HighTag(s[1..], max - 1, l'), 1)
    else if max - 1 == 0 then Refused
    else Scanned(1, (l * 128 + s[0], max - 1))
  }

  /** The identifier octets; the value is the tag and what is left of `omax`. */
  function GetTag(s: seq<byte>, omax: int): (r: Scan<(nat, int)>)
    ensures r.Scanned? ==> 1 <= r.n <= |s| && r.value.1 == omax - r.n
  {
    if omax == 0 then Refused
    else if |s| == 0 then Overread
    else if omax - 1 == 0 then Refused
    else if s[0] % 32 != V_ASN1_PRIMITIVE_TAG then Scanned(1, (s[0] % 32, omax - 1))
    else Shift(HighTag(s[1..], omax - 1, 0), 1)
  }

  /** ASN1_get_object: `n` octets of header, then its fields.  A length that does
      not fit in `omax` is reported by `tooLong` (the 0x80 flag). */
  function GetObject(s: seq<byte>, omax: int): (r: Scan<Object>)
    ensures r.Scanned? ==> 2 <= r.n <= |s| && (!r.value.tooLong ==> r.n + r.value.len <= omax)
  {
    match GetTag(s, omax)
    case Overread => Overread
    case Refused => Refused
    case Scanned(t, (tag, max)) =>
      match GetLength(s[t..], max)
      case Overread => Overread
      case Refused => Refused
      case Scanned(n, l) => Scanned(t + n, ObjectFrom(s[0], tag, l, omax - (t + n)))
  }

  function ObjectFrom(id: byte, tag: nat, l: Length, room: int): Object
  {
    Object(l.len, tag, ClassOf(id), ConstructedBit(id) != 0, l.inf, l.len > room)
  }

  /** ASN1_check_infinite_end: nothing left counts as the end, without moving. */
  function CheckInfiniteEnd(s: seq<byte>, len: int): (r: Scan<bool>)
    ensures r.Scanned? ==> r.n <= |s| && r.n == (if r.value && len > 0 then 2 else 0)
    ensures r.Scanned? && r.n == 2 ==> s[0] == s[1] == 0
    ensures !r.Refused?
  {
    if len <= 0 then Scanned(0, true)
    else if len < 2 then Scanned(0, false)
    else if |s| == 0 then Overread
    else if s[0] != 0 then Scanned(0, false)
    else if |s| == 1 then Overread
    else if s[1] != 0 then Scanned(0, false)
    else Scanned(2, true)
  }

  // ------------------------------------------------------------------ writing

  /** How the `constructed` argument of ASN1_put_object is read. */
  datatype Form = Primitive | Constructed | IndefiniteForm

  function BigEndian(n: nat): (r: seq<byte>)
    ensures n > 0 ==> |r| > 0
  {
    if n == 0 then [] else BigEndian(n / 256) + [n % 256]
  }

  function PutLength(n: nat): (r: seq<byte>)
    ensures |r| >= 1
  {
    if n <= 127 then [n] else [(0x80 + |BigEndian(n)|) % 0x100] + BigEndian(n)
  }

  /** The digits of a tag after the leading 0x1f octet; all but the last carry 0x80. */
  function Base128(tag: nat, last: bool): seq<byte>
  {
    if tag == 0 then [] else Base128(tag / 128, false) + [tag % 128 + if last then 0 else 0x80]
  }

  function PutIdentifier(form: Form, tag: nat, xclass: Class): (r: seq<byte>)
    ensures |r| >= 1
  {
    var i := (if form.Primitive? then 0 else V_ASN1_CONSTRUCTED) + xclass;
    if tag < 31 then [i + tag] else [i + V_ASN1_PRIMITIVE_TAG] + Base128(tag, true)
  }

  /** ASN1_put_object */
  function PutObject(form: Form, length: nat, tag: nat, xclass: Class): (r: seq<byte>)
    ensures |r| >= 2
  {
    PutIdentifier(form, tag, xclass) + (if form.IndefiniteForm? then [0x80] else PutLength(length))
  }

  // ------------------------------------------------------- two-pass agreement

  /** `n>>7` or `n>>8`. */
  function Shifted(n: nat, bits: int): nat
  {
    if bits == 7 then n / 128 else n / 256
  }

  function DigitCount(n: nat, bits: int): nat
    decreases n
  {
    if n == 0 then 0 else 1 + DigitCount(Shifted(n, bits), bits)
  }

  /** ASN1_object_size.  The indefinite form counts the two end-of-contents octets. */
  function ObjectSize(form: Form, length: nat, tag: nat): nat
  {
    length + 1 + (if tag >= 31 then DigitCount(tag, 7) else 0) +
    if form.IndefiniteForm? then 3 else 1 + if length > 127 then DigitCount(length, 8) else 0
  }

  lemma {:induction false} DigitCountBounds(n: nat)
    requires n < 0x1_0000_0000
    ensures DigitCount(n, 8) <= SIZEOF_LONG
  {
    var a := n / 256; var b := a / 256; var c := b / 256;
    assert DigitCount(c, 8) <= 1;
    assert DigitCount(b, 8) <= 2;
    assert DigitCount(a, 8) <= 3;
  }

  lemma {:induction false} BigEndianSize(n: nat)
    ensures |BigEndian(n)| == DigitCount(n, 8)
  {
    if n != 0 { BigEndianSize(n / 256); }
  }

  lemma {:induction false} Base128Size(tag: nat, last: bool)
    ensures |Base128(tag, last)| == DigitCount(tag, 7)
  {
    if tag != 0 { Base128Size(tag / 128, false); }
  }

  /** The length pass counts exactly the octets the put pass writes (the two
      end-of-contents octets of the indefinite form included). */
  lemma ObjectSizeIsPutSize(form: Form, length: nat, tag: nat, xclass: Class)
    ensures ObjectSize(form, length, tag) == |PutObject(form, length, tag, xclass)| + length + (if form.IndefiniteForm? then 2 else 0)
  {
    BigEndianSize(length);
    Base128Size(tag, true);
  }

  // --------------------------------------------------------------- round trip

  function FoldBytes(acc: nat, s: seq<byte>): nat
    decreases |s|
  {
    if s == [] then acc else FoldBytes(acc * 256 + s[0], s[1..])
  }

  lemma {:induction false} FoldSnoc(acc: nat, s: seq<byte>, x: byte)
    ensures FoldBytes(acc, s + [x]) == FoldBytes(acc, s) * 256 + x
    decreases |s|
  {
    if s == [] {
      assert (s + [x])[1..] == [];
    } else {
      assert (s + [x])[1..] == s[1..] + [x];
      FoldSnoc(acc * 256 + s[0], s[1..], x);
    }
  }

  lemma {:induction false} FoldBigEndian(n: nat)
    ensures FoldBytes(0, BigEndian(n)) == n
  {
    if n != 0 {
      FoldBigEndian(n / 256);
      FoldSnoc(0, BigEndian(n / 256), n % 256);
    }
  }

  lemma {:induction false} LengthLoopReads(a: seq<byte>, rest: seq<byte>, max: int, acc: nat)
    requires max >= |a| && FoldBytes(acc, a) <= LONG_MAX
    ensures LengthLoop(a + rest, |a|, max, acc) == Scanned(|a|, Length(FoldBytes(acc, a), false))
  {
    if a == [] {
    } else {
      assert (a + rest)[1..] == a[1..] + rest;
      LengthLoopReads(a[1..], rest, max - 1, acc * 256 + a[0]);
    }
  }

  lemma ShortLength(n: nat)
    requires n <= 127
    ensures PutLength(n) == [n]
  {
  }

  lemma LongLength(n: nat)
    requires 127 < n <= INT_MAX
    ensures 1 <= |BigEndian(n)| <= 4 <= SIZEOF_LONG
    ensures PutLength(n) == [0x80 + |BigEndian(n)|] + BigEndian(n)
  {
    BigEndianSize(n);
    DigitCountBounds(n);
  }

  lemma LengthRoundTrip(n: nat, rest: seq<byte>, max: int)
    requires n <= INT_MAX && max >= |PutLength(n)| + n
    ensures GetLength(PutLength(n) + rest, max) == Scanned(|PutLength(n)|, Length(n, false))
  {
    if n > 127 {
      LongLength(n);
      FoldBigEndian(n);
      LengthLoopReads(BigEndian(n), rest, max - 2, 0);
      LongLengthReads(BigEndian(n), n, rest, max);
    }
  }

  lemma LongLengthReads(d: seq<byte>, n: nat, rest: seq<byte>, max: int)
    requires 1 <= |d| <= SIZEOF_LONG && max > |d| + 1
    requires LengthLoop(d + rest, |d|, max - 2, 0) == Scanned(|d|, Length(n, false))
    ensures GetLength(([0x80 + |d|] + d) + rest, max) == Scanned(|d| + 1, Length(n, false))
  {
    hide LengthLoop;
    assert (([0x80 + |d|] + d) + rest)[1..] == d + rest;
  }

  lemma HighTagStep(digit: byte, rest: seq<byte>, max: int, l: nat)
    requires digit >= 0x80 && max > 1 && l * 128 + (digit - 0x80) <= INT_MAX / 128
    ensures HighTag([digit] + rest, max, l) == Shift(HighTag(rest, max - 1, l * 128 + (digit - 0x80)), 1)
  {
    assert ([digit] + rest)[1..] == rest;
  }

  /** Reading continues where the digits of a tag prefix left off. */
  lemma {:induction false} HighTagReads(tag: nat, rest: seq<byte>, max: int)
    requires tag <= INT_MAX / 128 && max > |Base128(tag, false)|
    ensures HighTag(Base128(tag, false) + rest, max, 0) ==
            Shift(HighTag(rest, max - |Base128(tag, false)|, tag), |Base128(tag, false)|)
  {
    hide HighTag;
    if tag == 0 {
      assert Base128(tag, false) + rest == rest;
    } else {
      var front, digit: byte := Base128(tag / 128, false), tag % 128 + 0x80;
      assert Base128(tag, false) + rest == front + ([digit] + rest);
      HighTagReads(tag / 128, [digit] + rest, max);
      HighTagStep(digit, rest, max - |front|, tag / 128);
    }
  }

  lemma TagRoundTrip(tag: nat, rest: seq<byte>, max: int)
    requires 31 <= tag <= INT_MAX && max > |Base128(tag, true)|
    ensures HighTag(Base128(tag, true) + rest, max, 0) == Scanned(|Base128(tag, true)|, (tag, max - |Base128(tag, true)|))
  {
    var front, digit: byte := Base128(tag / 128, false), tag % 128;
    assert Base128(tag, true) + rest == front + ([digit] + rest);
    HighTagReads(tag / 128, [digit] + rest, max);
    assert tag / 128 * 128 + digit == tag;
  }

  lemma IdentifierBits(form: Form, low: nat, xclass: Class, id: byte)
    requires low < 32
    requires id == (if form.Primitive? then 0 else V_ASN1_CONSTRUCTED) + xclass + low
    ensures ClassOf(id) == xclass && id % 32 == low
    ensures ConstructedBit(id) == if form.Primitive? then 0 else V_ASN1_CONSTRUCTED
    ensures WithoutConstructed(id) == xclass + low
  {
  }

  lemma IdentifierRoundTrip(form: Form, tag: nat, xclass: Class, rest: seq<byte>, omax: int)
    requires tag <= INT_MAX && omax > |PutIdentifier(form, tag, xclass)|
    ensures var id := PutIdentifier(form, tag, xclass);
            && GetTag(id + rest, omax) == Scanned(|id|, (tag, omax - |id|))
            && ClassOf(id[0]) == xclass && (ConstructedBit(id[0]) != 0 <==> !form.Primitive?)
  {
    var id := PutIdentifier(form, tag, xclass);
    IdentifierBits(form, if tag < 31 then tag else 31, xclass, id[0]);
    assert (id + rest)[0] == id[0];
    if tag >= 31 {
      assert (id + rest)[1..] == Base128(tag, true) + rest;
      TagRoundTrip(tag, rest, omax - 1);
    }
  }

  /** The header ASN1_get_object must report for what ASN1_put_object wrote. */
  function HeaderOf(form: Form, length: nat, tag: nat, xclass: Class): Object
  {
    Object(if form.IndefiniteForm? then 0 else length, tag, xclass, !form.Primitive?, form.IndefiniteForm?, false)
  }

  /** ASN1_get_object undoes ASN1_put_object for every tag, class, form and length,
      whatever octets follow, as soon as the header and a definite content fit. */
  lemma HeaderRoundTrip(form: Form, length: nat, tag: nat, xclass: Class, rest: seq<byte>, omax: int)
    requires length <= INT_MAX && tag <= INT_MAX
    requires omax >= |PutObject(form, length, tag, xclass)| + (if form.IndefiniteForm? then 0 else length)
    ensures GetObject(PutObject(form, length, tag, xclass) + rest, omax) ==
            Scanned(|PutObject(form, length, tag, xclass)|, HeaderOf(form, length, tag, xclass))
  {
    var id := PutIdentifier(form, tag, xclass);
    var len := if form.IndefiniteForm? then [0x80] else PutLength(length);
    var s, max := PutObject(form, length, tag, xclass) + rest, omax - |id|;
    assert s == id + (len + rest) && s[0] == id[0] && s[|id|..] == len + rest;
    IdentifierRoundTrip(form, tag, xclass, len + rest, omax);
    assert GetLength(len + rest, max) == Scanned(|len|, Length(if form.IndefiniteForm? then 0 else length, form.IndefiniteForm?)) by {
      if !form.IndefiniteForm? { LengthRoundTrip(length, rest, max); }
    }
  }

  // ------------------------------------------------------------------ methods

  /** The `while (i-- > 0)` loop of asn1_get_length. */
  method ReadLengthOctets(buf: array<byte>, pp: nat, count: nat, omax: int) returns (r: Scan<Length>)
    requires pp <= buf.Length
    ensures r == LengthLoop(buf[pp..], count, omax, 0)
  {
    var p, max, i, acc: nat := pp, omax, count, 0;
    while i > 0
      invariant pp <= p <= buf.Length
      invariant LengthLoop(buf[pp..], count, omax, 0) == Shift(LengthLoop(buf[p..], i, max, acc), p - pp)
    {
      if p >= buf.Length { return Overread; }
      assert buf[p..][1..] == buf[p + 1..];
      acc, p := acc * 256 + buf[p], p + 1;
      if max == 0 { return Refused; }
      max, i := max - 1, i - 1;
    }
    if acc > LONG_MAX { return Refused; }
    return Scanned(p - pp, Length(acc, false));
  }

  method ReadLength(buf: array<byte>, p: nat, omax: int) returns (r: Scan<Length>)
    requires p <= buf.Length
    ensures r == GetLength(buf[p..], omax)
  {
    var max := omax;
    if max < 1 { return Refused; }
    max := max - 1;
    if p >= buf.Length { return Overread; }
    if buf[p] == 0x80 { return Scanned(1, Length(0, true)); }
    if buf[p] < 0x80 { return Scanned(1, Length(buf[p], false)); }
    var i: nat := buf[p] - 0x80;
    if i > SIZEOF_LONG || max == 0 { return Refused; }
    r := ReadLengthOctets(buf, p + 1, i, max - 1);
    assert buf[p..][1..] == buf[p + 1..];
    r := Shift(r, 1);
  }

  lemma HighTagFrom(s: seq<byte>, max: int, l: nat)
    ensures |s| == 0 ==> HighTag(s, max, l) == Overread
    ensures |s| > 0 && s[0] >= 0x80 ==>
              HighTag(s, max, l) ==
              if max - 1 == 0 || l * 128 + (s[0] - 0x80) > INT_MAX / 128 then Refused
              else Shift(HighTag(s[1..], max - 1, l * 128 + (s[0] - 0x80)), 1)
    ensures |s| > 0 && s[0] < 0x80 ==>
              HighTag(s, max, l) == if max - 1 == 0 then Refused else Scanned(1, (l * 128 + s[0], max - 1))
  {
  }

  /** The `while (*p&0x80)` loop of ASN1_get_object and the last digit after it. */
  method ReadHighTag(buf: array<byte>, pp: nat, omax: int) returns (r: Scan<(nat, int)>)
    requires pp <= buf.Length
    ensures r == HighTag(buf[pp..], omax, 0)
  {
    hide HighTag;
    var p, max, l: nat := pp, omax, 0;
    HighTagFrom(buf[pp..], omax, 0);
    if p >= buf.Length { return Overread; }
    while buf[p] >= 0x80
      invariant pp <= p < buf.Length && max == omax - (p - pp)
      invariant HighTag(buf[pp..], omax, 0) == Shift(HighTag(buf[p..], max, l), p - pp)
      decreases buf.Length - p
    {
      HighTagFrom(buf[p..], max, l);
      assert buf[p..][1..] == buf[p + 1..];
      l, p, max := l * 128 + (buf[p] - 0x80), p + 1, max - 1;
      if max == 0 || l > INT_MAX / 128 { return Refused; }
      HighTagFrom(buf[p..], max, l);
      if p >= buf.Length { return Overread; }
    }
    HighTagFrom(buf[p..], max, l);
    l, p, max := l * 128 + buf[p], p + 1, max - 1;
    if max == 0 { return Refused; }
    return Scanned(p - pp, (l, max));
  }

  method ReadTag(buf: array<byte>, p: nat, omax: int) returns (r: Scan<(nat, int)>)
    requires p <= buf.Length
    ensures r == GetTag(buf[p..], omax)
  {
    if omax == 0 { return Refused; }
    if p >= buf.Length { return Overread; }
    var i := buf[p] % 32;
    if omax - 1 == 0 { return Refused; }
    if i != V_ASN1_PRIMITIVE_TAG { return Scanned(1, (i, omax - 1)); }
    r := ReadHighTag(buf, p + 1, omax - 1);
    assert buf[p..][1..] == buf[p + 1..];
    r := Shift(r, 1);
  }

  method ReadObject(buf: array<byte>, pp: nat, omax: int) returns (r: Scan<Object>)
    requires pp <= buf.Length
    ensures r == GetObject(buf[pp..], omax)
  {
    var tagged := ReadTag(buf, pp, omax);
    match tagged
    case Overread => return Overread;
    case Refused => return Refused;
    case Scanned(t, (tag, max)) =>
      var l := ReadLength(buf, pp + t, max);
      assert buf[pp..][t..] == buf[pp + t..];
      match l
      case Overread => return Overread;
      case Refused => return Refused;
      case Scanned(n, v) => return Scanned(t + n, ObjectFrom(buf[pp], tag, v, omax - (t + n)));
  }

  method ReadInfiniteEnd(buf: array<byte>, p: nat, len: int) returns (r: Scan<bool>)
    requires p <= buf.Length
    ensures r == CheckInfiniteEnd(buf[p..], len)
  {
    if len <= 0 { return Scanned(0, true); }
    if len < 2 { return Scanned(0, false); }
    if p >= buf.Length { return Overread; }
    if buf[p] != 0 { return Scanned(0, false); }
    if p + 1 >= buf.Length { return Overread; }
    if buf[p + 1] != 0 { return Scanned(0, false); }
    return Scanned(2, true);
  }

  /** `s` with `piece` written over it from `at` on. */
  function Splice<T>(s: seq<T>, at: nat, piece: seq<T>): (r: seq<T>)
    requires at + |piece| <= |s|
    ensures |r| == |s| && r[at..at + |piece|] == piece && r[..at] == s[..at] && r[at + |piece|..] == s[at + |piece|..]
  {
    s[..at] + piece + s[at + |piece|..]
  }

  lemma SpliceTwice<T>(s: seq<T>, at: nat, x: seq<T>, y: seq<T>)
    requires at + |x| + |y| <= |s|
    ensures Splice(Splice(s, at, x), at + |x|, y) == Splice(s, at, x + y)
  {
    var once := Splice(s, at, x);
    var twice := Splice(once, at + |x|, y);
    assert forall k :: at + |x| <= k < |s| ==> once[k] == s[k];
    assert forall k :: at <= k < at + |x| ==> once[k] == x[k - at];
    assert twice == Splice(s, at, x + y);
  }

  lemma SpliceByIndex<T>(s: seq<T>, at: nat, piece: seq<T>, r: seq<T>)
    requires at + |piece| <= |s| == |r|
    requires forall k :: 0 <= k < |piece| ==> r[at + k] == piece[k]
    requires forall k :: 0 <= k < |s| && !(at <= k < at + |piece|) ==> r[k] == s[k]
    ensures r == Splice(s, at, piece)
  {
  }

  method CountDigits(n: nat, bits: int) returns (i: nat)
    ensures i == DigitCount(n, bits)
  {
    i := 0;
    var l: nat := n;
    while l > 0
      invariant i + DigitCount(l, bits) == DigitCount(n, bits)
    {
      l, i := Shifted(l, bits), i + 1;
    }
  }

  /** The length octets after the first, least significant last. */
  method WriteLengthOctets(buf: array<byte>, pp: nat, count: nat, length: nat)
    requires count == |BigEndian(length)| && pp + count <= buf.Length
    modifies buf
    ensures buf[..] == Splice(old(buf[..]), pp, BigEndian(length))
  {
    ghost var digits := BigEndian(length);
    var i, n := count, length;
    while i > 0
      invariant 0 <= i <= count && BigEndian(n) == digits[..i]
      invariant forall k :: i <= k < count ==> buf[pp + k] == digits[k]
      invariant forall k :: 0 <= k < buf.Length && !(pp <= k < pp + count) ==> buf[k] == old(buf[k])
    {
      i := i - 1;
      buf[pp + i] := n % 256;
      n := n / 256;
    }
    SpliceByIndex(old(buf[..]), pp, digits, buf[..]);
  }

  method WriteLength(buf: array<byte>, pp: nat, length: nat) returns (p: nat)
    requires length <= INT_MAX && pp + |PutLength(length)| <= buf.Length
    modifies buf
    ensures p == pp + |PutLength(length)|
    ensures buf[..] == Splice(old(buf[..]), pp, PutLength(length))
  {
    hide *;
    ghost var was := buf[..];
    if length <= 127 {
      ShortLength(length);
      buf[pp] := length;
      p := pp + 1;
      SpliceByIndex(was, pp, [length], buf[..]);
    } else {
      LongLength(length);
      BigEndianSize(length);
      var i := CountDigits(length, 8);
      var first: byte := i + 0x80;
      buf[pp] := first;
      SpliceByIndex(was, pp, [first], buf[..]);
      WriteLengthOctets(buf, pp + 1, i, length);
      SpliceTwice(was, pp, [first], BigEndian(length));
      p := pp + 1 + i;
    }
  }

  method WriteTag(buf: array<byte>, pp: nat, tag: nat) returns (p: nat)
    requires tag >= 31 && pp + |Base128(tag, true)| <= buf.Length
    modifies buf
    ensures p == pp + |Base128(tag, true)|
    ensures buf[..] == Splice(old(buf[..]), pp, Base128(tag, true))
  {
    ghost var digits := Base128(tag, true);
    Base128Size(tag, true);
    var i := CountDigits(tag, 7);
    p := pp + i;
    var count, n := i, tag;
    while i > 0
      invariant 0 <= i <= count == |digits| && Base128(n, i == count) == digits[..i]
      invariant forall k :: i <= k < count ==> buf[pp + k] == digits[k]
      invariant forall k :: 0 <= k < buf.Length && !(pp <= k < p) ==> buf[k] == old(buf[k])
    {
      i := i - 1;
      buf[pp + i] := n % 128;
      if i != count - 1 { buf[pp + i] := buf[pp + i] + 0x80; }
      n := n / 128;
    }
    SpliceByIndex(old(buf[..]), pp, digits, buf[..]);
  }

  method WriteIdentifier(buf: array<byte>, pp: nat, form: Form, tag: nat, xclass: Class) returns (p: nat)
    requires pp + |PutIdentifier(form, tag, xclass)| <= buf.Length
    modifies buf
    ensures p == pp + |PutIdentifier(form, tag, xclass)|
    ensures buf[..] == Splice(old(buf[..]), pp, PutIdentifier(form, tag, xclass))
  {
    ghost var was := buf[..];
    var i := (if form.Primitive? then 0 else V_ASN1_CONSTRUCTED) + xclass;
    var first: byte := i + if tag < 31 then tag else V_ASN1_PRIMITIVE_TAG;
    buf[pp] := first;
    p := pp + 1;
    SpliceByIndex(was, pp, [first], buf[..]);
    if tag >= 31 {
      p := WriteTag(buf, p, tag);
      SpliceTwice(was, pp, [first], Base128(tag, true));
    }
  }

  /** ASN1_put_object */
  method WriteObject(buf: array<byte>, pp: nat, form: Form, length: nat, tag: nat, xclass: Class) returns (p: nat)
    requires length <= INT_MAX
    requires pp + |PutObject(form, length, tag, xclass)| <= buf.Length
    modifies buf
    ensures p == pp + |PutObject(form, length, tag, xclass)|
    ensures buf[..] == Splice(old(buf[..]), pp, PutObject(form, length, tag, xclass))
  {
    ghost var was, id := buf[..], PutIdentifier(form, tag, xclass);
    p := WriteIdentifier(buf, pp, form, tag, xclass);
    if form.IndefiniteForm? {
      ghost var before := buf[..];
      buf[p] := 0x80;
      SpliceByIndex(before, p, [0x80], buf[..]);
      SpliceTwice(was, pp, id, [0x80]);
      p := p + 1;
    } else {
      p := WriteLength(buf, p, length);
      SpliceTwice(was, pp, id, PutLength(length));
    }
  }

  method CountObject(form: Form, length: nat, tag: nat) returns (ret: nat)
    requires length <= INT_MAX
    ensures ret == ObjectSize(form, length, tag)
  {
    ret := length + 1;
    if tag >= 31 {
      var digits := CountDigits(tag, 7);
      ret := ret + digits;
    }
    if form.IndefiniteForm? { return ret + 3; }
    ret := ret + 1;
    if length > 127 {
      var digits := CountDigits(length, 8);
      ret := ret + digits;
    }
  }
}

/** What an object's octets are, apart from lengths: a relation between objects and octets,
    over headers, the contents between them and the marks behind them. Whatever a decoder
    reads, whatever lengths it was offered on the way, the octets it used spell the object
    it returned. */
module Asn1Spelling {
  import opened Asn1Header
  import opened Asn1Template
  import opened Asn1RoundTrip
  import opened Asn1Extent
  import opened Asn1Content
  import opened Options

  /** The contents end at `m`: nothing follows, or the end mark of an indefinite form. */
  ghost predicate Closed(e: seq<byte>, m: nat)
  {
    m <= |e| && (e[m..] == [] || (e[m..] == [0, 0] && Header(e).Scanned? && Header(e).value.inf))
  }

  ghost predicate Spells(t: Template, v: Value, e: seq<byte>)
    decreases t, 0
  {
    match t
    case Prim(tag) => v.Octets? && Content(tag, e) == Some(Text(v.octets, |e|))
    case Sequence(fields) =>
      && v.Record? && !v.inf && Header(e).Scanned? && Header(e).value.tag == 16
      && exists m: nat ::
           && Header(e).n <= m && Closed(e, m) && SpellsFields(fields, v.slots, e[Header(e).n..m])
           && (!Header(e).value.Indefinite() ==> m == |e| == Header(e).n + Header(e).value.len)
  }

  ghost predicate SpellsFields(fl: FieldList, ss: Slots, e: seq<byte>)
    decreases fl, 0
  {
    match fl
    case FEnd => ss.SEnd? && e == []
    case FCons(kind, t, rest) =>
      ss.SCons? && exists k: nat :: k <= |e| && SpellsSlot(kind, t, ss.slot, e[..k]) && SpellsFields(rest, ss.rest, e[k..])
  }

  /** A field that is there opens with the octet its macro looks for. */
  ghost predicate SpellsSlot(kind: Kind, t: Template, slot: Slot, e: seq<byte>)
    decreases t, 3
  {
    match slot
    case Absent => kind.Optional() && e == []
    case One(v, inf) =>
      !inf && e != [] &&
      (match kind
       case Plain => Spells(t, v, e)
       case Opt => WithoutConstructed(e[0]) == TypeTag(t) && Spells(t, v, e)
       case ImpOpt(tag) => WithoutConstructed(e[0]) == 0x80 + tag && Spells(t, v, e[0 := TypeTag(t) + ConstructedBit(e[0])])
       case ExpOpt(tag) =>
         e[0] == 0xa0 + tag && Header(e).Scanned? &&
         exists m: nat :: Header(e).n <= m && Closed(e, m) && Spells(t, v, e[Header(e).n..m])
       case _ => false)
    case Many(vs, inf) =>
      !inf && e != [] &&
      (match kind
       case SeqOf => SpellsList(t, vs, e, 16, 0)
       case SeqOfOpt => e[0] == 0x30 && SpellsList(t, vs, e, 16, 0)
       case ImpSeqOfOpt(tag) => e[0] == 0xa0 + tag && SpellsList(t, vs, e, tag, 0x80)
       case ExpSeqOfOpt(tag) =>
         e[0] == 0xa0 + tag && Header(e).Scanned? &&
         exists m: nat :: Header(e).n <= m && Closed(e, m) && SpellsList(t, vs, e[Header(e).n..m], 16, 0)
       case _ => false)
  }

  /** The elements reach the end their header gives, or pass it. */
  ghost predicate SpellsList(t: Template, vs: seq<Value>, e: seq<byte>, tag: nat, xclass: Class)
    decreases t, 2
  {
    && Header(e).Scanned? && Header(e).value.tag == tag && Header(e).value.xclass == xclass
    && exists m: nat ::
         && Header(e).n <= m && Closed(e, m) && SpellsAll(t, vs, e[Header(e).n..m])
         && (!Header(e).value.inf ==> m == |e| && Header(e).n + Header(e).value.len <= m)
  }

  ghost predicate SpellsAll(t: Template, vs: seq<Value>, e: seq<byte>)
    decreases t, 1, |vs|
  {
    if vs == [] then e == []
    else exists k: nat :: k <= |e| && Spells(t, vs[0], e[..k]) && SpellsAll(t, vs[1..], e[k..])
  }

  // ------------------------------------------------------------- what is read is spelt

  lemma {:induction false} ReadIsSpelt(t: Template, s: seq<byte>, length: int)
    requires Decode(t, s, length).Decoded?
    ensures Spells(t, Decode(t, s, length).value, s[..Decode(t, s, length).n])
    decreases t, 0
  {
    match t
    case Prim(tag) => ContentIsRead(tag, s, length);
    case Sequence(fields) => RecordIsSpelt(fields, s, length);
  }

  /** The header of what is cut off at `n` is the header of what goes on. */
  lemma CutHeader(s: seq<byte>, omax: int, n: nat)
    requires GetObject(s, omax).Scanned? && GetObject(s, omax).n <= n <= |s|
    ensures
      var r, h := GetObject(s, omax), Header(s[..n]);
      && h.Scanned? && h.n == r.n
      && h.value.len == r.value.len && h.value.tag == r.value.tag
      && h.value.constructed == r.value.constructed && h.value.inf == r.value.inf && h.value.xclass == r.value.xclass
  {
    hide GetObject, Header;
    var k := GetObject(s, omax).n;
    assert s[..n][..k] == s[..k];
    HeaderLocal(s, s[..n], omax);
  }

  lemma InfIsEmpty(s: seq<byte>, omax: int)
    requires GetObject(s, omax).Scanned? && GetObject(s, omax).value.inf
    ensures GetObject(s, omax).value.len == 0
  {
    hide HighTag, LengthLoop;
  }

  lemma MarkCloses(s: seq<byte>, m: nat, len: int, ended: nat)
    requires m <= |s| && CheckInfiniteEnd(s[m..], len) == Scanned(ended, true)
    ensures m + ended <= |s| && (s[..m + ended][m..] == [] || s[..m + ended][m..] == [0, 0])
  {
    if ended == 2 {
      assert s[..m + 2][m..] == [s[m..][0], s[m..][1]];
    } else {
      assert s[..m][m..] == [];
    }
  }

  lemma {:induction false} RecordIsSpelt(fields: FieldList, s: seq<byte>, length: int)
    requires Decode(Sequence(fields), s, length).Decoded?
    ensures Spells(Sequence(fields), Decode(Sequence(fields), s, length).value, s[..Decode(Sequence(fields), s, length).n])
    decreases fields, 2
  {
    hide GetObject, DecodeFields, SpellsFields, CheckInfiniteEnd;
    var n, c := GetSequence(s, length).n, GetSequence(s, length).value;
    var f := DecodeFields(fields, s[n..], c.slen);
    FieldsAreSpelt(fields, s[n..], c.slen);
    var m := n + f.n;
    assert s[n..][f.n..] == s[m..];
    var d := Decode(Sequence(fields), s, length);
    var e := s[..d.n];
    CutHeader(s, length, d.n);
    if c.inf { InfIsEmpty(s, length); }
    if c.indefinite {
      MarkCloses(s, m, c.slen - f.n, d.n - m);
    } else {
      assert d.n == m && e[m..] == [];
    }
    Slices(s, n, f.n, d.n);
    assert Closed(e, m);
  }

  lemma {:induction false} FieldsAreSpelt(fl: FieldList, s: seq<byte>, slen: int)
    requires DecodeFields(fl, s, slen).Decoded?
    ensures SpellsFields(fl, DecodeFields(fl, s, slen).value, s[..DecodeFields(fl, s, slen).n])
    decreases fl, 1
  {
    hide DecodeSlot, SpellsSlot;
    if fl.FCons? {
      var d := DecodeSlot(fl.kind, fl.t, s, slen);
      var f := DecodeFields(fl.rest, s[d.n..], slen - d.n);
      SlotIsSpelt(fl.kind, fl.t, s, slen);
      FieldsAreSpelt(fl.rest, s[d.n..], slen - d.n);
      var e := s[..d.n + f.n];
      assert e[..d.n] == s[..d.n] && e[d.n..] == s[d.n..][..f.n];
    }
  }

  lemma {:induction false} SlotIsSpelt(kind: Kind, t: Template, s: seq<byte>, slen: int)
    requires DecodeSlot(kind, t, s, slen).Decoded?
    ensures SpellsSlot(kind, t, DecodeSlot(kind, t, s, slen).value, s[..DecodeSlot(kind, t, s, slen).n])
    decreases t, 6
  {
    hide DecodePresent;
    if kind.Optional() ==> slen != 0 && |s| > 0 && Matches(kind, t, s[0]) { PresentIsSpelt(kind, t, s, slen); }
  }

  lemma {:induction false} PresentIsSpelt(kind: Kind, t: Template, s: seq<byte>, slen: int)
    requires kind.Optional() ==> |s| > 0 && Matches(kind, t, s[0])
    requires DecodePresent(kind, t, s, slen).Decoded?
    ensures SpellsSlot(kind, t, DecodePresent(kind, t, s, slen).value, s[..DecodePresent(kind, t, s, slen).n])
    decreases t, 5
  {
    hide Decode, DecodeSet, DecodeExplicit, Spells, SpellsList;
    match kind
    case Plain => ReadIsSpelt(t, s, slen);
    case Opt => ReadIsSpelt(t, s, slen);
    case ImpOpt(tag) =>
      var x := s[0 := ImplicitOctet(s[0], t)];
      ReadIsSpelt(t, x, slen);
      var n := Decode(t, x, slen).n;
      assert x[..n] == s[..n][0 := TypeTag(t) + ConstructedBit(s[0])];
    case ExpOpt(tag) => ExplicitIsSpelt(kind, t, s, slen);
    case SeqOf => ListIsSpelt(t, s, slen, V_ASN1_SEQUENCE, V_ASN1_UNIVERSAL);
    case SeqOfOpt => ListIsSpelt(t, s, slen, V_ASN1_SEQUENCE, V_ASN1_UNIVERSAL);
    case ImpSeqOfOpt(tag) => ListIsSpelt(t, s, slen, tag, V_ASN1_CONTEXT_SPECIFIC);
    case ExpSeqOfOpt(tag) => ExplicitIsSpelt(kind, t, s, slen);
  }

  lemma {:induction false} ExplicitIsSpelt(kind: Kind, t: Template, s: seq<byte>, slen: int)
    requires kind.Explicit() && |s| > 0 && Matches(kind, t, s[0]) && DecodeExplicit(kind, t, s, slen).Decoded?
    ensures SpellsSlot(kind, t, DecodeExplicit(kind, t, s, slen).value, s[..DecodeExplicit(kind, t, s, slen).n])
    decreases t, 4
  {
    hide WrapperHeader, WrapperEnd, Header, Closed, Decode, DecodeSet, Spells, SpellsList;
    var n, c := WrapperHeader(s, slen).n, WrapperHeader(s, slen).value;
    var f, d := DecodeInside(kind, t, s[n..], c.slen), DecodeExplicit(kind, t, s, slen);
    assert f == if kind.ExpOpt? then DecodeOne(t, s[n..], c.slen) else Nested(DecodeSet(t, s[n..], c.slen, V_ASN1_SEQUENCE, V_ASN1_UNIVERSAL));
    var m, e := n + f.n, s[..d.n];
    WrapperCloses(s, slen, m, d.n);
    Slices(s, n, f.n, d.n);
    if kind.ExpOpt? {
      ReadIsSpelt(t, s[n..], c.slen);
    } else {
      ListIsSpelt(t, s[n..], c.slen, V_ASN1_SEQUENCE, V_ASN1_UNIVERSAL);
    }
  }

  /** A wrapper around octets up to `m`, ended behind them. */
  lemma WrapperCloses(s: seq<byte>, slen: int, m: nat, end: nat)
    requires WrapperHeader(s, slen).Decoded? && WrapperHeader(s, slen).n <= m <= |s|
    requires
      var k := WrapperEnd(s[m..], slen - m, WrapperHeader(s, slen).value.indefinite);
      k.Decoded? && end == m + k.n
    ensures Header(s[..end]).Scanned? && Header(s[..end]).n == WrapperHeader(s, slen).n && Closed(s[..end], m)
  {
    hide GetObject, CheckInfiniteEnd;
    var c := WrapperHeader(s, slen).value;
    CutHeader(s, slen, end);
    if c.indefinite {
      MarkCloses(s, m, slen - m, end - m);
    } else {
      assert end == m && s[..end][m..] == [];
    }
  }

  lemma {:induction false} ListIsSpelt(t: Template, s: seq<byte>, length: int, tag: nat, xclass: Class)
    requires DecodeSet(t, s, length, tag, xclass).Decoded?
    ensures
      var d := DecodeSet(t, s, length, tag, xclass);
      d.n >= 2 && d.value.Many? && !d.value.inf && SpellsList(t, d.value.vs, s[..d.n], tag, xclass)
    decreases t, 3
  {
    hide GetObject, DecodeElements, SpellsAll;
    var n, c := SetHeader(s, length, tag, xclass).n, SetHeader(s, length, tag, xclass).value;
    var omax := if length == 0 then -1 else length;
    var d := DecodeSet(t, s, length, tag, xclass);
    var k := ElementsAreSpelt(t, s[n..], c.slen, c.slen, c.inf);
    var m, e := n + k, s[..d.n];
    CutHeader(s, omax, d.n);
    Slices(s, n, k, d.n);
    assert Closed(e, m);
  }

  /** The elements take the first `k` octets; a mark may follow. */
  lemma {:induction false} ElementsAreSpelt(t: Template, s: seq<byte>, left: int, slen: int, inf: bool) returns (k: nat)
    requires DecodeElements(t, s, left, slen, inf).Decoded? && left <= slen
    ensures
      var d := DecodeElements(t, s, left, slen, inf);
      && k <= d.n <= |s| && SpellsAll(t, d.value, s[..k])
      && (s[..d.n][k..] == [] || (inf && s[..d.n][k..] == [0, 0])) && (!inf ==> k == d.n >= left)
    decreases t, 2, |s|
  {
    hide *;
    var d, one := DecodeElements(t, s, left, slen, inf), Decode(t, s, slen);
    ElementsEnd(t, s, left, slen, inf);
    if d.value == [] {
      k := 0;
      NothingSpelt(t, s[..0]);
      assert s[..d.n][0..] == s[..d.n];
    } else {
      ElementsGoOn(t, s, left, slen, inf);
      ReadIsSpelt(t, s, slen);
      var k' := ElementsAreSpelt(t, s[one.n..], left - one.n, slen, inf);
      k := one.n + k';
      OneMoreSpelt(t, one.value, DecodeElements(t, s[one.n..], left - one.n, slen, inf).value, s, one.n, k');
      Slices(s, one.n, k', d.n);
    }
  }

  lemma Slices(s: seq<byte>, n: nat, k: nat, end: nat)
    requires n + k <= end <= |s|
    ensures s[..end][n..n + k] == s[n..][..k] && s[..end][n + k..] == s[n..][..end - n][k..]
  {
  }

  lemma NothingSpelt(t: Template, e: seq<byte>)
    requires e == []
    ensures SpellsAll(t, [], e)
  {
  }

  lemma ElementsEnd(t: Template, s: seq<byte>, left: int, slen: int, inf: bool)
    requires DecodeElements(t, s, left, slen, inf).Decoded? && left <= slen
    ensures
      var d := DecodeElements(t, s, left, slen, inf);
      d.value == [] ==> d.n <= |s| && (s[..d.n] == [] || (inf && s[..d.n] == [0, 0])) && (!inf ==> d.n == 0 >= left)
  {
    hide Decode;
    var d := DecodeElements(t, s, left, slen, inf);
    if d.value == [] && d.n == 2 { assert s[..2] == [s[0], s[1]]; }
  }

  lemma ElementsGoOn(t: Template, s: seq<byte>, left: int, slen: int, inf: bool)
    requires DecodeElements(t, s, left, slen, inf).Decoded? && DecodeElements(t, s, left, slen, inf).value != []
    ensures
      var d, one := DecodeElements(t, s, left, slen, inf), Decode(t, s, slen);
      && one.Decoded? && 2 <= one.n <= |s|
      && var others := DecodeElements(t, s[one.n..], left - one.n, slen, inf);
      && others.Decoded? && others.n <= |s| - one.n && d.n == one.n + others.n && d.value == [one.value] + others.value
  {
    hide Decode, CheckInfiniteEnd;
  }

  lemma OneMoreSpelt(t: Template, v: Value, vs: seq<Value>, s: seq<byte>, n: nat, k: nat)
    requires n + k <= |s| && Spells(t, v, s[..n]) && SpellsAll(t, vs, s[n..][..k])
    ensures SpellsAll(t, [v] + vs, s[..n + k])
  {
    hide Spells;
    var e := s[..n + k];
    assert e[..n] == s[..n] && e[n..] == s[n..][..k];
    assert ([v] + vs)[0] == v && ([v] + vs)[1..] == vs;
  }

  // ------------------------------------------------------------------ absent and refused

  /** The identifier octets a field's macro looks for; a macro without a test takes any. */
  ghost predicate LooksFor(kind: Kind, t: Template, id: byte)
  {
    match kind
    case Plain => true
    case SeqOf => true
    case Opt => id == TypeTag(t) || id == 0x20 + TypeTag(t)
    case ImpOpt(tag) => id == 0x80 + tag || id == 0xa0 + tag
    case ExpOpt(tag) => id == 0xa0 + tag
    case SeqOfOpt => id == 0x30
    case ImpSeqOfOpt(tag) => id == 0xa0 + tag
    case ExpSeqOfOpt(tag) => id == 0xa0 + tag
  }

  /** A field counts as absent exactly when it is optional and its length has run out or
      the next octet is another one. */
  lemma AbsentExactly(kind: Kind, t: Template, s: seq<byte>, slen: int)
    ensures
      DecodeSlot(kind, t, s, slen) == Decoded(0, Absent) <==>
        kind.Optional() && (slen == 0 || (|s| > 0 && !LooksFor(kind, t, s[0])))
  {
    hide DecodePresent;
    if kind.Optional() ==> |s| > 0 { PresentIsThere(kind, t, s, slen); }
  }

  lemma PresentIsThere(kind: Kind, t: Template, s: seq<byte>, slen: int)
    requires kind.Optional() ==> |s| > 0
    ensures DecodePresent(kind, t, s, slen).Decoded? ==> !DecodePresent(kind, t, s, slen).value.Absent?
  {
    hide Decode, DecodeSet, DecodeExplicit;
    ExplicitIsThere(kind, t, s, slen);
    ListIsThere(t, s, slen, V_ASN1_SEQUENCE, V_ASN1_UNIVERSAL);
    if kind.ImpSeqOfOpt? { ListIsThere(t, s, slen, kind.tag, V_ASN1_CONTEXT_SPECIFIC); }
  }

  lemma ListIsThere(t: Template, s: seq<byte>, length: int, tag: nat, xclass: Class)
    ensures DecodeSet(t, s, length, tag, xclass).Decoded? ==> DecodeSet(t, s, length, tag, xclass).value.Many?
  {
    hide SetHeader, DecodeElements;
  }

  lemma ExplicitIsThere(kind: Kind, t: Template, s: seq<byte>, slen: int)
    ensures DecodeExplicit(kind, t, s, slen).Decoded? ==> !DecodeExplicit(kind, t, s, slen).value.Absent?
  {
    hide Decode, DecodeSet, WrapperHeader, WrapperEnd;
    var h := WrapperHeader(s, slen);
    if h.Decoded? {
      ListIsThere(t, s[h.n..], h.value.slen, V_ASN1_SEQUENCE, V_ASN1_UNIVERSAL);
      var f := DecodeInside(kind, t, s[h.n..], h.value.slen);
      OneIsThere(t, s[h.n..], h.value.slen);
      assert f == if kind.ExpSeqOfOpt? then Nested(DecodeSet(t, s[h.n..], h.value.slen, V_ASN1_SEQUENCE, V_ASN1_UNIVERSAL)) else DecodeOne(t, s[h.n..], h.value.slen);
    }
  }

  lemma OneIsThere(t: Template, s: seq<byte>, slen: int)
    ensures DecodeOne(t, s, slen).Decoded? ==> DecodeOne(t, s, slen).value.One?
  {
    hide Decode;
  }

  /** Why a string, a SEQUENCE or a list is refused at its header. */
  lemma RefusedHeaders(s: seq<byte>, length: int, tag: nat, xclass: Class)
    requires length != 0
    ensures
      var h, p, q, l := GetObject(s, length), DecodePrim(tag, s, length), GetSequence(s, length), SetHeader(s, length, tag, xclass);
      && (h.Refused? || (h.Scanned? && h.value.tooLong) <==> p == Failed(BadObjectHeader))
      && (h.Refused? || (h.Scanned? && h.value.tooLong) <==> q == Failed(BadGetObjectCall))
      && (h.Refused? || (h.Scanned? && h.value.tooLong) <==> l == Failed(BadObjectHeader))
      && (h.Scanned? && !h.value.tooLong ==>
            && (p == Failed(WrongTag) <==> h.value.tag != tag)
            && (q == Failed(ExpectingSequence) <==> h.value.tag != 16)
            && (l == Failed(BadClass) <==> h.value.xclass != xclass)
            && (l == Failed(BadTag) <==> h.value.xclass == xclass && h.value.tag != tag))
  {
    hide GetObject, Collate;
  }

  // ------------------------------------------------------- what is written is spelt

  /** What i2d writes spells the object, when there is some room in which it can be read. */
  lemma WrittenIsSpelt(t: Template, v: Value, slack: nat)
    requires WellFormed(t) && Fits(t, v) && |Encode(t, v)| <= INT_MAX && Readable(t, v, slack)
    ensures Spells(t, Canon(t, v), Encode(t, v))
  {
    hide Spells, Decode, Encode;
    var e := Encode(t, v);
    ReadBack(t, v, [], slack);
    assert e + [] == e && e[..|e|] == e;
    ReadIsSpelt(t, e, |e| + slack);
  }
}

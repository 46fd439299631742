/** The macros themselves: cursor state updated in place, the IMPLICIT identifier
    rewritten in the caller's octets and put back, and the two passes of the writer. */
module Asn1Codec {
  import opened Asn1Header
  import opened Asn1Template
  import opened Asn1RoundTrip
  import opened Options
  import Asn1Content
  import Asn1Spelling

  // ------------------------------------------------------------------ reading

  // How the outcome of each reader follows from the outcomes of its steps.

  lemma SequenceUnfolds(fields: FieldList, s: seq<byte>, length: int)
    ensures var d, g := Decode(Sequence(fields), s, length), GetSequence(s, length);
            && (g.Wild? ==> d == Wild) && (g.Failed? ==> d == Failed(g.error))
            && (g.Decoded? ==>
                  var b := DecodeBody(fields, s[g.n..], g.value);
                  && (b.Wild? ==> d == Wild) && (b.Failed? ==> d == Failed(b.error))
                  && (b.Decoded? ==> d == Decoded(g.n + b.n, Record(b.value, false))))
  {
    hide GetSequence, DecodeBody;
  }

  lemma BodyUnfolds(fields: FieldList, s: seq<byte>, c: Frame)
    ensures var d, f := DecodeBody(fields, s, c), DecodeFields(fields, s, c.slen);
            && (f.Wild? ==> d == Wild) && (f.Failed? ==> d == Failed(f.error))
            && (f.Decoded? ==>
                  var e := Finish(s[f.n..], c.(slen := c.slen - f.n));
                  && (e.Wild? ==> d == Wild) && (e.Failed? ==> d == Failed(e.error))
                  && (e.Decoded? ==> d == Decoded(f.n + e.n, f.value)))
  {
    hide DecodeFields, Finish;
  }

  lemma SetUnfolds(t: Template, s: seq<byte>, length: int, exTag: nat, exClass: Class)
    ensures var d, h := DecodeSet(t, s, length, exTag, exClass), SetHeader(s, length, exTag, exClass);
            && (h.Wild? ==> d == Wild) && (h.Failed? ==> d == Failed(h.error))
            && (h.Decoded? ==>
                  var e := DecodeElements(t, s[h.n..], h.value.slen, h.value.slen, h.value.inf);
                  && (e.Wild? ==> d == Wild) && (e.Failed? ==> d == Failed(e.error))
                  && (e.Decoded? ==> d == Decoded(h.n + e.n, Many(e.value, false))))
  {
    hide SetHeader, DecodeElements;
  }

  lemma ExplicitUnfolds(kind: Kind, t: Template, s: seq<byte>, slen: int)
    ensures var d, h := DecodeExplicit(kind, t, s, slen), WrapperHeader(s, slen);
            && (h.Wild? ==> d == Wild) && (h.Failed? ==> d == Failed(h.error))
            && (h.Decoded? ==>
                  var b := DecodeInside(kind, t, s[h.n..], h.value.slen);
                  && (b.Wild? ==> d == Wild) && (b.Failed? ==> d == Failed(b.error))
                  && (b.Decoded? ==>
                        && h.n + b.n <= |s|
                        && var e := WrapperEnd(s[h.n + b.n..], slen - (h.n + b.n), h.value.indefinite);
                        && (e.Wild? ==> d == Wild) && (e.Failed? ==> d == Failed(e.error))
                        && (e.Decoded? ==> d == Decoded(h.n + b.n + e.n, b.value))))
  {
    hide WrapperHeader, DecodeInside, WrapperEnd;
  }

  /** ASN1_CTX, with positions in the caller's octets for the pointers. */
  class Asn1Ctx {
    var p: nat         // work position
    var q: nat         // where the field being read starts
    var slen: int      // octets left of the last header's length
    var inf: bool      // bit 0 of c.inf
    var indefinite: bool  // c.inf == (1|V_ASN1_CONSTRUCTED)

    /** M_ASN1_D2I_vars and M_ASN1_D2I_Init: start where the caller's pointer is. */
    constructor (pp: nat)
      ensures p == pp && q == pp
    {
      p, q, slen, inf, indefinite := pp, pp, 0, false, false;
    }

    /** M_ASN1_D2I_start_sequence */
    method StartSequence(buf: array<byte>, length: int) returns (r: Decoded<Frame>)
      requires p <= buf.Length
      modifies this`p, this`slen, this`inf, this`indefinite
      ensures r == GetSequence(buf[old(p)..], length)
      ensures r.Decoded? ==> p == old(p) + r.n && Frame(slen, inf, indefinite) == r.value
    {
      var pp := p;
      var h := ReadObject(buf, p, length);
      match h
      case Overread => return Wild;
      case Refused => return Failed(BadGetObjectCall);
      case Scanned(n, o) =>
        if o.tooLong { return Failed(BadGetObjectCall); }
        if o.tag != V_ASN1_SEQUENCE { return Failed(ExpectingSequence); }
        p, slen, inf, indefinite := p + n, o.len, o.inf, o.Indefinite();
        var left := length - (p - pp);
        if length != 0 && left < 0 { return Failed(LengthMismatch); }
        if indefinite { slen := left + pp - p; }
        return Decoded(n, Frame(slen, inf, indefinite));
    }

    /** M_ASN1_D2I_Finish, up to the store through the caller's pointer. */
    method CloseSequence(buf: array<byte>) returns (r: Decoded<()>)
      requires p <= buf.Length
      modifies this`p
      ensures r == Finish(buf[old(p)..], Frame(slen, inf, indefinite))
      ensures r.Decoded? ==> p == old(p) + r.n
    {
      var k := 0;
      if indefinite {
        var end := ReadInfiniteEnd(buf, p, slen);
        if end.Overread? { return Wild; }
        if !end.value { return Failed(MissingEos); }
        k, p := end.n, p + end.n;
      }
      if (slen != 0 && !inf) || (slen < 0 && inf) { return Failed(LengthMismatch); }
      return Decoded(k, ());
    }

    // Every M_ASN1_D2I_get* macro below leaves the caller's octets as they were and
    // keeps `p + slen`, also when fields nested in the one it reads rewrite octets.

    /** M_ASN1_D2I_get */
    method Get(t: Template, buf: array<byte>) returns (r: Decoded<Slot>)
      requires p <= buf.Length
      modifies this`p, this`q, this`slen, buf
      ensures r == DecodeOne(t, old(buf[p..]), old(slen))
      ensures buf[..] == old(buf[..])
      ensures r.Decoded? ==> p == old(p) + r.n <= buf.Length && p + slen == old(p) + old(slen)
      decreases t, 1
    {
      q := p;
      var b := D2i(t, buf, this, slen);
      if b.Wild? { return Wild; }
      if b.Failed? { return Failed(NestedAsn1Error); }
      slen := slen - (p - q);
      return Decoded(b.n, One(b.value, false));
    }

    /** M_ASN1_D2I_get_imp: the identifier octet is overwritten while the field is
        read and put back whether or not that succeeds. */
    method GetImp(t: Template, buf: array<byte>) returns (r: Decoded<Slot>)
      requires p < buf.Length
      modifies this`p, this`q, this`slen, buf
      ensures r == DecodeOne(t, old(buf[p..])[0 := ImplicitOctet(old(buf[p]), t)], old(slen))
      ensures buf[..] == old(buf[..])
      ensures r.Decoded? ==> p == old(p) + r.n <= buf.Length && p + slen == old(p) + old(slen)
      decreases t, 2
    {
      var tmp := buf[p];
      buf[p] := ImplicitOctet(tmp, t);
      q := p;
      assert buf[p..] == old(buf[p..])[0 := ImplicitOctet(tmp, t)];
      label Rewritten:
      var b := D2i(t, buf, this, slen);
      assert buf[..] == old@Rewritten(buf[..]);
      if b.Wild? { buf[q] := tmp; return Wild; }
      if b.Failed? { buf[q] := tmp; return Failed(NestedAsn1Error); }
      slen := slen - (p - q);
      buf[q] := tmp;
      return Decoded(b.n, One(b.value, false));
    }

    /** The ASN1_get_object call of a wrapper, and Tlen. */
    method OpenWrapper(buf: array<byte>) returns (r: Decoded<Frame>)
      requires p <= buf.Length
      modifies this`p
      ensures r == WrapperHeader(buf[old(p)..], slen)
      ensures r.Decoded? ==> p == old(p) + r.n
    {
      var h := ReadObject(buf, p, slen);
      match h
      case Overread => return Wild;
      case Refused => return Failed(BadObjectHeader);
      case Scanned(n, o) =>
        if o.tooLong { return Failed(BadObjectHeader); }
        p := p + n;
        var tlen := if o.Indefinite() then slen - n - 2 else o.len;
        return Decoded(n, Frame(tlen, o.inf, o.Indefinite()));
    }

    method CloseWrapper(buf: array<byte>, room: int, indefinite: bool) returns (r: Decoded<()>)
      requires p <= buf.Length
      modifies this`p
      ensures r == WrapperEnd(buf[old(p)..], room, indefinite)
      ensures r.Decoded? ==> p == old(p) + r.n
    {
      if !indefinite { return Decoded(0, ()); }
      var end := ReadInfiniteEnd(buf, p, room);
      if end.Overread? { return Wild; }
      if !end.value { return Failed(MissingEos); }
      p := p + end.n;
      return Decoded(end.n, ());
    }

    /** M_ASN1_D2I_get_EXP_opt and M_ASN1_D2I_get_EXP_set_opt, the field being there. */
    method GetExp(kind: Kind, t: Template, buf: array<byte>) returns (r: Decoded<Slot>)
      requires p <= buf.Length
      modifies this`p, this`q, this`slen, buf
      ensures r == DecodeExplicit(kind, t, old(buf[p..]), old(slen))
      ensures buf[..] == old(buf[..])
      ensures r.Decoded? ==> p == old(p) + r.n <= buf.Length && p + slen == old(p) + old(slen)
      decreases t, 4
    {
      hide *;
      ghost var all, s := buf[..], buf[p..];
      assert s == all[p..];
      ExplicitUnfolds(kind, t, s, slen);
      q := p;
      var head := OpenWrapper(buf);
      if head.Wild? { return Wild; }
      if head.Failed? { return Failed(head.error); }
      assert buf[p..] == all[p..] == s[head.n..];
      var inner := Inside(kind, t, buf, head.value.slen);
      if inner.Wild? { return Wild; }
      if inner.Failed? { return Failed(inner.error); }
      assert buf[p..] == all[p..] == s[head.n + inner.n..];
      var end := CloseWrapper(buf, slen - (p - q), head.value.indefinite);
      if end.Wild? { return Wild; }
      if end.Failed? { return Failed(end.error); }
      slen := slen - (p - q);
      return Decoded(head.n + inner.n + end.n, inner.value);
    }

    /** The call `func(&(r),&c.p,Tlen)` (or d2i_ASN1_SET) inside a wrapper. */
    method Inside(kind: Kind, t: Template, buf: array<byte>, tlen: int) returns (r: Decoded<Slot>)
      requires p <= buf.Length
      modifies this`p, buf
      ensures r == DecodeInside(kind, t, old(buf[p..]), tlen)
      ensures buf[..] == old(buf[..]) && (r.Decoded? ==> p == old(p) + r.n <= buf.Length)
      ensures !r.Decoded? ==> p == old(p)
      decreases t, 3
    {
      if kind.ExpSeqOfOpt? {
        r := D2iSet(t, buf, this, tlen, V_ASN1_SEQUENCE, V_ASN1_UNIVERSAL);
        r := Nested(r);
      } else {
        var b := D2i(t, buf, this, tlen);
        match b
        case Wild => return Wild;
        case Failed(_) => return Failed(NestedAsn1Error);
        case Decoded(n, v) => return Decoded(n, One(v, false));
      }
    }

    /** M_ASN1_D2I_get_imp_set with the tag and class its callers pass. */
    method GetSet(t: Template, buf: array<byte>, exTag: nat, exClass: Class) returns (r: Decoded<Slot>)
      requires p <= buf.Length
      modifies this`p, this`q, this`slen, buf
      ensures r == Nested(DecodeSet(t, old(buf[p..]), old(slen), exTag, exClass))
      ensures buf[..] == old(buf[..])
      ensures r.Decoded? ==> p == old(p) + r.n <= buf.Length && p + slen == old(p) + old(slen)
      decreases t, 3
    {
      q := p;
      r := D2iSet(t, buf, this, slen, exTag, exClass);
      if r.Decoded? {
        slen := slen - (p - q);
      } else {
        r := Nested(r);
      }
    }

    /** Any of the macros, by the kind of the field: the test on M_ASN1_next first. */
    method GetField(kind: Kind, t: Template, buf: array<byte>) returns (r: Decoded<Slot>)
      requires p <= buf.Length
      modifies this`p, this`q, this`slen, buf
      ensures r == DecodeSlot(kind, t, old(buf[p..]), old(slen))
      ensures buf[..] == old(buf[..])
      ensures r.Decoded? ==> p == old(p) + r.n <= buf.Length && p + slen == old(p) + old(slen)
      decreases t, 5
    {
      if kind.Optional() {
        if slen == 0 { return Decoded(0, Absent); }
        if p >= buf.Length { return Wild; }
        if !Matches(kind, t, buf[p]) { return Decoded(0, Absent); }
      }
      match kind
      case ImpOpt(_) => r := GetImp(t, buf);
      case ExpOpt(_) => r := GetExp(kind, t, buf);
      case ExpSeqOfOpt(_) => r := GetExp(kind, t, buf);
      case SeqOf => r := GetSet(t, buf, V_ASN1_SEQUENCE, V_ASN1_UNIVERSAL);
      case SeqOfOpt => r := GetSet(t, buf, V_ASN1_SEQUENCE, V_ASN1_UNIVERSAL);
      case ImpSeqOfOpt(tag) => r := GetSet(t, buf, tag, V_ASN1_CONTEXT_SPECIFIC);
      case _ => r := Get(t, buf);
    }

    /** The macros of one d2i body, in order. */
    method GetFields(fl: FieldList, buf: array<byte>) returns (r: Decoded<Slots>)
      requires p <= buf.Length
      modifies this`p, this`q, this`slen, buf
      ensures r == DecodeFields(fl, old(buf[p..]), old(slen))
      ensures buf[..] == old(buf[..])
      ensures r.Decoded? ==> p == old(p) + r.n <= buf.Length && p + slen == old(p) + old(slen)
      decreases fl, 0
    {
      if fl.FEnd? { return Decoded(0, SEnd); }
      var head := GetField(fl.kind, fl.t, buf);
      if head.Wild? { return Wild; }
      if head.Failed? { return Failed(head.error); }
      assert buf[p..] == old(buf[p..])[head.n..];
      var tail := GetFields(fl.rest, buf);
      if tail.Wild? { return Wild; }
      if tail.Failed? { return Failed(tail.error); }
      return Decoded(head.n + tail.n, SCons(head.value, tail.value));
    }

    /** From the first field to M_ASN1_D2I_Finish. */
    method ReadBody(fields: FieldList, buf: array<byte>) returns (r: Decoded<Slots>)
      requires p <= buf.Length
      modifies this`p, this`q, this`slen, buf
      ensures r == DecodeBody(fields, old(buf[p..]), old(Frame(slen, inf, indefinite)))
      ensures buf[..] == old(buf[..]) && (r.Decoded? ==> p == old(p) + r.n <= buf.Length)
      decreases fields, 1
    {
      hide *;
      ghost var s := buf[p..];
      BodyUnfolds(fields, s, Frame(slen, inf, indefinite));
      var slots := GetFields(fields, buf);
      if slots.Wild? { return Wild; }
      if slots.Failed? { return Failed(slots.error); }
      assert buf[p..] == s[slots.n..];
      var fin := CloseSequence(buf);
      if fin.Wild? { return Wild; }
      if fin.Failed? { return Failed(fin.error); }
      return Decoded(slots.n + fin.n, slots.value);
    }

    /** The checks of d2i_ASN1_SET before its loop. */
    method StartSet(buf: array<byte>, length: int, exTag: nat, exClass: Class) returns (r: Decoded<Frame>)
      requires p <= buf.Length
      modifies this`p, this`slen, this`inf, this`indefinite
      ensures r == SetHeader(buf[old(p)..], length, exTag, exClass)
      ensures r.Decoded? ==> p == old(p) + r.n && Frame(slen, inf, indefinite) == r.value
    {
      var pp := p;
      var h := ReadObject(buf, p, if length == 0 then -1 else length);
      match h
      case Overread => return Wild;
      case Refused => return Failed(BadObjectHeader);
      case Scanned(n, o) =>
        if o.tooLong { return Failed(BadObjectHeader); }
        if exClass != o.xclass { return Failed(BadClass); }
        if exTag != o.tag { return Failed(BadTag); }
        if n + o.len > length { return Failed(LengthError); }
        p, slen, inf, indefinite := p + n, o.len, o.inf, o.Indefinite();
        if indefinite { slen := length + pp - p; }
        return Decoded(n, Frame(slen, inf, indefinite));
    }
  }

  /** A d2i function: `outer.p` is the `*pp` it reads through, moved on success only. */
  method D2i(t: Template, buf: array<byte>, outer: Asn1Ctx, length: int) returns (r: Decoded<Value>)
    requires outer.p <= buf.Length
    modifies outer`p, buf
    ensures r == Decode(t, old(buf[outer.p..]), length)
    ensures buf[..] == old(buf[..])
    ensures r.Decoded? ==> outer.p == old(outer.p) + r.n <= buf.Length
    ensures !r.Decoded? ==> outer.p == old(outer.p)
    ensures r.Decoded? ==> r.n <= |old(buf[outer.p..])| && Asn1Spelling.Spells(t, r.value, old(buf[outer.p..])[..r.n])
    decreases t, 0
  {
    ghost var s := buf[outer.p..];
    match t
    case Prim(tag) => r := D2iPrim(tag, buf, outer, length);
    case Sequence(fields) => r := D2iSequence(fields, buf, outer, length);
    if r.Decoded? { Asn1Spelling.ReadIsSpelt(t, s, length); }
  }

  /** d2i_ASN1_bytes */
  method D2iPrim(tag: LowTag, buf: array<byte>, outer: Asn1Ctx, length: int) returns (r: Decoded<Value>)
    requires outer.p <= buf.Length
    modifies outer`p
    ensures r == DecodePrim(tag, buf[old(outer.p)..], length)
    ensures r.Decoded? ==>
      && r.n <= |buf[old(outer.p)..]| && r.value.Octets?
      && Asn1Content.Content(tag, buf[old(outer.p)..][..r.n]) == Some(Asn1Content.Text(r.value.octets, r.n))
    ensures outer.p == old(outer.p) + (if r.Decoded? then r.n else 0) <= buf.Length
    decreases buf.Length - outer.p, 0
  {
    hide GetObject, Collate, Asn1Content.Content;
    var h := ReadObject(buf, outer.p, length);
    if h.Overread? { return Wild; }
    if h.Refused? || h.value.tooLong { return Failed(BadObjectHeader); }
    if h.value.tag != tag { return Failed(WrongTag); }
    var from := outer.p + h.n;
    ghost var s := buf[outer.p..];
    if h.value.constructed {
      var c := new Asn1Ctx(from);
      c.slen, c.inf := h.value.len, h.value.inf;
      assert buf[from..] == s[h.n..];
      var whole := CollatePrimitive(tag, buf, c, from + length);
      if whole.Wild? { return Wild; }
      if whole.Failed? { return Failed(ConstructedString); }
      Asn1Content.ContentIsRead(tag, s, length);
      outer.p := c.p;
      return Decoded(h.n + whole.n, Octets(whole.value));
    }
    if from + h.value.len > buf.Length { return Wild; }
    SliceOfSlice(buf[..], outer.p, h.n, h.value.len);
    Asn1Content.ContentIsRead(tag, s, length);
    outer.p := from + h.value.len;
    return Decoded(h.n + h.value.len, Octets(buf[from..from + h.value.len]));
  }

  lemma SliceOfSlice(s: seq<byte>, p: nat, n: nat, len: nat)
    requires p + n + len <= |s|
    ensures s[p + n..p + n + len] == s[p..][n..n + len]
  {
  }

  /** `octets` already read from `n` octets, then whatever `r` says of the rest. */
  function Join(n: nat, octets: seq<byte>, r: Decoded<seq<byte>>): Decoded<seq<byte>>
  {
    match r
    case Decoded(m, more) => Decoded(n + m, octets + more)
    case other => other
  }

  lemma PartRead(tag: LowTag, s: seq<byte>, k: nat, room: int, slen: int, inf: bool, b: Buffer, octets: seq<byte>, e: Decoded<Value>)
    requires k <= |s| && e == DecodePrim(tag, s[k..], room) && e.Decoded?
    requires if inf then CheckInfiniteEnd(s[k..], room) == Scanned(0, false) else slen > 0
    ensures
      var len := b.length + |e.value.octets|;
      && k + e.n <= |s|
      && Join(k, octets, Collate(tag, s[k..], room, slen, inf, b)) ==
         if !Grows(b, len) then Failed(ConstructedString)
         else Join(k + e.n, octets + e.value.octets,
                   Collate(tag, s[k + e.n..], room - e.n, if inf then slen else slen - e.n, inf, Grown(b, len)))
  {
    hide DecodePrim, CheckInfiniteEnd, Grows, Grown;
    assert s[k..][e.n..] == s[k + e.n..];
    var more := Collate(tag, s[k + e.n..], room - e.n, if inf then slen else slen - e.n, inf, Grown(b, b.length + |e.value.octets|));
    if more.Decoded? { assert octets + (e.value.octets + more.value) == (octets + e.value.octets) + more.value; }
  }

  /** Where the loop stops, and what it returns there after `octets` over `k` octets. */
  lemma CollateEnds(tag: LowTag, s: seq<byte>, room: int, slen: int, inf: bool, b: Buffer, octets: seq<byte>, k: nat)
    ensures var r, end, e := Join(k, octets, Collate(tag, s, room, slen, inf, b)), CheckInfiniteEnd(s, room), DecodePrim(tag, s, room);
            && (!inf && slen <= 0 ==> r == if slen != 0 then Failed(LengthMismatch) else Decoded(k, octets))
            && (inf && end.Overread? ==> r == Wild)
            && (inf && end.Scanned? && end.value ==> r == Decoded(k + end.n, octets))
            && ((if inf then end == Scanned(0, false) else slen > 0) ==>
                  (e.Wild? ==> r == Wild) && (e.Failed? ==> r == Failed(e.error)))
  {
    hide DecodePrim, CheckInfiniteEnd, Grows, Grown;
    assert octets + [] == octets;
  }

  lemma JoinNothing(r: Decoded<seq<byte>>)
    ensures Join(0, [], r) == r
  {
    if r.Decoded? { assert [] + r.value == r.value; }
  }

  /** asn1_collate_primitive: `max` keeps the whole length from behind the header on. */
  method CollatePrimitive(tag: LowTag, buf: array<byte>, c: Asn1Ctx, max: int) returns (r: Decoded<seq<byte>>)
    requires c.p <= buf.Length
    modifies c`p, c`slen
    ensures r == Collate(tag, buf[old(c.p)..], max - old(c.p), old(c.slen), c.inf, EMPTY_BUFFER)
    ensures r.Decoded? ==> c.p == old(c.p) + r.n <= buf.Length
    decreases buf.Length - c.p, 1
  {
    hide *;
    ghost var s := buf[c.p..];
    var start, octets := c.p, [];
    var b := EMPTY_BUFFER;
    ghost var all := Collate(tag, s, max - start, c.slen, c.inf, b);
    JoinNothing(all);
    while true
      invariant start <= c.p <= buf.Length
      invariant all == Join(c.p - start, octets, Collate(tag, s[c.p - start..], max - c.p, c.slen, c.inf, b))
      decreases buf.Length - c.p
    {
      ghost var k := c.p - start;
      assert buf[c.p..] == s[k..];
      CollateEnds(tag, s[k..], max - c.p, c.slen, c.inf, b, octets, k);
      if c.inf {
        var end := ReadInfiniteEnd(buf, c.p, max - c.p);
        if end.Overread? { return Wild; }
        if end.value {
          c.p := c.p + end.n;
          return Decoded(c.p - start, octets);
        }
      } else if c.slen <= 0 {
        return if c.slen != 0 then Failed(LengthMismatch) else Decoded(c.p - start, octets);
      }
      var q := c.p;
      var os := D2iPrim(tag, buf, c, max - c.p);
      if os.Wild? { return Wild; }
      if os.Failed? { return Failed(os.error); }
      PartRead(tag, s, k, max - q, c.slen, c.inf, b, octets, os);
      var len := b.length + |os.value.octets|;
      if !Grows(b, len) { return Failed(ConstructedString); }
      b := Grown(b, len);
      if !c.inf { c.slen := c.slen - (c.p - q); }
      octets := octets + os.value.octets;
    }
  }

  method D2iSequence(fields: FieldList, buf: array<byte>, outer: Asn1Ctx, length: int) returns (r: Decoded<Value>)
    requires outer.p <= buf.Length
    modifies outer`p, buf
    ensures r == Decode(Sequence(fields), old(buf[outer.p..]), length)
    ensures buf[..] == old(buf[..])
    ensures r.Decoded? ==> outer.p == old(outer.p) + r.n <= buf.Length
    ensures !r.Decoded? ==> outer.p == old(outer.p)
    decreases fields, 2
  {
    hide *;
    ghost var s := buf[outer.p..];
    SequenceUnfolds(fields, s, length);
    var c := new Asn1Ctx(outer.p);
    var start := c.StartSequence(buf, length);
    if start.Wild? { return Wild; }
    if start.Failed? { return Failed(start.error); }
    assert buf[c.p..] == s[start.n..];
    var body := c.ReadBody(fields, buf);
    if body.Wild? { return Wild; }
    if body.Failed? { return Failed(body.error); }
    outer.p := c.p;
    return Decoded(start.n + body.n, Record(body.value, false));
  }

  /** d2i_ASN1_SET */
  method D2iSet(t: Template, buf: array<byte>, outer: Asn1Ctx, length: int, exTag: nat, exClass: Class)
    returns (r: Decoded<Slot>)
    requires outer.p <= buf.Length
    modifies outer`p, buf
    ensures r == DecodeSet(t, old(buf[outer.p..]), length, exTag, exClass)
    ensures buf[..] == old(buf[..])
    ensures r.Decoded? ==> outer.p == old(outer.p) + r.n <= buf.Length
    ensures !r.Decoded? ==> outer.p == old(outer.p)
    decreases t, 2
  {
    hide *;
    ghost var s := buf[outer.p..];
    SetUnfolds(t, s, length, exTag, exClass);
    var c := new Asn1Ctx(outer.p);
    var start := c.StartSet(buf, length, exTag, exClass);
    if start.Wild? { return Wild; }
    if start.Failed? { return Failed(start.error); }
    assert buf[c.p..] == s[start.n..];
    var elements := D2iElements(t, buf, c, c.p + c.slen);
    if elements.Wild? { return Wild; }
    if elements.Failed? { return Failed(elements.error); }
    outer.p := c.p;
    return Decoded(start.n + elements.n, Many(elements.value, false));
  }

  /** `vs` already read over `n` octets, then whatever `r` says of the rest. */
  function Prepend(n: nat, vs: seq<Value>, r: Decoded<seq<Value>>): Decoded<seq<Value>>
  {
    match r
    case Decoded(m, ws) => Decoded(n + m, vs + ws)
    case other => other
  }

  lemma PrependNothing(r: Decoded<seq<Value>>)
    ensures Prepend(0, [], r) == r
  {
    if r.Decoded? { assert [] + r.value == r.value; }
  }

  lemma ElementRead(t: Template, s: seq<byte>, k: nat, left: int, slen: int, inf: bool, vs: seq<Value>, e: Decoded<Value>)
    requires k <= |s| && left > 0 && e == Decode(t, s[k..], slen) && e.Decoded?
    requires if inf then CheckInfiniteEnd(s[k..], slen) == Scanned(0, false) else slen > 0
    ensures k + e.n <= |s|
    ensures Prepend(k, vs, DecodeElements(t, s[k..], left, slen, inf)) ==
            Prepend(k + e.n, vs + [e.value], DecodeElements(t, s[k + e.n..], left - e.n, slen, inf))
  {
    hide Decode, CheckInfiniteEnd, DecodeElements;
    assert s[k..][e.n..] == s[k + e.n..];
    var more := DecodeElements(t, s[k + e.n..], left - e.n, slen, inf);
    ElementsFrom(t, s[k..], left, slen, inf, e);
    if more.Decoded? { assert vs + ([e.value] + more.value) == (vs + [e.value]) + more.value; }
  }

  lemma ElementsFrom(t: Template, s: seq<byte>, left: int, slen: int, inf: bool, e: Decoded<Value>)
    requires left > 0 && e == Decode(t, s, slen) && e.Decoded?
    requires if inf then CheckInfiniteEnd(s, slen) == Scanned(0, false) else slen > 0
    ensures DecodeElements(t, s, left, slen, inf) == Prepend(e.n, [e.value], DecodeElements(t, s[e.n..], left - e.n, slen, inf))
  {
    hide Decode, CheckInfiniteEnd;
  }

  /** Where the loop stops, and what it returns there after `vs` over `k` octets. */
  lemma LoopEnds(t: Template, s: seq<byte>, left: int, slen: int, inf: bool, vs: seq<Value>, k: nat)
    ensures var r, end, e := Prepend(k, vs, DecodeElements(t, s, left, slen, inf)), CheckInfiniteEnd(s, slen), Decode(t, s, slen);
            && (left <= 0 || (!inf && slen <= 0) ==> r == Decoded(k, vs))
            && (left > 0 && inf && end.Overread? ==> r == Wild)
            && (left > 0 && inf && end.Scanned? && end.value ==> r == Decoded(k + end.n, vs))
            && (left > 0 && (if inf then end == Scanned(0, false) else slen > 0) ==>
                  (e.Wild? ==> r == Wild) && (e.Failed? ==> r == Failed(ParsingSetElement)))
  {
    hide Decode, CheckInfiniteEnd;
    assert vs + [] == vs;
  }

  /** The `while (c.p < c.max)` loop of d2i_ASN1_SET. */
  method D2iElements(t: Template, buf: array<byte>, c: Asn1Ctx, max: int) returns (r: Decoded<seq<Value>>)
    requires c.p <= buf.Length
    modifies c`p, buf
    ensures r == DecodeElements(t, old(buf[c.p..]), max - old(c.p), c.slen, c.inf)
    ensures buf[..] == old(buf[..]) && (r.Decoded? ==> c.p == old(c.p) + r.n <= buf.Length)
    decreases t, 1
  {
    hide *;
    ghost var s := buf[c.p..];
    var start, vs := c.p, [];
    ghost var all := DecodeElements(t, s, max - start, c.slen, c.inf);
    PrependNothing(all);
    while c.p < max
      invariant start <= c.p <= buf.Length && buf[..] == old(buf[..])
      invariant all == Prepend(c.p - start, vs, DecodeElements(t, s[c.p - start..], max - c.p, c.slen, c.inf))
      decreases buf.Length - c.p
    {
      ghost var k := c.p - start;
      assert buf[c.p..] == s[k..];
      LoopEnds(t, s[k..], max - c.p, c.slen, c.inf, vs, k);
      if c.inf {
        var end := ReadInfiniteEnd(buf, c.p, c.slen);
        if end.Overread? { return Wild; }
        if end.value { c.p := c.p + end.n; return Decoded(c.p - start, vs); }
      } else if c.slen <= 0 {
        return Decoded(c.p - start, vs);
      }
      var e := D2i(t, buf, c, c.slen);
      if e.Wild? { return Wild; }
      if e.Failed? { return Failed(ParsingSetElement); }
      ElementRead(t, s, k, max - start - k, c.slen, c.inf, vs, e);
      vs := vs + [e.value];
    }
    LoopEnds(t, s[c.p - start..], max - c.p, c.slen, c.inf, vs, c.p - start);
    return Decoded(c.p - start, vs);
  }

  // ------------------------------------------------------------------ writing

  /** What the output pointer argument `pp` of an i2d function points to. */
  datatype Output = Null | At(p: nat)
  {
    predicate Room(buf: array<byte>, size: nat) { Null? || p + size <= buf.Length }

    /** The octets after a call that had `content` to write here. */
    ghost function After(was: seq<byte>, content: seq<byte>): seq<byte>
      requires At? ==> p + |content| <= |was|
    {
      if Null? then was else Splice(was, p, content)
    }

    function Advance(n: nat): Output { if Null? then Null else At(p + n) }
  }

  lemma AfterAfter(out: Output, was: seq<byte>, a: seq<byte>, b: seq<byte>)
    requires out.At? ==> out.p + |a| + |b| <= |was|
    ensures out.Advance(|a|).After(out.After(was, a), b) == out.After(was, a + b)
    ensures out.Advance(|a|).Advance(|b|) == out.Advance(|a| + |b|)
  {
    if out.At? { SpliceTwice(was, out.p, a, b); }
  }

  /** An i2d function: the length pass always, the put pass when `pp` is not NULL. */
  method I2d(t: Template, v: Value, buf: array<byte>, pp: Output) returns (r: nat)
    requires Fits(t, v) && Size(t, v) <= INT_MAX && pp.Room(buf, Size(t, v))
    modifies buf
    ensures r == Size(t, v) == |Encode(t, v)|
    ensures buf[..] == pp.After(old(buf[..]), Encode(t, v))
    decreases t, 0
  {
    SizeIsEncodedLength(t, v);
    match t
    case Prim(tag) => r := I2dPrim(tag, v.octets, buf, pp);
    case Sequence(fields) => r := I2dSequence(fields, v, buf, pp);
  }

  /** i2d_ASN1_bytes; the BIT STRING type goes to another function. */
  method I2dPrim(tag: LowTag, octets: seq<byte>, buf: array<byte>, pp: Output) returns (r: nat)
    requires tag != V_ASN1_BIT_STRING
    requires |Wrap(FormOf(Prim(tag)), tag, V_ASN1_UNIVERSAL, octets)| <= INT_MAX
    requires pp.Room(buf, |Wrap(FormOf(Prim(tag)), tag, V_ASN1_UNIVERSAL, octets)|)
    modifies buf
    ensures r == |Wrap(FormOf(Prim(tag)), tag, V_ASN1_UNIVERSAL, octets)|
    ensures buf[..] == pp.After(old(buf[..]), Wrap(FormOf(Prim(tag)), tag, V_ASN1_UNIVERSAL, octets))
  {
    hide Splice, PutObject, ObjectSize;
    var form := if tag == V_ASN1_SEQUENCE || tag == V_ASN1_SET then Constructed else Primitive;
    WrapSize(form, tag, V_ASN1_UNIVERSAL, octets);
    SizeOfForm(form, |octets|, tag);
    r := CountObject(Primitive, |octets|, tag);
    if pp.Null? { return; }
    ghost var was, head := buf[..], PutObject(form, |octets|, tag, V_ASN1_UNIVERSAL);
    var p := WriteObject(buf, pp.p, form, |octets|, tag, V_ASN1_UNIVERSAL);
    CopyOctets(buf, p, octets);
    SpliceTwice(was, pp.p, head, octets);
    assert head + octets == Wrap(form, tag, V_ASN1_UNIVERSAL, octets);
  }

  lemma SizeOfForm(form: Form, length: nat, tag: nat)
    requires !form.IndefiniteForm?
    ensures ObjectSize(form, length, tag) == ObjectSize(Primitive, length, tag)
  {
  }

  method CopyOctets(buf: array<byte>, p: nat, octets: seq<byte>)
    requires p + |octets| <= buf.Length
    modifies buf
    ensures buf[..] == Splice(old(buf[..]), p, octets)
  {
    for k := 0 to |octets|
      invariant forall i :: 0 <= i < k ==> buf[p + i] == octets[i]
      invariant forall i :: 0 <= i < buf.Length && !(p <= i < p + k) ==> buf[i] == old(buf[i])
    {
      buf[p + k] := octets[k];
    }
    SpliceByIndex(old(buf[..]), p, octets, buf[..]);
  }

  function Mark(form: Form): seq<byte> { if form.IndefiniteForm? then [0, 0] else [] }

  /** The octets with a header, the content and the mark written one after the other. */
  ghost function Written(was: seq<byte>, p: nat, head: seq<byte>, content: seq<byte>, mark: seq<byte>): seq<byte>
    requires p + |head| + |content| + |mark| <= |was|
  {
    Splice(Splice(Splice(was, p, head), p + |head|, content), p + |head| + |content|, mark)
  }

  lemma WrittenIsWrap(was: seq<byte>, p: nat, form: Form, tag: LowTag, xclass: Class, content: seq<byte>)
    requires p + |Wrap(form, tag, xclass, content)| <= |was|
    ensures var h := PutObject(form, |content|, tag, xclass);
            && |Wrap(form, tag, xclass, content)| == |h| + |content| + |Mark(form)|
            && Written(was, p, h, content, Mark(form)) == Splice(was, p, Wrap(form, tag, xclass, content))
  {
    hide PutObject, Splice;
    var h := PutObject(form, |content|, tag, xclass);
    assert Wrap(form, tag, xclass, content) == h + content + Mark(form);
    SpliceTwice(was, p, h, content);
    SpliceTwice(was, p, h + content, Mark(form));
  }

  /** M_ASN1_I2D_INF_seq_end when the form asks for it. */
  method PutMark(buf: array<byte>, p: nat, form: Form)
    requires p + |Mark(form)| <= buf.Length
    modifies buf
    ensures buf[..] == Splice(old(buf[..]), p, Mark(form))
  {
    if form.IndefiniteForm? {
      buf[p], buf[p + 1] := 0, 0;
      SpliceByIndex(old(buf[..]), p, [0, 0], buf[..]);
    } else {
      SpliceByIndex(old(buf[..]), p, [], buf[..]);
    }
  }

  /** M_ASN1_I2D_seq_total and M_ASN1_I2D_finish around the fields. */
  method I2dSequence(fields: FieldList, v: Value, buf: array<byte>, pp: Output) returns (r: nat)
    requires v.Record? && FitsFields(fields, v.slots)
    requires |EncodeSequence(fields, v)| <= INT_MAX && pp.Room(buf, |EncodeSequence(fields, v)|)
    modifies buf
    ensures r == |EncodeSequence(fields, v)|
    ensures buf[..] == pp.After(old(buf[..]), EncodeSequence(fields, v))
    decreases fields, 2
  {
    var form := OuterForm(v.inf);
    ghost var content := EncodeFields(fields, v.slots);
    WrapLength(form, V_ASN1_SEQUENCE, V_ASN1_UNIVERSAL, content);
    WrapSize(form, V_ASN1_SEQUENCE, V_ASN1_UNIVERSAL, content);
    var ret := I2dFields(fields, v.slots, buf, Null);
    r := CountObject(form, ret, V_ASN1_SEQUENCE);
    if pp.Null? { return; }
    PutSequence(fields, v, buf, pp.p, ret);
  }

  method PutSequence(fields: FieldList, v: Value, buf: array<byte>, pp: nat, ret: nat)
    requires v.Record? && FitsFields(fields, v.slots)
    requires ret == |EncodeFields(fields, v.slots)| <= INT_MAX && pp + |EncodeSequence(fields, v)| <= buf.Length
    modifies buf
    ensures buf[..] == Splice(old(buf[..]), pp, EncodeSequence(fields, v))
    decreases fields, 1
  {
    hide Wrap, PutObject, Splice, Fits, FitsFields, EncodeFields, Mark, OuterForm, Written;
    var form := OuterForm(v.inf);
    ghost var was, content := buf[..], EncodeFields(fields, v.slots);
    WrittenIsWrap(was, pp, form, V_ASN1_SEQUENCE, V_ASN1_UNIVERSAL, content);
    ghost var head := PutObject(form, |content|, V_ASN1_SEQUENCE, V_ASN1_UNIVERSAL);
    var p := WriteObject(buf, pp, form, ret, V_ASN1_SEQUENCE, V_ASN1_UNIVERSAL);
    var n := I2dFields(fields, v.slots, buf, At(p));
    PutMark(buf, p + n, form);
    WrittenIs(was, pp, head, content, Mark(form));
  }

  function EncodeSequence(fields: FieldList, v: Value): seq<byte>
    requires v.Record? && FitsFields(fields, v.slots)
  {
    Wrap(OuterForm(v.inf), V_ASN1_SEQUENCE, V_ASN1_UNIVERSAL, EncodeFields(fields, v.slots))
  }

  /** The M_ASN1_I2D_len* macros of one body (`pp` NULL) or its M_ASN1_I2D_put* macros. */
  method I2dFields(fl: FieldList, ss: Slots, buf: array<byte>, pp: Output) returns (r: nat)
    requires FitsFields(fl, ss) && |EncodeFields(fl, ss)| <= INT_MAX && pp.Room(buf, |EncodeFields(fl, ss)|)
    modifies buf
    ensures r == |EncodeFields(fl, ss)|
    ensures buf[..] == pp.After(old(buf[..]), EncodeFields(fl, ss))
    decreases fl, 0
  {
    if fl.FEnd? {
      AfterAfter(pp, buf[..], [], []);
      return 0;
    }
    AfterAfter(pp, buf[..], EncodeSlot(fl.kind, fl.t, ss.slot), EncodeFields(fl.rest, ss.rest));
    var n := I2dSlot(fl.kind, fl.t, ss.slot, buf, pp);
    var m := I2dFields(fl.rest, ss.rest, buf, pp.Advance(n));
    return n + m;
  }

  lemma EmptySlot(kind: Kind, t: Template, slot: Slot)
    requires FitsSlot(kind, t, slot)
    ensures slot.Absent? || (slot.Many? && kind.Optional() && slot.vs == []) <==> EncodeSlot(kind, t, slot) == []
  {
    if slot.One? { LeadingOctetOfEncode(t, slot.v); }
  }

  lemma NothingToWrite(pp: Output, was: seq<byte>)
    ensures pp.At? && pp.p <= |was| ==> pp.After(was, []) == was
    ensures pp.Null? ==> pp.After(was, []) == was
  {
  }

  /** One len or put macro. */
  method I2dSlot(kind: Kind, t: Template, slot: Slot, buf: array<byte>, pp: Output) returns (r: nat)
    requires FitsSlot(kind, t, slot) && |EncodeSlot(kind, t, slot)| <= INT_MAX && pp.Room(buf, |EncodeSlot(kind, t, slot)|)
    modifies buf
    ensures r == |EncodeSlot(kind, t, slot)|
    ensures buf[..] == pp.After(old(buf[..]), EncodeSlot(kind, t, slot))
    decreases t, 6
  {
    hide EncodeSlot, Encode, EncodeAll, Wrap, Wrapped, Canon, CanonAll, CanonSlot, Size, Fits, FitsSlot, Readable, ReadableAll, ReadableSlot, Retag, Splice;
    EmptySlot(kind, t, slot);
    if slot.Absent? || (slot.Many? && kind.Optional() && slot.vs == []) {
      NothingToWrite(pp, buf[..]);
      return 0;
    }
    if kind.Explicit() {
      ExplicitContents(kind, t, slot, 0);
      r := I2dExplicit(kind, t, slot, buf, pp);
    } else {
      SlotContents(kind, t, slot, 0);
      if slot.Many? {
        r := I2dSet(t, slot.vs, buf, pp, ListTag(kind), ListClass(kind));
      } else if kind.ImpOpt? {
        r := I2dImplicit(kind.tag, t, slot.v, buf, pp);
      } else {
        SizeIsEncodedLength(t, slot.v);
        r := I2d(t, slot.v, buf, pp);
      }
    }
  }

  /** M_ASN1_I2D_put_IMP_opt: write the field, then patch its identifier octet. */
  method I2dImplicit(tag: LowTag, t: Template, v: Value, buf: array<byte>, pp: Output) returns (r: nat)
    requires Fits(t, v) && |Encode(t, v)| <= INT_MAX && pp.Room(buf, |Encode(t, v)|)
    modifies buf
    ensures |Encode(t, v)| > 0 && r == |Encode(t, v)|
    ensures buf[..] == pp.After(old(buf[..]), Retag(Encode(t, v), tag))
    decreases t, 1
  {
    hide Encode, Size, Fits, Splice;
    SizeIsEncodedLength(t, v);
    LeadingOctetOfEncode(t, v);
    ghost var e, was := Encode(t, v), buf[..];
    r := I2d(t, v, buf, pp);
    if pp.At? {
      buf[pp.p] := V_ASN1_CONTEXT_SPECIFIC + tag + ConstructedBit(buf[pp.p]);
      SpliceByIndex(was, pp.p, Retag(e, tag), buf[..]);
    }
  }

  /** M_ASN1_I2D_put_EXP_opt and _put_EXP_SEQUENCE_opt with their len macros. */
  method I2dExplicit(kind: Kind, t: Template, slot: Slot, buf: array<byte>, pp: Output) returns (r: nat)
    requires FitsSlot(kind, t, slot) && kind.Explicit() && !slot.Absent?
    requires |EncodeExplicit(kind, t, slot)| <= INT_MAX && pp.Room(buf, |EncodeExplicit(kind, t, slot)|)
    modifies buf
    ensures r == |EncodeExplicit(kind, t, slot)|
    ensures buf[..] == pp.After(old(buf[..]), EncodeExplicit(kind, t, slot))
    decreases t, 5
  {
    var form := OuterForm(slot.inf);
    ghost var content := Wrapped(kind, t, slot);
    WrapLength(form, kind.tag, V_ASN1_CONTEXT_SPECIFIC, content);
    WrapSize(form, kind.tag, V_ASN1_CONTEXT_SPECIFIC, content);
    var v := I2dWrapped(kind, t, slot, buf, Null);
    r := CountObject(form, v, kind.tag);
    if pp.At? { PutExplicit(kind, t, slot, buf, pp.p, v); }
  }

  method PutExplicit(kind: Kind, t: Template, slot: Slot, buf: array<byte>, pp: nat, v: nat)
    requires FitsSlot(kind, t, slot) && kind.Explicit() && !slot.Absent?
    requires v == |Wrapped(kind, t, slot)| <= INT_MAX && pp + |EncodeExplicit(kind, t, slot)| <= buf.Length
    modifies buf
    ensures buf[..] == Splice(old(buf[..]), pp, EncodeExplicit(kind, t, slot))
    decreases t, 4
  {
    hide Wrap, Wrapped, PutObject, Splice, Fits, FitsSlot, EncodeAll, Encode, Mark, OuterForm, EncodeExplicit, Written;
    ExplicitIs(kind, t, slot);
    var form := OuterForm(slot.inf);
    ghost var was, content := buf[..], Wrapped(kind, t, slot);
    WrittenIsWrap(was, pp, form, kind.tag, V_ASN1_CONTEXT_SPECIFIC, content);
    ghost var head := PutObject(form, |content|, kind.tag, V_ASN1_CONTEXT_SPECIFIC);
    var p := WriteObject(buf, pp, form, v, kind.tag, V_ASN1_CONTEXT_SPECIFIC);
    var n := I2dWrapped(kind, t, slot, buf, At(p));
    PutMark(buf, p + n, form);
    WrittenIs(was, pp, head, content, Mark(form));
  }

  lemma ExplicitIs(kind: Kind, t: Template, slot: Slot)
    requires FitsSlot(kind, t, slot) && kind.Explicit() && !slot.Absent?
    ensures EncodeExplicit(kind, t, slot) == Wrap(OuterForm(slot.inf), kind.tag, V_ASN1_CONTEXT_SPECIFIC, Wrapped(kind, t, slot))
  {
    hide Wrap, Wrapped;
  }

  lemma WrittenIs(was: seq<byte>, p: nat, head: seq<byte>, content: seq<byte>, mark: seq<byte>)
    requires p + |head| + |content| + |mark| <= |was|
    ensures Written(was, p, head, content, mark) ==
            Splice(Splice(Splice(was, p, head), p + |head|, content), p + |head| + |content|, mark)
  {
  }

  function EncodeExplicit(kind: Kind, t: Template, slot: Slot): seq<byte>
    requires FitsSlot(kind, t, slot) && kind.Explicit() && !slot.Absent?
  {
    Wrap(OuterForm(slot.inf), kind.tag, V_ASN1_CONTEXT_SPECIFIC, Wrapped(kind, t, slot))
  }

  method I2dWrapped(kind: Kind, t: Template, slot: Slot, buf: array<byte>, pp: Output) returns (r: nat)
    requires FitsSlot(kind, t, slot) && kind.Explicit() && !slot.Absent?
    requires |Wrapped(kind, t, slot)| <= INT_MAX && pp.Room(buf, |Wrapped(kind, t, slot)|)
    modifies buf
    ensures r == |Wrapped(kind, t, slot)|
    ensures buf[..] == pp.After(old(buf[..]), Wrapped(kind, t, slot))
    decreases t, 3
  {
    if slot.One? {
      SizeIsEncodedLength(t, slot.v);
      r := I2d(t, slot.v, buf, pp);
    } else {
      r := I2dSet(t, slot.vs, buf, pp, V_ASN1_SEQUENCE, V_ASN1_UNIVERSAL);
    }
  }

  lemma {:induction false} AllSplit(t: Template, a: seq<Value>, b: seq<Value>)
    requires (forall v <- a :: Fits(t, v)) && (forall v <- b :: Fits(t, v))
    ensures EncodeAll(t, a + b) == EncodeAll(t, a) + EncodeAll(t, b)
    decreases |a|
  {
    hide Encode, Fits;
    if a == [] {
      assert a + b == b;
    } else {
      assert (a + b)[1..] == a[1..] + b;
      AllSplit(t, a[1..], b);
    }
  }

  /** i2d_ASN1_SET with `is_set` false: lengths from the last element to the first,
      then the elements in order. */
  method I2dSet(t: Template, vs: seq<Value>, buf: array<byte>, pp: Output, exTag: LowTag, exClass: Class) returns (r: nat)
    requires (forall v <- vs :: Fits(t, v))
    requires |Wrap(Constructed, exTag, exClass, EncodeAll(t, vs))| <= INT_MAX
    requires pp.Room(buf, |Wrap(Constructed, exTag, exClass, EncodeAll(t, vs))|)
    modifies buf
    ensures r == |Wrap(Constructed, exTag, exClass, EncodeAll(t, vs))|
    ensures buf[..] == pp.After(old(buf[..]), Wrap(Constructed, exTag, exClass, EncodeAll(t, vs)))
    decreases t, 2
  {
    ghost var content, was := EncodeAll(t, vs), buf[..];
    WrapLength(Constructed, exTag, exClass, content);
    WrapSize(Constructed, exTag, exClass, content);
    var ret := SetContentLength(t, vs, buf);
    r := CountObject(Constructed, ret, exTag);
    if pp.Null? { return; }
    WrittenIsWrap(was, pp.p, Constructed, exTag, exClass, content);
    var p := WriteObject(buf, pp.p, Constructed, ret, exTag, exClass);
    PutElements(t, vs, buf, p);
    PutMark(buf, p + ret, Constructed);
  }

  lemma NoElements(t: Template)
    ensures EncodeAll(t, []) == []
  {
  }

  lemma NullWritesNothing(was: seq<byte>, content: seq<byte>)
    ensures Null.After(was, content) == was && forall buf, size :: Null.Room(buf, size)
  {
  }

  method SetContentLength(t: Template, vs: seq<Value>, buf: array<byte>) returns (ret: nat)
    requires (forall v <- vs :: Fits(t, v)) && |EncodeAll(t, vs)| <= INT_MAX
    modifies buf
    ensures ret == |EncodeAll(t, vs)| && buf[..] == old(buf[..])
    decreases t, 1
  {
    hide *;
    ret := 0;
    var i := |vs|;
    assert vs[i..] == [];
    NoElements(t);
    while i > 0
      invariant 0 <= i <= |vs| && ret == |EncodeAll(t, vs[i..])| && buf[..] == old(buf[..])
    {
      i := i - 1;
      ElementIn(t, vs, i);
      ghost var before := buf[..];
      NullWritesNothing(before, Encode(t, vs[i]));
      var n := I2d(t, vs[i], buf, Null);
      ret := ret + n;
    }
    assert vs[0..] == vs;
  }

  method PutElements(t: Template, vs: seq<Value>, buf: array<byte>, at: nat)
    requires (forall v <- vs :: Fits(t, v)) && |EncodeAll(t, vs)| <= INT_MAX && at + |EncodeAll(t, vs)| <= buf.Length
    modifies buf
    ensures buf[..] == Splice(old(buf[..]), at, EncodeAll(t, vs))
    decreases t, 1
  {
    hide Encode, Fits, Size, Splice;
    ghost var was := buf[..];
    var p := at;
    SpliceByIndex(was, at, [], buf[..]);
    for i := 0 to |vs|
      invariant p == at + |EncodeAll(t, vs[..i])| <= buf.Length
      invariant at + |EncodeAll(t, vs[..i])| + |EncodeAll(t, vs[i..])| == at + |EncodeAll(t, vs)|
      invariant buf[..] == Splice(was, at, EncodeAll(t, vs[..i]))
    {
      ElementIn(t, vs, i);
      SpliceTwice(was, at, EncodeAll(t, vs[..i]), Encode(t, vs[i]));
      var n := I2d(t, vs[i], buf, At(p));
      p := p + n;
    }
    assert vs[..|vs|] == vs;
  }

  lemma ElementIn(t: Template, vs: seq<Value>, i: nat)
    requires (forall v <- vs :: Fits(t, v)) && i < |vs|
    ensures EncodeAll(t, vs[..i + 1]) == EncodeAll(t, vs[..i]) + Encode(t, vs[i])
    ensures EncodeAll(t, vs[i..]) == Encode(t, vs[i]) + EncodeAll(t, vs[i + 1..])
    ensures EncodeAll(t, vs) == EncodeAll(t, vs[..i]) + EncodeAll(t, vs[i..])
    ensures Size(t, vs[i]) == |Encode(t, vs[i])| <= |EncodeAll(t, vs)|
  {
    hide Encode, Fits, Size;
    SizeIsEncodedLength(t, vs[i]);
    OneElement(t, vs[i]);
    assert vs[..i + 1] == vs[..i] + [vs[i]];
    AllSplit(t, vs[..i], [vs[i]]);
    assert vs[i..][1..] == vs[i + 1..] && vs == vs[..i] + vs[i..];
    AllSplit(t, vs[..i], vs[i..]);
  }

  lemma OneElement(t: Template, v: Value)
    requires Fits(t, v)
    ensures EncodeAll(t, [v]) == Encode(t, v)
  {
    hide Encode;
    assert EncodeAll(t, [v][1..]) == [];
  }

  // ---------------------------------------------------------------- ASN1_dup

  /** ASN1_dup: write into a fresh buffer of the size the length pass gave plus ten,
      then read that back.  The copy is the object itself, in its read-back form. */
  method Dup(t: Template, v: Value) returns (r: Decoded<Value>)
    requires WellFormed(t) && Fits(t, v) && Size(t, v) <= INT_MAX && Readable(t, v, 0)
    ensures r == Decoded(Size(t, v), Canon(t, v))
  {
    hide Decode, Encode, Canon, Size, Fits, Readable, WellFormed;
    SizeIsEncodedLength(t, v);
    var nothing := new byte[0];
    var i := I2d(t, v, nothing, Null);
    var b := new byte[i + 10];
    i := I2d(t, v, b, At(0));
    var p2 := new Asn1Ctx(0);
    ghost var rest := b[i..];
    assert b[0..] == Encode(t, v) + rest;
    r := D2i(t, b, p2, i);
    ReadBack(t, v, rest, 0);
  }
}

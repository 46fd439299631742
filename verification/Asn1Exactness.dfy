/** The other half of the round trip: an object with an indefinite SEQUENCE that has
    too little room after it is never read back whole.  Its reader fails, builds
    another object, or stops in front of end-of-contents octets it should have used. */
module Asn1Exactness {
  import opened Asn1Header
  import opened Asn1Template
  import opened Asn1RoundTrip
  import opened Asn1Extent

  /** From `n` on there are only octets of end-of-contents marks, one mark at least. */
  predicate MarksFrom(e: seq<byte>, n: nat)
  {
    n + 2 <= |e| && forall k :: n <= k < |e| ==> e[k] == 0
  }

  /** A reading of `e` that is not exact: if it builds the object, it stops short. */
  ghost predicate StopsShort<T>(r: Decoded<T>, whole: T, e: seq<byte>)
  {
    r.Decoded? && r.value == whole ==> MarksFrom(e, r.n)
  }

  lemma MarksInside(a: seq<byte>, e: seq<byte>, b: seq<byte>, n: nat, used: nat)
    requires MarksFrom(e, n) && used <= |b| && forall k :: 0 <= k < |b| ==> b[k] == 0
    ensures MarksFrom(a + e + b, |a| + n + used)
    ensures forall rest: seq<byte> :: |((a + e + b) + rest)[|a| + n..]| > 0 && ((a + e + b) + rest)[|a| + n..][0] == 0
  {
    var w := a + e + b;
    assert forall k :: |a| + n <= k < |a| + |e| ==> w[k] == e[k - |a|];
    assert forall k :: |a| + |e| <= k < |w| ==> w[k] == b[k - |a| - |e|];
  }

  // ------------------------------------------------------- results taken apart

  lemma FieldsBack(fl: FieldList, s: seq<byte>, slen: int) returns (d: Decoded<Slot>, f: Decoded<Slots>)
    requires fl.FCons? && DecodeFields(fl, s, slen).Decoded?
    ensures d == DecodeSlot(fl.kind, fl.t, s, slen) && d.Decoded? && d.n <= |s|
    ensures f == DecodeFields(fl.rest, s[d.n..], slen - d.n) && f.Decoded?
    ensures DecodeFields(fl, s, slen) == Decoded(d.n + f.n, SCons(d.value, f.value))
  {
    hide DecodeSlot;
    d := DecodeSlot(fl.kind, fl.t, s, slen);
    f := DecodeFields(fl.rest, s[d.n..], slen - d.n);
  }

  lemma ElementsBack(t: Template, s: seq<byte>, left: int, slen: int)
    requires left > 0 && slen > 0 && DecodeElements(t, s, left, slen, false).Decoded?
    ensures
      var r, d := DecodeElements(t, s, left, slen, false), Decode(t, s, slen);
      && d.Decoded? && d.n <= |s|
      && var f := DecodeElements(t, s[d.n..], left - d.n, slen, false);
      && f.Decoded? && r.value == [d.value] + f.value
  {
    hide Decode;
  }

  lemma ListBack(t: Template, s: seq<byte>, length: int, tag: LowTag, xclass: Class, n: nat, o: Object)
    requires length > 0 && GetObject(s, length) == Scanned(n, o) && n <= |s| && !o.inf
    requires DecodeSet(t, s, length, tag, xclass).Decoded?
    ensures
      var r, f := DecodeSet(t, s, length, tag, xclass), DecodeElements(t, s[n..], o.len, o.len, false);
      f.Decoded? && r.value == Many(f.value, false)
  {
    hide GetObject, DecodeElements;
    assert SetHeader(s, length, tag, xclass).Decoded? ==> SetHeader(s, length, tag, xclass) == Decoded(n, Frame(o.len, false, false));
  }

  lemma RecordBack(fields: FieldList, s: seq<byte>, length: int, n: nat, c: Frame)
    requires GetSequence(s, length) == Decoded(n, c) && n <= |s| && Decode(Sequence(fields), s, length).Decoded?
    ensures
      var r, f := Decode(Sequence(fields), s, length), DecodeFields(fields, s[n..], c.slen);
      && f.Decoded? && n + f.n <= |s|
      && var k := Finish(s[n + f.n..], c.(slen := c.slen - f.n));
      && k.Decoded? && r.n == n + f.n + k.n && r.value == Record(f.value, false)
  {
    hide GetSequence, Finish, DecodeFields;
    var f := DecodeFields(fields, s[n..], c.slen);
    assert DecodeBody(fields, s[n..], c).Decoded?;
    assert f.Decoded? && f.n <= |s[n..]|;
    assert s[n..][f.n..] == s[n + f.n..];
  }

  lemma ExplicitBack(kind: Kind, t: Template, s: seq<byte>, slen: int, n: nat, c: Frame)
    requires WrapperHeader(s, slen) == Decoded(n, c) && n <= |s| && DecodeExplicit(kind, t, s, slen).Decoded?
    ensures
      var r, f := DecodeExplicit(kind, t, s, slen), DecodeInside(kind, t, s[n..], c.slen);
      && f.Decoded? && n + f.n <= |s|
      && var k := WrapperEnd(s[n + f.n..], slen - (n + f.n), c.indefinite);
      && k.Decoded? && r.n == n + f.n + k.n && r.value == f.value
  {
    hide WrapperHeader, WrapperEnd, DecodeInside;
  }

  // ------------------------------------------- readers in front of a zero octet

  lemma ZeroFails(t: Template, s: seq<byte>, slen: int)
    requires WellFormed(t) && |s| > 0 && s[0] == 0
    ensures !Decode(t, s, slen).Decoded?
  {
    hide GetLength, DecodeBody;
    assert GetTag(s, slen).Scanned? ==> GetTag(s, slen).value.0 == 0;
    assert GetObject(s, slen).Scanned? ==> GetObject(s, slen).value.tag == 0;
  }

  lemma ZeroIsNoList(t: Template, s: seq<byte>, slen: int)
    requires |s| > 0 && s[0] == 0
    ensures !DecodeSet(t, s, slen, V_ASN1_SEQUENCE, V_ASN1_UNIVERSAL).Decoded?
  {
    hide GetLength, DecodeElements;
    var room := if slen == 0 then -1 else slen;
    assert GetTag(s, room).Scanned? ==> GetTag(s, room).value.0 == 0;
    assert GetObject(s, room).Scanned? ==> GetObject(s, room).value.tag == 0;
  }

  lemma ZeroSlot(kind: Kind, t: Template, slot: Slot, s: seq<byte>, slen: int)
    requires WellFormed(t) && FitsSlot(kind, t, slot) && |s| > 0 && s[0] == 0 && slen != 0
    ensures
      var r := DecodeSlot(kind, t, s, slen);
      r.Decoded? && r.value == CanonSlot(kind, t, slot) ==> r.n == 0 && EncodeSlot(kind, t, slot) == []
  {
    hide Decode, DecodeSet, Encode, EncodeAll, Canon, CanonAll, Wrap;
    if kind.Optional() {
      EndOfContentsDiffers(kind, t);
    } else {
      ZeroFails(t, s, slen);
      ZeroIsNoList(t, s, slen);
      PresentIs(kind, t, s, slen);
      assert if kind.Plain? then !DecodeOne(t, s, slen).Decoded? else kind.SeqOf?;
    }
  }

  /** Nothing that is present can be read from there. */
  lemma {:induction false} ZeroFields(fl: FieldList, ss: Slots, s: seq<byte>, slen: int)
    requires WellFormedFields(fl) && FitsFields(fl, ss) && |s| > 0 && s[0] == 0 && slen != 0
    ensures
      var r := DecodeFields(fl, s, slen);
      r.Decoded? && r.value == CanonFields(fl, ss) ==> r.n == 0 && EncodeFields(fl, ss) == []
    decreases fl
  {
    if fl.FCons? && DecodeFields(fl, s, slen).Decoded? && DecodeFields(fl, s, slen).value == CanonFields(fl, ss) {
      hide *;
      FieldsCons(fl, ss, 0);
      var d, f := FieldsBack(fl, s, slen);
      ZeroSlot(fl.kind, fl.t, ss.slot, s, slen);
      assert s[0..] == s;
      ZeroFields(fl.rest, ss.rest, s, slen);
    }
  }

  // ------------------------------------------------------------- too little room

  /** Without the room its indefinite SEQUENCEs need, an object is not read back. */
  lemma {:induction false} Unread(t: Template, v: Value, rest: seq<byte>, slack: nat)
    requires WellFormed(t) && Fits(t, v) && |Encode(t, v)| <= INT_MAX && !Readable(t, v, slack)
    ensures StopsShort(Decode(t, Encode(t, v) + rest, |Encode(t, v)| + slack), Canon(t, v), Encode(t, v))
    decreases t, 0
  {
    hide DecodePrim, GetSequence, DecodeFields, Finish, Wrap, EncodeFields, CanonFields, ReadableFields, WellFormedFields, FitsFields, StopsShort;
    WrapLength(OuterForm(v.inf), V_ASN1_SEQUENCE, V_ASN1_UNIVERSAL, EncodeFields(t.fields, v.slots));
    UnreadRecord(t.fields, v, rest, slack);
  }

  lemma {:induction false} UnreadRecord(fields: FieldList, v: Value, rest: seq<byte>, slack: nat)
    requires WellFormedFields(fields) && v.Record? && FitsFields(fields, v.slots)
    requires !(ReadableFields(fields, v.slots, if v.inf then slack else 0) && (v.inf ==> slack >= 2))
    requires |EncodeFields(fields, v.slots)| <= INT_MAX
    ensures
      var w := Wrap(OuterForm(v.inf), V_ASN1_SEQUENCE, V_ASN1_UNIVERSAL, EncodeFields(fields, v.slots));
      StopsShort(Decode(Sequence(fields), w + rest, |w| + slack), Record(CanonFields(fields, v.slots), false), w)
    decreases fields, 3
  {
    hide *;
    var content, form := EncodeFields(fields, v.slots), OuterForm(v.inf);
    var w, n := Wrap(form, V_ASN1_SEQUENCE, V_ASN1_UNIVERSAL, content), |PutObject(form, |content|, V_ASN1_SEQUENCE, V_ASN1_UNIVERSAL)|;
    var mark, over := if v.inf then [0, 0] else [], if v.inf then slack else 0;
    OuterFormIs(v.inf);
    WrapHeader(form, V_ASN1_SEQUENCE, V_ASN1_UNIVERSAL, content, rest, slack);
    WrapParts(form, V_ASN1_SEQUENCE, V_ASN1_UNIVERSAL, content, mark);
    RecordHeader(v.inf, content, rest, slack);
    var r, canon := Decode(Sequence(fields), w + rest, |w| + slack), Record(CanonFields(fields, v.slots), false);
    if r.Decoded? && r.value == canon {
      var c := Frame(|content| + over, v.inf, v.inf);
      RecordBack(fields, w + rest, |w| + slack, n, c);
      var f := DecodeFields(fields, (w + rest)[n..], c.slen);
      if ReadableFields(fields, v.slots, over) {
        ReadBackFields(fields, v.slots, mark + rest, over);
        FinishIndefinite(rest, slack);
        MarkIsLeft(PutObject(form, |content|, V_ASN1_SEQUENCE, V_ASN1_UNIVERSAL) + content);
      } else {
        UnreadFields(fields, v.slots, mark + rest, over);
        ShortIs(f, CanonFields(fields, v.slots), content);
        FinishInMarks((w + rest)[n + f.n..], |content| - f.n + over, v.inf);
        MarksInside(PutObject(form, |content|, V_ASN1_SEQUENCE, V_ASN1_UNIVERSAL), content, mark, f.n, 2);
      }
    }
    ShortBecause(r, canon, w);
  }

  lemma MarkIsLeft(a: seq<byte>)
    ensures MarksFrom(a + [0, 0], |a|)
  {
  }

  lemma ShortIs<T>(r: Decoded<T>, whole: T, e: seq<byte>)
    requires StopsShort(r, whole, e) && r.Decoded? && r.value == whole
    ensures MarksFrom(e, r.n) && r.n + 2 <= |e|
  {
  }

  lemma ShortBecause<T>(r: Decoded<T>, whole: T, e: seq<byte>)
    requires r.Decoded? && r.value == whole ==> MarksFrom(e, r.n)
    ensures StopsShort(r, whole, e)
  {
  }

  /** A definite record refuses the octets left over; an indefinite one takes a mark. */
  lemma FinishInMarks(s: seq<byte>, slen: int, inf: bool)
    requires slen >= 2 && Finish(s, Frame(slen, inf, inf)).Decoded?
    ensures inf && Finish(s, Frame(slen, inf, inf)).n == 2
  {
  }

  lemma {:induction false} UnreadFields(fl: FieldList, ss: Slots, rest: seq<byte>, slack: nat)
    requires WellFormedFields(fl) && FitsFields(fl, ss) && |EncodeFields(fl, ss)| <= INT_MAX && !ReadableFields(fl, ss, slack)
    requires slack > 0 ==> |rest| > 0 && rest[0] == 0
    ensures StopsShort(DecodeFields(fl, EncodeFields(fl, ss) + rest, |EncodeFields(fl, ss)| + slack), CanonFields(fl, ss), EncodeFields(fl, ss))
    decreases fl, 1
  {
    hide *;
    NothingUnread(fl, ss, slack);
    FieldsCons(fl, ss, slack);
    var e, tail := EncodeSlot(fl.kind, fl.t, ss.slot), EncodeFields(fl.rest, ss.rest);
    var s, slen := e + (tail + rest), |e| + |tail| + slack;
    AfterPrefix(e, tail, rest);
    var r := DecodeFields(fl, s, slen);
    if r.Decoded? && r.value == CanonFields(fl, ss) {
      var d, f := FieldsBack(fl, s, slen);
      if ReadableSlot(fl.kind, fl.t, ss.slot, |tail| + slack) {
        ReadBackFirst(fl, ss, rest, slack);
        UnreadFields(fl.rest, ss.rest, rest, slack);
        LaterShort(e, tail, DecodeFields(fl.rest, tail + rest, |tail| + slack), CanonFields(fl.rest, ss.rest));
      } else {
        UnreadSlot(fl.kind, fl.t, ss.slot, tail + rest, |tail| + slack);
        FirstShort(fl, ss, e, tail + rest, slen);
      }
    }
    ShortBecause(r, CanonFields(fl, ss), e + tail);
  }

  /** A first field that is readable is read whole. */
  lemma ReadBackFirst(fl: FieldList, ss: Slots, rest: seq<byte>, slack: nat)
    requires fl.FCons? && WellFormedFields(fl) && FitsFields(fl, ss) && |EncodeFields(fl, ss)| <= INT_MAX
    requires slack > 0 ==> |rest| > 0 && rest[0] == 0
    requires
      && ss.SCons? && FitsSlot(fl.kind, fl.t, ss.slot) && FitsFields(fl.rest, ss.rest)
      && ReadableSlot(fl.kind, fl.t, ss.slot, |EncodeFields(fl.rest, ss.rest)| + slack)
    ensures
      var e, tail := EncodeSlot(fl.kind, fl.t, ss.slot), EncodeFields(fl.rest, ss.rest);
      DecodeSlot(fl.kind, fl.t, e + (tail + rest), |e| + |tail| + slack) == Decoded(|e|, CanonSlot(fl.kind, fl.t, ss.slot))
    decreases fl, 0
  {
    hide *;
    FieldsCons(fl, ss, slack);
    var e, tail := EncodeSlot(fl.kind, fl.t, ss.slot), EncodeFields(fl.rest, ss.rest);
    if e == [] {
      AbsentSlot(fl.kind, fl.t, ss.slot, fl.rest, ss.rest, rest, slack);
      assert e + (tail + rest) == tail + rest;
    } else {
      ReadBackSlot(fl.kind, fl.t, ss.slot, tail + rest, |tail| + slack);
    }
  }

  lemma LaterShort(e: seq<byte>, tail: seq<byte>, f: Decoded<Slots>, whole: Slots)
    requires StopsShort(f, whole, tail) && f.Decoded? && f.value == whole
    ensures MarksFrom(e + tail, |e| + f.n)
  {
    MarksInside(e, tail, [], f.n, 0);
    assert e + tail + [] == e + tail;
  }

  /** After a field that stopped short, the others are empty. */
  lemma FirstShort(fl: FieldList, ss: Slots, e: seq<byte>, after: seq<byte>, slen: int)
    requires fl.FCons? && ss.SCons? && WellFormedFields(fl.rest) && FitsFields(fl.rest, ss.rest) && FitsSlot(fl.kind, fl.t, ss.slot)
    requires slen >= |e|
    requires
      var d := DecodeSlot(fl.kind, fl.t, e + after, slen);
      && d.Decoded? && d.value == CanonSlot(fl.kind, fl.t, ss.slot) && StopsShort(d, CanonSlot(fl.kind, fl.t, ss.slot), e)
      && d.n <= |e + after|
      && var f := DecodeFields(fl.rest, (e + after)[d.n..], slen - d.n);
      f.Decoded? && f.value == CanonFields(fl.rest, ss.rest)
    ensures
      var d := DecodeSlot(fl.kind, fl.t, e + after, slen);
      var f := DecodeFields(fl.rest, (e + after)[d.n..], slen - d.n);
      MarksFrom(e + EncodeFields(fl.rest, ss.rest), d.n + f.n)
  {
    hide *;
    var d := DecodeSlot(fl.kind, fl.t, e + after, slen);
    ShortIs(d, CanonSlot(fl.kind, fl.t, ss.slot), e);
    MarkAhead(e, after, d.n);
    ZeroFields(fl.rest, ss.rest, (e + after)[d.n..], slen - d.n);
    assert e + [] == e;
  }

  lemma NothingUnread(fl: FieldList, ss: Slots, slack: int)
    requires FitsFields(fl, ss) && !ReadableFields(fl, ss, slack)
    ensures fl.FCons?
  {
  }

  lemma NoneUnread(t: Template, vs: seq<Value>, slen: int)
    requires (forall v <- vs :: Fits(t, v)) && !ReadableAll(t, vs, slen)
    ensures vs != []
  {
  }

  lemma MarkAhead(e: seq<byte>, rest: seq<byte>, n: nat)
    requires MarksFrom(e, n)
    ensures |(e + rest)[n..]| > 0 && (e + rest)[n..][0] == 0
  {
  }

  lemma UnreadIsThere(kind: Kind, t: Template, slot: Slot, slack: nat)
    requires FitsSlot(kind, t, slot) && !ReadableSlot(kind, t, slot, slack)
    ensures EncodeSlot(kind, t, slot) != []
  {
    hide Encode, EncodeAll, Readable;
    match slot
    case One(v, _) => LeadingOctetOfEncode(t, v);
    case Many(vs, _) => assert vs != [];
  }

  lemma {:induction false} UnreadSlot(kind: Kind, t: Template, slot: Slot, rest: seq<byte>, slack: nat)
    requires WellFormed(t) && FitsSlot(kind, t, slot) && !ReadableSlot(kind, t, slot, slack)
    requires |EncodeSlot(kind, t, slot)| <= INT_MAX
    ensures
      var e := EncodeSlot(kind, t, slot);
      StopsShort(DecodeSlot(kind, t, e + rest, |e| + slack), CanonSlot(kind, t, slot), e)
    decreases t, 5
  {
    hide *;
    UnreadIsThere(kind, t, slot, slack);
    var e := EncodeSlot(kind, t, slot);
    var s := e + rest;
    LeadingOctetOfSlot(kind, t, slot);
    SlotStep(kind, t, s, |e| + slack);
    PresentIs(kind, t, s, |e| + slack);
    if kind.Explicit() {
      UnreadExplicit(kind, t, slot, rest, slack);
    } else {
      SlotContents(kind, t, slot, slack);
      if slot.One? {
        var plain := Encode(t, slot.v);
        Unread(t, slot.v, rest, slack);
        OneIsShort(t, plain + rest, |plain| + slack, Canon(t, slot.v), plain);
        if kind.ImpOpt? {
          ImplicitOctetRestoresType(t, slot.v, kind.tag, rest);
          RetagIsShort(DecodeOne(t, plain + rest, |plain| + slack), One(Canon(t, slot.v), false), plain, kind.tag);
        }
        NotList(kind);
      } else {
        UnreadList(t, slot.vs, ListTag(kind), ListClass(kind), rest, slack);
        NestedIsShort(DecodeSet(t, s, |e| + slack, ListTag(kind), ListClass(kind)), Many(CanonAll(t, slot.vs), false), e);
      }
    }
  }

  lemma OneIsShort(t: Template, s: seq<byte>, slen: int, v: Value, e: seq<byte>)
    requires StopsShort(Decode(t, s, slen), v, e)
    ensures StopsShort(DecodeOne(t, s, slen), One(v, false), e)
    ensures DecodeOne(t, s, slen).Decoded? ==> DecodeOne(t, s, slen).n >= 2
  {
  }

  lemma RetagIsShort(r: Decoded<Slot>, slot: Slot, e: seq<byte>, tag: LowTag)
    requires StopsShort(r, slot, e) && |e| > 0 && (r.Decoded? ==> r.n >= 2)
    ensures StopsShort(r, slot, Retag(e, tag))
  {
  }

  lemma NestedIsShort(r: Decoded<Slot>, slot: Slot, e: seq<byte>)
    requires r.Decoded? ==> r.value != slot
    ensures StopsShort(Nested(r), slot, e)
  {
  }

  lemma {:induction false} UnreadExplicit(kind: Kind, t: Template, slot: Slot, rest: seq<byte>, slack: nat)
    requires WellFormed(t) && FitsSlot(kind, t, slot) && !ReadableSlot(kind, t, slot, slack) && kind.Explicit()
    requires EncodeSlot(kind, t, slot) != [] && |EncodeSlot(kind, t, slot)| <= INT_MAX
    ensures
      var e := EncodeSlot(kind, t, slot);
      StopsShort(DecodeExplicit(kind, t, e + rest, |e| + slack), CanonSlot(kind, t, slot), e)
    decreases t, 4
  {
    hide *;
    ExplicitContents(kind, t, slot, slack);
    var content, form := Wrapped(kind, t, slot), OuterForm(slot.inf);
    var e := Wrap(form, kind.tag, V_ASN1_CONTEXT_SPECIFIC, content);
    var s, head := e + rest, PutObject(form, |content|, kind.tag, V_ASN1_CONTEXT_SPECIFIC);
    var mark, over := if slot.inf then [0, 0] else [], if slot.inf then slack else 0;
    WrapLength(form, kind.tag, V_ASN1_CONTEXT_SPECIFIC, content);
    WrapHeader(form, kind.tag, V_ASN1_CONTEXT_SPECIFIC, content, rest, slack);
    WrapParts(form, kind.tag, V_ASN1_CONTEXT_SPECIFIC, content, mark);
    WrapperReads(form, |content|, kind.tag, s, |e| + slack, |head|);
    var r := DecodeExplicit(kind, t, s, |e| + slack);
    if r.Decoded? && r.value == CanonSlot(kind, t, slot) {
      ExplicitBack(kind, t, s, |e| + slack, |head|, Frame(|content| + over, slot.inf, slot.inf));
      UnreadInside(kind, t, slot, mark + rest, over);
      var f := DecodeInside(kind, t, content + (mark + rest), |content| + over);
      ShortIs(f, CanonSlot(kind, t, slot), content);
      WrapperEndInMarks(s[|head| + f.n..], |e| + slack - (|head| + f.n), slot.inf);
      MarksInside(head, content, mark, f.n, |mark|);
    }
    ShortBecause(r, CanonSlot(kind, t, slot), e);
  }

  lemma WrapperEndInMarks(s: seq<byte>, room: int, inf: bool)
    requires room > 0 && WrapperEnd(s, room, inf).Decoded?
    ensures WrapperEnd(s, room, inf).n == if inf then 2 else 0
  {
  }

  lemma {:induction false} UnreadInside(kind: Kind, t: Template, slot: Slot, rest: seq<byte>, slack: nat)
    requires WellFormed(t) && FitsSlot(kind, t, slot) && kind.Explicit() && !slot.Absent?
    requires slot.One? ==> !Readable(t, slot.v, slack) && kind.ExpOpt?
    requires slot.Many? ==> !ReadableAll(t, slot.vs, |EncodeAll(t, slot.vs)|) && kind.ExpSeqOfOpt?
    requires |Wrapped(kind, t, slot)| <= INT_MAX
    ensures
      var w := Wrapped(kind, t, slot);
      StopsShort(DecodeInside(kind, t, w + rest, |w| + slack),
                 if slot.One? then One(Canon(t, slot.v), false) else Many(CanonAll(t, slot.vs), false), w)
    decreases t, 3
  {
    hide Decode, DecodeSet, GetObject, Wrap, Canon, Readable, Encode, EncodeAll, CanonAll, StopsShort, DecodeOne, Nested;
    if slot.One? {
      Unread(t, slot.v, rest, slack);
      var w := Encode(t, slot.v);
      OneIsShort(t, w + rest, |w| + slack, Canon(t, slot.v), w);
    } else {
      UnreadList(t, slot.vs, V_ASN1_SEQUENCE, V_ASN1_UNIVERSAL, rest, slack);
      var w := Wrapped(kind, t, slot);
      NestedIsShort(DecodeSet(t, w + rest, |w| + slack, V_ASN1_SEQUENCE, V_ASN1_UNIVERSAL), Many(CanonAll(t, slot.vs), false), w);
    }
  }

  lemma {:induction false} UnreadList(t: Template, vs: seq<Value>, tag: LowTag, xclass: Class, rest: seq<byte>, slack: nat)
    requires WellFormed(t) && (forall v <- vs :: Fits(t, v))
    requires !ReadableAll(t, vs, |EncodeAll(t, vs)|) && |Wrap(Constructed, tag, xclass, EncodeAll(t, vs))| <= INT_MAX
    ensures
      var w := Wrap(Constructed, tag, xclass, EncodeAll(t, vs));
      var r := DecodeSet(t, w + rest, |w| + slack, tag, xclass);
      r.Decoded? ==> r.value != Many(CanonAll(t, vs), false)
    decreases t, 2
  {
    hide *;
    var content := EncodeAll(t, vs);
    var w, n := Wrap(Constructed, tag, xclass, content), |PutObject(Constructed, |content|, tag, xclass)|;
    WrapLength(Constructed, tag, xclass, content);
    WrapHeader(Constructed, tag, xclass, content, rest, slack);
    assert [] + rest == rest;
    var r := DecodeSet(t, w + rest, |w| + slack, tag, xclass);
    if r.Decoded? {
      ListHeader(|content|, tag, xclass);
      ListBack(t, w + rest, |w| + slack, tag, xclass, n, HeaderOf(Constructed, |content|, tag, xclass));
      UnreadElements(t, vs, rest, |content|);
    }
  }

  /** A list is refused or read as another one. */
  lemma {:induction false} UnreadElements(t: Template, vs: seq<Value>, rest: seq<byte>, slen: nat)
    requires WellFormed(t) && (forall v <- vs :: Fits(t, v)) && |EncodeAll(t, vs)| <= INT_MAX
    requires slen >= |EncodeAll(t, vs)| && !ReadableAll(t, vs, slen)
    ensures
      var r := DecodeElements(t, EncodeAll(t, vs) + rest, |EncodeAll(t, vs)|, slen, false);
      r.Decoded? ==> r.value != CanonAll(t, vs)
    decreases t, 1, |vs|
  {
    hide *;
    NoneUnread(t, vs, slen);
    ElementsCons(t, vs, slen);
    var e, tail := Encode(t, vs[0]), EncodeAll(t, vs[1..]);
    AfterPrefix(e, tail, rest);
    var s := e + (tail + rest);
    var r := DecodeElements(t, s, |e| + |tail|, slen, false);
    if r.Decoded? && r.value == CanonAll(t, vs) {
      ElementsBack(t, s, |e| + |tail|, slen);
      var d := Decode(t, s, slen);
      assert d.value == r.value[0];
      if Readable(t, vs[0], slen - |e|) {
        ReadBack(t, vs[0], tail + rest, slen - |e|);
        var f := DecodeElements(t, tail + rest, |tail|, slen, false);
        assert f.value == r.value[1..] == CanonAll(t, vs[1..]);
        UnreadElements(t, vs[1..], rest, slen);
      } else {
        Unread(t, vs[0], tail + rest, slen - |e|);
        ShortIs(d, Canon(t, vs[0]), e);
        MarkAhead(e, tail + rest, d.n);
        ZeroFails(t, s[d.n..], slen);
        ElementsBack(t, s[d.n..], |e| + |tail| - d.n, slen);
        assert false;
      }
    }
  }

  // ----------------------------------------------------------------- exactly when

  /** d2i undoes i2d exactly when every indefinite SEQUENCE of the object has two more
      octets of its reader's length after it: with that room the object comes back and
      the reader stops at its end; without it, it fails, builds another object or stops
      short, whatever octets follow. */
  lemma ReadBackExactly(t: Template, v: Value, rest: seq<byte>, slack: nat)
    requires WellFormed(t) && Fits(t, v) && |Encode(t, v)| <= INT_MAX
    ensures Decode(t, Encode(t, v) + rest, |Encode(t, v)| + slack) == Decoded(|Encode(t, v)|, Canon(t, v)) <==> Readable(t, v, slack)
  {
    hide Decode, Encode, Readable, Canon, Fits, WellFormed;
    if Readable(t, v, slack) { ReadBack(t, v, rest, slack); } else { Unread(t, v, rest, slack); }
  }

  // ------------------------------------------------- strings written constructed

  /** A string that is read is at least two octets shorter than what it was read from. */
  lemma {:induction false} StringShrinks(tag: nat, s: seq<byte>, length: int)
    requires DecodePrim(tag, s, length).Decoded?
    ensures |DecodePrim(tag, s, length).value.octets| + 2 <= DecodePrim(tag, s, length).n
    decreases |s|, 0
  {
    hide GetObject, Collate;
    var h := GetObject(s, length);
    if h.value.constructed { CollateShrinks(tag, s[h.n..], length, h.value.len, h.value.inf, EMPTY_BUFFER); }
  }

  lemma {:induction false} CollateShrinks(tag: nat, s: seq<byte>, room: int, slen: int, inf: bool, b: Buffer)
    requires Collate(tag, s, room, slen, inf, b).Decoded?
    ensures
      var r := Collate(tag, s, room, slen, inf, b);
      |r.value| <= r.n && (!inf && slen > 0 ==> |r.value| + 2 <= r.n)
    decreases |s|, 1
  {
    hide DecodePrim, CheckInfiniteEnd, Grows, Grown;
    var d := DecodePrim(tag, s, room);
    if (if inf then CheckInfiniteEnd(s, room) == Scanned(0, false) else slen > 0) && d.Decoded? {
      StringShrinks(tag, s, room);
      CollateShrinks(tag, s[d.n..], room - d.n, if inf then slen else slen - d.n, inf, Grown(b, b.length + |d.value.octets|));
    }
  }

  /** i2d_ASN1_bytes sets the constructed bit for V_ASN1_SEQUENCE and V_ASN1_SET, and
      d2i_ASN1_bytes then takes the content for strings of that type: the string is read
      back exactly when it is empty. */
  lemma ConstructedReadBack(tag: LowTag, octets: seq<byte>, rest: seq<byte>, slack: nat)
    requires (tag == V_ASN1_SEQUENCE || tag == V_ASN1_SET) && |octets| <= INT_MAX
    ensures
      var t, v := Prim(tag), Octets(octets);
      Decode(t, Encode(t, v) + rest, |Encode(t, v)| + slack) == Decoded(|Encode(t, v)|, v) <==> octets == []
  {
    hide GetObject, PutObject, Wrap, Collate;
    WrapHeader(Constructed, tag, V_ASN1_UNIVERSAL, octets, rest, slack);
    var w := Wrap(Constructed, tag, V_ASN1_UNIVERSAL, octets);
    var parts := Collate(tag, octets + ([] + rest), |w| + slack, |octets|, false, EMPTY_BUFFER);
    NoParts(tag, octets + ([] + rest), |w| + slack);
    if octets != [] && parts.Decoded? {
      DefiniteCollate(tag, octets + ([] + rest), |w| + slack, |octets|, EMPTY_BUFFER);
      CollateShrinks(tag, octets + ([] + rest), |w| + slack, |octets|, false, EMPTY_BUFFER);
    }
  }

  lemma NoParts(tag: nat, s: seq<byte>, room: int)
    ensures Collate(tag, s, room, 0, false, EMPTY_BUFFER) == Decoded(0, [])
  {
  }

  /** Content 02 00 is refused: its first part is of another type. */
  lemma SetStringNotReadBack(rest: seq<byte>, slack: nat)
    ensures
      var t, v := Prim(V_ASN1_SET), Octets([2, 0]);
      Decode(t, Encode(t, v) + rest, |Encode(t, v)| + slack) == Failed(ConstructedString)
  {
    hide GetObject, PutObject, Wrap;
    var content: seq<byte> := [2, 0];
    WrapHeader(Constructed, V_ASN1_SET, V_ASN1_UNIVERSAL, content, rest, slack);
    var w := Wrap(Constructed, V_ASN1_SET, V_ASN1_UNIVERSAL, content);
    OtherPart(content + rest, |w| + slack);
    assert content + ([] + rest) == content + rest;
    assert Collate(V_ASN1_SET, content + rest, |w| + slack, 2, false, EMPTY_BUFFER) == Failed(WrongTag);
  }

  lemma OtherPart(s: seq<byte>, room: int)
    requires |s| >= 2 && s[0] == 2 && s[1] == 0 && room >= 2
    ensures DecodePrim(V_ASN1_SET, s, room) == Failed(WrongTag)
  {
    hide Collate;
    assert s[1..][0] == 0;
  }
}

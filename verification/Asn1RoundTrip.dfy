/** What d2i makes of the octets i2d wrote, for every template, object, nesting
    and choice of length form. */
module Asn1RoundTrip {
  import opened Asn1Header
  import opened Asn1Template

  // ------------------------------------------------------ two-pass agreement

  /** The length pass (the call with a NULL output pointer) returns the number of
      octets the put pass writes. */
  lemma {:induction false} SizeIsEncodedLength(t: Template, v: Value)
    requires Fits(t, v)
    ensures Size(t, v) == |Encode(t, v)|
    decreases t, 0
  {
    match t
    case Prim(tag) => WrapSize(FormOf(t), tag, V_ASN1_UNIVERSAL, v.octets);
    case Sequence(fields) =>
      SizeOfFields(fields, v.slots);
      WrapSize(OuterForm(v.inf), V_ASN1_SEQUENCE, V_ASN1_UNIVERSAL, EncodeFields(fields, v.slots));
  }

  lemma WrapSize(form: Form, tag: LowTag, xclass: Class, content: seq<byte>)
    ensures |Wrap(form, tag, xclass, content)| == ObjectSize(form, |content|, tag)
  {
    ObjectSizeIsPutSize(form, |content|, tag, xclass);
  }

  lemma {:induction false} SizeOfFields(fl: FieldList, ss: Slots)
    requires FitsFields(fl, ss)
    ensures SizeFields(fl, ss) == |EncodeFields(fl, ss)|
    decreases fl, 0
  {
    if fl.FCons? {
      SizeOfSlot(fl.kind, fl.t, ss.slot);
      SizeOfFields(fl.rest, ss.rest);
    }
  }

  lemma {:induction false} SizeOfSlot(kind: Kind, t: Template, slot: Slot)
    requires FitsSlot(kind, t, slot)
    ensures SizeSlot(kind, t, slot) == |EncodeSlot(kind, t, slot)|
    decreases t, 2
  {
    match slot
    case Absent =>
    case One(v, inf) =>
      SizeIsEncodedLength(t, v);
      if kind.ExpOpt? { WrapSize(OuterForm(inf), kind.tag, V_ASN1_CONTEXT_SPECIFIC, Encode(t, v)); }
    case Many(vs, inf) =>
      SizeOfAll(t, vs);
      var content := EncodeAll(t, vs);
      WrapSize(Constructed, V_ASN1_SEQUENCE, V_ASN1_UNIVERSAL, content);
      match kind {
        case ImpSeqOfOpt(tag) => WrapSize(Constructed, tag, V_ASN1_CONTEXT_SPECIFIC, content);
        case ExpSeqOfOpt(tag) =>
          WrapSize(OuterForm(inf), tag, V_ASN1_CONTEXT_SPECIFIC, Wrap(Constructed, V_ASN1_SEQUENCE, V_ASN1_UNIVERSAL, content));
        case _ =>
      }
  }

  lemma {:induction false} SizeOfAll(t: Template, vs: seq<Value>)
    requires forall v <- vs :: Fits(t, v)
    ensures SizeAll(t, vs) == |EncodeAll(t, vs)|
    decreases t, 1, |vs|
  {
    if vs != [] {
      SizeIsEncodedLength(t, vs[0]);
      SizeOfAll(t, vs[1..]);
    }
  }

  // ------------------------------------------------------ what reading yields

  /** The object as it reads back: definite everywhere, and an optional list that
      was empty is absent. */
  function Canon(t: Template, v: Value): Value
    requires Fits(t, v)
    decreases t, 0
  {
    match t
    case Prim(_) => v
    case Sequence(fields) => Record(CanonFields(fields, v.slots), false)
  }

  function CanonFields(fl: FieldList, ss: Slots): Slots
    requires FitsFields(fl, ss)
    decreases fl, 0
  {
    match fl
    case FEnd => SEnd
    case FCons(kind, t, rest) => SCons(CanonSlot(kind, t, ss.slot), CanonFields(rest, ss.rest))
  }

  function CanonSlot(kind: Kind, t: Template, slot: Slot): Slot
    requires FitsSlot(kind, t, slot)
    decreases t, 2
  {
    match slot
    case Absent => Absent
    case One(v, _) => One(Canon(t, v), false)
    case Many(vs, _) => if kind.Optional() && vs == [] then Absent else Many(CanonAll(t, vs), false)
  }

  function CanonAll(t: Template, vs: seq<Value>): seq<Value>
    requires forall v <- vs :: Fits(t, v)
    decreases t, 1, |vs|
  {
    if vs == [] then [] else [Canon(t, vs[0])] + CanonAll(t, vs[1..])
  }

  /** Every SEQUENCE written in the indefinite form is followed by at least two
      more octets of the length its reader is given; `slack` counts those octets. */
  ghost predicate Readable(t: Template, v: Value, slack: int)
    requires Fits(t, v)
    decreases t, 0
  {
    match t
    case Prim(_) => true
    case Sequence(fields) =>
      if v.inf then slack >= 2 && ReadableFields(fields, v.slots, slack) else ReadableFields(fields, v.slots, 0)
  }

  ghost predicate ReadableFields(fl: FieldList, ss: Slots, slack: int)
    requires FitsFields(fl, ss)
    decreases fl, 0
  {
    match fl
    case FEnd => true
    case FCons(kind, t, rest) =>
      && ReadableSlot(kind, t, ss.slot, |EncodeFields(rest, ss.rest)| + slack)
      && ReadableFields(rest, ss.rest, slack)
  }

  ghost predicate ReadableSlot(kind: Kind, t: Template, slot: Slot, slack: int)
    requires FitsSlot(kind, t, slot)
    decreases t, 2
  {
    match slot
    case Absent => true
    case One(v, inf) => Readable(t, v, if kind.ExpOpt? && !inf then 0 else slack)
    case Many(vs, _) => ReadableAll(t, vs, |EncodeAll(t, vs)|)
  }

  /** Each element of a list is read with the length of the whole list. */
  ghost predicate ReadableAll(t: Template, vs: seq<Value>, slen: int)
    requires forall v <- vs :: Fits(t, v)
    decreases t, 1, |vs|
  {
    vs == [] || (Readable(t, vs[0], slen - |Encode(t, vs[0])|) && ReadableAll(t, vs[1..], slen))
  }

  // ---------------------------------------------------------- leading octets

  lemma WrapLeads(form: Form, tag: LowTag, xclass: Class, content: seq<byte>)
    ensures Wrap(form, tag, xclass, content)[0] == (if form.Primitive? then 0 else V_ASN1_CONSTRUCTED) + xclass + tag
  {
  }

  lemma LeadingOctetOfEncode(t: Template, v: Value)
    requires Fits(t, v)
    ensures |Encode(t, v)| >= 2 && Encode(t, v)[0] == LeadingOctet(Plain, t)
  {
    hide Wrap, EncodeFields;
    match t
    case Prim(tag) => WrapLeads(FormOf(t), tag, V_ASN1_UNIVERSAL, v.octets);
    case Sequence(fields) => WrapLeads(OuterForm(v.inf), V_ASN1_SEQUENCE, V_ASN1_UNIVERSAL, EncodeFields(fields, v.slots));
  }

  lemma LeadingOctetOfSlot(kind: Kind, t: Template, slot: Slot)
    requires FitsSlot(kind, t, slot) && EncodeSlot(kind, t, slot) != []
    ensures EncodeSlot(kind, t, slot)[0] == LeadingOctet(kind, t)
    ensures Matches(kind, t, LeadingOctet(kind, t))
  {
    hide Encode, Wrap, EncodeAll;
    match slot
    case One(v, inf) =>
      LeadingOctetOfEncode(t, v);
      if kind.ExpOpt? { WrapLeads(OuterForm(inf), kind.tag, V_ASN1_CONTEXT_SPECIFIC, Encode(t, v)); }
    case Many(vs, inf) =>
      var list := Wrap(Constructed, V_ASN1_SEQUENCE, V_ASN1_UNIVERSAL, EncodeAll(t, vs));
      WrapLeads(Constructed, V_ASN1_SEQUENCE, V_ASN1_UNIVERSAL, EncodeAll(t, vs));
      if kind.ImpSeqOfOpt? { WrapLeads(Constructed, kind.tag, V_ASN1_CONTEXT_SPECIFIC, EncodeAll(t, vs)); }
      if kind.ExpSeqOfOpt? { WrapLeads(OuterForm(inf), kind.tag, V_ASN1_CONTEXT_SPECIFIC, list); }
  }

  lemma OnlyOptionalIsEmpty(kind: Kind, t: Template, slot: Slot)
    requires FitsSlot(kind, t, slot) && EncodeSlot(kind, t, slot) == []
    ensures kind.Optional() && CanonSlot(kind, t, slot) == Absent
  {
    if slot.One? { LeadingOctetOfEncode(t, slot.v); }
  }

  /** What an absent optional field sees next does not match it. */
  lemma {:induction false} NextOctetDiffers(kind: Kind, t: Template, fl: FieldList, ss: Slots)
    requires FitsFields(fl, ss) && NotFirst(kind, t, fl) && EncodeFields(fl, ss) != []
    ensures !Matches(kind, t, EncodeFields(fl, ss)[0])
    decreases fl
  {
    if EncodeSlot(fl.kind, fl.t, ss.slot) != [] {
      LeadingOctetOfSlot(fl.kind, fl.t, ss.slot);
    } else {
      OnlyOptionalIsEmpty(fl.kind, fl.t, ss.slot);
      NextOctetDiffers(kind, t, fl.rest, ss.rest);
    }
  }

  lemma EndOfContentsDiffers(kind: Kind, t: Template)
    requires WellFormed(t) && kind.Optional()
    ensures !Matches(kind, t, 0)
  {
  }

  // ---------------------------------------------------- one reader step each

  lemma FieldsStep(fl: FieldList, s: seq<byte>, slen: int, n: nat, slot: Slot, m: nat, slots: Slots)
    requires fl.FCons? && DecodeSlot(fl.kind, fl.t, s, slen) == Decoded(n, slot)
    requires n <= |s| && DecodeFields(fl.rest, s[n..], slen - n) == Decoded(m, slots)
    ensures DecodeFields(fl, s, slen) == Decoded(n + m, SCons(slot, slots))
  {
  }

  lemma ElementsStep(t: Template, s: seq<byte>, left: int, slen: int, n: nat, v: Value, m: nat, vs: seq<Value>)
    requires left > 0 && slen > 0 && Decode(t, s, slen) == Decoded(n, v)
    requires n <= |s| && DecodeElements(t, s[n..], left - n, slen, false) == Decoded(m, vs)
    ensures DecodeElements(t, s, left, slen, false) == Decoded(n + m, [v] + vs)
  {
    hide Decode;
  }

  lemma RecordStep(fields: FieldList, s: seq<byte>, length: int, n: nat, c: Frame, m: nat, slots: Slots, k: nat)
    requires GetSequence(s, length) == Decoded(n, c)
    requires n + m <= |s| && DecodeFields(fields, s[n..], c.slen) == Decoded(m, slots)
    requires Finish(s[n + m..], c.(slen := c.slen - m)) == Decoded(k, ())
    ensures Decode(Sequence(fields), s, length) == Decoded(n + m + k, Record(slots, false))
  {
    hide GetSequence, Finish, DecodeFields;
    assert s[n..][m..] == s[n + m..];
    assert DecodeBody(fields, s[n..], c) == Decoded(m + k, slots);
  }

  lemma ListStep(t: Template, s: seq<byte>, length: int, tag: LowTag, xclass: Class, n: nat, o: Object, m: nat, vs: seq<Value>)
    requires length > 0 && GetObject(s, length) == Scanned(n, o) && n <= |s|
    requires !o.tooLong && o.xclass == xclass && o.tag == tag && !o.inf
    requires DecodeElements(t, s[n..], o.len, o.len, false) == Decoded(m, vs)
    ensures DecodeSet(t, s, length, tag, xclass) == Decoded(n + m, Many(vs, false))
  {
    hide GetObject, DecodeElements;
    assert SetHeader(s, length, tag, xclass) == Decoded(n, Frame(o.len, false, false));
  }

  lemma OneStep(t: Template, s: seq<byte>, slen: int, n: nat, v: Value)
    requires Decode(t, s, slen) == Decoded(n, v)
    ensures DecodeOne(t, s, slen) == Decoded(n, One(v, false))
  {
  }

  lemma ExplicitStep(kind: Kind, t: Template, s: seq<byte>, slen: int, n: nat, c: Frame, m: nat, slot: Slot, k: nat)
    requires WrapperHeader(s, slen) == Decoded(n, c) && n + m <= |s|
    requires DecodeInside(kind, t, s[n..], c.slen) == Decoded(m, slot)
    requires WrapperEnd(s[n + m..], slen - (n + m), c.indefinite) == Decoded(k, ())
    ensures DecodeExplicit(kind, t, s, slen) == Decoded(n + m + k, slot)
  {
    hide WrapperHeader, WrapperEnd, DecodeInside;
  }

  lemma SlotStep(kind: Kind, t: Template, s: seq<byte>, slen: int)
    requires slen != 0 && |s| > 0 && Matches(kind, t, s[0])
    ensures DecodeSlot(kind, t, s, slen) == DecodePresent(kind, t, s, slen)
  {
  }

  // --------------------------------------------------- one writer step each

  lemma ElementsCons(t: Template, vs: seq<Value>, slen: int)
    requires (forall v <- vs :: Fits(t, v)) && vs != []
    ensures Fits(t, vs[0]) && forall v <- vs[1..] :: Fits(t, v)
    ensures EncodeAll(t, vs) == Encode(t, vs[0]) + EncodeAll(t, vs[1..]) && |Encode(t, vs[0])| >= 2
    ensures CanonAll(t, vs) == [Canon(t, vs[0])] + CanonAll(t, vs[1..])
    ensures ReadableAll(t, vs, slen) <==> Readable(t, vs[0], slen - |Encode(t, vs[0])|) && ReadableAll(t, vs[1..], slen)
  {
  }

  lemma FieldsCons(fl: FieldList, ss: Slots, slack: int)
    requires FitsFields(fl, ss) && fl.FCons?
    ensures ss.SCons? && FitsSlot(fl.kind, fl.t, ss.slot) && FitsFields(fl.rest, ss.rest)
    ensures EncodeFields(fl, ss) == EncodeSlot(fl.kind, fl.t, ss.slot) + EncodeFields(fl.rest, ss.rest)
    ensures CanonFields(fl, ss) == SCons(CanonSlot(fl.kind, fl.t, ss.slot), CanonFields(fl.rest, ss.rest))
    ensures ReadableFields(fl, ss, slack) <==>
              ReadableSlot(fl.kind, fl.t, ss.slot, |EncodeFields(fl.rest, ss.rest)| + slack) && ReadableFields(fl.rest, ss.rest, slack)
    ensures WellFormedFields(fl) ==>
              WellFormed(fl.t) && WellFormedFields(fl.rest) && (fl.kind.Optional() ==> NotFirst(fl.kind, fl.t, fl.rest))
  {
  }

  lemma AfterPrefix<T>(a: seq<T>, b: seq<T>, c: seq<T>)
    ensures (a + b) + c == a + (b + c) && (a + (b + c))[|a|..] == b + c && (b + c)[|b|..] == c
    ensures (a + (b + c))[|a| + |b|..] == c
  {
  }

  // ------------------------------------------------------------- round trip

  /** Reading the header of a wrapped content. */
  lemma WrapHeader(form: Form, tag: LowTag, xclass: Class, content: seq<byte>, rest: seq<byte>, slack: nat)
    requires |content| <= INT_MAX
    ensures var w, mark := Wrap(form, tag, xclass, content), if form.IndefiniteForm? then [0, 0] else [];
            var n := |PutObject(form, |content|, tag, xclass)|;
            && GetObject(w + rest, |w| + slack) == Scanned(n, HeaderOf(form, |content|, tag, xclass))
            && (w + rest)[n..] == content + (mark + rest)
            && (w + rest)[n + |content|..] == mark + rest
            && |w| == n + |content| + |mark|
            && 2 <= n && (form.IndefiniteForm? ==> n == 2)
  {
    hide GetObject, GetTag, GetLength, PutObject, Wrap;
    var h, mark := PutObject(form, |content|, tag, xclass), if form.IndefiniteForm? then [0, 0] else [];
    WrapParts(form, tag, xclass, content, mark);
    AfterPrefix(h, content, mark);
    AfterPrefix(content, mark, rest);
    AfterPrefix(h, content + mark, rest);
    AfterPrefix(h, content, mark + rest);
    HeaderRoundTrip(form, |content|, tag, xclass, content + (mark + rest), |h| + |content| + |mark| + slack);
  }

  lemma WrapParts(form: Form, tag: LowTag, xclass: Class, content: seq<byte>, mark: seq<byte>)
    requires mark == if form.IndefiniteForm? then [0, 0] else []
    ensures var h := PutObject(form, |content|, tag, xclass);
            Wrap(form, tag, xclass, content) == h + content + mark && 2 <= |h| && (form.IndefiniteForm? ==> |h| == 2)
  {
  }

  /** d2i undoes i2d: for every template whose fields can be told apart and every
      object of its shape, whatever octets follow and however much of them the
      given length covers, reading what was written returns the object and stops
      exactly at its end. */
  lemma {:induction false} ReadBack(t: Template, v: Value, rest: seq<byte>, slack: nat)
    requires WellFormed(t) && Fits(t, v) && |Encode(t, v)| <= INT_MAX && Readable(t, v, slack)
    ensures Decode(t, Encode(t, v) + rest, |Encode(t, v)| + slack) == Decoded(|Encode(t, v)|, Canon(t, v))
    decreases t, 0
  {
    hide DecodePrim, GetSequence, DecodeFields, Finish, Wrap, EncodeFields, CanonFields, ReadableFields, WellFormedFields, FitsFields;
    match t
    case Prim(tag) =>
      WrapLength(Primitive, tag, V_ASN1_UNIVERSAL, v.octets);
      ReadBackPrim(tag, v.octets, rest, slack);
    case Sequence(fields) =>
      WrapLength(OuterForm(v.inf), V_ASN1_SEQUENCE, V_ASN1_UNIVERSAL, EncodeFields(fields, v.slots));
      ReadBackRecord(fields, v, rest, slack);
  }

  lemma ReadBackPrim(tag: LowTag, octets: seq<byte>, rest: seq<byte>, slack: nat)
    requires |octets| <= INT_MAX
    ensures var w := Wrap(Primitive, tag, V_ASN1_UNIVERSAL, octets);
            DecodePrim(tag, w + rest, |w| + slack) == Decoded(|w|, Octets(octets))
  {
    WrapHeader(Primitive, tag, V_ASN1_UNIVERSAL, octets, rest, slack);
    var w := Wrap(Primitive, tag, V_ASN1_UNIVERSAL, octets);
    var n := |PutObject(Primitive, |octets|, tag, V_ASN1_UNIVERSAL)|;
    assert (w + rest)[n..n + |octets|] == (w + rest)[n..][..|octets|] == octets;
  }

  lemma RecordHeader(inf: bool, content: seq<byte>, rest: seq<byte>, slack: nat)
    requires |content| <= INT_MAX
    ensures var w := Wrap(OuterForm(inf), V_ASN1_SEQUENCE, V_ASN1_UNIVERSAL, content);
            var n := |PutObject(OuterForm(inf), |content|, V_ASN1_SEQUENCE, V_ASN1_UNIVERSAL)|;
            GetSequence(w + rest, |w| + slack) == Decoded(n, Frame(|content| + (if inf then slack else 0), inf, inf))
  {
    WrapHeader(OuterForm(inf), V_ASN1_SEQUENCE, V_ASN1_UNIVERSAL, content, rest, slack);
  }

  lemma FinishRecord(inf: bool, rest: seq<byte>, slack: nat)
    requires inf ==> slack >= 2
    ensures Finish((if inf then [0, 0] else []) + rest, Frame(if inf then slack else 0, inf, inf)) == Decoded(if inf then 2 else 0, ())
  {
  }

  /** A record read up to the end of its last field. */
  lemma {:induction false} ReadBackBody(fields: FieldList, slots: Slots, inf: bool, rest: seq<byte>, slack: nat)
    requires WellFormedFields(fields) && FitsFields(fields, slots)
    requires ReadableFields(fields, slots, if inf then slack else 0) && |EncodeFields(fields, slots)| <= INT_MAX
    ensures var content, mark := EncodeFields(fields, slots), if inf then [0, 0] else [];
            var w := Wrap(OuterForm(inf), V_ASN1_SEQUENCE, V_ASN1_UNIVERSAL, content);
            var c := Frame(|content| + (if inf then slack else 0), inf, inf);
            && |w| >= |content| + |mark|
            && var n := |w| - |content| - |mark|;
            && GetSequence(w + rest, |w| + slack) == Decoded(n, c)
            && DecodeFields(fields, (w + rest)[n..], c.slen) == Decoded(|content|, CanonFields(fields, slots))
            && (w + rest)[n + |content|..] == mark + rest
    decreases fields, 2
  {
    hide *;
    var content, form := EncodeFields(fields, slots), OuterForm(inf);
    var mark, over := if inf then [0, 0] else [], if inf then slack else 0;
    OuterFormIs(inf);
    WrapHeader(form, V_ASN1_SEQUENCE, V_ASN1_UNIVERSAL, content, rest, slack);
    RecordHeader(inf, content, rest, slack);
    ReadBackFields(fields, slots, mark + rest, over);
  }

  lemma OuterFormIs(inf: bool)
    ensures OuterForm(inf).IndefiniteForm? <==> inf
    ensures OuterForm(true) == IndefiniteForm
  {
  }

  lemma {:induction false} ReadBackRecord(fields: FieldList, v: Value, rest: seq<byte>, slack: nat)
    requires WellFormedFields(fields) && v.Record? && FitsFields(fields, v.slots)
    requires ReadableFields(fields, v.slots, if v.inf then slack else 0) && (v.inf ==> slack >= 2)
    requires |EncodeFields(fields, v.slots)| <= INT_MAX
    ensures var w := Wrap(OuterForm(v.inf), V_ASN1_SEQUENCE, V_ASN1_UNIVERSAL, EncodeFields(fields, v.slots));
            Decode(Sequence(fields), w + rest, |w| + slack) == Decoded(|w|, Record(CanonFields(fields, v.slots), false))
    decreases fields, 3
  {
    hide *;
    var content := EncodeFields(fields, v.slots);
    var w := Wrap(OuterForm(v.inf), V_ASN1_SEQUENCE, V_ASN1_UNIVERSAL, content);
    ReadBackBody(fields, v.slots, v.inf, rest, slack);
    FinishRecord(v.inf, rest, slack);
    var mark, over := if v.inf then 2 else 0, if v.inf then slack else 0;
    RecordStep(fields, w + rest, |w| + slack, |w| - |content| - mark, Frame(|content| + over, v.inf, v.inf), |content|, CanonFields(fields, v.slots), mark);
  }

  lemma WrapLength(form: Form, tag: LowTag, xclass: Class, content: seq<byte>)
    ensures |content| < |Wrap(form, tag, xclass, content)|
  {
  }

  /** The fields of a record, then either nothing the reader may look at or an
      end-of-contents octet. */
  lemma {:induction false} ReadBackFields(fl: FieldList, ss: Slots, rest: seq<byte>, slack: nat)
    requires WellFormedFields(fl) && FitsFields(fl, ss) && |EncodeFields(fl, ss)| <= INT_MAX
    requires ReadableFields(fl, ss, slack)
    requires slack > 0 ==> |rest| > 0 && rest[0] == 0
    ensures DecodeFields(fl, EncodeFields(fl, ss) + rest, |EncodeFields(fl, ss)| + slack)
            == Decoded(|EncodeFields(fl, ss)|, CanonFields(fl, ss))
    decreases fl, 1
  {
    if fl.FCons? { ReadBackFieldsCons(fl, ss, rest, slack); }
  }

  lemma {:induction false} ReadBackFieldsCons(fl: FieldList, ss: Slots, rest: seq<byte>, slack: nat)
    requires WellFormedFields(fl) && FitsFields(fl, ss) && |EncodeFields(fl, ss)| <= INT_MAX && fl.FCons?
    requires ReadableFields(fl, ss, slack)
    requires slack > 0 ==> |rest| > 0 && rest[0] == 0
    ensures DecodeFields(fl, EncodeFields(fl, ss) + rest, |EncodeFields(fl, ss)| + slack)
            == Decoded(|EncodeFields(fl, ss)|, CanonFields(fl, ss))
    decreases fl, 0
  {
    hide *;
    FieldsCons(fl, ss, slack);
    var e, tail := EncodeSlot(fl.kind, fl.t, ss.slot), EncodeFields(fl.rest, ss.rest);
    AfterPrefix(e, tail, rest);
    if e == [] {
      AbsentSlot(fl.kind, fl.t, ss.slot, fl.rest, ss.rest, rest, slack);
      assert e + (tail + rest) == tail + rest;
    } else {
      ReadBackSlot(fl.kind, fl.t, ss.slot, tail + rest, |tail| + slack);
    }
    ReadBackFields(fl.rest, ss.rest, rest, slack);
    FieldsStep(fl, e + (tail + rest), |e| + |tail| + slack, |e|, CanonSlot(fl.kind, fl.t, ss.slot), |tail|, CanonFields(fl.rest, ss.rest));
  }

  lemma AbsentSlot(kind: Kind, t: Template, slot: Slot, fl: FieldList, ss: Slots, rest: seq<byte>, slack: nat)
    requires WellFormed(t) && FitsSlot(kind, t, slot) && EncodeSlot(kind, t, slot) == []
    requires FitsFields(fl, ss) && (kind.Optional() ==> NotFirst(kind, t, fl))
    requires slack > 0 ==> |rest| > 0 && rest[0] == 0
    ensures DecodeSlot(kind, t, EncodeFields(fl, ss) + rest, |EncodeFields(fl, ss)| + slack) == Decoded(0, CanonSlot(kind, t, slot))
  {
    var tail := EncodeFields(fl, ss);
    OnlyOptionalIsEmpty(kind, t, slot);
    if tail != [] {
      NextOctetDiffers(kind, t, fl, ss);
      assert (tail + rest)[0] == tail[0];
    } else {
      EndOfContentsDiffers(kind, t);
      assert tail + rest == rest;
    }
  }

  /** The tag and class of a list's own header. */
  function ListTag(kind: Kind): LowTag { if kind.ImpSeqOfOpt? then kind.tag else V_ASN1_SEQUENCE }
  function ListClass(kind: Kind): Class { if kind.ImpSeqOfOpt? then V_ASN1_CONTEXT_SPECIFIC else V_ASN1_UNIVERSAL }

  lemma PresentIs(kind: Kind, t: Template, s: seq<byte>, slen: int)
    requires |s| > 0
    ensures kind.Plain? || kind.Opt? ==> DecodePresent(kind, t, s, slen) == DecodeOne(t, s, slen)
    ensures kind.ImpOpt? ==> DecodePresent(kind, t, s, slen) == DecodeOne(t, s[0 := ImplicitOctet(s[0], t)], slen)
    ensures kind.Explicit() ==> DecodePresent(kind, t, s, slen) == DecodeExplicit(kind, t, s, slen)
    ensures kind.List() && !kind.Explicit() ==>
              DecodePresent(kind, t, s, slen) == Nested(DecodeSet(t, s, slen, ListTag(kind), ListClass(kind)))
  {
    hide DecodeOne, DecodeExplicit, DecodeSet;
  }

  lemma SlotContents(kind: Kind, t: Template, slot: Slot, slack: nat)
    requires FitsSlot(kind, t, slot) && EncodeSlot(kind, t, slot) != [] && !kind.Explicit()
    ensures if slot.One? then !kind.List() && Fits(t, slot.v) else slot.Many? && kind.List() && forall v <- slot.vs :: Fits(t, v)
    ensures slot.One? ==> (ReadableSlot(kind, t, slot, slack) <==> Readable(t, slot.v, slack))
    ensures slot.Many? ==> (ReadableSlot(kind, t, slot, slack) <==> ReadableAll(t, slot.vs, |EncodeAll(t, slot.vs)|))
    ensures slot.One? ==> EncodeSlot(kind, t, slot) == if kind.ImpOpt? then Retag(Encode(t, slot.v), kind.tag) else Encode(t, slot.v)
    ensures slot.Many? ==> EncodeSlot(kind, t, slot) == Wrap(Constructed, ListTag(kind), ListClass(kind), EncodeAll(t, slot.vs))
    ensures CanonSlot(kind, t, slot) == if slot.One? then One(Canon(t, slot.v), false) else Many(CanonAll(t, slot.vs), false)
  {
    hide Encode, Wrap, EncodeAll, Canon, CanonAll, Readable, ReadableAll;
  }

  lemma {:induction false} ReadBackSlot(kind: Kind, t: Template, slot: Slot, rest: seq<byte>, slack: nat)
    requires WellFormed(t) && FitsSlot(kind, t, slot) && ReadableSlot(kind, t, slot, slack)
    requires EncodeSlot(kind, t, slot) != [] && |EncodeSlot(kind, t, slot)| <= INT_MAX
    ensures var e := EncodeSlot(kind, t, slot);
            DecodeSlot(kind, t, e + rest, |e| + slack) == Decoded(|e|, CanonSlot(kind, t, slot))
    decreases t, 5
  {
    hide *;
    var e := EncodeSlot(kind, t, slot);
    var s := e + rest;
    LeadingOctetOfSlot(kind, t, slot);
    SlotStep(kind, t, s, |e| + slack);
    PresentIs(kind, t, s, |e| + slack);
    if kind.Explicit() {
      ReadBackExplicit(kind, t, slot, rest, slack);
    } else {
      SlotContents(kind, t, slot, slack);
      if slot.One? {
        var plain := Encode(t, slot.v);
        ReadBack(t, slot.v, rest, slack);
        OneStep(t, plain + rest, |plain| + slack, |plain|, Canon(t, slot.v));
        if kind.ImpOpt? { ImplicitOctetRestoresType(t, slot.v, kind.tag, rest); }
        NotList(kind);
      } else {
        ReadBackList(t, slot.vs, ListTag(kind), ListClass(kind), rest, slack);
        NestedKeeps(DecodeSet(t, s, |e| + slack, ListTag(kind), ListClass(kind)));
      }
    }
  }

  lemma NotList(kind: Kind)
    requires !kind.List() && !kind.Explicit()
    ensures kind.Plain? || kind.Opt? || kind.ImpOpt?
  {
  }

  lemma NestedKeeps<T>(r: Decoded<T>)
    ensures !r.Failed? ==> Nested(r) == r
  {
  }

  /** The identifier get_imp writes back is the one put_IMP_opt overwrote. */
  lemma ImplicitOctetRestoresType(t: Template, v: Value, tag: LowTag, rest: seq<byte>)
    requires Fits(t, v) && |Encode(t, v)| > 0
    ensures |Retag(Encode(t, v), tag)| == |Encode(t, v)|
    ensures var s := Retag(Encode(t, v), tag) + rest; s[0 := ImplicitOctet(s[0], t)] == Encode(t, v) + rest
  {
    LeadingOctetOfEncode(t, v);
    hide Encode;
    var plain := Encode(t, v);
    var s, form := Retag(plain, tag) + rest, FormOf(t);
    IdentifierBits(form, TypeTag(t), V_ASN1_UNIVERSAL, plain[0]);
    IdentifierBits(form, tag, V_ASN1_CONTEXT_SPECIFIC, s[0]);
    assert s[0 := ImplicitOctet(s[0], t)] == plain + rest;
  }

  function Wrapped(kind: Kind, t: Template, slot: Slot): seq<byte>
    requires FitsSlot(kind, t, slot) && !slot.Absent?
  {
    if slot.One? then Encode(t, slot.v) else Wrap(Constructed, V_ASN1_SEQUENCE, V_ASN1_UNIVERSAL, EncodeAll(t, slot.vs))
  }

  lemma ExplicitContents(kind: Kind, t: Template, slot: Slot, slack: nat)
    requires FitsSlot(kind, t, slot) && kind.Explicit() && EncodeSlot(kind, t, slot) != []
    ensures !slot.Absent? && EncodeSlot(kind, t, slot) == Wrap(OuterForm(slot.inf), kind.tag, V_ASN1_CONTEXT_SPECIFIC, Wrapped(kind, t, slot))
    ensures if slot.One? then kind.ExpOpt? else kind.ExpSeqOfOpt?
    ensures slot.One? ==> (ReadableSlot(kind, t, slot, slack) <==> Readable(t, slot.v, if slot.inf then slack else 0))
    ensures slot.Many? ==> (ReadableSlot(kind, t, slot, slack) <==> ReadableAll(t, slot.vs, |EncodeAll(t, slot.vs)|))
    ensures CanonSlot(kind, t, slot) == if slot.One? then One(Canon(t, slot.v), false) else Many(CanonAll(t, slot.vs), false)
    ensures OuterForm(slot.inf).IndefiniteForm? == slot.inf && !OuterForm(slot.inf).Primitive?
  {
  }

  lemma {:induction false} ReadBackExplicit(kind: Kind, t: Template, slot: Slot, rest: seq<byte>, slack: nat)
    requires WellFormed(t) && FitsSlot(kind, t, slot) && ReadableSlot(kind, t, slot, slack) && kind.Explicit()
    requires EncodeSlot(kind, t, slot) != [] && |EncodeSlot(kind, t, slot)| <= INT_MAX
    ensures var e := EncodeSlot(kind, t, slot);
            DecodeExplicit(kind, t, e + rest, |e| + slack) == Decoded(|e|, CanonSlot(kind, t, slot))
    decreases t, 4
  {
    hide *;
    ExplicitContents(kind, t, slot, slack);
    var content, form := Wrapped(kind, t, slot), OuterForm(slot.inf);
    var e := Wrap(form, kind.tag, V_ASN1_CONTEXT_SPECIFIC, content);
    var s, n := e + rest, |PutObject(form, |content|, kind.tag, V_ASN1_CONTEXT_SPECIFIC)|;
    var mark, over := if slot.inf then [0, 0] else [], if slot.inf then slack else 0;
    WrapLength(form, kind.tag, V_ASN1_CONTEXT_SPECIFIC, content);
    WrapHeader(form, kind.tag, V_ASN1_CONTEXT_SPECIFIC, content, rest, slack);
    ReadBackInside(kind, t, slot, mark + rest, over);
    MarkEnds(slot.inf, rest, slack);
    WrapperReads(form, |content|, kind.tag, s, |e| + slack, n);
    ExplicitStep(kind, t, s, |e| + slack, n, Frame(|content| + over, slot.inf, slot.inf), |content|, CanonSlot(kind, t, slot), |mark|);
  }

  lemma WrapperReads(form: Form, length: nat, tag: LowTag, s: seq<byte>, slen: int, n: nat)
    requires !form.Primitive? && GetObject(s, slen) == Scanned(n, HeaderOf(form, length, tag, V_ASN1_CONTEXT_SPECIFIC))
    ensures var inf := form.IndefiniteForm?;
            WrapperHeader(s, slen) == Decoded(n, Frame(if inf then slen - n - 2 else length, inf, inf))
  {
    hide GetObject;
  }

  lemma MarkEnds(inf: bool, rest: seq<byte>, slack: nat)
    ensures var mark := if inf then [0, 0] else [];
            WrapperEnd(mark + rest, |mark| + slack, inf) == Decoded(|mark|, ())
  {
  }

  lemma {:induction false} ReadBackInside(kind: Kind, t: Template, slot: Slot, rest: seq<byte>, slack: nat)
    requires WellFormed(t) && FitsSlot(kind, t, slot) && kind.Explicit() && !slot.Absent?
    requires slot.One? ==> Readable(t, slot.v, slack) && kind.ExpOpt?
    requires slot.Many? ==> ReadableAll(t, slot.vs, |EncodeAll(t, slot.vs)|) && kind.ExpSeqOfOpt?
    requires |Wrapped(kind, t, slot)| <= INT_MAX
    ensures var w := Wrapped(kind, t, slot);
            DecodeInside(kind, t, w + rest, |w| + slack) ==
            Decoded(|w|, if slot.One? then One(Canon(t, slot.v), false) else Many(CanonAll(t, slot.vs), false))
    decreases t, 3
  {
    hide Decode, DecodeSet, GetObject, Wrap, Canon, Readable, Encode, EncodeAll, CanonAll;
    if slot.One? {
      ReadBack(t, slot.v, rest, slack);
      var w := Encode(t, slot.v);
      OneStep(t, w + rest, |w| + slack, |w|, Canon(t, slot.v));
    } else {
      ReadBackList(t, slot.vs, V_ASN1_SEQUENCE, V_ASN1_UNIVERSAL, rest, slack);
    }
  }

  lemma {:induction false} ReadBackList(t: Template, vs: seq<Value>, tag: LowTag, xclass: Class, rest: seq<byte>, slack: nat)
    requires WellFormed(t) && (forall v <- vs :: Fits(t, v))
    requires ReadableAll(t, vs, |EncodeAll(t, vs)|) && |Wrap(Constructed, tag, xclass, EncodeAll(t, vs))| <= INT_MAX
    ensures var w := Wrap(Constructed, tag, xclass, EncodeAll(t, vs));
            DecodeSet(t, w + rest, |w| + slack, tag, xclass) == Decoded(|w|, Many(CanonAll(t, vs), false))
    decreases t, 2
  {
    hide *;
    var content := EncodeAll(t, vs);
    var w, n := Wrap(Constructed, tag, xclass, content), |PutObject(Constructed, |content|, tag, xclass)|;
    WrapLength(Constructed, tag, xclass, content);
    WrapHeader(Constructed, tag, xclass, content, rest, slack);
    assert [] + rest == rest;
    ReadBackElements(t, vs, rest, |content|);
    var o := HeaderOf(Constructed, |content|, tag, xclass);
    ListHeader(|content|, tag, xclass);
    ListStep(t, w + rest, |w| + slack, tag, xclass, n, o, |content|, CanonAll(t, vs));
  }

  lemma ListHeader(length: nat, tag: LowTag, xclass: Class)
    ensures var o := HeaderOf(Constructed, length, tag, xclass);
            !o.tooLong && !o.inf && o.len == length && o.tag == tag && o.xclass == xclass
  {
  }

  /** The elements of a list, each read with the length of the whole list. */
  lemma {:induction false} ReadBackElements(t: Template, vs: seq<Value>, rest: seq<byte>, slen: nat)
    requires WellFormed(t) && (forall v <- vs :: Fits(t, v)) && |EncodeAll(t, vs)| <= INT_MAX
    requires slen >= |EncodeAll(t, vs)| && ReadableAll(t, vs, slen)
    ensures DecodeElements(t, EncodeAll(t, vs) + rest, |EncodeAll(t, vs)|, slen, false)
            == Decoded(|EncodeAll(t, vs)|, CanonAll(t, vs))
    decreases t, 1, |vs|, 1
  {
    if vs != [] { ReadBackElementsCons(t, vs, rest, slen); }
  }

  lemma {:induction false} ReadBackElementsCons(t: Template, vs: seq<Value>, rest: seq<byte>, slen: nat)
    requires WellFormed(t) && (forall v <- vs :: Fits(t, v)) && |EncodeAll(t, vs)| <= INT_MAX && vs != []
    requires slen >= |EncodeAll(t, vs)| && ReadableAll(t, vs, slen)
    ensures DecodeElements(t, EncodeAll(t, vs) + rest, |EncodeAll(t, vs)|, slen, false)
            == Decoded(|EncodeAll(t, vs)|, CanonAll(t, vs))
    decreases t, 1, |vs|, 0
  {
    hide *;
    ElementsCons(t, vs, slen);
    var e, tail := Encode(t, vs[0]), EncodeAll(t, vs[1..]);
    AfterPrefix(e, tail, rest);
    ReadBack(t, vs[0], tail + rest, slen - |e|);
    ReadBackElements(t, vs[1..], rest, slen);
    ElementsStep(t, e + (tail + rest), |e| + |tail|, slen, |e|, Canon(t, vs[0]), |tail|, CanonAll(t, vs[1..]));
  }

  // ------------------------------------------------- meaning and length form

  /** No SEQUENCE is indefinite; EXPLICIT wrappers may be. */
  ghost predicate DefiniteSequences(v: Value)
  {
    v.Record? ==> !v.inf && DefiniteSlots(v.slots)
  }

  ghost predicate DefiniteSlots(ss: Slots)
  {
    match ss
    case SEnd => true
    case SCons(slot, rest) =>
      && DefiniteSlots(rest)
      && match slot
         case Absent => true
         case One(v, _) => DefiniteSequences(v)
         case Many(vs, _) => forall v <- vs :: DefiniteSequences(v)
  }

  /** Objects without an indefinite SEQUENCE are readable whatever follows. */
  lemma {:induction false} DefiniteIsReadable(t: Template, v: Value, slack: int)
    requires Fits(t, v) && DefiniteSequences(v)
    ensures Readable(t, v, slack)
    decreases t, 0
  {
    if t.Sequence? { DefiniteFieldsReadable(t.fields, v.slots, 0); }
  }

  lemma {:induction false} DefiniteFieldsReadable(fl: FieldList, ss: Slots, slack: int)
    requires FitsFields(fl, ss) && DefiniteSlots(ss)
    ensures ReadableFields(fl, ss, slack)
    decreases fl, 0
  {
    if fl.FCons? {
      var room := |EncodeFields(fl.rest, ss.rest)| + slack;
      match ss.slot {
        case Absent =>
        case One(v, inf) => DefiniteIsReadable(fl.t, v, if fl.kind.ExpOpt? && !inf then 0 else room);
        case Many(vs, _) => DefiniteElementsReadable(fl.t, vs, |EncodeAll(fl.t, vs)|);
      }
      DefiniteFieldsReadable(fl.rest, ss.rest, slack);
    }
  }

  lemma {:induction false} DefiniteElementsReadable(t: Template, vs: seq<Value>, slen: int)
    requires (forall v <- vs :: Fits(t, v)) && forall v <- vs :: DefiniteSequences(v)
    ensures ReadableAll(t, vs, slen)
    decreases t, 1, |vs|
  {
    if vs != [] {
      DefiniteIsReadable(t, vs[0], slen - |Encode(t, vs[0])|);
      DefiniteElementsReadable(t, vs[1..], slen);
    }
  }

  /** Two objects that differ only in the length forms asked of the writer, each
      with the room its indefinite SEQUENCEs need, read back as the same object,
      each stopping just after its own last octet. */
  lemma LengthFormDoesNotMatter(t: Template, v: Value, w: Value, rest: seq<byte>, slack: nat)
    requires WellFormed(t) && Fits(t, v) && Fits(t, w) && Canon(t, v) == Canon(t, w)
    requires |Encode(t, v)| <= INT_MAX && |Encode(t, w)| <= INT_MAX && Readable(t, v, slack) && Readable(t, w, slack)
    ensures var a, b := Decode(t, Encode(t, v) + rest, |Encode(t, v)| + slack), Decode(t, Encode(t, w) + rest, |Encode(t, w)| + slack);
            && a.Decoded? && b.Decoded? && a.value == b.value
            && (Encode(t, v) + rest)[a.n..] == rest == (Encode(t, w) + rest)[b.n..]
  {
    hide Decode, Encode, Readable, Canon;
    ReadBack(t, v, rest, slack);
    ReadBack(t, w, rest, slack);
  }

  /** Where reading an indefinite SEQUENCE stops, for every amount of extra length:
      it ends just after the end-of-contents octets exactly when two more octets
      are covered; with none it stops in front of them, with one it fails. */
  lemma IndefiniteEnd(fields: FieldList, slots: Slots, rest: seq<byte>, slack: nat)
    requires WellFormedFields(fields) && FitsFields(fields, slots) && ReadableFields(fields, slots, slack)
    requires |EncodeFields(fields, slots)| <= INT_MAX
    ensures var t, v := Sequence(fields), Record(slots, true);
            var e := Encode(t, v);
            Decode(t, e + rest, |e| + slack) ==
              (if slack == 1 then Failed(MissingEos)
               else Decoded(if slack == 0 then |e| - 2 else |e|, Canon(t, v)))
  {
    hide *;
    IndefiniteParts(fields, slots);
    IndefiniteOutcome(fields, slots, rest, slack);
  }

  lemma IndefiniteOutcome(fields: FieldList, slots: Slots, rest: seq<byte>, slack: nat)
    requires WellFormedFields(fields) && FitsFields(fields, slots) && ReadableFields(fields, slots, slack)
    requires |EncodeFields(fields, slots)| <= INT_MAX
    ensures var w := Wrap(IndefiniteForm, V_ASN1_SEQUENCE, V_ASN1_UNIVERSAL, EncodeFields(fields, slots));
            && |w| >= 2
            && Decode(Sequence(fields), w + rest, |w| + slack) ==
                 (if slack == 1 then Failed(MissingEos)
                  else Decoded(if slack == 0 then |w| - 2 else |w|, Record(CanonFields(fields, slots), false)))
  {
    hide *;
    OuterFormIs(true);
    var content := EncodeFields(fields, slots);
    var w := Wrap(IndefiniteForm, V_ASN1_SEQUENCE, V_ASN1_UNIVERSAL, content);
    ReadBackBody(fields, slots, true, rest, slack);
    FinishIndefinite(rest, slack);
    var n, c := |w| - |content| - 2, Frame(|content| + slack, true, true);
    if slack == 1 {
      RecordFails(fields, w + rest, |w| + slack, n, c, |content|, CanonFields(fields, slots), MissingEos);
    } else {
      RecordStep(fields, w + rest, |w| + slack, n, c, |content|, CanonFields(fields, slots), if slack == 0 then 0 else 2);
    }
  }

  lemma IndefiniteParts(fields: FieldList, slots: Slots)
    requires FitsFields(fields, slots)
    ensures var t, v := Sequence(fields), Record(slots, true);
            && Encode(t, v) == Wrap(IndefiniteForm, V_ASN1_SEQUENCE, V_ASN1_UNIVERSAL, EncodeFields(fields, slots))
            && Canon(t, v) == Record(CanonFields(fields, slots), false)
    ensures Fits(Sequence(fields), Record(slots, true))
  {
  }

  lemma RecordFails(fields: FieldList, s: seq<byte>, length: int, n: nat, c: Frame, m: nat, slots: Slots, e: Error)
    requires GetSequence(s, length) == Decoded(n, c)
    requires n + m <= |s| && DecodeFields(fields, s[n..], c.slen) == Decoded(m, slots)
    requires Finish(s[n + m..], c.(slen := c.slen - m)) == Failed(e)
    ensures Decode(Sequence(fields), s, length) == Failed(e)
  {
    hide GetSequence, Finish, DecodeFields;
    assert s[n..][m..] == s[n + m..];
    assert DecodeBody(fields, s[n..], c) == Failed(e);
  }

  lemma FinishIndefinite(rest: seq<byte>, slack: nat)
    ensures Finish([0, 0] + rest, Frame(slack, true, true)) ==
            if slack == 1 then Failed(MissingEos) else Decoded(if slack == 0 then 0 else 2, ())
  {
  }
}

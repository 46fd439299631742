/** Where the reading cursor can go on arbitrary octets: what each read uses of the length
    it is given, when it touches no other octets, and the inputs on which it does. */
module Asn1Cursor {
  import opened Asn1Header
  import opened Asn1Template
  import opened Asn1RoundTrip
  import opened Asn1Extent
  import opened Options

  function Positive(n: int): nat { if n > 0 then n else 0 }

  // ------------------------------------------------------------ one d2i function

  /** Whatever the octets are, a SEQUENCE that is read has used at most the length it was
      given, and if it is definite exactly what its header says: M_ASN1_D2I_Finish makes up
      for what the fields let pass. A string has exactly when the end X.690 gives it lies
      inside that length. */
  lemma StaysInside(t: Template, s: seq<byte>, length: int)
    requires Decode(t, s, length).Decoded?
    ensures t.Sequence? ==> Decode(t, s, length).n <= length
    ensures t.Sequence? && !GetSequence(s, length).value.inf ==>
              Decode(t, s, length).n == GetSequence(s, length).n + GetSequence(s, length).value.slen
    ensures t.Prim? ==> (Decode(t, s, length).n <= length <==> ElementEnd(s, length).Some?)
  {
    hide ElementEnd, DecodePrim;
    if t.Sequence? {
      var g := GetSequence(s, length);
      var f := DecodeFields(t.fields, s[g.n..], g.value.slen);
      FinishStaysInside(s[g.n..][f.n..], g.value.(slen := g.value.slen - f.n));
    } else {
      StringStaysInside(t.tag, s, length);
    }
  }

  lemma FinishStaysInside(s: seq<byte>, c: Frame)
    requires Finish(s, c).Decoded?
    ensures c.slen >= 0 && Finish(s, c).n <= c.slen
    ensures !c.inf ==> c.slen == 0
  {
  }

  /** The octets an element that is read uses: by its header alone when it is definite, to
      the end mark X.690 gives it for an indefinite string that ends inside the length it is
      offered. What an indefinite SEQUENCE uses depends on its fields, and a string that ends
      behind that length on what the reader takes for its end. */
  ghost function Extent(t: Template, s: seq<byte>, length: int): int
  {
    var h := GetObject(s, length);
    if h.Scanned? && !h.value.Indefinite() then h.n + h.value.len
    else if t.Prim? && ElementEnd(s, length).Some? then ElementEnd(s, length).value
    else if Decode(t, s, length).Decoded? then Decode(t, s, length).n
    else 0
  }

  lemma ExtentIs(t: Template, s: seq<byte>, length: int)
    requires Decode(t, s, length).Decoded?
    ensures Extent(t, s, length) == Decode(t, s, length).n
  {
    hide GetObject, DecodeFields, Collate, ElementEnd;
    if t.Prim? {
      StringStaysInside(t.tag, s, length);
      var h := GetObject(s, length);
      if h.value.constructed && !h.value.inf { DefiniteCollate(t.tag, s[h.n..], length, h.value.len, EMPTY_BUFFER); }
    } else {
      if GetObject(s, length).value.inf { InfHasNoLength(s, length); }
      var g := GetSequence(s, length);
      var f := DecodeFields(t.fields, s[g.n..], g.value.slen);
      FinishStaysInside(s[g.n..][f.n..], g.value.(slen := g.value.slen - f.n));
      assert Decode(t, s, length).n == g.n + DecodeBody(t.fields, s[g.n..], g.value).n;
    }
  }

  lemma InfHasNoLength(s: seq<byte>, length: int)
    requires GetObject(s, length).Scanned? && GetObject(s, length).value.inf
    ensures GetObject(s, length).value.len == 0
  {
    hide GetTag, LengthLoop;
  }

  // ---------------------------------------------------------------------- lists

  /** Every element of a list ends by `bound`, and so does the end mark if there is one;
      `left` is what is left of the list where the element starts. */
  ghost predicate ElementsFit(t: Template, s: seq<byte>, left: int, slen: int, inf: bool, bound: int)
    decreases |s|
  {
    left > 0 && (inf || slen > 0) ==>
      if inf && CheckInfiniteEnd(s, slen) != Scanned(0, false) then
        CheckInfiniteEnd(s, slen).Scanned? ==> CheckInfiniteEnd(s, slen).n <= bound
      else
        var e := Extent(t, s, slen);
        e <= bound && (2 <= e <= |s| ==> ElementsFit(t, s[e..], left - e, slen, inf, bound - e))
  }

  /** The loop of d2i_ASN1_SET ends by `bound` exactly when every element it reads does. */
  lemma {:induction false} ElementsStayInside(t: Template, s: seq<byte>, left: int, slen: int, inf: bool, bound: int)
    requires DecodeElements(t, s, left, slen, inf).Decoded? && bound >= 0
    ensures DecodeElements(t, s, left, slen, inf).n <= bound <==> ElementsFit(t, s, left, slen, inf, bound)
    decreases |s|, 1
  {
    hide Decode, Extent, CheckInfiniteEnd;
    if left > 0 && GoesOn(s, slen, inf) { OneMoreElement(t, s, left, slen, inf, bound); }
  }

  /** The loop does not stop here. */
  predicate GoesOn(s: seq<byte>, slen: int, inf: bool)
  {
    if inf then CheckInfiniteEnd(s, slen) == Scanned(0, false) else slen > 0
  }

  lemma {:induction false} OneMoreElement(t: Template, s: seq<byte>, left: int, slen: int, inf: bool, bound: int)
    requires DecodeElements(t, s, left, slen, inf).Decoded? && bound >= 0 && left > 0 && GoesOn(s, slen, inf)
    ensures DecodeElements(t, s, left, slen, inf).n <= bound <==> ElementsFit(t, s, left, slen, inf, bound)
    decreases |s|, 0
  {
    hide *;
    ElementAndRest(t, s, left, slen, inf);
    FitAndRest(t, s, left, slen, inf, bound);
    ExtentIs(t, s, slen);
    var e := Decode(t, s, slen).n;
    if e <= bound { ElementsStayInside(t, s[e..], left - e, slen, inf, bound - e); }
  }

  lemma ElementAndRest(t: Template, s: seq<byte>, left: int, slen: int, inf: bool)
    requires DecodeElements(t, s, left, slen, inf).Decoded? && left > 0 && GoesOn(s, slen, inf)
    ensures
      var d := Decode(t, s, slen);
      && d.Decoded? && 2 <= d.n <= |s|
      && var rest := DecodeElements(t, s[d.n..], left - d.n, slen, inf);
      && rest.Decoded? && DecodeElements(t, s, left, slen, inf).n == d.n + rest.n
  {
    hide Decode, CheckInfiniteEnd;
  }

  lemma FitAndRest(t: Template, s: seq<byte>, left: int, slen: int, inf: bool, bound: int)
    requires left > 0 && GoesOn(s, slen, inf)
    ensures
      var e := Extent(t, s, slen);
      ElementsFit(t, s, left, slen, inf, bound) <==>
        e <= bound && (2 <= e <= |s| ==> ElementsFit(t, s[e..], left - e, slen, inf, bound - e))
  {
    hide Extent, CheckInfiniteEnd;
  }

  /** A list that is read ends inside the length given exactly when all its elements do,
      and inside its own length exactly when they fit there; its header always does. */
  lemma ListStaysInside(t: Template, s: seq<byte>, length: int, exTag: nat, exClass: Class)
    requires DecodeSet(t, s, length, exTag, exClass).Decoded?
    ensures
      var u, h := DecodeSet(t, s, length, exTag, exClass).n, SetHeader(s, length, exTag, exClass);
      && h.Decoded? && h.n <= |s| && 0 <= h.value.slen && h.n + h.value.slen <= length
      && (u <= length <==> ElementsFit(t, s[h.n..], h.value.slen, h.value.slen, h.value.inf, length - h.n))
      && (u <= h.n + h.value.slen <==> ElementsFit(t, s[h.n..], h.value.slen, h.value.slen, h.value.inf, h.value.slen))
  {
    hide DecodeElements, ElementsFit, SetHeader;
    SetHeaderInside(s, length, exTag, exClass);
    var h := SetHeader(s, length, exTag, exClass);
    ElementsStayInside(t, s[h.n..], h.value.slen, h.value.slen, h.value.inf, length - h.n);
    ElementsStayInside(t, s[h.n..], h.value.slen, h.value.slen, h.value.inf, h.value.slen);
  }

  lemma SetHeaderInside(s: seq<byte>, length: int, exTag: nat, exClass: Class)
    ensures
      var h := SetHeader(s, length, exTag, exClass);
      h.Decoded? ==> 0 <= h.value.slen && h.n + h.value.slen <= length
  {
    hide GetTag, GetLength;
  }

  // --------------------------------------------------------------------- fields

  /** What a field reads ends inside `slen`: any SEQUENCE does, a string where X.690's end of
      it is inside, a list when its elements are, and what is in an EXPLICIT wrapper when it
      ends by the wrapper's own end. */
  ghost predicate SlotFits(kind: Kind, t: Template, s: seq<byte>, slen: int)
  {
    !Absent(kind, t, s, slen) ==>
      match kind
      case Plain => OneFits(t, s, slen)
      case Opt => OneFits(t, s, slen)
      case ImpOpt(_) => OneFits(t, s[0 := ImplicitOctet(s[0], t)], slen)
      case SeqOf => ListFits(t, s, slen, V_ASN1_SEQUENCE, V_ASN1_UNIVERSAL, slen)
      case SeqOfOpt => ListFits(t, s, slen, V_ASN1_SEQUENCE, V_ASN1_UNIVERSAL, slen)
      case ImpSeqOfOpt(tag) => ListFits(t, s, slen, tag, V_ASN1_CONTEXT_SPECIFIC, slen)
      case _ =>
        var h := WrapperHeader(s, slen);
        h.Decoded? ==> InsideFits(kind, t, s[h.n..], h.value.slen, slen - h.n)
  }

  /** An optional field that is not there, or may not be looked for. */
  predicate Absent(kind: Kind, t: Template, s: seq<byte>, slen: int)
  {
    kind.Optional() && (slen == 0 || |s| == 0 || !Matches(kind, t, s[0]))
  }

  ghost predicate OneFits(t: Template, s: seq<byte>, slen: int)
  {
    t.Prim? ==> ElementEnd(s, slen).Some?
  }

  ghost predicate ListFits(t: Template, s: seq<byte>, length: int, exTag: nat, exClass: Class, bound: int)
  {
    var h := SetHeader(s, length, exTag, exClass);
    h.Decoded? ==> ElementsFit(t, s[h.n..], h.value.slen, h.value.slen, h.value.inf, bound - h.n)
  }

  ghost predicate InsideFits(kind: Kind, t: Template, s: seq<byte>, tlen: int, bound: int)
  {
    if kind.ExpSeqOfOpt? then ListFits(t, s, tlen, V_ASN1_SEQUENCE, V_ASN1_UNIVERSAL, bound)
    else t.Prim? ==> Extent(t, s, tlen) <= bound
  }

  lemma ListFitsIs(t: Template, s: seq<byte>, length: int, exTag: nat, exClass: Class, bound: int)
    requires DecodeSet(t, s, length, exTag, exClass).Decoded? && length <= bound
    ensures DecodeSet(t, s, length, exTag, exClass).n <= bound <==> ListFits(t, s, length, exTag, exClass, bound)
  {
    hide DecodeElements, ElementsFit, SetHeader;
    SetHeaderInside(s, length, exTag, exClass);
    var h := SetHeader(s, length, exTag, exClass);
    ElementsStayInside(t, s[h.n..], h.value.slen, h.value.slen, h.value.inf, bound - h.n);
  }

  lemma OneStaysInside(t: Template, s: seq<byte>, slen: int)
    requires DecodeOne(t, s, slen).Decoded?
    ensures DecodeOne(t, s, slen).n <= slen <==> OneFits(t, s, slen)
  {
    hide Decode, ElementEnd;
    StaysInside(t, s, slen);
  }

  lemma WrapperStaysInside(s: seq<byte>, slen: int)
    requires WrapperHeader(s, slen).Decoded?
    ensures var h := WrapperHeader(s, slen);
            h.n + h.value.slen <= slen && (h.value.indefinite ==> h.n + h.value.slen + 2 == slen)
  {
    hide GetTag, GetLength;
  }

  lemma InsideStaysInside(kind: Kind, t: Template, s: seq<byte>, tlen: int, bound: int)
    requires kind.Explicit() && DecodeInside(kind, t, s, tlen).Decoded? && tlen <= bound
    ensures DecodeInside(kind, t, s, tlen).n <= bound <==> InsideFits(kind, t, s, tlen, bound)
  {
    hide Decode, DecodeSet, ListFits, Extent;
    if kind.ExpSeqOfOpt? {
      ListFitsIs(t, s, tlen, V_ASN1_SEQUENCE, V_ASN1_UNIVERSAL, bound);
    } else {
      ExtentIs(t, s, tlen);
      StaysInside(t, s, tlen);
    }
  }

  lemma ExplicitStaysInside(kind: Kind, t: Template, s: seq<byte>, slen: int)
    requires kind.Explicit() && DecodeExplicit(kind, t, s, slen).Decoded?
    ensures
      var h := WrapperHeader(s, slen);
      h.Decoded? && (DecodeExplicit(kind, t, s, slen).n <= slen <==> InsideFits(kind, t, s[h.n..], h.value.slen, slen - h.n))
  {
    hide WrapperHeader, DecodeInside, InsideFits;
    var h := WrapperHeader(s, slen);
    WrapperStaysInside(s, slen);
    InsideStaysInside(kind, t, s[h.n..], h.value.slen, slen - h.n);
  }

  /** Nothing present is read from a length of zero or less. */
  lemma NoLength(kind: Kind, t: Template, s: seq<byte>, slen: int)
    requires slen <= 0 && (kind.Optional() ==> |s| > 0)
    ensures !DecodePresent(kind, t, s, slen).Decoded?
  {
    hide DecodeOne, DecodeSet, DecodeExplicit;
    match kind
    case Plain => NoOne(t, s, slen);
    case Opt => NoOne(t, s, slen);
    case ImpOpt(_) => NoOne(t, s[0 := ImplicitOctet(s[0], t)], slen);
    case SeqOf => NoList(t, s, slen, V_ASN1_SEQUENCE, V_ASN1_UNIVERSAL);
    case SeqOfOpt => NoList(t, s, slen, V_ASN1_SEQUENCE, V_ASN1_UNIVERSAL);
    case ImpSeqOfOpt(tag) => NoList(t, s, slen, tag, V_ASN1_CONTEXT_SPECIFIC);
    case _ => NoWrapper(kind, t, s, slen);
  }

  lemma NoOne(t: Template, s: seq<byte>, slen: int)
    requires slen <= 0
    ensures !DecodeOne(t, s, slen).Decoded?
  {
    hide GetObject;
    NoHeader(s, slen);
  }

  lemma NoList(t: Template, s: seq<byte>, slen: int, exTag: nat, exClass: Class)
    requires slen <= 0
    ensures !DecodeSet(t, s, slen, exTag, exClass).Decoded?
  {
    hide GetObject;
    NoHeader(s, if slen == 0 then -1 else slen);
  }

  lemma NoWrapper(kind: Kind, t: Template, s: seq<byte>, slen: int)
    requires slen <= 0
    ensures !DecodeExplicit(kind, t, s, slen).Decoded?
  {
    hide GetObject;
    NoHeader(s, slen);
  }

  lemma NoHeader(s: seq<byte>, omax: int)
    requires omax <= 0
    ensures !GetObject(s, omax).Scanned?
  {
    hide HighTag;
    HighTagUsesLimit(s, omax);
  }

  lemma HighTagUsesLimit(s: seq<byte>, omax: int)
    requires omax <= 0
    ensures GetTag(s, omax).Scanned? ==> GetTag(s, omax).value.1 < 1
  {
  }

  /** A field that is read uses octets only out of `slen` exactly when what it reads fits. */
  lemma SlotStaysInside(kind: Kind, t: Template, s: seq<byte>, slen: int)
    requires DecodeSlot(kind, t, s, slen).Decoded?
    ensures DecodeSlot(kind, t, s, slen).n <= Positive(slen) <==> SlotFits(kind, t, s, slen)
  {
    hide DecodeOne, DecodeExplicit, DecodeSet, ListFits, InsideFits, WrapperHeader, OneFits;
    if !Absent(kind, t, s, slen) {
      assert DecodeSlot(kind, t, s, slen) == DecodePresent(kind, t, s, slen);
      if slen <= 0 { NoLength(kind, t, s, slen); }
      PresentStaysInside(kind, t, s, slen);
    }
  }

  lemma PresentStaysInside(kind: Kind, t: Template, s: seq<byte>, slen: int)
    requires (kind.Optional() ==> |s| > 0) && DecodePresent(kind, t, s, slen).Decoded? && !Absent(kind, t, s, slen)
    ensures DecodePresent(kind, t, s, slen).n <= slen <==> SlotFits(kind, t, s, slen)
  {
    hide DecodeOne, DecodeExplicit, DecodeSet, ListFits, InsideFits, WrapperHeader, OneFits;
    match kind
    case Plain => OneStaysInside(t, s, slen);
    case Opt => OneStaysInside(t, s, slen);
    case ImpOpt(_) => OneStaysInside(t, s[0 := ImplicitOctet(s[0], t)], slen);
    case SeqOf => ListFitsIs(t, s, slen, V_ASN1_SEQUENCE, V_ASN1_UNIVERSAL, slen);
    case SeqOfOpt => ListFitsIs(t, s, slen, V_ASN1_SEQUENCE, V_ASN1_UNIVERSAL, slen);
    case ImpSeqOfOpt(tag) => ListFitsIs(t, s, slen, tag, V_ASN1_CONTEXT_SPECIFIC, slen);
    case _ => ExplicitStaysInside(kind, t, s, slen);
  }

  /** ... and so do all the fields of a body. */
  ghost predicate FieldsFit(fl: FieldList, s: seq<byte>, slen: int)
    decreases fl
  {
    fl.FCons? ==>
      var head := DecodeSlot(fl.kind, fl.t, s, slen);
      SlotFits(fl.kind, fl.t, s, slen) && (head.Decoded? ==> FieldsFit(fl.rest, s[head.n..], slen - head.n))
  }

  /** `slen` is not negative after the fields, unless it was before, exactly when every
      one of them fits in what was left of it. */
  lemma {:induction false} FieldsStayInside(fl: FieldList, s: seq<byte>, slen: int)
    requires DecodeFields(fl, s, slen).Decoded?
    ensures DecodeFields(fl, s, slen).n <= Positive(slen) <==> FieldsFit(fl, s, slen)
    decreases fl
  {
    hide DecodeSlot, SlotFits;
    if fl.FCons? {
      var head := DecodeSlot(fl.kind, fl.t, s, slen);
      SlotStaysInside(fl.kind, fl.t, s, slen);
      FieldsStayInside(fl.rest, s[head.n..], slen - head.n);
    }
  }

  // ------------------------------------------------------- reads stay inside

  /** After start_sequence `slen` is negative exactly for an indefinite header whose
      own octets are more than half of the length given. */
  lemma StartOfSequence(s: seq<byte>, length: int)
    requires GetSequence(s, length).Decoded?
    ensures var g := GetSequence(s, length);
            g.value.slen < 0 <==> g.value.indefinite && length < 2 * g.n
  {
  }

  /** As many octets as a reader is offered are there. */
  predicate Available(s: seq<byte>, length: int) { 0 <= length <= |s| }

  /** Every length that reading offers, from this call down, is available. */
  ghost predicate Roomy(t: Template, s: seq<byte>, length: int)
    decreases t, 0
  {
    Available(s, length) &&
    match t
    case Prim(tag) => StringRoomy(tag, s, length)
    case Sequence(fields) =>
      var g := GetSequence(s, length);
      g.Decoded? ==> RoomyFields(fields, s[g.n..], g.value.slen)
  }

  ghost predicate StringRoomy(tag: nat, s: seq<byte>, length: int)
    decreases |s|, 0
  {
    Available(s, length) &&
    var h := GetObject(s, length);
    h.Scanned? && h.value.tag == tag && h.value.constructed ==>
      CollateRoomy(tag, s[h.n..], length, h.value.len, h.value.inf, EMPTY_BUFFER)
  }

  ghost predicate CollateRoomy(tag: nat, s: seq<byte>, room: int, slen: int, inf: bool, b: Buffer)
    decreases |s|, 1
  {
    (inf ==> room <= |s|) &&
    ((if inf then CheckInfiniteEnd(s, room) == Scanned(0, false) else slen > 0) ==>
       var d := DecodePrim(tag, s, room);
       StringRoomy(tag, s, room) &&
       (d.Decoded? && Grows(b, b.length + |d.value.octets|) ==>
          CollateRoomy(tag, s[d.n..], room - d.n, if inf then slen else slen - d.n, inf, Grown(b, b.length + |d.value.octets|))))
  }

  ghost predicate RoomyFields(fl: FieldList, s: seq<byte>, slen: int)
    decreases fl, 0
  {
    Available(s, slen) &&
    (fl.FCons? ==>
       var head := DecodeSlot(fl.kind, fl.t, s, slen);
       RoomySlot(fl.kind, fl.t, s, slen) && (head.Decoded? ==> RoomyFields(fl.rest, s[head.n..], slen - head.n)))
  }

  ghost predicate RoomySlot(kind: Kind, t: Template, s: seq<byte>, slen: int)
    decreases t, 4
  {
    !Absent(kind, t, s, slen) ==>
      match kind
      case Plain => Roomy(t, s, slen)
      case Opt => Roomy(t, s, slen)
      case ImpOpt(_) => Roomy(t, s[0 := ImplicitOctet(s[0], t)], slen)
      case SeqOf => RoomyList(t, s, slen, V_ASN1_SEQUENCE, V_ASN1_UNIVERSAL)
      case SeqOfOpt => RoomyList(t, s, slen, V_ASN1_SEQUENCE, V_ASN1_UNIVERSAL)
      case ImpSeqOfOpt(tag) => RoomyList(t, s, slen, tag, V_ASN1_CONTEXT_SPECIFIC)
      case _ =>
        var h := WrapperHeader(s, slen);
        Available(s, slen) && (h.Decoded? ==> RoomyInside(kind, t, s[h.n..], h.value.slen))
  }

  ghost predicate RoomyInside(kind: Kind, t: Template, s: seq<byte>, tlen: int)
    decreases t, 3
  {
    if kind.ExpSeqOfOpt? then RoomyList(t, s, tlen, V_ASN1_SEQUENCE, V_ASN1_UNIVERSAL) else Roomy(t, s, tlen)
  }

  /** d2i_ASN1_SET reads a header even when it is offered nothing. */
  ghost predicate RoomyList(t: Template, s: seq<byte>, length: int, exTag: nat, exClass: Class)
    decreases t, 2
  {
    0 < length <= |s| &&
    var h := SetHeader(s, length, exTag, exClass);
    h.Decoded? ==> RoomyElements(t, s[h.n..], h.value.slen, h.value.slen, h.value.inf)
  }

  ghost predicate RoomyElements(t: Template, s: seq<byte>, left: int, slen: int, inf: bool)
    decreases t, 1, |s|
  {
    left > 0 ==>
      && (inf ==> slen <= |s|)
      && ((if inf then CheckInfiniteEnd(s, slen) == Scanned(0, false) else slen > 0) ==>
            var d := Decode(t, s, slen);
            Roomy(t, s, slen) && (d.Decoded? ==> RoomyElements(t, s[d.n..], left - d.n, slen, inf)))
  }

  lemma {:induction false} HighTagInside(s: seq<byte>, max: int, l: nat)
    requires 1 <= max <= |s|
    ensures !HighTag(s, max, l).Overread?
    decreases |s|
  {
    if s[0] >= 0x80 && max > 1 { HighTagInside(s[1..], max - 1, l * 128 + (s[0] - 0x80)); }
  }

  lemma {:induction false} LengthLoopInside(s: seq<byte>, i: nat, max: nat, acc: nat)
    requires max < |s|
    ensures !LengthLoop(s, i, max, acc).Overread?
    decreases i
  {
    if i > 0 && max > 0 { LengthLoopInside(s[1..], i - 1, max - 1, acc * 256 + s[0]); }
  }

  lemma HeaderInside(s: seq<byte>, omax: nat)
    requires omax <= |s|
    ensures !GetObject(s, omax).Overread?
    ensures GetObject(s, omax).Scanned? ==> GetObject(s, omax).n <= omax
  {
    if omax > 1 { HighTagInside(s[1..], omax - 1, 0); }
    var tag := GetTag(s, omax);
    if tag.Scanned? && tag.value.1 > 1 && s[tag.n] > 0x80 {
      LengthLoopInside(s[tag.n..][1..], s[tag.n] - 0x80, tag.value.1 - 2, 0);
    }
  }

  lemma MarkInside(s: seq<byte>, len: int)
    requires len <= |s|
    ensures CheckInfiniteEnd(s, len).Scanned?
  {
  }

  /** When every length offered on the way is available, reading touches only the octets
      there are: strings, constructed or not, lists, wrappers and records at any depth. */
  lemma {:induction false} NeverWild(t: Template, s: seq<byte>, length: int)
    requires Roomy(t, s, length)
    ensures !Decode(t, s, length).Wild?
    decreases t, 0
  {
    hide GetObject, Finish, DecodeFields, RoomyFields;
    HeaderInside(s, length);
    match t
    case Prim(tag) => StringNeverWild(tag, s, length);
    case Sequence(fields) =>
      var g := GetSequence(s, length);
      if g.Decoded? {
        FieldsNeverWild(fields, s[g.n..], g.value.slen);
        var f := DecodeFields(fields, s[g.n..], g.value.slen);
        if f.Decoded? { FinishNeverWild(s[g.n..][f.n..], g.value.(slen := g.value.slen - f.n)); }
      }
  }

  lemma FinishNeverWild(s: seq<byte>, c: Frame)
    requires c.slen <= |s|
    ensures !Finish(s, c).Wild?
  {
  }

  lemma {:induction false} StringNeverWild(tag: nat, s: seq<byte>, length: int)
    requires StringRoomy(tag, s, length)
    ensures !DecodePrim(tag, s, length).Wild?
    decreases |s|, 0
  {
    hide GetObject, Collate, CollateRoomy;
    HeaderInside(s, length);
    var h := GetObject(s, length);
    if h.Scanned? && h.value.tag == tag && h.value.constructed {
      CollateNeverWild(tag, s[h.n..], length, h.value.len, h.value.inf, EMPTY_BUFFER);
    }
  }

  lemma {:induction false} CollateNeverWild(tag: nat, s: seq<byte>, room: int, slen: int, inf: bool, b: Buffer)
    requires CollateRoomy(tag, s, room, slen, inf, b)
    ensures !Collate(tag, s, room, slen, inf, b).Wild?
    decreases |s|, 1
  {
    hide DecodePrim, StringRoomy, CheckInfiniteEnd, Grows, Grown;
    if inf { MarkInside(s, room); }
    if if inf then CheckInfiniteEnd(s, room) == Scanned(0, false) else slen > 0 {
      StringNeverWild(tag, s, room);
      var d := DecodePrim(tag, s, room);
      if d.Decoded? && Grows(b, b.length + |d.value.octets|) {
        CollateNeverWild(tag, s[d.n..], room - d.n, if inf then slen else slen - d.n, inf, Grown(b, b.length + |d.value.octets|));
      }
    }
  }

  lemma {:induction false} FieldsNeverWild(fl: FieldList, s: seq<byte>, slen: int)
    requires RoomyFields(fl, s, slen)
    ensures !DecodeFields(fl, s, slen).Wild?
    ensures DecodeFields(fl, s, slen).Decoded? ==> DecodeFields(fl, s, slen).n <= slen
    decreases fl, 0
  {
    hide DecodeSlot, RoomySlot;
    if fl.FCons? {
      var head := DecodeSlot(fl.kind, fl.t, s, slen);
      SlotNeverWild(fl.kind, fl.t, s, slen);
      if head.Decoded? { FieldsNeverWild(fl.rest, s[head.n..], slen - head.n); }
    }
  }

  lemma {:induction false} SlotNeverWild(kind: Kind, t: Template, s: seq<byte>, slen: int)
    requires RoomySlot(kind, t, s, slen) && Available(s, slen)
    ensures !DecodeSlot(kind, t, s, slen).Wild?
    decreases t, 4
  {
    hide DecodeOne, DecodeExplicit, DecodeSet, Roomy, RoomyList, RoomyInside, WrapperHeader;
    if !Absent(kind, t, s, slen) {
      match kind {
        case Plain => NeverWild(t, s, slen); OneWild(t, s, slen);
        case Opt => NeverWild(t, s, slen); OneWild(t, s, slen);
        case ImpOpt(_) =>
          var s' := s[0 := ImplicitOctet(s[0], t)];
          NeverWild(t, s', slen);
          OneWild(t, s', slen);
        case SeqOf => ListNeverWild(t, s, slen, V_ASN1_SEQUENCE, V_ASN1_UNIVERSAL);
        case SeqOfOpt => ListNeverWild(t, s, slen, V_ASN1_SEQUENCE, V_ASN1_UNIVERSAL);
        case ImpSeqOfOpt(tag) => ListNeverWild(t, s, slen, tag, V_ASN1_CONTEXT_SPECIFIC);
        case _ => ExplicitNeverWild(kind, t, s, slen);
      }
    }
  }

  lemma OneWild(t: Template, s: seq<byte>, slen: int)
    ensures DecodeOne(t, s, slen).Wild? <==> Decode(t, s, slen).Wild?
  {
    hide Decode;
  }

  lemma {:induction false} ExplicitNeverWild(kind: Kind, t: Template, s: seq<byte>, slen: int)
    requires kind.Explicit() && Available(s, slen)
    requires var h := WrapperHeader(s, slen); h.Decoded? ==> RoomyInside(kind, t, s[h.n..], h.value.slen)
    ensures !DecodeExplicit(kind, t, s, slen).Wild?
    decreases t, 3
  {
    hide GetObject, DecodeOne, DecodeSet, Roomy, RoomyList, CheckInfiniteEnd;
    HeaderInside(s, slen);
    var h := WrapperHeader(s, slen);
    if h.Decoded? {
      var inner := s[h.n..];
      if kind.ExpSeqOfOpt? {
        ListNeverWild(t, inner, h.value.slen, V_ASN1_SEQUENCE, V_ASN1_UNIVERSAL);
      } else {
        NeverWild(t, inner, h.value.slen);
        OneWild(t, inner, h.value.slen);
      }
      var m := DecodeInside(kind, t, inner, h.value.slen);
      if m.Decoded? { MarkInside(s[h.n + m.n..], slen - (h.n + m.n)); }
    }
  }

  lemma {:induction false} ListNeverWild(t: Template, s: seq<byte>, length: int, exTag: nat, exClass: Class)
    requires RoomyList(t, s, length, exTag, exClass)
    ensures !DecodeSet(t, s, length, exTag, exClass).Wild?
    decreases t, 2
  {
    hide GetObject, DecodeElements, RoomyElements;
    HeaderInside(s, length);
    var h := SetHeader(s, length, exTag, exClass);
    if h.Decoded? { ElementsNeverWild(t, s[h.n..], h.value.slen, h.value.slen, h.value.inf); }
  }

  lemma {:induction false} ElementsNeverWild(t: Template, s: seq<byte>, left: int, slen: int, inf: bool)
    requires RoomyElements(t, s, left, slen, inf)
    ensures !DecodeElements(t, s, left, slen, inf).Wild?
    decreases t, 1, |s|
  {
    hide Decode, Roomy, CheckInfiniteEnd;
    if left > 0 {
      if inf { MarkInside(s, slen); }
      if if inf then CheckInfiniteEnd(s, slen) == Scanned(0, false) else slen > 0 {
        NeverWild(t, s, slen);
        var d := Decode(t, s, slen);
        if d.Decoded? { ElementsNeverWild(t, s[d.n..], left - d.n, slen, inf); }
      }
    }
  }

  // ----------------------------------------------- where the invariants break

  const OPTIONAL_INTEGER := Sequence(FCons(Opt, Prim(V_ASN1_INTEGER), FEnd))

  /** `30 80` with length 2: the first optional field looks at the third octet. */
  lemma ShortIndefiniteReadsOn()
    ensures Decode(OPTIONAL_INTEGER, [0x30, 0x80], 2) == Wild
  {
    hide DecodePresent, DecodePrim, Collate, DecodeElements, LengthLoop, HighTag;
    var s: seq<byte> := [0x30, 0x80];
    assert s[1..] == [0x80];
    assert GetObject(s, 2) == Scanned(2, Object(0, 16, 0, true, true, false));
    assert s[2..] == [];
  }

  lemma ShortString(octets: seq<byte>, s: seq<byte>, slen: nat)
    requires |octets| <= 127 && 2 + |octets| <= |s| && 2 + |octets| <= slen
    requires s[0] == V_ASN1_OCTET_STRING && s[1] == |octets| && s[2..2 + |octets|] == octets
    ensures Decode(Prim(V_ASN1_OCTET_STRING), s, slen) == Decoded(2 + |octets|, Octets(octets))
  {
    var e, rest := Wrap(Primitive, V_ASN1_OCTET_STRING, V_ASN1_UNIVERSAL, octets), s[2 + |octets|..];
    assert e == [4, |octets|] + octets;
    assert s == e + rest;
    ReadBackPrim(V_ASN1_OCTET_STRING, octets, rest, slen - |e|);
  }

  /** d2i_ASN1_SET offers its last element the length of the whole list, so the
      element may end after the list does: 8 octets used of the 6 given. */
  lemma ListEndsPastItsLength()
    ensures DecodeSet(Prim(V_ASN1_OCTET_STRING), [0x30, 4, 4, 0, 4, 2, 7, 9], 6, V_ASN1_SEQUENCE, V_ASN1_UNIVERSAL)
            == Decoded(8, Many([Octets([]), Octets([7, 9])], false))
  {
    hide Decode, DecodeElements, DecodeSet;
    var t := Prim(V_ASN1_OCTET_STRING);
    var s: seq<byte>, a: seq<byte>, b: seq<byte> := [0x30, 4, 4, 0, 4, 2, 7, 9], [4, 0, 4, 2, 7, 9], [4, 2, 7, 9];
    assert s[1..][0] == 4 && s[2..] == a && a[2..] == b && b[4..] == [] && b[2..4] == [7, 9] && a[2..2] == [];
    assert GetObject(s, 6) == Scanned(2, Object(4, 16, 0, true, false, false));
    var v, w := Octets([]), Octets([7, 9]);
    assert [w] + [] == [w] && [v] + [w] == [v, w];
    ShortString([], a, 4);
    ShortString([7, 9], b, 4);
    NoMoreElements(t, b[4..], -2, 4);
    ElementsStep(t, b, 2, 4, 4, w, 0, []);
    ElementsStep(t, a, 4, 4, 2, v, 4, [w]);
    ListStep(t, s, 6, V_ASN1_SEQUENCE, V_ASN1_UNIVERSAL, 2, Object(4, 16, 0, true, false, false), 6, [v, w]);
  }

  /** A list of two empty strings, all inside its length and inside the octets there are: the
      second one is still offered more octets than are left, so that its length alone does
      not keep its reader from going on. */
  lemma FittingListIsNotRoomy()
    ensures
      var t, s: seq<byte> := Prim(V_ASN1_OCTET_STRING), [0x30, 4, 4, 0, 4, 0];
      && DecodeSet(t, s, 6, V_ASN1_SEQUENCE, V_ASN1_UNIVERSAL) == Decoded(6, Many([Octets([]), Octets([])], false))
      && !RoomyList(t, s, 6, V_ASN1_SEQUENCE, V_ASN1_UNIVERSAL)
  {
    hide Decode, DecodeElements, DecodeSet;
    var t := Prim(V_ASN1_OCTET_STRING);
    var s: seq<byte>, a: seq<byte>, b: seq<byte> := [0x30, 4, 4, 0, 4, 0], [4, 0, 4, 0], [4, 0];
    assert s[1..][0] == 4 && s[2..] == a && a[2..] == b && b[2..] == [] && b[2..2] == [] && a[2..2] == [];
    assert GetObject(s, 6) == Scanned(2, Object(4, 16, 0, true, false, false));
    var v := Octets([]);
    assert [v] + [] == [v] && [v] + [v] == [v, v];
    ShortString([], a, 4);
    ShortString([], b, 4);
    NoMoreElements(t, b[2..], 0, 4);
    ElementsStep(t, b, 2, 4, 2, v, 0, []);
    ElementsStep(t, a, 4, 4, 2, v, 2, [v]);
    ListStep(t, s, 6, V_ASN1_SEQUENCE, V_ASN1_UNIVERSAL, 2, Object(4, 16, 0, true, false, false), 4, [v, v]);
    assert !Roomy(t, b, 4) && !RoomyElements(t, b, 2, 4, false);
    assert !RoomyElements(t, a, 4, 4, false);
  }

  /** Headers of indefinite strings, one in the other. */
  function Headers(n: nat): seq<byte>
  {
    if n == 0 then [] else [0x24, 0x80] + Headers(n - 1)
  }

  /** However many there are, a string of length 2 is not done with them: no bound on the
      octets that are looked at follows from the length. */
  lemma {:induction false} NestedStringsReadOn(n: nat)
    ensures |Headers(n)| == 2 * n && DecodePrim(V_ASN1_OCTET_STRING, Headers(n), 2) == Wild
  {
    hide GetObject, Collate;
    if n == 0 {
      NothingToRead();
    } else {
      NestedStringsReadOn(n - 1);
      NestedHeader(Headers(n - 1));
      NestedPart(n - 1);
      assert Headers(n)[2..] == Headers(n - 1);
    }
  }

  lemma NothingToRead()
    ensures GetObject([], 2).Overread?
  {
  }

  lemma NestedHeader(rest: seq<byte>)
    ensures GetObject([0x24, 0x80] + rest, 2) == Scanned(2, Object(0, 4, 0, true, true, false))
  {
    var s := [0x24, 0x80] + rest;
    assert s[1..] == [0x80] + rest && s[1..][1..] == rest;
  }

  lemma NestedPart(n: nat)
    requires DecodePrim(V_ASN1_OCTET_STRING, Headers(n), 2) == Wild
    ensures Collate(V_ASN1_OCTET_STRING, Headers(n), 2, 0, true, EMPTY_BUFFER) == Wild
  {
    hide DecodePrim;
    if n > 0 { assert Headers(n)[0] == 0x24; }
  }

  lemma NoMoreElements(t: Template, s: seq<byte>, left: int, slen: int)
    requires left <= 0
    ensures DecodeElements(t, s, left, slen, false) == Decoded(0, [])
  {
  }

  const EMPTY := Sequence(FEnd)

  lemma EmptyStopsEarly()
    ensures Decode(EMPTY, [0x30, 0x80, 0, 0], 4) == Decoded(2, Record(SEnd, false))
  {
    hide *;
    var b: seq<byte> := [0x30, 0x80, 0, 0];
    EmptyHeader(b);
    EmptyEnd(b[2..]);
    RecordStep(FEnd, b, 4, 2, Frame(0, true, true), 0, SEnd, 0);
    EmptyIs();
  }

  lemma EmptyIs()
    ensures EMPTY == Sequence(FEnd)
  {
  }

  lemma EmptyHeader(b: seq<byte>)
    requires b == [0x30, 0x80, 0, 0]
    ensures GetSequence(b, 4) == Decoded(2, Frame(0, true, true))
  {
    hide DecodeFields, DecodeElements, Collate;
    assert b[1..][0] == 0x80;
    assert GetObject(b, 4) == Scanned(2, Object(0, 16, 0, true, true, false));
  }

  lemma EmptyEnd(s: seq<byte>)
    ensures DecodeFields(FEnd, s, 0) == Decoded(0, SEnd) && Finish(s, Frame(0, true, true)) == Decoded(0, ())
  {
  }

  lemma WrappedHeaders(s: seq<byte>, a: seq<byte>)
    requires s == [0x30, 6, 0xa0, 4, 0x30, 0x80, 0, 0] && a == [0xa0, 4, 0x30, 0x80, 0, 0]
    ensures s[2..] == a && a[2..] == [0x30, 0x80, 0, 0]
    ensures GetSequence(s, 8) == Decoded(2, Frame(6, false, false))
    ensures WrapperHeader(a, 6) == Decoded(2, Frame(4, false, false))
    ensures Matches(ExpOpt(0), EMPTY, 0xa0)
  {
    assert s[1..][0] == 6 && a[1..][0] == 4;
    assert GetObject(s, 8) == Scanned(2, Object(6, 16, 0, true, false, false));
    assert GetObject(a, 6) == Scanned(2, Object(4, 0, 0x80, true, false, false));
  }

  lemma WrappedEnds(a: seq<byte>)
    requires |a| == 6
    ensures WrapperEnd(a[4..], 2, false) == Decoded(0, ())
    ensures DecodeFields(FEnd, a[4..], 2) == Decoded(0, SEnd)
    ensures Finish(a[4..], Frame(2, false, false)) == Failed(LengthMismatch)
  {
  }

  /** An indefinite SEQUENCE inside a definite EXPLICIT wrapper is refused: the
      wrapper covers nothing after it, so its end mark is left over. */
  lemma IndefiniteInsideDefiniteWrapper()
    ensures Decode(Sequence(FCons(ExpOpt(0), EMPTY, FEnd)), [0x30, 6, 0xa0, 4, 0x30, 0x80, 0, 0], 8) == Failed(LengthMismatch)
  {
    hide *;
    var s: seq<byte>, a: seq<byte> := [0x30, 6, 0xa0, 4, 0x30, 0x80, 0, 0], [0xa0, 4, 0x30, 0x80, 0, 0];
    var kind, fields := ExpOpt(0), FCons(ExpOpt(0), EMPTY, FEnd);
    var empty := One(Record(SEnd, false), false);
    WrappedHeaders(s, a);
    WrappedEnds(a);
    EmptyStopsEarly();
    OneStep(EMPTY, a[2..], 4, 2, empty.v);
    PresentIs(kind, EMPTY, a, 6);
    InsideOne(kind, EMPTY, a[2..], 4);
    ExplicitStep(kind, EMPTY, a, 6, 2, Frame(4, false, false), 2, empty, 0);
    SlotStep(kind, EMPTY, a, 6);
    FieldsStep(fields, a, 6, 4, empty, 0, SEnd);
    assert s[6..] == a[4..];
    RecordFails(fields, s, 8, 2, Frame(6, false, false), 4, SCons(empty, SEnd), LengthMismatch);
  }

  lemma InsideOne(kind: Kind, t: Template, s: seq<byte>, tlen: int)
    requires kind.ExpOpt?
    ensures DecodeInside(kind, t, s, tlen) == DecodeOne(t, s, tlen) && kind.Explicit()
  {
    hide DecodeOne;
  }
}

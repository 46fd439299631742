/** What a pair of hand-written i2d/d2i functions is made of: the sequence of
    M_ASN1_I2D_* and M_ASN1_D2I_* macros in its body (include/openssl/asn1_mac.h),
    as data, with the octets such a pair writes and what it reads. */
module Asn1Template {
  import opened Asn1Header

  /** One i2d/d2i pair: a string type of i2d_ASN1_bytes and d2i_ASN1_bytes, or a SEQUENCE
      bracketed by M_ASN1_D2I_start_sequence and M_ASN1_D2I_Finish. */
  datatype Template = Prim(tag: LowTag) | Sequence(fields: FieldList)

  datatype FieldList = FEnd | FCons(kind: Kind, t: Template, rest: FieldList)

  /** Which macro pair handles the field. */
  datatype Kind =
    | Plain                  // M_ASN1_D2I_get,          M_ASN1_I2D_put
    | Opt                    // M_ASN1_D2I_get_opt,      put when not NULL
    | ImpOpt(tag: LowTag)       // M_ASN1_D2I_get_IMP_opt,  M_ASN1_I2D_put_IMP_opt
    | ExpOpt(tag: LowTag)       // M_ASN1_D2I_get_EXP_opt,  M_ASN1_I2D_put_EXP_opt
    | SeqOf                  // M_ASN1_D2I_get_seq,      M_ASN1_I2D_put_SEQUENCE
    | SeqOfOpt               // M_ASN1_D2I_get_seq_opt,  M_ASN1_I2D_put_SEQUENCE_opt
    | ImpSeqOfOpt(tag: LowTag)  // M_ASN1_D2I_get_IMP_set_opt, M_ASN1_I2D_put_IMP_SEQUENCE_opt
    | ExpSeqOfOpt(tag: LowTag)  // M_ASN1_D2I_get_EXP_set_opt, M_ASN1_I2D_put_EXP_SEQUENCE_opt
  {
    predicate Optional() { !Plain? && !SeqOf? }
    predicate List() { SeqOf? || SeqOfOpt? || ImpSeqOfOpt? || ExpSeqOfOpt? }
    predicate Explicit() { ExpOpt? || ExpSeqOfOpt? }
  }

  /** A C object.  `inf` asks the writer for the indefinite form
      (M_ASN1_I2D_INF_seq_start/_end) of a SEQUENCE or of an EXPLICIT wrapper;
      what a reader builds never has it set. */
  datatype Value = Octets(octets: seq<byte>) | Record(slots: Slots, inf: bool)
  datatype Slots = SEnd | SCons(slot: Slot, rest: Slots)
  datatype Slot = Absent | One(v: Value, inf: bool) | Many(vs: seq<Value>, inf: bool)

  /** The object has the shape the template's C struct has. */
  ghost predicate Fits(t: Template, v: Value)
    decreases t, 0
  {
    match t
    case Prim(tag) => v.Octets? && tag != V_ASN1_BIT_STRING // which has functions of its own
    case Sequence(fields) => v.Record? && FitsFields(fields, v.slots)
  }

  ghost predicate FitsFields(fl: FieldList, ss: Slots)
    decreases fl, 0
  {
    match fl
    case FEnd => ss.SEnd?
    case FCons(kind, t, rest) => ss.SCons? && FitsSlot(kind, t, ss.slot) && FitsFields(rest, ss.rest)
  }

  ghost predicate FitsSlot(kind: Kind, t: Template, slot: Slot)
    decreases t, 1
  {
    match slot
    case Absent => kind.Optional()
    case One(v, inf) => !kind.List() && Fits(t, v) && (inf ==> kind.Explicit())
    case Many(vs, inf) => kind.List() && (forall v <- vs :: Fits(t, v)) && (inf ==> kind.Explicit())
  }

  // ----------------------------------------------------------- leading octets

  /** The universal tag a template's own header carries. */
  function TypeTag(t: Template): LowTag
  {
    match t
    case Prim(tag) => tag
    case Sequence(_) => V_ASN1_SEQUENCE
  }

  /** The form of its own header: i2d_ASN1_bytes sets the constructed bit for two tags. */
  function FormOf(t: Template): Form
  {
    match t
    case Prim(tag) => if tag == V_ASN1_SEQUENCE || tag == V_ASN1_SET then Constructed else Primitive
    case Sequence(_) => Constructed
  }

  /** The first octet of a field that is present. */
  function LeadingOctet(kind: Kind, t: Template): byte
  {
    match kind
    case Plain => TypeTag(t) + (if FormOf(t).Primitive? then 0 else V_ASN1_CONSTRUCTED)
    case Opt => TypeTag(t) + (if FormOf(t).Primitive? then 0 else V_ASN1_CONSTRUCTED)
    case ImpOpt(tag) => V_ASN1_CONTEXT_SPECIFIC + tag + (if FormOf(t).Primitive? then 0 else V_ASN1_CONSTRUCTED)
    case ExpOpt(tag) => V_ASN1_CONTEXT_SPECIFIC + V_ASN1_CONSTRUCTED + tag
    case SeqOf => V_ASN1_CONSTRUCTED + V_ASN1_SEQUENCE
    case SeqOfOpt => V_ASN1_CONSTRUCTED + V_ASN1_SEQUENCE
    case ImpSeqOfOpt(tag) => V_ASN1_CONTEXT_SPECIFIC + V_ASN1_CONSTRUCTED + tag
    case ExpSeqOfOpt(tag) => V_ASN1_CONTEXT_SPECIFIC + V_ASN1_CONSTRUCTED + tag
  }

  /** The test an optional field makes on M_ASN1_next. */
  predicate Matches(kind: Kind, t: Template, next: byte)
  {
    match kind
    case Plain => true
    case Opt => WithoutConstructed(next) == V_ASN1_UNIVERSAL + TypeTag(t)
    case ImpOpt(tag) => WithoutConstructed(next) == V_ASN1_CONTEXT_SPECIFIC + tag
    case ExpOpt(tag) => next == V_ASN1_CONSTRUCTED + V_ASN1_CONTEXT_SPECIFIC + tag
    case SeqOf => true
    case SeqOfOpt => next == V_ASN1_UNIVERSAL + V_ASN1_CONSTRUCTED + V_ASN1_SEQUENCE
    case ImpSeqOfOpt(tag) => next == V_ASN1_CONTEXT_SPECIFIC + V_ASN1_CONSTRUCTED + tag
    case ExpSeqOfOpt(tag) => next == V_ASN1_CONSTRUCTED + V_ASN1_CONTEXT_SPECIFIC + tag
  }

  /** `next` cannot open any field of `fl` that may come first. */
  predicate NotFirst(kind: Kind, t: Template, fl: FieldList)
    decreases fl
  {
    match fl
    case FEnd => true
    case FCons(k, u, rest) =>
      && !Matches(kind, t, LeadingOctet(k, u))
      && (k.Optional() ==> NotFirst(kind, t, rest))
  }

  /** The fields' possible next leading octets are distinguishable, and strings are of a
      type that is written as it is read. */
  predicate WellFormed(t: Template)
    decreases t, 0
  {
    match t
    case Prim(tag) => tag !in {V_ASN1_EOC, V_ASN1_BIT_STRING, V_ASN1_SEQUENCE, V_ASN1_SET}
    case Sequence(fields) => WellFormedFields(fields)
  }

  predicate WellFormedFields(fl: FieldList)
    decreases fl, 0
  {
    match fl
    case FEnd => true
    case FCons(kind, t, rest) =>
      && WellFormed(t) && WellFormedFields(rest)
      && (kind.Optional() ==> NotFirst(kind, t, rest))
  }

  // ----------------------------------------------------- the octets i2d writes

  /** The length pass: what i2d returns, with or without an output pointer. */
  function Size(t: Template, v: Value): nat
    requires Fits(t, v)
    decreases t, 0
  {
    match t
    case Prim(tag) => ObjectSize(Primitive, |v.octets|, tag)
    case Sequence(fields) =>
      ObjectSize(OuterForm(v.inf), SizeFields(fields, v.slots), V_ASN1_SEQUENCE)
  }

  function SizeFields(fl: FieldList, ss: Slots): nat
    requires FitsFields(fl, ss)
    decreases fl, 0
  {
    match fl
    case FEnd => 0
    case FCons(kind, t, rest) => SizeSlot(kind, t, ss.slot) + SizeFields(rest, ss.rest)
  }

  function SizeSlot(kind: Kind, t: Template, slot: Slot): nat
    requires FitsSlot(kind, t, slot)
    decreases t, 2
  {
    match slot
    case Absent => 0
    case One(v, inf) =>
      if kind.ExpOpt? then ObjectSize(OuterForm(inf), Size(t, v), kind.tag)
      else Size(t, v)
    case Many(vs, inf) =>
      if kind.Optional() && vs == [] then 0
      else
        var content := SizeAll(t, vs);
        match kind
        case ImpSeqOfOpt(tag) => ObjectSize(Constructed, content, tag)
        case ExpSeqOfOpt(tag) =>
          ObjectSize(OuterForm(inf), ObjectSize(Constructed, content, V_ASN1_SEQUENCE), tag)
        case _ => ObjectSize(Constructed, content, V_ASN1_SEQUENCE)
  }

  function SizeAll(t: Template, vs: seq<Value>): nat
    requires forall v <- vs :: Fits(t, v)
    decreases t, 1, |vs|
  {
    if vs == [] then 0 else Size(t, vs[0]) + SizeAll(t, vs[1..])
  }

  /** Header, content and, for the indefinite form, the end-of-contents octets. */
  function Wrap(form: Form, tag: nat, xclass: Class, content: seq<byte>): (r: seq<byte>)
    ensures |r| >= 2
  {
    PutObject(form, |content|, tag, xclass) + content + (if form.IndefiniteForm? then [0, 0] else [])
  }

  function OuterForm(inf: bool): Form { if inf then IndefiniteForm else Constructed }

  function Encode(t: Template, v: Value): seq<byte>
    requires Fits(t, v)
    decreases t, 0
  {
    match t
    case Prim(tag) => Wrap(FormOf(t), tag, V_ASN1_UNIVERSAL, v.octets)
    case Sequence(fields) => Wrap(OuterForm(v.inf), V_ASN1_SEQUENCE, V_ASN1_UNIVERSAL, EncodeFields(fields, v.slots))
  }

  function EncodeFields(fl: FieldList, ss: Slots): seq<byte>
    requires FitsFields(fl, ss)
    decreases fl, 0
  {
    match fl
    case FEnd => []
    case FCons(kind, t, rest) => EncodeSlot(kind, t, ss.slot) + EncodeFields(rest, ss.rest)
  }

  /** `*q=(V_ASN1_CONTEXT_SPECIFIC|t|(*q&V_ASN1_CONSTRUCTED))` after the field is put. */
  function Retag(s: seq<byte>, tag: LowTag): (r: seq<byte>)
    requires |s| > 0
    ensures |r| == |s|
  {
    s[0 := V_ASN1_CONTEXT_SPECIFIC + tag + ConstructedBit(s[0])]
  }

  function EncodeSlot(kind: Kind, t: Template, slot: Slot): seq<byte>
    requires FitsSlot(kind, t, slot)
    decreases t, 2
  {
    match slot
    case Absent => []
    case One(v, inf) =>
      (match kind
       case ImpOpt(tag) => Retag(Encode(t, v), tag)
       case ExpOpt(tag) => Wrap(OuterForm(inf), tag, V_ASN1_CONTEXT_SPECIFIC, Encode(t, v))
       case _ => Encode(t, v))
    case Many(vs, inf) =>
      if kind.Optional() && vs == [] then []
      else
        var content := EncodeAll(t, vs);
        match kind
        case ImpSeqOfOpt(tag) => Wrap(Constructed, tag, V_ASN1_CONTEXT_SPECIFIC, content)
        case ExpSeqOfOpt(tag) =>
          Wrap(OuterForm(inf), tag, V_ASN1_CONTEXT_SPECIFIC, Wrap(Constructed, V_ASN1_SEQUENCE, V_ASN1_UNIVERSAL, content))
        case _ => Wrap(Constructed, V_ASN1_SEQUENCE, V_ASN1_UNIVERSAL, content)
  }

  function EncodeAll(t: Template, vs: seq<Value>): seq<byte>
    requires forall v <- vs :: Fits(t, v)
    decreases t, 1, |vs|
  {
    if vs == [] then [] else Encode(t, vs[0]) + EncodeAll(t, vs[1..])
  }

  // -------------------------------------------------------- what d2i computes

  datatype Error =
    | NestedAsn1Error | BadObjectHeader | BadGetObjectCall | ExpectingSequence | LengthMismatch | MissingEos
    | WrongTag | BadClass | BadTag | LengthError | ParsingSetElement | ConstructedString

  /** `Wild`: the C code would read outside the octets its caller owns. */
  datatype Decoded<+T> = Decoded(n: nat, value: T) | Failed(error: Error) | Wild

  function Decode(t: Template, s: seq<byte>, length: int): (r: Decoded<Value>)
    ensures r.Decoded? ==> 2 <= r.n <= |s|
    decreases t, 0
  {
    match t
    case Prim(tag) => DecodePrim(tag, s, length)
    case Sequence(fields) =>
      match GetSequence(s, length)
      case Wild => Wild
      case Failed(e) => Failed(e)
      case Decoded(n, c) =>
        match DecodeBody(fields, s[n..], c)
        case Wild => Wild
        case Failed(e) => Failed(e)
        case Decoded(m, slots) => Decoded(n + m, Record(slots, false))
  }

  /** The fields of a SEQUENCE and M_ASN1_D2I_Finish. */
  function DecodeBody(fields: FieldList, s: seq<byte>, c: Frame): (r: Decoded<Slots>)
    ensures r.Decoded? ==> r.n <= |s|
    decreases fields, 1
  {
    match DecodeFields(fields, s, c.slen)
    case Wild => Wild
    case Failed(e) => Failed(e)
    case Decoded(m, slots) =>
      match Finish(s[m..], c.(slen := c.slen - m))
      case Wild => Wild
      case Failed(e) => Failed(e)
      case Decoded(k, _) => Decoded(m + k, slots)
  }

  /** d2i_ASN1_bytes */
  function DecodePrim(tag: nat, s: seq<byte>, length: int): (r: Decoded<Value>)
    ensures r.Decoded? ==> 2 <= r.n <= |s| && r.value.Octets?
    decreases |s|, 0
  {
    match GetObject(s, length)
    case Overread => Wild
    case Refused => Failed(BadObjectHeader)
    case Scanned(n, o) =>
      if o.tooLong then Failed(BadObjectHeader)
      else if o.tag != tag then Failed(WrongTag)
      else if o.constructed then
        match Collate(tag, s[n..], length, o.len, o.inf, EMPTY_BUFFER)
        case Wild => Wild
        case Failed(_) => Failed(ConstructedString)
        case Decoded(m, octets) => Decoded(n + m, Octets(octets))
      else if n + o.len > |s| then Wild
      else Decoded(n + o.len, Octets(s[n..n + o.len]))
  }

  /** The length and the room of a BUF_MEM. */
  datatype Buffer = Buffer(length: nat, max: nat)

  const EMPTY_BUFFER := Buffer(0, 0)
  const LIMIT_BEFORE_EXPANSION := 0x5fff_fffc

  /** BUF_MEM_grow_clean returns the length, and so reports failure for a length of 0. */
  predicate Grows(b: Buffer, len: nat)
  {
    len > 0 && (b.length >= len || b.max >= len || len <= LIMIT_BEFORE_EXPANSION)
  }

  function Grown(b: Buffer, len: nat): Buffer
  {
    Buffer(len, if b.length >= len || b.max >= len then b.max else (len + 3) / 3 * 4)
  }

  /** asn1_collate_primitive: the strings a constructed string is made of.  `room` is
      `c->max - c->p`; it starts as the whole length though the header is behind, and it,
      not `slen`, is the length every part is offered.  The octets go into the buffer `b`. */
  function Collate(tag: nat, s: seq<byte>, room: int, slen: int, inf: bool, b: Buffer): (r: Decoded<seq<byte>>)
    ensures r.Decoded? ==> r.n <= |s|
    decreases |s|, 1
  {
    match if inf then CheckInfiniteEnd(s, room) else Scanned(0, slen <= 0)
    case Overread => Wild
    case Refused => Failed(ConstructedString)
    case Scanned(k, ended) =>
      if ended then if !inf && slen != 0 then Failed(LengthMismatch) else Decoded(k, [])
      else
        match DecodePrim(tag, s, room)
        case Wild => Wild
        case Failed(e) => Failed(e)
        case Decoded(n, v) =>
          var len := b.length + |v.octets|;
          if !Grows(b, len) then Failed(ConstructedString)
          else
            match Collate(tag, s[n..], room - n, if inf then slen else slen - n, inf, Grown(b, len))
            case Wild => Wild
            case Failed(e) => Failed(e)
            case Decoded(m, octets) => Decoded(n + m, v.octets + octets)
  }

  /** The part of ASN1_CTX that start_sequence leaves for the fields and for Finish. */
  datatype Frame = Frame(slen: int, inf: bool, indefinite: bool)

  /** asn1_GetSequence.  For the indefinite form `*length` has already lost the
      header when `slen` is set from it, so the header is taken off twice. */
  function GetSequence(s: seq<byte>, length: int): (r: Decoded<Frame>)
    ensures r.Decoded? ==> 2 <= r.n <= |s|
  {
    match GetObject(s, length)
    case Overread => Wild
    case Refused => Failed(BadGetObjectCall)
    case Scanned(n, o) =>
      if o.tooLong then Failed(BadGetObjectCall)
      else if o.tag != V_ASN1_SEQUENCE then Failed(ExpectingSequence)
      else if length != 0 && length - n < 0 then Failed(LengthMismatch)
      else Decoded(n, Frame(if o.Indefinite() then (length - n) - n else o.len, o.inf, o.Indefinite()))
  }

  /** asn1_Finish: the cursor moves over an end-of-contents mark only when more
      than one octet is left of `slen`. */
  function Finish(s: seq<byte>, c: Frame): (r: Decoded<()>)
    ensures r.Decoded? ==> r.n <= |s|
  {
    match if c.indefinite then CheckInfiniteEnd(s, c.slen) else Scanned(0, true)
    case Overread => Wild
    case Refused => Failed(MissingEos)
    case Scanned(k, ended) =>
      if !ended then Failed(MissingEos)
      else if (c.slen != 0 && !c.inf) || (c.slen < 0 && c.inf) then Failed(LengthMismatch)
      else Decoded(k, ())
  }

  function DecodeFields(fl: FieldList, s: seq<byte>, slen: int): (r: Decoded<Slots>)
    ensures r.Decoded? ==> r.n <= |s|
    decreases fl, 0
  {
    match fl
    case FEnd => Decoded(0, SEnd)
    case FCons(kind, t, rest) =>
      match DecodeSlot(kind, t, s, slen)
      case Wild => Wild
      case Failed(e) => Failed(e)
      case Decoded(n, slot) =>
        match DecodeFields(rest, s[n..], slen - n)
        case Wild => Wild
        case Failed(e) => Failed(e)
        case Decoded(m, slots) => Decoded(n + m, SCons(slot, slots))
  }

  /** One M_ASN1_D2I_get* macro. */
  function DecodeSlot(kind: Kind, t: Template, s: seq<byte>, slen: int): (r: Decoded<Slot>)
    ensures r.Decoded? ==> r.n <= |s|
    decreases t, 6
  {
    if !kind.Optional() then DecodePresent(kind, t, s, slen)
    else if slen == 0 then Decoded(0, Absent)
    else if |s| == 0 then Wild
    else if !Matches(kind, t, s[0]) then Decoded(0, Absent)
    else DecodePresent(kind, t, s, slen)
  }

  /** A nested failure leaves the frame's own c.error as M_ASN1_D2I_vars set it. */
  function Nested<T>(r: Decoded<T>): Decoded<T>
  {
    if r.Failed? then Failed(NestedAsn1Error) else r
  }

  /** `(_tmp& V_ASN1_CONSTRUCTED)|type`, the octet get_imp puts in place of `_tmp`. */
  function ImplicitOctet(tmp: byte, t: Template): byte { ConstructedBit(tmp) + TypeTag(t) }

  /** The body of the macro once the field is known to be there. */
  function DecodePresent(kind: Kind, t: Template, s: seq<byte>, slen: int): (r: Decoded<Slot>)
    requires kind.Optional() ==> |s| > 0
    ensures r.Decoded? ==> r.n <= |s|
    decreases t, 5
  {
    match kind
    case ImpOpt(tag) => DecodeOne(t, s[0 := ImplicitOctet(s[0], t)], slen)
    case ExpOpt(tag) => DecodeExplicit(kind, t, s, slen)
    case SeqOf => Nested(DecodeSet(t, s, slen, V_ASN1_SEQUENCE, V_ASN1_UNIVERSAL))
    case SeqOfOpt => Nested(DecodeSet(t, s, slen, V_ASN1_SEQUENCE, V_ASN1_UNIVERSAL))
    case ImpSeqOfOpt(tag) => Nested(DecodeSet(t, s, slen, tag, V_ASN1_CONTEXT_SPECIFIC))
    case ExpSeqOfOpt(tag) => DecodeExplicit(kind, t, s, slen)
    case _ => DecodeOne(t, s, slen)
  }

  function DecodeOne(t: Template, s: seq<byte>, slen: int): (r: Decoded<Slot>)
    ensures r.Decoded? ==> r.n <= |s|
    decreases t, 1
  {
    match Decode(t, s, slen)
    case Wild => Wild
    case Failed(_) => Failed(NestedAsn1Error)
    case Decoded(n, v) => Decoded(n, One(v, false))
  }

  /** The header of an EXPLICIT wrapper; `slen` is the Tlen given to what is inside. */
  function WrapperHeader(s: seq<byte>, slen: int): (r: Decoded<Frame>)
    ensures r.Decoded? ==> 2 <= r.n <= |s|
  {
    match GetObject(s, slen)
    case Overread => Wild
    case Refused => Failed(BadObjectHeader)
    case Scanned(n, o) =>
      if o.tooLong then Failed(BadObjectHeader)
      else Decoded(n, Frame(if o.Indefinite() then slen - n - 2 else o.len, o.inf, o.Indefinite()))
  }

  /** The end-of-contents check of an indefinite wrapper with `room` octets left. */
  function WrapperEnd(s: seq<byte>, room: int, indefinite: bool): (r: Decoded<()>)
    ensures r.Decoded? ==> r.n <= |s|
  {
    match if indefinite then CheckInfiniteEnd(s, room) else Scanned(0, true)
    case Overread => Wild
    case Refused => Failed(MissingEos)
    case Scanned(k, ended) => if ended then Decoded(k, ()) else Failed(MissingEos)
  }

  /** What the wrapper reader runs on the wrapped octets. */
  function DecodeInside(kind: Kind, t: Template, s: seq<byte>, tlen: int): (r: Decoded<Slot>)
    ensures r.Decoded? ==> r.n <= |s|
    decreases t, 3
  {
    if kind.ExpSeqOfOpt? then Nested(DecodeSet(t, s, tlen, V_ASN1_SEQUENCE, V_ASN1_UNIVERSAL)) else DecodeOne(t, s, tlen)
  }

  /** M_ASN1_D2I_get_EXP_opt and M_ASN1_D2I_get_EXP_set_opt */
  function DecodeExplicit(kind: Kind, t: Template, s: seq<byte>, slen: int): (r: Decoded<Slot>)
    ensures r.Decoded? ==> r.n <= |s|
    decreases t, 4
  {
    match WrapperHeader(s, slen)
    case Wild => Wild
    case Failed(e) => Failed(e)
    case Decoded(n, c) =>
      match DecodeInside(kind, t, s[n..], c.slen)
      case Wild => Wild
      case Failed(e) => Failed(e)
      case Decoded(m, slot) =>
        match WrapperEnd(s[n + m..], slen - (n + m), c.indefinite)
        case Wild => Wild
        case Failed(e) => Failed(e)
        case Decoded(k, _) => Decoded(n + m + k, slot)
  }

  /** The checks d2i_ASN1_SET makes before its loop.  With `length` 0, `c.max` is
      the null pointer, so the room `c.max - c.p` given to ASN1_get_object is negative. */
  function SetHeader(s: seq<byte>, length: int, exTag: nat, exClass: Class): (r: Decoded<Frame>)
    ensures r.Decoded? ==> 2 <= r.n <= |s|
  {
    match GetObject(s, if length == 0 then -1 else length)
    case Overread => Wild
    case Refused => Failed(BadObjectHeader)
    case Scanned(n, o) =>
      if o.tooLong then Failed(BadObjectHeader)
      else if o.xclass != exClass then Failed(BadClass)
      else if o.tag != exTag then Failed(BadTag)
      else if n + o.len > length then Failed(LengthError)
      else Decoded(n, Frame(if o.Indefinite() then length - n else o.len, o.inf, o.Indefinite()))
  }

  /** d2i_ASN1_SET */
  function DecodeSet(t: Template, s: seq<byte>, length: int, exTag: nat, exClass: Class): (r: Decoded<Slot>)
    ensures r.Decoded? ==> r.n <= |s|
    decreases t, 2
  {
    match SetHeader(s, length, exTag, exClass)
    case Wild => Wild
    case Failed(e) => Failed(e)
    case Decoded(n, c) =>
      match DecodeElements(t, s[n..], c.slen, c.slen, c.inf)
      case Wild => Wild
      case Failed(e) => Failed(e)
      case Decoded(m, vs) => Decoded(n + m, Many(vs, false))
  }

  /** The element loop: `left` is `c.max - c.p`.  `slen` is never reduced, so every
      element is offered the length of the whole list. */
  function DecodeElements(t: Template, s: seq<byte>, left: int, slen: int, inf: bool): (r: Decoded<seq<Value>>)
    ensures r.Decoded? ==> r.n <= |s|
    decreases t, 1, |s|
  {
    if left <= 0 then Decoded(0, [])
    else
      match if inf then CheckInfiniteEnd(s, slen) else Scanned(0, slen <= 0)
      case Overread => Wild
      case Refused => Failed(MissingEos)
      case Scanned(k, ended) =>
        if ended then Decoded(k, [])
        else
          match Decode(t, s, slen)
          case Wild => Wild
          case Failed(_) => Failed(ParsingSetElement)
          case Decoded(n, v) =>
            match DecodeElements(t, s[n..], left - n, slen, inf)
            case Wild => Wild
            case Failed(e) => Failed(e)
            case Decoded(m, vs) => Decoded(n + m, [v] + vs)
  }
}

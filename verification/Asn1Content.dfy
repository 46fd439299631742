/** What the octets of a string are. X.690, section 8.7.3, makes the value of a constructed
    string from the contents of the primitive encodings in it, in order. Here that value is
    taken from the octets alone, without a length, a room or a buffer, and the reader is
    held against it; and strings are written in segments, nested at will, to say which of
    them it reads. */
module Asn1Content {
  import opened Asn1Header
  import opened Asn1Template
  import opened Asn1RoundTrip
  import opened Asn1Extent
  import opened Options

  // ------------------------------------------------------------ the octets of a string

  /** The octets of the string at the front of some octets, and the octets its encoding takes. */
  datatype Text = Text(octets: seq<byte>, n: nat)

  /** A primitive encoding is its content; a constructed one is made of its parts. */
  function Content(tag: nat, s: seq<byte>): (r: Option<Text>)
    ensures r.Some? ==> 2 <= r.value.n <= |s|
    decreases |s|, 0
  {
    var h := Header(s);
    if !h.Scanned? || h.value.tag != tag then None
    else if h.value.Indefinite() then
      match Parts(tag, s[h.n..], true)
      case None => None
      case Some(p) => Some(Text(p.octets, h.n + p.n))
    else
      var end := h.n + h.value.len;
      if end > |s| then None
      else if !h.value.constructed then Some(Text(s[h.n..end], end))
      else
        match Parts(tag, s[h.n..end], false)
        case None => None
        case Some(p) => Some(Text(p.octets, end))
  }

  /** Strings one after another, up to the last octet or, if `marked`, an end mark. */
  function Parts(tag: nat, s: seq<byte>, marked: bool): (r: Option<Text>)
    ensures r.Some? ==> r.value.n <= |s|
    decreases |s|, 1
  {
    if s == [] then Some(Text([], 0))
    else if marked && |s| >= 2 && s[0] == 0 && s[1] == 0 then Some(Text([], 2))
    else
      match Content(tag, s)
      case None => None
      case Some(first) =>
        match Parts(tag, s[first.n..], marked)
        case None => None
        case Some(others) => Some(Text(first.octets + others.octets, first.n + others.n))
  }

  // ------------------------------------------------------- headers depend on no later octet

  predicate SameStart(s: seq<byte>, t: seq<byte>, n: nat)
  {
    n <= |s| && n <= |t| && s[..n] == t[..n]
  }

  lemma StartTail(s: seq<byte>, t: seq<byte>, n: nat, k: nat)
    requires SameStart(s, t, n) && k <= n
    ensures SameStart(s[k..], t[k..], n - k)
  {
    assert s[k..][..n - k] == s[..n][k..] && t[k..][..n - k] == t[..n][k..];
  }

  lemma {:induction false} LengthLoopLocal(s: seq<byte>, t: seq<byte>, i: nat, max: int, acc: nat)
    requires LengthLoop(s, i, max, acc).Scanned? && SameStart(s, t, i)
    ensures LengthLoop(t, i, max, acc) == LengthLoop(s, i, max, acc)
    decreases i
  {
    if i > 0 {
      assert s[0] == s[..i][0] == t[..i][0] == t[0];
      StartTail(s, t, i, 1);
      LengthLoopLocal(s[1..], t[1..], i - 1, max - 1, acc * 256 + s[0]);
    }
  }

  lemma LengthLocal(s: seq<byte>, t: seq<byte>, max: int)
    requires GetLength(s, max).Scanned? && SameStart(s, t, GetLength(s, max).n)
    ensures GetLength(t, max) == GetLength(s, max)
  {
    hide LengthLoop;
    var n := GetLength(s, max).n;
    assert s[0] == s[..n][0] == t[..n][0] == t[0];
    if s[0] > 0x80 {
      StartTail(s, t, n, 1);
      LengthLoopLocal(s[1..], t[1..], s[0] - 0x80, max - 2, 0);
    }
  }

  lemma {:induction false} HighTagLocal(s: seq<byte>, t: seq<byte>, max: int, l: nat)
    requires HighTag(s, max, l).Scanned? && SameStart(s, t, HighTag(s, max, l).n)
    ensures HighTag(t, max, l) == HighTag(s, max, l)
    decreases |s|
  {
    var n := HighTag(s, max, l).n;
    assert s[0] == s[..n][0] == t[..n][0] == t[0];
    if s[0] >= 0x80 {
      StartTail(s, t, n, 1);
      HighTagLocal(s[1..], t[1..], max - 1, l * 128 + (s[0] - 0x80));
    }
  }

  lemma TagLocal(s: seq<byte>, t: seq<byte>, omax: int)
    requires GetTag(s, omax).Scanned? && SameStart(s, t, GetTag(s, omax).n)
    ensures GetTag(t, omax) == GetTag(s, omax) && t[0] == s[0]
  {
    hide HighTag;
    var n := GetTag(s, omax).n;
    assert s[0] == s[..n][0] == t[..n][0] == t[0];
    if s[0] % 32 == V_ASN1_PRIMITIVE_TAG {
      StartTail(s, t, n, 1);
      HighTagLocal(s[1..], t[1..], omax - 1, 0);
    }
  }

  /** A header is read alike wherever its own octets stand. */
  lemma HeaderLocal(s: seq<byte>, t: seq<byte>, omax: int)
    requires GetObject(s, omax).Scanned? && SameStart(s, t, GetObject(s, omax).n)
    ensures
      var r, h := GetObject(s, omax), Header(t);
      && h.Scanned? && h.n == r.n
      && h.value.len == r.value.len && h.value.tag == r.value.tag
      && h.value.constructed == r.value.constructed && h.value.inf == r.value.inf && h.value.xclass == r.value.xclass
  {
    HeaderIsLocal(s, t, omax);
    HeaderLimit(t, omax);
  }

  lemma HeaderIsLocal(s: seq<byte>, t: seq<byte>, omax: int)
    requires GetObject(s, omax).Scanned? && SameStart(s, t, GetObject(s, omax).n)
    ensures GetObject(t, omax) == GetObject(s, omax)
  {
    hide GetTag, GetLength;
    var n, k := GetObject(s, omax).n, GetTag(s, omax).n;
    assert SameStart(s, t, k) by { assert s[..k] == s[..n][..k] && t[..k] == t[..n][..k]; }
    TagLocal(s, t, omax);
    StartTail(s, t, n, k);
    LengthLocal(s[k..], t[k..], GetTag(s, omax).value.1);
  }

  // ----------------------------------------------------------- the reader against them

  /** Whatever string is read, its octets are those of the encoding it is read from, which
      is one of the tag asked for throughout. */
  lemma ContentIsRead(tag: nat, s: seq<byte>, length: int)
    requires DecodePrim(tag, s, length).Decoded?
    ensures
      var r := DecodePrim(tag, s, length);
      Content(tag, s[..r.n]) == Some(Text(r.value.octets, r.n))
  {
    hide DecodePrim, Content;
    var n := DecodePrim(tag, s, length).n;
    assert s[..n] + [] == s[..n];
    StringIsContent(tag, s, length, []);
  }

  /** The same in front of other octets, for a string inside the length it is read with. */
  lemma {:induction false} StringIsContent(tag: nat, s: seq<byte>, length: int, after: seq<byte>)
    requires DecodePrim(tag, s, length).Decoded?
    requires DecodePrim(tag, s, length).n <= length || after == []
    ensures
      var r := DecodePrim(tag, s, length);
      Content(tag, s[..r.n] + after) == Some(Text(r.value.octets, r.n))
    decreases |s|, 0
  {
    hide GetObject, Header, Parts, Collate;
    var r, n, o := DecodePrim(tag, s, length), GetObject(s, length).n, GetObject(s, length).value;
    var t := s[..r.n] + after;
    assert SameStart(s, t, n) by { assert t[..n] == s[..n]; }
    HeaderLocal(s, t, length);
    if o.constructed && o.inf {
      var m := Collate(tag, s[n..], length, o.len, true, EMPTY_BUFFER).n;
      assert t[n..] == s[n..][..m] + after;
      MarkedIsParts(tag, s[n..], length, o.len, EMPTY_BUFFER, after);
    } else if o.constructed {
      DefiniteCollate(tag, s[n..], length, o.len, EMPTY_BUFFER);
      assert t[n..n + o.len] == s[n..][..o.len];
      DefiniteIsParts(tag, s[n..], length, o.len, EMPTY_BUFFER);
    } else {
      assert t[n..n + o.len] == s[n..n + o.len];
    }
  }

  lemma {:induction false} DefiniteIsParts(tag: nat, s: seq<byte>, room: int, slen: int, b: Buffer)
    requires Collate(tag, s, room, slen, false, b).Decoded? && slen < room
    ensures 0 <= slen <= |s| && slen == Collate(tag, s, room, slen, false, b).n
    ensures Parts(tag, s[..slen], false) == Some(Text(Collate(tag, s, room, slen, false, b).value, slen))
    decreases |s|, 2
  {
    hide DecodePrim, Content, Grows, Grown;
    if slen > 0 {
      var d := DecodePrim(tag, s, room);
      var b' := Grown(b, b.length + |d.value.octets|);
      DefiniteIsParts(tag, s[d.n..], room - d.n, slen - d.n, b');
      var after := s[d.n..][..slen - d.n];
      assert s[..slen] == s[..d.n] + after && s[..slen][d.n..] == after;
      StringIsContent(tag, s, room, after);
    }
  }

  lemma {:induction false} MarkedIsParts(tag: nat, s: seq<byte>, room: int, slen: int, b: Buffer, after: seq<byte>)
    requires Collate(tag, s, room, slen, true, b).Decoded?
    requires Collate(tag, s, room, slen, true, b).n < room || after == []
    ensures
      var r := Collate(tag, s, room, slen, true, b);
      Parts(tag, s[..r.n] + after, true) == Some(Text(r.value, r.n))
    decreases |s|, 2
  {
    hide DecodePrim, Content, Grows, Grown;
    var r := Collate(tag, s, room, slen, true, b);
    if CheckInfiniteEnd(s, room) == Scanned(0, false) { MarkedStep(tag, s, room, slen, b, after); }
  }

  lemma {:induction false} MarkedStep(tag: nat, s: seq<byte>, room: int, slen: int, b: Buffer, after: seq<byte>)
    requires Collate(tag, s, room, slen, true, b).Decoded? && CheckInfiniteEnd(s, room) == Scanned(0, false)
    requires Collate(tag, s, room, slen, true, b).n < room || after == []
    ensures
      var r := Collate(tag, s, room, slen, true, b);
      Parts(tag, s[..r.n] + after, true) == Some(Text(r.value, r.n))
    decreases |s|, 1
  {
    hide *;
    var r := Collate(tag, s, room, slen, true, b);
    var n, b' := CollateBack(tag, s, room, slen, b);
    var m := Collate(tag, s[n..], room - n, slen, true, b').n;
    OneOctet(tag, s, room);
    NotEnded(s, room);
    PastRoom(tag, s[n..], room - n, slen, b');
    var others, t := s[n..][..m] + after, s[..r.n] + after;
    assert t == s[..n] + others && t[n..] == others;
    assert t[0] == s[0] && t[1] == s[1];
    StringIsContent(tag, s, room, others);
    MarkedIsParts(tag, s[n..], room - n, slen, b', after);
    PartsStep(tag, t, true);
  }

  /** With no room left there is nothing more to read. */
  lemma PastRoom(tag: nat, s: seq<byte>, room: int, slen: int, b: Buffer)
    requires Collate(tag, s, room, slen, true, b).Decoded?
    ensures room <= 0 ==> Collate(tag, s, room, slen, true, b).n == 0
  {
    hide DecodePrim;
  }

  lemma PartsStep(tag: nat, s: seq<byte>, marked: bool)
    requires |s| >= 2 && (marked ==> s[0] != 0 || s[1] != 0) && Content(tag, s).Some?
    ensures
      var first := Content(tag, s).value;
      Parts(tag, s, marked) ==
      match Parts(tag, s[first.n..], marked)
      case None => None
      case Some(others) => Some(Text(first.octets + others.octets, first.n + others.n))
  {
    hide Content;
  }

  // ------------------------------------------------------------ strings in segments

  /** A string as it may be written: in one piece, or in pieces that are strings again. */
  datatype Segmented = Piece(octets: seq<byte>) | Pieces(pieces: seq<Segmented>, marked: bool)

  function Joined(x: Segmented): seq<byte>
    decreases x
  {
    match x
    case Piece(octets) => octets
    case Pieces(pieces, _) => JoinedAll(pieces)
  }

  function JoinedAll(xs: seq<Segmented>): seq<byte>
    decreases xs
  {
    if xs == [] then [] else Joined(xs[0]) + JoinedAll(xs[1..])
  }

  function Written(tag: LowTag, x: Segmented): (r: seq<byte>)
    ensures |r| >= 2
    decreases x
  {
    match x
    case Piece(octets) => Wrap(Primitive, tag, V_ASN1_UNIVERSAL, octets)
    case Pieces(pieces, marked) => Wrap(OuterForm(marked), tag, V_ASN1_UNIVERSAL, WrittenAll(tag, pieces))
  }

  function WrittenAll(tag: LowTag, xs: seq<Segmented>): seq<byte>
    decreases xs
  {
    if xs == [] then [] else Written(tag, xs[0]) + WrittenAll(tag, xs[1..])
  }

  /** No constructed string opens with a part that has no octets. */
  predicate Opened(x: Segmented)
    decreases x
  {
    match x
    case Piece(_) => true
    case Pieces(pieces, _) => (pieces == [] || Joined(pieces[0]) != []) && forall y <- pieces :: Opened(y)
  }

  /** The segmented string is read back, and whole, exactly when no constructed string in
      it opens with an empty part; otherwise it is refused. */
  lemma {:induction false} SegmentsReadBack(tag: LowTag, x: Segmented, rest: seq<byte>, length: int)
    requires tag != V_ASN1_EOC && |Written(tag, x)| <= INT_MAX && |Joined(x)| <= 0x5fff_fffc
    requires length >= |Written(tag, x)|
    ensures
      var w := Written(tag, x);
      DecodePrim(tag, w + rest, length) ==
      if Opened(x) then Decoded(|w|, Octets(Joined(x))) else Failed(ConstructedString)
    decreases x
  {
    hide GetObject, Wrap, DecodePrim, Collate, Opened, Joined, JoinedAll, WrittenAll, PutObject;
    var w := Written(tag, x);
    OpenedIs(x);
    match x
    case Piece(octets) =>
      WrapLength(Primitive, tag, V_ASN1_UNIVERSAL, octets);
      ReadBackPrim(tag, octets, rest, length - |w|);
    case Pieces(pieces, marked) =>
      var content, mark := WrittenAll(tag, pieces), if marked then [0, 0] else [];
      WrapLength(OuterForm(marked), tag, V_ASN1_UNIVERSAL, content);
      WrapHeader(OuterForm(marked), tag, V_ASN1_UNIVERSAL, content, rest, length - |w|);
      var n := |PutObject(OuterForm(marked), |content|, tag, V_ASN1_UNIVERSAL)|;
      PiecesInside(tag, w + rest, length, n, |content|, marked);
      PiecesReadBack(tag, pieces, rest, length, marked, EMPTY_BUFFER);
  }

  lemma PiecesInside(tag: LowTag, s: seq<byte>, length: int, n: nat, len: nat, marked: bool)
    requires n <= |s| && GetObject(s, length) == Scanned(n, HeaderOf(OuterForm(marked), len, tag, V_ASN1_UNIVERSAL))
    ensures
      var r, c := DecodePrim(tag, s, length), Collate(tag, s[n..], length, if marked then 0 else len, marked, EMPTY_BUFFER);
      && (c.Failed? ==> r == Failed(ConstructedString))
      && (c.Decoded? ==> r == Decoded(n + c.n, Octets(c.value)))
  {
    hide GetObject, Collate;
  }

  lemma OpenedIs(x: Segmented)
    ensures x.Piece? ==> Opened(x) && Joined(x) == x.octets
    ensures x.Pieces? ==> Joined(x) == JoinedAll(x.pieces)
    ensures x.Pieces? ==>
      (Opened(x) <==> (x.pieces == [] || Joined(x.pieces[0]) != []) && forall y <- x.pieces :: Opened(y))
  {
  }

  /** The pieces, with `b` collected before them. */
  lemma {:induction false} PiecesReadBack(tag: LowTag, xs: seq<Segmented>, rest: seq<byte>, room: int, marked: bool, b: Buffer)
    requires tag != V_ASN1_EOC && |WrittenAll(tag, xs)| <= INT_MAX && b.length + |JoinedAll(xs)| <= 0x5fff_fffc
    requires room >= |WrittenAll(tag, xs)| + (if marked then 2 else 0)
    ensures
      var w, mark := WrittenAll(tag, xs), if marked then [0, 0] else [];
      var r := Collate(tag, w + (mark + rest), room, if marked then 0 else |w|, marked, b);
      if (b.length > 0 || xs == [] || Joined(xs[0]) != []) && forall y <- xs :: Opened(y)
      then r == Decoded(|w| + |mark|, JoinedAll(xs))
      else r.Failed?
    decreases xs
  {
    hide DecodePrim, Written, Joined, Collate, Opened;
    var w, mark: seq<byte> := WrittenAll(tag, xs), if marked then [0, 0] else [];
    if xs == [] {
      assert w + (mark + rest) == mark + rest;
      PiecesEnd(tag, mark + rest, room, marked, b);
    } else {
      var x, e, others := xs[0], Written(tag, xs[0]), WrittenAll(tag, xs[1..]);
      var s, slen := w + (mark + rest), if marked then 0 else |w|;
      assert s == e + (others + (mark + rest)) && s[|e|..] == others + (mark + rest);
      SegmentsReadBack(tag, x, others + (mark + rest), room);
      WrittenLeads(tag, x);
      CollateStep(tag, s, room, slen, marked, b);
      if Opened(x) && b.length + |Joined(x)| > 0 {
        PiecesReadBack(tag, xs[1..], rest, room - |e|, marked, Grown(b, b.length + |Joined(x)|));
      }
    }
  }

  lemma PiecesEnd(tag: LowTag, s: seq<byte>, room: int, marked: bool, b: Buffer)
    requires marked ==> |s| >= 2 && s[0] == s[1] == 0 && room >= 2
    ensures Collate(tag, s, room, 0, marked, b) == Decoded(if marked then 2 else 0, [])
  {
    hide DecodePrim;
  }

  /** One part: the buffer refuses to be of length 0. */
  lemma CollateStep(tag: LowTag, s: seq<byte>, room: int, slen: int, marked: bool, b: Buffer)
    requires |s| >= 2 && s[0] != 0 && room >= 2 && (!marked ==> slen > 0)
    ensures
      var r, d := Collate(tag, s, room, slen, marked, b), DecodePrim(tag, s, room);
      && (d.Failed? ==> r.Failed?)
      && (d.Decoded? && b.length + |d.value.octets| <= 0x5fff_fffc ==>
            var len := b.length + |d.value.octets|;
            var f := Collate(tag, s[d.n..], room - d.n, if marked then slen else slen - d.n, marked, Grown(b, len));
            && (len == 0 ==> r.Failed?)
            && (len > 0 && f.Failed? ==> r.Failed?)
            && (len > 0 && f.Decoded? ==> r == Decoded(d.n + f.n, d.value.octets + f.value)))
  {
    hide DecodePrim, Grown;
  }

  lemma WrittenLeads(tag: LowTag, x: Segmented)
    requires tag != V_ASN1_EOC
    ensures Written(tag, x)[0] != 0
  {
    hide Wrap;
    match x
    case Piece(octets) => WrapLeads(Primitive, tag, V_ASN1_UNIVERSAL, octets);
    case Pieces(pieces, marked) => WrapLeads(OuterForm(marked), tag, V_ASN1_UNIVERSAL, WrittenAll(tag, pieces));
  }
}

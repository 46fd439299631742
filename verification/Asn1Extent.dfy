/** Where a string ends. d2i_ASN1_bytes may use more octets than the length it is given:
    the parts of a constructed string are measured against the whole length from behind
    the header. Here are the end that X.690 gives a string, section 8.1.5, and exactly when
    the reader keeps to it. */
module Asn1Extent {
  import opened Asn1Header
  import opened Asn1Template
  import opened Options

  // ------------------------------------------------- headers, whatever the limit

  /** A header read with no limit but the octets there are. */
  function Header(s: seq<byte>): Scan<Object> { GetObject(s, |s| + 2) }

  lemma {:induction false} LengthLoopLimit(s: seq<byte>, i: nat, max: int, limit: int, acc: nat)
    requires LengthLoop(s, i, max, acc).Scanned? && limit >= |s|
    ensures LengthLoop(s, i, limit, acc) == LengthLoop(s, i, max, acc)
    decreases i
  {
    if i > 0 { LengthLoopLimit(s[1..], i - 1, max - 1, limit - 1, acc * 256 + s[0]); }
  }

  lemma LengthLimit(s: seq<byte>, max: int, limit: int)
    requires GetLength(s, max).Scanned? && limit >= |s| + 2
    ensures GetLength(s, limit) == GetLength(s, max)
  {
    if s[0] > 0x80 { LengthLoopLimit(s[1..], s[0] - 0x80, max - 2, limit - 2, 0); }
  }

  lemma {:induction false} HighTagLimit(s: seq<byte>, max: int, limit: int, l: nat)
    requires HighTag(s, max, l).Scanned? && limit > |s|
    ensures
      var r := HighTag(s, max, l);
      HighTag(s, limit, l) == Scanned(r.n, (r.value.0, limit - r.n))
    decreases |s|
  {
    if s[0] >= 0x80 { HighTagLimit(s[1..], max - 1, limit - 1, l * 128 + (s[0] - 0x80)); }
  }

  lemma HeaderLimit(s: seq<byte>, omax: int)
    requires GetObject(s, omax).Scanned?
    ensures
      var r, h := GetObject(s, omax), Header(s);
      && h.Scanned? && h.n == r.n
      && h.value.len == r.value.len && h.value.tag == r.value.tag
      && h.value.constructed == r.value.constructed && h.value.inf == r.value.inf && h.value.xclass == r.value.xclass
  {
    hide HighTag, GetLength;
    if s[0] % 32 == V_ASN1_PRIMITIVE_TAG { HighTagLimit(s[1..], omax - 1, |s| + 1, 0); }
    var tag := GetTag(s, omax);
    LengthLimit(s[tag.n..], tag.value.1, |s| + 2 - tag.n);
  }

  // ------------------------------------------------------------- the end by X.690

  /** The octets of one encoding, when they are all among the first `room`. */
  function ElementEnd(s: seq<byte>, room: int): (r: Option<nat>)
    ensures r.Some? ==> 2 <= r.value <= room
    decreases |s|, 0
  {
    var h := Header(s);
    if !h.Scanned? then None
    else if h.value.Indefinite() then
      var c := ContentEnd(s[h.n..], room - h.n);
      if c.Some? then Some(h.n + c.value) else None
    else if h.n + h.value.len <= room then Some(h.n + h.value.len)
    else None
  }

  /** The octets of an indefinite content up to and with its end mark. */
  function ContentEnd(s: seq<byte>, room: int): (r: Option<nat>)
    ensures r.Some? ==> 2 <= r.value <= room
    decreases |s|, 1
  {
    if room < 2 || |s| < 2 then None
    else if s[0] == 0 && s[1] == 0 then Some(2)
    else
      var e := ElementEnd(s, room);
      if e.None? || e.value > |s| then None
      else
        var c := ContentEnd(s[e.value..], room - e.value);
        if c.Some? then Some(e.value + c.value) else None
  }

  // -------------------------------------------------------- the reader against it

  /** A string that is read ends where X.690 says, as far as `bound` octets go. */
  lemma {:induction false} StringIsElement(tag: nat, s: seq<byte>, length: int, bound: int)
    requires DecodePrim(tag, s, length).Decoded? && bound <= length
    ensures
      var u, e := DecodePrim(tag, s, length).n, ElementEnd(s, bound);
      && (e.Some? ==> e == Some(u))
      && (u <= bound ==> e == Some(u))
    decreases |s|, 0
  {
    hide GetObject, ContentEnd, Collate;
    HeaderLimit(s, length);
    var n, o := GetObject(s, length).n, GetObject(s, length).value;
    if o.constructed {
      if o.inf {
        ContentIsEnd(tag, s[n..], length, o.len, EMPTY_BUFFER, bound - n);
      } else {
        DefiniteCollate(tag, s[n..], length, o.len, EMPTY_BUFFER);
      }
    }
  }

  /** The parts of a definite string fill exactly the length its header gives. */
  lemma {:induction false} DefiniteCollate(tag: nat, s: seq<byte>, room: int, slen: int, b: Buffer)
    requires Collate(tag, s, room, slen, false, b).Decoded?
    ensures Collate(tag, s, room, slen, false, b).n == slen
    decreases |s|
  {
    hide DecodePrim, Grows, Grown;
    if slen > 0 {
      var d := DecodePrim(tag, s, room);
      DefiniteCollate(tag, s[d.n..], room - d.n, slen - d.n, Grown(b, b.length + |d.value.octets|));
    }
  }

  lemma {:induction false} ContentIsEnd(tag: nat, s: seq<byte>, room: int, slen: int, b: Buffer, bound: int)
    requires Collate(tag, s, room, slen, true, b).Decoded? && bound < room
    ensures
      var m, c := Collate(tag, s, room, slen, true, b).n, ContentEnd(s, bound);
      && (c.Some? ==> c == Some(m))
      && (m <= bound ==> c == Some(m))
    decreases |s|, 2
  {
    hide DecodePrim, ElementEnd, Grows, Grown;
    if CheckInfiniteEnd(s, room) == Scanned(0, false) { PartIsElement(tag, s, room, slen, b, bound); }
  }

  lemma {:induction false} PartIsElement(tag: nat, s: seq<byte>, room: int, slen: int, b: Buffer, bound: int)
    requires Collate(tag, s, room, slen, true, b).Decoded? && bound < room && CheckInfiniteEnd(s, room) == Scanned(0, false)
    ensures
      var m, c := Collate(tag, s, room, slen, true, b).n, ContentEnd(s, bound);
      && (c.Some? ==> c == Some(m))
      && (m <= bound ==> c == Some(m))
    decreases |s|, 1
  {
    hide *;
    var n, b' := CollateBack(tag, s, room, slen, b);
    OneOctet(tag, s, room);
    StringIsElement(tag, s, room, bound);
    ContentIsEnd(tag, s[n..], room - n, slen, b', bound - n);
    NotEnded(s, room);
    ContentStep(s, bound);
  }

  lemma CollateBack(tag: nat, s: seq<byte>, room: int, slen: int, b: Buffer) returns (n: nat, b': Buffer)
    requires Collate(tag, s, room, slen, true, b).Decoded? && CheckInfiniteEnd(s, room) == Scanned(0, false)
    ensures DecodePrim(tag, s, room).Decoded? && n == DecodePrim(tag, s, room).n <= |s| && n >= 2
    ensures Collate(tag, s[n..], room - n, slen, true, b').Decoded?
    ensures
      var r, others := Collate(tag, s, room, slen, true, b), Collate(tag, s[n..], room - n, slen, true, b');
      r.n == n + others.n && r.value == DecodePrim(tag, s, room).value.octets + others.value
  {
    hide DecodePrim, CheckInfiniteEnd, Grows, Grown;
    var d := DecodePrim(tag, s, room);
    n, b' := d.n, Grown(b, b.length + |d.value.octets|);
  }

  lemma NotEnded(s: seq<byte>, room: int)
    requires CheckInfiniteEnd(s, room) == Scanned(0, false) && |s| >= 2 && room >= 2
    ensures s[0] != 0 || s[1] != 0
  {
  }

  lemma ContentStep(s: seq<byte>, room: int)
    requires |s| >= 2 && (s[0] != 0 || s[1] != 0)
    ensures
      var e := ElementEnd(s, room);
      if room < 2 || e.None? || e.value > |s| then ContentEnd(s, room) == None
      else
        var c := ContentEnd(s[e.value..], room - e.value);
        ContentEnd(s, room) == if c.Some? then Some(e.value + c.value) else None
  {
    hide ElementEnd;
  }

  lemma OneOctet(tag: nat, s: seq<byte>, room: int)
    requires DecodePrim(tag, s, room).Decoded?
    ensures room >= 2 && |s| >= 2
  {
    hide HighTag, GetLength, Collate;
  }

  /** A string that is read stays inside the length given exactly when X.690's end of it
      lies inside; it then ends there. */
  lemma StringStaysInside(tag: nat, s: seq<byte>, length: int)
    requires DecodePrim(tag, s, length).Decoded?
    ensures
      var u := DecodePrim(tag, s, length).n;
      && (u <= length <==> ElementEnd(s, length).Some?)
      && (u <= length ==> ElementEnd(s, length) == Some(u))
  {
    hide DecodePrim, ElementEnd;
    StringIsElement(tag, s, length, length);
  }

  /** An indefinite string of one part, in a length that leaves out its end mark: seven
      octets used of the five given. */
  lemma StringEndsPastItsLength()
    ensures
      var s: seq<byte> := [0x24, 0x80, 4, 1, 7, 0, 0];
      DecodePrim(V_ASN1_OCTET_STRING, s, 5) == Decoded(7, Octets([7])) && ElementEnd(s, 5) == None
  {
    hide DecodePrim, ElementEnd;
    var s: seq<byte>, a: seq<byte>, b: seq<byte> := [0x24, 0x80, 4, 1, 7, 0, 0], [4, 1, 7, 0, 0], [0, 0];
    assert s[1..][0] == 0x80 && a[1..][0] == 1 && s[2..] == a && a[3..] == b && a[2..3] == [7];
    assert GetObject(s, 5) == Scanned(2, Object(0, 4, 0, true, true, false));
    assert GetObject(a, 5) == Scanned(2, Object(1, 4, 0, false, false, false));
    OnePart(a, 5);
    assert CheckInfiniteEnd(a, 5) == Scanned(0, false) && CheckInfiniteEnd(b, 2) == Scanned(2, true);
    AfterPart(a, b);
    OneString(s, a, 5);
    StringStaysInside(V_ASN1_OCTET_STRING, s, 5);
  }

  lemma OnePart(a: seq<byte>, room: int)
    requires |a| == 5 && a[2..3] == [7] && GetObject(a, room) == Scanned(2, Object(1, 4, 0, false, false, false))
    ensures DecodePrim(V_ASN1_OCTET_STRING, a, room) == Decoded(3, Octets([7]))
  {
    hide GetObject, Collate;
  }

  lemma AfterPart(a: seq<byte>, b: seq<byte>)
    requires |a| == 5 && a[3..] == b && DecodePrim(V_ASN1_OCTET_STRING, a, 5) == Decoded(3, Octets([7]))
    requires CheckInfiniteEnd(a, 5) == Scanned(0, false) && CheckInfiniteEnd(b, 2) == Scanned(2, true)
    ensures Collate(V_ASN1_OCTET_STRING, a, 5, 0, true, EMPTY_BUFFER) == Decoded(5, [7])
  {
    hide DecodePrim, CheckInfiniteEnd;
    var seven: seq<byte> := [7];
    assert seven + [] == seven;
    assert Collate(V_ASN1_OCTET_STRING, b, 2, 0, true, Grown(EMPTY_BUFFER, 1)) == Decoded(2, []);
  }

  lemma OneString(s: seq<byte>, a: seq<byte>, room: int)
    requires |s| == 7 && s[2..] == a && GetObject(s, room) == Scanned(2, Object(0, 4, 0, true, true, false))
    requires Collate(V_ASN1_OCTET_STRING, a, room, 0, true, EMPTY_BUFFER) == Decoded(5, [7])
    ensures DecodePrim(V_ASN1_OCTET_STRING, s, room) == Decoded(7, Octets([7]))
  {
    hide GetObject, Collate;
  }

  // ------------------------------------------------------------- parts without octets

  /** A constructed string whose first part is empty is refused: for a buffer of length 0
      BUF_MEM_grow_clean reports failure. So is one whose first part is too long for it. */
  lemma EmptyPartIsRefused(tag: nat, s: seq<byte>, room: int, slen: int, inf: bool)
    requires if inf then CheckInfiniteEnd(s, room) == Scanned(0, false) else slen > 0
    requires DecodePrim(tag, s, room).Decoded?
    ensures
      var first, r := DecodePrim(tag, s, room).value.octets, Collate(tag, s, room, slen, inf, EMPTY_BUFFER);
      && (first == [] || |first| > 0x5fff_fffc ==> r == Failed(ConstructedString))
      && (r.Decoded? ==> r.value != [])
  {
    hide DecodePrim, CheckInfiniteEnd;
  }
}

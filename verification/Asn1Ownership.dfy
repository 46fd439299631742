/** Who owns what while a d2i runs: the allocations of M_ASN1_D2I_vars, of the X_new
    functions, of d2i_ASN1_SET and of the string decoder d2i_ASN1_bytes with the buffer of
    asn1_collate_primitive, their error exits, and every way the allocations (`grants`) and
    the reads in between (a `Script`) may fail. */
module Asn1Ownership {
  import Asn1Template

  /** The C struct a d2i fills: its pointers to objects and to stacks of objects, each
      optional or allocated by X_new; or an ASN1_STRING. */
  datatype Shape = Struct(fields: Shapes) | Str
  datatype Shapes =
    | NoField
    | Field(optional: bool, shape: Shape, rest: Shapes)
    | ListOf(optional: bool, element: Shape, rest: Shapes)

  /** A C object and the objects its pointer fields own, a stack and its elements, or a
      string with its data and the length it says they have. */
  datatype Ptr = Null | To(obj: Obj)
  datatype Obj = Obj(id: nat, parts: Parts) | Text(id: nat, data: Data, length: nat)
  datatype Parts = NoPart | Part(part: Ptr, rest: Parts)
  datatype Data = NoData | Block(block: nat)

  function BlockOf(d: Data): set<nat>
  {
    if d.NoData? then {} else {d.block}
  }

  function Ids(p: Ptr): set<nat>
    decreases p
  {
    match p
    case Null => {}
    case To(Obj(id, parts)) => {id} + PartIds(parts)
    case To(Text(id, data, _)) => {id} + BlockOf(data)
  }

  function PartIds(ps: Parts): set<nat>
    decreases ps
  {
    match ps
    case NoPart => {}
    case Part(p, rest) => Ids(p) + PartIds(rest)
  }

  /** The blocks that hold the data of strings. */
  function DataIds(p: Ptr): set<nat>
    decreases p
  {
    match p
    case Null => {}
    case To(Obj(_, parts)) => PartDataIds(parts)
    case To(Text(_, data, _)) => BlockOf(data)
  }

  function PartDataIds(ps: Parts): set<nat>
    decreases ps
  {
    match ps
    case NoPart => {}
    case Part(p, rest) => DataIds(p) + PartDataIds(rest)
  }

  lemma {:induction false} DataInside(p: Ptr)
    ensures DataIds(p) <= Ids(p)
    decreases p
  {
    if p.To? && p.obj.Obj? { PartDataInside(p.obj.parts); }
  }

  lemma {:induction false} PartDataInside(ps: Parts)
    ensures PartDataIds(ps) <= PartIds(ps)
    decreases ps
  {
    if ps.Part? {
      DataInside(ps.part);
      PartDataInside(ps.rest);
    }
  }

  /** Every block below is owned once: the pointers form a tree. */
  predicate Owned(p: Ptr)
    decreases p
  {
    match p
    case Null => true
    case To(Obj(id, parts)) => id !in PartIds(parts) && OwnedParts(parts)
    case To(Text(id, data, _)) => id !in BlockOf(data)
  }

  predicate OwnedParts(ps: Parts)
    decreases ps
  {
    ps.Part? ==> Owned(ps.part) && OwnedParts(ps.rest) && Ids(ps.part) !! PartIds(ps.rest)
  }

  predicate Typed(p: Ptr, shape: Shape)
    decreases shape, 0
  {
    p.To? ==> match shape case Struct(fields) => p.obj.Obj? && TypedParts(p.obj.parts, fields) case Str => p.obj.Text?
  }

  predicate TypedParts(ps: Parts, fs: Shapes)
    decreases fs
  {
    match fs
    case NoField => ps.NoPart?
    case Field(_, shape, rest) => ps.Part? && Typed(ps.part, shape) && TypedParts(ps.rest, rest)
    case ListOf(_, element, rest) => ps.Part? && TypedList(ps.part, element) && TypedParts(ps.rest, rest)
  }

  predicate TypedList(p: Ptr, element: Shape)
    decreases element, 2
  {
    p.To? ==> p.obj.Obj? && TypedElements(p.obj.parts, element)
  }

  predicate TypedElements(ps: Parts, element: Shape)
    decreases element, 1, ps
  {
    ps.Part? ==> ps.part.To? && Typed(ps.part, element) && TypedElements(ps.rest, element)
  }

  /** The blocks an X_new allocates: the object's, those of the objects its fields need,
      and one for each stack. A new string has no data. */
  function Blocks(shape: Shape): nat
  {
    match shape
    case Struct(fields) => 1 + BlocksOf(fields)
    case Str => 1
  }

  function BlocksOf(fs: Shapes): nat
  {
    match fs
    case NoField => 0
    case Field(optional, shape, rest) => (if optional then 0 else Blocks(shape)) + BlocksOf(rest)
    case ListOf(optional, _, rest) => (if optional then 0 else 1) + BlocksOf(rest)
  }

  predicate Between(a: nat, i: nat, b: nat) { a <= i < b }

  function Range(a: nat, b: nat): set<nat>
  {
    set i | a <= i < b && Between(a, i, b)
  }

  /** Objects, stacks, strings and fields taken apart. */
  lemma ObjectIs(id: nat, parts: Parts, fields: Shapes)
    ensures Ids(To(Obj(id, parts))) == {id} + PartIds(parts) && DataIds(To(Obj(id, parts))) == PartDataIds(parts)
    ensures Owned(To(Obj(id, parts))) <==> id !in PartIds(parts) && OwnedParts(parts)
    ensures Typed(To(Obj(id, parts)), Struct(fields)) <==> TypedParts(parts, fields)
  {
  }

  lemma StringIs(id: nat, data: Data, length: nat)
    ensures Ids(To(Text(id, data, length))) == {id} + BlockOf(data) && DataIds(To(Text(id, data, length))) == BlockOf(data)
    ensures Owned(To(Text(id, data, length))) <==> id !in BlockOf(data)
    ensures Typed(To(Text(id, data, length)), Str)
  {
  }

  lemma NothingIs(shape: Shape)
    ensures Ids(Null) == {} && DataIds(Null) == {} && Owned(Null) && Typed(Null, shape) && TypedList(Null, shape)
  {
  }

  lemma TypedIs(p: Ptr, shape: Shape)
    requires Typed(p, shape) && p.To?
    ensures shape.Struct? ==> p.obj.Obj? && TypedParts(p.obj.parts, shape.fields)
    ensures shape.Str? ==> p.obj.Text?
  {
  }

  lemma StackIs(id: nat, element: Shape)
    ensures Owned(To(Obj(id, NoPart))) && TypedList(To(Obj(id, NoPart)), element) && Ids(To(Obj(id, NoPart))) == {id}
    ensures DataIds(To(Obj(id, NoPart))) == {}
  {
  }

  lemma PushedIs(stack: Ptr, s: Ptr, element: Shape)
    requires stack.To? && Owned(stack) && TypedList(stack, element)
    requires s.To? && Owned(s) && Typed(s, element) && Ids(s) !! Ids(stack)
    ensures stack.obj.Obj?
    ensures
      var pushed := To(Obj(stack.obj.id, Part(s, stack.obj.parts)));
      Owned(pushed) && TypedList(pushed, element) && Ids(pushed) == Ids(stack) + Ids(s) && DataIds(pushed) == DataIds(stack) + DataIds(s)
  {
  }

  lemma FieldIs(p: Ptr, rest: Parts, fs: Shapes)
    requires !fs.NoField?
    ensures PartIds(Part(p, rest)) == Ids(p) + PartIds(rest) && PartDataIds(Part(p, rest)) == DataIds(p) + PartDataIds(rest)
    ensures OwnedParts(Part(p, rest)) <==> Owned(p) && OwnedParts(rest) && Ids(p) !! PartIds(rest)
    ensures TypedParts(Part(p, rest), fs) <==>
      (if fs.Field? then Typed(p, fs.shape) else TypedList(p, fs.element)) && TypedParts(rest, fs.rest)
  {
  }

  lemma NoFieldIs(ps: Parts, fs: Shapes)
    requires TypedParts(ps, fs)
    ensures ps.NoPart? <==> fs.NoField?
    ensures ps.NoPart? ==> PartIds(ps) == {} && PartDataIds(ps) == {}
  {
  }

  lemma Ranges(a: nat, b: nat, c: nat)
    requires a <= b <= c
    ensures Range(a, c) == Range(a, b) + Range(b, c) && Range(a, b) !! Range(b, c)
    ensures Range(a, b) == {} <==> a == b
    ensures a < b ==> Range(a, b) == {a} + Range(a + 1, b)
  {
    assert a < b ==> a in Range(a, b);
  }

  // --------------------------------------------------------------- what is read

  /** What the octets of a string are: refused, its own `len` octets, or the parts of a
      constructed one, with or without a proper end. */
  datatype Reading = Refusal | Plain(len: nat) | Parted(parts: seq<Reading>, complete: bool)

  /** The octets it holds. */
  function Length(input: Reading): nat
    decreases input
  {
    match input
    case Refusal => 0
    case Plain(len) => len
    case Parted(parts, _) => LengthAll(parts)
  }

  function LengthAll(parts: seq<Reading>): nat
    decreases parts
  {
    if parts == [] then 0 else LengthAll(parts[..|parts| - 1]) + Length(parts[|parts| - 1])
  }

  /** Octets that make a string: no constructed one opens with a part of length 0 or lacks
      its end, and if it is to be `small` a buffer can hold it. */
  predicate Proper(input: Reading, small: bool)
    decreases input
  {
    match input
    case Refusal => false
    case Plain(_) => true
    case Parted(parts, complete) =>
      && complete && (parts != [] ==> Length(parts[0]) > 0) && (forall p <- parts :: Proper(p, small))
      && (small ==> LengthAll(parts) <= 0x5fff_fffc)
  }

  lemma {:induction false} LengthOfPrefix(parts: seq<Reading>, j: nat)
    requires j < |parts|
    ensures LengthAll(parts[..j + 1]) == LengthAll(parts[..j]) + Length(parts[j]) <= LengthAll(parts)
    decreases |parts| - j
  {
    assert parts[..j + 1][..j] == parts[..j];
    if j + 1 < |parts| { LengthOfPrefix(parts, j + 1); } else { assert parts[..j + 1] == parts; }
  }

  lemma PartedIs(parts: seq<Reading>, complete: bool, small: bool)
    ensures Length(Parted(parts, complete)) == LengthAll(parts)
    ensures Proper(Parted(parts, complete), small) <==>
      && complete && (parts != [] ==> Length(parts[0]) > 0) && (forall p <- parts :: Proper(p, small))
      && (small ==> LengthAll(parts) <= 0x5fff_fffc)
  {
  }

  /** What the octets of an object are: of a string; of a SEQUENCE whether its header and its
      end can be read, and its fields; of a list its elements. A field may be absent, and a
      stack may have room for an element. */
  datatype Script = Script(reading: Reading, header: bool, finish: bool, parts: seq<Script>, present: bool, room: bool)

  /** The octets of the next field; when none are left it cannot be read. */
  function Next(ss: seq<Script>): Script
  {
    if ss == [] then Script(Refusal, false, false, [], false, false) else ss[0]
  }

  function After(ss: seq<Script>): seq<Script>
  {
    if ss == [] then [] else ss[1..]
  }

  /** The object can be read from them. */
  predicate Readable(shape: Shape, s: Script, small: bool)
    decreases shape, 0
  {
    match shape
    case Str => Proper(s.reading, small)
    case Struct(fields) => s.header && s.finish && ReadableParts(fields, s.parts, small)
  }

  predicate ReadableParts(fs: Shapes, ss: seq<Script>, small: bool)
    decreases fs
  {
    match fs
    case NoField => true
    case Field(optional, shape, rest) =>
      ((optional && !Next(ss).present) || Readable(shape, Next(ss), small)) && ReadableParts(rest, After(ss), small)
    case ListOf(optional, element, rest) =>
      ((optional && !Next(ss).present) || ReadableList(element, Next(ss), small)) && ReadableParts(rest, After(ss), small)
  }

  predicate ReadableList(element: Shape, s: Script, small: bool)
    decreases element, 1
  {
    s.header && forall e <- s.parts :: Readable(element, e, small)
  }

  lemma ScriptIs(shape: Shape, s: Script, small: bool)
    ensures shape.Str? ==> (Readable(shape, s, small) <==> Proper(s.reading, small))
    ensures shape.Struct? ==> (Readable(shape, s, small) <==> s.header && s.finish && ReadableParts(shape.fields, s.parts, small))
    ensures ReadableList(shape, s, small) <==> s.header && forall e <- s.parts :: Readable(shape, e, small)
  {
  }

  lemma PartScriptIs(fs: Shapes, ss: seq<Script>, small: bool)
    ensures fs.NoField? ==> ReadableParts(fs, ss, small)
    ensures !fs.NoField? ==>
      (ReadableParts(fs, ss, small) <==> ReadableField(fs, Next(ss), small) && ReadableParts(fs.rest, After(ss), small))
  {
  }

  predicate ReadableField(fs: Shapes, s: Script, small: bool)
    requires !fs.NoField?
  {
    || (fs.optional && !s.present)
    || if fs.Field? then Readable(fs.shape, s, small) else ReadableList(fs.element, s, small)
  }

  /** FreedTwice: a block was freed that had been freed before. */
  datatype Outcome = Done | Failed | FreedTwice

  predicate AtMostOne(s: set<nat>) { forall x, y :: x in s && y in s ==> x == y }

  predicate Below(s: set<nat>, n: nat) { forall x :: x in s ==> x < n }

  /** The blocks `was` that a pointer owned have become `now`: what is not in `now` any more
      was freed, `dead` are pointers to blocks that were freed, `gone` blocks nothing points
      to; `n0` to `n1` were allocated on the way. */
  predicate Kept(was: set<nat>, now: set<nat>, dead: set<nat>, gone: set<nat>, live0: set<nat>, live1: set<nat>, n0: nat, n1: nat)
  {
    && live1 == (live0 - was) + (now - dead) + gone
    && now <= was + Range(n0, n1) && gone <= Range(n0, n1) && gone !! now && dead <= was && dead <= now
  }

  lemma Unchanged(was: set<nat>, live0: set<nat>, n0: nat)
    requires was <= live0
    ensures Kept(was, was, {}, {}, live0, live0, n0, n0)
  {
    Ranges(n0, n0, n0);
  }

  /** Two pointers, one after the other. */
  lemma Both(a: set<nat>, a': set<nat>, b: set<nat>, b': set<nat>, dead: set<nat>, gone: set<nat>,
             live0: set<nat>, live1: set<nat>, live2: set<nat>, n0: nat, n1: nat, n2: nat)
    requires a !! b && a <= live0 && b <= live0 && Below(live0, n0) && n0 <= n1 <= n2
    requires Kept(a, a', {}, {}, live0, live1, n0, n1) && Kept(b, b', dead, gone, live1, live2, n1, n2)
    ensures a' !! b' && b <= live1 && Kept(a + b, a' + b', dead, gone, live0, live2, n0, n2)
  {
    Ranges(n0, n1, n2);
  }

  lemma FirstOnly(a: set<nat>, a': set<nat>, b: set<nat>, dead: set<nat>, gone: set<nat>, live0: set<nat>, live1: set<nat>, n0: nat, n1: nat)
    requires a !! b && a <= live0 && b <= live0 && Below(live0, n0) && n0 <= n1
    requires Kept(a, a', dead, gone, live0, live1, n0, n1)
    ensures a' !! b && b <= live1 && Kept(a + b, a' + b, dead, gone, live0, live1, n0, n1)
  {
  }

  class Heap {
    /** Whether the n-th attempt to allocate is granted. */
    const grants: nat -> bool
    var tried: nat
    var next: nat             // blocks are numbered as they are allocated
    var live: set<nat>        // allocated and not freed
    ghost var lost: set<nat>  // allocated, and no pointer left to free them by

    ghost predicate Valid()
      reads this
    {
      (forall id <- live :: id < next) && lost <= live
    }

    constructor (grants: nat -> bool)
      ensures Valid() && live == {} && lost == {} && next == 0 && tried == 0 && this.grants == grants
    {
      this.grants := grants;
      tried, next, live, lost := 0, 0, {}, {};
    }

    /** The `n` attempts from `from` on are all granted. */
    predicate Granted(from: nat, n: nat)
    {
      forall i :: from <= i < from + n ==> grants(i)
    }

    /** Of the attempts from `from` to `to` only the last may be refused. */
    predicate StopsAtRefusal(from: nat, to: nat)
    {
      forall i :: from <= i < to - 1 ==> grants(i)
    }

    predicate Refused(from: nat, to: nat)
    {
      from < to && !grants(to - 1)
    }

    /** OPENSSL_malloc */
    method Malloc() returns (ok: bool, id: nat)
      requires Valid()
      modifies this`tried, this`next, this`live
      ensures Valid() && ok == grants(old(tried)) && tried == old(tried) + 1 && id == old(next)
      ensures next == old(next) + if ok then 1 else 0
      ensures live == old(live) + Range(old(next), next)
    {
      id, ok := next, grants(tried);
      tried := tried + 1;
      if ok { next, live := next + 1, live + {id}; }
      assert Range(id, next) == if ok then {id} else {};
    }

    /** OPENSSL_free: only what is live and was not freed before. */
    method Free(id: nat)
      requires Valid() && id in live && id !in lost
      modifies this`live
      ensures Valid() && live == old(live) - {id}
    {
      live := live - {id};
    }

    /** X_free, or sk_pop_free: the object and everything it owns, each exactly once. */
    method FreeAll(p: Ptr)
      requires Valid() && Owned(p) && Ids(p) <= live && Ids(p) !! lost
      modifies this`live
      ensures Valid() && live == old(live) - Ids(p)
      decreases p
    {
      match p {
        case Null =>
        case To(Obj(id, parts)) =>
          FreeParts(parts);
          Free(id);
        case To(Text(id, data, _)) =>
          if data.Block? { Free(data.block); }
          Free(id);
      }
    }

    method FreeParts(ps: Parts)
      requires Valid() && OwnedParts(ps) && PartIds(ps) <= live && PartIds(ps) !! lost
      modifies this`live
      ensures Valid() && live == old(live) - PartIds(ps)
      decreases ps
    {
      if ps.Part? {
        FreeAll(ps.part);
        FreeParts(ps.rest);
      }
    }

    /** An X_new function: M_ASN1_New_Malloc, then M_ASN1_New for each field that is
        not optional.  M_ASN1_New returns at once when a field cannot be allocated,
        so everything allocated before it has no owner any more. */
    method New(shape: Shape) returns (p: Ptr)
      requires Valid()
      modifies this`tried, this`next, this`live, this`lost
      ensures Valid() && Owned(p) && Typed(p, shape) && live == old(live) + Range(old(next), next)
      ensures StopsAtRefusal(old(tried), tried) && old(tried) < tried <= old(tried) + Blocks(shape)
      // it succeeds exactly when every block is granted, and then owns them all
      ensures p.To? <==> Granted(old(tried), Blocks(shape))
      ensures p.To? <==> !Refused(old(tried), tried)
      ensures p.To? ==> tried == old(tried) + Blocks(shape) && next == old(next) + Blocks(shape)
      ensures p.To? ==> Ids(p) == Range(old(next), next) && DataIds(p) == {} && lost == old(lost)
      // else it loses every block granted before the refusal
      ensures p.Null? ==> next == old(next) + (tried - 1 - old(tried)) && lost == old(lost) + Range(old(next), next)
      ensures lost != old(lost) <==> grants(old(tried)) && !Granted(old(tried), Blocks(shape))
      decreases shape
    {
      NothingIs(shape);
      var ok, id := Malloc();
      Ranges(id, id, next);
      if !ok { return Null; }
      if shape.Str? {
        StringIs(id, NoData, 0);
        return To(Text(id, NoData, 0));
      }
      ghost var n := next;
      var filled, parts := NewParts(shape.fields);
      Ranges(id, n, next);
      if !filled {
        lost := lost + Range(id, next);
        assert id in lost;
        return Null;
      }
      ObjectIs(id, parts, shape.fields);
      return To(Obj(id, parts));
    }

    method NewParts(fs: Shapes) returns (ok: bool, ps: Parts)
      requires Valid()
      modifies this`tried, this`next, this`live, this`lost
      ensures Valid() && OwnedParts(ps) && live == old(live) + Range(old(next), next)
      ensures StopsAtRefusal(old(tried), tried) && old(tried) <= tried <= old(tried) + BlocksOf(fs)
      ensures ok <==> Granted(old(tried), BlocksOf(fs))
      ensures ok <==> !Refused(old(tried), tried)
      ensures ok ==> tried == old(tried) + BlocksOf(fs) && next == old(next) + BlocksOf(fs)
      ensures ok ==> TypedParts(ps, fs) && PartIds(ps) == Range(old(next), next) && PartDataIds(ps) == {} && lost == old(lost)
      ensures !ok ==> next == old(next) + (tried - 1 - old(tried)) && old(lost) <= lost <= old(lost) + Range(old(next), next)
      decreases fs
    {
      ghost var n0 := next;
      Ranges(n0, n0, n0);
      if fs.NoField? {
        return true, NoPart;
      }
      var p: Ptr := Null;
      if !fs.optional {
        p := NewField(fs);
        if p.Null? {
          return false, NoPart;
        }
      }
      ghost var n1 := next;
      var filled, tail := NewParts(fs.rest);
      Ranges(n0, n1, next);
      return filled, if filled then Part(p, tail) else NoPart;
    }

    /** A field that is not optional. */
    method NewField(fs: Shapes) returns (p: Ptr)
      requires Valid() && !fs.NoField? && !fs.optional
      modifies this`tried, this`next, this`live, this`lost
      ensures Valid() && Owned(p) && live == old(live) + Range(old(next), next)
      ensures if fs.Field? then Typed(p, fs.shape) else TypedList(p, fs.element)
      ensures
        var n := if fs.Field? then Blocks(fs.shape) else 1;
        && StopsAtRefusal(old(tried), tried) && old(tried) < tried <= old(tried) + n
        && (p.To? <==> Granted(old(tried), n)) && (p.To? <==> !Refused(old(tried), tried))
        && (p.To? ==> tried == old(tried) + n && next == old(next) + n && Ids(p) == Range(old(next), next) && DataIds(p) == {} && lost == old(lost))
      ensures p.Null? ==> next == old(next) + (tried - 1 - old(tried)) && old(lost) <= lost <= old(lost) + Range(old(next), next)
      decreases fs, 0
    {
      if fs.Field? {
        p := New(fs.shape);
      } else {
        var got, id := Malloc();
        Ranges(id, id, next);
        p := if got then To(Obj(id, NoPart)) else Null;
      }
    }

    // ------------------------------------------------------------------- strings

    /** The caller's data are too short for what is read. */
    predicate Replaces(input: Reading, a: Ptr)
    {
      input.Plain? && a.To? && a.obj.Text? && a.obj.data.Block? && input.len > a.obj.length
    }

    /** They are long enough. */
    predicate Reuses(input: Reading, a: Ptr)
    {
      input.Plain? && a.To? && a.obj.Text? && 0 < input.len <= a.obj.length
    }

    /** New data are needed. */
    predicate Allocates(input: Reading, a: Ptr)
    {
      input.Plain? && a.To? && a.obj.Text? && input.len > 0 && (a.obj.data.NoData? || input.len > a.obj.length)
    }

    /** d2i_ASN1_bytes. It frees the caller's data before it allocates the replacement: if
        that is refused, the string is left with a pointer to freed data. */
    method ReadString(input: Reading, a: Ptr) returns (out: Outcome, a': Ptr, ghost dead: set<nat>)
      requires Valid() && Owned(a) && Typed(a, Str) && Ids(a) <= live && Ids(a) !! lost
      modifies this`tried, this`next, this`live
      ensures Valid() && old(tried) <= tried && old(next) <= next && StopsAtRefusal(old(tried), tried)
      ensures out == FreedTwice ==> input.Parted? && Refused(old(tried), tried)
      ensures out != FreedTwice ==>
        && Kept(Ids(a), Ids(a'), dead, {}, old(live), live, old(next), next) && Owned(a') && Typed(a', Str)
        && (if a.To? then a'.To? && a'.obj.id == a.obj.id else a'.To? <==> out == Done)
        && (out == Failed ==> a' == a)
      ensures out == Done ==> a'.To? && !Refused(old(tried), tried)
      // exactly when a pointer to freed data is left, and when the caller's data are freed
      ensures out != FreedTwice ==> dead == if Replaces(input, a) && !grants(old(tried)) then DataIds(a) else {}
      ensures out != FreedTwice && dead != {} ==> out == Failed && Refused(old(tried), tried)
      ensures out != FreedTwice ==> (DataIds(a) <= Ids(a') <==> out == Failed || DataIds(a) == {} || Reuses(input, a))
      ensures out == Done ==> Proper(input, false) && a'.obj.Text? && a'.obj.length == Length(input)
      ensures Proper(input, true) ==> out == Done || Refused(old(tried), tried)
      decreases input, 2
    {
      hide Proper, Length;
      NothingIs(Str);
      dead := {};
      if a.To? {
        out, a', dead := FillString(input, a);
        return;
      }
      ghost var n0 := next;
      var got, id := Malloc();
      Ranges(n0, n0, next);
      if !got { return Failed, a, {}; }
      StringIs(id, NoData, 0);
      out, a', dead := FillString(input, To(Text(id, NoData, 0)));
      Ranges(n0, n0 + 1, next);
      if out == Failed {
        FreeAll(a');
        a' := Null;
      }
    }

    /** Its part on a string there is. */
    method FillString(input: Reading, a: Ptr) returns (out: Outcome, a': Ptr, ghost dead: set<nat>)
      requires Valid() && a.To? && Owned(a) && Typed(a, Str) && Ids(a) <= live && Ids(a) !! lost
      modifies this`tried, this`next, this`live
      ensures Valid() && old(tried) <= tried && old(next) <= next && StopsAtRefusal(old(tried), tried)
      ensures out == FreedTwice ==> input.Parted? && Refused(old(tried), tried)
      ensures out != FreedTwice ==>
        && Kept(Ids(a), Ids(a'), dead, {}, old(live), live, old(next), next) && Owned(a') && Typed(a', Str)
        && a'.To? && a'.obj.id == a.obj.id
      ensures out == Done ==> !Refused(old(tried), tried)
      ensures out == Failed ==> a' == a
      ensures input.Plain? ==> tried == old(tried) + (if Allocates(input, a) then 1 else 0) && (out == Done <==> !Refused(old(tried), tried))
      ensures out == Done && input.Plain? ==> a'.obj.length == input.len && (a'.obj.data.Block? <==> input.len > 0)
      ensures out != FreedTwice ==> dead == if Replaces(input, a) && !grants(old(tried)) then DataIds(a) else {}
      ensures out != FreedTwice && dead != {} ==> out == Failed && Refused(old(tried), tried)
      ensures out == Done ==> (DataIds(a) <= Ids(a') <==> DataIds(a) == {} || Reuses(input, a))
      // it reads what makes a string, unless memory is refused, and nothing else
      ensures out == Done ==> Proper(input, false) && a'.obj.length == Length(input)
      ensures Proper(input, true) ==> out == Done || Refused(old(tried), tried)
      decreases input, 1
    {
      var id, data := a.obj.id, a.obj.data;
      StringIs(id, data, a.obj.length);
      Ranges(next, next, next);
      dead := {};
      match input {
        case Refusal => return Failed, a, {};
        case Plain(len) =>
          if len == 0 {
            if data.Block? { Free(data.block); }
            return Done, To(Text(id, NoData, 0)), {};
          }
          if data.Block? && a.obj.length >= len {
            return Done, To(Text(id, data, len)), {};
          }
          if data.Block? { Free(data.block); }
          var got, s := Malloc();
          Ranges(s, s, next);
          if !got { return Failed, a, BlockOf(data); }
          return Done, To(Text(id, Block(s), len)), {};
        case Parted(parts, complete) =>
          PartedIs(parts, complete, false);
          PartedIs(parts, complete, true);
          var b, num;
          out, b, num := Collate(parts, complete);
          if out != Done { return out, a, {}; }
          if data.Block? { Free(data.block); }
          return Done, To(Text(id, b, num)), {};
      }
    }

    /** asn1_collate_primitive: the octets of the parts in one buffer. The parts are read
        into one string `os`, which is freed at the end, and also after a part that left it
        with a pointer to freed data. */
    method Collate(parts: seq<Reading>, complete: bool) returns (out: Outcome, b: Data, num: nat)
      requires Valid()
      modifies this`tried, this`next, this`live
      ensures Valid() && old(tried) <= tried && old(next) <= next && StopsAtRefusal(old(tried), tried)
      ensures out == FreedTwice ==> Refused(old(tried), tried)
      ensures out == Failed ==> live == old(live)
      ensures out == Done ==> !Refused(old(tried), tried) && BlockOf(b) <= Range(old(next), next) && live == old(live) + BlockOf(b)
      ensures out == Done ==> complete && (parts != [] ==> Length(parts[0]) > 0) && (forall p <- parts :: Proper(p, false)) && num == LengthAll(parts)
      ensures complete && (parts != [] ==> Length(parts[0]) > 0) && (forall p <- parts :: Proper(p, true)) && LengthAll(parts) <= 0x5fff_fffc ==>
        out == Done || Refused(old(tried), tried)
      decreases parts, 0
    {
      hide Ids, DataIds, Owned, Proper, Length, LengthAll;
      NoLength();
      ghost var n0, t0, live0 := next, tried, live;
      NothingIs(Str);
      Ranges(n0, n0, n0);
      var os: Ptr := Null;
      var max, j := 0, 0;
      b, num := NoData, 0;
      while j < |parts|
        invariant j <= |parts| && Valid() && t0 <= tried && n0 <= next && StopsAtRefusal(t0, tried) && !Refused(t0, tried)
        invariant Owned(os) && Typed(os, Str) && Ids(os) + BlockOf(b) <= Range(n0, next) && Ids(os) !! BlockOf(b)
        invariant live == live0 + Ids(os) + BlockOf(b)
        invariant num == LengthAll(parts[..j]) && (forall i :: 0 <= i < j ==> Proper(parts[i], false)) && (j > 0 ==> num > 0 && Length(parts[0]) > 0)
      {
        LengthOfPrefix(parts, j);
        if j == 0 { assert parts[..j] == []; }
        Ranges(n0, next, next);
        out, os, b, num, max := CollatePart(parts[j], os, b, num, max, n0);
        if out != Done { return; }
        j := j + 1;
      }
      if !complete {
        out := Discard(os, b, {});
        return;
      }
      FreeAll(os);
      assert parts[..j] == parts;
      return Done, b, num;
    }

    lemma NoLength()
      ensures LengthAll([]) == 0
    {
    }

    /** One part: read into `os`, then appended to `b`. */
    method CollatePart(part: Reading, os: Ptr, b: Data, num: nat, max: nat, ghost n0: nat)
      returns (out: Outcome, os': Ptr, b': Data, num': nat, max': nat)
      requires Valid() && n0 <= next && Owned(os) && Typed(os, Str)
      requires Ids(os) + BlockOf(b) <= Range(n0, next) && Ids(os) !! BlockOf(b) && Ids(os) + BlockOf(b) <= live && (Ids(os) + BlockOf(b)) !! lost
      modifies this`tried, this`next, this`live
      ensures Valid() && old(tried) <= tried && old(next) <= next && StopsAtRefusal(old(tried), tried)
      ensures out == FreedTwice ==> Refused(old(tried), tried)
      // exactly a part longer than the one before, when its data are refused
      ensures !part.Parted? ==> (out == FreedTwice <==> Replaces(part, os) && !grants(old(tried)))
      ensures out == Failed ==> live == old(live) - Ids(os) - BlockOf(b)
      ensures out == Done ==> !Refused(old(tried), tried) && os'.To? && Owned(os') && Typed(os', Str) && num' == num + os'.obj.length > 0
      ensures out == Done ==>
        && Ids(os') + BlockOf(b') <= Range(n0, next) && Ids(os') !! BlockOf(b')
        && live == (old(live) - Ids(os) - BlockOf(b)) + Ids(os') + BlockOf(b')
      ensures out == Done ==> Proper(part, false) && num' == num + Length(part)
      ensures Proper(part, true) && 0 < num + Length(part) <= 0x5fff_fffc ==> out == Done || Refused(old(tried), tried)
      decreases part, 4
    {
      hide Ids, DataIds, Owned, BlockOf, Replaces, Proper, Length;
      ghost var n1 := next;
      b', num', max' := b, num, max;
      out, os' := ReadPart(part, os, b);
      Ranges(n0, n1, next);
      if out != Done { return; }
      ghost var n2 := next;
      out, b', num', max' := Append(os', b, num, max);
      Ranges(n0, n2, next);
    }

    /** A part into `os`, or everything given back. */
    method ReadPart(part: Reading, os: Ptr, b: Data) returns (out: Outcome, os': Ptr)
      requires Valid() && Owned(os) && Typed(os, Str)
      requires Ids(os) !! BlockOf(b) && Ids(os) + BlockOf(b) <= live && (Ids(os) + BlockOf(b)) !! lost
      modifies this`tried, this`next, this`live
      ensures Valid() && old(tried) <= tried && old(next) <= next && StopsAtRefusal(old(tried), tried)
      ensures out == FreedTwice ==> Refused(old(tried), tried)
      ensures !part.Parted? ==> (out == FreedTwice <==> Replaces(part, os) && !grants(old(tried)))
      ensures out == Failed ==> live == old(live) - Ids(os) - BlockOf(b)
      ensures out == Done ==> !Refused(old(tried), tried) && os'.To? && Owned(os') && Typed(os', Str)
      ensures out == Done ==> Ids(os') <= Ids(os) + Range(old(next), next) && live == (old(live) - Ids(os)) + Ids(os') && Ids(os') !! BlockOf(b)
      ensures out == Done ==> Proper(part, false) && os'.obj.length == Length(part)
      ensures Proper(part, true) ==> out == Done || Refused(old(tried), tried)
      decreases part, 3
    {
      hide Ids, DataIds, Owned, Proper, Length;
      if os.To? { StringIs(os.obj.id, os.obj.data, os.obj.length); }
      DataInside(os);
      ghost var dead;
      out, os', dead := ReadString(part, os);
      if out == Failed {
        out := Discard(os', b, dead);
      } else {
        assert out == Done ==> dead == {};
      }
    }

    /** Its octets into the buffer, or everything given back. */
    method Append(os: Ptr, b: Data, num: nat, max: nat) returns (out: Outcome, b': Data, num': nat, max': nat)
      requires Valid() && os.To? && Owned(os) && Typed(os, Str)
      requires Ids(os) !! BlockOf(b) && Ids(os) + BlockOf(b) <= live && (Ids(os) + BlockOf(b)) !! lost
      modifies this`tried, this`next, this`live
      ensures Valid() && old(tried) <= tried && old(next) <= next && StopsAtRefusal(old(tried), tried) && out != FreedTwice
      ensures out == Failed ==> live == old(live) - Ids(os) - BlockOf(b)
      ensures out == Failed ==> num + os.obj.length == 0 || num + os.obj.length > Asn1Template.LIMIT_BEFORE_EXPANSION || Refused(old(tried), tried)
      ensures out == Done ==> !Refused(old(tried), tried) && num' == num + os.obj.length > 0
      ensures out == Done ==> BlockOf(b') <= BlockOf(b) + Range(old(next), next) && Ids(os) !! BlockOf(b')
      ensures out == Done ==> live == (old(live) - BlockOf(b)) + BlockOf(b')
    {
      hide Ids, DataIds, Owned;
      var ok;
      out, num' := Done, num + os.obj.length;
      ok, b', max' := Grow(b, num, max, num');
      if !ok { out := Discard(os, b, {}); }
    }

    /** The error exit: ASN1_STRING_free(os) and OPENSSL_free(b.data). */
    method Discard(os: Ptr, b: Data, ghost dead: set<nat>) returns (out: Outcome)
      requires Valid() && Owned(os) && Typed(os, Str) && Ids(os) - dead <= live && dead !! live && dead <= DataIds(os)
      requires Ids(os) !! BlockOf(b) && BlockOf(b) <= live && (Ids(os) - dead) !! lost && BlockOf(b) !! lost
      modifies this`live
      ensures Valid() && out != Done && (out == FreedTwice <==> dead != {})
      ensures out == Failed ==> live == old(live) - Ids(os) - BlockOf(b)
    {
      if os.To? && os.obj.data.Block? && os.obj.data.block !in live {
        return FreedTwice;
      }
      FreeAll(os);
      if b.Block? { Free(b.block); }
      return Failed;
    }

    /** BUF_MEM_grow_clean, which returns the length: for a length of 0 it reports failure. */
    method Grow(b: Data, num: nat, max: nat, len: nat) returns (ok: bool, b': Data, max': nat)
      requires Valid() && BlockOf(b) <= live && BlockOf(b) !! lost && num <= len
      modifies this`tried, this`next, this`live
      ensures Valid() && old(tried) <= tried && old(next) <= next && StopsAtRefusal(old(tried), tried)
      ensures live == (old(live) - BlockOf(b)) + BlockOf(b') && BlockOf(b') <= BlockOf(b) + Range(old(next), next)
      ensures ok ==> 0 < len && !Refused(old(tried), tried)
      ensures !ok ==> b' == b && (len == 0 || len > Asn1Template.LIMIT_BEFORE_EXPANSION || Refused(old(tried), tried))
    {
      Ranges(next, next, next);
      b', max' := b, max;
      if num >= len || max >= len {
        return len != 0, b, max;
      }
      if len > Asn1Template.LIMIT_BEFORE_EXPANSION {
        return false, b, max;
      }
      var got, s := Malloc();
      Ranges(s, s, next);
      if !got { return false, b, max; }
      if b.Block? { Free(b.block); }
      return true, Block(s), (len + 3) / 3 * 4;
    }

    // ------------------------------------------------------------------ d2i calls

    /** What holds after a call in which the blocks `was` of a pointer became `now`: nothing
        but data of strings was freed of them, at most one pointer to freed data is left
        among them, and what was allocated is owned by `now`, freed or lost. */
    ghost predicate Accounted(out: Outcome, t0: nat, n0: nat, live0: set<nat>, lost0: set<nat>,
                              was: set<nat>, data: set<nat>, now: set<nat>, dead: set<nat>)
      reads this
    {
      && Valid() && t0 <= tried && n0 <= next && StopsAtRefusal(t0, tried)
      && (out == FreedTwice ==> Refused(t0, tried))
      && (out == Done ==> !Refused(t0, tried) && dead == {} && lost == lost0)
      && (out != FreedTwice ==>
            && lost0 <= lost && now !! lost && Kept(was, now, dead, lost - lost0, live0, live, n0, next)
            && dead <= data && AtMostOne(dead) && was - data <= now && (dead != {} || lost != lost0 ==> Refused(t0, tried)))
    }

    /** A first part done, then a second one. */
    lemma Join(out: Outcome, t0: nat, t1: nat, n0: nat, n1: nat, live0: set<nat>, live1: set<nat>, lost0: set<nat>,
               a: set<nat>, da: set<nat>, a': set<nat>, b: set<nat>, db: set<nat>, b': set<nat>, dead: set<nat>)
      requires t0 <= t1 && n0 <= n1 && StopsAtRefusal(t0, t1) && !Refused(t0, t1) && lost0 <= live0
      requires a !! b && a <= live0 && b <= live0 && Below(live0, n0) && b !! lost0 && db <= b && da <= a
      requires Kept(a, a', {}, {}, live0, live1, n0, n1) && a - da <= a' && a' !! lost0
      requires Accounted(out, t1, n1, live1, lost0, b, db, b', dead)
      ensures Accounted(out, t0, n0, live0, lost0, a + b, da + db, a' + b', dead)
      ensures out != FreedTwice ==> a' !! b'
    {
      if out != FreedTwice {
        Both(a, a', b, b', dead, lost - lost0, live0, live1, live, n0, n1, next);
        Ranges(n0, n1, next);
      }
    }

    /** A first part failed; the second one stays. */
    lemma JoinFailed(t0: nat, n0: nat, live0: set<nat>, lost0: set<nat>,
                     a: set<nat>, da: set<nat>, a': set<nat>, b: set<nat>, db: set<nat>, dead: set<nat>)
      requires a !! b && a <= live0 && b <= live0 && Below(live0, n0) && b !! lost0 && db <= b
      requires Accounted(Failed, t0, n0, live0, lost0, a, da, a', dead)
      ensures Accounted(Failed, t0, n0, live0, lost0, a + b, da + db, a' + b, dead) && a' !! b
    {
      FirstOnly(a, a', b, dead, lost - lost0, live0, live, n0, next);
    }

    /** Nothing happened. */
    lemma Stayed(out: Outcome, t0: nat, n0: nat, live0: set<nat>, lost0: set<nat>, was: set<nat>, data: set<nat>)
      requires Valid() && t0 == tried && n0 == next && live0 == live && lost0 == lost && was <= live && was !! lost && out != FreedTwice
      ensures Accounted(out, t0, n0, live0, lost0, was, data, was, {})
    {
      Unchanged(was, live0, n0);
    }

    /** A call on an object that was allocated for it. */
    lemma FromNothing(out: Outcome, t0: nat, t1: nat, n0: nat, n1: nat, live0: set<nat>, live1: set<nat>, lost0: set<nat>,
                      made: set<nat>, now: set<nat>, dead: set<nat>)
      requires t0 <= t1 && n0 <= n1 && StopsAtRefusal(t0, t1) && !Refused(t0, t1) && Below(live0, n0)
      requires made == Range(n0, n1) && live1 == live0 + made
      requires Accounted(out, t1, n1, live1, lost0, made, {}, now, dead)
      ensures Accounted(out, t0, n0, live0, lost0, {}, {}, now, dead)
      ensures out != FreedTwice ==> dead == {} && now <= live
    {
      Ranges(n0, n1, next);
    }

    /** A call that fails returns an object of its own after freeing it. */
    lemma GivenBack(t0: nat, n0: nat, live0: set<nat>, live1: set<nat>, lost0: set<nat>, now: set<nat>)
      requires Valid() && t0 <= tried && n0 <= next && StopsAtRefusal(t0, tried) && lost0 <= lost && now !! lost
      requires Kept({}, now, {}, lost - lost0, live0, live1, n0, next) && live == live1 - now && Below(live0, n0) && (lost != lost0 ==> Refused(t0, tried))
      ensures Accounted(Failed, t0, n0, live0, lost0, {}, {}, {}, {})
    {
    }

    /** A d2i call: `a` is what the caller's pointer points to (Null also when the
        caller passed no pointer), `a'` what it points to afterwards. */
    method D2i(shape: Shape, a: Ptr, s: Script) returns (out: Outcome, a': Ptr, ghost dead: set<nat>)
      requires Valid() && Owned(a) && Typed(a, shape) && Ids(a) <= live && Ids(a) !! lost
      modifies this`tried, this`next, this`live, this`lost
      ensures Accounted(out, old(tried), old(next), old(live), old(lost), Ids(a), DataIds(a), Ids(a'), dead)
      ensures out != FreedTwice ==> Owned(a') && Typed(a', shape) && (a.To? ==> a'.To? && a'.obj.id == a.obj.id)
      ensures out == Done ==> a'.To?
      ensures out == Failed && a.Null? ==> a'.Null?
      ensures out == Done ==> Readable(shape, s, false)
      ensures Readable(shape, s, true) ==> out == Done || Refused(old(tried), tried)
      ensures a.Null? && !Granted(old(tried), Blocks(shape)) ==> out == Failed && (lost != old(lost) <==> grants(old(tried)))
      decreases shape, 1
    {
      hide Owned, OwnedParts, Typed, TypedParts, TypedList, Ids, PartIds, DataIds, PartDataIds, Kept, Readable;
      ghost var t0, n0, live0, lost0 := tried, next, live, lost;
      NothingIs(shape);
      DataInside(a);
      if a.To? {
        out, a', dead := Fill(shape, a, s);
        return;
      }
      dead := {};
      a' := New(shape);
      if a'.Null? {
        Lost(t0, n0, live0, lost0);
        return Failed, a', {};
      }
      ghost var t1, n1, live1, made := tried, next, live, Ids(a');
      out, a', dead := Fill(shape, a', s);
      FromNothing(out, t0, t1, n0, n1, live0, live1, lost0, made, Ids(a'), dead);
      if out == Failed {
        ghost var live2 := live;
        FreeAll(a');
        GivenBack(t0, n0, live0, live2, lost0, Ids(a'));
        a' := Null;
      }
    }

    /** From M_ASN1_D2I_Init to M_ASN1_D2I_Finish, on an object there is; d2i_ASN1_bytes
        for a string. */
    method Fill(shape: Shape, a: Ptr, s: Script) returns (out: Outcome, a': Ptr, ghost dead: set<nat>)
      requires Valid() && a.To? && Owned(a) && Typed(a, shape) && Ids(a) <= live && Ids(a) !! lost
      modifies this`tried, this`next, this`live, this`lost
      ensures Accounted(out, old(tried), old(next), old(live), old(lost), Ids(a), DataIds(a), Ids(a'), dead)
      ensures out != FreedTwice ==> a'.To? && Owned(a') && Typed(a', shape) && a'.obj.id == a.obj.id
      ensures out == Done ==> Readable(shape, s, false)
      ensures Readable(shape, s, true) ==> out == Done || Refused(old(tried), tried)
      decreases shape, 0
    {
      hide Owned, OwnedParts, Typed, TypedParts, Ids, PartIds, DataIds, PartDataIds, Accounted, Readable, ReadableParts, ReadableList, Proper;
      ghost var t0, n0, live0, lost0 := tried, next, live, lost;
      TypedIs(a, shape);
      ScriptIs(shape, s, false);
      ScriptIs(shape, s, true);
      if shape.Str? {
        out, a', dead := FillString(s.reading, a);
        StringAccounted(out, t0, n0, live0, a, a', dead);
        return;
      }
      ObjectIs(a.obj.id, a.obj.parts, shape.fields);
      PartDataInside(a.obj.parts);
      if !s.header {
        Stayed(Failed, t0, n0, live0, lost0, Ids(a), DataIds(a));
        return Failed, a, {};
      }
      var parts;
      out, parts, dead := ReadParts(shape.fields, a.obj.parts, s.parts);
      ObjectIs(a.obj.id, parts, shape.fields);
      a' := To(Obj(a.obj.id, parts));
      Around(out, t0, n0, live0, lost0, a.obj.id, PartIds(a.obj.parts), PartDataIds(a.obj.parts), PartIds(parts), dead);
      if out == Done && !s.finish {
        out := Failed;
        DoneIsFailed(t0, n0, live0, lost0, Ids(a), DataIds(a), Ids(a'));
      }
    }

    lemma DoneIsFailed(t0: nat, n0: nat, live0: set<nat>, lost0: set<nat>, was: set<nat>, data: set<nat>, now: set<nat>)
      requires Accounted(Done, t0, n0, live0, lost0, was, data, now, {})
      ensures Accounted(Failed, t0, n0, live0, lost0, was, data, now, {})
    {
    }

    /** The object around its parts. */
    lemma Around(out: Outcome, t0: nat, n0: nat, live0: set<nat>, lost0: set<nat>, id: nat,
                 was: set<nat>, data: set<nat>, now: set<nat>, dead: set<nat>)
      requires id in live0 && id !in was && id !in lost0 && was <= live0 && Below(live0, n0)
      requires Accounted(out, t0, n0, live0, lost0, was, data, now, dead)
      ensures Accounted(out, t0, n0, live0, lost0, {id} + was, data, {id} + now, dead)
      ensures out != FreedTwice ==> id !in now
    {
    }

    lemma StringAccounted(out: Outcome, t0: nat, n0: nat, live0: set<nat>, a: Ptr, a': Ptr, dead: set<nat>)
      requires Valid() && t0 <= tried && n0 <= next && StopsAtRefusal(t0, tried) && a.To? && Typed(a, Str) && Owned(a)
      requires (out == FreedTwice ==> Refused(t0, tried)) && (out == Done ==> !Refused(t0, tried))
      requires out != FreedTwice ==> a'.To? && a'.obj.id == a.obj.id && Kept(Ids(a), Ids(a'), dead, {}, live0, live, n0, next)
      requires out != FreedTwice ==> (dead == {} || dead == DataIds(a)) && (dead != {} ==> out == Failed && Refused(t0, tried))
      requires Ids(a) !! lost && lost <= live0 && Below(live0, n0)
      ensures Accounted(out, t0, n0, live0, lost, Ids(a), DataIds(a), Ids(a'), dead)
    {
    }

    /** The M_ASN1_D2I_get* macros of one body, up to the first that fails. */
    method ReadParts(fs: Shapes, ps: Parts, ss: seq<Script>) returns (out: Outcome, ps': Parts, ghost dead: set<nat>)
      requires Valid() && OwnedParts(ps) && TypedParts(ps, fs) && PartIds(ps) <= live && PartIds(ps) !! lost
      modifies this`tried, this`next, this`live, this`lost
      ensures Accounted(out, old(tried), old(next), old(live), old(lost), PartIds(ps), PartDataIds(ps), PartIds(ps'), dead)
      ensures out != FreedTwice ==> OwnedParts(ps') && TypedParts(ps', fs)
      ensures out == Done ==> ReadableParts(fs, ss, false)
      ensures ReadableParts(fs, ss, true) ==> out == Done || Refused(old(tried), tried)
      decreases fs, 1
    {
      hide Owned, OwnedParts, Typed, TypedParts, TypedList, Ids, PartIds, DataIds, PartDataIds, ReadableParts, ReadableField;
      ghost var t0, n0, live0, lost0 := tried, next, live, lost;
      NoFieldIs(ps, fs);
      PartScriptIs(fs, ss, false);
      PartScriptIs(fs, ss, true);
      if fs.NoField? {
        Stayed(Done, t0, n0, live0, lost0, PartIds(ps), PartDataIds(ps));
        return Done, ps, {};
      }
      FieldIs(ps.part, ps.rest, fs);
      DataInside(ps.part);
      PartDataInside(ps.rest);
      var p;
      out, p, dead := ReadField(fs, ps.part, Next(ss));
      FieldIs(p, ps.rest, fs);
      if out == FreedTwice { return out, ps, dead; }
      if out == Failed {
        JoinFailed(t0, n0, live0, lost0, Ids(ps.part), DataIds(ps.part), Ids(p), PartIds(ps.rest), PartDataIds(ps.rest), dead);
        return Failed, Part(p, ps.rest), dead;
      }
      ghost var t1, n1, live1 := tried, next, live;
      FirstOnly(Ids(ps.part), Ids(p), PartIds(ps.rest), {}, {}, live0, live1, n0, n1);
      var rest;
      out, rest, dead := ReadParts(fs.rest, ps.rest, After(ss));
      Join(out, t0, t1, n0, n1, live0, live1, lost0, Ids(ps.part), DataIds(ps.part), Ids(p), PartIds(ps.rest), PartDataIds(ps.rest), PartIds(rest), dead);
      FieldIs(p, rest, fs);
      ps' := Part(p, rest);
    }

    /** One of them; an optional field may be absent. */
    method ReadField(fs: Shapes, p: Ptr, s: Script) returns (out: Outcome, p': Ptr, ghost dead: set<nat>)
      requires Valid() && !fs.NoField? && Owned(p) && (if fs.Field? then Typed(p, fs.shape) else TypedList(p, fs.element))
      requires Ids(p) <= live && Ids(p) !! lost
      modifies this`tried, this`next, this`live, this`lost
      ensures Accounted(out, old(tried), old(next), old(live), old(lost), Ids(p), DataIds(p), Ids(p'), dead)
      ensures out != FreedTwice ==> Owned(p') && if fs.Field? then Typed(p', fs.shape) else TypedList(p', fs.element)
      ensures out == Done ==> ReadableField(fs, s, false)
      ensures ReadableField(fs, s, true) ==> out == Done || Refused(old(tried), tried)
      decreases fs, 0
    {
      hide Owned, Typed, TypedList, Ids, DataIds, Accounted, Readable, ReadableList;
      if fs.optional && !s.present {
        Stayed(Done, tried, next, live, lost, Ids(p), DataIds(p));
        return Done, p, {};
      }
      if fs.Field? {
        out, p', dead := D2i(fs.shape, p, s);
      } else {
        ghost var t0, n0, live0, lost0 := tried, next, live, lost;
        out, p', dead := D2iSet(fs.element, p, s);
        NoDataFreed(out, t0, n0, live0, lost0, Ids(p), DataIds(p), Ids(p'));
      }
    }

    /** A call that freed no data at all. */
    lemma NoDataFreed(out: Outcome, t0: nat, n0: nat, live0: set<nat>, lost0: set<nat>, was: set<nat>, data: set<nat>, now: set<nat>)
      requires Accounted(out, t0, n0, live0, lost0, was, {}, now, {})
      ensures Accounted(out, t0, n0, live0, lost0, was, data, now, {})
    {
    }

    /** d2i_ASN1_SET: elements are pushed on the caller's stack, or on a new one that is
        freed with its elements when an element cannot be read. An element that cannot be
        pushed is lost. The order of the elements does not matter here. */
    method D2iSet(element: Shape, a: Ptr, s: Script) returns (out: Outcome, a': Ptr, ghost dead: set<nat>)
      requires Valid() && Owned(a) && TypedList(a, element) && Ids(a) <= live && Ids(a) !! lost
      modifies this`tried, this`next, this`live, this`lost
      ensures Accounted(out, old(tried), old(next), old(live), old(lost), Ids(a), {}, Ids(a'), dead) && dead == {}
      ensures out != FreedTwice ==> Owned(a') && TypedList(a', element) && (a.To? ==> a'.To? && a'.obj.id == a.obj.id)
      ensures out == Done ==> a'.To?
      ensures out == Failed && a.Null? ==> a'.Null?
      ensures out == Done ==> ReadableList(element, s, false)
      ensures ReadableList(element, s, true) ==> out == Done || Refused(old(tried), tried)
      decreases element, 5
    {
      hide Owned, Typed, TypedList, TypedElements, Ids, DataIds, Kept, ReadableList;
      ghost var t0, n0, live0, lost0 := tried, next, live, lost;
      NothingIs(element);
      Ranges(n0, n0, n0);
      dead := {};
      if a.To? {
        out, a' := SetInto(element, a, s);
        return;
      }
      var got, id := Malloc();
      Ranges(n0, n0, next);
      Stayed(Failed, tried, next, live, lost, {}, {});
      if !got {
        RefusedFirst(t0, n0, live0, lost0);
        return Failed, a, {};
      }
      StackIs(id, element);
      ghost var t1, n1, live1 := tried, next, live;
      out, a' := SetInto(element, To(Obj(id, NoPart)), s);
      FromNothing(out, t0, t1, n0, n1, live0, live1, lost0, {id}, Ids(a'), {});
      if out == Failed {
        ghost var live2 := live;
        FreeAll(a');
        GivenBack(t0, n0, live0, live2, lost0, Ids(a'));
        a' := Null;
      }
    }

    /** X_new failed. */
    lemma Lost(t0: nat, n0: nat, live0: set<nat>, lost0: set<nat>)
      requires Valid() && t0 <= tried && n0 <= next && StopsAtRefusal(t0, tried) && Refused(t0, tried)
      requires lost0 <= live0 && Below(live0, n0) && live == live0 + Range(n0, next) && lost == lost0 + Range(n0, next)
      ensures Accounted(Failed, t0, n0, live0, lost0, {}, {}, {}, {})
    {
    }

    lemma RefusedFirst(t0: nat, n0: nat, live0: set<nat>, lost0: set<nat>)
      requires Valid() && tried == t0 + 1 && next == n0 && live == live0 && lost == lost0
      ensures Accounted(Failed, t0, n0, live0, lost0, {}, {}, {}, {})
    {
    }

    /** Its part on a stack there is. */
    method SetInto(element: Shape, a: Ptr, s: Script) returns (out: Outcome, a': Ptr)
      requires Valid() && a.To? && Owned(a) && TypedList(a, element) && Ids(a) <= live && Ids(a) !! lost
      modifies this`tried, this`next, this`live, this`lost
      ensures Accounted(out, old(tried), old(next), old(live), old(lost), Ids(a), {}, Ids(a'), {})
      ensures out != FreedTwice ==> a'.To? && Owned(a') && TypedList(a', element) && a'.obj.id == a.obj.id
      ensures out == Done ==> ReadableList(element, s, false)
      ensures ReadableList(element, s, true) ==> out == Done || Refused(old(tried), tried)
      decreases element, 4
    {
      hide Owned, TypedList, Ids, Accounted, Readable, ReadableList;
      ScriptIs(element, s, false);
      ScriptIs(element, s, true);
      if !s.header {
        Stayed(Failed, tried, next, live, lost, Ids(a), {});
        return Failed, a;
      }
      out, a' := ReadElements(element, a, s.parts);
    }

    /** Its loop, over the elements there are. */
    method ReadElements(element: Shape, stack: Ptr, ss: seq<Script>) returns (out: Outcome, stack': Ptr)
      requires Valid() && stack.To? && Owned(stack) && TypedList(stack, element) && Ids(stack) <= live && Ids(stack) !! lost
      modifies this`tried, this`next, this`live, this`lost
      ensures Accounted(out, old(tried), old(next), old(live), old(lost), Ids(stack), {}, Ids(stack'), {})
      ensures out != FreedTwice ==> stack'.To? && Owned(stack') && TypedList(stack', element) && stack'.obj.id == stack.obj.id
      ensures out == Done ==> forall e <- ss :: Readable(element, e, false)
      ensures (forall e <- ss :: Readable(element, e, true)) ==> out == Done || Refused(old(tried), tried)
      decreases element, 3
    {
      hide Readable, Owned, OwnedParts, Typed, TypedParts, TypedList, TypedElements, Ids, PartIds;
      ghost var t0, n0, live0, lost0 := tried, next, live, lost;
      Stayed(Done, t0, n0, live0, lost0, Ids(stack), {});
      out, stack' := Done, stack;
      var i := 0;
      while out == Done && i < |ss|
        invariant 0 <= i <= |ss| && (out == Done ==> forall j :: 0 <= j < i ==> Readable(element, ss[j], false))
        invariant (forall e <- ss :: Readable(element, e, true)) ==> out == Done || Refused(t0, tried)
        invariant Accounted(out, t0, n0, live0, lost0, Ids(stack), {}, Ids(stack'), {})
        invariant out != FreedTwice ==> stack'.To? && Owned(stack') && TypedList(stack', element) && stack'.obj.id == stack.obj.id
        decreases |ss| - i
      {
        ghost var t1, n1, live1, was := tried, next, live, Ids(stack');
        out, stack' := ReadElement(element, stack', ss[i]);
        OneAfter(out, t0, t1, n0, n1, live0, live1, lost0, Ids(stack), was, Ids(stack'));
        i := i + 1;
      }
    }

    /** One call after another on the same pointer. */
    lemma OneAfter(out: Outcome, t0: nat, t1: nat, n0: nat, n1: nat, live0: set<nat>, live1: set<nat>, lost0: set<nat>,
                   was: set<nat>, mid: set<nat>, now: set<nat>)
      requires t0 <= t1 && n0 <= n1 && StopsAtRefusal(t0, t1) && !Refused(t0, t1) && Below(live0, n0) && lost0 <= live0
      requires Kept(was, mid, {}, {}, live0, live1, n0, n1) && was <= mid
      requires Accounted(out, t1, n1, live1, lost0, mid, {}, now, {})
      ensures Accounted(out, t0, n0, live0, lost0, was, {}, now, {})
    {
      Ranges(n0, n1, next);
    }

    /** What is read beside a stack. */
    lemma Beside(out: Outcome, t0: nat, n0: nat, live0: set<nat>, lost0: set<nat>, was: set<nat>, s: set<nat>)
      requires Accounted(out, t0, n0, live0, lost0, {}, {}, s, {}) && was <= live0 && Below(live0, n0) && was !! lost0
      requires out == Failed ==> s == {}
      ensures Accounted(out, t0, n0, live0, lost0, was, {}, was + s, {})
      ensures out != FreedTwice ==> was !! s && was + s <= live && s <= Range(n0, next)
    {
    }

    /** An element that could not be pushed is lost. */
    lemma Dropped(t0: nat, n0: nat, live0: set<nat>, lost0: set<nat>, was: set<nat>, s: set<nat>, now: set<nat>)
      requires was !! s && s <= Range(n0, next) && now == live && Kept(was, was + s, {}, {}, live0, live, n0, next)
      ensures Kept(was, was, {}, s, live0, now, n0, next)
    {
    }

    /** One turn of its loop: an element read and pushed. */
    method ReadElement(element: Shape, stack: Ptr, script: Script) returns (out: Outcome, stack': Ptr)
      requires Valid() && stack.To? && Owned(stack) && TypedList(stack, element) && Ids(stack) <= live && Ids(stack) !! lost
      modifies this`tried, this`next, this`live, this`lost
      ensures Accounted(out, old(tried), old(next), old(live), old(lost), Ids(stack), {}, Ids(stack'), {})
      ensures out != FreedTwice ==> stack'.To? && Owned(stack') && TypedList(stack', element) && stack'.obj.id == stack.obj.id
      ensures out == Done ==> Readable(element, script, false)
      ensures Readable(element, script, true) ==> out == Done || Refused(old(tried), tried)
      decreases element, 2
    {
      hide Readable, Owned, OwnedParts, Typed, TypedParts, TypedList, TypedElements, Ids, PartIds, DataIds, Kept;
      ghost var t0, n0, live0, lost0 := tried, next, live, lost;
      NothingIs(element);
      stack' := stack;
      var s;
      ghost var dead;
      out, s, dead := D2i(element, Null, script);
      if out == FreedTwice { return; }
      assert dead == {};
      Beside(out, t0, n0, live0, lost0, Ids(stack), Ids(s));
      if out == Failed {
        assert Ids(stack) + Ids(s) == Ids(stack);
        return;
      }
      if !script.room {
        var grown := Grown();
        if !grown {
          assert lost - lost0 == {};
          Dropped(t0, n0, live0, lost0, Ids(stack), Ids(s), live);
          lost := lost + Ids(s);
          assert lost - lost0 == Ids(s);
          return Failed, stack;
        }
      }
      PushedIs(stack, s, element);
      stack' := To(Obj(stack.obj.id, Part(s, stack.obj.parts)));
    }

    /** Making room for one more element: no new block, but an attempt that may fail. */
    method Grown() returns (ok: bool)
      requires Valid()
      modifies this`tried
      ensures Valid() && tried == old(tried) + 1 && ok == grants(old(tried))
    {
      ok := grants(tried);
      tried := tried + 1;
    }
  }

  /** A structure with one field that is not optional, and memory for one block: X_new
      fails and the block stays allocated for ever. */
  method FailingNewLosesABlock() returns (p: Ptr, h: Heap)
    ensures p.Null? && fresh(h) && h.live == {0} && h.lost == {0}
  {
    var leaf := Struct(NoField);
    var shape := Struct(Field(false, leaf, NoField));
    h := new Heap(n => n == 0);
    p := h.New(shape);
    assert Blocks(leaf) == 1 && BlocksOf(shape.fields) == 1 + BlocksOf(NoField) && Blocks(shape) == 2;
    assert !h.grants(1) && h.grants(0);
    assert !h.Granted(0, 2);
    assert Range(0, 1) == {0};
  }

  /** A string of one octet is read again as one of two, and the third allocation refused:
      the call fails and the string points to data that were freed. */
  method RefusedReplacement() returns (h: Heap, a: Ptr, out: Outcome)
    ensures fresh(h) && out == Failed && a.To? && Typed(a, Str) && DataIds(a) != {} && DataIds(a) !! h.live
  {
    h := new Heap(n => n < 2);
    assert h.grants(0) && h.grants(1) && !h.grants(2);
    a := h.New(Str);
    assert h.Granted(0, 1);
    StringIs(a.obj.id, a.obj.data, a.obj.length);
    ghost var dead;
    out, a, dead := h.FillString(Plain(1), a);
    StringIs(a.obj.id, a.obj.data, a.obj.length);
    out, a, dead := h.FillString(Plain(2), a);
  }
}

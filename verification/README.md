# Models and proofs for five libraries of the tree

A Dafny model of the parts of OpenSSL, libupnp's ixml and SQLite that programs of this
tree call through `include/`, with proofs of what those parts promise. Check it with
`dafny verify dfyconfig.toml`.

The headers declare most operations; their bodies are in `libsrc/`. The model follows the
bodies, branch by branch, and cites them beside the headers.

Code that changes things step by step is modelled by classes, arrays and methods with
loops; each method is proved against a function or predicate, and the laws are proved
about those. Files are grouped by their first syllables.

**ASN.1** (`Asn1*.dfy`). The macros of `asn1_mac.h` are read as a language: a template is
the list of field macros in a pair of i2d and d2i functions. `Asn1Header` has the octets of
identifiers and lengths, `Asn1Template` what a template writes and reads, `Asn1Codec` the
imperative macros over a buffer and a cursor, refining it. `Asn1Octets` says what header
octets mean, `Asn1Content` what a string's octets are, `Asn1Spelling` that whatever is read
is spelt in the octets used. `Asn1RoundTrip` and `Asn1Exactness` say exactly when reading
undoes writing, `Asn1Extent` and `Asn1Cursor` where the cursor goes on arbitrary octets,
`Asn1Session` applies it all to SSL_SESSION, `Asn1Ownership` follows every allocation of
nested decoders.

**Big numbers** (`Bignum.dfy`, `Bn*.dfy`). Words of 32 bits in arrays, normalisation and
the predicate macros, multiplication, squaring and Montgomery reduction on words refining
the integer ones, contexts, and exponentiation: on integers all routines and their
dispatch, on words the sliding window (`BnExpWords`) and the constant-time fixed windows
with their interleaved table (`BnExpConst`).

**DOM** (`Dom*.dfy`). Nodes with four links each. A forest is a set of nodes whose links
spell one list of children for each node, with heights that fall from parent to child.
Edits, whole runs of edits, cloning, import and the tag-name lists.

**SQLite** (`Sql*.dfy`). Parameter numbering, constraint push-down to virtual tables,
trigger contexts, single calls on a statement, the codes they return (`SqlCodes`) and its
whole life, mutexes, and the allocator's counters with their history.

Randomness of the environment is a parameter or an unconstrained choice: whether an
allocation succeeds, what an execution of a statement ends in, whether a commit is busy,
what an alarm callback does, which thread moves next, what a virtual table lets through.

## Where the code and its documentation differ

- ASN.1: an indefinite SEQUENCE written as the last thing in its reader's length is not
  read to its end, because `asn1_GetSequence` takes the header off twice and `asn1_Finish`
  moves over the end mark only with more than one octet left. The exact condition is
  `Asn1Exactness.ReadBackExactly`; section 8.1.3.6 of X.690 allows the form anywhere.
- ASN.1: a constructed string may end past the length its decoder was given, because
  `c.max` counts the whole length from behind the header. The exact condition is
  `Asn1Extent.StringStaysInside`; `Asn1Extent.StringEndsPastItsLength` is an input.
- ASN.1: so may a list, whose elements are each offered the length of the whole list
  (`Asn1Cursor.ListStaysInside`, `Asn1Cursor.ListEndsPastItsLength`), and then `slen` goes
  negative, exactly as `Asn1Cursor.FieldsStayInside` says. An enclosing definite SEQUENCE
  then refuses (`Asn1Cursor.StaysInside`).
- ASN.1: no bound on the octets a string looks at follows from its length
  (`Asn1Cursor.NestedStringsReadOn`), and a constructed string whose first part is empty is
  refused, though section 8.7.3 of X.690 allows it (`Asn1Extent.EmptyPartIsRefused`).
- ASN.1: a string of tag 16 or 17 is written constructed and then read as if it had parts:
  only the empty one is read back (`Asn1Exactness.ConstructedReadBack`); the round trip
  leaves these tags out.
- ASN.1: a string read again into the caller's object loses its data before new ones are
  allocated; refused, the object points to freed data (`Asn1Ownership.Heap.ReadString`), and
  among the parts of a constructed string these are freed twice
  (`Asn1Ownership.Heap.CollatePart`).
- ASN.1: an X_new that fails half way loses what it had allocated (`Asn1Ownership.Heap.New`
  says when and what), and a list element whose push fails is lost
  (`Asn1Ownership.Heap.ReadElement`).
- Big numbers: exponent 0 gives 1 even for modulus 1 or -1 (`BnExp.ModExp`).
- Big numbers: constant-time exponentiation returns minus the power of the magnitude for a
  negative base: the table it gathers powers from holds no signs (`BnExp.RightForm`,
  `BnExp.NegativeSquare`). With the constant-time flag BN_mod_exp returns -1, which callers
  that test for 0 take for success, whenever the modulus is even.
- DOM: "if newChild is already in the tree, it is removed first" (`include/ixml.h:454-455`,
  549-550) holds only within the same parent; a child of another parent stays in that list
  too and the tree is broken (`DomEdit.AppendChild`). A node appended to itself becomes its
  own parent. A child replaced by itself is removed. A NULL `refChild`, documented as "at
  the end", aborts. insertBefore refuses a child without owner document when the parent has
  one, and removeChild leaves the owner as it was. The ancestor test also refuses left
  siblings of ancestors (`DomEdit.SiblingRefused`).
- DOM: a deep clone loses the right siblings of text and CDATA nodes
  (`DomClone.DeepCloneIsWhole`), and a cloned document tells only its first child who its
  parent is (`DomClone.CloneDocument`). The attributes of a clone know no element, and those
  of an imported node no document, against `include/ixml.h:1084-1089`
  (`DomClone.ImportNode`). The tag-name lists include the node itself.
- SQLite: a `?NNN` parameter has a name and can hide the name of another parameter
  (`SqlParameters.LookupOfName`), against `include/sqlite3.h:2515`.
- SQLite: a failure inside a trigger leaves the trigger's row id as the last one
  (`SqlTriggers.FailedInsideTrigger`, `SqlTriggers.AbortShowsTriggersRowid`), RAISE(IGNORE)
  loses counts (`SqlTriggers.TotalIsExact`, `SqlTriggers.IgnoreLosesACount`), and inside a
  trigger changes() is that of the last completed step of any context, against
  `include/sqlite3.h:959-962` (`SqlTriggers.ChangesInsideTrigger` says when it is right).
- SQLite: data_count can stay above zero after a failed step (`SqlStatement.DataAfterStep`);
  a commit that is busy while a statement is reset leaves the connection's count of running
  statements one too high for good. A statement whose constraint failed under OR FAIL still
  owes a commit; if that commit was busy, a later reset runs it and its failure replaces
  the constraint's code (`SqlStatement.ResetCode`).
- SQLite: with the home-grown recursive mutexes sqlite3_mutex_try waits
  (`SqlMutex.TryBlocks`).
- SQLite: the counters do not include the allocator's own eight bytes per block
  (`SqlAllocator.OverheadNotCounted`), against `include/sqlite3.h:1577-1580`.
- SQLite: a term of the ON clause of a LEFT JOIN that speaks only of a table to its left
  is usable for that table, because the right table is no part of `prereqRight`
  (`where.c:735-744`, 1366). A virtual table that takes it loses rows
  (`SqlPushdown.LaterTermLosesAnswer`); `SqlPushdown.Query` says exactly when nothing is
  lost. The omit flag is honoured whether or not the constraint was passed or usable.

## Model

| member | source | states |
|---|---|---|
| `Asn1Header.ReadObject` | libsrc/openssl-1.0.1g/crypto/asn1/asn1_lib.c:94-152 | The imperative header reader returns exactly what `GetObject` defines for every buffer, position and limit: octets used, tag, class, length, both flags, refusal, or a read outside the buffer. |
| `Asn1Header.ReadLength` | libsrc/openssl-1.0.1g/crypto/asn1/asn1_lib.c:154-191 | The length octets are read as `GetLength` defines, including the refusal of more than four length octets and of a value above `LONG_MAX`, and the limit test that wants an octet after the long form. |
| `Asn1Header.ReadHighTag` | libsrc/openssl-1.0.1g/crypto/asn1/asn1_lib.c:108-124 | The loop over high-tag octets computes the base-128 value, with the overflow and end-of-limit refusals. |
| `Asn1Header.ReadInfiniteEnd` | libsrc/openssl-1.0.1g/crypto/asn1/asn1_lib.c:69-86 | The end-of-contents test answers as `CheckInfiniteEnd`: nothing left counts as an end and moves nothing; otherwise it moves by two exactly on two zero octets. |
| `Asn1Header.WriteObject` | libsrc/openssl-1.0.1g/crypto/asn1/asn1_lib.c:195-223 | Writing a header changes exactly the octets of `PutObject` at the cursor and moves the cursor past them. |
| `Asn1Header.WriteLength` | libsrc/openssl-1.0.1g/crypto/asn1/asn1_lib.c:234-255 | The length is written in the short form up to 127 and otherwise in the fewest octets, most significant first; nothing else of the buffer changes. |
| `Asn1Header.CountObject` | libsrc/openssl-1.0.1g/crypto/asn1/asn1_lib.c:257-283 | The counting loops compute `ObjectSize`. |
| `Asn1Header.ObjectSizeIsPutSize` | libsrc/openssl-1.0.1g/crypto/asn1/asn1_lib.c:195-283 | The size announced for an object equals the octets the header writer writes plus the content plus, for the indefinite form, the end mark: for every form, length, tag and class. |
| `Asn1Header.LengthRoundTrip` | libsrc/openssl-1.0.1g/crypto/asn1/asn1_lib.c:154-255 | Reading back a written length returns it and stops at its end, for every length an `int` holds and whatever follows. |
| `Asn1Header.TagRoundTrip` | libsrc/openssl-1.0.1g/crypto/asn1/asn1_lib.c:108-124 | Reading back a tag of 31 or more returns it and stops at its end, for every tag an `int` holds. |
| `Asn1Header.IdentifierRoundTrip` | libsrc/openssl-1.0.1g/crypto/asn1/asn1_lib.c:195-223 | Identifier octets keep tag, class and the constructed bit through writing and reading. |
| `Asn1Header.HeaderRoundTrip` | libsrc/openssl-1.0.1g/crypto/asn1/asn1_lib.c:94-223 | A whole header reads back as written, octet count included, when the limit covers the object. |
| `Asn1Octets.LengthMeans` | libsrc/openssl-1.0.1g/crypto/asn1/asn1_lib.c:154-191 | Length octets are accepted if and only if they are one octet up to 0x80, or a count of at most four octets whose number is at most 2^31 - 1 and with an octet to spare in the limit; the length is then that number. |
| `Asn1Octets.HighTagMeans` | libsrc/openssl-1.0.1g/crypto/asn1/asn1_lib.c:108-124 | The digits of a high tag, the last one without bit 8, are accepted if and only if the number before the last digit is below 2^24 and the limit does not run out on them; the tag is then the number of all digits. |
| `Asn1Octets.ObjectMeans` | libsrc/openssl-1.0.1g/crypto/asn1/asn1_lib.c:94-152 | A header that is read has class and form from the first octet, its tag from there or from the digits behind it, its length from the length octets right after, and the flag for a content longer than the limit leaves. |
| `Asn1Octets.LengthIsShortest` | libsrc/openssl-1.0.1g/crypto/asn1/asn1_lib.c:234-255 | The length written is one octet below 128 and otherwise a count and the number, without a leading zero. |
| `Asn1Octets.IdentifierIsShortest` | libsrc/openssl-1.0.1g/crypto/asn1/asn1_lib.c:195-223 | The identifier written has class and form in its first octet, tags up to 30 there too and others behind it as digits without a leading zero, all but the last marked. |
| `Asn1RoundTrip.SizeIsEncodedLength` | include/openssl/asn1_mac.h:361-384 | The length pass agrees with the put pass: for every template and object, `Size` is the number of octets of `Encode`. |
| `Asn1RoundTrip.SizeOfSlot` | include/openssl/asn1_mac.h:424-444 | The same for each kind of field, EXPLICIT and list fields included. |
| `Asn1RoundTrip.NextOctetDiffers` | include/openssl/asn1_mac.h:142-163 | In a well-formed template an absent optional field never matches the octet that really comes next. |
| `Asn1RoundTrip.ImplicitOctetRestoresType` | include/openssl/asn1_mac.h:149-163 | The identifier octet the IMPLICIT reader puts back is the one the IMPLICIT writer overwrote. |
| `Asn1RoundTrip.ReadBack` | include/openssl/asn1_mac.h:106-163 | d2i undoes i2d: for every well-formed template, object of its shape, following octets and extra length, reading returns the object (empty optional lists as absent) and stops exactly at its end, given room after indefinite SEQUENCEs. |
| `Asn1RoundTrip.ReadBackExplicit` | include/openssl/asn1_mac.h:263-313 | Round trip of EXPLICIT wrappers, definite and indefinite, around objects and lists. |
| `Asn1RoundTrip.ReadBackList` | libsrc/openssl-1.0.1g/crypto/asn1/a_set.c:166-239 | Round trip of SEQUENCE OF through the element loop of d2i_ASN1_SET. |
| `Asn1Exactness.ReadBackExactly` | include/openssl/asn1_mac.h:106-126 | The round trip holds if and only if every indefinite SEQUENCE has at least two more octets of its reader's length after it (`Readable`), at any nesting. |
| `Asn1Exactness.Unread` | include/openssl/asn1_mac.h:106-126 | Without that room the reader fails, builds another object, or stops in front of end-of-contents octets; it never returns the object and the right end. |
| `Asn1Exactness.ConstructedReadBack` | libsrc/openssl-1.0.1g/crypto/asn1/a_bytes.c:138-150 | A string of tag 16 or 17 is written constructed, and its octets are then taken for parts: it is read back if and only if it is empty, whatever follows and for any extra length. |
| `Asn1Exactness.StringShrinks` | libsrc/openssl-1.0.1g/crypto/asn1/a_bytes.c:252-312 | A string that is read is at least two octets shorter than what it was read from, at any nesting. |
| `Asn1Exactness.SetStringNotReadBack` | libsrc/openssl-1.0.1g/crypto/asn1/a_bytes.c:138-150 | The string of tag 17 with content 02 00 is refused: its first part is of another type. |
| `Asn1Exactness.UnreadFields` | include/openssl/asn1_mac.h:129-163 | The same for a field list: after a field that stopped short no later field can be read. |
| `Asn1Exactness.UnreadElements` | libsrc/openssl-1.0.1g/crypto/asn1/a_set.c:212-228 | A list with an element that lacks the room is refused or read as another list. |
| `Asn1RoundTrip.DefiniteIsReadable` | include/openssl/asn1_mac.h:456-543 | Objects whose SEQUENCEs are definite have the room whatever follows; their EXPLICIT wrappers may be indefinite. |
| `Asn1RoundTrip.LengthFormDoesNotMatter` | include/openssl/asn1_mac.h:545-549 | Two objects that differ only in length forms read back as the same object, each stopping at its own end. |
| `Asn1RoundTrip.IndefiniteEnd` | libsrc/openssl-1.0.1g/crypto/asn1/asn1_lib.c:285-341 | Where an indefinite SEQUENCE ends: with no extra octet in front of its end mark, with one it fails, with two or more after the mark. |
| `Asn1Codec.Asn1Ctx.constructor` | include/openssl/asn1_mac.h:75-88 | The cursor starts at the caller's pointer. |
| `Asn1Codec.Asn1Ctx.StartSequence` | libsrc/openssl-1.0.1g/crypto/asn1/asn1_lib.c:314-341 | start_sequence sets `slen`, `inf` and the cursor from the header as `GetSequence` defines, the indefinite form losing the header twice. |
| `Asn1Codec.Asn1Ctx.CloseSequence` | libsrc/openssl-1.0.1g/crypto/asn1/asn1_lib.c:285-302 | Finish accepts and moves exactly as `Finish` defines. |
| `Asn1Codec.Asn1Ctx.Get` | include/openssl/asn1_mac.h:129-133 | A plain field: result of the nested decoder, `c.p + c.slen` unchanged on success, buffer unchanged. |
| `Asn1Codec.Asn1Ctx.GetImp` | include/openssl/asn1_mac.h:149-157 | An IMPLICIT field overwrites the identifier octet, decodes, and puts it back: the buffer is octet for octet what it was, on success and on failure. |
| `Asn1Codec.Asn1Ctx.GetExp` | include/openssl/asn1_mac.h:263-313 | An EXPLICIT field of an object or a list: result of `DecodeExplicit`, `c.p + c.slen` unchanged on success, buffer unchanged. |
| `Asn1Codec.Asn1Ctx.OpenWrapper` | include/openssl/asn1_mac.h:268-279 | The wrapper header and `Tlen`, two octets less for the indefinite form. |
| `Asn1Codec.Asn1Ctx.CloseWrapper` | include/openssl/asn1_mac.h:280-285 | The end mark of an indefinite wrapper is required and used; a definite wrapper checks nothing. |
| `Asn1Codec.Asn1Ctx.GetSet` | include/openssl/asn1_mac.h:243-248 | A list field: result of d2i_ASN1_SET with the caller's tag and class; `c.p + c.slen` unchanged on success. |
| `Asn1Codec.Asn1Ctx.GetField` | include/openssl/asn1_mac.h:142-163 | Any optional field looks at the next octet only when `slen` is not zero; otherwise it is absent. |
| `Asn1Codec.Asn1Ctx.GetFields` | include/openssl/asn1_mac.h:129-248 | Fields in order, up to the first that fails; `c.p + c.slen` is the same after all of them and the buffer is unchanged. |
| `Asn1Codec.Asn1Ctx.ReadBody` | include/openssl/asn1_mac.h:91-104 | All fields and Finish: `DecodeBody` of the octets at the cursor. |
| `Asn1Codec.D2i` | include/openssl/asn1_mac.h:75-104 | A d2i computes `Decode` of the octets at `*pp`, moves `*pp` by exactly the octets used on success and not at all on failure, and leaves the whole buffer as it was, at any nesting depth; the octets used spell the object returned (`Asn1Spelling.Spells`). |
| `Asn1Codec.D2iPrim` | libsrc/openssl-1.0.1g/crypto/asn1/a_bytes.c:157-249 | The string decoder returns and moves as `DecodePrim` says: tag test, copy of the content, and constructed strings through the loop below with `max` taken behind the header; the octets returned are the `Content` of those used, the contents of their primitive encodings in order. |
| `Asn1Codec.CollatePrimitive` | libsrc/openssl-1.0.1g/crypto/asn1/a_bytes.c:252-312 | The loop over the parts of a constructed string refines `Collate`: each part is offered all that is left up to `max`, a definite string counts down to exactly zero, an indefinite one ends at its mark, and a part that leaves the buffer empty is an error. |
| `Asn1Codec.D2iSequence` | include/openssl/asn1_mac.h:106-126 | The SEQUENCE decoder refines `Decode`. |
| `Asn1Codec.D2iSet` | libsrc/openssl-1.0.1g/crypto/asn1/a_set.c:166-239 | d2i_ASN1_SET refines `DecodeSet`: header tests, element loop, cursor. |
| `Asn1Codec.D2iElements` | libsrc/openssl-1.0.1g/crypto/asn1/a_set.c:212-236 | The element loop refines `DecodeElements`; each element is offered the length of the whole list. |
| `Asn1Codec.I2d` | include/openssl/asn1_mac.h:361-552 | An i2d returns the size in octets whether `pp` is NULL or not, and when it is not, changes exactly that many octets, to those of `Encode`. |
| `Asn1Codec.I2dPrim` | libsrc/openssl-1.0.1g/crypto/asn1/a_bytes.c:131-155 | String octets under their header, which is constructed for the tags 16 and 17; returned size and octets written, other types than BIT STRING. |
| `Asn1Codec.I2dSequence` | include/openssl/asn1_mac.h:539-552 | seq_total and finish: `*pp` advances by the returned size. |
| `Asn1Codec.I2dFields` | include/openssl/asn1_mac.h:365-462 | The len macros and the put macros of one body agree, field by field. |
| `Asn1Codec.I2dSlot` | include/openssl/asn1_mac.h:456-529 | One field: nothing for an absent one or an empty optional list. |
| `Asn1Codec.I2dImplicit` | include/openssl/asn1_mac.h:460-464 | The IMPLICIT writer puts the field and then overwrites its identifier, keeping the constructed bit. |
| `Asn1Codec.PutExplicit` | include/openssl/asn1_mac.h:510-529 | The EXPLICIT wrapper of an object or of a list changes exactly its octets. |
| `Asn1Codec.I2dSet` | libsrc/openssl-1.0.1g/crypto/asn1/a_set.c:88-164 | i2d_ASN1_SET for a SEQUENCE: header from the sum of the element sizes, then the elements in order. |
| `Asn1Codec.SetContentLength` | libsrc/openssl-1.0.1g/crypto/asn1/a_set.c:97-105 | The backward loop adds up the sizes of all elements. |
| `Asn1Codec.PutElements` | libsrc/openssl-1.0.1g/crypto/asn1/a_set.c:128-133 | The loop that writes every element in order. |
| `Asn1Codec.Dup` | libsrc/openssl-1.0.1g/crypto/asn1/a_dup.c:65-84 | Duplicating by encoding and decoding returns the object itself. |
| `Asn1Extent.StringIsElement` | libsrc/openssl-1.0.1g/crypto/asn1/a_bytes.c:252-312 | A string that is read ends where the encoding of section 8.1.5 of X.690 ends, as far as the octets looked at go, whatever its nesting. |
| `Asn1Extent.StringStaysInside` | libsrc/openssl-1.0.1g/crypto/asn1/a_bytes.c:157-249 | A string decoder that succeeds has used at most its length if and only if the whole encoding lies within that length, `ElementEnd` being read off the octets alone. |
| `Asn1Extent.ContentIsEnd` | libsrc/openssl-1.0.1g/crypto/asn1/a_bytes.c:266-300 | The same for the parts of an indefinite string and their end mark. |
| `Asn1Extent.StringEndsPastItsLength` | libsrc/openssl-1.0.1g/crypto/asn1/a_bytes.c:192-207 | 24 80 04 01 07 00 00 with length 5 is read as a string of 7 octets. |
| `Asn1Extent.EmptyPartIsRefused` | libsrc/openssl-1.0.1g/crypto/buffer/buffer.c:139-155 | A constructed string whose first part is empty, or longer than 0x5ffffffc octets, is refused: BUF_MEM_grow_clean returns the length 0 as its success; with parts, only strings that are not empty are read. |
| `Asn1Content.ContentIsRead` | libsrc/openssl-1.0.1g/crypto/asn1/a_bytes.c:252-312 | For all octets, tags and lengths: a string that is read, definite or indefinite, nested at will, has as its value the contents of the primitive encodings in it, in order (section 8.7.3 of X.690, `Content`, taken from the octets alone), and every encoding in it has the tag asked for. |
| `Asn1Content.StringIsContent` | libsrc/openssl-1.0.1g/crypto/asn1/a_bytes.c:157-249 | The same in front of other octets, for a string inside the length it was read with. |
| `Asn1Content.SegmentsReadBack` | libsrc/openssl-1.0.1g/crypto/asn1/a_bytes.c:266-309 | A string written in segments, nested at will, definite or indefinite, is read back whole if and only if no constructed string in it opens with an empty part, up to 0x5ffffffc octets; otherwise it is refused. |
| `Asn1Spelling.ReadIsSpelt` | include/openssl/asn1_mac.h:75-126 | For all octets, templates and lengths: the octets a decoder used spell the object it returned, as tags, classes, contents in order and end marks say, whatever lengths it was offered on the way. |
| `Asn1Spelling.FieldsAreSpelt` | include/openssl/asn1_mac.h:129-248 | The same for the fields of a body, each in its place and opening with the octet its macro looks for. |
| `Asn1Spelling.ListIsSpelt` | libsrc/openssl-1.0.1g/crypto/asn1/a_set.c:166-239 | The same for d2i_ASN1_SET: tag and class asked for, the elements in order, up to or past the end the header gives. |
| `Asn1Spelling.ExplicitIsSpelt` | include/openssl/asn1_mac.h:263-313 | The same for EXPLICIT wrappers and what is in them. |
| `Asn1Spelling.WrittenIsSpelt` | include/openssl/asn1_mac.h:361-552 | What i2d writes spells the object, wherever there is a length with which it can be read. |
| `Asn1Cursor.StaysInside` | libsrc/openssl-1.0.1g/crypto/asn1/asn1_lib.c:285-302 | A SEQUENCE decoder that succeeds has used at most its length, a definite one exactly what its header says, for every template and all octets; a string decoder if and only if the string's encoding lies within. |
| `Asn1Cursor.ElementsStayInside` | libsrc/openssl-1.0.1g/crypto/asn1/a_set.c:212-228 | The element loop ends by a bound if and only if each element does: a definite one by its header, an indefinite string by the end X.690 gives it if that is inside the length offered; an indefinite SEQUENCE, and a string that ends behind that length, by what decoding uses. |
| `Asn1Cursor.ListStaysInside` | libsrc/openssl-1.0.1g/crypto/asn1/a_set.c:166-239 | d2i_ASN1_SET stays within the length it was given, and within the length of its own header, each if and only if all its elements, measured so, fit in what is left at their start. |
| `Asn1Cursor.SlotStaysInside` | include/openssl/asn1_mac.h:142-248 | The field macros of every kind use octets only out of `slen` if and only if what they read, measured so, fits in it. |
| `Asn1Cursor.FieldsStayInside` | include/openssl/asn1_mac.h:129-248 | All fields of a body: `slen` never goes negative through them if and only if each fits in what is left when it is reached. |
| `Asn1Cursor.StartOfSequence` | libsrc/openssl-1.0.1g/crypto/asn1/asn1_lib.c:314-341 | `slen` starts negative if and only if the header is indefinite and longer than half the given length. |
| `Asn1Cursor.NeverWild` | include/openssl/asn1_mac.h:129-248 | For every template, lists and constructed strings included: where every length offered to a nested reader is there (`Roomy`, found by following the reader), decoding reads only the octets there are. |
| `Asn1Cursor.FieldsNeverWild` | include/openssl/asn1_mac.h:129-248 | The same for the fields of a body, which then also end within `slen`. |
| `Asn1Cursor.ListNeverWild` | libsrc/openssl-1.0.1g/crypto/asn1/a_set.c:166-239 | The same for d2i_ASN1_SET, whose loop offers every element the length of the whole list. |
| `Asn1Cursor.StringNeverWild` | libsrc/openssl-1.0.1g/crypto/asn1/a_bytes.c:157-312 | The same for strings and their parts. |
| `Asn1Cursor.NestedStringsReadOn` | libsrc/openssl-1.0.1g/crypto/asn1/a_bytes.c:192-207 | A string of length 2 can go on through any number of nested headers: the octets looked at have no bound in the length, so that no condition on it alone can replace `Roomy`. |
| `Asn1Cursor.FittingListIsNotRoomy` | libsrc/openssl-1.0.1g/crypto/asn1/a_set.c:212-228 | A list read within its length and the octets there are, whose second element was offered more than these. |
| `Asn1Cursor.ShortIndefiniteReadsOn` | libsrc/openssl-1.0.1g/crypto/asn1/asn1_lib.c:314-341 | The two octets 30 80 with length 2 make an optional field look at a third octet. |
| `Asn1Cursor.ListEndsPastItsLength` | libsrc/openssl-1.0.1g/crypto/asn1/a_set.c:212-228 | A list of length 4 is read with 6 octets of content. |
| `Asn1Cursor.EmptyStopsEarly` | libsrc/openssl-1.0.1g/crypto/asn1/asn1_lib.c:285-302 | An empty indefinite SEQUENCE is read up to its end mark only. |
| `Asn1Cursor.IndefiniteInsideDefiniteWrapper` | include/openssl/asn1_mac.h:263-286 | An indefinite SEQUENCE inside a definite EXPLICIT wrapper is refused. |
| `Asn1Session.SessionWellFormed` | libsrc/openssl-1.0.1g/ssl/ssl_asn1.c:331-375 | The fields of SSL_SESSION can be told apart. |
| `Asn1Session.SessionRoundTrip` | libsrc/openssl-1.0.1g/ssl/ssl_asn1.c:331-375 | Through the macros of i2d_SSL_SESSION and d2i_SSL_SESSION every session object is read back as written, whatever follows; the version checks and length truncations d2i_SSL_SESSION makes between the macros are not part of it. |
| `Asn1Ownership.Heap.New` | include/openssl/asn1_mac.h:342-347 | X_new makes its attempts in order and stops at the first that is refused. It succeeds if and only if all `Blocks(shape)` are granted, and then owns exactly these; it loses blocks if and only if the first is granted and a later one is not, and then exactly those granted before. |
| `Asn1Ownership.Heap.ReadString` | libsrc/openssl-1.0.1g/crypto/asn1/a_bytes.c:157-249 | d2i_ASN1_bytes on a new or the caller's string: the caller's data are freed exactly when it succeeds and does not reuse them; a pointer to freed data is left exactly when the string had data, more octets were read than its length says, and the allocation for them was refused; it reads whatever makes a string, unless memory is refused, and nothing else. |
| `Asn1Ownership.Heap.Collate` | libsrc/openssl-1.0.1g/crypto/asn1/a_bytes.c:252-312 | asn1_collate_primitive: on success the buffer is all that stays allocated, on failure nothing; only a refused allocation can make it free something twice; it succeeds, for parts that make a string of up to 0x5ffffffc octets, unless memory is refused, and only for such parts, all octets in the buffer. |
| `Asn1Ownership.Heap.CollatePart` | libsrc/openssl-1.0.1g/crypto/asn1/a_bytes.c:281-296 | One part: its data are freed twice exactly when the part is longer than the one before and the allocation for it is refused. |
| `Asn1Ownership.Heap.D2i` | include/openssl/asn1_mac.h:75-104 | Of the caller's blocks nothing but data of strings is freed; the object stays well owned but for at most one pointer to freed data, and that only after a refused allocation; what the call allocated is owned by the result, freed exactly once, or lost; with nothing supplied and not enough granted for X_new it fails and loses blocks exactly when the first was granted; whether the octets can be read being given field by field, it succeeds on all that can be read unless memory is refused, and on nothing else. |
| `Asn1Ownership.Heap.ReadParts` | include/openssl/asn1_mac.h:129-248 | The same through the fields of one body, strings and lists included, up to the first that fails. |
| `Asn1Ownership.Heap.D2iSet` | libsrc/openssl-1.0.1g/crypto/asn1/a_set.c:186-239 | The same for a list, none of whose strings is left with freed data: a stack of its own is freed with all its elements on failure, one the caller supplied keeps what was pushed. |
| `Asn1Ownership.Heap.ReadElement` | libsrc/openssl-1.0.1g/crypto/asn1/a_set.c:222-228 | One turn of its loop: the element is pushed, or, when the stack cannot grow, lost. |
| `Asn1Ownership.Heap.FreeAll` | include/openssl/asn1_mac.h:98-104 | Freeing an object frees it and all it owns, the data of strings included, each block exactly once. |
| `Asn1Ownership.RefusedReplacement` | libsrc/openssl-1.0.1g/crypto/asn1/a_bytes.c:207-217 | A string of one octet, read again as one of two with the allocation refused, points to freed data. |
| `Asn1Ownership.FailingNewLosesABlock` | include/openssl/asn1_mac.h:342-347 | With one block granted and the second refused, X_new returns NULL and the block stays allocated for good. |
| `Bignum.Bignum.FixTop` | include/openssl/bn.h:466-474 | bn_fix_top keeps the number and drops only zero words; afterwards `top` is 0 or the top word is not zero. |
| `Bignum.Bignum.WExpand` | include/openssl/bn.h:462-463 | bn_wexpand keeps the number and on success has the room; without need it touches nothing, on failure nothing changes; it succeeds if and only if the room is there, or the data are the number's own, at most 16777215 words are asked for and memory is granted. |
| `Bignum.Bignum.Expand2` | libsrc/openssl-1.0.1g/crypto/bn/bn_lib.c:300-449 | bn_expand2 succeeds if and only if the room is there, or the data are not static, at most 16777215 words are asked for and the allocation is granted; it then has exactly that many fresh words, and else nothing changes. |
| `Bignum.Bignum.Expand` | include/openssl/bn.h:460-461 | bn_expand covers the bits asked for whenever it succeeds; it fails only where bn_expand2 does. |
| `Bignum.CopyWords` | libsrc/openssl-1.0.1g/crypto/bn/bn_lib.c:326-353 | The copy unrolled by four with its fall-through tail copies every word. |
| `Bignum.MacrosAgree` | include/openssl/bn.h:303-308 | Without leading zero words, BN_is_zero, BN_is_one, BN_is_word and BN_is_odd say what the integer says. |
| `Bignum.AbsIsWordExceptZero` | include/openssl/bn.h:302-303 | BN_abs_is_word is right if and only if it is not asked whether zero is 0. |
| `Bignum.IsZeroUnnormalised` | include/openssl/bn.h:304-304 | On numbers that were not normalised the zero test is wrong exactly on zeros of two words or more. |
| `BnWords.MulAdd` | libsrc/openssl-1.0.1g/crypto/bn/bn_lcl.h:325-330 | One multiply-and-add step returns the low and the high word of the sum. |
| `BnWords.MulAddWords` | libsrc/openssl-1.0.1g/crypto/bn/bn_asm.c:71-95 | bn_mul_add_words adds the multiple, the carry included, and touches only its words. |
| `BnWords.SubWords` | libsrc/openssl-1.0.1g/crypto/bn/bn_asm.c:393-427 | bn_sub_words computes the difference and the borrow, although it keeps the old borrow on equal words. |
| `BnMul.MulWords` | libsrc/openssl-1.0.1g/crypto/bn/bn_asm.c:97-120 | bn_mul_words: the product by one word and its carry. |
| `BnMul.MulNormal` | libsrc/openssl-1.0.1g/crypto/bn/bn_mul.c:1104-1144 | Schoolbook multiplication, longer factor first, gives the product of the two numbers. |
| `BnMul.Mul` | libsrc/openssl-1.0.1g/crypto/bn/bn_mul.c:943-1102 | BN_mul of the build with OPENSSL_SMALL_FOOTPRINT, which has no comba and no recursion (`bn.h:151-155`): product, sign, normal form; it fails if and only if the product's words pass the bound, or memory is refused. |
| `BnSquare.AddWords` | libsrc/openssl-1.0.1g/crypto/bn/bn_asm.c:306-339 | bn_add_words: sum and carry out, also where the result is one of the summands or both. |
| `BnSquare.SqrWords` | libsrc/openssl-1.0.1g/crypto/bn/bn_asm.c:122-142 | bn_sqr_words: the squares of the words, each at twice its place. |
| `BnSquare.CrossProducts` | libsrc/openssl-1.0.1g/crypto/bn/bn_sqr.c:158-184 | The rows of bn_sqr_normal, which never clears its middle words first, sum the products of different words, each pair once. |
| `BnSquare.SquareOfVal` | libsrc/openssl-1.0.1g/crypto/bn/bn_sqr.c:186-192 | A square is twice the mixed products and the squares of the words. |
| `BnSquare.SqrNormal` | libsrc/openssl-1.0.1g/crypto/bn/bn_sqr.c:158-193 | bn_sqr_normal squares the number; neither addition carries. |
| `BnSquare.SquareTop` | libsrc/openssl-1.0.1g/crypto/bn/bn_sqr.c:142-147 | The square has one word less than twice the number's exactly when the top word has no bits in its upper half. |
| `BnSquare.Sqr` | libsrc/openssl-1.0.1g/crypto/bn/bn_sqr.c:65-155 | BN_sqr of a number without leading zero words has none either, although nothing trims it; it fails if and only if twice its words pass the bound, or memory is refused. |
| `BnModMul.Copy` | libsrc/openssl-1.0.1g/crypto/bn/bn_lib.c:478-513 | BN_copy: the same words and sign; it fails if and only if the room cannot be had. |
| `BnModMul.SetWord` | libsrc/openssl-1.0.1g/crypto/bn/bn_lib.c:567-576 | BN_set_word: the word, without sign; it fails if and only if the number has no storage and can have none, and is zero then. |
| `BnModMul.Ucmp` | libsrc/openssl-1.0.1g/crypto/bn/bn_lib.c:637-657 | BN_ucmp compares the magnitudes, through the lengths or the first words that differ. |
| `BnModMul.ModMulMontgomery` | libsrc/openssl-1.0.1g/crypto/bn/bn_mont.c:129-174 | BN_mod_mul_montgomery on words, with BN_sqr for equal factors, computes the Montgomery product of the two numbers and its sign; the result may be a factor; it fails if and only if a product or twice the modulus passes the bound on words, the result cannot hold the modulus's words, or memory is refused. |
| `BnModMul.FromMontgomery` | libsrc/openssl-1.0.1g/crypto/bn/bn_mont.c:280-290 | BN_from_montgomery of the word build reduces a copy: value and sign, the argument kept; it fails if and only if a size passes the bound or memory is refused. |
| `BnMontgomery.MultiplierClears` | libsrc/openssl-1.0.1g/crypto/bn/bn_mont.c:299-306 | The multiple of N that is added makes the sum divisible by R. |
| `BnMontgomery.MultiplierUnique` | libsrc/openssl-1.0.1g/crypto/bn/bn_mont.c:299-306 | A multiplier below R makes the sum divisible by R if and only if it is that one. |
| `BnMontgomery.RedcCorrect` | libsrc/openssl-1.0.1g/crypto/bn/bn_mont.c:280-318 | The value before the last subtraction is below 2N, the result below N, and the result times R is the argument modulo N. |
| `BnMontgomery.ToMontIsInMont` | include/openssl/bn.h:428-433 | BN_to_montgomery gives a*R mod N for every number below R, reduced or not. |
| `BnMontgomery.MontMulIsProduct` | libsrc/openssl-1.0.1g/crypto/bn/bn_mont.c:129-174 | Montgomery multiplication of Montgomery forms is the Montgomery form of the product. |
| `BnMontgomery.FromMontIsResidue` | libsrc/openssl-1.0.1g/crypto/bn/bn_mont.c:280-318 | Converting back returns the number modulo N. |
| `BnMontgomery.MultiplyThroughMontgomery` | include/openssl/bn.h:428-433 | Convert, multiply, convert back: a*b mod N, for all numbers below R. |
| `BnReduce.LowWordClears` | libsrc/openssl-1.0.1g/crypto/bn/bn_mont.c:210-222 | One row with the multiplier rp[0]*n0 makes its lowest word zero. |
| `BnReduce.CarryOfSum` | libsrc/openssl-1.0.1g/crypto/bn/bn_mont.c:226-229 | The carry computed from two comparisons is the carry of the sum. |
| `BnReduce.ReduceRow` | libsrc/openssl-1.0.1g/crypto/bn/bn_mont.c:208-230 | One turn of the loop keeps: words done are zero, a multiple of N below R^i was added, the carry is accounted for. |
| `BnReduce.ReduceRows` | libsrc/openssl-1.0.1g/crypto/bn/bn_mont.c:208-230 | The whole loop. |
| `BnReduce.RowsAreReduced` | libsrc/openssl-1.0.1g/crypto/bn/bn_mont.c:208-230 | The word-by-word multiple is the one the bignum form uses, so both forms compute the same value. |
| `BnReduce.CopyAndClear` | libsrc/openssl-1.0.1g/crypto/bn/bn_mont.c:252-266 | The unrolled copy that also clears, from either array, in place or not. |
| `BnReduce.FinalSubtract` | libsrc/openssl-1.0.1g/crypto/bn/bn_mont.c:241-267 | The branch-free choice returns T - N when T is at least N and T otherwise, carry included. |
| `BnReduce.FromMontgomeryWord` | libsrc/openssl-1.0.1g/crypto/bn/bn_mont.c:177-277 | BN_from_montgomery_word refines the bignum reduction: value, sign, normal form; the words of the argument are wiped; it fails if and only if one of the two numbers cannot get its room. |
| `BnContext.MontCtxSet` | libsrc/openssl-1.0.1g/crypto/bn/bn_mont.c:413-458 | The word context can be made if and only if the modulus is odd; then n0 is -1/N modulo the word size, R covers the words of N, and RR is R^2 mod N. |
| `BnContext.MontCtxSetBignum` | libsrc/openssl-1.0.1g/crypto/bn/bn_mont.c:440-458 | The bignum context: the same with R the first power of two above N, and Ni exact. |
| `BnContext.BitsInWords` | libsrc/openssl-1.0.1g/crypto/bn/bn_mont.c:366-372 | `ri` is the width of the words N occupies. |
| `BnContext.LowWordOfNi` | libsrc/openssl-1.0.1g/crypto/bn/bn_mont.c:413-435 | The quotient computed from the inverse is -1/N modulo the word size, also when the low word of N is 1. |
| `BnContext.OddInverse` | libsrc/openssl-1.0.1g/crypto/bn/bn_mont.c:417-421 | Every power of two has an inverse modulo an odd number. |
| `BnContext.EvenHasNoInverse` | libsrc/openssl-1.0.1g/crypto/bn/bn_mont.c:417-421 | And none modulo an even one. |
| `BnExp.MulIsProduct` | libsrc/openssl-1.0.1g/crypto/bn/bn_exp.c:471-521 | Plain and Montgomery multiplication both represent the product. |
| `BnExp.ScanWindow` | libsrc/openssl-1.0.1g/crypto/bn/bn_exp.c:484-503 | The scan finds an odd window value below its size that equals the scanned bits of the exponent. |
| `BnExp.OddPowers` | libsrc/openssl-1.0.1g/crypto/bn/bn_exp.c:449-461 | The table holds the odd powers of the base. |
| `BnExp.ApplyWindow` | libsrc/openssl-1.0.1g/crypto/bn/bn_exp.c:502-520 | Squaring per window bit and one table multiplication extend the exponent read so far by the window. |
| `BnExp.SlidingWindow` | libsrc/openssl-1.0.1g/crypto/bn/bn_exp.c:463-521 | The sliding-window loop computes the base to the exponent, for every exponent and window size, in either arithmetic. |
| `BnExp.ModExpSimple` | libsrc/openssl-1.0.1g/crypto/bn/bn_exp.c:983-1097 | BN_mod_exp_simple (and recp): a^p mod m for p > 0; 1 for p = 0 whatever m is; -1 with the constant-time flag. |
| `BnExp.ModExpMont` | libsrc/openssl-1.0.1g/crypto/bn/bn_exp.c:384-529 | BN_mod_exp_mont refuses even moduli and equals the simple exponentiation for odd ones; with the flag it answers the signed power that ModExpMontFlagged is proved to leave. |
| `BnExp.OverflowTest` | libsrc/openssl-1.0.1g/crypto/bn/bn_exp.c:909-911 | Dividing back detects overflow exactly. |
| `BnExp.SquareWord` | libsrc/openssl-1.0.1g/crypto/bn/bn_exp.c:909-928 | Squaring the split accumulator squares what it stands for. |
| `BnExp.MultiplyWord` | libsrc/openssl-1.0.1g/crypto/bn/bn_exp.c:930-948 | Multiplying it by the word multiplies what it stands for. |
| `BnExp.Fold` | libsrc/openssl-1.0.1g/crypto/bn/bn_exp.c:841-854 | Moving the word factor into the Montgomery factor keeps the product. |
| `BnExp.ModExpMontWord` | libsrc/openssl-1.0.1g/crypto/bn/bn_exp.c:832-979 | BN_mod_exp_mont_word with its split accumulator computes a^p mod m. |
| `BnExp.ModExp` | libsrc/openssl-1.0.1g/crypto/bn/bn_exp.c:176-248 | BN_mod_exp returns a^p mod m except in exactly two cases: exponent 0 with modulus 1 or -1, where it returns 1, and a negative base with the constant-time flag and a power that is not 0; with the flag and an even modulus it returns -1 and no number. |
| `BnExp.RightForm` | libsrc/openssl-1.0.1g/crypto/bn/bn_exp.c:578-830 | The constant-time result is a^p mod m if and only if the base is not negative or m divides a^p. |
| `BnExp.RightClass` | libsrc/openssl-1.0.1g/crypto/bn/bn_exp.c:578-830 | It is congruent to a^p if and only if that holds or the exponent is odd and not 1. |
| `BnExp.NegativeSquare` | libsrc/openssl-1.0.1g/crypto/bn/bn_exp.c:578-830 | (-1)^2 modulo 3 comes out as -1. |
| `BnExpWords.BitOfWords` | libsrc/openssl-1.0.1g/crypto/bn/bn_lib.c:738-748 | BN_is_bit_set on the words is the bit of the number. |
| `BnExpWords.BitLengthOfWords` | libsrc/openssl-1.0.1g/crypto/bn/bn_lib.c:229-236 | BN_num_bits on the words is the number's bit length. |
| `BnExpWords.Times` | libsrc/openssl-1.0.1g/crypto/bn/bn_mont.c:129-174 | Multiplying two BIGNUMs in Montgomery form: the form of the product, with the sign of the factors; it fails only for the modulus's size, the result's room, or refused memory, and then always. |
| `BnExpWords.FillTable` | libsrc/openssl-1.0.1g/crypto/bn/bn_exp.c:449-461 | The table of BIGNUMs holds the odd powers of the base. |
| `BnExpWords.WindowLoop` | libsrc/openssl-1.0.1g/crypto/bn/bn_exp.c:463-521 | The sliding-window loop over the words of the exponent, on BIGNUMs throughout, ends with the Montgomery form of the power. |
| `BnExpWords.ModExpMontWords` | libsrc/openssl-1.0.1g/crypto/bn/bn_exp.c:384-529 | BN_mod_exp_mont on BIGNUMs: it returns 0 only for an even modulus, for one of more than 8388607 words, when memory is refused, or when the result cannot hold the modulus's words, and always for an even one; otherwise the result is a^p mod m for every base, also where it is one of the arguments, and 1 for exponent 0. |
| `BnExpConst.CopyToPrebuf` | libsrc/openssl-1.0.1g/crypto/bn/bn_exp.c:537-549 | Scattering a number over its column of the buffer: the column reads as the number filled up with zeros, no octet of another column changes. |
| `BnExpConst.CopyFromPrebuf` | libsrc/openssl-1.0.1g/crypto/bn/bn_exp.c:551-564 | Gathering a column gives back the number that was scattered, trimmed; the sign is that of the number it is gathered into; it fails only when its number cannot have the words. |
| `BnExpConst.FillPowers` | libsrc/openssl-1.0.1g/crypto/bn/bn_exp.c:769-789 | All 2^window powers are in the buffer, each in its own column. |
| `BnExpConst.FirstWindow` | libsrc/openssl-1.0.1g/crypto/bn/bn_exp.c:791-794 | The bits above the last whole window are read first and index the table. |
| `BnExpConst.WindowsLoop` | libsrc/openssl-1.0.1g/crypto/bn/bn_exp.c:799-815 | Squarings, gathered power, product, for every window: the Montgomery form of the power; its sign is that of the base's form, or the number is zero. |
| `BnExpConst.ModExpMontConsttime` | libsrc/openssl-1.0.1g/crypto/bn/bn_exp.c:578-830 | BN_mod_exp_mont_consttime on BIGNUMs: it returns 0 only as the routine without the flag does; otherwise the result is the power of the base's magnitude modulo m, negated for a negative base and an exponent of 2 or more. |
| `BnExpConst.ModExpMontFlagged` | libsrc/openssl-1.0.1g/crypto/bn/bn_exp.c:384-529 | BN_mod_exp_mont with and without the flag: on BIGNUMs it answers what the integer version answers, and returns 0 besides only when memory is refused, the modulus has more than 8388607 words, or the result cannot hold them. |
| `DomForest.Node.constructor` | include/ixml.h:150-167 | A new node has no links. |
| `DomForest.KidsAreUnique` | include/ixml.h:150-167 | The links alone decide every child list: a forest has one reading. |
| `DomForest.UnlinkIsCut` | libsrc/libupnp/source/ixml/src/node.c:759-777 | The pointer writes of removal take one node out of one sibling list. |
| `DomForest.CutKeepsForest` | include/ixml.h:522-547 | Taking a node out of its list leaves a forest, with all other lists as they were. |
| `DomForest.SpliceKeepsForest` | include/ixml.h:448-484 | Putting a detached node that is not above the parent into a list, anywhere, leaves a forest. |
| `DomEdit.IsAncestor` | libsrc/libupnp/source/ixml/src/node.c:491-513 | The recursive test is true exactly when the node is the parent of some node it can reach over first children and right siblings. |
| `DomEdit.WhoMayHang` | libsrc/libupnp/source/ixml/src/node.c:552-575 | Attributes, text and CDATA sections have no children, an element any but attributes and documents, a document elements alone, and other nodes any. |
| `DomEdit.ObjectionInOrder` | libsrc/libupnp/source/ixml/src/node.c:626-637 | insertBefore and replaceChild object to the hierarchy first, exactly by those types and the ancestor test, and then to different owner documents. |
| `DomEdit.AncestorsRefused` | include/ixml.h:549-564 | Every proper ancestor is refused. |
| `DomEdit.OnlyAncestorsRefused` | include/ixml.h:549-564 | For a detached child, or one already in this parent's list, nothing else is refused by the ancestor test. |
| `DomEdit.SiblingRefused` | libsrc/libupnp/source/ixml/src/node.c:491-513 | The test also refuses a node that is no ancestor, if a right sibling of it is one. |
| `DomEdit.RemoveChild` | libsrc/libupnp/source/ixml/src/node.c:749-783 | removeChild: error codes in order; on failure nothing changes; on success the child is out of its list, everything else is as it was, and a forest stays a forest. |
| `DomEdit.AppendChild` | libsrc/libupnp/source/ixml/src/node.c:802-849 | appendChild: error codes in order; on failure nothing changes; on success the child is last in the list when it was detached or already there, and the result is a forest if and only if that was so and it is not its own parent. |
| `DomEdit.InsertBefore` | libsrc/libupnp/source/ixml/src/node.c:618-672 | insertBefore: error codes in order, the crash on a NULL reference, and a forest if and only if the child was detached or already in this list, is not the parent and not the reference. |
| `DomEdit.ReplaceChild` | libsrc/libupnp/source/ixml/src/node.c:694-733 | replaceChild: error codes in order; the new child takes the old one's place, and a forest results if and only if it was detached or already in this list and is not the parent. |
| `DomEdit.AppendEffect` | libsrc/libupnp/source/ixml/src/node.c:824-846 | Appending, as a change of links, keeps the forest exactly for such children. |
| `DomEdit.InsertEffect` | libsrc/libupnp/source/ixml/src/node.c:640-669 | Inserting before a reference, likewise. |
| `DomEdit.ReplaceEffect` | libsrc/libupnp/source/ixml/src/node.c:722-731 | Insert and remove together replace, likewise. |
| `DomEdit.RemovalKeepsForest` | include/ixml.h:522-547 | Removing a child keeps the forest and detaches the child. |
| `DomEdit.StolenBreaksForest` | libsrc/libupnp/source/ixml/src/node.c:824-827 | A child moved from another parent without being unlinked there breaks the forest. |
| `DomEdit.LoopBreaksForest` | libsrc/libupnp/source/ixml/src/node.c:829-846 | A node that becomes its own parent or sibling breaks the forest. |
| `DomRun.Perform` | include/ixml.h:448-571 | One edit of any kind: a failed one changes no link; one that succeeds keeps the forest exactly when the request is safe. |
| `DomRun.Run` | include/ixml.h:448-571 | Every run of edits, moves included: each state is a forest of the same nodes until the first unsafe request succeeds, and that one breaks it. |
| `DomClone.CloneAttributes` | libsrc/libupnp/source/ixml/src/node.c:1143-1155 | The attribute case: the whole list, deep or not, freshly linked both ways; no copy knows an element or a document. |
| `DomClone.CloneRecursive` | libsrc/libupnp/source/ixml/src/node.c:1100-1195 | The recursive copy is fresh, correctly linked, holds exactly what `Copied` says, attribute lists included, and belongs to no document. |
| `DomClone.CloneElement` | libsrc/libupnp/source/ixml/src/node.c:1110-1137 | Its element case: the attributes always, children and right siblings only for a deep copy. |
| `DomClone.CopyIsWhole` | libsrc/libupnp/source/ixml/src/node.c:1152-1165 | A deep copy of a sibling list is the list if and only if in every list elements come first and at most one other node follows, a text or CDATA node without contents, attributes, namespace, prefix and local name. |
| `DomClone.CopyMirrors` | libsrc/libupnp/source/ixml/src/node.c:860-906 | Every sibling list of a deep copy, place by place: each node has the type, name and value of its original, each element all its names and attributes, and the list ends behind the first text or CDATA node, or in front of a node of another kind. |
| `DomClone.CloneKeeps` | libsrc/libupnp/source/ixml/src/node.c:860-1065 | A clone has type, name and value of its source, a text or CDATA node nothing else, an element or attribute all its names, an element its attributes, and what is below it mirrored if the clone is deep and else nothing. |
| `DomClone.CloneNode` | libsrc/libupnp/source/ixml/src/node.c:1204-1292 | cloneNode: NULL for NULL, the crash on the other node types, otherwise a fresh subtree with its attributes, without parent, siblings or owner, disjoint from the source; its type, name and value are the source's. |
| `DomClone.DeepCloneIsWhole` | include/ixml.h:584-598 | The deep clone of an element has its contents and attributes if and only if in every list of them elements come first and at most one other node follows, a text or CDATA node without contents and without namespace names. |
| `DomClone.TextHidesSibling` | libsrc/libupnp/source/ixml/src/node.c:1152-1165 | A text node in front of an element makes the clone lose the element. |
| `DomClone.Adopt` | libsrc/libupnp/source/ixml/src/node.c:1083-1093 | All siblings of the first child get the new parent. |
| `DomClone.CloneDocument` | libsrc/libupnp/source/ixml/src/node.c:1238-1249 | A document's clone is correctly linked if and only if it is shallow or at most one child is copied (children up to the first text or CDATA node): only the first one learns its parent; it is named #document and has nothing else of the source. |
| `DomClone.SetOwnerDocument` | libsrc/libupnp/source/ixml/src/document.c:75-86 | Every node of the subtree and its right siblings gets the new owner, no attribute does, and no link changes. |
| `DomClone.ImportNode` | libsrc/libupnp/source/ixml/src/document.c:105-134 | importNode: error codes, and a fresh disjoint copy without parent; everything in it is owned by the new document if and only if no element of it has an attribute. |
| `DomClone.AttributeKeepsNoOwner` | libsrc/libupnp/source/ixml/src/document.c:75-86 | An imported element with one attribute is such a copy, deep or not. |
| `DomClone.ElementsRecursive` | libsrc/libupnp/source/ixml/src/node.c:1417-1438 | The recursion collects the matching elements in preorder. |
| `DomClone.GetElements` | libsrc/libupnp/source/ixml/src/node.c:1449-1544 | The tag-name lists are the preorder sequence of matching elements, the node itself included, with `*` for any name or namespace. |
| `DomClone.Found` | libsrc/libupnp/source/ixml/src/node.c:1417-1505 | A node is found in a list if and only if it is an element of it and the name is its own or `*`, or namespace and local name are there and each its own or `*`. |
| `DomClone.TagsOfContents` | include/ixml.h:1084-1115 | The names in that list depend only on the tree's contents, so source and whole clone give the same list. |
| `DomClone.ForestHangs` | include/ixml.h:150-167 | Every node of a forest meets what the cloning and listing operations ask. |
| `SqlParameters.Parse.AssignVarNumber` | libsrc/sqlite3/src/expr.c:386-446 | One parameter: the running maximum and the name table give it the number its position defines, and an error is raised as the code does. |
| `SqlParameters.AssignAll` | libsrc/sqlite3/src/expr.c:386-446 | One left-to-right pass gives every parameter its positional number; the count is the largest; the pass fails if and only if some number is outside 1..999. |
| `SqlParameters.ReadsPrinted` | libsrc/sqlite3/src/expr.c:398-409 | Reading the digits of a ?NNN undoes decimal printing, leading zeros or not, up to 2147483647, where it stays. |
| `SqlParameters.NumberIsPrinted` | libsrc/sqlite3/src/expr.c:398-409 | A ? with a printed number has that number, whatever stands to its left. |
| `SqlParameters.BareIsFresh` | include/sqlite3.h:2402-2432 | A bare ? gets a number no parameter to its left has. |
| `SqlParameters.NameKeepsNumber` | include/sqlite3.h:2402-2432 | All occurrences of a name have the number of the first, one more than the largest before it. |
| `SqlParameters.DistinctNames` | include/sqlite3.h:2402-2432 | Distinct names never share a number. |
| `SqlParameters.SharedNumber` | include/sqlite3.h:2402-2432 | Two parameters share a number only if one of them is ?NNN or both are the same name. |
| `SqlParameters.LargestIsANumber` | include/sqlite3.h:2499-2501 | A positive count is the number of some parameter. |
| `SqlParameters.CreateVarMap` | libsrc/sqlite3/src/vdbeapi.c:973-990 | The name table has, at each number, the name of the last instruction for it. |
| `SqlParameters.ParameterIndex` | libsrc/sqlite3/src/vdbeapi.c:1011-1027 | The lookup returns the first number with the name, or 0 if there is none. |
| `SqlParameters.LookupOfName` | include/sqlite3.h:2556-2559 | Looking up a name returns its number if and only if no ?NNN with that number is coded after it; otherwise 0. |
| `SqlParameters.NamesFoundWithoutNumbers` | include/sqlite3.h:2556-2559 | With no ?NNN in the statement every name is found under its number. |
| `SqlParameters.NumberHidesName` | libsrc/sqlite3/src/vdbeapi.c:979-984 | ":a" and "?1": the name cannot be looked up. |
| `SqlPushdown.Constraints` | libsrc/sqlite3/src/where.c:1294-1312 | The constraints reported for a table are, in order, exactly its terms other than IN and IS NULL: every term of the operators =, <, <=, >, >= and MATCH. |
| `SqlPushdown.Arguments` | libsrc/sqlite3/src/where.c:2278-2288 | Argument j is the first constraint with that argvIndex, up to the first j nobody asked for. |
| `SqlPushdown.Where.DisableTerm` | libsrc/sqlite3/src/where.c:1678-1691 | Disabling a term the code is sure of, and its parent with the last child, leaves only terms disabled that the code is sure of; in the loop of a LEFT JOIN's right table a term without the mark of an ON clause stays, derived ones included. |
| `SqlPushdown.CodeFilter` | libsrc/sqlite3/src/where.c:2264-2304 | After xFilter and the omit flags every disabled term is enforced by the code so far: a WHERE term for every combination, and unless the right table of a LEFT JOIN took a term of a later ON clause, an ON term for every match. |
| `SqlPushdown.CodeTests` | libsrc/sqlite3/src/where.c:2640-2672 | The tests of a loop: in that of a LEFT JOIN's right table its ON clause before the match is recorded and the WHERE terms after it; every ready term has its code then, and the same invariant holds. |
| `SqlPushdown.GenerateLoops` | libsrc/sqlite3/src/where.c:2218-2673 | The finished code accepts only what the WHERE clause does, whatever usable constraints the modules took; if these are fit, it also counts exactly the matches that can be in an answer, and withholds one of a LEFT JOIN only if nothing with NULLs in its place is in the answer. |
| `SqlPushdown.RowsAgree` | libsrc/sqlite3/src/where.c:2640-2672 | The matches a loop counts and those of the ON clause lead to the same answer. |
| `SqlPushdown.NullRow` | libsrc/sqlite3/src/where.c:2764-2774 | Where the code finds no match and goes on with a row of NULLs, the query finds none either or has nothing with such a row in its answer. |
| `SqlPushdown.RunIsAnswer` | libsrc/sqlite3/src/where.c:2264-2672 | Nested loops of such code produce exactly the answer, in order, from any prefix of rows they reach. |
| `SqlPushdown.Query` | include/sqlite3.h:4240-4305 | Whatever usable constraints the modules take and omit, if terms of later ON clauses are taken by no right table of a LEFT JOIN and elsewhere hold in every possible answer, then on all tables the loops produce exactly the rows of the join that satisfy the WHERE clause, in order; for strict modules, right tables aside, this is also necessary. |
| `SqlPushdown.LosesAnswer` | libsrc/sqlite3/src/where.c:1360-1367 | The converse, for any loop: a possible answer that fails a constraint a strict module took there is the answer over some tables, and no code generated for these plans produces it. |
| `SqlPushdown.RightTakesNoAnswer` | libsrc/sqlite3/src/where.c:1360-1367 | Code that is right on all tables takes only constraints that hold in every possible answer with a row of the table. |
| `SqlPushdown.LaterTermLosesAnswer` | libsrc/sqlite3/src/where.c:735-744 | t0 LEFT JOIN t1 ON t0.a = 5 with t0 virtual: the term is usable for t0, an honest module takes it, and the row of t0 with NULLs is lost by all code generated for that plan. |
| `SqlPushdown.WithheldMatchMakesNulls` | libsrc/sqlite3/src/where.c:2764-2774 | A match that the loop of a LEFT JOIN does not count comes out, over some tables, as a row of NULLs that is not in the join. |
| `SqlPushdown.IsNullMustNotBeReported` | libsrc/sqlite3/src/where.c:1294-1312 | For any clause and any code whose module enforces an IS NULL term on the right table of a LEFT JOIN: a match that fails it comes out as a row of NULLs; that is why IS NULL is not reported. |
| `SqlTriggers.Statement.Execute` | libsrc/sqlite3/src/vdbe.c:4076-4110 | One instruction on connection and statement state, with the context stack. |
| `SqlTriggers.Statement.Exec` | libsrc/sqlite3/src/vdbe.c:3343-3349 | A run of instructions is their composition. |
| `SqlTriggers.Effect` | include/sqlite3.h:864-893 | For any nesting of triggers, the generated code leaves the last row id of the statement's own inserts, counts only direct changes, adds trigger changes to the total, and returns to the same stack. |
| `SqlTriggers.BodyEffect` | include/sqlite3.h:864-868 | A trigger ends in the context it was fired from: row id and count are those from before, whatever it did. |
| `SqlTriggers.NothingElse` | include/sqlite3.h:975-1003 | Every change is direct, made in a trigger, or lost through RAISE(IGNORE). |
| `SqlTriggers.NothingLost` | include/sqlite3.h:975-1003 | At any depth, no step that RAISE(IGNORE) cut off had written a counted row if and only if no count is lost. |
| `SqlTriggers.TotalIsExact` | include/sqlite3.h:975-1003 | Running the code of any nesting adds exactly the number of changed rows to the total if and only if no step RAISE(IGNORE) cut off had written a counted row. |
| `SqlTriggers.IgnoreLosesACount` | include/sqlite3.h:975-1003 | One row written in a trigger that then raises IGNORE is in no counter. |
| `SqlTriggers.TallyIsState` | libsrc/sqlite3/src/vdbe.c:4076-4110 | After any number of instructions the machine shows the last row id, count, total and changes() that are read off the events. |
| `SqlTriggers.Statement.Run` | libsrc/sqlite3/src/vdbeaux.c:1405-1590 | A whole statement: completed, it reports its direct changes and adds all counted ones; stopped by an error at any instruction, changes() is 0 if its journal is undone and else the rows counted in the innermost open context since its step began (`OpenChanges`, read off the instructions), and the total grows by the completed steps and that number; the row id is the one up to there in every case. |
| `SqlTriggers.CounterIsOpenChanges` | libsrc/sqlite3/src/vdbe.c:4076-4110 | Whatever code has run, the counter holds the rows of the innermost open context, every saved counter those of its own, and the total has grown by the completed steps, each as it ended. |
| `SqlTriggers.TwoRowsThenAFailure` | libsrc/sqlite3/src/vdbeaux.c:1556-1563 | Two rows inserted, the third failing: changes() is 2, and 0 if the statement is undone, and the total grows by as much. |
| `SqlTriggers.BottomKept` | libsrc/sqlite3/src/vdbe.c:4081-4110 | At every instruction the outermost saved row id, or the current one outside triggers, is that of the statement's own inserts. |
| `SqlTriggers.FailedInsideTrigger` | libsrc/sqlite3/src/vdbe.c:4762-4773 | Stopped at any instruction, the last row id is the statement's own if and only if the triggers open there have inserted nothing, or last a row of that same id. |
| `SqlTriggers.AbortShowsTriggersRowid` | libsrc/sqlite3/src/vdbe.c:4762-4773 | A failure inside a trigger leaves the trigger's row id visible. |
| `SqlTriggers.ChangesInsideTrigger` | include/sqlite3.h:923-962 | At every instruction changes() is that of the step completed last in the innermost open trigger body (0 if none) if and only if nothing was reported since by a trigger below it, nor before it began if it has completed none, or the same number was. |
| `SqlTriggers.SubtriggersChangesAreSeen` | include/sqlite3.h:923-962 | Behind a trigger fired from the second step of a trigger changes() is 1, where the first step changed 2 rows. |
| `SqlTriggers.RunAll` | include/sqlite3.h:923-962 | Over every run of statements, completed, failed or undone: the total is the sum of what each adds, the row id is threaded through them, and changes() is that of the last one. |
| `SqlStatement.LegacyResetGivesV2Code` | include/sqlite3.h:2857-2885 | Of sqlite3_step with its recompilations: a failed legacy step answers only ERROR, BUSY or MISUSE, and the reset after it returns the code v2 returns directly, unless a commit still due at that reset fails with another; after a schema change v2 recompiles and legacy reset says SCHEMA. |
| `SqlStatement.RetriedFacts` | libsrc/sqlite3/src/vdbeapi.c:366-401 | Whatever attempt decides it, a step of either kind answers ROW, DONE or an error, leaves an error exactly when it answers one, the very code with v2, and a row exactly in the stated cases. |
| `SqlStatement.ResetReportsFailure` | libsrc/sqlite3/src/vdbeaux.c:1612-1680 | Reset reports an error if and only if the last step left one or the commit it forces fails. |
| `SqlStatement.ResetAfterStep` | include/sqlite3.h:3225-3235 | After DONE reset is OK; after ROW it is OK unless the commit fails; after an error it reports one; after MISUSE it repeats the old code. |
| `SqlStatement.DataAfterStep` | include/sqlite3.h:2928-2934 | A row is current after an attempt if and only if it returned ROW, or one was before and the attempt did not run or memory had failed. |
| `SqlStatement.StaleRowAfterFailedStep` | libsrc/sqlite3/src/vdbeapi.c:596-608 | A failed conversion and a failed step leave data_count above zero. |
| `SqlStatement.Statement.Bind` | libsrc/sqlite3/src/vdbeapi.c:819-835 | Binding is refused while the statement runs or has halted and out of range; otherwise exactly one parameter changes. |
| `SqlStatement.Connection.StepOnce` | libsrc/sqlite3/src/vdbeapi.c:258-346 | One step changes only this statement and keeps the count of running statements equal to the number that run, apart from commits that failed at reset; the code it returns is what `SqlCodes.AttemptAnswers` says. |
| `SqlStatement.Connection.Step` | libsrc/sqlite3/src/vdbeapi.c:366-401 | A step, with up to five recompilations for v2, returns and leaves what its deciding attempt does (`Retried`); bindings and the count of stuck statements stay. |
| `SqlStatement.Connection.Reset` | libsrc/sqlite3/src/vdbeapi.c:65-78 | Reset keeps the bindings, shows no row, and counts a busy commit as a statement stuck in the counter. |
| `SqlStatement.Connection.Finalize` | libsrc/sqlite3/src/vdbeapi.c:41-55 | Finalize removes exactly this statement and returns what reset would. |
| `SqlStatement.Connection.Prepare` | libsrc/sqlite3/src/vdbeaux.c:914-1000 | A new statement is ready, shows no row, and joins the connection's statements. |
| `SqlStatement.Connection.ExpireAll` | libsrc/sqlite3/src/vdbeaux.c:2302-2307 | Every statement is marked expired and nothing else changes. |
| `SqlStatement.Connection.ReadColumn` | libsrc/sqlite3/src/vdbeapi.c:596-608 | A column read without memory leaves NOMEM and changes nothing else. |
| `SqlStatement.Connection.Close` | libsrc/sqlite3/src/main.c:133-169 | Close answers BUSY and leaves the connection open if and only if a statement is left. |
| `SqlCodes.AttemptAnswers` | libsrc/sqlite3/src/vdbeapi.c:258-346 | One step, told from what its execution meets and from the calls before it, without the machine: a row, the end, BUSY for a lock or a busy commit, the error raised or met, masked as the connection asks, unless the commit or the journal fails with another or a blocked write was absorbed; MISUSE, SCHEMA and NOMEM found first. v2 returns that code, the old interface ERROR, BUSY or MISUSE; both leave the same code, phase and OR FAIL mark. |
| `SqlCodes.Executes` | libsrc/sqlite3/src/vdbe.c:4750-4780 | The same of sqlite3VdbeExec alone, for every kind of execution and halt. |
| `SqlCodes.StepAnswers` | libsrc/sqlite3/src/vdbeapi.c:366-401 | The same of sqlite3_step with its recompilations. |
| `SqlCodes.ResetAnswers` | libsrc/sqlite3/src/vdbeaux.c:1612-1680 | Reset returns the code that was kept, unless ending an unfinished statement gives another; afterwards nothing but the expiration mark is kept. |
| `SqlCodes.FullDiskIsReported` | libsrc/sqlite3/src/vdbeapi.c:330-346 | A new statement that meets a full disk: v2 answers SQLITE_FULL, the old interface SQLITE_ERROR, and reset SQLITE_FULL after either. |
| `SqlLifecycle.StepTells` | libsrc/sqlite3/src/vdbeapi.c:366-401 | A step answers what the calls so far and its own executions determine, and keeps the machine where they say: phase, stored code, expiration, current row. |
| `SqlLifecycle.Perform` | include/sqlite3.h:2857-3235 | One call of any kind, at any point of a life, returns the one code that the calls before it and what it meets determine. |
| `SqlLifecycle.WholeLife` | include/sqlite3.h:2857-3235 | From prepare to finalize, for any sequence of steps, failing column reads, bindings, expirations and resets, with either interface: every code returned is the one that what the calls met determines (`Answer`), data_count is above zero exactly when the calls so far say a row is current, reset and finalize report an error if and only if the last step that ran failed, a column was read without memory, or the forced commit fails (with v2 the same code), and the bindings are those accepted. |
| `SqlMutex.StepKeepsInv` | libsrc/sqlite3/src/mutex_unix.c:157-275 | Every step of every thread, in either build, keeps: the holder, owner and counter fields agree with the threads' own positions and depths. |
| `SqlMutex.MutualExclusion` | include/sqlite3.h:4645-4656 | After any interleaving from a free mutex at most one thread is inside. |
| `SqlMutex.DepthIsBalance` | include/sqlite3.h:4650-4653 | A thread's depth is its successful enters and tries less its leaves, whatever the others do. |
| `SqlMutex.LeavesBeforeOthers` | include/sqlite3.h:4650-4653 | Before another thread can be inside, a thread must have left as often as it entered. |
| `SqlMutex.FieldsAtRest` | libsrc/sqlite3/src/mutex_unix.c:157-275 | With no call in progress the stored owner and counter are exactly the holder and its depth. |
| `SqlMutex.TryBlocks` | include/sqlite3.h:4645-4661 | A try waits if and only if the build is the home-grown one, the try is at its lock and another thread holds it. |
| `SqlMutex.TryMeetsOwner` | libsrc/sqlite3/src/mutex_unix.c:197-245 | Against a mutex another thread is in, the pthread build answers BUSY at once and the home-grown one waits. |
| `SqlMutex.GetsIn` | libsrc/sqlite3/src/mutex_unix.c:157-245 | A try or an enter of a free mutex, or by the thread inside a recursive one, gets in, in either build: five steps later the thread is inside once more and holder, owner and counter say so. |
| `SqlMutex.Subsystem.Alloc` | libsrc/sqlite3/src/mutex_unix.c:84-130 | The two dynamic types are new objects, exactly when memory is granted, with a recursive pthread mutex only for type 1 and where the build has them; each static type always yields the same object. |
| `SqlAllocator.MaxIs` | libsrc/sqlite3/src/mem1.c:100-109 | The maximum the mark is compared with is reached and not passed. |
| `SqlAllocator.Memory.Used` | libsrc/sqlite3/src/mem1.c:87-93 | memory_used is the sum of the sizes of the live blocks. |
| `SqlAllocator.Memory.Highwater` | libsrc/sqlite3/src/mem1.c:100-109 | highwater is the maximum of the sums over the live blocks since the last reset, and resets to the present one exactly when asked. |
| `SqlAllocator.Memory.Malloc` | libsrc/sqlite3/src/mem1.c:148-171 | malloc: NULL for non-positive sizes, a block of the asked size otherwise, no live block disturbed, and the history only extended, by exactly the new sum where no callback calls back; whatever an alarm callback allocates, moves or frees; NULL for a positive size if and only if its last attempt, the second if the first was refused, is refused; the callback is made for the threshold and for a refusal, and at no other time. |
| `SqlAllocator.Memory.Free` | libsrc/sqlite3/src/mem1.c:176-190 | free removes exactly the block and its size, and extends the history by that; NULL is harmless. |
| `SqlAllocator.Memory.Realloc` | libsrc/sqlite3/src/mem1.c:195-230 | realloc keeps the first min(old, new) bytes, is malloc for NULL and free for size 0, on failure leaves the old block live and unchanged, and only extends the history; it fails exactly as malloc does, and its callbacks are counted likewise. |
| `SqlAllocator.Memory.Alarm` | libsrc/sqlite3/src/mem1.c:130-143 | The alarm callback may call malloc, realloc and free; the accounting holds at every point, the history is only extended, and the alarm does not nest. |
| `SqlAllocator.OverheadNotCounted` | include/sqlite3.h:1577-1580 | The bytes taken from the system exceed memory_used by exactly eight for each live block. |
| `SqlAllocator.Perform` | include/sqlite3.h:1567-1587 | One call: the history grows by what the call says, the mark is answered from it. |
| `SqlAllocator.RunAll` | include/sqlite3.h:1567-1587 | Over every run of calls: each memory_used is the sum of the blocks at its moment, and every highwater answer, those in the run and those before, is the maximum of the sums since the reset before it. |

## Left out

- SET OF with its sorting, the BIT STRING functions, appending to a list the caller supplies, and tags of 31 or more in templates. d2i_ASN1_INTEGER is read as its octets, without its change of sign and form.
- Asn1RoundTrip.ReadBack: for templates without strings of tag 0, 3, 16 and 17, because i2d_ASN1_bytes sends tag 3 to the BIT STRING functions, and writes 16 and 17 in a form the reader takes apart (Asn1Exactness.ConstructedReadBack); tag 0 is the end mark's.
- Asn1Session.SessionRoundTrip: the macros only; the version checks of d2i_SSL_SESSION and its truncations of over-long keys and ids are not modelled. Its INTEGER and OCTET STRING fields, which 1.0.1g reads through ASN1_item_d2i, are read here by d2i_ASN1_bytes.
- Error-queue text, line numbers and reason codes beyond which check failed.
- `include/openssl/asn1_mac.h` is read with the helpers of OpenSSL 1.0.1g in `libsrc/`, which differ by `const` only; `int` and `long` are both 32 bits wide.
- BnMul.Mul: the comba and Karatsuba branches are compiled out, as OPENSSL_SMALL_FOOTPRINT does; the loops unrolled by four are kept.
- BnModMul.ModMulMontgomery: the assembler branch is left out, and BN_sqr is that of the same build.
- BnExp.ModExpSimple: on integers, because BN_div and the reciprocal are taken by what they promise; so are BN_mod, BN_nnmod and BN_mod_inverse everywhere.
- BnExp.ModExpMont: on integers; BnExpWords.ModExpMontWords and BnExpConst.ModExpMontConsttime are the same routine on BIGNUMs.
- BnExp.ModExpMontWord: on integers, without the storage of its accumulator.
- BnExp.ModExp: on integers.
- BnExpWords.ModExpMontWords: for a context already made, and with BN_nnmod as a given number. What the result holds after a failure is left out. Numbers from a BN_CTX are new ones without storage; the pool, and its refusing to hand one out, are not modelled.
- BnExpConst.ModExpMontConsttime: the same, with BN_mod as a given number; `tmp` and `am` have arrays of their own instead of the end of the buffer, whose size is not cut to 32 bits.
- Setting and removing DOM attributes, the strings of a node beyond their values, the nodes of a returned list as a linked list, creation functions, documents read from XML, and the read-only flag, which no code sets.
- DomEdit.InsertBefore: a NULL reference ends in the abort the code's assertion is.
- Asn1Cursor.NeverWild: sufficient only; the exact extent of what is looked at depends on the octets without bound (Asn1Cursor.NestedStringsReadOn).
- Asn1Ownership.Heap.D2i: that a pointer to freed data is left is stated exactly for one string and for one part; for whole objects, that it takes a refused allocation. The flags of a string and its type are not modelled.
- SqlPushdown.Query: for right tables of LEFT JOINs that take terms of later ON clauses only LosesAnswer and WithheldMatchMakesNulls are proved.
- ORDER BY and cost estimates, how values of terms are computed; `SqlPushdown` takes the analysed clause as given.
- SQL evaluation, allocation failure while parsing, 32-bit overflow of change counters, and the `aborted` flag, which no code sets.
- SqlStatement.Connection.Step: the reset inside a recompiling step finds a fresh machine, so no commit can fail there; an allocation that fails at the very end of sqlite3_step is left out.
- Freeing a mutex, entering a plain mutex twice (undefined), and the insides of pthread mutexes, modelled by their owner and depth.
- A callback that replaces the alarm while it runs.
- The other headers of `include/`: devices, ciphers, CGI, FTP, UPnP messages, and `xmlparser.h`, a near copy of `ixml.h`.

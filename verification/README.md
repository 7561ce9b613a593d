# OpenSC's lists and wire formats

A model of four layers of OpenSC and proofs about them:

- **SimCList** (`OpenSC/src/common/simclist.c`): the doubly linked list with two sentinels, a cached pointer to the
  middle entry, a pool of at most five spare entries and an in-place sort. Modules `SinglePrecision`, `ListModel`,
  `SortModel`, `SimCList`, `SimCListSort`, `SimCListRuns`.
- **ASN.1/DER** (`OpenSC/src/libopensc/asn1.c`): tags and lengths, the search for a tag, integers, object
  identifiers, bit strings and bit fields, the table-driven encoder and decoder, ECDSA signatures. Modules `Octets`,
  `DerTag`, `DerWrite`, `DerSearch`, `DerInteger`, `DerOid`, `DerBits`, `Asn1Engine`, `Asn1Loops`, `Asn1RoundTrip`,
  `Asn1Rewrite`, `Asn1Values`, `EcdsaSig`.
- **APDUs** (`OpenSC/src/libopensc/apdu.c`): the octet codec, and transmission against an arbitrary card with one
  repetition after 6Cxx, GET RESPONSE after 61xx and command chaining. Modules `ApduCodec`, `ApduProtocol`,
  `ApduTransmit`.
- **Base64** (`OpenSC/src/libopensc/base64.c`). Module `Base64`.

Loops, cursors and buffers of the C code are methods over arrays and objects. Each is proved equal to a function of
its input or of the old state, and the laws are lemmas about those functions. Other lemmas say in plain terms what these
functions mean: in bits, numbers and characters, in the words of ITU-T X.690 and ISO/IEC 7816-3 rather than of the code.

## How things are represented

- Octets are integers 0..255; masks, shifts and `|` of disjoint bits are written as division, remainder and sum.
  Unsigned 32-bit wrap-around and C's truncating division appear where the code meets them (`ListModel.MidMoves`,
  `ListModel.CDiv`, `DerOid.EncodeOid`).
- A list element is a `void *`, modelled as its address with 0 as the null pointer. The list keeps ghost sequences
  `chain` (all entries, sentinels included), `contents` (the elements), `spare` and the sets `allocd` and `freed`.
  `list_findpos` compares a `float` quotient; `SinglePrecision` models it as IEEE 754 has it, both numbers and their
  quotient rounded to 24 binary digits, nearest even, and no more precision kept in between. `get_random` is an
  arbitrary choice. Dereferencing the null pointer is an outcome, not an assumption.
- An ASN.1 table is a datatype; an entry carries the value that `parm` points to and its OPTIONAL, EMPTY_ALLOWED and
  PRESENT flags. `Asn1RoundTrip.Blank` is the table as the decoder's caller sets it up, `Asn1RoundTrip.Image` what is
  expected back.
- The card is a pair of functions of all that has happened before (`ApduProtocol.Responder`), so a lemma about an
  arbitrary responder is a statement about every run. `ApduProtocol.Sound` says what is assumed: errors are negative,
  and `get_response` gives no more than it was asked for, announces at most 256 octets at a time, as many as the local
  buffer of the code holds, and gives at least one octet while it announces more.
  `checkSw`, `maxSend` and `ext` stand for `sc_check_sw`, `sc_get_max_send_size` and the extended-APDU capability.
  Flags CHAINING, NO_GET_RESP and NO_RETRY_WL are booleans.

## Where the code and its promises part

The model follows the code; these are proved as they are.

- `list_findpos` goes wrong when the rounded quotient of a position before the middle is 1/2: it stays at the middle
  entry. That takes more than 2^24 elements (`SinglePrecision.NeverAstray`) and happens with 2^24 + 1, at position
  2^23 - 1 (`SinglePrecision.FirstAstray`). An insertion then goes to the wrong place and leaves a wrong middle, a
  deletion takes the wrong element and, when the count is odd, leaves the middle pointer at the entry removed
  (`SimCList.List.InsertAt`, `SimCList.List.DeleteAt`); with every other position they do what they should.
- A step of an iteration that is already behind the tail sentinel dereferences the null pointer
  (`SimCList.List.IteratorNext`).
- `list_delete_range` over the whole list wraps its 32-bit arithmetic and dereferences the null pointer, and does so
  for no other range (`SimCList.List.DeleteRange`, `ListModel.MidMovesTarget`). The header promises counts as results
  of `list_delete_range` and `list_clear`; the code returns 0.
- The engine's decoder gives up a CHOICE at a CHOICE among the alternatives that does not match, so an alternative
  behind it is never found (`NestedChoiceHides`). A CHOICE that is present without any alternative is written, if its
  own tag is constructed or EMPTY_ALLOWED, as an empty element under that tag, which the decoder never looks for
  (`HollowChoiceLost`); only at the end of a structure, where leftover octets are ignored, nothing is lost
  (`HollowChoiceAtEnd`). `RoundTripExactly` says which legal tables come back.
- A CHOICE does not get its own PRESENT flag back. Written again it vanishes when it is optional; else it becomes an
  empty element under its own tag when that is constructed or EMPTY_ALLOWED, and is refused otherwise
  (`ChoiceFlagLost`). What was read can be written again unchanged if and only if every choice had written just that
  empty element, and no UNSIGNED octet string has lost a zero that the encoder does not put back (`WrittenAgain`);
  `EmptySequenceKept` is a table with a choice of this kind.
- An encoding of no octets is the null pointer, which the decoder reports as not found (`WholeCall`). UNSIGNED octet
  strings lose one leading zero; UNSIGNED text strings are padded like them but not stripped (`ImageIsSame`).
- The comment above the OPTIONAL rule says that an OPTIONAL element of length 0 is not written, NULL excepted. When it
  is present it is written like any other: if it is EMPTY_ALLOWED, NULL or constructed, and refused if it is not
  (`EmptyElement`).
- The comments in `decode_bit_string` ask for unused bits that are zero in DER; the code looks only at the first of
  them, in either mode (`PaddingOverlooked`). A string accepted in strict mode is the encoding of what was read if and
  only if all of them are zero (`DerBits.EncodeDecoded`).
- The OID encoder accepts 16 components, the decoder has room for 15 (`DerOid.DecodeEncoded`).
- Over T=0 the announced length of a case 3 extended APDU is one more than is written (`LengthExactly`), so
  `sc_apdu_get_octets` hands out one octet that was never set.
- With the CHAINING flag and no data (cases 1 and 2) `sc_transmit_apdu` sends nothing and reports success, and in no
  other case (`TransmitChain`, `TransmitApdu`, `NothingSent`). The comment in `sc_get_response` says that more is asked
  for after 9000; the loop ends there (`FetchesAre`).
- `sc_asn1_sig_value_sequence_to_rs` accepts integers without contents, `sc_asn1_decode_ecdsa_signature` does not;
  the latter accepts fields of no octets, for two zeros, and the former does not. Otherwise they agree on every input
  and width (`DecodersAgree`).

## Main results

- `SimCListRuns.Run`: every run of list operations follows a plain sequence, keeps the representation, and conserves
  the entries, returning what the plain sequence says.
- `SimCListSort.Sort`: the hybrid quicksort sorts in the direction of `versus` and permutes, for every comparator that is a
  total preorder and every choice of pivots.
- `SimCList.List.DeleteRange`, `SimCList.Concat`, `SimCList.List.RepOk`: mid re-seated through wrapping and truncating
  arithmetic; the representation check decides.
- `SimCList.List.FindPos`, `SinglePrecision.NeverAstray`, `SinglePrecision.FirstAstray`: where the search by a rounded
  quotient ends, for every length and position.
- `Asn1RoundTrip.RoundTripExactly`, `WholeCall`, `ImageIsSame`: exactly when a table comes back from encoding and
  decoding, and what does.
- `Asn1Rewrite.WrittenAgain`: exactly when what was read is written again unchanged.
- `Asn1Values.AcceptedTables`, `Asn1Values.WrittenValue`, `Asn1Values.DecodedValue`, `Asn1Values.DecodeSound`: which
  tables are written, what for a value, what any octets are taken for, and what any input does to a table.
- `DerInteger.EncodeDecoded`, `DerOid.AcceptedExactly`, `DerOid.EncodableExactly`, `DerBits.EncodeDecoded`,
  `DerSearch.FindTagInConcat`: the codecs and the search under them, in both directions.
- `EcdsaSig.RsRoundTrip`, `EcdsaSig.DecodersAgree`: signatures come back, and two decoders agree.
- `ApduCodec.ParseWritten`, `ApduCodec.WriteParsed`, `ApduCodec.LengthExactly`: both directions of the APDU codec.
- `ApduProtocol.ExchangeIs`, `ApduProtocol.ExchangeStatus`, `ApduProtocol.ChainingBit`,
  `ApduProtocol.ChainedTransmission`, `ApduTransmit.TransmitApdu`: what is sent to, and assembled from, any card.
- `Base64.RoundTrip`, `Base64.BreaksIgnored`, `Base64.DecodeExactly`: every text and every room.

## Model

| member | source | states |
|---|---|---|
| SimCList.List.constructor | OpenSC/src/common/simclist.c:235-281 | a new list is valid and empty, with two linked sentinels that hold null, an empty pool and nothing freed |
| SimCList.List.RepOk | OpenSC/src/common/simclist.c:1524-1554 | on any links whatsoever, below 2^31 elements: true exactly when some chain of entries from sentinel to sentinel has these links both ways, the counted length and the cached middle, and false when a link, the count or mid is wrong |
| SimCList.List.AssertRep | OpenSC/src/common/simclist.c:277-277 | the check is true on every list of this model, so no assertion of it fails |
| SimCList.List.IteratorStart | OpenSC/src/common/simclist.c:962-969 | freezes the list at position 0; refused, with the position kept, while an iteration is active |
| SimCList.List.IteratorNext | OpenSC/src/common/simclist.c:971-981 | returns the element at the position of the iteration, or the null the tail sentinel holds, and moves on by one; null dereference exactly for a step from behind the tail sentinel |
| SimCList.List.FindPos | OpenSC/src/common/simclist.c:416-442 | for every length and every position from -1 to numels the entry plain counting gives, or the middle one when the search starts on the wrong side; null outside; up to 2^24 elements in at most numels/4 + 1 steps |
| SinglePrecision.NeverAstray | OpenSC/src/common/simclist.c:427-437 | up to 2^24 elements the rounded quotient never puts a position on the wrong side of the middle |
| SinglePrecision.FirstAstray | OpenSC/src/common/simclist.c:427-437 | with 2^24 + 1 elements it does, for position 2^23 - 1 |
| SinglePrecision.SecondIsBefore | OpenSC/src/common/simclist.c:431-433 | rounding keeps the order, so the second quarter never reaches behind the middle, for any length |
| SinglePrecision.NearestFloat | OpenSC/src/common/simclist.c:427-427 | an integer rounds to a number of 24 binary digits, no other being nearer and the even one of two as near |
| SinglePrecision.QuarterIsRounded | OpenSC/src/common/simclist.c:428-437 | the quarter chosen is that of the quotient rounded to nearest even, for every position and count |
| SimCList.List.GetAt | OpenSC/src/common/simclist.c:381-387 | the element at the place where the search ends, and null from the end of the sequence on, at the tail sentinel as beyond it |
| SimCList.List.TakeEntry | OpenSC/src/common/simclist.c:470-479 | the last spare leaves the pool before it is used; only when the pool is empty one entry is allocated, which is fresh and the only one added to those ever allocated |
| SimCList.List.ReleaseEntry | OpenSC/src/common/simclist.c:1446-1450 | an unlinked entry becomes the last spare while there are fewer than five, else it is freed; nothing else joins or leaves pool and freed ones |
| SimCList.List.InsertEntry | OpenSC/src/common/simclist.c:496-523 | links and count are right again after splicing one entry in, and the middle exactly when the search did not go astray |
| SimCList.List.InsertAt | OpenSC/src/common/simclist.c:465-528 | the plain sequence with the element inserted behind the place where the search ends, in an entry from the pool or, when that is empty, one fresh entry; the list is valid again exactly when the search did not go astray; nothing once allocated is forgotten; refused and nothing changed while iterating or beyond the end |
| SimCList.List.DropElem | OpenSC/src/common/simclist.c:1427-1453 | exactly that entry leaves the chain, for the pool while it has room, else for the freed ones; mid is right for the shorter list exactly when the entry is the one at the position or the count was even |
| SimCList.List.DeleteAt | OpenSC/src/common/simclist.c:546-562 | the plain sequence without the element at the place where the search ends and the chain without its entry, pooled or freed as the room in the pool says; valid again exactly when the search did not go astray or the count was even; refused and nothing changed while iterating or out of range |
| SimCList.List.ExtractAt | OpenSC/src/common/simclist.c:444-463 | returns and removes the element at the place where the search ends, with its entry; null and nothing changed when refused |
| SimCList.List.Clear | OpenSC/src/common/simclist.c:629-671 | empties the list; the first entries fill the pool up to five, in order, and exactly the others are freed; refused while iterating |
| SimCList.List.MoveMid | OpenSC/src/common/simclist.c:584-589 | walking moves mid to the entry the given number of places away, and fails when it would have to go on from beyond a sentinel |
| SimCList.List.DeleteRange | OpenSC/src/common/simclist.c:564-627 | removes exactly that slice of elements and entries, which fill the pool and are freed beyond it, and re-seats mid, even when mid itself goes; null dereference if and only if the whole list is deleted, with every entry still accounted for |
| ListModel.MidMovesTarget | OpenSC/src/common/simclist.c:578-582 | the wrapping arithmetic finds the entry that will be in the middle unless all elements go, and then runs off the chain |
| SimCList.CopyEntries | OpenSC/src/common/simclist.c:740-752 | one copying loop: fresh entries, the source's elements in order, right back links |
| SimCList.List.FixMidAfterConcat | OpenSC/src/common/simclist.c:769-777 | from the end of the first list, with C's truncating division, mid lands on (n1+n2-1)/2 |
| SimCList.Concat | OpenSC/src/common/simclist.c:721-782 | a valid list of the first contents followed by the second; the sources are untouched |
| SimCList.MidAfterInsert | OpenSC/src/common/simclist.c:516-523 | the parity rule moves mid to index (n-1)/2 of the longer list |
| SimCList.MidAfterRemove | OpenSC/src/common/simclist.c:1430-1437 | the parity rule moves mid to index (n-1)/2 of the shorter list |
| SimCListSort.SelectionSort | OpenSC/src/common/simclist.c:815-834 | the short range is sorted, `cmp >= 0` between earlier and later elements for positive versus and `cmp <= 0` for negative, and a permutation of what it was; nothing outside changes |
| SimCListSort.Converge | OpenSC/src/common/simclist.c:871-889 | the two pointers meet the pivot with only fitting elements left behind them |
| SimCListSort.ShiftDown | OpenSC/src/common/simclist.c:892-905 | three-way rotations move what does not fit behind the pivot, and pivotid with it |
| SimCListSort.ShiftUp | OpenSC/src/common/simclist.c:906-921 | three-way rotations move what does not fit before the pivot, and pivotid with it |
| SimCListSort.Partition | OpenSC/src/common/simclist.c:861-921 | for every pivot choice: a permutation, with everything before the pivot allowed before it and everything behind allowed behind it |
| SimCListSort.Quicksort | OpenSC/src/common/simclist.c:836-960 | terminates, and leaves the range sorted in the direction of versus, again said of `cmp` itself, a permutation, the rest untouched |
| SimCListSort.Sort | OpenSC/src/common/simclist.c:784-796 | for every total preorder and both directions the contents are a permutation of what they were, with `cmp(x, y) >= 0` for every x before y when versus is positive and `<= 0` when it is negative; chain, count, middle, pool stay; refused while iterating or without comparator |
| SortModel.ComparatorOrders | OpenSC/src/common/simclist.c:827-827 | a total preorder comparator and a direction give an order that agrees with every sign test of the sort |
| SortModel.SortedMeans | OpenSC/src/common/simclist.c:827-827 | sorted means `cmp >= 0` throughout for positive versus and `cmp <= 0` throughout for negative: the order of every sign test is the one the header describes |
| SortModel.SortedParts | OpenSC/src/common/simclist.c:957-958 | a pivot with both sides sorted makes a sorted whole |
| SimCListRuns.Apply | OpenSC/src/common/simclist.c:444-671 | any one operation does to the list what it does to a plain sequence and returns what that says, changes nothing while iterating, crashes exactly on deleting everything by range or stepping an iteration on from behind the tail sentinel, and forgets no entry even then |
| SimCListRuns.Run | OpenSC/src/common/simclist.c:444-993 | every sequence of operations of any length, as long as the list holds at most 2^24 elements, keeps the representation invariant, follows the plain sequence step by step and returns its elements and codes, up to the first of those two calls; every entry ever allocated in the run is in exactly one of chain, pool and freed ones, and none freed is in use |
| DerTag.ReadTag | OpenSC/src/libopensc/asn1.c:62-136 | class, number, header size and length; end of data, malformed headers and too long contents told apart |
| DerTag.HeaderReadBack | OpenSC/src/libopensc/asn1.c:62-136 | the header of every element with a legal tag is read back, whatever follows |
| DerTag.LengthForm | OpenSC/src/libopensc/asn1.c:1014-1038 | lengths up to 127 are one octet; longer ones have a count of as few octets as hold the number, most significant first |
| DerTag.LengthRead | OpenSC/src/libopensc/asn1.c:107-136 | any length of up to four octets is read, leading zeros and all, and no longer one |
| DerTag.HeaderExactly | OpenSC/src/libopensc/asn1.c:62-136 | a header is accepted if and only if legal identifier octets and a readable length stand in front, and is taken for these; end of data exactly for a first octet 0x00 or 0xFF |
| DerWrite.PutTag | OpenSC/src/libopensc/asn1.c:980-1046 | every return code with its exact condition; on success tag, length and data are in place and nothing else has changed |
| DerWrite.WellFormedIs | OpenSC/src/libopensc/asn1.c:996-1012 | the tags of up to three octets that the writers accept are those that can be read back; a longer one needs the continuation bit in every octet in between |
| DerWrite.WriteElementBytes | OpenSC/src/libopensc/asn1.c:1054-1118 | a fresh buffer holding exactly one element under the identifier octets of the engine tag |
| DerSearch.FindTag | OpenSC/src/libopensc/asn1.c:484-520 | the loop finds the place the search function gives, or nothing |
| DerSearch.FindsFirst | OpenSC/src/libopensc/asn1.c:491-518 | over any elements written one after the other the search stops at the first with the wanted tag |
| DerSearch.FindTagInConcat | OpenSC/src/libopensc/asn1.c:484-520 | exactly the contents of the first element with the wanted tag, and none if there is none |
| DerSearch.FoundInside | OpenSC/src/libopensc/asn1.c:484-520 | on any octets whatever is found lies inside them, behind a header with the wanted tag |
| DerSearch.PutTagWritesElement | OpenSC/src/libopensc/asn1.c:992-1038 | a legal tag given as a number is accepted and written as its own octets |
| DerSearch.SkipTagBytes | OpenSC/src/libopensc/asn1.c:522-569 | contents and rest of the element in front when class, constructed bit and number agree, else none |
| DerSearch.SkipWritten | OpenSC/src/libopensc/asn1.c:522-569 | a written element is skipped under its own tag and under no other |
| DerSearch.SameTagIs | OpenSC/src/libopensc/asn1.c:536-562 | two engine tags are the same to the decoder if and only if they are written as the same octets |
| DerInteger.DecodeInteger | OpenSC/src/libopensc/asn1.c:733-773 | the complement loop computes the two's complement value; every error with its condition |
| DerInteger.EncodeInteger | OpenSC/src/libopensc/asn1.c:775-830 | the skipping loop writes the encoding of every 32-bit int |
| DerInteger.IntOctetsMeaning | OpenSC/src/libopensc/asn1.c:775-830 | the encoding is minimal, of one to four octets, and stands for the number |
| DerInteger.DecodeEncoded | OpenSC/src/libopensc/asn1.c:733-830 | decoding undoes encoding for every 32-bit int, strictly or not |
| DerInteger.EncodeDecoded | OpenSC/src/libopensc/asn1.c:733-830 | strict mode accepts exactly the minimal strings of one to four octets, and each is the encoding of its value |
| DerInteger.NonStrict | OpenSC/src/libopensc/asn1.c:733-773 | without strictness every string of one to four octets is read, and is the encoding of its value with octets of its sign in front |
| DerInteger.EncodedIsShortest | OpenSC/src/libopensc/asn1.c:775-830 | no string that decodes to the same number is shorter |
| DerOid.ReadGroups | OpenSC/src/libopensc/asn1.c:865-889 | the group loop reads one arc, refusing padding, truncation and overflow |
| DerOid.DecodeObjectId | OpenSC/src/libopensc/asn1.c:832-906 | the 16 components or the error; all components cleared on error |
| DerOid.EncodeObjectId | OpenSC/src/libopensc/asn1.c:908-964 | success if and only if two components are there, the first at most 2 and the second at most 39 unless the first is 2; then the octets of the components before the first -1 |
| DerOid.DecodeEncoded | OpenSC/src/libopensc/asn1.c:832-964 | decoding undoes encoding for every valid identifier of 2 to 15 components; with 16 it fails |
| DerOid.EncodeDecoded | OpenSC/src/libopensc/asn1.c:832-964 | every accepted octet string is the encoding of what was read, which is valid |
| DerOid.AcceptedExactly | OpenSC/src/libopensc/asn1.c:832-906 | the octet strings accepted are exactly the encodings of valid identifiers of 2 to 15 components |
| DerOid.EncodableExactly | OpenSC/src/libopensc/asn1.c:908-964 | the encoder accepts an identifier of up to 15 components if and only if some octet string is decoded to it; one of 16 if and only if its first 15 are such |
| DerOid.OidMeans | OpenSC/src/libopensc/asn1.c:926-960 | groups of seven bits, most significant first, continued but for the last, 40x + y for the first two components; 2.5.4.3 is 55 04 03 |
| DerBits.EncodeBitString | OpenSC/src/libopensc/asn1.c:650-685 | the bit loops write the encoding in a fresh buffer |
| DerBits.EncodedBits | OpenSC/src/libopensc/asn1.c:650-685 | bit k of the wire is bit k of memory for k < n and zero after, and the first octet counts the unused bits |
| DerBits.DecodeBitString | OpenSC/src/libopensc/asn1.c:577-636 | bit count and octets, the rest of the buffer zero; every error with its condition |
| DerBits.DecodeEncoded | OpenSC/src/libopensc/asn1.c:577-685 | for every bit count, strictly or not: n, the same first n bits, zeros after them |
| DerBits.DecodeBitsMeans | OpenSC/src/libopensc/asn1.c:577-636 | on any octets: every refusal with its condition on the octets; else the used bits, mirrored within each octet or not, and zeros |
| DerBits.EncodeDecoded | OpenSC/src/libopensc/asn1.c:577-685 | a string accepted in strict mode is the encoding of what was read if and only if all its unused bits are zero |
| DerBits.PaddingOverlooked | OpenSC/src/libopensc/asn1.c:615-620 | 03 01 is accepted in strict mode and is not the encoding of what is read |
| DerBits.EncodeBitField | OpenSC/src/libopensc/asn1.c:711-731 | the bits are counted and written as a bit string |
| DerBits.DecodeBitField | OpenSC/src/libopensc/asn1.c:691-709 | the octets are put together least significant first |
| DerBits.DecodeFieldEncoded | OpenSC/src/libopensc/asn1.c:691-731 | decoding undoes encoding for every 32-bit field |
| DerBits.EncodedField | OpenSC/src/libopensc/asn1.c:711-731 | the bits of the number up to its highest one, lowest first, and their count |
| DerBits.DecodedField | OpenSC/src/libopensc/asn1.c:691-709 | on any octets: bit k of the number is bit k of the string and zero behind its end; every refusal with its condition |
| Asn1Loops.EncodeValue | OpenSC/src/libopensc/asn1.c:1874-1956 | null parm is refused; every primitive codec and the recursion into a structure give the contents the encoding function says, which stand for the value (`Asn1Values.WrittenValue`) |
| Asn1Loops.FinishElement | OpenSC/src/libopensc/asn1.c:2009-2033 | what becomes of empty contents by OPTIONAL, PRESENT, EMPTY_ALLOWED, NULL and constructed tags |
| Asn1Loops.EncodeOne | OpenSC/src/libopensc/asn1.c:1826-2041 | one entry, choices included |
| Asn1Loops.EncodeTable | OpenSC/src/libopensc/asn1.c:2043-2084 | the buffer grows by one element after the other; the first error ends it |
| Asn1Loops.DecodeValue | OpenSC/src/libopensc/asn1.c:1489-1687 | every primitive codec and the recursion into a structure give the value the decoding function says; with null parm nothing is read |
| Asn1Loops.DecodeOne | OpenSC/src/libopensc/asn1.c:1758-1799 | one round of the loop: taken, missing or malformed |
| Asn1Loops.DecodeTable | OpenSC/src/libopensc/asn1.c:1721-1812 | the whole loop over fields or alternatives |
| Asn1Values.WrittenValue | OpenSC/src/libopensc/asn1.c:1874-1956 | a present primitive entry becomes one element under its tag whose contents stand for its value as ITU-T X.690 says: eight equal bits of a BOOLEAN, a minimal two's complement INTEGER, the bits of a BIT STRING, the octets, the arcs |
| Asn1Values.BooleanWritten | OpenSC/src/libopensc/asn1.c:1887-1895 | a BOOLEAN under tag 1 is 01 01 and an octet whose eight bits all equal the value |
| Asn1Values.AcceptedTables | OpenSC/src/libopensc/asn1.c:1826-2084 | the encoder accepts a table, whatever it is, if and only if every entry is optional and absent or has a value that can be written: tags that can be written, valid arcs, at most one alternative, no null parm, and no contents of no octets but for EMPTY_ALLOWED, NULL and constructed tags; it makes no octets exactly of entries all absent and optional |
| Asn1Values.DecodedValue | OpenSC/src/libopensc/asn1.c:1489-1687 | what any contents octets are taken for, or refused: true if and only if some bit is set, the two's complement value, the used bits, the only arcs with this encoding |
| Asn1Values.DecodeSound | OpenSC/src/libopensc/asn1.c:1721-1812 | on any input: octets are used from the front, the table keeps its shape and tags, and a structure is accepted only with all mandatory entries found |
| Asn1Values.MalformedStops | OpenSC/src/libopensc/asn1.c:1773-1799 | malformed contents stop the decoder, OPTIONAL or not; a tag that is not there only when the entry is mandatory |
| Asn1RoundTrip.WrittenEntry | OpenSC/src/libopensc/asn1.c:1773-1779 | what a present entry has written is skipped under no tag but its own |
| Asn1RoundTrip.EncodedStarts | OpenSC/src/libopensc/asn1.c:2043-2084 | an encoding is empty with nothing present, or begins with an element under a tag that may come first |
| Asn1RoundTrip.AlternativesMiss | OpenSC/src/libopensc/asn1.c:1757-1804 | input under other tags leaves a choice as it was when the first choice among its alternatives may be passed over, and is refused otherwise |
| Asn1RoundTrip.PassedOver | OpenSC/src/libopensc/asn1.c:1756-1804 | on input under other tags the decoder's result is the image if and only if no entry has a value and none insists on being found |
| Asn1RoundTrip.EntryTaken | OpenSC/src/libopensc/asn1.c:1758-1799 | a present entry takes exactly what it has written and leaves what follows |
| Asn1RoundTrip.RoundTrip | OpenSC/src/libopensc/asn1.c:1721-2084 | for every legal table of structures, choices, optional and primitive entries whose alternatives can be reached the decoder gives back values and flags and consumes every octet |
| Asn1RoundTrip.RoundTripExactly | OpenSC/src/libopensc/asn1.c:1758-2041 | a legal table comes back if and only if no unmatched choice stands in front of a present alternative and no choice is present without alternative, save where a structure has nothing but such choices from there on |
| Asn1RoundTrip.WholeCall | OpenSC/src/libopensc/asn1.c:1734-1735 | through the public functions it holds if and only if, besides, something is present |
| Asn1RoundTrip.DistinctIsEnough | OpenSC/src/libopensc/asn1.c:1773-1779 | pairwise distinct tags tell an entry apart from whatever may follow it |
| Asn1RoundTrip.ImageIsSame | OpenSC/src/libopensc/asn1.c:1489-1687 | what comes back is the caller's table, choices' own flags aside, if and only if absent entries are blank, no bits are set past a bit string's length, no UNSIGNED octet string has a leading zero and no UNSIGNED text begins with an octet from 0x80 on |
| Asn1RoundTrip.NestedChoiceHides | OpenSC/src/libopensc/asn1.c:1758-1771 | a legal table that does not come back |
| Asn1RoundTrip.HollowChoiceLost | OpenSC/src/libopensc/asn1.c:1871-1872 | a legal table with a choice present without alternative that does not come back |
| Asn1RoundTrip.HollowChoiceAtEnd | OpenSC/src/libopensc/asn1.c:1499-1503 | the same choice at the end of a structure does |
| Asn1Rewrite.ChoiceFlagLost | OpenSC/src/libopensc/asn1.c:1758-1771 | for every choice that is present: what it is written as once it has been read, and that this is the same exactly when it is mandatory, may be empty, and has written an empty element under the same identifier octets |
| Asn1Rewrite.EmptyElement | OpenSC/src/libopensc/asn1.c:2009-2033 | empty contents of an entry that is present are written as an empty element if it is EMPTY_ALLOWED, NULL or has the constructed bit in its identifier octet, and refused otherwise, OPTIONAL or not |
| Asn1Rewrite.TableAgain | OpenSC/src/libopensc/asn1.c:1489-2084 | a table and its image have the same encoding if and only if every choice that is present writes just the empty element it becomes and no UNSIGNED octet string loses a zero for good; nothing behind a changed element makes up for it |
| Asn1Rewrite.WrittenAgain | OpenSC/src/libopensc/asn1.c:1489-2084 | a legal table that is read back is written again unchanged if and only if it is of that kind |
| Asn1Rewrite.EmptySequenceKept | OpenSC/src/libopensc/asn1.c:1758-1771 | a legal table with a choice that is written again unchanged |
| EcdsaSig.RsToSequence | OpenSC/src/libopensc/asn1.c:2159-2192 | the table of both halves without leading zeros is encoded |
| EcdsaSig.SigEncoded | OpenSC/src/libopensc/asn1.c:2159-2192 | every input of two octets or more becomes a SEQUENCE of two INTEGER elements |
| EcdsaSig.DigitsAreShortest | OpenSC/src/libopensc/asn1.c:1919-1940 | each INTEGER is the shortest two's complement form of the number in its half |
| EcdsaSig.SequenceToRsBytes | OpenSC/src/libopensc/asn1.c:2195-2241 | both numbers aligned at the end of their halves, zeros before them; the buffer untouched on every error |
| EcdsaSig.DecodeEcdsaSignature | OpenSC/src/libopensc/asn1.c:2243-2290 | both numbers aligned in fields of fieldsize octets and zeros behind, or the error |
| EcdsaSig.DecodersAgree | OpenSC/src/libopensc/asn1.c:2195-2290 | for every input and every width but 0 both decoders accept the same, save integers without contents, and give the same octets; at width 0 one refuses everything and the other accepts exactly two zeros |
| EcdsaSig.RsRoundTrip | OpenSC/src/libopensc/asn1.c:2159-2290 | both decoders recover every even-length input of two octets or more, leading zeros and high-bit padding included |
| ApduCodec.LengthExactly | OpenSC/src/libopensc/apdu.c:42-73 | the announced length is the length written if and only if it is not case 3 extended over T=0 |
| ApduCodec.HighOctetFirst | OpenSC/src/libopensc/apdu.c:127-163 | lengths of two octets have the more significant one first, written and read |
| ApduCodec.OverT0 | OpenSC/src/libopensc/apdu.c:105-163 | what T=0 changes: a zero octet in case 1, no Le in case 4, low octets in place of extended lengths, no Lc in case 3 extended, which is refused when its length does not fit one octet |
| ApduCodec.Apdu2Bytes | OpenSC/src/libopensc/apdu.c:83-172 | exactly the octets of the command at the start of the buffer, or the refusal with its condition |
| ApduCodec.GetOctets | OpenSC/src/libopensc/apdu.c:174-199 | a fresh buffer of the announced length that begins with those octets |
| ApduCodec.Bytes2Apdu | OpenSC/src/libopensc/apdu.c:652-774 | the cursor code parses what the grammar of short and extended APDUs says, with its errors |
| ApduCodec.ParseWritten | OpenSC/src/libopensc/apdu.c:83-774 | over T=1 header, case, Lc, Le and data come back if and only if the command is representable |
| ApduCodec.WriteParsed | OpenSC/src/libopensc/apdu.c:83-774 | every accepted octet string encodes back to itself and stands for a representable command |
| ApduCodec.AcceptedExactly | OpenSC/src/libopensc/apdu.c:652-774 | the octet strings accepted are exactly the encodings of representable commands |
| ApduProtocol.FetchesAre | OpenSC/src/libopensc/apdu.c:450-492 | at most one request per octet of room, each for what was announced, until nothing is left, an error, or a full buffer |
| ApduProtocol.ReplyParts | OpenSC/src/libopensc/apdu.c:205-219 | a reply is the data and behind them the two octets of the status |
| ApduProtocol.AnnouncedIs | OpenSC/src/libopensc/apdu.c:389-390 | status octet 0 announces 256 octets, any other as many as it says |
| ApduProtocol.ExchangeIs | OpenSC/src/libopensc/apdu.c:508-540 | for every card: one command, repeated at most once after 6Cxx and with the demanded Le; the response is the answer and all chunks cut to the buffer; with room left nothing announced is left behind |
| ApduProtocol.ExchangeStatus | OpenSC/src/libopensc/apdu.c:508-540 | in every run the result is that of the last answer: its error, the demand for a longer buffer, or its two status octets, with 9000 for a fetched 61xx; fetching follows exactly after 61xx when allowed and asked for, and begins with what the status announces |
| ApduProtocol.ChainIs | OpenSC/src/libopensc/apdu.c:586-607 | the pieces carry the data in order, all but the last of full size with bit 4 of CLA set and its other bits kept, no Le and case 3 for case 4; the last is as the caller made it |
| ApduProtocol.ChainingBit | OpenSC/src/libopensc/apdu.c:590-601 | every command before the last has bit 0x10 of CLA set, the other seven as the caller gave them |
| ApduProtocol.ChainCount | OpenSC/src/libopensc/apdu.c:581-632 | the number of commands is the data length over the piece size, rounded up |
| ApduProtocol.ChainFollowed | OpenSC/src/libopensc/apdu.c:581-632 | in every run the commands sent are a prefix of the chain, and all of it on success |
| ApduProtocol.ChainedTransmission | OpenSC/src/libopensc/apdu.c:574-632 | in every run the data sent are a prefix of the command data; on success all of them, in that many commands |
| ApduProtocol.LastSupplies | OpenSC/src/libopensc/apdu.c:615-629 | after success every earlier command had an approved status, and the last alone supplies status and response |
| ApduTransmit.SetResp | OpenSC/src/libopensc/apdu.c:201-222 | sw1 and sw2 are the last two octets of the buffer, the response those before them cut to the room, nothing stored behind it |
| ApduTransmit.CheckApdu | OpenSC/src/libopensc/apdu.c:255-333 | accepts exactly the commands whose lengths, data and buffer suit their case |
| ApduTransmit.ConsistentIs | OpenSC/src/libopensc/apdu.c:255-333 | outside chaining what the check accepts is exactly what has an encoding of its own, with data in case 4, a card that takes extended commands, and a buffer where Le is sent |
| ApduTransmit.ConsistentChained | OpenSC/src/libopensc/apdu.c:255-333 | with chaining a short command may have data of any length; all else is the same |
| ApduTransmit.DetectedIsConsistent | OpenSC/src/libopensc/apdu.c:255-354 | detection finds an acceptable form if there is one, the short one first |
| ApduTransmit.SetLeAndTransmit | OpenSC/src/libopensc/apdu.c:386-417 | sends again with the demanded Le, or fails without sending when the buffer is shorter |
| ApduTransmit.FetchAll | OpenSC/src/libopensc/apdu.c:444-495 | the loop terminates, minlen never underflows, and the buffer holds the body and all chunks cut to its size |
| ApduTransmit.GetResponse | OpenSC/src/libopensc/apdu.c:420-500 | ignores pending data when Le is 0, else assembles the response; 9000 on success |
| ApduTransmit.Send | OpenSC/src/libopensc/apdu.c:512-529 | the command and at most one repetition |
| ApduTransmit.Transmit | OpenSC/src/libopensc/apdu.c:508-540 | events, result, status and response are those of the exchange, and nothing is stored behind the buffer's room |
| ApduTransmit.PieceIsConsistent | OpenSC/src/libopensc/apdu.c:609-613 | every piece of an accepted command is accepted if and only if the piece size is positive and suits a short case |
| ApduTransmit.TransmitChain | OpenSC/src/libopensc/apdu.c:574-632 | the loop performs the run of the chain and terminates even for piece size 0; status and response change only on success |
| ApduTransmit.TransmitApdu | OpenSC/src/libopensc/apdu.c:543-649 | detection, check, then the exchange or the chain; nothing is sent when the check fails, and a call that succeeds has sent nothing if and only if it is to chain and there are no data |
| ApduTransmit.NothingSent | OpenSC/src/libopensc/apdu.c:574-632 | nothing is sent if and only if the check fails or the command is to be chained and has no data or does not fit the piece size; success without sending is exactly chaining without data |
| Base64.FromBase64 | OpenSC/src/libopensc/base64.c:68-98 | the loop reads one group: octet count, number, characters used, or the error |
| Base64.Encode | OpenSC/src/libopensc/base64.c:100-148 | the wrapped text and its terminator, or BUFFER_TOO_SMALL exactly when the buffer is shorter than that |
| Base64.TextLength | OpenSC/src/libopensc/base64.c:100-148 | four characters per started group of three octets and one newline per started line |
| Base64.Alphabet | OpenSC/src/libopensc/base64.c:32-53 | A to Z, a to z, 0 to 9, plus and slash stand for 0 to 63 in this order, and no other character for any; = alone is padding |
| Base64.QuadMeans | OpenSC/src/libopensc/base64.c:55-66 | three octets and four digits are one number, most significant first; padding in place of the digits not needed |
| Base64.LineEnds | OpenSC/src/libopensc/base64.c:100-148 | which character stands where: a line end after every full line and at the end, the text elsewhere |
| Base64.DecodeText | OpenSC/src/libopensc/base64.c:150-176 | the octets and their number, or the error, nothing stored behind them |
| Base64.DecodeExactly | OpenSC/src/libopensc/base64.c:68-176 | on any text and for any room: line breaks aside, the digits in front are read; it has to end in padding, or with the text after a whole group; what is behind padding is not looked at; too little room is noticed before what is behind it |
| Base64.BreaksIgnored | OpenSC/src/libopensc/base64.c:82-88 | carriage returns and newlines make no difference, wherever they stand |
| Base64.DigitsRead | OpenSC/src/libopensc/base64.c:68-176 | without line breaks decoding gives back every octet string, or TooSmall exactly when there is no room |
| Base64.RoundTrip | OpenSC/src/libopensc/base64.c:100-176 | the same for every line length |

## Left out

- SimCList: `list_delete`, `list_locate`, `list_seek`, minimum and maximum, hashing, dump and restore, the threaded
  sort, attributes other than the comparator, and element copies (`copy_data`), which would only repeat the frame of
  the operations modelled.
- Allocation failure, in all four layers.
- SimCList.List.InsertAt: the element count is not bounded by the width of `unsigned int`.
- SimCListRuns.Run: a run stops when the list has more than 2^24 elements, where the search may go astray.
- SimCList.List.DeleteRange: lists of more than 2^24 elements, for the same reason.
- Asn1Rewrite.WrittenAgain: encodings of 2^32 octets and more, and choices that would be written as an empty element
  under a tag that is not legal.
- SimCList.List.RepOk: counts of 2^31 and more, for which the C code's `int` counter would overflow.
- SimCList.Concat: the target is a new list, so the checks against null and aliased arguments do not arise.
- SimCListSort.Sort: overflow of the product of comparator result and `versus` is not modelled; results are numbers.
- Asn1Loops.DecodeTable: entries are values that the decoder returns, not records updated in place. What a failed
  decode leaves in the table is not modelled; in particular an OPTIONAL choice whose error is passed over is left as it
  was, where the code may have stored parts of it and freed buffers. The round trip does not depend on this: there no
  tag below such a choice matches (`AlternativesMiss`), so nothing of it is decoded.
- Asn1Loops.DecodeValue: a missing length pointer (`arg`), a CHOICE with null `parm`, callers' own buffers (entries
  without ALLOC), and the entry types PATH, PKCS15_ID, PKCS15_OBJECT, ALGORITHM_ID, SE_INFO and CALLBACK are not
  modelled.
- Asn1Loops.EncodeValue: the look at the first octet of an empty UNSIGNED string is not modelled.
- The non-inverting bit-string encoder, printing, `sc_asn1_write_element`'s shift by 64 for contents of 2^56 octets.
- DerSearch.FindTag: the check `taglen > left` behind a match cannot be reached and is not in the model.
- EcdsaSig.RsToSequence: for an odd length the last octet is ignored, as in the code; inputs of fewer than two octets are
  refused, without the look at the octet behind the input.
- ApduCodec.Apdu2Bytes: for a case outside the seven the code computes length 0 and does not check the buffer; callers
  must provide four octets.
- ApduTransmit.CheckApdu: the data pointer is never null when there are data.
- ApduTransmit.TransmitApdu: secure messaging, locking, logging, the reader-reset callback and the delay for Belpic cards
  are not modelled.
- ApduTransmit.Fetch: the driver's `get_response` is abstract; `OpenSC/src/libopensc/iso7816.c:905-942` is not part of
  this model.
- Card drivers, readers and PKCS#15 are not part of this model.

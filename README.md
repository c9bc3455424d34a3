# NMEA 0183 parser and serializer, modelled in Dafny

This project models the C library `nmea_parser.c`. The library reads and writes NMEA 0183 sentences of the form

    $TTCCC,field,field,...*HH<CR><LF>

- `TT` is a two-character talker id.
- `CCC` is a three-character type code.
- The fields are separated by commas.
- `*HH` is an optional checksum: the XOR of every character between `$` and `*`, written as two upper-case hexadecimal digits.
- Strict mode adds the NMEA 0183 length limit of 82 characters.

## Modules

The model has one module per part of the library.

- **`CStrings`** (`cstrings.dfy`) handles C strings as byte sequences. A NUL ends the text.
  - `Find` is `strstr` with a one-character needle.
  - `CText` is the text of a C string.
  - `CopyN` is what `nmea_strncpy_s` copies.
  - `CopyInto` is `nmea_strncpy_s` writing into a character array.
- **`Checksums`** (`checksums.dfy`) is the checksum engine:
  - XOR over non-negative integers, with its algebra;
  - the fold `Xor`, with the loops `nmea_checksum_add_str` and `nmea_message_string_checksum`;
  - the two-digit rendering `nmea_checksum_to_string`;
  - the `strtol(…, 16)` reading of checksum text.
- **`Messages`** (`messages.dfy`) models `nmea_message` as a class. Its fields are:
  - the talker and type buffers;
  - an append-only list of values, each keeping the copied text and its declared `value_length`;
  - `value_count`.

  The module defines `nmea_init_message`, `nmea_add_value`, `nmea_message_length` and `nmea_message_checksum`. It also defines `Sentence`, the value a parse yields.
- **`Serializer`** (`serializer.dfy`) models `nmea_message_to_string`. It fills an array slot by slot, as the C code advances `current_ptr`. The function `Rendering` is the specification it is proved against.
- **`Parser`** (`parser.dfy`) models `nmea_parse_message` twice:
  - as a pure function `Parse`, built from the stages `Framed`, `Checked` and `Identified`, one per block of checks in the C code;
  - as the imperative `ParseMessage`, which builds a `Message` with the constructor and `AddValue` and is proved to return exactly what `Parse` describes.
- **`Stages`** (`stages.dfy`) states the outcome of each check from what the text holds, without reference to the searches.
- **`RoundTrip`** (`roundtrip.dfy`) holds three results:
  - the field loop undoes the comma join;
  - parsing a rendered sentence gives back its contents;
  - a sentence without a checksum loses its last field.

## Behaviour modelled as the code has it

In several places the code does something other than what an NMEA reader might expect. The model keeps the code's behaviour (`nmea_parser.c`):

- **CR is searched before LF.** The search for CR runs over the whole rest of the string before LF is tried (lines 203-204). A CR in a later sentence therefore wins over a nearer LF (`Stages.FramedAt`).
- **The strict length error leaves the end index at 0.** It returns before the end index is set (lines 208-213).
- **The end index is the terminator's offset plus one.** After CR LF it points at the LF.
- **Every strict `XXRM` sentence that passes the checksum and id checks fails with `ChecksumExpected`.** The checksum pointer is reset to NULL whether or not a checksum was present (line 227), so this happens even with a correct checksum (`RoundTrip.ParseOfSerialized`, `Stages.IdentifiedVendor`). A strict `XXRM` sentence with a wrong checksum length, a wrong checksum or a misplaced id fails earlier, with `IncorrectChecksumLength`, `ChecksumError` or `IdLengthIncorrect` (lines 215-237 come before line 239).
- **The field loop drops a field after the terminator.** A field is closed only by a `,` or `*` at or before the terminator (lines 261-262). Without a checksum the last field is therefore dropped, after CR LF (`RoundTrip.ParseWithoutChecksum`) and after a bare LF (`RoundTrip.ParseWithoutChecksumLf`).
- **A message with no fields is rendered without `*`.** The result is `$TTCCC,HH` CR LF, 11 characters, while `nmea_message_length` reports 12. The buffer then ends in two NULs (`Serializer.MessageToString`, `Serializer.RenderingLength`).
- **The source header does not match the code.** `nmea_parser.h:8-18` declares `nmea_value` without `value_length` and `nmea_message` without `value_count`. The model follows `nmea_parser.c`, which uses both.
- **`strtol(…, 16)` is simplified.** It is modelled as the value of the longest prefix of hexadecimal digits in either case, or 0 when there is none.

## Model

| member | source | states |
|---|---|---|
| CStrings.Find | nmea_parser.c:203-204 | `strstr` for one character: a found index lies at or after `i`, holds `c`, and neither `c` nor NUL occurs before it |
| CStrings.FindAbsent | nmea_parser.c:261-262 | a search that fails, or finds `c` only past `end`, leaves no `c` at or before `end` ahead of the first NUL |
| CStrings.CTextAppend | nmea_parser.c:203-204 | the C-string text of a NUL-free prefix followed by more is that prefix followed by the text of the rest |
| CStrings.FindInText | nmea_parser.c:193-204 | a search succeeds exactly when the character occurs in the C-string text from `i` on, so `None` means it does not occur before the first NUL |
| CStrings.CopyN | nmea_parser.c:35-44 | the copied text is a NUL-free prefix of the source, at most `n` long, shorter only at a NUL or the end of the source |
| CStrings.CopyInto | nmea_parser.c:35-44 | the buffer afterwards holds the copied text at `at`, a NUL right after it, and is unchanged elsewhere |
| Checksums.BitXorZero | nmea_parser.c:46-48 | 0 is the identity of exclusive or, on both sides |
| Checksums.BitXorAssoc | nmea_parser.c:46-48 | exclusive or is associative, so a fold can be regrouped |
| Checksums.BitXorByte | nmea_parser.c:46-48 | the exclusive or of two bytes is a byte |
| Checksums.XorByte | nmea_parser.c:62-70 | the checksum of any text is below 256 |
| Checksums.XorAppend | nmea_parser.c:52-58 | the checksum of a concatenation is the exclusive or of the parts' checksums |
| Checksums.AddStr | nmea_parser.c:52-58 | `nmea_checksum_add_str(c, s)` is `c` XOR the checksum of the text of `s`, up to its first NUL |
| Checksums.StringChecksum | nmea_parser.c:62-70 | `nmea_message_string_checksum(b, e)` is the XOR of the characters in [b, e), stopping at the first NUL |
| Checksums.DigitChar | nmea_parser.c:273-277 | for a digit in 0..15 the character is `0`-`9` or `A`-`F` and denotes that digit |
| Checksums.Hex2 | nmea_parser.c:279-292 | two characters, high nibble first; for a byte both are upper-case hexadecimal digits that denote the byte again |
| Checksums.Hex2OfValue | nmea_parser.c:279-292 | every pair of upper-case hexadecimal digits is the rendering of the byte it denotes, so rendering is onto |
| Checksums.ParseHexOfHex2 | nmea_parser.c:222 | `strtol(…, 16)` reads a rendered checksum back as the byte, whatever non-digit follows |
| Messages.Message.constructor | nmea_parser.c:96-109 | empty talker and type and no values, with `value_count` 0 |
| Messages.Message.AddValue | nmea_parser.c:150-179 | appends one value with the first `length` characters of `str` (fewer at a NUL) and declared length `length`; `value_count` grows by one; earlier values, talker and type are unchanged; the invariant is kept |
| Messages.Message.Length | nmea_parser.c:131-148 | `nmea_message_length` is 7 + the sum of declared lengths + (n - 1) + 5 for n ≥ 1 values, and 12 for none |
| Messages.Message.Checksum | nmea_parser.c:74-90 | `nmea_message_checksum` is the XOR of talker, type, `,` and the fields joined by commas |
| Serializer.ChecksumToString | nmea_parser.c:279-292 | writes the two checksum digits at `at` and changes nothing else |
| Serializer.PutHeader | nmea_parser.c:310-325 | the buffer starts with `$`, the talker and type in their 2- and 3-character slots, and `,` |
| Serializer.PutField | nmea_parser.c:328-343 | one value in a slot of its declared length, then `,`, or `*` after the last value |
| Serializer.PutFields | nmea_parser.c:327-343 | after the field loop the buffer holds the header and every slot, and the write position has advanced by the declared lengths plus one per value |
| Serializer.PutTrailer | nmea_parser.c:345-351 | the two checksum digits and CR LF follow the last delimiter |
| Serializer.MessageToString | nmea_parser.c:294-354 | the buffer is newly allocated and one longer than `nmea_message_length`; it holds the rendering followed by one NUL, or by two NULs when there are no values |
| Serializer.RenderingOfComplete | nmea_parser.c:294-354 | for a message whose values fill their declared lengths, the rendering is `$`, talker, type, `,`, the fields joined by commas, `*` when there are fields, the checksum digits and CR LF |
| Serializer.RenderingLength | nmea_parser.c:131-148 | the reported length equals the rendered length when there are values, and exceeds it by one (the unwritten `*`) when there are none |
| Parser.NextDelimiter | nmea_parser.c:261-262 | the loop condition yields a `,` or `*` after `from` and at or before `end`, with no NUL before it |
| Parser.NextDelimiterFirst | nmea_parser.c:261-262 | the loop condition picks the first comma in range, and a `*` only when no comma lies in range (and then the first `*`); it fails exactly when neither a comma nor a `*` lies in range before a NUL |
| Parser.ParseDescribed | nmea_parser.c:181-269 | every outcome: a kept message has a 2-character talker and 3-character type; a non-vendor kept message comes with Success; the end index is one past a CR or LF; strict mode keeps no `XXRM` message; without a message the status is one of the nine errors; the end index is 0 exactly for the four errors found before the terminator |
| Parser.FramedDescribed | nmea_parser.c:203-213 | the same facts from the terminator search on |
| Parser.CheckedDescribed | nmea_parser.c:213-228 | the same facts from the checksum check on |
| Parser.CheckedFailsOrPasses | nmea_parser.c:213-228 | the checksum check either fails with `ChecksumError` or `IncorrectChecksumLength`, no message and the end index just past the terminator, or passes the sentence on with its fields ending at the `*`, or at the terminator when there is no `*` before it |
| Parser.IdentifiedDescribed | nmea_parser.c:230-267 | the same facts from the id checks on |
| Parser.ParseMessage | nmea_parser.c:181-269 | the imperative parse returns the status, end index and message contents that `Parse` describes; a returned message is newly allocated and complete |
| Parser.CheckSentence | nmea_parser.c:213-228 | the checksum block of the imperative parse agrees with `Checked`; a returned message is newly allocated and complete |
| Parser.NewMessage | nmea_parser.c:243-250 | a fresh message holding the two- and three-character id and no values |
| Parser.BuildMessage | nmea_parser.c:230-267 | the id checks, the vendor branch and the field loop agree with `Identified`; a returned message is newly allocated and complete |
| Parser.CollectFields | nmea_parser.c:260-265 | the field loop appends exactly the fields `SplitFields` yields, in order, and keeps talker and type |
| Stages.ParseNoDollar | nmea_parser.c:193-200 | without `$` in the text the status is Unsupported when `!` occurs and BeginDelimiterNotFound otherwise, with end index 0 and no message |
| Stages.ParseAtDollar | nmea_parser.c:193-202 | the parse continues right after the first `$` |
| Stages.FramedAt | nmea_parser.c:203-213 | the first CR after `$` is the terminator, whatever LF comes earlier; in strict mode a span over 82 gives LongerThanMaxLength with end index 0 |
| Stages.FramedAtLf | nmea_parser.c:203-213 | with no CR in the text after `$`, the first LF is the terminator, under the same length rule |
| Stages.FramedNoEnd | nmea_parser.c:203-206 | with neither CR nor LF after `$` the status is EndDelimiterNotFound, with end index 0 |
| Stages.CheckedAtStar | nmea_parser.c:215-228 | a `*` before the terminator: in strict mode a checksum length other than 2 gives IncorrectChecksumLength; a value differing from the XOR of [after `$`, `*`) gives ChecksumError; a matching value moves the field end to the `*`; the end index is the terminator plus one |
| Stages.CheckedNoStar | nmea_parser.c:215-228 | with no `*` before the terminator nothing is checked and the fields run to the terminator |
| Stages.IdentifiedBadId | nmea_parser.c:230-237 | no comma after `$` gives ImplementationError; a first comma not five characters in gives IdLengthIncorrect |
| Stages.IdentifiedVendor | nmea_parser.c:239-258 | strict `XXRM` gives ChecksumExpected regardless of the checksum; a `P` talker returns the handler's status and end index, or UnhandledVendorExtMessage without a handler, and keeps the id with no fields |
| RoundTrip.SplitOfJoin | nmea_parser.c:260-265 | the field loop splits a comma join of plain fields back into the fields when `*` closes the span, and loses the last field when CR does |
| RoundTrip.CheckedStar | nmea_parser.c:215-228 | the `*` and the correct two digits of a rendered sentence pass the checksum block |
| RoundTrip.IdentifiedAt | nmea_parser.c:230-267 | a plain non-vendor id is accepted with the fields the loop collects (strict `XXRM` refused) |
| RoundTrip.ParseOfSerialized | nmea_parser.c:181-267 | parsing a rendered sentence, after any prefix without `$` and before anything, gives Success with the same talker, type and fields, end index one past its CR; strict mode refuses `XXRM` with ChecksumExpected |
| RoundTrip.ParseWithoutChecksum | nmea_parser.c:260-265 | a sentence closed by CR LF without checksum parses to all fields but the last |
| RoundTrip.ParseBareAt | nmea_parser.c:203-206 | a string whose first `$` opens a sentence without checksum closed by an LF, with no CR in the text after it, is accepted with all fields but the last and the end index just past the LF |
| RoundTrip.ParseWithoutChecksumLf | nmea_parser.c:203-206 | a sentence closed by a bare LF without checksum, with no LF in its body and no CR in the text after it, parses to all fields but the last |
| RoundTrip.RenderedRoundTrip | nmea_parser.c:294-354 | what `nmea_message_to_string` renders for a complete message parses back to the message's own contents |

## Left out

- **Allocation and release.** Allocation always succeeds, so `NMEA_ALLOCATION_ERROR` is never returned. `nmea_destroy_message` and `nmea_destroy_message_string` only free memory, which Dafny manages, so they are not modelled.
- **Uninitialised memory.** `malloc`'d memory is modelled as NUL. In C, the slot bytes after a text shorter than its slot are garbage; the model shows them as NUL padding (`Serializer.Pad`).
- **Linked list.** The list nodes and the `first_value`/`last_value` pointers are a sequence of values. Aliasing of nodes is not modelled.
- **Integer width.** Lengths, counts and sums are unbounded `nat`. The `size_t` sums in `nmea_message_length` and the `(int)` cast of `value_length` (line 138) can wrap around or truncate in C for huge values; `Messages.ReportedLength` and `Messages.DeclaredTotal` do not model this.
- **Caller contracts.** The `assert` calls on NULL pointers and the `NMEA_DEBUG`, `NMEA_NO_ASSERT` and `NMEA_MINIMUM_BUILD` configuration are build options. They are not modelled.
- **Unused status codes.** The header's `-1`, `-6` and `-13` are never returned by the modelled code paths.
- **`strtol`.** Checksums.ParseHex does not model leading white space, a sign, a `0x` prefix or overflow.
- **Signed `char`.** Characters are bytes 0..255, so the XOR of a signed `char` above 127 is not modelled.
- **`nmea_nullstr` and `nmea_strncpy_s`.** They are folded into sequence operations (`CopyN`, `CopyInto`, NUL-filled buffers) rather than modelled as pointer loops.
- **The vendor handler.** It is a total function parameter from (text after `$`, end index, strict) to (status, end index). Its internals are not modelled.
- **`test.c`.** It is a demonstration driver that prints results. It is not part of this model.
- **Serializer.MessageToString** requires only the message invariant. The round-trip statements additionally require every value to fill its declared length and every part to be free of `,`, `*`, CR and NUL, since otherwise the C output holds garbage or cannot be split back.
- **RoundTrip.ParseWithoutChecksumLf** states the LF-only case only when no CR occurs in the text after the LF. With a CR later in the string that CR becomes the terminator (lines 203-204), which `Stages.FramedAt` covers.

# fixparser in Dafny

A model of the core of `fixparser`, a zero-copy decoder for FIX messages
written as `tag=value<SOH>` fields. The parser scans the byte buffer once and
records, for every tag, where its value lies (offset and length); typed
getters decode a recorded value in place on demand. The model covers:

- `ByteUtils`: `readInt`, `readLong`, `readBoolean`, `readBytes`. These are
  decoders over an ASCII byte range. Java `int` and `long` arithmetic is
  written out with explicit wrap-around (`JavaInt.Wrap32`, `JavaInt.Wrap64`).
  The `long` digit step `(r << 3) + (r << 1) + d` is written with wrapped
  shifts.
- `FixParser`: `parse`, `fieldExists`, `checkFieldExists`/`getField`, and
  the getters `getInt`, `getLong`, `getBoolean`, `getBytes`. The parser's
  `HashMap` is a Dafny `map` inside an immutable `Parser` value. `parse`
  returns the new parser state together with its count or its exception
  (`ParseOutcome`).
- `ChecksumValidator.validate`. The declared value of tag 10 must equal the
  sum of the bytes before the checksum field, modulo 256.
- `FieldLocationsMap`: the fixed-capacity open-addressing table. It is a
  class over four arrays, with ghost `contents` describing it as a map from
  tag to (offset, length).

Every Java exception becomes a `Results.Failure` carrying an `Error` kind.
The validator turns every failure into `false`, as its `catch` does.

To state round trips, the model adds a small writer (`Wire.Encode`) that
produces `tag=value<SOH>` messages. The repository has no writer. The main
results are:

- `Wire.ParseEncoded`: parsing a written message succeeds, counts the
  distinct tags, and locates each tag's last value.
- The getter lemmas (`Wire.GetBytesEncoded` and its siblings): on the
  parser state that `Wire.ParseEncoded` shows `parse` leaves, each getter
  reads back what was written, and a tag that was not written is reported
  missing.
- `ChecksumValidator.EncodedWithChecksumIsValid`: a message with a correct
  `10=` trailer validates.
- `ChecksumValidator.SingleByteChangeDetected`: with the recorded field
  locations kept fixed, and for buffers whose byte sum cannot wrap an `int`,
  changing any single byte before the delimiter that precedes the checksum
  field breaks validation.

Behaviours of the code that the model keeps, as written:

- **Trailing token without '='.** A last token with no `=` (for example
  `12` in `8=A<SOH>12`) is still recorded. Its tag is the token's text and
  its empty value sits one past the end of the buffer (`FixParser.WellPlaced`,
  `Scenarios.TrailingTokenExample`). `getBytes` on that tag then fails,
  because `System.arraycopy` rejects the offset. `validate` rejects such a
  checksum field, because its backward scan reads outside the buffer.
- **Parse stops at a bad tag.** A tag that `readInt` rejects stops `parse`
  with that exception. The fields recorded before it stay in the map.
- **Empty tag text.** A token that starts with `=` has an empty tag text.
  `readInt` of an empty range is 0, so its value is recorded under tag 0
  (`FixParser.NextTokenTag`, `Scenarios.EmptyTagExample`).
- **Last field without a delimiter.** When the buffer ends before the last
  value's SOH, the field is still recorded, its value running to the end of
  the buffer (`Scenarios.NoTrailingDelimiterExample`).
- **Duplicate tags.** When a tag repeats, the last occurrence wins.
- **`readBytes` past the end of the source.** A length that runs past the
  end of the source fails, as `System.arraycopy` does.
  `ByteUtilsTest.testReadBytes` instead expects a clamped copy of the
  available bytes. The model follows the code (`Scenarios.ReadBytesExamples`).
- **Exception kinds.** `readBoolean` throws a plain `RuntimeException`, where
  `ByteUtilsTest.testReadBoolean` expects an `IllegalArgumentException`. The
  model keeps only the fact of failure (`NotABoolean`).
- **The checksum test calls a `parse` that `FixParser.java` does not have.**
  `FixParserChecksumTest` calls `parse` as if it returned a validity flag. The `parse` in `FixParser.java` returns the
  field count and does not validate. The model follows the code. The
  validator is modelled separately.
- **Calls missing from `FixParser.java`.** `ChecksumValidator` calls
  `fieldDoesNotExists(10)` and `getOffset(10)`, which `FixParser.java` does
  not define. They are modelled as the negation of `fieldExists` and as the
  recorded value offset.
- **Negative tags in `FieldLocationsMap`.** Java's `%` takes the sign of the
  key. So a negative tag that is not a multiple of the capacity has a
  negative home slot, and the first array access throws. `Put`, `GetIndex`
  and `ContainsKey` return that failure.

## Model

| member | source | states |
|---|---|---|
| `ByteUtils.ReadInt` | src/com/parser/utils/ByteUtils.java:21-48 | an empty or negative length gives 0 without reading any byte; a non-empty range whose first index is outside the buffer fails |
| `ByteUtils.AccumulateInt` | src/com/parser/utils/ByteUtils.java:36-45 | the digit loop of `readInt`, one step per byte; `ByteUtils.AccumulateIntCorrect` states what it computes |
| `ByteUtils.AccumulateIntCorrect` | src/com/parser/utils/ByteUtils.java:36-45 | the digit loop keeps its accumulator equal to the 32-bit wrap of the decimal value of the digits read so far; it finishes with the whole range's value exactly when the range is inside the buffer and all digits, and fails otherwise |
| `ByteUtils.ReadIntCorrect` | src/com/parser/utils/ByteUtils.java:21-48 | `readInt` returns exactly the signed decimal value of the range (optional leading '-', no '+'), wrapped to a Java `int`; it fails on any other byte and on a range that leaves the buffer |
| `ByteUtils.SignedTextRoundTrip` | src/com/parser/utils/ByteUtils.java:111-117 | the signed decimal notation of any integer denotes that integer |
| `ByteUtils.ReadIntRoundTrip` | src/com/parser/utils/ByteUtils.java:21-48 | reading back the decimal notation of any Java `int` gives that `int` |
| `JavaInt.MulAddStep32` | src/com/parser/utils/ByteUtils.java:40 | one step `result * 10 + digit` in `int` arithmetic is the wrap of the exact step, so wrapping can be postponed to the end |
| `JavaInt.Negate32` | src/com/parser/utils/ByteUtils.java:47 | negating a wrapped `int` is wrapping the exact negation |
| `JavaInt.Negate64` | src/com/parser/utils/ByteUtils.java:130 | negating a wrapped `long` is wrapping the exact negation |
| `ByteUtils.ReadLong` | src/com/parser/utils/ByteUtils.java:103-131 | an empty or negative length gives 0; a non-empty range whose first index is outside the buffer fails |
| `JavaInt.ShiftStepIsTimesTen` | src/com/parser/utils/ByteUtils.java:127 | `(r << 3) + (r << 1) + d` in `long` arithmetic equals `10 * r + d` wrapped to 64 bits |
| `ByteUtils.LongDigitStepAppends` | src/com/parser/utils/ByteUtils.java:120-128 | one shift-and-add step on the wrapped value of a digit prefix gives the wrapped value of the prefix extended by one digit |
| `JavaInt.ShiftLeft64` | src/com/parser/utils/ByteUtils.java:127 | Java's `<<` on a `long`; `JavaInt.ShiftLeftIsDoubling` states its value for the shift distances 1 and 3 |
| `JavaInt.ShiftLeftIsDoubling` | src/com/parser/utils/ByteUtils.java:127 | `r << 1` and `r << 3` on a `long` are `2 * r` and `8 * r` wrapped to 64 bits |
| `ByteUtils.AccumulateLong` | src/com/parser/utils/ByteUtils.java:120-128 | the digit loop of `readLong`, one shift-and-add step per byte; `ByteUtils.AccumulateLongCorrect` states what it computes |
| `ByteUtils.LongDigitStep` | src/com/parser/utils/ByteUtils.java:127 | the step `(r << 3) + (r << 1) + d` with `long` wrap-around after every operation; `ByteUtils.LongDigitStepTimesTen` states its value |
| `ByteUtils.LongDigitStepTimesTen` | src/com/parser/utils/ByteUtils.java:127 | the shift-and-add step on the `long` wrap of any integer `a` gives `10 * a + d` wrapped to 64 bits |
| `ByteUtils.AccumulateLongCorrect` | src/com/parser/utils/ByteUtils.java:120-128 | the `long` digit loop keeps its accumulator equal to the 64-bit wrap of the digits read so far, and fails exactly when a non-digit or the buffer's end is met |
| `ByteUtils.ReadLongCorrect` | src/com/parser/utils/ByteUtils.java:103-131 | `readLong` returns exactly the signed decimal value of the range (optional '+' or '-'), wrapped to a Java `long`; it fails on any other byte and on a range that leaves the buffer |
| `ByteUtils.ReadLongRoundTrip` | src/com/parser/utils/ByteUtils.java:103-131 | reading back the decimal notation of any Java `long`, `Long.MAX_VALUE` included, gives that `long` |
| `ByteUtils.ReadBoolean` | src/com/parser/utils/ByteUtils.java:142-151 | succeeds exactly when the byte at the offset exists and is one of `Y y 1 N n 0`, and is true exactly for `Y y 1` |
| `ByteUtils.ReadBooleanRoundTrip` | src/com/parser/utils/ByteUtils.java:142-151 | a boolean written as 'Y' or 'N' reads back as itself whatever surrounds it |
| `ByteUtils.ReadBytes` | src/com/parser/utils/ByteUtils.java:163-169 | a length above the destination's size fails first; the copy succeeds exactly when offset and length are non-negative and the range lies in the source; it puts the range at the front of the destination, leaves the rest unchanged, and returns the length |
| `FixParser.NewParser` | src/com/parser/FixParser.java:23-25 | a new parser holds no field |
| `FixParser.SkipTo` | src/com/parser/FixParser.java:41-42 | the inner scan stops at the first occurrence of the byte at or after the start, or at the end of the buffer, passing only other bytes |
| `FixParser.NextToken` | src/com/parser/FixParser.java:39-50 | one pass of the loop body reads a tag or fails; on success it records a well-placed value location and moves strictly forward |
| `FixParser.NextTokenTag` | src/com/parser/FixParser.java:39-43 | the tag a pass records is `readInt` of the text before the '=': a text that is not a signed decimal (no '+') fails the pass, and an empty text, a token starting with '=', gives tag 0 |
| `FixParser.Scan` | src/com/parser/FixParser.java:37-52 | the scan only adds tags, keeps every recorded location well placed (after an '=', free of SOH, ending at SOH or the buffer's end, or the empty value one past the end), and on success returns the number of distinct tags |
| `FixParser.Parse` | src/com/parser/FixParser.java:34-53 | the empty buffer gives no fields and count 0; every recorded location is well placed; the count is the number of distinct tags |
| `FixParser.ParseIsIdempotent` | src/com/parser/FixParser.java:35 | the state after `parse` depends only on the buffer, so parsing the same buffer again changes nothing |
| `FixParser.FieldExists` | src/com/parser/FixParser.java:61-63 | `fieldExists` is true exactly for a tag the last parse recorded; `Wire.FieldExistsEncoded` states it for written messages |
| `FixParser.CheckFieldExists` | src/com/parser/FixParser.java:61-84 | the lookup succeeds exactly when `fieldExists` holds and returns the recorded location; otherwise it fails with "tag not found" |
| `FixParser.GetInt` | src/com/parser/FixParser.java:93-98 | a tag that was not parsed fails with "tag not found" before any byte is read |
| `FixParser.GetLong` | src/com/parser/FixParser.java:107-111 | a tag that was not parsed fails with "tag not found" |
| `FixParser.GetBoolean` | src/com/parser/FixParser.java:133-137 | a tag that was not parsed fails with "tag not found" |
| `FixParser.GetBytes` | src/com/parser/FixParser.java:146-152 | a tag that was not parsed fails with "tag not found"; any success is exactly the bytes at the recorded location, which lies inside the buffer |
| `FixParser.GetBytesReadsLocation` | src/com/parser/FixParser.java:146-152 | `getBytes` succeeds on every recorded location inside the buffer and returns a copy of exactly those bytes |
| `FixParser.GetIntReadsDecimal` | src/com/parser/FixParser.java:93-98 | `getInt` on a location inside the buffer gives the signed decimal value of its text (leading zeros allowed, no '+') wrapped to an `int`, and fails on any other text |
| `FixParser.GetLongReadsDecimal` | src/com/parser/FixParser.java:107-111 | `getLong` on a location inside the buffer gives the signed decimal value of its text (optional '+' or '-') wrapped to a `long`, and fails on any other text |
| `FixParser.GetIntReadsLocation` | src/com/parser/FixParser.java:93-98 | `getInt` on a location holding the decimal notation of an `int` returns that `int` |
| `FixParser.GetLongReadsLocation` | src/com/parser/FixParser.java:107-111 | `getLong` on a location holding the decimal notation of a `long` returns that `long` |
| `FixParser.GetBooleanReadsLocation` | src/com/parser/FixParser.java:133-137 | on a recorded tag, `getBoolean` succeeds exactly when the value's first byte is inside the buffer and is one of `Y y 1 N n 0`, and is true exactly for `Y y 1` |
| `Wire.TagTextReadsBack` | src/com/parser/FixParser.java:43 | the tag text of a written field reads back as its tag |
| `Wire.TokenOfField` | src/com/parser/FixParser.java:39-50 | one loop pass over a written field reads its tag, locates its value right after the '=', and resumes right after its SOH |
| `Wire.ScanField` | src/com/parser/FixParser.java:39-50 | the scan over a written field records the field's value location and continues after it |
| `Wire.LastValueHeld` | src/com/parser/FixParser.java:49 | in a written message, the recorded location of a tag the message carries is well placed and holds the value of the tag's last occurrence, since a later `put` overwrites an earlier one |
| `Wire.LocationsHoldLastValues` | src/com/parser/FixParser.java:49 | in a written message, every tag's recorded location is well placed and holds the value of the tag's last occurrence, since a later `put` overwrites an earlier one |
| `Wire.ScanEncoded` | src/com/parser/FixParser.java:37-52 | resumed after any number of written fields, the scan records the locations of all fields and succeeds |
| `Wire.ParseOutcomeEncoded` | src/com/parser/FixParser.java:34-53 | parsing a written message, from any earlier parser state, leaves exactly the written tags' last locations and returns the number of distinct tags |
| `Wire.ParseEncoded` | src/com/parser/FixParser.java:34-53 | round trip: parsing a written message succeeds, counts its distinct tags, records exactly its tags, and each recorded location holds that tag's last value |
| `Wire.GetBytesEncoded` | src/com/parser/FixParser.java:146-152 | on the state that parsing a written message leaves (`Wire.ParseOutcomeEncoded`), `getBytes` returns a copy of each written tag's last value |
| `Wire.FieldExistsEncoded` | src/com/parser/FixParser.java:61-63 | on the state that parsing a written message leaves, `fieldExists` holds exactly for the tags the message carries |
| `Wire.MissingTagEncoded` | src/com/parser/FixParser.java:61-84 | on that state, a tag the message does not carry does not exist, and `getInt`, `getLong`, `getBoolean` and `getBytes` all fail with "tag not found" |
| `Wire.GetIntEncoded` | src/com/parser/FixParser.java:93-98 | on that state, `getInt` reads back any `int` written in decimal |
| `Wire.GetLongEncoded` | src/com/parser/FixParser.java:107-111 | on that state, `getLong` reads back any `long` written in decimal |
| `Wire.GetBooleanEncoded` | src/com/parser/FixParser.java:133-137 | on that state, `getBoolean` reads back a boolean written as 'Y' or 'N' |
| `ChecksumValidator.JavaSum` | src/com/parser/validate/ChecksumValidator.java:41-44 | the summing loop's `int` accumulator is the exact byte sum wrapped to 32 bits, and is the exact sum for buffers short enough not to wrap |
| `JavaInt.Rem256` | src/com/parser/validate/ChecksumValidator.java:45 | Java's `% 256` is congruent to its operand and takes the operand's sign |
| `ChecksumValidator.BackScan` | src/com/parser/validate/ChecksumValidator.java:33-37 | the backward scan fails exactly when it starts past the buffer's end; otherwise it stops at the nearest SOH at or below its start, or below index 0, passing no SOH |
| `ChecksumValidator.Validate` | src/com/parser/validate/ChecksumValidator.java:24-50 | no tag 10 means false; true requires tag 10 to decode as an `int` and its value to start inside the buffer |
| `ChecksumValidator.ValidateMeaning` | src/com/parser/validate/ChecksumValidator.java:24-50 | reference meaning: with the checksum field's tag starting at `k`, the message is valid exactly when tag 10 reads as the sum of the first `k` bytes modulo 256 |
| `ChecksumValidator.ValueBeyondEndRejected` | src/com/parser/validate/ChecksumValidator.java:33-37 | a checksum value recorded past the buffer's end makes the scan read outside the buffer, so the message is rejected |
| `ChecksumValidator.DeclaredOutOfRangeRejected` | src/com/parser/validate/ChecksumValidator.java:45-46 | a declared checksum outside 0..255 never validates |
| `ChecksumValidator.SumChange` | src/com/parser/validate/ChecksumValidator.java:42-44 | changing one byte moves the sum by exactly the difference of the two bytes |
| `ByteUtils.ReadIntFrame` | src/com/parser/utils/ByteUtils.java:21-48 | `readInt` depends only on the bytes from its offset on and on the buffer's length |
| `ChecksumValidator.SingleByteChangeDetected` | src/com/parser/validate/ChecksumValidator.java:39-46 | with the same recorded locations, two messages that differ in one byte before the delimiter preceding `10=` are never both valid |
| `ChecksumValidator.EncodedWithChecksumIsValid` | src/com/parser/validate/ChecksumValidator.java:24-50 | a written message ending in `10=` followed by the three-digit sum of the bytes before it, modulo 256, is valid after parsing |
| `FieldLocations.Hash` | src/com/parser/utils/FieldLocationsMap.java:47-49 | the home slot is Java's remainder of the key by the capacity: it satisfies `q * capacity + h == key` for the quotient rounded toward zero, lies strictly between `-capacity` and `capacity`, and has the key's sign |
| `FieldLocations.FieldLocationsMap.constructor` | src/com/parser/utils/FieldLocationsMap.java:32-39 | a new table of a given positive capacity has that capacity, size 0, no entries, and satisfies the table invariant |
| `FieldLocations.FieldLocationsMap.Default` | src/com/parser/utils/FieldLocationsMap.java:23-25 | the no-argument constructor gives an empty table of capacity 100 satisfying the table invariant |
| `FieldLocations.FieldLocationsMap.Put` | src/com/parser/utils/FieldLocationsMap.java:60-89 | a full table fails first, even for a tag already present; a negative home slot fails next; otherwise the tag maps to the new location, the size grows only for a new tag, and the table invariant is kept |
| `FieldLocations.FieldLocationsMap.FindSlot` | src/com/parser/utils/FieldLocationsMap.java:65-88 | the probe from the home slot stops at the first slot that is empty or holds the tag, having passed only slots occupied by other tags, and never meets a tombstone |
| `FieldLocations.FieldLocationsMap.InsertAt` | src/com/parser/utils/FieldLocationsMap.java:70-77 | a new tag placed in the empty slot its probe reached keeps every probe chain unbroken and adds one entry |
| `FieldLocations.FieldLocationsMap.UpdateAt` | src/com/parser/utils/FieldLocationsMap.java:78-83 | an existing tag keeps its slot and gets the new location |
| `FieldLocations.FieldLocationsMap.GetIndex` | src/com/parser/utils/FieldLocationsMap.java:97-109 | returns -1 exactly when the tag is absent, and otherwise the occupied slot holding the tag and its location; a negative home slot fails |
| `FieldLocations.FieldLocationsMap.ContainsKey` | src/com/parser/utils/FieldLocationsMap.java:137-147 | true exactly when the tag is in the table; a negative home slot fails |
| `FieldLocations.FieldLocationsMap.GetOffset` | src/com/parser/utils/FieldLocationsMap.java:117-119 | succeeds exactly for a slot index inside the table, and on an occupied slot gives the offset stored for its tag |
| `FieldLocations.FieldLocationsMap.GetLength` | src/com/parser/utils/FieldLocationsMap.java:127-129 | succeeds exactly for a slot index inside the table, and on an occupied slot gives the length stored for its tag |
| `FieldLocations.FieldLocationsMap.Size` | src/com/parser/utils/FieldLocationsMap.java:154-156 | the number of entries, never above the capacity |
| `FieldLocations.FieldLocationsMap.Clear` | src/com/parser/utils/FieldLocationsMap.java:161-166 | afterwards the table is empty, every slot is empty, and every offset and length is -1 |
| `Scenarios.ReadIntPositiveExample` | test/com/parser/utils/ByteUtilsTest.java:20-21 | "1092" inside "34=1092;" reads as 1092 |
| `Scenarios.ReadIntNegativeExample` | test/com/parser/utils/ByteUtilsTest.java:28-29 | "-50" reads as -50 |
| `Scenarios.ReadLongExamples` | test/com/parser/utils/ByteUtilsTest.java:60-69 | 1234567890123, `Long.MAX_VALUE` and -9876543210 read back |
| `Scenarios.ReadBytesExamples` | test/com/parser/utils/ByteUtilsTest.java:95-125 | full, partial and empty copies; a too-small destination fails; a length past the source's end fails |
| `Scenarios.ParseExample` | src/com/parser/FixParser.java:34-53 | "9=148<SOH>35=D<SOH>", two fields of the unit test's message, parses into tag 9 at offset 2 (length 3) and tag 35 at offset 9 (length 1), count 2 |
| `Scenarios.GetIntExample` | test/com/parser/FixParserTest.java:21 | tag 9 of that message reads as 148 |
| `Scenarios.GetBytesExample` | test/com/parser/FixParserTest.java:22 | tag 35 of that message reads as the bytes "D" |
| `Scenarios.ReadBooleanExamples` | test/com/parser/utils/ByteUtilsTest.java:79-89 | the six accepted spellings read as expected and 'B' is rejected |
| `Scenarios.TrailingTokenExample` | src/com/parser/FixParser.java:41-49 | a last token "12" without '=' is recorded as tag 12 with an empty value one past the end |
| `Scenarios.BadTagExample` | src/com/parser/FixParser.java:43 | a non-numeric tag stops the parse with an error and keeps the field before it |
| `Scenarios.EmptyTagExample` | src/com/parser/utils/ByteUtils.java:22 | "=v" parses into one field, tag 0 at offset 1 with length 1, because `readInt` of an empty range is 0 |
| `Scenarios.NoTrailingDelimiterExample` | src/com/parser/FixParser.java:47-49 | "8=A", whose last value has no SOH, parses into one field, tag 8 at offset 2 with length 1 running to the end of the buffer |
| `Scenarios.LeadingZeroExample` | test/com/parser/FixParserTest.java:36 | `getInt` reads the value "092" as 92 |
| `Scenarios.FieldLocationsUpdateExample` | test/com/parser/utils/FieldsLocationMapTest.java:21-33 | insert, overwrite and look up tag 1; tag 99 is not found |
| `Scenarios.FieldLocationsCapacityExample` | test/com/parser/utils/FieldsLocationMapTest.java:43-58 | a third entry in a table for two fails; after `clear` the size is 0 and tag 1 is gone |

## Left out

- `readDouble` and `getDouble`: floating-point arithmetic is not modelled.
- `MessageValidator`: an interface with no logic of its own.
- `FixParserPerformanceTest`: timing only.
- Thread safety: the classes are single-threaded and nothing concurrent is modelled.
- `int` overflow of `offset + length` (the end index in `readInt` and `readLong`) and of `valueOffset - 1` in `validate`. Indexes are unbounded integers in the model. `parse` never produces offsets or lengths near the `int` limit, because a Java array is shorter than 2^31 bytes.
- `FieldLocationsMap` with a capacity of 0 or less. The constructor requires a positive capacity. In Java, 0 gives a table where `put` always fails and lookups divide by zero, and a negative capacity throws `NegativeArraySizeException`.
- The tombstone branch of `put` (FieldLocationsMap.java:84-86): no operation ever writes a tombstone state, so that branch is unreachable, and the model proves it dead.
- `ChecksumValidator.ValidateMeaning`: stated only for buffers of at most 8,421,504 bytes, whose byte sum cannot wrap an `int`. `Validate` itself models the wrapped sum for any length.
- `ChecksumValidator.DeclaredOutOfRangeRejected`: stated only for buffers whose byte sum cannot wrap. A wrapped negative sum gives a negative remainder in Java.
- `ChecksumValidator.SingleByteChangeDetected`: keeps the parser's recorded locations fixed instead of re-parsing the changed buffer. It excludes the SOH just before `10=`, because changing that byte moves where the backward scan stops. It is stated only for buffers whose byte sum cannot wrap.
- `ChecksumValidator.EncodedWithChecksumIsValid`: stated for messages short enough that their byte sum cannot wrap.

# dcmjs-stream, modelled in Dafny

dcmjs-stream reads DICOM Part 10 files from a Node read stream without
loading the whole file: a chunked byte reader (`DicomReadableBufferStream`),
tag reading (`TagAsync`), the value representations and their stream reads
(`StreamValueRepresentation`), the element and data-set reader
(`DicomMessageAsync`: `_readTag`, `_read`, `readFile`) and `readFrame`, which
seeks one frame of encapsulated pixel data.

The model follows that structure, one module per concern:

| file | module | models |
|---|---|---|
| bytes.dfy | `Bytes` | results and errors, bytes, 16/32-bit integers in either byte order |
| stream.dfy | `ByteStream` | the chunked reader as the class `BufferStream` |
| tag.dfy | `Tags` | tags, `fromNumbers`, `readTag`, the clean tag string |
| wire.dfy | `Wire` | pure parses of the wire forms: integers, tags, items, offset tables |
| vrs.dfy | `ValueRepresentations` | the VR registry, `createByTypeString`, the VR flags |
| text.dfy | `Text` | trimming, splitting on the value delimiter, character filters |
| encapsulated.dfy | `Encapsulated` | `BinaryRepresentation.readBytes`: encapsulated frames |
| sequence.dfy | `Sequences` | `SequenceOfItems.readBytes`: the items of an SQ value |
| values.dfy | `Values` | `readBytes`, `applyFormatting` and `read` of every VR |
| elements.dfy | `Elements` | `_readTag` |
| dataset.dfy | `Dataset` | `_read` and the character set mapping |
| part10.dfy | `Part10` | `readFile` |
| frame.dfy | `FrameReader` | `readFrame` |

The stream is a class whose fields the reads update in place:
- the buffered bytes `remaining`;
- the chunks the source has still to deliver, `pending`;
- the end flag;
- the byte order;
- the text decoder's label.

Its abstraction `Contents()` is every byte the stream will still hand out.
For every read there is a pure function on byte sequences: it returns the
value and the bytes left, or the error. The read is a method whose
postcondition says that the stream follows that function (`Follows`). The
properties proved about the pure functions therefore hold for the reads.

A failed `readNBytes` loses the chunks it had pulled; the model keeps this
as written.

`peekUint8` past the buffer replaces the buffer with just the peeked bytes,
so the rest of the chunk it pulled is dropped (see "## Findings"). The
model has it as written, `PeekUint8AsWritten`, and as intended, `PeekUint8`,
which keeps every byte. The UI read, the only reader that peeks, uses the
intended peek, so every value read follows its pure function exactly.

The element, data-set and file readers are built on the intended half of
each of the three "## Findings" rows: the intended peek, the intended
`read` (a fixed-length mismatch is read, not a ReferenceError) and the
intended character set selection (ignored errors are ignored, not a
ReferenceError). "## Left out" names every member this applies to and the
inputs on which it departs from the code as written.

JavaScript details that matter are written out:
- `itemLength / 4` is a float: the offset table has `ceil(itemLength / 4)`
  entries, and the range check is `4 * frameIndex >= itemLength`.
- `length / maxLength` is a float: a binary value is read in
  `ceil(length / maxLength)` blocks.
- `length > null` compares with 0, and `length > undefined` is false.
- `Buffer.toString('ascii')` clears the high bit of every byte.
- The test for "xs" in the implicit-VR branch looks at a VR that is not yet
  set, so it never holds.
- After a failed value read, `_readTag` does not restore the old byte order.

The Dafny code takes these collaborators as parameters (`Env`, `Host`,
`Decoder`):
- dcmjs's data dictionary and its tag predicates;
- `dropPadByte`;
- `TextDecoder`;
- dcmjs's `DicomMessage._read` of the meta information;
- `_normalizeSyntax`.

The VR classes inherit from dcmjs's `ValueRepresentation`, which is not
part of this model. The flags it sets are written out in vrs.dfy:
`IsBinary`, `IsExplicit`, `IsFixed`, `StoresRaw` and `NoMultiple`. Its
`applyFormatting` is taken to be the identity for every VR that does not
override it.

## Model

| member | source | states |
|---|---|---|
| Bytes.ConcatAppend | src/DicomReadableBufferStream.js:41-49 | concatenating one more chunk appends exactly its bytes |
| Bytes.Uint16 | src/DicomReadableBufferStream.js:126-130 | an unsigned 16-bit read is below 2^16 |
| Bytes.Uint32 | src/DicomReadableBufferStream.js:132-136 | an unsigned 32-bit read is below 2^32 |
| Bytes.Int16 | src/DicomReadableBufferStream.js:138-142 | a signed 16-bit read lies in [-2^15, 2^15), is congruent to the unsigned read mod 2^16, and is negative exactly when the sign bit is set |
| Bytes.Int32 | src/DicomReadableBufferStream.js:144-148 | a signed 32-bit read lies in [-2^31, 2^31), is congruent to the unsigned read mod 2^32, and is negative exactly when the sign bit is set |
| Bytes.Uint16RoundTrip | src/DicomReadableBufferStream.js:126-130 | reading back an encoded 16-bit number gives the number, in either byte order |
| Bytes.Encode16RoundTrip | src/DicomReadableBufferStream.js:126-130 | encoding a 16-bit read gives back the two bytes: the read is injective |
| Bytes.Uint32RoundTrip | src/DicomReadableBufferStream.js:132-136 | reading back an encoded 32-bit number gives the number, in either byte order |
| Bytes.Encode32RoundTrip | src/DicomReadableBufferStream.js:132-136 | encoding a 32-bit read gives back the four bytes |
| Bytes.Uint32ByteOrder | src/DicomReadableBufferStream.js:132-136 | a big-endian read is the little-endian read of the reversed bytes |
| ByteStream.Pull | src/DicomReadableBufferStream.js:38-56 | pulling chunks loses and reorders no byte, and stops short of n only when no chunk is left |
| ByteStream.PullSplits | src/DicomReadableBufferStream.js:38-56 | after the pull, the first n bytes of everything are buffered, or everything is buffered and shorter than n |
| ByteStream.PullTakesTheLastChunk | src/DicomReadableBufferStream.js:41-62 | with at most one chunk left, a read that is short pulls it |
| ByteStream.Ascii | src/DicomReadableBufferStream.js:162-170 | ASCII decoding keeps the length and clears the high bit of every byte |
| ByteStream.BufferStream.constructor | src/DicomReadableBufferStream.js:9-26 | a new stream holds all the file's bytes, in the given byte order, with the latin1 decoder |
| ByteStream.BufferStream.Gather | src/DicomReadableBufferStream.js:38-56 | the data handler gathers exactly what Pull describes |
| ByteStream.BufferStream.ReadNBytes | src/DicomReadableBufferStream.js:28-80 | returns the next n bytes and consumes them, served from the buffer without pulling when it holds n; otherwise fails with the end of the stream, keeping only what was buffered |
| ByteStream.BufferStream.ReadToEnd | src/DicomReadableBufferStream.js:82-117 | returns every byte left and leaves the stream empty |
| ByteStream.BufferStream.ReadUint16 | src/DicomReadableBufferStream.js:126-130 | the next two bytes as an unsigned number in the stream's byte order, consumed |
| ByteStream.BufferStream.ReadUint32 | src/DicomReadableBufferStream.js:132-136 | the next four bytes as an unsigned number in the stream's byte order, consumed |
| ByteStream.BufferStream.ReadInt16 | src/DicomReadableBufferStream.js:138-142 | the next two bytes as a signed number, consumed |
| ByteStream.BufferStream.ReadInt32 | src/DicomReadableBufferStream.js:144-148 | the next four bytes as a signed number, consumed |
| ByteStream.BufferStream.ReadFloatBytes | src/DicomReadableBufferStream.js:150-160 | the next 4 or 8 bytes a float is decoded from, consumed |
| ByteStream.BufferStream.ReadVR | src/DicomReadableBufferStream.js:162-165 | the next two bytes as ASCII |
| ByteStream.BufferStream.ReadAsciiString | src/DicomReadableBufferStream.js:167-170 | the next `length` bytes as ASCII |
| ByteStream.BufferStream.ReadEncodedString | src/DicomReadableBufferStream.js:172-175 | the next `length` bytes decoded with the stream's current decoder |
| ByteStream.BufferStream.SetEndian | src/DicomReadableBufferStream.js:177-183 | sets the byte order that getEndian then returns, touching nothing else |
| ByteStream.BufferStream.SetDecoder | src/DicomReadableBufferStream.js:185-187 | sets the decoder, touching nothing else |
| ByteStream.BufferStream.Increment | src/DicomReadableBufferStream.js:189-191 | skips exactly n bytes, or fails with the end of the stream |
| ByteStream.BufferStream.End | src/DicomReadableBufferStream.js:193-195 | the stream has ended exactly when no byte is left |
| ByteStream.BufferStream.PeekUint8AsWritten | src/DicomReadableBufferStream.js:197-205 | as written: byte `offset` ahead; a buffered peek changes nothing; a peek past the buffer keeps only the first offset + 1 bytes buffered |
| ByteStream.BufferStream.PeekUint8 | src/DicomReadableBufferStream.js:197-205 | as intended: byte `offset` ahead, found exactly when the stream holds more than offset bytes; a successful peek leaves every byte of the stream in place, with the pulled chunks now buffered; a failed one fails with the end of the stream |
| ByteStream.PeekAtAChunk | src/DicomReadableBufferStream.js:197-205 | on a stream of one chunk "123", the written peek at byte 0 leaves "1", the intended peek leaves "123" |
| Tags.FromNumbers | src/TagAsync.js:5-7 | the tag has exactly the given group and element |
| Tags.TagAt | src/TagAsync.js:9-14 | the group is the first 16-bit word and the element the second |
| Tags.TagDecomposes | src/TagAsync.js:5-7 | every tag is fromNumbers of its group and element |
| Tags.ReadTag | src/TagAsync.js:9-14 | reads and consumes the four bytes of the tag; a stream with fewer than four bytes fails with the end-of-stream error of a 2-byte read: the first one with fewer than 2 bytes left, the second one with 2 or 3 |
| Tags.Hex | src/DicomMessageAsync.js:201 | the hexadecimal form has the requested width and only hex digits |
| Tags.CleanString | src/DicomMessageAsync.js:201 | the clean tag string has eight characters |
| Tags.HexRoundTrip | src/DicomMessageAsync.js:201 | parsing the hexadecimal form gives the number back |
| Tags.CleanStringRoundTrip | src/DicomMessageAsync.js:201 | the first four characters give the group and the last four the element |
| Tags.CleanStringInjective | src/DicomMessageAsync.js:201-236 | different tags get different keys, so no element overwrites another tag's entry |
| Wire.Take | src/DicomReadableBufferStream.js:28-62 | n bytes are taken exactly when n are left; otherwise the error is the end of the stream |
| Wire.U16 | src/DicomReadableBufferStream.js:126-130 | the 16-bit word at the front, or the end of the stream |
| Wire.U32 | src/DicomReadableBufferStream.js:132-136 | the 32-bit word at the front, or the end of the stream |
| Wire.TagOf | src/TagAsync.js:9-14 | the tag at the front and the bytes after its four bytes |
| Wire.NextItem | src/readFrame.js:40-53 | an accepted item or delimiter consumed its 8-byte header |
| Wire.NextItemAccepts | src/readFrame.js:40-53 | an item is returned only after the item tag, with exactly the length its header gives; null only after a sequence delimiter of length 0 |
| Wire.NextItemRejects | src/readFrame.js:46-52 | any other tag is an invalid tag in the sequence; a delimiter with a non-zero length is rejected |
| Wire.Offsets | src/readFrame.js:31-33 | count offsets are read exactly when 4 * count bytes are left, each the 32-bit word at its position |
| Wire.OffsetCount | src/readFrame.js:26-31 | the loop `i < itemLength / 4` reads ceil(itemLength / 4) offsets |
| Wire.Rising | src/StreamValueRepresentation.js:169-175 | the number of rising steps in the table is at most the number of offsets after i |
| Wire.TagOfEncoded | src/TagAsync.js:9-14 | a tag written as its group and element words reads back as that tag, leaving exactly the bytes after it |
| Wire.U16Encoded | src/DicomReadableBufferStream.js:126-130 | a 16-bit word written in the stream's byte order reads back, leaving the bytes after it |
| Wire.U32Encoded | src/DicomReadableBufferStream.js:132-136 | a 32-bit word written in the stream's byte order reads back, leaving the bytes after it |
| Wire.NextItemEncoded | src/StreamValueRepresentation.js:149-153 | getNextSequenceItemData reads an encoded item back as exactly its data, consuming exactly the item |
| Wire.NextItemAtDelimiter | src/StreamValueRepresentation.js:154-160 | a zero-length sequence delimiter reads as null, consuming exactly its eight bytes |
| Wire.GetNextItem | src/readFrame.js:40-53 | the stream read follows NextItem |
| Wire.ReadOffsets | src/readFrame.js:31-33 | the stream read follows Offsets |
| ValueRepresentations.TypeString | src/StreamValueRepresentation.js:1032-1063 | every VR has a two-letter code |
| ValueRepresentations.EveryVrIsRegistered | src/StreamValueRepresentation.js:1032-1063 | every VR is in the registry |
| ValueRepresentations.Lookup | src/StreamValueRepresentation.js:69-71 | the registry lookup finds a VR with the code, or no entry has it |
| ValueRepresentations.Registered | src/StreamValueRepresentation.js:69-71 | found only for its own code; not found only when no VR has it |
| ValueRepresentations.CreateByTypeString | src/StreamValueRepresentation.js:69-86 | a registered code gives its VR; an unregistered one gives OW for "ox", US for "xs" and UN otherwise |
| ValueRepresentations.CreateByTypeStringRoundTrip | src/StreamValueRepresentation.js:69-86 | the code of a VR gives back that VR |
| ValueRepresentations.TypeStringInjective | src/StreamValueRepresentation.js:1032-1063 | no two VRs share a code |
| ValueRepresentations.BlocksHavePositiveSize | src/DicomMessageAsync.js:134-137 | a value split into blocks has a block size between 2 and 8, so the loop is finite, and is longer than one block |
| ValueRepresentations.FixedIsBinaryOrAgeString | src/StreamValueRepresentation.js:238-254 | the fixed VRs are the binary numbers and AS; binary VRs allow multiple values and use 16-bit lengths and null padding |
| ValueRepresentations.PadByte | src/StreamValueRepresentation.js:45-67 | the `padByte` each VR's constructor sets, space or NUL (a table without a contract) |
| ValueRepresentations.IsFixed | src/StreamValueRepresentation.js:25 | the VRs whose constructor sets `fixed`: AS, AT and the binary numbers (FixedIsBinaryOrAgeString states it) |
| ValueRepresentations.NoMultiple | src/DicomMessageAsync.js:134 | the VRs whose constructor sets `noMultiple`: OB, OD, OF, OW, SQ and UN (a predicate without a contract) |
| ValueRepresentations.IsBinary | src/DicomMessageAsync.js:134 | `isBinary()` of dcmjs's base class: the binary numbers and AT (a predicate without a contract) |
| ValueRepresentations.IsExplicit | src/DicomMessageAsync.js:116 | `isExplicit()` of dcmjs's base class: the VRs with a 4-byte explicit length (a predicate without a contract) |
| ValueRepresentations.StoresRaw | src/StreamValueRepresentation.js:39 | `storeRaw()`: every VR but SQ, whose constructor clears it (a predicate without a contract) |
| ValueRepresentations.InSingleList | src/DicomMessageAsync.js:13 | the message reader's `singleVRs` list (a predicate without a contract) |
| Text.RTrim | src/StreamValueRepresentation.js:12-14 | removes exactly the trailing whitespace: a prefix, with only spaces after it, that does not end in a space |
| Text.LTrim | src/StreamValueRepresentation.js:208-210 | removes exactly the leading whitespace |
| Text.Trim | src/StreamValueRepresentation.js:208-210 | the result neither starts nor ends with whitespace |
| Text.TrimRemovesPadding | src/StreamValueRepresentation.js:208-210 | the original is the result with whitespace around it |
| Text.TrimIdempotent | src/StreamValueRepresentation.js:208-210 | trimming twice is trimming once |
| Text.TrimKeeps | src/StreamValueRepresentation.js:208-210 | a string without surrounding whitespace is kept as it is |
| Text.TrimSpaces | src/StreamValueRepresentation.js:208-210 | an all-space string trims to the empty string |
| Text.Split | src/DicomMessageAsync.js:158-161 | at least one part, no part holds the delimiter, and one part exactly when the delimiter is absent |
| Text.JoinSplit | src/DicomMessageAsync.js:158-161 | joining the parts with the delimiter rebuilds the string |
| Text.SplitJoin | src/DicomMessageAsync.js:158-161 | splitting delimiter-free parts joined by the delimiter gives the parts back |
| Text.Filter | src/StreamValueRepresentation.js:922-932 | keeps exactly the accepted characters, each as often as in the input |
| Text.FilterKeepsAccepted | src/StreamValueRepresentation.js:922-932 | a string of accepted characters is kept unchanged |
| Text.FilterIdempotent | src/StreamValueRepresentation.js:922-932 | filtering twice is filtering once |
| Encapsulated.RisingFrames | src/StreamValueRepresentation.js:169-175 | one frame for each rising step of the offset table, appended after the frames already read |
| Encapsulated.FramesToDelimiter | src/StreamValueRepresentation.js:179-186 | the frames before the sequence delimiter, none of them null |
| Encapsulated.Frames | src/StreamValueRepresentation.js:128-189 | the frames of an undefined-length value never extend past the input |
| Encapsulated.BinaryBytes | src/StreamValueRepresentation.js:127-194 | a binary read never extends past the input |
| Encapsulated.DefinedLengthIsOneFrame | src/StreamValueRepresentation.js:190-193 | a defined length is one frame of exactly that many bytes, or the end of the stream |
| Encapsulated.NoItemNoFrames | src/StreamValueRepresentation.js:129-132 | without the item tag the value has no frames and only the tag is consumed |
| Encapsulated.FrameCountFollowsTable | src/StreamValueRepresentation.js:137-177 | with a table of several offsets the value has one frame per rising step plus the last |
| Encapsulated.EmptyTableFramesAreItems | src/StreamValueRepresentation.js:179-186 | without a table every frame is an item and none is null |
| Encapsulated.FramesUpToTheDelimiter | src/StreamValueRepresentation.js:179-186 | without a table, items followed by the sequence delimiter give exactly the items' data as frames, after those already read, and leave exactly the bytes after the delimiter |
| Encapsulated.FramesUpToTheEnd | src/StreamValueRepresentation.js:181-185 | items up to the end of the stream, with no delimiter, give exactly their data and leave nothing |
| Encapsulated.EmptyTableRoundTrip | src/StreamValueRepresentation.js:128-189 | an undefined-length value with an empty offset table, then items and the delimiter, reads back exactly the items' data |
| Encapsulated.OneOffsetIsOneFrame | src/StreamValueRepresentation.js:132-167 | a table item of 1 to 4 bytes holds one offset, and the value is then exactly one frame, the next item |
| Encapsulated.ReadRisingFrames | src/StreamValueRepresentation.js:169-175 | the stream read follows RisingFrames |
| Encapsulated.ReadFramesToDelimiter | src/StreamValueRepresentation.js:179-186 | the stream read follows FramesToDelimiter |
| Encapsulated.ReadBinaryBytes | src/StreamValueRepresentation.js:127-194 | the stream read follows BinaryBytes |
| Sequences.Scan | src/StreamValueRepresentation.js:652-693 | the scan of an undefined-length item keeps the bytes gathered so far and adds at least the closing delimiter |
| Sequences.MarkerOf | src/StreamValueRepresentation.js:657-660 | the 16-bit group word and the 32-bit word after it, or the end of the stream at the first or the second read |
| Sequences.Marker | src/StreamValueRepresentation.js:663-686 | each step appends eight bytes to the gathered bytes, and the closing delimiter when it closes the item |
| Sequences.ItemStep | src/StreamValueRepresentation.js:636-721 | each turn of the item loop consumes bytes and keeps the items already read |
| Sequences.Items | src/StreamValueRepresentation.js:635-722 | the items already read stay a prefix of the result |
| Sequences.ItemBytes | src/StreamValueRepresentation.js:648-716 | an item never extends past the input |
| Sequences.Item | src/StreamValueRepresentation.js:636-716 | an item consumes at least its four-byte length |
| Sequences.SequenceBytes | src/StreamValueRepresentation.js:626-725 | an SQ read never extends past the input |
| Sequences.ScanEndsWithDelimiter | src/StreamValueRepresentation.js:656-693 | a scanned item always ends with the item delimitation item |
| Sequences.ScanIsExactInLittleEndian | src/StreamValueRepresentation.js:663-691 | in little endian the scan gathers exactly the bytes it consumed |
| Sequences.UndefinedItemIsItsBytes | src/StreamValueRepresentation.js:651-703 | an undefined-length item is its bytes up to the closing delimiter, and the count read is its length plus 8 |
| Sequences.EmptySequence | src/StreamValueRepresentation.js:627-628 | a zero-length SQ has no items and consumes nothing |
| Sequences.StepAtSequenceDelimiter | src/StreamValueRepresentation.js:636-644 | a sequence delimiter ends the loop after its tag and length, keeping the items read, whatever its length field holds |
| Sequences.StepAtSequenceLength | src/StreamValueRepresentation.js:636-646 | in a defined-length SQ, any other tag whose four bytes bring the count to the length ends the loop, consuming only the tag |
| Sequences.StepSkipsOtherTags | src/StreamValueRepresentation.js:636-647 | a tag that is neither an item nor the delimiter, and does not end the SQ, is skipped: four bytes counted, no item added |
| Sequences.DefinedItemIsItsBytes | src/StreamValueRepresentation.js:704-716 | a defined-length item is exactly its next `length` bytes, none when the length is 0, and counts its length field and data |
| Sequences.StepAtItem | src/StreamValueRepresentation.js:647-720 | an encoded item adds its data unless empty, counts eight bytes and the data, and ends a defined-length SQ exactly when the count reaches its length |
| Sequences.CopiesAreWordsInLittleEndian | src/StreamValueRepresentation.js:663-691 | the bytes the scan keeps for words are re-encoded least significant first, which in little endian are the words' own bytes |
| Sequences.ScanStopsWhereTheItemCloses | src/StreamValueRepresentation.js:652-693 | the scan tracks the depth of nested undefined-length items: balanced words followed by a zero-length item delimiter at depth 0 are consumed exactly, up to and with that delimiter, and kept with it at the end |
| Sequences.UndefinedItemHoldsItsWords | src/StreamValueRepresentation.js:651-703 | an undefined-length item of balanced words has exactly their copies as data and counts them plus eight; an item closed at once has no data and counts nothing |
| Sequences.StepAtEmptyUndefinedItem | src/StreamValueRepresentation.js:647-703 | an undefined-length item closed at once adds nothing and counts only its tag and length |
| Sequences.UndefinedItemsRead | src/StreamValueRepresentation.js:635-722 | in an undefined-length SQ the loop gives each encoded item's data, the empty ones dropped, after those read, and stops right after the sequence delimiter |
| Sequences.DefinedItemsRead | src/StreamValueRepresentation.js:635-722 | in a defined-length SQ whose items fill the length, the loop gives each item's data, the empty ones dropped, and stops right after the last item |
| Sequences.DefinedSequenceRoundTrip | src/StreamValueRepresentation.js:626-725 | readBytes of a defined-length SQ built from items gives back their data, without the empty ones, and leaves exactly the bytes after it |
| Sequences.UndefinedSequenceRoundTrip | src/StreamValueRepresentation.js:626-725 | readBytes of an undefined-length SQ built from items and the delimiter gives back their data, without the empty ones, and leaves exactly the bytes after the delimiter |
| Sequences.ReadMarker | src/StreamValueRepresentation.js:657-660 | the stream read follows MarkerOf |
| Sequences.ScanUndefinedItem | src/StreamValueRepresentation.js:652-693 | the stream read follows Scan |
| Sequences.ReadItemBytes | src/StreamValueRepresentation.js:651-716 | the stream read follows ItemBytes |
| Sequences.ReadItem | src/StreamValueRepresentation.js:636-716 | the stream read follows Item |
| Sequences.ReadItemStep | src/StreamValueRepresentation.js:636-721 | the stream read follows ItemStep |
| Sequences.ReadSequence | src/StreamValueRepresentation.js:626-725 | the stream read follows SequenceBytes |
| Values.Strs | src/DicomMessageAsync.js:158-161 | an array of the strings, in order |
| Values.FramesValue | src/StreamValueRepresentation.js:166-189 | an array of the frames, a null frame staying null |
| Values.ItemsValue | src/StreamValueRepresentation.js:700-724 | an array of the items, in order |
| Values.AsciiText | src/StreamValueRepresentation.js:98-100 | the next n bytes as ASCII, or the end of the stream |
| Values.EncodedText | src/StreamValueRepresentation.js:114-116 | the next n bytes decoded, or the end of the stream |
| Values.PaddedAscii | src/StreamValueRepresentation.js:45-54 | readPaddedAsciiString over bytes; never extends past the input (its content: PaddedAsciiDropsOnlyPadding) |
| Values.PaddedEncoded | src/StreamValueRepresentation.js:56-67 | readPaddedEncodedString over bytes; never extends past the input (its content: PaddedEncodedDropsOnlyPadding) |
| Values.PaddedAsciiDropsOnlyPadding | src/StreamValueRepresentation.js:45-54 | consumes all n bytes and drops only a final padding byte |
| Values.PaddedEncodedDropsOnlyPadding | src/StreamValueRepresentation.js:56-67 | consumes all n bytes and drops at most one final character, only the padding character |
| Values.NumberBytes | src/StreamValueRepresentation.js:248-870 | a number read always consumes bytes |
| Values.TextBytes | src/StreamValueRepresentation.js:213-945 | a string read never extends past the input |
| Values.BytesOf | src/StreamValueRepresentation.js:98-1030 | a value read never extends past the input |
| Values.FormatNumber | src/StreamValueRepresentation.js:297-300 | null exactly when no number character survives trimming; otherwise only number characters |
| Values.MapText | src/StreamValueRepresentation.js:227-235 | a string is formatted, an array element by element, anything else kept |
| Values.Formatter | src/StreamValueRepresentation.js:208-932 | AE, CS, LO and SH trim; LT, ST, TM, UC and UT trim on the right; UI keeps only UID characters |
| Values.UidValuesAreClean | src/StreamValueRepresentation.js:922-932 | a formatted UI value holds only digits and dots |
| Values.RTrimIdempotent | src/StreamValueRepresentation.js:12-14 | trimming on the right twice is trimming once |
| Values.FormatIdempotent | src/StreamValueRepresentation.js:208-932 | formatting a formatted text value again changes nothing |
| Values.TextFormatIdempotent | src/StreamValueRepresentation.js:208-932 | formatting a formatted string again changes nothing |
| Values.TrimmedTwice | src/StreamValueRepresentation.js:208-210 | AE, CS, LO and SH formatting is idempotent |
| Values.RightTrimmedTwice | src/StreamValueRepresentation.js:477-478 | LT, ST, TM, UC and UT formatting is idempotent |
| Values.UidTwice | src/StreamValueRepresentation.js:922-932 | UI formatting is idempotent |
| Values.TrimmedText | src/StreamValueRepresentation.js:461-463 | AE, CS, LO and SH values are trimmed on both sides |
| Values.RightTrimmedText | src/StreamValueRepresentation.js:795-797 | LT, ST, TM, UC and UT values are trimmed on the right only |
| Values.DefaultValue | src/StreamValueRepresentation.js:243-878 | the `defaultValue` of each fixed VR: "" for AS, 0 for the binary numbers, none for AT (no contract of its own; ZeroLengthFixedIsDefault uses it) |
| Values.Format | src/StreamValueRepresentation.js:208-932 | `applyFormatting`: the VR's formatter applied to a string or to each string of an array (no contract of its own; FormatIdempotent, TrimmedText, RightTrimmedText and UidValuesAreClean state it) |
| Values.Kept | src/StreamValueRepresentation.js:37-42 | the raw value is kept only when the VR stores raw values or the options force it (no contract of its own; SequenceDropsRaw states it) |
| Values.ReadSpec | src/StreamValueRepresentation.js:24-43 | `read` never extends past the input |
| Values.ReadSpecAsWritten | src/StreamValueRepresentation.js:25-36 | as written: a fixed VR read with a length other than 0 or its maximum throws a ReferenceError |
| Values.AsWrittenReadAgreesOtherwise | src/StreamValueRepresentation.js:24-43 | the written read differs from ReadSpec exactly on the mismatched fixed lengths |
| Values.TwoAgesThrow | src/StreamValueRepresentation.js:25-36 | two ages in one AS value make the written read throw, while the intended read returns them |
| Values.ZeroLengthFixedIsDefault | src/StreamValueRepresentation.js:25-26 | a fixed VR with a zero or null length reads nothing and is its default value |
| Values.NumbersIgnoreLength | src/StreamValueRepresentation.js:257-881 | a binary number is read at its own width whatever the length says |
| Values.SequenceDropsRaw | src/StreamValueRepresentation.js:39-42 | SQ keeps no raw value unless the options force it |
| Values.ReadPaddedAscii | src/StreamValueRepresentation.js:45-54 | the stream read follows PaddedAscii |
| Values.ReadDroppingLast | src/StreamValueRepresentation.js:50-52 | consumes n bytes and returns the first n - 1 as ASCII |
| Values.ReadPaddedEncoded | src/StreamValueRepresentation.js:56-67 | the stream read follows PaddedEncoded |
| Values.ReadNumber | src/StreamValueRepresentation.js:248-870 | the stream read follows NumberBytes |
| Values.ReadSplitAscii | src/StreamValueRepresentation.js:220-224 | the stream read returns the padding-dropped parts of the ASCII text |
| Values.ReadText | src/StreamValueRepresentation.js:213-945 | the stream read follows TextBytes |
| Values.ReadPersonName | src/StreamValueRepresentation.js:550-556 | the stream read follows TextBytes for PN |
| Values.ReadUid | src/StreamValueRepresentation.js:902-919 | the stream read follows TextBytes for UI |
| Values.ReadSingleText | src/StreamValueRepresentation.js:450-945 | the stream read follows TextBytes for the single-valued strings |
| Values.ReadNonText | src/StreamValueRepresentation.js:127-1030 | the stream read follows BytesOf for binary, SQ and other-byte VRs |
| Values.ReadBytes | src/StreamValueRepresentation.js:98-1030 | the stream read follows BytesOf |
| Values.ReadValue | src/StreamValueRepresentation.js:24-43 | the stream read follows ReadSpec |
| Elements.IsImplicit | src/DicomMessageAsync.js:57 | implicit exactly for the implicit little-endian syntax (a predicate without a contract) |
| Elements.SyntaxIsLittleEndian | src/DicomMessageAsync.js:58-61 | little endian exactly for the implicit and explicit little-endian syntaxes (a predicate without a contract) |
| Elements.StopsBefore | src/DicomMessageAsync.js:69-73 | the stop tag when its value is not wanted (a predicate without a contract; StopTagReadsOnlyTheTag states what follows) |
| Elements.ImplicitVr | src/DicomMessageAsync.js:80-99 | the dictionary's VR when known; otherwise SQ for an undefined length, then OW for pixel data, LO for a private creator and UN |
| Elements.ExplicitLength | src/DicomMessageAsync.js:115-128 | a 32-bit length after 2 reserved bytes for explicit VRs, else a 16-bit length; a length that is cut short stays null |
| Elements.HeaderOf | src/DicomMessageAsync.js:80-128 | the implicit header is a 32-bit length and the implied VR; the explicit header is the VR code and its length |
| Elements.BlockCount | src/DicomMessageAsync.js:135-137 | the loop runs ceil(length / maxLength) times |
| Elements.Parts | src/DicomMessageAsync.js:138-153 | destructuring a read gives its raw and formatted values; destructuring an undefined default is a TypeError |
| Elements.Block | src/DicomMessageAsync.js:138-145 | the value and raw value of a block are the same number |
| Elements.BlockIsARead | src/DicomMessageAsync.js:138-143 | each block is `read` with length maxLength |
| Elements.Blocks | src/DicomMessageAsync.js:134-146 | one value and one raw value per block |
| Elements.BlockStep | src/DicomMessageAsync.js:137-146 | one turn of the block loop reads one block and appends its values |
| Elements.BlockFails | src/DicomMessageAsync.js:137-146 | a failing block fails the element |
| Elements.Wrap | src/DicomMessageAsync.js:170-173 | an array is kept; anything else becomes a one-element array |
| Elements.Shape | src/DicomMessageAsync.js:155-174 | value shaping (no contract of its own; ShapePassesThrough, ShapeWrapsScalars and ShapeSplitsText state its three branches) |
| Elements.ValueOf | src/DicomMessageAsync.js:131-175 | the values of an element never extend past the input |
| Elements.ElementAfter | src/DicomMessageAsync.js:131-184 | the element has the tag and the header's VR |
| Elements.ElementOf | src/DicomMessageAsync.js:52-185 | the element's tag is the first four bytes in the syntax's byte order |
| Elements.StopTagReadsOnlyTheTag | src/DicomMessageAsync.js:69-73 | the stop tag without its value is a placeholder that consumed only the tag |
| Elements.LongExplicitHeader | src/DicomMessageAsync.js:101-118 | an explicit VR with a 4-byte length skips two bytes and reads the 32-bit length |
| Elements.ShortExplicitHeader | src/DicomMessageAsync.js:101-121 | any other explicit VR reads a 16-bit length |
| Elements.TruncatedHeaderHasNoLength | src/DicomMessageAsync.js:115-128 | a length cut short by the end of the stream is swallowed and stays null |
| Elements.NumberWidth | src/DicomMessageAsync.js:138-143 | a block consumes exactly its maximum length |
| Elements.SpanIsProduct | src/DicomMessageAsync.js:134-146 | k blocks span k times the block size |
| Elements.BlocksConsumeSpan | src/DicomMessageAsync.js:134-146 | the blocks succeed exactly when their span is there, and consume exactly that span |
| Elements.BlocksConsumeWholeBlocks | src/DicomMessageAsync.js:134-146 | k blocks of size m consume exactly k * m bytes |
| Elements.ShapePassesThrough | src/DicomMessageAsync.js:163-168 | SQ, OW and OB values are kept as read |
| Elements.ShapeWrapsScalars | src/DicomMessageAsync.js:169-174 | binary VRs and OF, UN and LT become arrays |
| Elements.ShapeSplitsText | src/DicomMessageAsync.js:155-162 | string values are split on the delimiter, with the padding dropped |
| Elements.ReadExplicitLength | src/DicomMessageAsync.js:115-128 | the stream read follows ExplicitLength |
| Elements.ReadHeader | src/DicomMessageAsync.js:80-128 | the stream read follows HeaderOf |
| Elements.ReadBlock | src/DicomMessageAsync.js:138-145 | the stream read follows Block |
| Elements.ReadBlocks | src/DicomMessageAsync.js:134-146 | the stream read follows Blocks |
| Elements.ReadElementValue | src/DicomMessageAsync.js:131-175 | the stream read follows ValueOf |
| Elements.ReadElementBody | src/DicomMessageAsync.js:75-184 | the header and then the value, read from the bytes the header left, leaving exactly the bytes after the value |
| Elements.ReadElement | src/DicomMessageAsync.js:52-185 | _readTag consumes at least the tag, in the syntax's byte order, and follows ElementOf |
| Elements.SingleBufferElement | src/DicomMessageAsync.js:52-185 | with a single buffer, ReadElement's result is exactly ElementOf |
| Dataset.EncodingFrom | src/DicomMessageAsync.js:14-49 | finds the label of an entry with the key, or no such entry is left |
| Dataset.Encoding | src/DicomMessageAsync.js:206-207 | the key is mapped exactly when the table has it, to that entry's label |
| Dataset.Normalise | src/DicomMessageAsync.js:205 | underscores and spaces become hyphens and letters become lower case, character by character |
| Dataset.NormaliseIdempotent | src/DicomMessageAsync.js:205 | normalising twice is normalising once |
| Dataset.NormaliseIgnoresCaseAndSeparators | src/DicomMessageAsync.js:205-207 | terms differing only in case and separators select the same decoder |
| Dataset.JsLength | src/DicomMessageAsync.js:203 | `.length` of a string or array; of undefined or null it is a TypeError |
| Dataset.FirstString | src/DicomMessageAsync.js:204 | `values[0]`: the first element, or the first character of a string |
| Dataset.Selected | src/DicomMessageAsync.js:203-208 | the decoder `setDecoder` receives: only a table label, and only that of the normalised first term when it is known |
| Dataset.CharacterSet | src/DicomMessageAsync.js:202-228 | whenever it succeeds it selects what Selected says; a selected decoder is the table's label of the normalised first value; an absent or empty value selects none; for a string first term: a known term alone, or with errors ignored, selects its decoder; a second term is MultipleCharacterSets and an unknown term UnsupportedCharacterSet of its normalised key, unless errors are ignored, when an unknown term selects none |
| Dataset.CharacterSetAsWritten | src/DicomMessageAsync.js:202-228 | as written, the ignored-error branches call an undeclared `log` |
| Dataset.IgnoredErrorsStillFail | src/DicomMessageAsync.js:209-212 | an unknown first term with errors ignored, whatever follows it, throws a ReferenceError as written, but selects no decoder as intended |
| Dataset.IgnoredSecondTermStillFails | src/DicomMessageAsync.js:217-222 | a known first term and a second one, with errors ignored, throw a ReferenceError as written, but select the first term's decoder as intended |
| Dataset.UnknownTermThrows | src/DicomMessageAsync.js:202-212 | the counterexample of the character set Findings row: `["ISO_IR 999"]` with errors ignored throws a ReferenceError as written, and selects no decoder as intended |
| Dataset.AsWrittenAgreesOtherwise | src/DicomMessageAsync.js:202-228 | the code as written differs from the intended code only by that ReferenceError |
| Dataset.FirstMatchIsFound | src/DicomMessageAsync.js:206-207 | the first entry with the key gives the label |
| Dataset.KeysAreDistinct | src/DicomMessageAsync.js:14-49 | no two entries of the table share a key |
| Dataset.EveryEntryIsFound | src/DicomMessageAsync.js:14-49 | every entry of the table is found under its own key, giving its own label |
| Dataset.EntryOf | src/DicomMessageAsync.js:232-236 | the entry holds the element's VR, values and raw values |
| Dataset.Store | src/DicomMessageAsync.js:201-236 | adds exactly the element's key, keeps every other entry, and stores the character set as UTF-8 |
| Dataset.StoredCharacterSetIsUtf8 | src/DicomMessageAsync.js:229 | the stored character set selects the UTF-8 decoder when read again |
| Dataset.DatasetOf | src/DicomMessageAsync.js:199-242 | keeps every key, and stops only at the end of the bytes or after storing the stop tag |
| Dataset.StopsAfterTheStopTag | src/DicomMessageAsync.js:238-240 | after the stop tag is stored the read stops there |
| Dataset.ContinuesAfterOtherTags | src/DicomMessageAsync.js:199-241 | after any other tag the read goes on with the rest |
| Dataset.FailsWithTheStep | src/DicomMessageAsync.js:199-230 | a failing element or character set fails the whole read |
| Dataset.StoreElement | src/DicomMessageAsync.js:201-236 | stores as Store says, consuming nothing; for Specific Character Set the decoder is Selected's whether the store succeeds or fails (a known first term followed by a second one sets the decoder and then fails with MultipleCharacterSets) |
| Dataset.ReadDataset | src/DicomMessageAsync.js:187-243 | _read ends at the end of the stream or at the stop tag, and with a single buffer is exactly DatasetOf |
| Part10.MetaLength | src/DicomMessageAsync.js:268 | `el.values[0]`, a non-negative number |
| Part10.TransferSyntax | src/DicomMessageAsync.js:274 | the first value of (0002,0010); a missing element is a TypeError |
| Part10.MetaOf | src/DicomMessageAsync.js:261-272 | the meta information never extends past the input |
| Part10.MetaLengthOf | src/DicomMessageAsync.js:261-268 | accepted only after the (0002,0000) tag |
| Part10.FileOf | src/DicomMessageAsync.js:250-286 | readFile over the bytes of a file (no contract of its own; ShortFileFails, AcceptedFilesAreMarked, MissingMagicIsRejected, DeflatedIsRejected, ReadsExactlyTheMetaLength and DatasetFollowsTheMeta state it) |
| Part10.ShortFileFails | src/DicomMessageAsync.js:256 | a file shorter than the preamble fails |
| Part10.AcceptedFilesAreMarked | src/DicomMessageAsync.js:256-266 | an accepted file has DICM after 128 bytes, then the group length tag |
| Part10.MissingMagicIsRejected | src/DicomMessageAsync.js:257-259 | without DICM the file is rejected |
| Part10.HighBitMagicPasses | src/DicomMessageAsync.js:257 | the ASCII comparison also accepts DICM with the high bits set |
| Part10.DeflatedIsRejected | src/DicomMessageAsync.js:274-277 | deflated explicit little endian is refused |
| Part10.ReadsExactlyTheMetaLength | src/DicomMessageAsync.js:261-272 | the meta information is read from exactly metaLength bytes after the group length element |
| Part10.DatasetFollowsTheMeta | src/DicomMessageAsync.js:274-285 | the data set is read in the normalised transfer syntax from the bytes after the meta information |
| Part10.Le32 | src/DicomMessageAsync.js:261-268 | four little-endian bytes that read back as the number |
| Part10.MetaLengthTagIsClean | src/DicomMessageAsync.js:262 | tag (0002,0000) is "00020000" |
| Part10.MetaLengthElement | src/DicomMessageAsync.js:261-268 | an encoded group length element reads as that tag with the one value n |
| Part10.MetaLengthRoundTrip | src/DicomMessageAsync.js:261-268 | the group length of an encoded element is read back, with the bytes after it |
| Part10.ReadMetaLength | src/DicomMessageAsync.js:261-268 | the stream read follows MetaLengthOf |
| Part10.ReadMeta | src/DicomMessageAsync.js:261-272 | the stream read follows MetaOf |
| Part10.ReadFile | src/DicomMessageAsync.js:250-286 | an accepted file is marked DICM and starts with the group length; with a single buffer the result is exactly FileOf |
| FrameReader.SkipHeader | src/readFrame.js:6-13 | skips the VR and its 16-bit or 32-bit length |
| FrameReader.HeaderSize | src/readFrame.js:6-13 | the header is 4 or 8 bytes |
| FrameReader.SkipOne | src/readFrame.js:40-53 | skipping an item succeeds and fails exactly as reading it |
| FrameReader.SkipRising | src/readFrame.js:67-74 | the items skipped after the table never extend past the input |
| FrameReader.SkipItems | src/readFrame.js:77-84 | an early delimiter reports the requested frame index as out of range |
| FrameReader.TableItem | src/readFrame.js:15-21 | the item tag follows the header, and its length is read |
| FrameReader.FrameAfterTable | src/readFrame.js:58-86 | the frame chosen once the offsets are read (no contract of its own; OneOffsetFrame, TableFrameSkipsRisingItems and UntabledFrameSkipsFrameIndexItems state it) |
| FrameReader.FrameOf | src/readFrame.js:5-86 | readFrame over bytes (no contract of its own; FrameFollowsAnItemTag, MissingItemTagIsRejected, OutOfRangeBeforeOffsets and OneOffsetIsFrameZero state it) |
| FrameReader.SkipN | src/readFrame.js:67-84 | skipping n items never extends past the input |
| FrameReader.RisingUpTo | src/readFrame.js:67-74 | the rising steps before the frame are at most the offsets left |
| FrameReader.SkipsOnePerRisingOffset | src/readFrame.js:67-74 | the table loop skips one item per rising step before the frame |
| FrameReader.RisingUpToTheEnd | src/readFrame.js:67-74 | for a frame at or past the last offset every rising step is skipped |
| FrameReader.SkipsFrameIndexItems | src/readFrame.js:77-84 | without a table, exactly frameIndex items are skipped |
| FrameReader.DelimiterBeforeTargetIsOutOfRange | src/readFrame.js:79-82 | a delimiter before the frame is an out-of-range error |
| FrameReader.FrameFollowsAnItemTag | src/readFrame.js:15-19 | a frame is returned only after the item tag |
| FrameReader.MissingItemTagIsRejected | src/readFrame.js:15-19 | without the item tag the read fails |
| FrameReader.OutOfRangeBeforeOffsets | src/readFrame.js:25-29 | an out-of-range index fails before the offsets are read |
| FrameReader.OneOffsetIsFrameZero | src/readFrame.js:25-29 | with one offset only frame 0 is in range |
| FrameReader.OneOffsetFrame | src/readFrame.js:58-61 | with one offset, frame 0 is the next item |
| FrameReader.TableFrameSkipsRisingItems | src/readFrame.js:58-86 | with a table, the frame is the item after the skipped rising steps |
| FrameReader.UntabledFrameSkipsFrameIndexItems | src/readFrame.js:75-86 | without a table, the frame is the item after frameIndex items |
| FrameReader.SkipVrAndLength | src/readFrame.js:6-13 | the stream read follows SkipHeader |
| FrameReader.ReadTableItem | src/readFrame.js:6-21 | the stream read follows TableItem |
| FrameReader.SkipRisingItems | src/readFrame.js:67-74 | the stream loop follows SkipRising |
| FrameReader.SkipFrames | src/readFrame.js:77-84 | the stream loop follows SkipItems |
| FrameReader.ReadAfterTable | src/readFrame.js:58-86 | the stream read follows FrameAfterTable |
| FrameReader.ReadFrame | src/readFrame.js:5-87 | readFrame follows FrameOf |

## Left out

- Node streams, promises and events: the source is the sequence of chunks still to come, the 'end' event arrives with the last chunk, and a stream 'error' event is not modelled.
- `close`, `createFromBuffer` and the TextEncoder field: they are not used by the reading paths.
- `readFloat` and `readDouble`: the bytes are read, but the IEEE 754 decoding is not modelled (values are `FloatBits`).
- TextDecoder is the abstract `Decoder` function; its label is the stream's `decoder` field.
- `console.log` and `console.error` output is not modelled.
- `DicomMessage.lookupTag`, `isPixelDataTag`, `isPrivateCreator` and `dropPadByte` are dcmjs functions and are parameters; `addTagAccessors` is not modelled.
- DS and IS `Number(...)` conversion, PN's `pnConvertToJsonObject`, and parsing SQ items into nested data sets are dcmjs code: the model keeps the filtered text, the name text and the item bytes.
- `ParsedUnknownValue` (explicit UN with a dictionary VR): its `read` indexes a promise and is modelled only as the error `UnknownVrReparse`.
- The write paths (`writeBytes`, `convertToString`, `checkLength`), `toWindows` and the accessors are not part of reading.
- `readFile` opens a file by name: the model takes the file's chunks. It hands the meta bytes to dcmjs's `DicomMessage._read` and `_normalizeSyntax`, which are the parameter `Host`. `DicomDict` is the pair of dictionaries.
- Part10.MetaLength: a group length value that is not a number, or a negative number, is the error `MalformedMetaLength`. JavaScript would coerce a non-number in `readNBytes`, and would pass a negative number on: `readNBytes(-1)` takes `subarray(0, -1)` and goes on reading.
- Part10.TransferSyntax: a (0002,0010) entry whose value is not a non-empty array of strings is a `TypeError`, where JavaScript might go on with a non-string.
- FrameReader.ReadFrame: `frameIndex` is an integer; an undefined or fractional index is not modelled.
- Error messages are error variants without their text.
- The character set is lower-cased over ASCII letters only, and object keys inherited from the prototype are not treated as present in `encodingMapping`.
- constants/dicom.js is not part of this model; the transfer syntax UIDs, the value delimiter and the padding bytes are those of DICOM PS3.5 and PS3.6.
- Elements.ReadElement, Dataset.ReadDataset and Part10.ReadFile: exact agreement with the pure functions is stated only for a single buffer (for ReadFile, at most one chunk). A header whose length read fails loses the chunks that read pulled, as a failed `readNBytes` does, and the value is then read from the bytes that are left.
- Values.ReadPaddedAscii: peeks with the intended ByteStream.BufferStream.PeekUint8: a UI value whose trailing byte lies in a chunk not yet buffered keeps the rest of that chunk, where the peek as written (src/DicomReadableBufferStream.js:202-203) loses it.
- Values.ReadUid: reads through ReadPaddedAscii and so the intended peek: a UI value whose trailing byte lies in a chunk not yet buffered keeps the rest of that chunk, where the peek as written (src/DicomReadableBufferStream.js:202-203) loses it.
- Values.ReadText: its UI branch reads through the intended peek: a UI value whose trailing byte lies in a chunk not yet buffered keeps the rest of that chunk, where the peek as written (src/DicomReadableBufferStream.js:202-203) loses it.
- Values.ReadBytes: its UI branch reads through the intended peek: a UI value whose trailing byte lies in a chunk not yet buffered keeps the rest of that chunk, where the peek as written (src/DicomReadableBufferStream.js:202-203) loses it.
- Values.ReadValue: follows the intended Values.ReadSpec: a fixed-length VR whose length is neither 0 nor its maximum (an AS of length 10) is read, where `read` as written throws a ReferenceError (src/StreamValueRepresentation.js:27-28); and its UI reads use the intended peek: a UI value whose trailing byte lies in a chunk not yet buffered keeps the rest of that chunk, where the peek as written (src/DicomReadableBufferStream.js:202-203) loses it.
- Elements.ValueOf: reads through the intended Values.ReadSpec: a fixed-length VR whose length is neither 0 nor its maximum (an AS of length 10) is read, where `read` as written throws a ReferenceError (src/StreamValueRepresentation.js:27-28); likewise a UL group length (0002,0000) of length 2 is read, where `read` as written throws a ReferenceError (src/StreamValueRepresentation.js:27-28).
- Elements.ElementAfter: reads its value through ValueOf and so the intended Values.ReadSpec: a fixed-length VR whose length is neither 0 nor its maximum (an AS of length 10) is read, where `read` as written throws a ReferenceError (src/StreamValueRepresentation.js:27-28).
- Elements.ElementOf: reads its value through ValueOf and so the intended Values.ReadSpec: a fixed-length VR whose length is neither 0 nor its maximum (an AS of length 10) is read, where `read` as written throws a ReferenceError (src/StreamValueRepresentation.js:27-28).
- Elements.ReadElementValue: follows ValueOf, with the intended Values.ReadSpec and the intended peek: a fixed-length VR whose length is neither 0 nor its maximum (an AS of length 10) is read, where `read` as written throws a ReferenceError (src/StreamValueRepresentation.js:27-28); a UI value whose trailing byte lies in a chunk not yet buffered keeps the rest of that chunk, where the peek as written (src/DicomReadableBufferStream.js:202-203) loses it.
- Elements.ReadElementBody: reads its value through ReadElementValue, with the same two departures: a fixed-length VR whose length is neither 0 nor its maximum (an AS of length 10) is read, where `read` as written throws a ReferenceError (src/StreamValueRepresentation.js:27-28); a UI value whose trailing byte lies in a chunk not yet buffered keeps the rest of that chunk, where the peek as written (src/DicomReadableBufferStream.js:202-203) loses it.
- Elements.ReadElement: reads its value through ReadElementValue, with the same two departures: a fixed-length VR whose length is neither 0 nor its maximum (an AS of length 10) is read, where `read` as written throws a ReferenceError (src/StreamValueRepresentation.js:27-28); a UI value whose trailing byte lies in a chunk not yet buffered keeps the rest of that chunk, where the peek as written (src/DicomReadableBufferStream.js:202-203) loses it.
- Dataset.Store: selects the decoder through the intended Dataset.CharacterSet: with ignoreErrors, an unknown Specific Character Set term (`["ISO_IR 999"]`) or a second term is stored, where `_read` as written throws a ReferenceError (src/DicomMessageAsync.js:210, 219).
- Dataset.StoreElement: stores through Store and the intended Dataset.CharacterSet: with ignoreErrors, an unknown Specific Character Set term (`["ISO_IR 999"]`) or a second term is stored, where `_read` as written throws a ReferenceError (src/DicomMessageAsync.js:210, 219). The decoder it leaves is the one the source sets in every case.
- Dataset.DatasetOf: reads elements through ElementOf and stores them through Store, so it has both departures: a fixed-length VR whose length is neither 0 nor its maximum (an AS of length 10) is read, where `read` as written throws a ReferenceError (src/StreamValueRepresentation.js:27-28); with ignoreErrors, an unknown Specific Character Set term (`["ISO_IR 999"]`) or a second term is stored, where `_read` as written throws a ReferenceError (src/DicomMessageAsync.js:210, 219).
- Dataset.ReadDataset: follows DatasetOf and reads through ReadElement, so it has the departures of both: a fixed-length VR whose length is neither 0 nor its maximum (an AS of length 10) is read, where `read` as written throws a ReferenceError (src/StreamValueRepresentation.js:27-28); with ignoreErrors, an unknown Specific Character Set term (`["ISO_IR 999"]`) or a second term is stored, where `_read` as written throws a ReferenceError (src/DicomMessageAsync.js:210, 219); a UI value whose trailing byte lies in a chunk not yet buffered keeps the rest of that chunk, where the peek as written (src/DicomReadableBufferStream.js:202-203) loses it. When it fails it does not state the decoder it leaves.
- Part10.MetaLengthOf: reads the group length element through ElementOf and so the intended Values.ReadSpec: a UL group length (0002,0000) of length 2 is read, where `read` as written throws a ReferenceError (src/StreamValueRepresentation.js:27-28).
- Part10.MetaOf: reads the group length through MetaLengthOf: a UL group length (0002,0000) of length 2 is read, where `read` as written throws a ReferenceError (src/StreamValueRepresentation.js:27-28).
- Part10.ReadMetaLength: follows MetaLengthOf: a UL group length (0002,0000) of length 2 is read, where `read` as written throws a ReferenceError (src/StreamValueRepresentation.js:27-28).
- Part10.ReadMeta: follows MetaOf: a UL group length (0002,0000) of length 2 is read, where `read` as written throws a ReferenceError (src/StreamValueRepresentation.js:27-28).
- Part10.FileOf: reads the meta information through MetaOf and the data set through DatasetOf, with their departures: a UL group length (0002,0000) of length 2 is read, where `read` as written throws a ReferenceError (src/StreamValueRepresentation.js:27-28); a fixed-length VR whose length is neither 0 nor its maximum (an AS of length 10) is read, where `read` as written throws a ReferenceError (src/StreamValueRepresentation.js:27-28); with ignoreErrors, an unknown Specific Character Set term (`["ISO_IR 999"]`) or a second term is stored, where `_read` as written throws a ReferenceError (src/DicomMessageAsync.js:210, 219).
- Part10.ReadFile: follows FileOf and reads through ReadElement, with the departures of both: a UL group length (0002,0000) of length 2 is read, where `read` as written throws a ReferenceError (src/StreamValueRepresentation.js:27-28); a fixed-length VR whose length is neither 0 nor its maximum (an AS of length 10) is read, where `read` as written throws a ReferenceError (src/StreamValueRepresentation.js:27-28); with ignoreErrors, an unknown Specific Character Set term (`["ISO_IR 999"]`) or a second term is stored, where `_read` as written throws a ReferenceError (src/DicomMessageAsync.js:210, 219); a UI value whose trailing byte lies in a chunk not yet buffered keeps the rest of that chunk, where the peek as written (src/DicomReadableBufferStream.js:202-203) loses it.

## Findings

| source | as written | input that shows it | evidently intended | confidence | as-written member | corrected member |
|---|---|---|---|---|---|---|
| src/DicomMessageAsync.js:209-222 | with `ignoreErrors`, an unknown or a multiple Specific Character Set calls `log.warn`, and `log` is never declared or imported, so `_read` throws a ReferenceError | values `["ISO_IR 999"]` with ignoreErrors true | warn and keep the current decoder | not executed | Dataset.CharacterSetAsWritten, Dataset.UnknownTermThrows, Dataset.IgnoredErrorsStillFail, Dataset.IgnoredSecondTermStillFails | Dataset.CharacterSet |
| src/DicomReadableBufferStream.js:202-204 | a peek past the buffer replaces the whole buffer with the offset + 1 bytes it read, so the bytes the pulled chunks held beyond them are lost to every later read | a stream of one chunk "123", peeked at byte 0 | keep the pulled bytes buffered, so that a peek consumes nothing | not executed | ByteStream.BufferStream.PeekUint8AsWritten, ByteStream.PeekAtAChunk | ByteStream.BufferStream.PeekUint8 |
| src/StreamValueRepresentation.js:27-35 | a fixed-length VR read whose length is neither 0 nor its maximum calls `log.error`, and `log` is not declared in the module, so the read throws a ReferenceError | an AS value of two ages, length 10 (`045Y\046Y `) | log the length mismatch and read the value | not executed | Values.ReadSpecAsWritten, Values.TwoAgesThrow | Values.ReadSpec |

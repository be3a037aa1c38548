# A Dafny model of a TypeScript DICOM decoder

The decoder reads a DICOM Part 10 file held in memory as a `Uint8Array`. It works in these steps:

- It checks the 128-byte preamble and the `DICM` marker (section 7.1 of DICOM PS3.10).
- It reads three regions of the stream as tag-length-value records, in this order:
  - the file meta information (group 0002);
  - the command set (group 0000);
  - the main dataset.
- Each record is read with implicit VR (section 7.1.3 of DICOM PS3.5) or explicit VR (section 7.1.2 of DICOM PS3.5). Explicit records include the 4-byte extra-length form.
- It guesses the transfer syntax (Annex A of DICOM PS3.5) before reading the main dataset.
- It enriches each element from the tag dictionary. Private tags and group-length tags are special cases.
- It converts each raw value with a converter chosen by its VR.
- It merges the three regions into one object.
- `getPixelData` turns the Pixel Data element into grey `#RRGGBB` colour tokens. Each token is the sample after byte order, sign, rescale, display window and MONOCHROME1 inversion.

The older revision of the reader (`src/lib/file-reader.ts`) is modelled beside the current one. Three of its functions are the same code as in the current revision, and one member models both copies:

| file-reader.ts | Current code | Modelled by |
|---|---|---|
| `readPreamble` | parse.ts:26-38 | `Parse.ReadPreamble` |
| `readOrGuessIsImplicitVrAndIsLittleEndian` | parse.ts:80-128 | `Parse.ReadOrGuess` |
| `getMatchedTag`/`getTagValue` | tag-helpers.ts:133-178 | `TagHelpers.FindTag`/`TagHelpers.GetTagValue` |

## Modules

Each module follows one area of the source. Four of them are support modules:

- `Wrappers`: `Option` and `Result`.
- `Seqs`: generic sequence functions.
- `Text`: digits, radix text, trimming, splitting and joining, as lodash and JavaScript do them.
- `Bytes`: `Uint8Helpers`, and unsigned and signed integers of bytes.

The other modules, and what each holds:

- **`Bufferpack`:** the part of the `bufferpack` library the decoder uses:
  - format strings with an endianness prefix, repeat counts, and the codes `H h L l Q q f d s`;
  - `calcLength`;
  - `unpack`, which gives `undefined` when the input is too short.
- **`JsNumber`:** JavaScript's `Number(text)`. Integers are exact, decimal or with a `0x`/`0o`/`0b` prefix. A numeral with a fraction, an exponent or `Infinity` is `FloatingPoint`, and anything else is `NaN`.
- **`MultiString`:** `multi-string.ts`.
- **`Utf8`:** `TextDecoder.decode`: UTF-8 with replacement characters, and a leading byte order mark dropped.
- **`Helpers`:** `helpers/index.ts` and `helpers.ts`.
- **`Dicom`:** the dictionary entry, the tag and the decoded value.
  - It also holds the dataset. A dataset is a JavaScript object. Its string keys keep insertion order, so it is a sequence of key–tag records. (Keys that are canonical array indices are the exception; see "## Left out".) `Put` replaces a record in place or appends one, and `Merge` is the object spread.
- **`Converter`:** `converter.ts`.
- **`TagHelpers`:** `helpers/tag-helpers.ts`.
- **`Parse`:** `parse.ts`.
  - The `readDataset` loop is a method with a `while` loop. It is proved equal to the recursive function `ReadLoop`, and the reading properties are proved about that function.
- **`PixelData`:** `pixel-data.ts`.
- **`FileReader`:** the older revision in `file-reader.ts`.

The decoder imports four tables that are not part of this model. `Dicom.Tables` takes them as a parameter:

- the tag dictionary;
- the group-length entry;
- the VRs with a 32-bit explicit length;
- the transfer syntax UIDs.

The source throws in several places. Each of these is `Failure` with one of the `Dicom.Error` values:

- a field read from an absent dictionary entry;
- `getTagInfo` when it has no identity;
- the destructuring of what `unpack` gives for short input;
- `keyword[0]` of an empty keyword;
- `.value` of an absent pixel descriptor.

## Model

| member | source | states |
|---|---|---|
| Bytes.SplitArray | src/lib/helpers/index.ts:78-86 | the two parts concatenate to the input, and the first has `min(n, len)` bytes |
| Bytes.GetArrayRange | src/lib/helpers/index.ts:88-94 | the slice is `bytes[start .. min(start+range, len))`, element by element, and is empty past the end |
| Bytes.GetArrayRangeAdjacent | src/lib/helpers/index.ts:88-94 | two adjacent ranges concatenate to the range covering both |
| Bytes.GetArrayRangeOfRest | src/lib/helpers/index.ts:78-94 | a range of the part after a split is the range shifted by the split point |
| Bytes.ArrayToText | src/lib/helpers/index.ts:96-100 | one character per byte, with the byte as its code |
| Bytes.TextArrayRoundTrip | src/lib/helpers/index.ts:96-100 | the text of bytes is Latin-1 and reads back as the same bytes |
| Bytes.ArrayTextRoundTrip | src/lib/helpers/index.ts:96-100 | Latin-1 text made into bytes and back is unchanged |
| Bytes.ArrayToHex | src/lib/helpers/index.ts:74-76 | one string per byte, each the byte in two lowercase hexadecimal digits |
| Bytes.PadStartHex | src/lib/helpers/index.ts:74-76 | `padStart(byte.toString(16), 2, '0')` is the byte in exactly two hexadecimal digits |
| Bytes.DecodeEncode | src/lib/converter.ts:25-26 | a value below `256^n`, written as `n` bytes in either byte order, reads back as itself |
| Bytes.EncodeDecode | src/lib/converter.ts:25-26 | bytes read as an unsigned number and written back in the same byte order are unchanged |
| Bytes.SignedUnsigned | src/lib/converter.ts:25-26 | a signed reading equals the unsigned one, or that minus `256^n`, and is negative exactly when the top bit is set |
| Bytes.SignedRange | src/lib/converter.ts:25-26 | a signed reading of `n` bytes lies in `[-256^n/2, 256^n/2)` |
| Bytes.Unsigned16 | src/lib/parse.ts:145-148 | a 16-bit field is `b0 + 256*b1` little endian and `b1 + 256*b0` big endian |
| Bufferpack.UnpackItemsDefined | src/lib/parse.ts:145-148 | unpacking gives values exactly when the input holds all the bytes the format needs |
| Bufferpack.CountedFormat | src/lib/converter.ts:25 | an endianness prefix, a decimal count and a code parse as one counted item of that code |
| Bufferpack.DecodeRunAt | src/lib/converter.ts:25-26 | the i-th value of a counted item is decoded from bytes `[i*w, i*w+w)` |
| JsNumber.NumberOfIntString | src/lib/converter.ts:69-72 | `Number` of the decimal text of an integer is that integer |
| JsNumber.NumberOfPaddedIntString | src/lib/converter.ts:69-72 | `Number` ignores whitespace around the decimal text of an integer |
| JsNumber.NumberOfDigits | src/lib/helpers/index.ts:34-46 | `Number` of a run of decimal digits is their decimal value |
| JsNumber.NumberIgnoresPadding | src/lib/converter.ts:69-72 | trimming before `Number` changes nothing |
| JsNumber.NumberOfNonNumeric | src/lib/converter.ts:69-72 | text that does not start like a numeral gives `NaN` |
| JsNumber.OrZero | src/lib/helpers/index.ts:59-60 | a fallback to 0 keeps a truthy number and turns `NaN` and 0 into 0 |
| MultiString.GetMultiString | src/lib/multi-string.ts:3-6 | a single string exactly when there is no backslash; otherwise backslashes+1 parts, none holding a backslash, which join back to the input |
| MultiString.GetMultiStringSingle | src/lib/multi-string.ts:3-6 | text without a backslash is returned as it is |
| MultiString.GetMultiStringJoin | src/lib/multi-string.ts:3-6 | backslash-free parts joined by backslashes split back into the same parts |
| MultiString.HandleMultiString | src/lib/multi-string.ts:8-13 | a single string maps to a single result and an array to an array of the same length, the callback applied at each position |
| Utf8.DecodeAscii | src/lib/helpers/index.ts:23-25 | ASCII bytes decode to one character per byte |
| Utf8.DecodeInvalidLead | src/lib/helpers/index.ts:23-25 | a byte that cannot start a sequence decodes to U+FFFD and decoding goes on after it |
| Utf8.DecodeEncode | src/lib/helpers/index.ts:23-25 | the UTF-8 encoding of any text decodes back to the text |
| Utf8.DecodeToText | src/lib/helpers/index.ts:23-25 | `TextDecoder.decode` gives at most one character per byte; its meaning is given by `DecodeAscii` and `DecodeToTextEncode` |
| Utf8.DecodeToTextEncode | src/lib/helpers/index.ts:23-25 | `decodeToText` of encoded text is the text, less a leading byte order mark |
| Helpers.GetEndianCharacter | src/lib/helpers.ts:1-3 | the character is a format prefix selecting the given byte order |
| Helpers.GetEndianPattern | src/lib/helpers.ts:5-7 | the pattern parses as the implicit header (`HHL`) or the explicit header (`HH2sH`) in the given byte order, and both cover 8 bytes |
| Helpers.UnpackHeader | src/lib/parse.ts:145-148 | the header pattern fails on fewer than 8 bytes and otherwise yields group, element and length, or group, element, two VR characters and length, from their byte positions |
| Helpers.NotGroup0000 | src/lib/helpers/index.ts:109-111 | the command set's stop predicate, true for every group but 0000; `ReadCommandSetElements` states that only group 0000 is read |
| Helpers.NotGroup0002 | src/lib/helpers/index.ts:113-115 | the file meta region's stop predicate, true for every group but 0002; `ReadFileMetaInfo` states that only group 0002 is read |
| Helpers.GetHexRepresentation | src/lib/helpers/index.ts:103-107 | group and element each as the last four of their lowercase hexadecimal digits, zero-padded |
| Helpers.HexRepresentationRoundTrip | src/lib/helpers/index.ts:103-107 | for 16-bit numbers the four digits read back as the group and the element |
| Helpers.HexRepresentationInjective | src/lib/helpers/index.ts:103-107 | different 16-bit tags have different hexadecimal representations |
| Helpers.NumberToHex | src/lib/helpers/index.ts:134-136 | exactly the last two lowercase hexadecimal digits of the number, zero-padded (256 gives "00") |
| Helpers.NumberToHexRoundTrip | src/lib/helpers/index.ts:134-136 | a byte's two digits read back as the byte |
| Helpers.LittleEndianToBigEndian | src/lib/helpers/index.ts:117-122 | the result has the length of the input |
| Helpers.LittleEndianToBigEndianOfBytes | src/lib/helpers/index.ts:117-122 | on the hexadecimal text of some bytes it gives the text of the bytes in reverse order |
| Helpers.LittleEndianToBigEndianInvolution | src/lib/helpers/index.ts:117-122 | on text of even length, applying it twice gives the input back |
| Helpers.HexOfBytesLength | src/lib/pixel-data.ts:84-90 | the hexadecimal text of `n` bytes has `2n` characters |
| Helpers.GetSafeKey | src/lib/helpers/index.ts:124-132 | the loop returns `key-i` for the index the search function finds |
| Helpers.SafeKeyIndex | src/lib/helpers/index.ts:124-132 | the index is the least one from the start at which `key-i` is not a key of the object |
| Helpers.SafeKeyFresh | src/lib/helpers/index.ts:124-132 | the key given is never a key already present; every `key-j` before it is taken; it reads back as key and index |
| Helpers.CandidateRoundTrip | src/lib/helpers/index.ts:127 | `key-i` is recognised as a candidate of the key and gives back `i` |
| Helpers.GetInRange | src/lib/helpers/index.ts:143-147 | `max(minimum, min(value, maximum))`: the value itself when it is in range, the maximum when the value is above a maximum not below the minimum, and the minimum when the value is below it or the maximum is below the minimum |
| Helpers.GetInRangeIdempotent | src/lib/helpers/index.ts:143-147 | clamping twice is clamping once |
| Helpers.HandleDA | src/lib/helpers/index.ts:27-49 | a date exactly when the trimmed text has 8 characters, or 10 with dots at positions 4 and 7; otherwise `null` |
| Helpers.HandleDACompact | src/lib/helpers/index.ts:34-38 | eight digits give year, month and day from positions 0–3, 4–5 and 6–7 |
| Helpers.HandleDADotted | src/lib/helpers/index.ts:40-46 | `YYYY.MM.DD` gives year, month and day from positions 0–3, 5–6 and 8–9 |
| Helpers.HandleTM | src/lib/helpers/index.ts:51-71 | a time exactly when the trimmed text is non-empty and its part before the first dot has 6 characters; the seconds are never 60 |
| Helpers.HandleTMText | src/lib/helpers/index.ts:51-71 | `HHMMSS[.F]` gives hours, minutes, seconds with 60 turned to 59, and the fraction or 0 |
| Helpers.HandleTMDigits | src/lib/helpers/index.ts:51-71 | on digits the parts are the decimal values of the digit pairs and of the fraction |
| Dicom.Get | src/lib/parse.ts:290 | a key has a value exactly when it is one of the object's keys |
| Dicom.Put | src/lib/parse.ts:249 | the assigned key holds the tag, every other key keeps its value, the key set gains the key, a new key is appended at the end and an existing one replaced where it stands, and distinct keys stay distinct |
| Dicom.Merge | src/lib/parse.ts:306-312 | the keys of a spread are the keys of both objects, and distinct keys stay distinct |
| Dicom.MergeGet | src/lib/parse.ts:306-312 | in a spread the later object's value wins for its keys and the earlier object's value stands for the rest |
| Converter.ConvertNumbers | src/lib/converter.ts:16-33 | `floor(len/width)` values decoded in stream and byte order; none gives `NaN`, one gives a scalar, more give an array |
| Converter.PackedValues | src/lib/converter.ts:25-26 | there are `floor(len/width)` values and trailing bytes are ignored |
| Converter.UnpackCounted | src/lib/converter.ts:25-26 | `unpack` of the counted format yields exactly the values decoded from consecutive widths |
| Converter.BytesPerValue | src/lib/converter.ts:18 | `calcLength` of a single code is the width of that code |
| Converter.ConvertNumbersSingle | src/lib/converter.ts:28-32 | the bytes of one value in either byte order convert to that value as a scalar |
| Converter.ConvertUI | src/lib/converter.ts:35-38 | the parts joined by backslashes are the decoded text with trailing NUL and space removed |
| Converter.ConvertUIRoundTrip | src/lib/converter.ts:35-38 | parts encoded, joined and padded with NULs or spaces convert back to the same parts |
| Converter.ConvertText | src/lib/converter.ts:44-52 | the parts joined by backslashes are the decoded text, untrimmed, and there is one part more than backslashes |
| Converter.ConvertTextRoundTrip | src/lib/converter.ts:44-52 | parts encoded and joined by backslashes convert back to the same parts |
| Converter.ConvertDAString | src/lib/converter.ts:54-57 | one date per text part, in order, each the part's `handleDA` |
| Converter.ConvertTMString | src/lib/converter.ts:59-62 | one time per text part, in order, each the part's `handleTM` |
| Converter.ConvertISString | src/lib/converter.ts:69-77 | the value is `Number` of the decoded text |
| Converter.ConvertISRoundTrip | src/lib/converter.ts:69-72 | the space-padded decimal text of an integer converts to that integer |
| Converter.ConvertValue | src/lib/converter.ts:139-147 | a VR without a converter gives `undefined` |
| Converter.ConverterOf | src/lib/converter.ts:83-122 | the `converters` table; `ConverterWellFormed` and `ConvertValueUndefined` state what its entries give |
| Converter.ConvertValueUndefined | src/lib/converter.ts:79-147 | the value is `undefined` exactly when the table has no converter for the VR or its converter is `notImplementedYet` |
| Converter.ConvertValueRaw | src/lib/converter.ts:40-42 | OB, OD, OL and `OB or OW` give the raw bytes unchanged |
| Converter.ConverterWellFormed | src/lib/converter.ts:83-122 | every number converter of the table has a number format code |
| TagHelpers.GetTagName | src/lib/helpers/tag-helpers.ts:24-37 | `PrivateTag` for a private tag, `Unknown` without an entry, and otherwise the entry's name |
| TagHelpers.CreateTag | src/lib/helpers/tag-helpers.ts:39-95 | fails exactly for a non-private tag with no wire VR and no entry; otherwise the representation is the 8 digits, the tuple holds the two halves, private tags carry `Unknown-PrivateTag` in every field, and other tags take the wire VR or the entry's VR and the entry's fields or `Unknown` |
| TagHelpers.PrivateTagIgnoresTables | src/lib/helpers/tag-helpers.ts:44-75 | a private tag is created without consulting the dictionary and always succeeds |
| TagHelpers.GroupLengthTag | src/lib/helpers/tag-helpers.ts:49-52 | element 0000 of an even group takes the group-length entry whatever the dictionary holds |
| TagHelpers.RepresentationNamesTag | src/lib/helpers/tag-helpers.ts:46-60 | the representation reads back as group and element |
| TagHelpers.GetTagInfo | src/lib/helpers/tag-helpers.ts:97-131 | throws exactly when group, element and VR are all falsy; keeps a wire VR; otherwise the group-length VR for element 0000, else the dictionary VR, else `''` |
| TagHelpers.TagInfoAgreesWithTag | src/lib/helpers/tag-helpers.ts:97-131 | for a non-private tag the VR `getTagInfo` resolves is the VR `createTag` stores |
| TagHelpers.DropSeparators | src/lib/helpers/tag-helpers.ts:154-157 | no parenthesis, comma or whitespace is left, and a single character is kept exactly when it is not a separator |
| TagHelpers.DropSeparatorsCounts | src/lib/helpers/tag-helpers.ts:154-157 | every character that is not a separator occurs in the result as often as in the input |
| TagHelpers.DropSeparatorsAppend | src/lib/helpers/tag-helpers.ts:154-157 | the replacement works character by character: it distributes over concatenation, so with the one-character case it keeps the other characters in order |
| TagHelpers.DropSeparatorsNone | src/lib/helpers/tag-helpers.ts:154-157 | text without separators is returned unchanged |
| TagHelpers.GetMatchedTag | src/lib/helpers/tag-helpers.ts:133-161 | the match of a numeric tuple, a string tuple and a string identifier; what each matches is stated by `MatchNumericTuple`, `MatchHexTuple`, `MatchHexString` and `ParenthesisedMisses` |
| TagHelpers.FindTag | src/lib/helpers/tag-helpers.ts:175-177 | not found exactly when no tag matches; otherwise the first matching tag |
| TagHelpers.GetTagValue | src/lib/helpers/tag-helpers.ts:163-178 | `null` exactly for a tuple whose length is not 2; otherwise the `find` result |
| TagHelpers.MatchNumericTuple | src/lib/helpers/tag-helpers.ts:138-140 | a numeric tuple matches exactly the tag with that group and element |
| TagHelpers.MatchHexTuple | src/lib/helpers/tag-helpers.ts:141-145 | a text tuple matches exactly when its lowercased parts are the tag's hex group and element |
| TagHelpers.MatchHexString | src/lib/helpers/tag-helpers.ts:154-158 | the hex digits with any separators and any letter case match |
| TagHelpers.ParenthesisedMisses | src/lib/helpers/tag-helpers.ts:154-158 | `(gggg,eeee)` does not match by representation: the closing parenthesis is not removed |
| TagHelpers.FoundByEveryIdentifier | src/lib/helpers/tag-helpers.ts:133-178 | a stored tag is found by its numeric tuple and, when no earlier tag answers to it, by its keyword |
| TagHelpers.GroupMembers | src/lib/helpers/tag-helpers.ts:184-185 | the filter keeps exactly the tags of the group |
| TagHelpers.KeywordKey | src/lib/helpers/tag-helpers.ts:186 | the keyword with its first letter lowercased |
| TagHelpers.CollectByKeyword | src/lib/helpers/tag-helpers.ts:186-189 | fails exactly when some tag has an empty keyword |
| TagHelpers.LastWithKey | src/lib/helpers/tag-helpers.ts:186-189 | the last tag with that key, if any |
| TagHelpers.CollectGet | src/lib/helpers/tag-helpers.ts:186-189 | after the reduce, each key holds its last tag, or what the accumulator held |
| TagHelpers.GetTagsGroup | src/lib/helpers/tag-helpers.ts:180-191 | fails exactly when a tag of the group has an empty keyword |
| TagHelpers.TagsGroupMembers | src/lib/helpers/tag-helpers.ts:180-191 | each key holds the last tag of the group with that key, and only tags of the group |
| Parse.ReadPreamble | src/lib/parse.ts:26-38 | cursor 132 and the first 128 bytes exactly when bytes 128–131 spell `DICM`; otherwise no preamble and cursor 0 |
| Parse.MagicSplit | src/lib/parse.ts:27-32 | the two splits give bytes 0–127 and 128–131, and a shorter input has no marker |
| Parse.IsImplicitVr | src/lib/parse.ts:40-78 | implicit when assumed in a sequence; otherwise the assumption for short input, else implicit exactly when a VR byte is outside `[0x40, 0x5B)` |
| Parse.UnpackElement | src/lib/parse.ts:130-175 | fewer than 8 bytes throw; implicit mode, or a VR that is not two uppercase letters, gives no VR, a 32-bit length and size 8; an extra-length VR gives the 4 bytes after the header as length and size 12, or a throw when they are missing; another VR gives the 16-bit length and size 8 |
| Parse.ZIsNotUppercase | src/lib/parse.ts:138-139 | a VR starting with `Z` is read with the implicit layout |
| Parse.ExtraLengthUnpack | src/lib/parse.ts:158-170 | the extra-length pattern fails on fewer than 4 bytes and otherwise reads 32 bits in the byte order |
| Parse.StoreElement | src/lib/parse.ts:239-249 | storing adds one record under a key that was not present, a candidate of the tag's keyword, holding a tag of the record's group, and keeps every earlier record |
| Parse.AddElement | src/lib/parse.ts:228-251 | the cursor moves past the value when its length is defined and positive; only then is a record stored; otherwise the dataset is unchanged |
| Parse.ReadElement | src/lib/parse.ts:228-251 | the imperative step equals `AddElement` |
| Parse.StoreRecord | src/lib/parse.ts:239-249 | the imperative store equals `StoreElement` |
| Parse.ReadLoopEnds | src/lib/parse.ts:203-211 | fewer than 8 bytes left ends the loop with the dataset and cursor as they are |
| Parse.TurnStops | src/lib/parse.ts:222-226 | when the stop predicate holds for the header's group the loop ends before the record |
| Parse.TurnHeaderFails | src/lib/parse.ts:213-220 | a header that cannot be unpacked ends the read with that failure |
| Parse.TurnValueFails | src/lib/parse.ts:228-251 | a record that cannot be stored ends the read with that failure |
| Parse.TurnMovesOn | src/lib/parse.ts:228-251 | otherwise the loop goes on from the position past the record with the record stored |
| Parse.ReadLoopStops | src/lib/parse.ts:202-226 | the loop ends only where fewer than 8 bytes remain or the stop predicate holds |
| Parse.ReadLoop | src/lib/parse.ts:202-265 | the `while (true)` loop as a recursive function: reading never moves back; `ReadLoopStops` and `ReadLoopExtends` state where it ends and what it stores |
| Parse.ReadLoopExtends | src/lib/parse.ts:228-251 | records are only appended, under fresh candidate keys, never of a stopping group, and keys stay distinct |
| Parse.ReadTurn | src/lib/parse.ts:202-265 | a loop turn breaks, throws or moves forward exactly as `ReadLoop` does |
| Parse.ReadElements | src/lib/parse.ts:196-265 | the imperative loop returns what `ReadLoop` returns from the start of the region |
| Parse.ReadDataset | src/lib/parse.ts:177-271 | the method returns the dataset read after the cursor, with the VR mode decided once |
| Parse.ReadDatasetKeys | src/lib/parse.ts:177-271 | the dataset has distinct keys, each a candidate of its tag's keyword, no tag of a stopping group, and a cursor not before the start |
| Parse.ReadDatasetFails | src/lib/parse.ts:177-271 | a failing loop makes the read fail with the same error |
| Parse.ReadDatasetSucceeds | src/lib/parse.ts:267-270 | the new cursor is the start plus what the loop consumed |
| Parse.ReadFileMetaInfo | src/lib/parse.ts:273-275 | the file meta region read with explicit VR, little endian: every element is in group 0002, keys are distinct, and the cursor does not move back |
| Parse.ReadCommandSetElements | src/lib/parse.ts:277-279 | the command set region read the same way: every element is in group 0000, keys are distinct, and the cursor does not move back |
| Parse.NoHexKey | src/lib/parse.ts:249 | no dataset read holds a key without a dash, such as `00020010` |
| Parse.PeekUnpack | src/lib/parse.ts:101-102 | `<HH2s` fails on fewer than 6 bytes and otherwise gives the little-endian group, element and the two VR characters |
| Parse.ReadOrGuess | src/lib/parse.ts:80-128 | implicit little endian at the end of input; without a transfer syntax: explicit exactly when the peeked VR has a converter, big endian exactly when explicit and group ≥ 1024, a throw for fewer than 6 bytes; with one: the known UIDs, deflated as implicit little endian, and any other as explicit little endian |
| Parse.ParseFileGuessesSyntax | src/lib/parse.ts:290 | the `00020010` lookup on the file meta region always misses |
| Parse.ParseFile | src/lib/parse.ts:281-313 | the parse fails with the error of the first of the file meta, command set, syntax and data set reads that fails; when all succeed it succeeds with the flags of the syntax guessed at the start of the data set, and its elements' keys are those of the three regions |
| Parse.ParseFileElements | src/lib/parse.ts:281-313 | the parse succeeds with the guessed flags; its elements' keys are those of the three regions; a key takes the command set's value, else the file meta value, else the dataset's |
| PixelData.BytesPerSample | src/lib/pixel-data.ts:80 | `ceil(bitsAllocated/8)` bytes, and none for a non-positive allocation |
| PixelData.HexPerSample | src/lib/pixel-data.ts:80 | two hex digits per byte of a sample |
| PixelData.HexSampleCount | src/lib/pixel-data.ts:80-96 | there are `ceil(2*len / hexAllocated)` samples |
| PixelData.HexSamplesOfBytes | src/lib/pixel-data.ts:82-96 | chunking the hex text is the same as taking the hex text of each chunk of bytes |
| PixelData.HexOfBytesAppend | src/lib/pixel-data.ts:84-90 | the hex text of concatenated bytes is the concatenation of their hex texts |
| PixelData.ParseHexOfBytes | src/lib/pixel-data.ts:84-107 | the hex text of bytes reads back as their big-endian unsigned value |
| PixelData.SampleText | src/lib/pixel-data.ts:98-107 | a sample's text, reversed or not, reads as the unsigned value of its bytes in the chosen byte order |
| PixelData.Complement | src/lib/pixel-data.ts:25-31 | the flipped bit string is still binary and of the same length |
| PixelData.ComplementValue | src/lib/pixel-data.ts:25-31 | a bit string and its complement add up to `2^n - 1` |
| PixelData.SixteenBits | src/lib/pixel-data.ts:22-24 | the binary text starts with 1 and has 16 digits exactly when the value is in `[32768, 65536)` |
| PixelData.SignedSample | src/lib/pixel-data.ts:20-38 | `pixelDataToSignedInt` on one sample, through its binary text; `SignedSampleValue` proves it the 16-bit two's complement |
| PixelData.SignedSampleValue | src/lib/pixel-data.ts:20-38 | the signed reading is the 16-bit two's complement of the value, and negative exactly when the value has its top bit set |
| PixelData.TwosComplementOfPair | src/lib/pixel-data.ts:20-38 | for two bytes the 16-bit two's complement is the signed value of the bytes |
| PixelData.SignedSampleExample | src/lib/pixel-data.ts:33-34 | the bytes `FF FF` read as −1, not as −32768 |
| PixelData.OrderedSamples | src/lib/pixel-data.ts:98-101 | each sample reads as the unsigned value of its bytes, in reversed order exactly when swapping |
| PixelData.IntegersOfBytes | src/lib/pixel-data.ts:98-108 | one integer per chunk of bytes, unsigned or signed as the pixel representation says |
| PixelData.RescaleDefaults | src/lib/pixel-data.ts:103-110 | slope 1 and intercept 0 leave the values unchanged |
| PixelData.Scaling | src/lib/pixel-data.ts:50-53 | the window scaling factor is positive |
| PixelData.WindowLevel | src/lib/pixel-data.ts:55-60 | `adjustToWindow` on one value; `WindowLevelRange`, `WindowLevelMonotone` and `WindowLevelEnds` state its range, order and ends |
| PixelData.WindowLevelRange | src/lib/pixel-data.ts:55-60 | with a non-negative width every value lands in `[0, 255]` |
| PixelData.WindowLevelMonotone | src/lib/pixel-data.ts:55-60 | windowing keeps the order of values |
| PixelData.WindowLevelEnds | src/lib/pixel-data.ts:55-60 | a window straddling zero sends values at or below its lower end to 0 and at or above its upper end to 255 |
| PixelData.InvertInvolution | src/lib/pixel-data.ts:118-122 | inverting twice gives the levels back, and inversion keeps levels in `[0, 255]` |
| PixelData.PaddedHexOfLevel | src/lib/pixel-data.ts:125 | a level is two uppercase hex digits that read back as the level |
| PixelData.Token | src/lib/pixel-data.ts:124-127 | the colour token of a level; `TokenOfLevel` and `TokenInjective` state its form and that it reads back as the level |
| PixelData.TokenOfLevel | src/lib/pixel-data.ts:124-127 | a token is `#` followed by the same uppercase digit pair three times, reading back as the level |
| PixelData.TokenInjective | src/lib/pixel-data.ts:124-127 | different levels give different tokens |
| PixelData.Tokens | src/lib/pixel-data.ts:124-128 | one token per level |
| PixelData.DisplayAt | src/lib/pixel-data.ts:103-128 | each token is the token of the rescaled, windowed and possibly inverted value |
| PixelData.ShadeOfBytes | src/lib/pixel-data.ts:80-128 | one token per chunk of bytes, each that of the chunk's integer value |
| PixelData.PixelTokensOfBytes | src/lib/pixel-data.ts:80-128 | with the real window step, one token per chunk of bytes, each that of the chunk's integer value |
| PixelData.PixelTokenCount | src/lib/pixel-data.ts:80-128 | there are `ceil(len / bytesPerSample)` tokens |
| PixelData.PixelTokensGrey | src/lib/pixel-data.ts:112-128 | each token is a grey colour whose level is in `[0, 255]` and is that of its sample |
| PixelData.LevelRange | src/lib/pixel-data.ts:112-122 | the level after windowing and inversion is in `[0, 255]` |
| PixelData.RescaleParam | src/lib/pixel-data.ts:103-104 | an absent slope or intercept takes its default; a present one its value |
| PixelData.WindowParam | src/lib/pixel-data.ts:45-48 | an absent or falsy centre or width takes its default, 610 or 1221; a parameter is never zero |
| PixelData.Destructure | src/lib/pixel-data.ts:64-74 | each descriptor is the group's tag under its camel-case keyword |
| PixelData.Describe | src/lib/pixel-data.ts:80-120 | swap exactly when `highBit + 1 == bitsStored`, unsigned exactly when the pixel representation is 0, MONOCHROME1 exactly for that interpretation, and slope, intercept, centre and width are the tag values or their defaults 1, 0, 610 and 1221 (`RescaleParam`, `WindowParam`) |
| PixelData.GetPixelData | src/lib/pixel-data.ts:63-129 | no pixel data exactly when no tag is named Pixel Data; a throw when a descriptor read unconditionally is missing; otherwise, whenever the descriptor is readable, exactly the colour tokens of the pixel bytes under that descriptor |
| FileReader.HexKey | src/lib/file-reader.ts:103-111 | eight characters: the hex group followed by the hex element |
| FileReader.HexKeyRoundTrip | src/lib/file-reader.ts:103-111 | the key reads back as group and element |
| FileReader.GetTagInfo | src/lib/file-reader.ts:136-157 | throws when group, element and VR are all falsy; keeps a wire VR; otherwise the dictionary VR, failing without an entry |
| FileReader.CreateTag | src/lib/file-reader.ts:109-134 | fails exactly without a dictionary entry; otherwise the tag carries the key, the tuple, the wire VR or the entry's VR, and the entry's fields |
| FileReader.NoSpecialTags | src/lib/file-reader.ts:109-134 | private and group-length tags missing from the dictionary fail here, while the current revision creates them |
| FileReader.IsImplicitVr | src/lib/file-reader.ts:269-300 | the same decision as the current revision's, without the side branch |
| FileReader.SameVrDecision | src/lib/file-reader.ts:269-300 | it agrees with `Parse.IsImplicitVr` on every input |
| FileReader.HeaderOfUnpack | src/lib/file-reader.ts:181-222 | the header is the fields `unpack` gives for the 8 header bytes |
| FileReader.TrueLength | src/lib/file-reader.ts:232-240 | the explicit loop's `trueLength`: group, element and VR are kept; `TrueLengthUnpack` states where the length comes from |
| FileReader.TrueLengthUnpack | src/lib/file-reader.ts:234-240 | an extra-length VR takes its length from the 4 bytes after the header, with header size 12, and throws when they are missing |
| FileReader.StoreTag | src/lib/file-reader.ts:243-256 | storing a tag under its 8 hex digits; `StoreTagSpec` states the stored record and that other keys are unchanged |
| FileReader.StoreTagSpec | src/lib/file-reader.ts:199-256 | a record is stored under its 8 hex digits with the resolved VR and converted value, replacing a record of the same tag, and every other key is unchanged |
| FileReader.Advance | src/lib/file-reader.ts:194-258 | the cursor moves past the header, the extra length and a defined positive value, and only such a value is stored |
| FileReader.AdvanceMoves | src/lib/file-reader.ts:194-246 | the cursor moves by 8 or 12 plus a defined positive length |
| FileReader.LoopBreaks | src/lib/file-reader.ts:181-228 | the loop ends at fewer than 8 bytes or when the stop predicate holds for the group |
| FileReader.LoopGoesOn | src/lib/file-reader.ts:194-260 | otherwise it fails with the step's failure or goes on past the record |
| FileReader.ImplicitValue | src/lib/file-reader.ts:194-213 | the implicit loop's step equals `Advance` in implicit mode |
| FileReader.ExplicitValue | src/lib/file-reader.ts:230-259 | the explicit loop's step equals `Advance` in explicit mode |
| FileReader.ReadTurn | src/lib/file-reader.ts:178-260 | a turn of either loop agrees with `ReadLoop` |
| FileReader.ReadElements | src/lib/file-reader.ts:173-261 | the loop returns what `ReadLoop` returns from the start of the region |
| FileReader.ReadDataset | src/lib/file-reader.ts:165-267 | the method returns the dataset read after the cursor, with the VR mode decided once |
| FileReader.ReadLoop | src/lib/file-reader.ts:180-261 | the two `while (true)` loops as one recursive function: reading never moves back; `LoopBreaks`, `LoopGoesOn` and `ReadLoopKeys` state where it ends and what it stores |
| FileReader.ReadLoopKeys | src/lib/file-reader.ts:207-256 | every record read is keyed by its own 8 hex digits and keys stay distinct, so a repeated tag overwrites |
| FileReader.ReadDatasetKeys | src/lib/file-reader.ts:165-267 | keys are distinct, read back as group and element, and the cursor never moves back |
| FileReader.FoundByHexKey | src/lib/file-reader.ts:207 | every tag read is found under its own hex key |
| FileReader.ReadFileMetaInfo | src/lib/file-reader.ts:310-312 | the file meta region of this revision: keys are distinct, every record is of group 0002 and keyed by its own 8 hex digits, and the cursor does not move back |
| FileReader.ReadCommandSetElements | src/lib/file-reader.ts:314-316 | the command set region of this revision: keys are distinct, every record is of group 0000 and keyed by its own 8 hex digits, and the cursor does not move back |
| FileReader.CommandSetKeys | src/lib/file-reader.ts:314-316 | every command set tag is in group 0000 and keyed by its digits |
| FileReader.FileMetaInfoKeys | src/lib/file-reader.ts:310-312 | every file meta tag is in group 0002, and the transfer syntax tag is found under `00020010` |
| FileReader.TransferSyntaxHexKey | src/lib/file-reader.ts:500 | the hex key of (0002,0010) is `00020010` |
| FileReader.BytesNeeded | src/lib/file-reader.ts:406 | one bit per sample rounds up to whole bytes; a multiple of 8 bits gives `bits/8` bytes per sample |
| FileReader.GetExpectedLength | src/lib/file-reader.ts:400-411 | `pixels` gives rows·columns·samples; YBR_FULL_422 gives an even length of about two thirds of the bytes; otherwise the bytes needed |
| FileReader.ExpectedLengthTokens | src/lib/file-reader.ts:400-411 | pixel bytes of the expected byte length give as many tokens as the expected pixel count |
| FileReader.GetPixelTypeConstructor | src/lib/file-reader.ts:414-434 | Uint8 for 1 bit or unsigned 8 bits, Uint16, Int8 and Int16 for their sizes and signs, and none otherwise |
| FileReader.TypeNames | src/lib/file-reader.ts:422-424 | the type name is `uint8` for one bit and otherwise the sign prefix followed by the bit count |

## Left out

- File and console I/O are not modelled:
  - `readFile`, with its `File.arrayBuffer`;
  - `convertPixelData`, which logs and views a buffer as a typed array;
  - the tag-dump printer;
  - every `console.log` and `console.error`.

  The messages these print are not part of the model.
- The tag dictionary, the group-length entry, the extra-length VR list and the known UIDs are parameters (`Dicom.Tables`). The constants module that holds them is not part of this model.
- `bufferpack` and `TextDecoder` are foreign code. Only the behaviour the decoder uses is written out:
  - the integer codes;
  - `s`;
  - UTF-8 decoding.
- Converter.ConvertNumbers: the `f` and `d` codes (FL, FD) decode IEEE floating point, which is not modelled. The model keeps their bytes (`Bufferpack.FloatBytes`) without their value.
- Converter.ConvertNumbers: the `q` and `Q` codes (SV, UV) are decoded to exact 64-bit integers. JavaScript's bufferpack adds the bytes up in a double, so values above 2^53 round: the little-endian bytes `01 00 00 00 00 00 20 00` give 9007199254740992 there and 9007199254740993 in the model. Its published sign test for `q` is a bitwise `&` with 2^63, which JavaScript first converts to the 32-bit integer 0. The test therefore never holds, and eight `FF` bytes read as about 1.8446744073709552e19 there and as -1 in the model. Neither difference is modelled.
- Converter.ConvertISString: DS text and numerals with a fraction, an exponent or `Infinity` are `JsNumber.FloatingPoint`, without their value. Only integers and `NaN` are given values, and integers are exact (see the next line for where JavaScript differs).
- Converter.ConvertISString: `JsNumber` gives integer text its exact value. JavaScript rounds integers above 2^53 to the nearest double, so "9007199254740993" gives 9007199254740992 there. The model does not round.
- Helpers.HandleDA: the JavaScript `Date` that `new Date(year, month, day)` builds is not modelled. The model returns the (year, month, day) numbers it is built from. JavaScript counts months from 0 there, so the `Date` falls one month later than the text says, and that is not modelled either.
- Helpers.HandleTM: the display string built from the parts is not modelled; the model returns the parts.
- PixelData.WindowLevelRange: the window step is computed in exact real arithmetic, not IEEE doubles. A rounding difference of the last bit of a level is not modelled.
- PixelData.Describe: descriptor values that are not single integers give `NonIntegerDescriptor`. This covers fractions, which JavaScript computes with as they are, arrays and text, where it gets `NaN` from a numeral `Number` cannot read or concatenates strings. The tokens of such a value are not modelled.
- Parse.ParseFile: the source returns one object that holds the elements and also the two flags `isLittleEndian` and `isImplicitVR` as keys, after the elements. The model keeps the flags beside the elements (`FullDataset`), so the result's keys are only the elements' keys. Two consequences of the flags being keys are not modelled. First, `getTagsGroup`'s `isObject` test exists to skip these boolean values, and it always holds in the model. Second, a tuple identifier that matches no tag makes `getTagValue`'s `find` reach a flag and throw, reading `representations` of a boolean, where the model gives `NotFound`. Nothing in the library calls `parseFile`, and `src/lib/index.ts` does not export it.
- Parse.IsImplicitVr: the branch the source takes when the guess differs from the assumption calls the stop predicate and `unpack`, and then returns the guess either way. The model gives the guess directly.
- Parse.ReadDataset: sequences (SQ) and undefined-length values are not read. The source only logs for them and moves past the header, and so does the model.
- The `VR !== 'NONE'` test before storing is modelled as a branch (`Parse.Emits`). It always holds, because a VR is empty or two characters.
- FileReader.ReadDataset: JavaScript enumerates object keys that are canonical array indices (decimal digits, no leading zero, below 2^32 − 1) first, in ascending numeric order. Eight-digit keys such as "20100010" or "60003000" are such indices. The model keeps every key in insertion order, so for a dataset holding such keys the order in which `getTagValue`'s `find` visits tags, and the "appended at the end" of `Dicom.Put`, may differ from JavaScript. Keys of `parse.ts`, which always contain a dash, are not affected.
- TagHelpers.GetMatchedTag: `Text.ToLower` and `Text.ToUpper` map ASCII letters only. JavaScript's `toLowerCase` also maps other letters, for example U+212A KELVIN SIGN to 'k', so a query such as "\u212AVP" finds the KVP tag in JavaScript but not in the model.
- Helpers.HandleDA: a Dafny `char` is a Unicode scalar value, while JavaScript's `length` and slicing count UTF-16 code units. Text with a character outside the Basic Multilingual Plane has a different length in the model: "2020010" followed by U+1F600 has length 9 in JavaScript, which gives `null`, and length 8 in the model, which gives a date. Helpers.HandleTM has the same difference.
- FileReader.GetTagInfo: in the explicit loop the source passes the 16-bit length, not the extra length, to `getTagInfo`. The model passes the true length. The converters read only the raw bytes, so no value differs.
- FileReader.ReadElements: the source writes two `while (true)` loops, one per VR mode. The model has one loop whose turn calls the implicit or the explicit step (`FileReader.ImplicitValue`, `FileReader.ExplicitValue`).
- FileReader.GetPixelTypeConstructor: the `isLittleEndian` argument is only logged and is not modelled.
- Encapsulated or deflated pixel data and nested datasets are not decoded by the source and are not modelled.
- The canvas, pointer-event and display code (`displaying.ts`, `canvas-helpers.ts`) is not part of this model.

# Invite codec model

This project models the invite codec of the IpShared application in Dafny and proves properties of the model. The codec carries an IPv4 address and a 16-bit port from a host to a client as a short text. It has five interchangeable forms:

- `ip:port` text (`Default`);
- twelve hexadecimal digits (`Base16`);
- a base-62 number (`Base62`);
- a five-word mnemonic phrase (`Human`);
- a QR code image written in Base64 (`QrCodeBase64`).

`TryDecodeInvite` detects which form a pasted text is in and decodes it.

Modules, following the source's classes:

| module | file | models |
|---|---|---|
| `Prelude` | prelude.dfy | bytes, ports, the 32-bit `int`, the .NET exceptions as an `Exn` datatype, and `Result` |
| `Text` | text.dfy | ASCII casing, `char.IsWhiteSpace`, `Trim`, `Split`, `Join` |
| `Decimal` | decimal.dfy | decimal port text, including `ushort.Parse` |
| `BitArrayUtils` | bit_array.dfy | the most-significant-bit-first `BitArray` helpers of `IpShared/WordEncoder.cs` |
| `WordListLoader` | word_lists.dfy | the dictionary acceptance filter and the loader's scan over ids |
| `WordCodec` | word_codec.dfy | `WordEncoderConfig`, `IpAndPortEncodingStrategy`, `IpOnlyEncodingStrategy` and the `WordEncoder` facade |
| `LegacyV3` | legacy_v3.dfy | the superseded third version: its least-significant-bit-first helpers, configuration, case-coded metadata and loader, each compared with the current version |
| `Convert` | convert.dfy | `Convert.ToHexString` / `FromHexString` and `Convert.ToBase64String` / `FromBase64String` |
| `InviteHelpers` | invite_helpers.dfy | the six-byte packing and `IsBase64String` |
| `Converters` | converters.dfy | the five converters (`IsFormat`, `Encode`, `Decode`) |
| `InviteDetector` | detector.dfy | the IpShared copy of `InviteGenerator.TryDecodeInvite` and `ObterConvite` |
| `ClienteDetector` | detector_cliente.dfy | the Cliente-Cliente copy, modelled as a second detector over the same converters |

Library calls the model does not define are fields of a `Platform` value:

- parsing address text (`IPAddress.TryParse` / `Parse`);
- whether `new Bitmap` loads image bytes;
- reading the text of a QR code from a loaded image;
- rendering text as a QR code PNG.

Properties that depend on these calls take their behaviour as a precondition. For example, `ParsesDottedDecimal` says the parser reads dotted-decimal text back as the address, and `QrFaithful` says the rendered image loads and the reader reads back the text that was rendered.

Reading files and embedded resources is also outside the model. The loader receives what those reads produced for each dictionary id, as `IdSource` values.

The superseded third version has its own `Reverse` and `Concatenate`, and its own `Capitalize`. On bit sequences and strings they compute the same functions as the current ones, so `BitArrayUtils.Reverse`, `BitArrayUtils.Concatenate` and `WordCodec.Capitalize` stand for both versions.

## Model

| member | source | states |
|---|---|---|
| `BitArrayUtils.FromIntAt` | IpShared/WordEncoder.cs:465-471 | bit i of `FromInt(v, n)` is the bit of weight 2^(n-1-i) of v: the most significant bit comes first |
| `BitArrayUtils.ToInt` | IpShared/WordEncoder.cs:473-483 | fails with `ArgumentException` exactly when there are more than 32 bits; fewer than 32 bits give a non-negative value below 2^n |
| `BitArrayUtils.FromIntToIntRoundTrip` | IpShared/WordEncoder.cs:465-483 | for 0 <= v < 2^n and n <= 31, `ToInt(FromInt(v, n))` is v |
| `BitArrayUtils.ToIntFromIntRoundTrip` | IpShared/WordEncoder.cs:465-483 | any sequence of at most 31 bits is rebuilt by `FromInt` from its `ToInt` value |
| `BitArrayUtils.ToBigEndianBytes` | IpShared/WordEncoder.cs:448-463 | succeeds exactly when the length is a multiple of 8, with one byte per 8 bits; otherwise `ArgumentException` |
| `BitArrayUtils.BigEndianBytesRoundTrip` | IpShared/WordEncoder.cs:437-463 | `ToBigEndianBytes(FromBigEndianBytes(b))` returns b |
| `BitArrayUtils.BigEndianBitsRoundTrip` | IpShared/WordEncoder.cs:437-463 | a bit sequence whose length is a multiple of 8 survives the trip to bytes and back |
| `BitArrayUtils.ConcatenateAppend` | IpShared/WordEncoder.cs:485-496 | concatenating xs + ys is concatenating xs followed by concatenating ys, so bit order is kept |
| `BitArrayUtils.ConcatenatePair` | IpShared/WordEncoder.cs:485-496 | concatenating two arrays is their sequence concatenation, of the summed length |
| `BitArrayUtils.Split` | IpShared/WordEncoder.cs:498-510 | with the list capacity `(length + chunkSize - 1) / chunkSize` computed in 32-bit `int`: succeeds exactly when the chunk size is positive and length + chunkSize <= 2^31, or the chunk size is at least the length and length + 2·chunkSize > 2^32 + 1, or the chunk size is negative and the source empty; a zero size is `DivideByZeroException`, every other failure `ArgumentOutOfRangeException`; for a positive size the chunks concatenate back to the source and every chunk but the last has exactly the chunk size |
| `BitArrayUtils.SplitCapacityOverflow` | IpShared/WordEncoder.cs:500 | two bits in chunks of `int.MaxValue` throw `ArgumentOutOfRangeException`: the capacity sum wraps to `int.MinValue` |
| `BitArrayUtils.SplitBytes` | IpShared/WordEncoder.cs:498-510 | splitting the bits of a byte array into 8-bit chunks gives each byte's bits in order |
| `BitArrayUtils.GetRange` | IpShared/WordEncoder.cs:512-521 | succeeds exactly when 0 <= index, 0 <= count and index + count <= length, copying the bits from index on; otherwise `ArgumentOutOfRangeException` |
| `BitArrayUtils.ReverseInvolution` | IpShared/WordEncoder.cs:527-536 | reversing twice gives back the source |
| `WordCodec.DefaultCounts` | IpShared/WordEncoder.cs:27-33 | the default configuration has 512 words per dictionary and 13 port data bits, which with the 3 metadata bits make 16 |
| `WordCodec.Capitalize` | IpShared/WordEncoder.cs:249-257 | only the character at index k is upper-cased; an empty word or an out-of-range index leaves the word unchanged |
| `WordCodec.Interleave` | IpShared/WordEncoder.cs:187-206 | five chunks of nine bits: chunk k (k < 4) is port bit 11+k (most significant first, so the bit of weight 2^(4-k)) followed by address byte k, and chunk 4 is port bit 15 followed by port bits 3..10 |
| `WordCodec.ChunkIndices` | IpShared/WordEncoder.cs:85-97 | the five word indices are below 512, and index k written in nine bits is chunk k |
| `WordCodec.Deinterleave` | IpShared/WordEncoder.cs:208-226 | succeeds exactly when there are at least five chunks of at least nine bits, giving 32 address bits and 13 port data bits; otherwise `ArgumentOutOfRangeException` |
| `WordCodec.DeinterleaveInterleave` | IpShared/WordEncoder.cs:187-226 | deinterleaving the interleaved chunks recovers the address bits and the port's 13 low bits |
| `WordCodec.ReconstructPort` | IpShared/WordEncoder.cs:228-232 | fails exactly above 32 bits; for 16 bits in all, the port is the value of the metadata bits followed by the data bits |
| `WordCodec.ReconstructPortRoundTrip` | IpShared/WordEncoder.cs:228-232 | the port's 3 top bits and 13 low bits reassemble to the port |
| `WordCodec.ApplyMetadataCase` | IpShared/WordEncoder.cs:117-148 | on lower-case words, initial i (i < 4) is upper-case exactly when id bit i is set, and letter i (i < 3) of the last word exactly when the reversed port metadata bit i is set |
| `WordCodec.InitialsCarryId` | IpShared/WordEncoder.cs:117-125 | the first letter of word i (i < 4) is upper-case exactly when bit i of the dictionary id is set, least significant bit first |
| `WordCodec.LastWordCarriesHighPortBits` | IpShared/WordEncoder.cs:127-147 | letter k (k < 3) of the last word is upper-case exactly when the port bit of weight 2^(13+k) is set |
| `WordCodec.ApplyMetadataCaseOnly` | IpShared/WordEncoder.cs:117-148 | applying metadata changes only letter case, and adds no hyphen |
| `WordCodec.ExtractMetadata` | IpShared/WordEncoder.cs:150-185 | a returned id is below the number of dictionaries and below 16; an empty leading word throws `IndexOutOfRangeException`; the only other failure is `KeyNotFoundException` for the id |
| `WordCodec.ExtractApplyMetadata` | IpShared/WordEncoder.cs:117-185 | extracting from words with applied metadata returns the id and the port's three top bits |
| `WordCodec.IndexOfWord` | IpShared/WordEncoder.cs:240-247 | finds the first dictionary position equal to the word ignoring case, and finds none exactly when no position matches |
| `WordCodec.IndexOfDistinct` | IpShared/WordEncoder.cs:240-247 | in a dictionary whose words are distinct ignoring case, any case variant of word j is found at j |
| `WordCodec.WordsAt` | IpShared/WordEncoder.cs:234-238 | succeeds exactly when the id and every index are in range, returning the indexed words; a bad id and an index past the dictionary's end are both `ArgumentOutOfRangeException`, as the list and the array's `IReadOnlyList` indexer throw |
| `WordCodec.WordIndices` | IpShared/WordEncoder.cs:240-247 | succeeds exactly when every word is in the dictionary; otherwise `KeyNotFoundException` names the lower-cased first missing word |
| `WordCodec.EncodeIpAndPort` | IpShared/WordEncoder.cs:85-97 | a missing port throws `ArgumentException`, a bad id `ArgumentOutOfRangeException`; with a full dictionary the encode succeeds |
| `WordCodec.DecodeIpAndPort` | IpShared/WordEncoder.cs:99-115 | anything but five hyphen-separated parts throws `ArgumentException`; a decoded phrase has a port and an id below 16 that names a loaded dictionary |
| `WordCodec.DecodeEncodedWords` | IpShared/WordEncoder.cs:99-115 | the five encoded words decode to the address, port and id they were made from |
| `WordCodec.IpAndPortRoundTrip` | IpShared/WordEncoder.cs:85-115 | for a dictionary of distinct lower-case words of at least three letters, `Decode(Encode(ip, port, id))` is (ip, port, id) |
| `WordCodec.EncodedPhraseShape` | IpShared/WordEncoder.cs:85-97 | an encoded phrase has five hyphen-separated words, holds a hyphen and has no white space at either end |
| `WordCodec.EncodeIpOnly` | IpShared/WordEncoder.cs:274-288 | a present port throws `ArgumentException` and a bad id `ArgumentOutOfRangeException`; otherwise the encode succeeds on a large enough dictionary |
| `WordCodec.EncodeIpOnlyWords` | IpShared/WordEncoder.cs:274-288 | the phrase is the words at the four address bytes followed by the word at the dictionary id |
| `WordCodec.IpOnlyMatchReads` | IpShared/WordEncoder.cs:296-316 | a dictionary accepts a phrase only when the fifth word is at the dictionary's own id and the first four are at the address bytes |
| `WordCodec.ScanListsFinds` | IpShared/WordEncoder.cs:296-318 | a successful scan returns the first dictionary that accepts the phrase, with the address it reads |
| `WordCodec.ScanListsFails` | IpShared/WordEncoder.cs:296-318 | the scan throws exactly when no dictionary accepts the phrase |
| `WordCodec.DecodeIpOnly` | IpShared/WordEncoder.cs:290-319 | anything but five parts throws `ArgumentException`; a decoded phrase has no port and names a loaded dictionary |
| `WordCodec.DecodeIpOnlyFirstAccepting` | IpShared/WordEncoder.cs:290-319 | the decode returns the first accepting dictionary and its address, and fails exactly when there are not five words or no dictionary accepts |
| `WordCodec.IpOnlyMatchOwnWords` | IpShared/WordEncoder.cs:296-316 | a dictionary of distinct words accepts its own encoding of an address, giving that address |
| `WordCodec.IpOnlyRoundTrip` | IpShared/WordEncoder.cs:274-319 | for a dictionary of at least 256 distinct words, none holding a hyphen, with room for the id: the address-only decode succeeds with an id no later than the encoding id; it gives back (ip, id) when it lands on the encoding id, which it does when no earlier dictionary accepts the phrase |
| `WordCodec.WordEncoderEncodeWithPort` | IpShared/WordEncoder.cs:331-335 | the address-only strategy refuses a port; the address-and-port strategy succeeds on a full dictionary and rejects a bad id |
| `WordCodec.WordEncoderEncode` | IpShared/WordEncoder.cs:337-341 | the address-and-port strategy refuses a missing port; the address-only strategy succeeds on a large enough dictionary |
| `WordCodec.WordEncoderDecode` | IpShared/WordEncoder.cs:343-347 | the address-and-port strategy decodes to a port and the address-only strategy to none |
| `WordCodec.WordEncoderRoundTrip` | IpShared/WordEncoder.cs:331-347 | through the facade, decoding the encoding gives back (ip, port, id) |
| `WordListLoader.Take` | IpShared/WordEncoder.cs:377-381 | takes the first min(n, length) lines, none for a non-positive count |
| `WordListLoader.CleanedWords` | IpShared/WordEncoder.cs:377-379 | every line the filter keeps is non-empty, has no white space at either end and no upper-case letter |
| `WordListLoader.CleanedAppend` | IpShared/WordEncoder.cs:377-379 | the filter works line by line: filtering a + b is filtering a followed by filtering b |
| `WordListLoader.CleanedIdempotent` | IpShared/WordEncoder.cs:377-379 | filtering already filtered lines changes nothing |
| `WordListLoader.AcceptList` | IpShared/WordEncoder.cs:377-384 | a list is kept exactly when at least n lines survive the filter and the first n are distinct ignoring case; it is then those n clean words |
| `WordListLoader.LoadFromEmbeddedResource` | IpShared/WordEncoder.cs:396-432 | a resource yields a list only when it exists and its lines pass the same filter |
| `WordListLoader.Examine` | IpShared/WordEncoder.cs:357-391 | an id ends the scan exactly when it has no acceptable resource and no file; a kept list comes from the resource or, failing that, from the file |
| `WordListLoader.LoadFromDirectory` | IpShared/WordEncoder.cs:352-394 | returns the lists of the scan over ids below `1 << idBitCount`; every list has n clean words, distinct ignoring case; there are at most `1 << idBitCount` of them |
| `WordListLoader.DefaultLoadBound` | IpShared/WordEncoder.cs:352-357 | with four id bits at most 16 dictionaries are loaded |
| `WordListLoader.ScanStopsAtGap` | IpShared/WordEncoder.cs:369-374 | nothing after the first missing id matters: directories that agree up to it load the same dictionaries |
| `LegacyV3.LegacyDefaultCounts` | IpShared/Ip_Word_Enconder_Versao_antiga.cs:392-411 | the default record derives 32 address bits, 16 port bits, 13 port data bits, 45 payload bits (five 9-bit words) and 512 words per list |
| `LegacyV3.ListWordCountAcrossVersions` | IpShared/Ip_Word_Enconder_Versao_antiga.cs:410 | the old and current dictionary sizes agree for chunk widths 0 to 30; for a negative width (other than 31 modulo 32) the old one is 0 while the current one is positive |
| `LegacyV3.SplitRun` | IpShared/Ip_Word_Enconder_Versao_antiga.cs:507-531 | the chunks all have the chunk size; the remainder is absent exactly when the length divides; a remainder is non-empty and shorter than a chunk; chunks then remainder concatenate to the source |
| `LegacyV3.LegacySplit` | IpShared/Ip_Word_Enconder_Versao_antiga.cs:507-531 | a chunk size of 0 or less throws `ArgumentException`; otherwise as `SplitRun` |
| `LegacyV3.SplitAcrossVersions` | IpShared/Ip_Word_Enconder_Versao_antiga.cs:507-531 | the old chunks followed by the old remainder are exactly the current `Split`'s chunks |
| `LegacyV3.LegacySplitAgrees` | IpShared/Ip_Word_Enconder_Versao_antiga.cs:507-531 | for a positive chunk size where length + chunkSize <= 2^31, the current `Split` returns the old chunks with the remainder appended |
| `LegacyV3.BitArrayToInt` | IpShared/Ip_Word_Enconder_Versao_antiga.cs:551-565 | throws `ArgumentException` exactly above 32 bits; below 32 bits bit i weighs 2^i |
| `LegacyV3.BitArrayToIntWeights` | IpShared/Ip_Word_Enconder_Versao_antiga.cs:551-565 | the bits of v, least significant first, read back as v |
| `LegacyV3.BitArrayToIntIsReversedToInt` | IpShared/Ip_Word_Enconder_Versao_antiga.cs:551-565 | the old conversion is the current most-significant-first `ToInt` of the reversed bits |
| `LegacyV3.ToInts` | IpShared/Ip_Word_Enconder_Versao_antiga.cs:537-545 | converts every chunk in order, and fails exactly when some chunk has more than 32 bits |
| `LegacyV3.CapitalizeEach` | IpShared/Ip_Word_Enconder_Versao_antiga.cs:327-335 | letter i is upper-cased exactly where metadata bit i is set |
| `LegacyV3.LegacyApplyMetadata` | IpShared/Ip_Word_Enconder_Versao_antiga.cs:293-351 | keeps the number of words and changes only letter case |
| `LegacyV3.LegacyIdTable` | IpShared/Ip_Word_Enconder_Versao_antiga.cs:295-319 | for ids 0 to 15 the initial of word i is upper-case exactly when bit i of the id is set |
| `LegacyV3.LegacyApplyMetadataAgrees` | IpShared/Ip_Word_Enconder_Versao_antiga.cs:293-351 | fed the id's low bits and port bits 13 to 15, the old metadata step capitalises exactly as the current one |
| `LegacyV3.LegacyAccept` | IpShared/Ip_Word_Enconder_Versao_antiga.cs:427-438 | a kept list is the first n filtered lines, of which there are at least n |
| `LegacyV3.LegacyAcceptAgrees` | IpShared/Ip_Word_Enconder_Versao_antiga.cs:427-438 | the old filter keeps exactly the lists the current one keeps |
| `LegacyV3.OrdinalIsIgnoringCase` | IpShared/Ip_Word_Enconder_Versao_antiga.cs:434 | on lower-cased words, ordinal distinctness is case-insensitive distinctness |
| `LegacyV3.LegacyLoadFrom` | IpShared/Ip_Word_Enconder_Versao_antiga.cs:419-444 | every loaded list is well formed, and at most one list per remaining id is loaded |
| `LegacyV3.LegacyLoadFromDirectory` | IpShared/Ip_Word_Enconder_Versao_antiga.cs:415-447 | every loaded list has n clean, distinct words, and there are no more lists than the id limit |
| `LegacyV3.LegacyLoaderAgrees` | IpShared/Ip_Word_Enconder_Versao_antiga.cs:415-447 | without unreadable files and with fewer than 31 id bits, the old loader loads what the current one loads from a directory without resources |
| `LegacyV3.UnreadableFileAcrossVersions` | IpShared/Ip_Word_Enconder_Versao_antiga.cs:440-444 | an unreadable first file ends the old scan with nothing, while the current loader skips it and loads the next list |
| `Convert.ToHexString` | IpShared/InviteGenerator.cs:105-109 | two upper-case hexadecimal digits per byte |
| `Convert.FromHexString` | IpShared/InviteGenerator.cs:111-115 | succeeds exactly on even-length hexadecimal text, giving half as many bytes; otherwise `FormatException` |
| `Convert.HexRoundTrip` | IpShared/InviteGenerator.cs:105-115 | hex decoding inverts hex encoding |
| `Convert.ToBase64String` | IpShared/InviteGenerator.cs:330-341 | the text has four characters per three bytes (rounded up), alphabet characters, then up to two `=` |
| `Convert.Base64RoundTrip` | IpShared/InviteGenerator.cs:318-340 | Base64 decoding inverts Base64 encoding |
| `Decimal.ParseUShort` | IpShared/InviteGenerator.cs:88-92 | a parsed port is the value of the text's decimal digits; failures are `FormatException` or `OverflowException` |
| `Decimal.ParseDecimalString` | IpShared/InviteGenerator.cs:86-92 | parsing a port's decimal text gives the port |
| `InviteHelpers.IpPortToBytes` | IpShared/InviteGenerator.cs:679-685 | six bytes: the four address bytes, then the port big-endian |
| `InviteHelpers.BytesToIpPort` | IpShared/InviteGenerator.cs:690-702 | succeeds exactly on six bytes, reading the address from the first four and the port big-endian from the last two; otherwise `ArgumentException` |
| `InviteHelpers.PackingRoundTrip` | IpShared/InviteGenerator.cs:679-702 | unpacking a packed endpoint gives it back |
| `InviteHelpers.UnpackingRoundTrip` | IpShared/InviteGenerator.cs:679-702 | packing an unpacked six-byte array gives it back |
| `InviteHelpers.Base64LooksLikeBase64` | IpShared/InviteGenerator.cs:707-711 | every Base64 encoding passes `IsBase64String` |
| `InviteHelpers.ForeignCharIsNotBase64` | IpShared/InviteGenerator.cs:707-711 | trimmed text holding a character outside the Base64 alphabet and `=` fails `IsBase64String` |
| `InviteHelpers.IsBase64StringAdmitsThreePads` | IpShared/InviteGenerator.cs:707-711 | `IsBase64String` accepts "A===", which Base64 decoding rejects |
| `InviteHelpers.DecodableLooksLikeBase64` | IpShared/InviteGenerator.cs:707-711 | text without white space that decodes as Base64 passes `IsBase64String` |
| `InviteHelpers.Base64Trimmed` | IpShared/InviteGenerator.cs:340 | a Base64 encoding is its own trim |
| `Converters.DefaultMatch` | IpShared/InviteGenerator.cs:75 | a match is a dotted quad of one-to-three-digit numbers and a port of one to five digits |
| `Converters.DefaultDecode` | IpShared/InviteGenerator.cs:88-92 | a decoded endpoint has the address the parser reads from the text before the first `:` and the port parsed from the second `:`-separated part |
| `Converters.DefaultEncodeParts` | IpShared/InviteGenerator.cs:86 | `ip:port` text splits at `:` into the dotted address and the decimal port, and holds no other character |
| `Converters.DefaultRoundTrip` | IpShared/InviteGenerator.cs:75-92 | `ip:port` text is recognised and decodes to the endpoint, provided the parser reads dotted decimal |
| `Converters.HyphenIsNotDefault` | IpShared/InviteGenerator.cs:75 | text holding a hyphen is not `ip:port` text |
| `Converters.ColonlessIsNotDefault` | IpShared/InviteGenerator.cs:75 | text without a colon is not `ip:port` text |
| `Converters.HyphenlessIsNotWords` | IpShared/InviteGenerator.cs:225-233 | text without a hyphen is not a word phrase |
| `Converters.Base16Encode` | IpShared/InviteGenerator.cs:103-109 | the encoding is recognised as Base16 and has no lower-case letter |
| `Converters.Base16Decode` | IpShared/InviteGenerator.cs:103-115 | every text Base16 recognises decodes, and only twelve-character text decodes |
| `Converters.Base16RoundTrip` | IpShared/InviteGenerator.cs:103-115 | Base16 decoding inverts Base16 encoding |
| `Converters.Base62Alphabet` | IpShared/InviteGenerator.cs:124 | the alphabet has 62 distinct characters: digits, then lower-case, then upper-case letters, and holds exactly the base-62 characters |
| `Converters.Base62Index` | IpShared/InviteGenerator.cs:150 | `IndexOf` gives -1 exactly for characters outside the alphabet, and otherwise the position of the character |
| `Converters.Base62Digits` | IpShared/InviteGenerator.cs:136-142 | a positive number's digits have no leading `0`, use only the alphabet and are the fewest that hold the number |
| `Converters.Base62DigitsBound` | IpShared/InviteGenerator.cs:129-143 | a positive number below 2^48, the value of six bytes, needs at most nine base-62 digits |
| `Converters.Base62Encode` | IpShared/InviteGenerator.cs:129-143 | the encoding is recognised as Base62, has at most nine characters, and starts with `0` only when it is "0" |
| `Converters.Base62EncodeValue` | IpShared/InviteGenerator.cs:129-151 | the digits' Horner value is the big-endian value of the six packed bytes |
| `Converters.UnsignedBytes` | IpShared/InviteGenerator.cs:152 | the shortest big-endian bytes of a number: one byte exactly when it is below 256, no leading zero byte otherwise |
| `Converters.EndpointOfValue` | IpShared/InviteGenerator.cs:152-162 | succeeds exactly for values from 0 to below 2^48, whose six big-endian bytes are the packed endpoint; larger values throw `ArgumentException`, negative ones `OverflowException` |
| `Converters.PaddedBytes` | IpShared/InviteGenerator.cs:152-160 | the shortest bytes fit six exactly when the value is below 2^48, and left padding gives the six-byte big-endian form |
| `Converters.Base62ValueOfDigits` | IpShared/InviteGenerator.cs:145-151 | Horner evaluation of a number's digits gives the number |
| `Converters.Base62ShortDecodes` | IpShared/InviteGenerator.cs:145-163 | recognised Base62 text of at most eight characters always decodes |
| `Converters.Base62NineDigitsOverflow` | IpShared/InviteGenerator.cs:145-163 | "ZZZZZZZZZ" is recognised as Base62 but its value exceeds six bytes, so decoding throws `ArgumentException` |
| `Converters.Base62RoundTrip` | IpShared/InviteGenerator.cs:129-163 | Base62 decoding inverts Base62 encoding |
| `Converters.Base62LeadingZero` | IpShared/InviteGenerator.cs:145-163 | a leading `0` digit does not change the decoded result |
| `Converters.WordsDecode` | IpShared/InviteGenerator.cs:273-297 | text that is not a five-part phrase throws `FormatException`; codec errors surface as `FormatException`, except `IndexOutOfRangeException` from an empty leading word, which is not rewrapped |
| `Converters.WordsDecodeIsWordEncoder` | IpShared/InviteGenerator.cs:273-297 | a decoded phrase was recognised, and the word codec decodes it to the same endpoint |
| `Converters.WordsRoundTrip` | IpShared/InviteGenerator.cs:242-297 | a phrase encoded with a well-formed dictionary is recognised as words and decodes to the endpoint |
| `Converters.ShortIsNotQr` | IpShared/InviteGenerator.cs:309-328 | text shorter than 100 characters is never a QR code image |
| `Converters.QrContent` | IpShared/InviteGenerator.cs:463-480 | the content is non-empty text the reader finds in the decoded, loadable image; text that is not Base64 is `FormatException`, bytes that are not an image are `ArgumentException` from `new Bitmap`, and an image with no code or empty text is `InvalidDataException` |
| `Converters.QrDecode` | IpShared/InviteGenerator.cs:343-354 | a QR code decodes to what the `ip:port` converter decodes from its content; content that is not `ip:port` text is `FormatException` |
| `Converters.QrRoundTrip` | IpShared/InviteGenerator.cs:330-354 | with a faithful QR reader a QR invite decodes to its endpoint, and is recognised when the image is a large enough PNG |
| `Converters.QrInviteContent` | IpShared/InviteGenerator.cs:330-341 | a QR invite is trimmed, Base64-looking text whose image holds the `ip:port` invite |
| `Converters.DefaultTextIsOnlyDefault` | IpShared/InviteGenerator.cs:500-508 | `ip:port` text is trimmed, not Base64, and no other converter recognises it |
| `Converters.Base16TextIsOnlyBase16` | IpShared/InviteGenerator.cs:500-508 | Base16 text is trimmed and twelve characters long, and neither the QR, `ip:port` nor words converter recognises it |
| `Converters.Base62TextIsOnlyBase62` | IpShared/InviteGenerator.cs:500-508 | Base62 text is trimmed and at most nine characters long, and no converter before Base62 recognises it |
| `Converters.PhraseIsOnlyWords` | IpShared/InviteGenerator.cs:500-508 | a five-word phrase is recognised as words, is not Base64, and no other converter recognises it |
| `InviteDetector.Finish` | IpShared/InviteGenerator.cs:620-631 | a recognising converter reports its format when it decodes, and a decode failure becomes `FormatException` |
| `InviteDetector.ScanConverters` | IpShared/InviteGenerator.cs:618-635 | only `FormatException` escapes; a detected format recognises the text and decodes it to the reported endpoint |
| `InviteDetector.ScanFollowsRegistry` | IpShared/InviteGenerator.cs:618-635 | the first converter in registry order that recognises the text decides the outcome, with no fall-through |
| `InviteDetector.ScanDecidedBy` | IpShared/InviteGenerator.cs:618-635 | a detection names the first recogniser in registry order, which decodes the text to the reported endpoint |
| `InviteDetector.ScanUnrecognised` | IpShared/InviteGenerator.cs:618-635 | the scan returns `Unknown` exactly when no registered converter recognises the text |
| `InviteDetector.QrShortcut` | IpShared/InviteGenerator.cs:590-614 | the shortcut reports `QrCodeBase64` with what the QR converter decodes, and every failure becomes `FormatException` |
| `InviteDetector.TryDecodeInvite` | IpShared/InviteGenerator.cs:583-636 | only `FormatException` escapes; trimmed Base64 text over 100 characters that fails to decode or decodes to a PNG takes the QR shortcut, and all other text goes to the converter scan |
| `InviteDetector.DetectionIsDecoding` | IpShared/InviteGenerator.cs:583-636 | a detected format is never `Unknown`, and its converter decodes the trimmed text to the reported endpoint |
| `InviteDetector.TryDecodeInviteIgnoresPadding` | IpShared/InviteGenerator.cs:585 | white space around an invite never changes the outcome |
| `InviteDetector.UnknownIffUnrecognised` | IpShared/InviteGenerator.cs:583-636 | off the shortcut, the outcome is `Unknown` exactly when no registered converter recognises the trimmed text |
| `InviteDetector.ObterConvite` | IpShared/InviteGenerator.cs:562-575 | `Unknown` throws `ArgumentOutOfRangeException`; `Human` uses the given dictionary; every other format succeeds |
| `InviteDetector.DetectDefault` | IpShared/InviteGenerator.cs:583-636 | `ip:port` text is detected as `Default` with its endpoint |
| `InviteDetector.DetectBase16` | IpShared/InviteGenerator.cs:583-636 | Base16 text is detected as `Base16` with its endpoint, although Base62 would also recognise it |
| `InviteDetector.DetectBase62` | IpShared/InviteGenerator.cs:583-636 | Base62 text is detected as `Base62` with its endpoint |
| `InviteDetector.DetectWords` | IpShared/InviteGenerator.cs:583-636 | a phrase from a well-formed dictionary is detected as `Human` with its endpoint |
| `InviteDetector.DetectQr` | IpShared/InviteGenerator.cs:583-636 | a QR invite whose image is a large enough PNG is detected as `QrCodeBase64` with its endpoint |
| `InviteDetector.QrScanned` | IpShared/InviteGenerator.cs:618-625 | a QR image of exactly 100 characters skips the shortcut and is still detected, by the registered QR converter |
| `InviteDetector.InviteRoundTrip` | IpShared/InviteGenerator.cs:562-636 | every invite `ObterConvite` writes is detected as its own format with the generator's endpoint |
| `ClienteDetector.AcceptsIsRecognisedAndDecoded` | Cliente-Cliente/InviteGenerator.cs:412-417 | a converter accepts text exactly when it recognises it and decodes it without throwing |
| `ClienteDetector.ClienteScanFollowsRegistry` | Cliente-Cliente/InviteGenerator.cs:410-427 | the first converter in the order Default, Words, Base16, Base62 that accepts the text decides the outcome |
| `ClienteDetector.ClienteScanDecodes` | Cliente-Cliente/InviteGenerator.cs:410-427 | a detected format is in the registry, accepted the text, and decodes it to the reported endpoint |
| `ClienteDetector.ClienteScanUnrecognised` | Cliente-Cliente/InviteGenerator.cs:410-427 | the scan returns `Unknown` exactly when no converter both recognises and decodes the text |
| `ClienteDetector.UnrecognisedRejectsAll` | Cliente-Cliente/InviteGenerator.cs:410-427 | after `Unknown`, none of the four converters accepts the text |
| `ClienteDetector.UnwrapIsTrimmed` | Cliente-Cliente/InviteGenerator.cs:390-406 | the converters always see trimmed text, however many QR codes were unwrapped |
| `ClienteDetector.PlainTextIsScanned` | Cliente-Cliente/InviteGenerator.cs:390-428 | text that is not Base64 holding a readable QR code goes straight to the converter scan |
| `ClienteDetector.QrCodeIsReadThrough` | Cliente-Cliente/InviteGenerator.cs:396-406 | Base64 text with a readable QR code is detected as the text of that code |
| `ClienteDetector.ClienteDetectionIsDecoding` | Cliente-Cliente/InviteGenerator.cs:390-428 | a detected format is in the registry and decodes the unwrapped text to the reported endpoint |
| `ClienteDetector.ClienteObterConvite` | Cliente-Cliente/InviteGenerator.cs:367-382 | `Unknown` throws `ArgumentOutOfRangeException`; `QrCodeBase64` renders the `ip:port` text; `Human` always uses dictionary 0 |
| `ClienteDetector.ClienteDetectDefault` | Cliente-Cliente/InviteGenerator.cs:410-418 | `ip:port` text is detected as `Default` with its endpoint |
| `ClienteDetector.ClienteDetectWords` | Cliente-Cliente/InviteGenerator.cs:254-258 | a phrase from a well-formed dictionary 0 is detected as `Human` with its endpoint |
| `ClienteDetector.PhraseDetected` | Cliente-Cliente/InviteGenerator.cs:410-418 | a decodable five-word phrase is detected as `Human` |
| `ClienteDetector.ClienteDetectBase16` | Cliente-Cliente/InviteGenerator.cs:317-324 | Base16 text, when the QR reader fails on it, is detected as `Base16` with its endpoint, not as Base62 |
| `ClienteDetector.ClienteDetectBase62` | Cliente-Cliente/InviteGenerator.cs:410-418 | Base62 text, when the QR reader fails on it, is detected as `Base62` with its endpoint |
| `ClienteDetector.ClienteDetectQr` | Cliente-Cliente/InviteGenerator.cs:396-406 | a QR invite is detected as the format of its content, `Default`, with its endpoint |
| `ClienteDetector.ClienteInviteRoundTrip` | Cliente-Cliente/InviteGenerator.cs:367-428 | every invite `ObterConvite` writes is detected with the generator's endpoint: as its own format, except that a QR invite reports `Default` |
| `ClienteDetector.ScansAgree` | Cliente-Cliente/InviteGenerator.cs:410-427 | when IpShared's scan detects a format other than QR, this copy's scan detects the same format and endpoint |
| `ClienteDetector.FirstRecognisedIsFirstAccepted` | Cliente-Cliente/InviteGenerator.cs:317-324 | the registries agree after IpShared's leading QR entry, so IpShared's first recogniser that decodes is this copy's first acceptor |
| `ClienteDetector.DetectorsAgree` | Cliente-Cliente/InviteGenerator.cs:390-428 | text that IpShared detects as a format other than QR, and that holds no readable QR code, is detected the same way by this copy |

## Left out

- Public address discovery over STUN (`GetPublicIpAsync`) is left out. It is asynchronous network I/O, so the generator's endpoint is a parameter.
- QR rendering and reading (QRCoder, ZXing, ImageSharp, `Bitmap`) are `Platform` fields, not definitions.
  - Whether the bytes load as an image, and what code the image holds, are taken as given. The model does not decode PNG or QR data.
  - `QrConverter.DebugDecode` is left out: it only logs.
- IPv6 endpoints are left out: an address is exactly four bytes. The source's encoders accept any `IPAddress`.
  - For IPv6, `IpPortToBytes` writes all 16 address bytes, making 18 bytes. Base16 invites never decode. Base62 invites decode only when the first twelve address bytes are zero, because `Base62Converter.Decode` left-pads short values to six bytes. They then decode to the wrong IPv4 endpoint: `::1` port 80 becomes `0.0.0.1:80`.
  - The address-and-port word strategy uses only the first four of the sixteen byte chunks. It silently encodes just the first four bytes.
  - The address-only strategy emits seventeen words, which its own decoder rejects.
- `IPAddress.Parse` / `TryParse` are the `Platform` field `parseIp`. The .NET parser also accepts other notations than dotted decimal, so the round trips through `ip:port` text assume only that dotted decimal is read back.
- `ushort.Parse` is modelled under the invariant culture: ASCII digits, an optional sign and surrounding white space. Culture-specific number formats are left out.
- The regular expression `\d` is taken to match ASCII digits only. .NET's `\d` also matches other Unicode decimal digits.
- Letter casing (`char.ToUpper`, `char.IsUpper`, `ToLowerInvariant`, case-insensitive comparison) is modelled on ASCII letters only. Other characters are treated as caseless.
- Convert.FromBase64String: unused low bits of the last group are ignored, as .NET does, and white space between characters is only skipped for the four ASCII white-space characters. Other leniencies of the .NET decoder are left out.
- Reading files, directories and embedded resources is left out: each dictionary id comes with the lines those reads produced.
  - The `WordsConverter` constructor's directory check and its "no dictionary loaded" exception are left out.
  - So is building the word maps, which is a case-insensitive first-match lookup in the model.
- The superseded version's `WordEncoder.Encode`, `Decode` and `ExtractMetadata` are left out. They cannot run: `Encode` and `Decode` index into empty lists, and `ExtractMetadata` reads the port bits only from a last word shorter than three letters. There is no behaviour to round-trip.
- `SimpleLogger` and the `Program_V3` random tests are left out: file output and randomness.
- Console messages are left out: they do not change the result.
- The user interface is left out: view models, views, the Android activity, the clipboard and TCP code.
- The static constructor's one-time initialisation of the converter list, and any concurrency around it, are left out. The registries are constants.
- ClienteDetector.ClienteTryDecode: the source recurses on the text of a QR code without bound. The model unwraps at most `fuel` nested QR codes and then scans the text it has reached. No bound on QR nesting is claimed for the source.
- ClienteDetector.ClienteDetectBase16: assumes the QR reader finds no code in the twelve hexadecimal characters. The source relies on the image library failing there, which the model cannot show.
- ClienteDetector.ClienteDetectBase62: assumes, in the same way, that the QR reader finds no code in the Base62 text.
- BitArrayUtils.Split: bit arrays of more than `int.MaxValue` bits are outside the model, because `BitArray.Length` is an `int`. `SplitBytes` is likewise stated for fewer than 2^28 bytes.
- LegacyV3.LegacySplit: does not model the 32-bit wrap of the chunk index `indice_chunk += chunkSize` once a chunk start plus the chunk size passes `int.MaxValue`. `LegacySplitAgrees` is stated only where that sum stays within `int`.
- WordCodec.IpOnlyRoundTrip: is exact only when no earlier dictionary also accepts the phrase. The source tries dictionaries in order, so an earlier dictionary that holds the same words at the right places wins.

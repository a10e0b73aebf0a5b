# Boost POW metadata record, modelled in Dafny

This project models `BoostPowMetadataModel`, the codec for the Boost POW
metadata record. The record is six byte fields written back to back with no
separators: `tag` (20 bytes), `minerPubKeyHash` (20), `extraNonce1` (4),
`extraNonce2` (4), `userNonce` (4) and `additionalData` (32). That is 84
bytes, or 168 lowercase hex characters.

The model covers:

- the constructors (`fromObject`, `fromBuffer`, `fromHex`, `fromString`);
- the serialisers (`toBuffer`, `toHex`, `toString`, `getCoinbaseString`);
- the byte-pair-reversed export (`toObject`);
- the raw getters and the text accessors (`get*Utf8`, `trimBufferString`);
- the content hash (`hash`, `hashAsBuffer`).

Files:

- `seqs.dfy` (module `Seqs`): the `byte` type and `Reverse`, which is what `Buffer.reverse()` computes.
- `hex.dfy` (module `Hex`): lowercase hex encoding and decoding, with both round-trips.
- `text.dfy` (module `Text`): these JavaScript string operations:
  - `substr`;
  - the NUL filter `replace(/\0/g, "")`;
  - `trimBufferString`;
  - the pair reversal `(h.match(/../g) || []).reverse().join("")`.
- `layout.dfy` (module `Layout`): the six-field value `Fields<T>` and `Serialize` (the concatenation). It also has `SplitHex`, the fixed-offset slicing that `fromHex` does, and the round-trip lemmas between the two.
- `metadata.dfy` (module `BoostPowMetadata`): the class `BoostPowMetadataModel`. Its six fields are mutable `seq<byte>` fields.

The record is a class and not a value because the code changes it. Three
accessors, `getTagUtf8`, `getUserNonceUtf8` and `getAdditionalDataUtf8`,
call Node's `Buffer.reverse()` on the stored field. That call reverses the
buffer in place. These accessors are methods with `modifies this`. Each one
leaves its own field reversed and the other five fields as they were.
Everything that is computed after the call sees the reversed field,
including `toBuffer`, `toHex` and `hash`. `getMinerPubKeyHashUtf8` only
hex-encodes and changes nothing.

The record is mutable, and the code validates nothing:

- the text accessors mutate the record;
- `fromBuffer` checks no widths;
- `fromHex` gives short or empty fields when its input is short;
- `fromObject` passes every field to the padding helper whatever its length.

Three foreign functions are parameters of the operations that use them, so
the model does not depend on how they work inside:

- `bsv.crypto.Hash.sha256sha256` is a `DoubleSha256`, a function returning a 32-byte `Digest`;
- `Buffer.toString("utf8")` is a `Utf8Decoder`;
- `BoostUtils.createBufferAndPad` is a `Pad`. The model assumes of it only
  `PadContract`: given well-formed hex of at most `width` bytes, it returns exactly
  `width` bytes. Nothing is assumed for other input. The file `boost-utils` is not part of this model.

## Model

| member | source | states |
|---|---|---|
| `BoostPowMetadata.BoostPowMetadataModel.constructor` | src/utils/boostPow/boost-pow-metadata-model.ts:5-12 | the six buffers are stored as given |
| `BoostPowMetadata.BoostPowMetadataModel.FromObject` | src/utils/boostPow/boost-pow-metadata-model.ts:14-30 | each field is the padding helper's result for its hex and its width (20, 20, 4, 4, 4, 32); under the helper's width contract, well-formed hex inputs that fit give a record of exactly those widths |
| `BoostPowMetadata.BoostPowMetadataModel.FromBuffer` | src/utils/boostPow/boost-pow-metadata-model.ts:32-48 | the given buffers are the stored fields, unchanged and unchecked |
| `BoostPowMetadata.BoostPowMetadataModel.FromHex` | src/utils/boostPow/boost-pow-metadata-model.ts:142-151 | the new record's fields are the hex slices at the fixed offsets; its `toHex()` is the input text again; a 168-character text gives the standard widths |
| `BoostPowMetadata.BoostPowMetadataModel.FromString` | src/utils/boostPow/boost-pow-metadata-model.ts:138-140 | it gives the same fields as `fromHex` |
| `Text.TrimBufferString` | src/utils/boostPow/boost-pow-metadata-model.ts:49-56 | with the flag set, the result is the decoded text with every NUL removed and every other character kept in order and with its count; without the flag, the decoded text is returned unchanged |
| `Text.RemoveNuls` | src/utils/boostPow/boost-pow-metadata-model.ts:52 | it removes every NUL, not only leading ones: none is left, every other character keeps its count, and a NUL-free text is unchanged |
| `Text.RemoveNulsConcat` | src/utils/boostPow/boost-pow-metadata-model.ts:52 | the filter works piece by piece, so it keeps the order of the characters it keeps |
| `BoostPowMetadata.BoostPowMetadataModel.GetTagUtf8` | src/utils/boostPow/boost-pow-metadata-model.ts:61-63 | afterwards the stored tag is reversed and the other fields are unchanged; the text is the NUL-free UTF-8 reading of the reversed original tag |
| `BoostPowMetadata.BoostPowMetadataModel.GetMinerPubKeyHashUtf8` | src/utils/boostPow/boost-pow-metadata-model.ts:67-69 | well-formed hex that decodes to the stored bytes, in storage order; no field changes |
| `BoostPowMetadata.BoostPowMetadataModel.GetUserNonceUtf8` | src/utils/boostPow/boost-pow-metadata-model.ts:73-75 | afterwards the stored user nonce is reversed and the other fields are unchanged; the text is the NUL-free reading of the reversed original |
| `BoostPowMetadata.BoostPowMetadataModel.GetAdditionalDataUtf8` | src/utils/boostPow/boost-pow-metadata-model.ts:85-87 | afterwards the stored additional data is reversed and the other fields are unchanged; the text is the NUL-free reading of the reversed original |
| `BoostPowMetadata.TagTextTwice` | src/utils/boostPow/boost-pow-metadata-model.ts:61-63 | calling `getTagUtf8` twice gives back the original storage; the second call reads the bytes in their original order |
| `BoostPowMetadata.UserNonceTextTwice` | src/utils/boostPow/boost-pow-metadata-model.ts:73-75 | calling `getUserNonceUtf8` twice gives back the original storage; the second call reads the bytes in their original order |
| `BoostPowMetadata.AdditionalDataTextTwice` | src/utils/boostPow/boost-pow-metadata-model.ts:85-87 | calling `getAdditionalDataUtf8` twice gives back the original storage; the second call reads the bytes in their original order |
| `BoostPowMetadata.ReversedTagChangesSerialization` | src/utils/boostPow/boost-pow-metadata-model.ts:62 | reversing the tag in place leaves the serialisation unchanged exactly when the tag is a palindrome |
| `Seqs.Reverse` | src/utils/boostPow/boost-pow-metadata-model.ts:62 | reversal keeps the length |
| `Seqs.ReverseAt` | src/utils/boostPow/boost-pow-metadata-model.ts:62 | element k of the reversal is element n-1-k of the original |
| `Seqs.ReverseConcat` | src/utils/boostPow/boost-pow-metadata-model.ts:62 | the reversal of a concatenation is the concatenation of the reversals in the opposite order |
| `Seqs.ReverseInvolution` | src/utils/boostPow/boost-pow-metadata-model.ts:62 | reversing twice restores the sequence |
| `Seqs.ReverseFixedPoint` | src/utils/boostPow/boost-pow-metadata-model.ts:62 | a sequence is unchanged by reversal exactly when it reads the same both ways |
| `BoostPowMetadata.BoostPowMetadataModel.ToString` | src/utils/boostPow/boost-pow-metadata-model.ts:89-98 | its own concatenation and encoding agree with `toHex()` |
| `BoostPowMetadata.BoostPowMetadataModel.GetCoinbaseString` | src/utils/boostPow/boost-pow-metadata-model.ts:100-102 | it equals `toString()` and so `toHex()` |
| `BoostPowMetadata.BoostPowMetadataModel.Hash` | src/utils/boostPow/boost-pow-metadata-model.ts:104-106 | 64 hex characters that decode to `hashAsBuffer()` |
| `BoostPowMetadata.BoostPowMetadataModel.HashAsBuffer` | src/utils/boostPow/boost-pow-metadata-model.ts:108-110 | 32 bytes which, reversed, are the double SHA-256 of `toBuffer()` |
| `BoostPowMetadata.HashDependsOnContents` | src/utils/boostPow/boost-pow-metadata-model.ts:104-110 | two records with the same stored fields have the same hash and hash buffer |
| `BoostPowMetadata.ExportField` | src/utils/boostPow/boost-pow-metadata-model.ts:114 | one export entry is the hex of the field's bytes in reversed order; reversing its digit pairs again gives the raw hex; an empty field gives "" |
| `BoostPowMetadata.BoostPowMetadataModel.ToObject` | src/utils/boostPow/boost-pow-metadata-model.ts:112-121 | every entry is the hex of that field reversed, and its pair reversal is the field's raw hex; it is a reading function, so no field changes |
| `Text.Pairs` | src/utils/boostPow/boost-pow-metadata-model.ts:114 | on the hex text it is given, `match(/../g) \|\| []` gives half as many groups as characters, group i being characters 2i and 2i+1 |
| `Text.ReversePairsEncode` | src/utils/boostPow/boost-pow-metadata-model.ts:114-119 | reversing the digit pairs of a hex text is the same as hex-encoding the reversed bytes |
| `Text.ReversePairsInvolution` | src/utils/boostPow/boost-pow-metadata-model.ts:114-119 | on well-formed hex, reversing the pairs twice gives back the text |
| `BoostPowMetadata.BoostPowMetadataModel.ToBuffer` | src/utils/boostPow/boost-pow-metadata-model.ts:123-132 | it is the serialisation of the six stored fields in order; its length is the sum of the field lengths, which is 84 for standard widths; it starts with the tag and ends with the additional data |
| `Layout.Serialize` | src/utils/boostPow/boost-pow-metadata-model.ts:123-132 | each field lies at the offset that the fields before it leave; the length is their sum, 84 for standard widths |
| `BoostPowMetadata.BoostPowMetadataModel.ToHex` | src/utils/boostPow/boost-pow-metadata-model.ts:134-136 | well-formed hex that decodes to `toBuffer()`; for standard widths it has 168 characters and `fromHex` slices it back into exactly the stored fields |
| `Layout.SplitHex` | src/utils/boostPow/boost-pow-metadata-model.ts:144-149 | each field's hex is the slice [0,40), [40,80), [80,88), [88,96), [96,104) or [104,end) of the text, clipped to its end (empty past it); 168 characters give the standard widths |
| `Layout.ToHexOfFromHex` | src/utils/boostPow/boost-pow-metadata-model.ts:134-151 | for any well-formed hex text h, of any length, `fromHex(h).toHex() == h` |
| `Layout.FromHexOfToHex` | src/utils/boostPow/boost-pow-metadata-model.ts:123-151 | a record of standard widths is recovered field for field from its own `toHex()` |
| `Layout.SerializeInjective` | src/utils/boostPow/boost-pow-metadata-model.ts:123-132 | two standard-width records serialise to the same bytes if and only if all their fields agree |
| `Layout.SplitHexExample` | src/utils/boostPow/boost-pow-metadata-model.ts:142-151 | the record of 20×0x11, 20×0x22, 4×0x33, 4×0x44, 4×0x55 and 32×0x66 is sliced back as built |
| `Layout.EncodeSerialize` | src/utils/boostPow/boost-pow-metadata-model.ts:134-136 | the hex of the record is the six fields' hex texts one after another |
| `Hex.Encode` | src/utils/boostPow/boost-pow-metadata-model.ts:135 | `toString("hex")` gives two lowercase digits per byte |
| `Hex.Decode` | src/utils/boostPow/boost-pow-metadata-model.ts:144 | `Buffer.from(str, "hex")` on well-formed text gives one byte per digit pair |
| `Hex.EncodeConcat` | src/utils/boostPow/boost-pow-metadata-model.ts:89-97 | hex-encoding commutes with concatenation |
| `Hex.DecodeEncode` | src/utils/boostPow/boost-pow-metadata-model.ts:62 | decoding the hex of some bytes gives back those bytes |
| `Hex.EncodeDecode` | src/utils/boostPow/boost-pow-metadata-model.ts:144 | encoding the decode of well-formed hex gives back the text |
| `Text.Substr` | src/utils/boostPow/boost-pow-metadata-model.ts:144-148 | on the hex text it is given, `substr(start, length)` gives at most `length` characters of the text from `start` on, and none when `start` is past the end; even cuts of well-formed hex are well-formed |
| `Text.SubstrFrom` | src/utils/boostPow/boost-pow-metadata-model.ts:149 | on the hex text it is given, `substr(start)` gives the characters from `start` to the end, and none when `start` is past the end |

The raw getters `getTag`, `getMinerPubKeyHash`, `getExtraNonce1`,
`getExtraNonce2`, `getUserNonce` and `getAdditionalData` are modelled as
reading functions of the same names. They return the stored field and carry
no contract (source lines 58-60, 64-66, 70-72 and 76-84).

## Left out

- src/store/wallet.ts is not part of this model: it is made of reactive and persistent stores, HD-key derivation through foreign libraries, network polling on a timer, and floating-point price arithmetic.
- src/store/createMarket.ts is not part of this model: it holds UI stores and has no logic.
- The inside of `sha256sha256` is left out, because it is foreign cryptography. It is a parameter that returns 32 bytes. As a result, avalanche and collision properties of the hash cannot be stated. `Layout.SerializeInjective` says only that different standard-width records give different hash inputs.
- BoostPowMetadata.BoostPowMetadataModel.FromObject: the padding helper's byte content is not modelled, and neither is its padding direction. The model has only its width contract, so "one-byte hex gives 19 zero bytes then the byte" is not proved. The helper's behaviour on oversized input is unknown, so it is not modelled either.
- UTF-8 decoding is left out, because it is Node's foreign decoder. It is a parameter. Only the NUL filter on its output is modelled, so "the tag's text reads back as hello" cannot be stated.
- BoostPowMetadata.BoostPowMetadataModel.FromHex: it requires well-formed lowercase even-length hex. Node's lenient hex parsing of other text is not modelled. That parsing accepts upper case, stops at the first invalid pair and drops an odd last digit.
- BoostPowMetadata.BoostPowMetadataModel.FromString: it has the same well-formed hex requirement as `FromHex`.
- Text.TrimBufferString: it has the same well-formed hex requirement. Its only callers pass text produced by `toString("hex")`.
- Aliasing of Node Buffers is not modelled, because fields are value sequences:
  - `fromBuffer` stores the caller's buffers by reference;
  - the raw getters return the live buffers;
  - so in the code, an in-place reverse by a text accessor is also seen by anyone else who holds that buffer. The model captures the change only in the record itself.
- The `| null` in the return types of `fromHex` and `fromString` is not modelled, because the code never returns null.
- The default value `true` of `trimBufferString`'s flag is not modelled: the flag is always passed explicitly.
- Text.Substr, Text.SubstrFrom and Text.Pairs match JavaScript only on hex (ASCII) text, which is all the record passes them. On other text they differ from JavaScript: JavaScript's `substr` counts UTF-16 code units, and the `.` in `/../g` does not match a line terminator.

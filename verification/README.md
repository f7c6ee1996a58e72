# Codecs and fee chains of the wallet SDK

A verified Dafny model of the hand-written byte and amount code of the wallet packages. Everything is proved for all
inputs unless a condition is stated. Where the code departs from what its names promise, the model follows the code,
and the condition under which the promise holds is proved in both directions.

`dafny verify dfyconfig.toml` checks the whole project.

## What is modelled

**EOS ABI codec** (`Eos*.dfy`). `EosBignum` and `EosBase58` are the bignum loops over byte arrays, each proved against
its value; `EosKeys` builds on them for any hash function. `EosName` and `EosAsset` are the bit-packed names and the
asset strings. `EosSerialBuffer` is the growing buffer with its read cursor. `EosAbi` specifies the type-directed
serializer and deserializer on trees of types and holds the round trip, `EosCanonical` the converse, from bytes to value
and back; `EosSerializer` is the recursive code, proved to refine them.

**Protobuf writer and reader** (`Cosmos*.dfy`). `CosmosVarint`, `CosmosZigZag` and `CosmosDecimal` are the 64-bit
numbers as pairs of 32-bit halves; `CosmosUtf8` the codec for 16-bit code units with its reused array, and
`CosmosUtf8Form` what UTF-8 is. `CosmosReader` is the reader, `CosmosFields` the proof that skipping and reading agree.
`CosmosOps` and `CosmosWriter` are the linked list of pending operations and its stack of saved states; `CosmosMessages`
proves what any nested run writes, and `CosmosRoundTrip` that each kind of field is read back.

**Runes codecs** (`Rune*.dfy`). Bijective base 26 and spacers, the two varints, delta-coded edicts, and the message of
an etching from its check to its script and back; `RuneReader` reads it by the tag numbers.

**Inscription builders** (`Doginals.dfy`, `DoginalRun.dfy`, `DoginalScripts.dfy`, `DoginalChain.dfy`, `Src20.dfy`,
`Src20Payload.dfy`, `Inscribe.dfy`). The split of an inscription into scripts, what those scripts do when they are run,
RC4 and the payload in multisig outputs, and the fee arithmetic of commit and reveal transactions.

**Shared** (`Wrappers`, `Numerals`, `JsInt`, `JsBytes`, `JsVarint`, `Leb128`, `Decimal`, `ZigZag`, `Amounts`).
`JsInt` models the 32-bit operators of JavaScript on unbounded integers (`|`, `&`, `^`, `<<`, `>>`, `>>>`, with the
conversions to signed and unsigned words), and everything above is written with them.

## Where the code departs from its promises

- `int64` of a number whose 64-bit word lies from 2^31 to 2^32 - 1, and of no other, announces five bytes but writes
  one (`CosmosWriter.BinaryWriter.Int64`, `CosmosWriter.Int64Exact`, `CosmosRoundTrip.EarlyRead`).
- A second `finish` writes other bytes than the first exactly if some 64-bit value takes more than one byte
  (`CosmosMessages.FinishTwice`).
- `utf8Read` repeats stale units exactly when a flush of its reused array is shorter than an earlier one
  (`CosmosUtf8.ReadBackExact`; `CosmosUtf8.StaleFlush` is such a string).
- Bytes come back from value to bytes exactly if they are canonical: the deserializer also takes padded groups, and any
  mark but 0 for present (`EosCanonical.RestoredExactly`).
- A present extension that encodes to nothing at the end of the data is lost, and nothing else is
  (`EosAbi.WholeAtEnd`); before a suffix, exactly the values from which an extension is absent do not come back
  (`EosAbi.SkipNeedsEnd`).
- The base-58 decoders accept exactly the strings whose characters outside the alphabet have codes above 255, and
  read each of them as a zero that also clears the lowest byte (`EosBase58.DecodeVarAccepts`,
  `EosBase58.DecodeFixedAccepts`); several strings name one fixed-size byte string (`EosBase58.EncodeDecodeFixed`).
- `reserve` never ends exactly if the array has length zero and bytes are needed (`EosSerialBuffer.GrowReaches`).
- The split loop of a Dogecoin inscription never ends exactly if number of parts and content type do not fit into one
  script, and throws exactly for a longer content type or key than 252 bytes (`DoginalScripts.LoopEnds`,
  `DoginalScripts.ExactWhen`, `DoginalScripts.Inscribe`).
- The commit transaction of a Dogecoin inscription spends more than its inputs exactly when its first output is not
  covered by the slack of the amount check (`DoginalChain.Inscribe`; `DoginalChain.Overspent` is such a request).
- SRC-20 payloads read back exactly below 65536 bytes (`Src20Payload.ReadMessage`).
- `encodeToVec` garbles exactly the numbers from 128 + ... + 128^19 on, and the negative ones
  (`RuneVarints.PrefixRoundTrip`).
- `encodeLEB128` never ends exactly on negative numbers (`RuneVarints.EncodeEnds`), and `checkEtching` leaves some open:
  offsets, given spacers, numeric rune values, the pointer, and the mask of a name, in which every leading spacer
  counts -2^31. The message of a checked etching is finished exactly if none of them is negative
  (`RuneEtching.FiniteExactly`, `RuneEtching.LeadingSpacer`), and recovered exactly if all are below 2^128 besides
  (`RuneEtching.EtchingRoundTrip`).
- `applySpacers` loses every mask from 2^31 on (`RuneNames.SpacersRoundTrip`).
- `inscribe` without sufficient funds answers with an empty commit transaction exactly when the estimated fee is not
  positive, where `inscribeForMPCUnsigned` throws; and only `inscribe` checks the weight of the reveal transactions
  (`Inscribe.AgreeExactly`; `Inscribe.HollowAnswer` is such a request).

## Model

| member | source | states |
|---|---|---|
| EosAbi.RoundTrip | packages/coin-eos/src/serialize.ts:582-758 | for every type tree (structs with bases, arrays, optionals, variants, extensions) reading what the serializer accepted gives the normal form of the value and leaves exactly the suffix: any suffix if no extension was skipped, none otherwise |
| EosAbi.WholeAtEnd | packages/coin-eos/src/serialize.ts:582-758 | at the end of the data, with distinct field names, the value comes back whole if and only if the reader may not skip or no present extension encodes, with everything after it, to no bytes |
| EosAbi.EmptyIs | packages/coin-eos/src/serialize.ts:582-758 | an accepted value encodes to no bytes exactly when it is a struct whose bases and present fields all do |
| EosAbi.FullWhole | packages/coin-eos/src/serialize.ts:582-758 | if every extension in the type has a content of at least one byte, every accepted value comes back whole |
| EosAbi.ReturnedAgrees | packages/coin-eos/src/serialize.ts:582-758 | the normal form is the value itself: same items and options, primitives in canonical form, objects restricted to the declared fields |
| EosAbi.ReturnedNames | packages/coin-eos/src/serialize.ts:624-648 | a returned object holds only declared properties |
| EosAbi.NothingAfterSkip | packages/coin-eos/src/serialize.ts:582-622 | once an extension is skipped nothing more is written |
| EosAbi.SkipNeedsEnd | packages/coin-eos/src/serialize.ts:624-648 | before a suffix, with distinct field names, the value comes back and the suffix is left if and only if no declared extension is absent from the value |
| EosAbi.SkipDiffers | packages/coin-eos/src/serialize.ts:624-648 | after a skipped extension the reader takes the missing field from the suffix: it fails or delivers another value |
| EosAbi.SkipIsAbsent | packages/coin-eos/src/serialize.ts:582-622 | accepting a value skips something exactly when a declared extension is absent from it |
| EosAbi.LossyDiffers | packages/coin-eos/src/serialize.ts:624-648 | a value with such an empty extension really comes back different |
| EosCanonical.RestoredExactly | packages/coin-eos/src/serialize.ts:582-758 | the converse law, with distinct field and option names: serializing what was deserialized gives the same bytes back if and only if they are canonical, that is, every optional and truth value is marked 0 or 1, no group is padded, nothing marked present reads as absent, and after a left-out extension, which needs permission, nothing follows |
| EosCanonical.WrittenBack | packages/coin-eos/src/serialize.ts:582-758 | for canonical bytes the serializer also skips exactly where the deserializer did; variants may have repeated names if the option read is the first of its name |
| EosCanonical.OnlyCanonical | packages/coin-eos/src/serialize.ts:582-758 | no other bytes come back |
| EosCanonical.NoLonger | packages/coin-eos/src/serialize.ts:582-758 | what is written back is never longer than what was read |
| EosCanonical.CanonicalPrimBack | packages/coin-eos/src/serialize.ts:1081-1282 | every primitive type writes canonical bytes back as it read them: all bytes for fixed-width and decimal-string integers, names and checksums |
| EosCanonical.TightIs | packages/coin-eos/src/serialize.ts:175-200 | an unpadded group of a 32-bit number is the encoding of the number that is read |
| EosCanonical.AnyMark | packages/coin-eos/src/serialize.ts:728-739 | every mark but 0 is read as 1, in an optional and in a truth value |
| EosSerializer.Serialize | packages/coin-eos/src/serialize.ts:582-758 | the recursive serializer appends exactly the specified bytes, which `EosCanonical.RestoredExactly` pins down from the bytes' side, and sets `skippedBinaryExtension` as specified; on an exception the old bytes stay in front |
| EosSerializer.SerializeStruct | packages/coin-eos/src/serialize.ts:582-622 | base first, then fields; missing fields, skipped extensions and fields after a skipped one are treated as specified |
| EosSerializer.SerializeFields | packages/coin-eos/src/serialize.ts:596-621 | only the last field passes the permission to skip on |
| EosSerializer.SerializeVariant | packages/coin-eos/src/serialize.ts:650-670 | index of the named option, then its value; everything but a pair with a known name is refused |
| EosSerializer.SerializeArray | packages/coin-eos/src/serialize.ts:686-697 | length, then the items without permission to skip |
| EosSerializer.SerializePrim | packages/coin-eos/src/serialize.ts:1081-1282 | the registered primitives append their specified bytes or refuse |
| EosSerializer.Deserialize | packages/coin-eos/src/serialize.ts:624-758 | the recursive deserializer returns what the specification takes from the unread bytes and leaves the read position behind them |
| EosSerializer.DeserializeFields | packages/coin-eos/src/serialize.ts:624-648 | fields are read into the result in order; a missing extension at the end is left out |
| EosSerializer.DeserializeArray | packages/coin-eos/src/serialize.ts:699-711 | as many items as announced |
| EosSerializer.DeserializePrim | packages/coin-eos/src/serialize.ts:1081-1282 | the registered primitives read what the specification takes |
| EosSerializer.RoundTripRun | packages/coin-eos/src/serialize.ts:505-758 | a run on a fresh buffer: what was serialized is deserialized to the normal form, and refused values are refused with the specified error |
| EosSerializer.RewriteRun | packages/coin-eos/src/serialize.ts:505-758 | a run from an array: the bytes that were read come out again if and only if they are canonical |
| EosSerial.PrimRoundTrip | packages/coin-eos/src/serialize.ts:1081-1282 | every primitive reads its canonical form back from before any suffix, and takes at least one byte |
| EosSerial.LoadStored | packages/coin-eos/src/serialize.ts:1101-1172 | a number that fits a width and signedness is recovered from its two's-complement bytes |
| EosFixed.ConvertedFits | packages/coin-eos/src/serialize.ts:1101-1190 | the range check by JavaScript conversions passes exactly on the numbers of that width and signedness |
| EosFixed.SignExtend8 | packages/coin-eos/src/serialize.ts:1110-1118 | `(v << 24) >> 24` leaves exactly the signed bytes alone and reads a byte as signed |
| EosFixed.SignExtend16 | packages/coin-eos/src/serialize.ts:1128-1136 | `(v << 16) >> 16`, the same for 16 bits |
| EosFixed.ByteAt | packages/coin-eos/src/serialize.ts:126-147 | `(v >> k) & 0xff` is the k/8-th byte of the two's-complement form, for every integer |
| EosFixed.JoinFourIs | packages/coin-eos/src/serialize.ts:149-156 | the four-byte join is the little-endian value modulo 2^32 |
| EosFixed.JoinTwoIs | packages/coin-eos/src/serialize.ts:131-136 | the two-byte join is the little-endian value |
| EosHex.FromToHex | packages/coin-eos/src/serialize.ts:986-1012 | reading the printed hexadecimal form of a byte string gives it back |
| EosHex.HexDigits | packages/coin-eos/src/serialize.ts:984-1012 | the sixteen digits are read alike in either case, no other character is a digit, and upper case is printed |
| EosHex.ToHexAt | packages/coin-eos/src/serialize.ts:984-992 | two digits to a byte, the high one first |
| EosSerialBuffer.SerialBuffer.constructor | packages/coin-eos/src/serialize.ts:37-40 | an empty buffer over an array of 1024 bytes |
| EosSerialBuffer.SerialBuffer.FromArray | packages/coin-eos/src/serialize.ts:37-40 | a buffer whose contents are the given bytes |
| EosSerialBuffer.SerialBuffer.Reserve | packages/coin-eos/src/serialize.ts:43-55 | contents unchanged and room for `size` more; the array is replaced exactly when it was too small, by the first size of the growth sequence that suffices |
| EosSerialBuffer.GrowReaches | packages/coin-eos/src/serialize.ts:43-55 | the growth loop reaches a needed size if and only if the array was not empty (or nothing is needed) |
| EosSerialBuffer.SerialBuffer.PushArray | packages/coin-eos/src/serialize.ts:76-80 | appends exactly the given bytes |
| EosSerialBuffer.SerialBuffer.Push | packages/coin-eos/src/serialize.ts:83-85 | appends exactly the given bytes |
| EosSerialBuffer.SerialBuffer.Get | packages/coin-eos/src/serialize.ts:88-93 | the next unread byte, or an exception that moves nothing |
| EosSerialBuffer.SerialBuffer.GetUint8Array | packages/coin-eos/src/serialize.ts:104-115 | the next bytes, or an exception |
| EosSerialBuffer.SerialBuffer.Skip | packages/coin-eos/src/serialize.ts:118-123 | succeeds exactly when enough bytes are unread, and moves past them |
| EosSerialBuffer.SerialBuffer.RestartRead | packages/coin-eos/src/serialize.ts:62-64 | all contents are unread again |
| EosSerialBuffer.SerialBuffer.HaveReadData | packages/coin-eos/src/serialize.ts:57-59 | whether any byte is unread |
| EosSerialBuffer.SerialBuffer.AsUint8Array | packages/coin-eos/src/serialize.ts:67-73 | exactly the contents |
| EosSerialBuffer.SerialBuffer.PushUint16 | packages/coin-eos/src/serialize.ts:126-128 | two little-endian bytes of the number modulo 2^16 |
| EosSerialBuffer.SerialBuffer.GetUint16 | packages/coin-eos/src/serialize.ts:131-136 | the little-endian value of the next two bytes |
| EosSerialBuffer.SerialBuffer.PushUint32 | packages/coin-eos/src/serialize.ts:139-146 | four little-endian bytes of the number modulo 2^32 |
| EosSerialBuffer.SerialBuffer.GetUint32 | packages/coin-eos/src/serialize.ts:149-156 | the little-endian value of the next four bytes |
| EosSerialBuffer.SerialBuffer.PushVaruint32 | packages/coin-eos/src/serialize.ts:175-185 | the LEB128 encoding of the number modulo 2^32, for every number |
| EosSerialBuffer.SerialBuffer.GetVaruint32 | packages/coin-eos/src/serialize.ts:188-200 | the payload of the next group with the shift counts wrapping at 32, or an exception at the end of the data |
| EosSerialBuffer.SerialBuffer.PushVarint32 | packages/coin-eos/src/serialize.ts:203-205 | the LEB128 encoding of the zig-zag code of the signed 32-bit word, for every number |
| EosSerialBuffer.SerialBuffer.GetVarint32 | packages/coin-eos/src/serialize.ts:208-215 | the number that the zig-zag code stands for |
| JsVarint.AccumulateEncode | packages/coin-eos/src/serialize.ts:175-200 | reading what `pushVaruint32` wrote gives the number back |
| EosSerialBuffer.SerialBuffer.PushUint8ArrayChecked | packages/coin-eos/src/serialize.ts:96-101 | refuses exactly the arrays of a different length |
| EosSerialBuffer.SerialBuffer.PushBytes | packages/coin-eos/src/serialize.ts:298-301 | length group, then the bytes |
| EosSerialBuffer.SerialBuffer.GetBytes | packages/coin-eos/src/serialize.ts:304-306 | inverse of `pushBytes` on the unread bytes |
| EosSerialBuffer.SerialBuffer.PushName | packages/coin-eos/src/serialize.ts:238-269 | appends the packed name; refuses, and appends nothing, exactly when the regular expression does not accept it |
| EosSerialBuffer.SerialBuffer.GetName | packages/coin-eos/src/serialize.ts:272-295 | the name of the next eight bytes |
| EosName.PackName | packages/coin-eos/src/serialize.ts:238-269 | the bit loops build exactly the 64 bits of the packed name |
| EosName.UnpackName | packages/coin-eos/src/serialize.ts:272-295 | the bit loops collect the name of eight bytes, trailing dots removed |
| EosName.NameOfPacked | packages/coin-eos/src/serialize.ts:238-295 | reading a packed name gives it back without trailing dots, for every accepted name |
| EosName.PackNameOf | packages/coin-eos/src/serialize.ts:238-295 | packing the name read from eight bytes gives those eight bytes, for all of them, the 4-bit thirteenth symbol included |
| EosName.NameOfAccepted | packages/coin-eos/src/serialize.ts:272-295 | every eight bytes read as a name that `pushName` accepts |
| EosName.NameAlphabet | packages/coin-eos/src/serialize.ts:238-295 | the 32 symbols are the point, the digits 1 to 5 and the small letters, in the order of their codes |
| EosSerialBuffer.SerialBuffer.PushAsset | packages/coin-eos/src/serialize.ts:378-416 | appends the parsed asset or fails with its error; the amount is already appended when the symbol is refused |
| EosSerialBuffer.SerialBuffer.GetAsset | packages/coin-eos/src/serialize.ts:418-429 | the printed form of the next sixteen bytes |
| EosAsset.CutAsset | packages/coin-eos/src/serialize.ts:378-410 | the scanning loop cuts sign, digits, precision and name as specified |
| EosAsset.PushAssetBytes | packages/coin-eos/src/serialize.ts:378-416 | the bytes or the error of an asset string |
| EosAsset.GetAssetString | packages/coin-eos/src/serialize.ts:418-429 | the printed asset: signed digits, at least precision + 1 of them, with the point inserted |
| EosAsset.AssetText | packages/coin-eos/src/serialize.ts:418-429 | a printed asset is a minus sign for a negative amount, the digits of its absolute value with the point before the last `precision` of them, a space and the name |
| EosAsset.ParsePrintedAsset | packages/coin-eos/src/serialize.ts:378-429 | `pushAsset` after `getAsset` restores all sixteen bytes: every amount, every precision up to 255, every valid symbol |
| EosAsset.PackSymbolOf | packages/coin-eos/src/serialize.ts:348-376 | `pushSymbol` after `getSymbol` restores the bytes |
| EosAsset.SymbolOfPacked | packages/coin-eos/src/serialize.ts:348-376 | `getSymbol` after `pushSymbol` restores name and precision |
| EosBignum.Negate | packages/coin-eos/src/numeric.ts:48-56 | the in-place loop complements and adds one |
| EosBignum.ComplementNegates | packages/coin-eos/src/numeric.ts:48-56 | which is negation modulo 256^n |
| EosBignum.NegativeIff | packages/coin-eos/src/numeric.ts:43-45 | the sign bit is set exactly when the signed value is negative |
| EosBignum.DecimalToBinary | packages/coin-eos/src/numeric.ts:62-80 | the nested loops deliver the parsed number or the error |
| EosBignum.ParseUnsignedExact | packages/coin-eos/src/numeric.ts:62-80 | accepts exactly the digit strings below 256^n, and delivers their value |
| EosBignum.SignedDecimalToBinary | packages/coin-eos/src/numeric.ts:87-102 | parses magnitude, negates in place and tests the sign as specified |
| EosBignum.ParseSignedExact | packages/coin-eos/src/numeric.ts:87-102 | succeeds exactly on digit strings in [-2^(8n-1), 2^(8n-1)) without negative zero, and delivers two's complement |
| EosBignum.BinaryToDecimal | packages/coin-eos/src/numeric.ts:110-126 | the growing digit loop prints the canonical decimal, padded to `minDigits` |
| EosBignum.SignedBinaryToDecimal | packages/coin-eos/src/numeric.ts:134-144 | the same for the two's-complement value |
| EosBignum.PrintThenParse | packages/coin-eos/src/numeric.ts:87-144 | parsing the printed form restores every bignum at every padding |
| EosBignum.ParseThenPrint | packages/coin-eos/src/numeric.ts:87-144 | printing what was parsed gives the canonical decimal of the number |
| EosBignum.PrintThenParseUnsigned | packages/coin-eos/src/numeric.ts:62-126 | the same for unsigned bignums |
| EosBignum.PrintSignedInt | packages/coin-eos/src/numeric.ts:134-144 | the printed form is the decimal of the signed reading |
| Decimal.NatStringValue | packages/coin-eos/src/numeric.ts:110-126 | a printed number denotes its value and has no leading zero beyond the padding |
| Decimal.NatStringUnique | packages/coin-eos/src/numeric.ts:110-126 | only one string does |
| EosBase58.Base58ToBinaryVarSize | packages/coin-eos/src/numeric.ts:146-171 | the loops deliver the specified bytes or error, a NaN product included |
| EosBase58.Base58ToBinary | packages/coin-eos/src/numeric.ts:179-200 | the fixed-size loop, with its overflow test; size zero delegates |
| EosBase58.BinaryToBase58 | packages/coin-eos/src/numeric.ts:208-231 | the loops print the specified string |
| EosBase58.DecodeVarEncode | packages/coin-eos/src/numeric.ts:146-231 | variable-size decoding undoes encoding on every byte string, leading zeros included |
| EosBase58.EncodeDecodeVar | packages/coin-eos/src/numeric.ts:146-231 | encoding undoes variable-size decoding on every base-58 string, leading ones included |
| EosBase58.DecodeFixedExact | packages/coin-eos/src/numeric.ts:179-200 | a fixed size rejects exactly the values that do not fit, and otherwise stores the value in full width |
| EosBase58.DecodersAgree | packages/coin-eos/src/numeric.ts:146-200 | both decoders agree whenever the variable-size result has the fixed size |
| EosBase58.DecodeFixedEncode | packages/coin-eos/src/numeric.ts:179-231 | fixed-size decoding at the right size undoes encoding |
| EosBase58.EncodeDecodeFixed | packages/coin-eos/src/numeric.ts:179-231 | encoding restores the string if and only if its leading ones and the bytes of its number fill the size, which is the length of the variable-size result |
| EosBase58.DecodeVarAccepts | packages/coin-eos/src/numeric.ts:146-171 | the variable-size decoder accepts exactly the strings in which every character outside the alphabet has a code above 255; the number is the one read with such a character as a zero that also clears the lowest byte |
| EosBase58.DecodeFixedAccepts | packages/coin-eos/src/numeric.ts:179-200 | a fixed size accepts exactly those of them on which no number on the way reaches 256^size, and stores the number in full width |
| EosBase58.AccAnyBase58 | packages/coin-eos/src/numeric.ts:146-200 | on base-58 strings that number is the number of the string |
| EosBase58.WideCharacter | packages/coin-eos/src/numeric.ts:146-171 | alone such a character decodes to nothing, and after a digit it clears it |
| EosBase58.FoldFixedValue | packages/coin-eos/src/numeric.ts:184-197 | the fixed-size loop holds the value read so far, or has overflowed |
| EosBase58.Alphabet58 | packages/coin-eos/src/numeric.ts:16-27 | the 58 digits are the ASCII digits and letters without 0, O, I and l, in the order of their codes |
| EosKeys.PublicKeyRoundTrip | packages/coin-eos/src/numeric.ts:283-369 | for every hash function, reading a printed public key restores it, in the current and in the legacy form; printing succeeds exactly for keys of the right size |
| EosKeys.SignatureRoundTrip | packages/coin-eos/src/numeric.ts:448-474 | reading a printed signature restores it |
| EosKeys.ReadKeySound | packages/coin-eos/src/numeric.ts:283-304 | a key that reads back carries the checksum of its own data, and at variable size prints as the string it was read from |
| EosKeys.PrintedForms | packages/coin-eos/src/numeric.ts:357-370 | every kind prints under its own prefix, with the first four bytes of the hash of the data and its own two letters; the legacy form hashes the data alone |
| CosmosVarint.LengthExact | packages/coin-cosmos/src/varint.ts:446-469 | `int64Length` is the length of the encoding for every pair of halves, signed or not |
| CosmosVarint.WriteVarint64 | packages/coin-cosmos/src/varint.ts:429-444 | writes exactly the specified bytes at `pos`, and leaves the last group in `lo` and zero in `hi` |
| CosmosVarint.EmittedIsEncoding | packages/coin-cosmos/src/varint.ts:429-469 | the bytes written are the encoding, and as many as announced, if and only if not (`lo` negative and `hi` zero) |
| CosmosVarint.WriteVarint32 | packages/coin-cosmos/src/varint.ts:414-424 | writes exactly the encoding of the unsigned word |
| CosmosVarint.Varint64Write | packages/coin-cosmos/src/varint.ts:99-129 | the byte-list writer gives the encoding of the 64-bit word for every pair of halves |
| CosmosZigZag.ZzEncodeIs | packages/coin-cosmos/src/varint.ts:374-379 | on two halves the result is the zig-zag code of the signed 64-bit number, in unsigned halves |
| CosmosZigZag.ZzDecodeIs | packages/coin-cosmos/src/varint.ts:384-389 | on two halves the result is the number of a zig-zag code |
| CosmosZigZag.ZzRoundTrip | packages/coin-cosmos/src/varint.ts:374-389 | each undoes the other for every pair of halves |
| ZigZag.DecodeEncode | packages/coin-cosmos/src/varint.ts:374-389 | decoding a zig-zag code gives the number back |
| CosmosDecimal.UInt64ToString | packages/coin-cosmos/src/varint.ts:202-256 | prints the canonical decimal of the 64-bit word for every pair, and every intermediate number stays below 2^53 |
| CosmosDecimal.Negate | packages/coin-cosmos/src/varint.ts:270-281 | two's-complement negation on halves |
| CosmosDecimal.Int64FromString | packages/coin-cosmos/src/varint.ts:141-172 | the four slices of six digits give the pair of the sign and the last 24 digits, whatever the string of digits |
| CosmosDecimal.Int64ToString | packages/coin-cosmos/src/varint.ts:182-192 | prints the signed 64-bit number |
| CosmosDecimal.ParsePrinted | packages/coin-cosmos/src/varint.ts:141-256 | parsing a printed number of [-2^63, 2^64) gives it back |
| CosmosDecimal.DecimalRoundTrip | packages/coin-cosmos/src/varint.ts:141-256 | from halves to decimal and back, unsigned and signed, for every pair |
| CosmosDecimal.NumberRoundTrip | packages/coin-cosmos/src/varint.ts:141-268 | a number survives the pair exactly on the signed, respectively the unsigned, 64-bit range |
| CosmosUtf8.Utf8Length | packages/coin-cosmos/src/utf8.ts:42-58 | the length of the encoding, pairs in four bytes and lone surrogates in three |
| CosmosUtf8.Utf8Write | packages/coin-cosmos/src/utf8.ts:116-148 | places exactly the encoding, which `CosmosUtf8Form.Utf8Exactly` identifies, at the offset and returns its length, which is `utf8Length` |
| CosmosUtf8.Utf8Read | packages/coin-cosmos/src/utf8.ts:67-107 | delivers the decoded groups through the reused `chunk` array, stale units included |
| CosmosUtf8.ReadBackExact | packages/coin-cosmos/src/utf8.ts:67-107 | the reader returns the decoded units if and only if every flush is clean |
| CosmosUtf8.Utf8RoundTrip | packages/coin-cosmos/src/utf8.ts:42-148 | reading what was written gives the units back if and only if every flush is clean, hence always below 16384 units and always without surrogate pairs |
| CosmosUtf8.StaleFlush | packages/coin-cosmos/src/utf8.ts:67-107 | counterexample: 8191 letters, one pair and 8192 letters do not come back |
| CosmosUtf8.GroupsOfUtf8 | packages/coin-cosmos/src/utf8.ts:67-148 | the bytes of a sequence decode to its characters |
| CosmosUtf8Form.Utf8Exactly | packages/coin-cosmos/src/utf8.ts:116-148 | the encoding is the one well-formed byte string of section 3 of RFC 3629 (shortest forms, following bytes from 0x80 to 0xBF, lone surrogates in three bytes) that stands for the characters of the units |
| CosmosUtf8Form.NumberUnique | packages/coin-cosmos/src/utf8.ts:116-148 | only one well-formed character has a number |
| CosmosUtf8Form.AsciiOnly | packages/coin-cosmos/src/utf8.ts:116-148 | a byte below 0x80 occurs only for such a unit |
| CosmosReader.BinaryReader.constructor | packages/coin-cosmos/src/binary.ts:106-111 | everything is unread |
| CosmosReader.BinaryReader.Varint64Read | packages/coin-cosmos/src/varint.ts:54-90 | two halves that hold the payload of one group modulo 2^64; the exception exactly when no group of at most ten bytes is there |
| CosmosReader.BinaryReader.Varint32Read | packages/coin-cosmos/src/varint.ts:320-362 | the payload modulo 2^32; at most ten bytes |
| CosmosReader.BinaryReader.Tag | packages/coin-cosmos/src/binary.ts:113-122 | field number and wire type, refused exactly when the number is not positive or the type unknown |
| CosmosReader.BinaryReader.SkipType | packages/coin-cosmos/src/binary.ts:136-161 | terminates on every buffer, and moves as the specification of skipping does, groups recursively |
| CosmosReader.BinaryReader.Skip | packages/coin-cosmos/src/binary.ts:124-134 | past the given number of bytes, or an exception |
| CosmosReader.BinaryReader.SkipVarint | packages/coin-cosmos/src/binary.ts:124-134 | past one group of any length |
| CosmosReader.BinaryReader.Int32 | packages/coin-cosmos/src/binary.ts:167-169 | the payload as a signed 32-bit number |
| CosmosReader.BinaryReader.Sint32 | packages/coin-cosmos/src/binary.ts:171-174 | the zig-zag number of 32 bits |
| CosmosReader.BinaryReader.Int64 | packages/coin-cosmos/src/binary.ts:188-191 | the decimal, as a number, of the signed word |
| CosmosReader.BinaryReader.Uint64 | packages/coin-cosmos/src/binary.ts:193-196 | the same for the unsigned word |
| CosmosReader.BinaryReader.Sint64 | packages/coin-cosmos/src/binary.ts:198-203 | the zig-zag number of 64 bits |
| CosmosReader.BinaryReader.Fixed32 | packages/coin-cosmos/src/binary.ts:176-180 | the next four bytes; `NaN` when the last one is missing, since nothing is checked |
| CosmosReader.BinaryReader.Sfixed32 | packages/coin-cosmos/src/binary.ts:182-186 | the signed word; missing bytes count as zero |
| CosmosReader.BinaryReader.Fixed64 | packages/coin-cosmos/src/binary.ts:205-208 | the word of the next eight bytes |
| CosmosReader.BinaryReader.Sfixed64 | packages/coin-cosmos/src/binary.ts:210-214 | the same, signed |
| CosmosReader.BinaryReader.Bool | packages/coin-cosmos/src/binary.ts:224-227 | whether the word is not zero |
| CosmosReader.BinaryReader.Bytes | packages/coin-cosmos/src/binary.ts:229-235 | the announced number of bytes, or an exception |
| CosmosReader.BinaryReader.String | packages/coin-cosmos/src/binary.ts:237-239 | the text of those bytes |
| CosmosFields.SkipAgrees | packages/coin-cosmos/src/binary.ts:136-161 | on every well-formed field skipping ends where the typed read ends; it succeeds on nothing else except varints of more than ten bytes |
| CosmosFields.SkipExact | packages/coin-cosmos/src/binary.ts:136-161 | skipping passes over exactly one field, with groups nested to any depth |
| CosmosOps.Op.constructor | packages/coin-cosmos/src/binary.ts:283-297 | an operation plans the bytes of its value, padded to its length |
| CosmosOps.Op.Proceed | packages/coin-cosmos/src/binary.ts:299-303 | writes what the operation holds now; only a 64-bit value changes |
| CosmosOps.WriteFixed32 | packages/coin-cosmos/src/varint.ts:471-480 | four little-endian bytes of the word |
| CosmosOps.RemnantShort | packages/coin-cosmos/src/varint.ts:429-444 | what is left of a consumed 64-bit value takes a single byte |
| CosmosWriter.Disjoint | packages/coin-cosmos/src/binary.ts:306-387 | saved states own lists that are disjoint from each other and from the current one |
| CosmosWriter.BinaryWriter.constructor | packages/coin-cosmos/src/binary.ts:326-330 | an empty list and no saved states |
| CosmosWriter.BinaryWriter.Push | packages/coin-cosmos/src/binary.ts:347-355 | appends one operation: the pending bytes grow by its bytes, the links change in one place |
| CosmosWriter.BinaryWriter.Fork | packages/coin-cosmos/src/binary.ts:369-374 | the current list is saved and an empty one begun |
| CosmosWriter.BinaryWriter.Reset | packages/coin-cosmos/src/binary.ts:376-387 | back to the innermost saved list, or to an empty one |
| CosmosWriter.BinaryWriter.Ldelim | packages/coin-cosmos/src/binary.ts:389-400 | the enclosing list gets the varint of the length of the closed block and then its bytes; without a saved state the whole message does |
| CosmosWriter.BinaryWriter.Finish | packages/coin-cosmos/src/binary.ts:357-367 | fills exactly `len` bytes with what the operations write; the first time these are the pending bytes, and the 64-bit values are consumed |
| CosmosWriter.BinaryWriter.Tag | packages/coin-cosmos/src/binary.ts:402-404 | the varint of number and wire type |
| CosmosWriter.BinaryWriter.Uint32 | packages/coin-cosmos/src/binary.ts:406-422 | the varint of the word |
| CosmosWriter.BinaryWriter.Int32 | packages/coin-cosmos/src/binary.ts:424-428 | a negative number takes the ten bytes of its 64-bit form |
| CosmosWriter.BinaryWriter.Sint32 | packages/coin-cosmos/src/binary.ts:430-432 | the varint of the zig-zag code |
| CosmosWriter.BinaryWriter.Int64 | packages/coin-cosmos/src/binary.ts:434-440 | the announced length filled by what `writeVarint64` writes |
| CosmosWriter.Int64Exact | packages/coin-cosmos/src/binary.ts:434-440 | which is the varint of the number modulo 2^64 if and only if that word is not from 2^31 to 2^32 - 1 |
| CosmosWriter.BinaryWriter.Sint64 | packages/coin-cosmos/src/binary.ts:442-447 | always the varint of the zig-zag code |
| CosmosWriter.BinaryWriter.Fixed32 | packages/coin-cosmos/src/binary.ts:461-466 | four little-endian bytes |
| CosmosWriter.BinaryWriter.Fixed64 | packages/coin-cosmos/src/binary.ts:449-455 | eight little-endian bytes |
| CosmosWriter.BinaryWriter.Bool | packages/coin-cosmos/src/binary.ts:457-459 | one byte, 1 or 0 |
| CosmosWriter.BinaryWriter.Bytes | packages/coin-cosmos/src/binary.ts:476-480 | length and bytes; nothing but a zero byte for an empty array |
| CosmosWriter.BinaryWriter.String | packages/coin-cosmos/src/binary.ts:482-487 | length of the encoding and the encoding |
| CosmosMessages.Perform | packages/coin-cosmos/src/binary.ts:320-487 | a call, with whatever is nested in it, appends its layout and leaves the saved states as they were |
| CosmosMessages.PerformAll | packages/coin-cosmos/src/binary.ts:320-487 | so does every sequence of calls |
| CosmosMessages.Build | packages/coin-cosmos/src/binary.ts:320-487 | every properly nested run on a fresh writer finishes with exactly its layout: each block preceded by the varint of its length |
| CosmosMessages.FinishTwice | packages/coin-cosmos/src/binary.ts:357-367 | a second `finish` gives the same bytes if and only if every 64-bit value takes a single byte |
| CosmosMessages.FinishOnce | packages/coin-cosmos/src/binary.ts:357-367 | one run, part by part: what each operation wrote and would write again |
| CosmosRoundTrip.TagRoundTrip | packages/coin-cosmos/src/binary.ts:113-404 | tags |
| CosmosRoundTrip.Int32RoundTrip | packages/coin-cosmos/src/binary.ts:167-428 | every 32-bit number, negative ones included |
| CosmosRoundTrip.Sint32RoundTrip | packages/coin-cosmos/src/binary.ts:171-432 | every 32-bit number |
| CosmosRoundTrip.Int64RoundTrip | packages/coin-cosmos/src/binary.ts:188-440 | a signed 64-bit number comes back, with reading ending where the field ends, if and only if it is not from 2^31 to 2^32 - 1 |
| CosmosRoundTrip.EarlyRead | packages/coin-cosmos/src/binary.ts:434-440 | on those numbers the field is one byte and four zeros, and a read ends inside it |
| CosmosRoundTrip.Sint64RoundTrip | packages/coin-cosmos/src/binary.ts:198-447 | every signed 64-bit number |
| CosmosRoundTrip.Fixed32RoundTrip | packages/coin-cosmos/src/binary.ts:176-466 | every word, signed and unsigned |
| CosmosRoundTrip.Fixed64RoundTrip | packages/coin-cosmos/src/binary.ts:205-455 | every 64-bit word |
| CosmosRoundTrip.BoolRoundTrip | packages/coin-cosmos/src/binary.ts:224-227 | a truth value is the varint of 1 or 0, and reads back |
| CosmosRoundTrip.BytesRoundTrip | packages/coin-cosmos/src/binary.ts:229-480 | every byte string below 4 GiB |
| CosmosRoundTrip.BlockRoundTrip | packages/coin-cosmos/src/binary.ts:229-400 | a nested block is found again as exactly the bytes of its inner calls |
| CosmosRoundTrip.StringRoundTrip | packages/coin-cosmos/src/binary.ts:237-487 | a string comes back if and only if the reader's flushes are clean |
| Doginals.ChunkSizes | packages/coin-bitcoin/src/doginals.ts:114-162 | the counted size exceeds the written one by 0 up to 252 bytes, and above by 2, -5, -3 or 1 by size of the length field |
| Doginals.ToBuffer | packages/coin-bitcoin/src/doginals.ts:139-162 | the serialized chunks, or the writer's exception exactly when the counted size differs |
| Doginals.TakePairs | packages/coin-bitcoin/src/doginals.ts:412-417 | shifting by twos on pairs takes exactly what is specified and never shifts from an empty list |
| Doginals.FillPiece | packages/coin-bitcoin/src/doginals.ts:407-424 | one iteration, with the last pair put back |
| Doginals.IterationSplits | packages/coin-bitcoin/src/doginals.ts:407-424 | an iteration loses nothing, its piece is within 1500 bytes, and the next pair would not have fitted |
| Doginals.IterationFits | packages/coin-bitcoin/src/doginals.ts:407-424 | a pair that does not fit into a script of its own is never taken |
| Doginals.SplitEnds | packages/coin-bitcoin/src/doginals.ts:405-449 | the loop reaches the empty list after some number of iterations if and only if every pair fits into a script of its own |
| Doginals.LockSizes | packages/coin-bitcoin/src/doginals.ts:426-438 | the lock is counted as it is written exactly for keys of at most 252 bytes |
| Doginals.MakeScripts | packages/coin-bitcoin/src/doginals.ts:426-438 | succeeds exactly for keys of at most 252 bytes and pieces counted as they are written; the redeem script is the lock of the piece, whose effect is `DoginalRun.LockRuns` |
| Doginals.CreateScripts | packages/coin-bitcoin/src/doginals.ts:405-449 | on every list on which the loop ends or throws at once: succeeds exactly if key and all pieces are counted as they are written; then the pieces joined are the chunks, each as long as the limit allows, each with its two scripts |
| DoginalScripts.CutBody | packages/coin-bitcoin/src/doginals.ts:390-395 | the parts joined are the body; all have 240 bytes but the last |
| DoginalScripts.PartsCount | packages/coin-bitcoin/src/doginals.ts:390-395 | a body of n bytes has (n + 239) / 240 parts |
| DoginalScripts.LoopEnds | packages/coin-bitcoin/src/doginals.ts:397-424 | for an inscription the loop reaches the empty list if and only if number of parts and content type fit into 1500 bytes |
| DoginalScripts.ExactWhen | packages/coin-bitcoin/src/doginals.ts:397-449 | when it ends, every script is counted as it is written exactly if the content type has at most 252 bytes |
| DoginalRun.PieceItems | packages/coin-bitcoin/src/doginals.ts:139-162 | the script of a piece pushes one element per chunk |
| DoginalRun.RunPieces | packages/coin-bitcoin/src/doginals.ts:139-162 | run on any stack, it puts those elements on top |
| DoginalRun.LockRuns | packages/coin-bitcoin/src/doginals.ts:426-438 | run on any elements and a signature, the bytes of the lock for as many elements succeed exactly if that is a signature of the key, and leave a single element, true |
| DoginalRun.PieceOpens | packages/coin-bitcoin/src/doginals.ts:405-449 | so does running a piece's script, the push of any signature, and its redeem script, from the empty stack |
| DoginalRun.BufferToBuffer | packages/coin-bitcoin/src/doginals.ts:64-95 | one push, or the writer's exception exactly above 252 bytes |
| DoginalRun.RevealScript | packages/coin-bitcoin/src/doginals.ts:294-306 | the script of a reveal's first input, or the exception exactly if signature or redeem script is longer than 252 bytes |
| DoginalRun.PieceSpends | packages/coin-bitcoin/src/doginals.ts:294-306 | for every hash function, that input spends the output that pays to the hash of the redeem script exactly with a signature of the key |
| DoginalScripts.NumberRoundTrip | packages/coin-bitcoin/src/doginals.ts:55-62 | a number comes back from its chunk if and only if it is below 65536 |
| DoginalScripts.ReadBack | packages/coin-bitcoin/src/doginals.ts:397-404 | the elements of all chunks give back content type and body if and only if there are fewer than 65536 parts |
| DoginalScripts.FewChunks | packages/coin-bitcoin/src/doginals.ts:405-424 | no script holds more than 17 chunks |
| DoginalScripts.Inscribe | packages/coin-bitcoin/src/doginals.ts:390-449 | on every input on which the source ends or throws: it throws exactly for a content type or key of more than 252 bytes; otherwise every lock opens on what its script pushed exactly with a signature of the key and leaves a single true, redeem scripts are at most 21 bytes longer than the key, every reveal input spends its output (keys of up to 231 bytes), and all elements read as content type and body exactly for fewer than 65536 parts |
| DoginalChain.DogInscriptionTool.BuildEmptyRevealTxs | packages/coin-bitcoin/src/doginals.ts:202-249 | built from the last to the first and reversed: reveal i pays out `revealOutValue` and the cost of all later ones; the total is their sum |
| DoginalChain.DogInscriptionTool.BuildCommitTx | packages/coin-bitcoin/src/doginals.ts:251-288 | outputs and change, or insufficient funds, exactly by the two estimates |
| DoginalChain.DogInscriptionTool.CompleteRevealTx | packages/coin-bitcoin/src/doginals.ts:294-317 | records what every reveal spends |
| DoginalChain.DogInscriptionTool.CalculateFee | packages/coin-bitcoin/src/doginals.ts:319-338 | inputs less outputs of the commit, and the recorded values of the reveals |
| DoginalChain.RevealPays | packages/coin-bitcoin/src/doginals.ts:202-288 | spending its predecessor's first two outputs, every reveal but the first pays exactly its estimate; the first pays `revealOutValue` more |
| DoginalChain.ChainConserves | packages/coin-bitcoin/src/doginals.ts:202-288 | over commit and reveals the fees are the inputs less the change and one `revealOutValue` |
| DoginalChain.Inscribe | packages/coin-bitcoin/src/doginals.ts:178-338 | every accepted request builds a chain that conserves amounts, in which every transaction first pays `revealOutValue` and then the rounded-down fees of all later reveals; refusal exactly when both estimates are missed; the commit fee is negative exactly when `revealOutValue` is above the estimate, with change, or above what is left beside the total, without |
| DoginalChain.CommitCovered | packages/coin-bitcoin/src/doginals.ts:251-288 | the commit of such a request spends no more than its inputs exactly when that output is covered |
| DoginalChain.Overspent | packages/coin-bitcoin/src/doginals.ts:251-288 | a request with ordinary sizes and rates that is accepted and whose commit spends more than its inputs |
| Amounts.Fee | packages/coin-bitcoin/src/doginals.ts:226 | the fee is the floor of size times rate |
| Amounts.FeeMono | packages/coin-bitcoin/src/doginals.ts:226 | fees grow with the size |
| Src20.ScheduledPermutes | packages/coin-bitcoin/src/src20.ts:249-257 | the state stays a permutation of 0..255 through the key schedule |
| Src20.RunningPermutes | packages/coin-bitcoin/src/src20.ts:258-267 | and while bytes are produced |
| Src20.Schedule | packages/coin-bitcoin/src/src20.ts:249-257 | the in-place loop reaches the state after 256 steps, which `Src20.ScheduleIs` identifies |
| Src20.Rc4 | packages/coin-bitcoin/src/src20.ts:244-269 | the bytes come out of a run of the cipher: a history of states from `s[i] == i` on, 256 exchanges of the key schedule, then one exchange and one key byte per byte of output |
| Src20.CipheredExactly | packages/coin-bitcoin/src/src20.ts:244-269 | exactly one byte string comes out of such a run |
| Src20.ScheduleIs | packages/coin-bitcoin/src/src20.ts:249-257 | every history of the key schedule passes through the specified states |
| Src20.ScheduleExists | packages/coin-bitcoin/src/src20.ts:249-257 | and those states are one |
| Src20.Involution | packages/coin-bitcoin/src/src20.ts:244-269 | applying `rc4` twice with one non-empty key is the identity on byte strings |
| Src20Payload.Pack | packages/coin-bitcoin/src/src20.ts:74-89 | length, prefix, body without trailing zeros, and zeros up to a multiple of 62 |
| Src20Payload.CutOutputs | packages/coin-bitcoin/src/src20.ts:97-118 | halves of 31 bytes, padded, in outputs of two |
| Src20Payload.CarriedOutputs | packages/coin-bitcoin/src/src20.ts:97-118 | every output has two keys of 33 bytes, marked 3 and 2 in front and ending in 0; joining their halves gives the bytes that were cut |
| Src20Payload.ReadMessage | packages/coin-bitcoin/src/src20.ts:74-89 | reading the length field recovers prefix and body if and only if they are shorter than 65536 bytes together |
| Src20Payload.Build | packages/coin-bitcoin/src/src20.ts:73-118 | the whole way: joining, decrypting and reading recovers prefix and body without trailing zeros, exactly below 65536 bytes |
| RuneVarints.EncodeLEB128 | packages/coin-bitcoin/src/runestones.ts:37-54 | the LEB128 encoding |
| RuneVarints.EncodeEnds | packages/coin-bitcoin/src/runestones.ts:37-54 | its loop reaches zero after some number of rounds if and only if the number is not negative |
| RuneVarints.EncodeToVecV2 | packages/coin-bitcoin/src/rune.ts:56-63 | the same bytes; one byte for a negative number |
| RuneVarints.DecodeLEB128 | packages/coin-bitcoin/src/runestones.ts:56-89 | number and length of the first group of at most 19 bytes below 2^128, or the error that applies |
| RuneVarints.LebRoundTrip | packages/coin-bitcoin/src/runestones.ts:37-89 | below 2^128 a number comes back whatever follows; the others raise an error |
| Leb128.EncodePayload | packages/coin-bitcoin/src/runestones.ts:37-89 | a group without padding is the encoding of its number, so no number has two |
| RuneVarints.EncodeToVec | packages/coin-bitcoin/src/rune.ts:36-49 | appends the prefix varint, or what the 19-element array holds of a longer one |
| RuneVarints.Decode | packages/coin-bitcoin/src/rune.ts:65-84 | the number read so far plus the byte that ends it, or the exception at the end of the buffer |
| RuneVarints.DecodePrefix | packages/coin-bitcoin/src/rune.ts:36-84 | decoding undoes encoding, whatever follows |
| RuneVarints.PrefixUnique | packages/coin-bitcoin/src/rune.ts:36-84 | every byte string that decodes is the encoding of its number: no number has two |
| RuneVarints.PrefixLength | packages/coin-bitcoin/src/rune.ts:36-49 | at most k bytes exactly below 128 + ... + 128^k |
| RuneVarints.PrefixRoundTrip | packages/coin-bitcoin/src/rune.ts:36-84 | what was appended reads back if and only if 0 <= n < 128 + ... + 128^19; no other number is read as itself |
| RuneNames.Base26Encode | packages/coin-bitcoin/src/runestones.ts:4-19 | the number of the name in bijective base 26 |
| RuneNames.Base26Decode | packages/coin-bitcoin/src/runestones.ts:21-34 | the name with that number, the hard-coded case included |
| RuneNames.LargestName | packages/coin-bitcoin/src/runestones.ts:21-24 | the hard-coded name is the name of 2^128 - 1 |
| RuneNames.NamesAndNumbers | packages/coin-bitcoin/src/runestones.ts:4-34 | names and numbers correspond one to one, both ways |
| RuneNames.ApplySpacers | packages/coin-bitcoin/src/runestones.ts:91-109 | a spacer after every letter whose bit is set, for every number; the shift makes a signed 32-bit word of it |
| RuneNames.GetSpacersVal | packages/coin-bitcoin/src/runestones.ts:111-122 | the sum of the spacers' bits as 32-bit shifts compute them |
| RuneNames.SpacersSplit | packages/coin-bitcoin/src/runestones.ts:111-122 | which is the sum of one bit per spacer, less 2^31 for each spacer after a multiple of 32 letters |
| RuneNames.SpacersRoundTrip | packages/coin-bitcoin/src/runestones.ts:91-126 | the letters always come back, and the mask does if and only if it has at most 31 bits and every set bit has a letter |
| RuneEdicts.SortStable | packages/coin-bitcoin/src/rune.ts:98 | sorted by id, and edicts with one id keep their order |
| RuneEdicts.StableUnique | packages/coin-bitcoin/src/rune.ts:98 | only one list is so |
| RuneEdicts.BuildRuneData | packages/coin-bitcoin/src/rune.ts:87-107 | sorts the list in place and writes ids as distances from the one before |
| RuneEdicts.EdictsRoundTrip | packages/coin-bitcoin/src/rune.ts:87-107 | running-sum decoding recovers the sorted list if and only if all distances, amounts and outputs can be written |
| RuneEdicts.InRangeCarried | packages/coin-bitcoin/src/rune.ts:87-107 | in particular for every list of numbers from 0 to below 128 + ... + 128^19 |
| RuneEtching.CheckEtching | packages/coin-bitcoin/src/runesMain.ts:261-308 | accepts exactly the etchings whose whole supply fits in 128 bits and whose checked fields are in range |
| RuneEtching.Flags | packages/coin-bitcoin/src/runesMain.ts:545-556 | bit 0 always, bit 1 with terms, bit 2 with turbo |
| RuneEtching.BuildMessage | packages/coin-bitcoin/src/runesMain.ts:543-623 | the map holds the specified tags in order, none twice; `RuneReader.FieldsRead` says what they mean |
| RuneEtching.ToBuffer | packages/coin-bitcoin/src/runesMain.ts:529-541 | tag byte and LEB128 number, pair by pair |
| RuneEtching.MessageRoundTrip | packages/coin-bitcoin/src/runestones.ts:37-89 | reading recovers the pairs in order if every number is below 2^128, and otherwise raises an error |
| RuneEtching.CheckedFits | packages/coin-bitcoin/src/runesMain.ts:261-308 | for a checked etching all numbers are below 2^128 if and only if those are that the check leaves open |
| RuneEtching.EtchingRoundTrip | packages/coin-bitcoin/src/runesMain.ts:529-623 | so the message of a checked etching is recovered exactly then |
| RuneEtching.FiniteExactly | packages/coin-bitcoin/src/runesMain.ts:529-623 | for every checked etching no number of the message is negative, so that encoding ends, exactly when no open number is, the mask of the name included |
| RuneEtching.NameShort | packages/coin-bitcoin/src/runestones.ts:4-19 | a name of a 128-bit number has at most 28 letters |
| RuneEtching.NameFits | packages/coin-bitcoin/src/runesMain.ts:294-304 | a checked name of letters leaves open only pointer, offsets, given spacers, and 2^31 per leading spacer against the bits of the others |
| RuneEtching.LeadingSpacer | packages/coin-bitcoin/src/runestones.ts:111-122 | for a checked name of letters the message is finished exactly if pointer, offsets and given spacers are not negative and, without given spacers, 2^31 per leading spacer is at most the sum of the other bits |
| RuneEtching.DeploymentRead | packages/coin-bitcoin/src/runesMain.ts:503-527 | the message comes back out of its script, up to 4 GiB |
| RuneEtching.BuildRuneMainDeployData | packages/coin-bitcoin/src/runesMain.ts:503-527 | OP_RETURN, OP_13 and one push of the message, or the exception |
| RuneEtching.EtchingRecovered | packages/coin-bitcoin/src/runesMain.ts:503-623 | from a checked etching to its script and back |
| RuneReader.FieldsRead | packages/coin-bitcoin/src/runesMain.ts:543-623 | reading the pairs by the tag numbers and flag positions of runestones.ts gives flags, rune number, divisibility, spacers, first unit of the symbol, premine, every term, and the pointer of the etching |
| RuneReader.OnlyThese | packages/coin-bitcoin/src/runesMain.ts:543-623 | no other tag occurs, and none occurs twice |
| RuneReader.EtchingRead | packages/coin-bitcoin/src/runesMain.ts:503-623 | every checked etching whose open numbers fit has a script, and reading the script gives the whole etching and the pointer |
| RuneReader.DeployRead | packages/coin-bitcoin/src/runesMain.ts:503-527 | so `buildRuneMainDeployData` never throws on it, and its script reads as that etching |
| RuneReader.NameShown | packages/coin-bitcoin/src/runestones.ts:4-126 | a name of letters with single spacers between them is shown as it was given, by number and mask of the etching |
| Inscribe.InscriptionTool.BuildEmptyRevealTx | packages/coin-bitcoin/src/inscribe.ts:115-152 | every reveal leaves `revealOutValue` and spends that plus its fee; the total is the sum of what they spend |
| Inscribe.InscriptionTool.BuildCommitTx | packages/coin-bitcoin/src/inscribe.ts:154-195 | an output for each reveal, then change or none, or insufficient funds |
| Inscribe.InscriptionTool.CompleteRevealTx | packages/coin-bitcoin/src/inscribe.ts:201-220 | records what every reveal spends; stops at the first one above the standard weight |
| Inscribe.InscriptionTool.CalculateFee | packages/coin-bitcoin/src/inscribe.ts:222-242 | inputs less outputs; a reveal without a record has no number |
| Inscribe.InscribeRequest | packages/coin-bitcoin/src/inscribe.ts:352-370 | the outcome: built, too heavy, quoted, or an empty transaction when the quoted fee is not positive |
| Inscribe.InscribeForMPCUnsigned | packages/coin-bitcoin/src/inscribe.ts:372-482 | the second computation: built, or the exception |
| Inscribe.Conserves | packages/coin-bitcoin/src/inscribe.ts:115-242 | inputs are reveal outputs, reveal fees, change and commit fee; the fee is exactly the estimate with change, and without at least the smaller estimate and below estimate plus `minChangeValue`; each reveal pays its estimate |
| Inscribe.InsufficientExactly | packages/coin-bitcoin/src/inscribe.ts:154-195 | funds are insufficient if and only if they do not cover the reveals and the commit without change |
| Inscribe.AgreeExactly | packages/coin-bitcoin/src/inscribe.ts:352-482 | both computations agree if and only if no reveal to be built is too heavy and a refusal quotes at least 1 |
| Inscribe.HollowAnswer | packages/coin-bitcoin/src/inscribe.ts:352-370 | a request without funds that is answered with an empty commit transaction |

## Left out

General:

- Signing, hashing, key derivation, taproot, addresses and script hashes: library cryptography. The hash of a key or
  script and the check of a signature are arbitrary functions; sizes and weights of transactions are parameters.
- JavaScript numbers are modelled as integers, so nothing is said about numbers beyond 2^53 in size, except where the
  model proves that they do not occur (`CosmosDecimal.UInt64ToString`). Fee rates are reals.
- `bitcoinjs-lib`, PSBT, and all coins not named above.

EOS:

- Types with dates, floats, strings (`TextEncoder`), symbols, assets and keys as ABI primitives: platform conversions,
  or easy combinations of what is modelled.
- `serializePair` and `serializeObject`, and resolving type names to types (`getType`, `getTypesFromAbi`); a tree of
  types is taken as given, so cyclic types are not covered.
- Numeric strings and other values that JavaScript coerces to a number for the small integer types, arrays given as
  strings, `number[]` for `bytes`, and properties inherited from a prototype. The 64-bit and 128-bit types take any
  value through its string, so that `[]` is written as 0; the model refuses everything but strings and numbers.
- EosSerialBuffer.SerialBuffer.GetUint8Array: returns a copy; the view of the source shares the array with the buffer.
- EosBignum.BinaryToDecimal: the digits are kept as numbers until the end instead of character codes; so in
  `EosBase58.BinaryToBase58`.
- EosAsset.GetAssetString: symbol names are read one character per byte, which is UTF-8 for ASCII only.
- Private keys and base 64.

Protobuf:

- CosmosDecimal.Int64FromString: strings with characters that are not digits (`Number` gives NaN on them).
- `float` and `double` (they throw), the `type` field, `varint32write`, and the slabs of `pool`: an output is a fresh
  array.
- CosmosWriter.BinaryWriter.Ldelim: lengths count modulo 2^32, as the source has it; nothing is said about reading
  back blocks of 4 GiB.
- CosmosReader.BinaryReader.Fixed32: NaN is `None`.

Runes:

- `buildRuneMainMintData` and `buildRuneMainMintOp`: the distance of ids becomes negative when the block changes.
- RuneEdicts.BuildRuneData: amounts given as strings, and the OP_RETURN script around the payload. The library's sort
  is modelled by the one list that a stable sort can give.
- RuneVarints.EncodeLEB128: numbers are not negative; on a negative one the loop of the source never ends. The bigint
  masks are written as arithmetic, also in the other bigint codecs.
- The commitment of a rune name, but for its test that a name consists of letters (`RuneEtching.NameFits`).

Inscriptions:

- DoginalChain.Inscribe: the answer of `dogInscribe` when funds are insufficient and the estimate is zero; the same
  case is proved for `inscribe`.
- Doginals.CreateScripts: a method must end, so it takes the lists on which the loop ends, or throws at its first lock;
  for an inscription these are all inputs on which the source does not run forever (`DoginalScripts.LoopEnds`).
- RuneEtching.ToBuffer: likewise takes only messages without a negative number (`RuneVarints.EncodeEnds`); so does
  RuneEtching.BuildRuneMainDeployData.
- EosSerialBuffer.SerialBuffer.Reserve: likewise leaves out an empty array that has to grow
  (`EosSerialBuffer.GrowReaches`).
- Src20Payload.Build: the amounts, the change and the signatures of an SRC-20 transaction, and bytes printed as
  hexadecimal between the steps.
- The inscription script of a Bitcoin inscription, its signatures, and `inscribeForMPCSigned`.

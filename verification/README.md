# Aptos transaction-builder helpers in Dafny

This project models three helpers from the Aptos TypeScript SDK's transaction builder:

- `parseTypeTag` reads a Move type signature (`bool`, `u8`, `u64`, `u128`, `address`, `vector<T>`, `ADDR::Module::Name<T, ...>`) into a `TypeTag` tree.
- `serializeArg` walks a runtime value and a type tag together and produces the value's BCS bytes. BCS is the canonical binary encoding of Move.
- `argToTransactionArgument` makes the same type-directed dispatch but builds a tagged `TransactionArgument`.

The behaviour of these helpers is fixed by the test file `builder_utils.test.ts`. Every tested call is a lemma here. Each helper is also related to an independent definition by a lemma over all inputs:

- the parser to the printer `Format` (a round trip);
- the encoder to the acceptance predicate `Conforms` and to the decoder `DecodeArg` (a round trip);
- the converter to the encoder.

Modules, one concept each:

| file | module | contents |
|---|---|---|
| results.dfy | `Results` | the error kinds and their messages; `Result`/`Option` |
| bytes.dfy | `Bytes` | bytes, little-endian integers, ULEB128 (section 7.6 of the DWARF 4 standard) |
| seqs.dfy | `Seqs` | small sequence regrouping facts |
| text.dfy | `Text` | white-space trimming, `::` search, bracket-depth walking, top-level comma search |
| account_address.dfy | `AccountAddresses` | 16-byte addresses, hex parsing with left zero-padding, printing |
| type_tag.dfy | `TypeTags` | the `TypeTag` datatype, Move identifiers, the canonical printer |
| type_tag_parser.dfy | `TypeTagParser` | the parser and one lemma per production |
| type_tag_round_trip.dfy | `TypeTagRoundTrip` | parsing the printed form of any well-formed tag gives the tag back |
| type_tag_examples.dfy | `TypeTagExamples` | the tested signatures |
| serialize_arg.dfy | `Values`, `ArgEncoder` | runtime values, the encoder, its acceptance predicate, the decoder |
| transaction_argument.dfy | `TransactionArguments` | the tagged argument union and the converter |
| argument_examples.dfy | `ArgumentExamples` | the tested encodings and conversions |

The model is built from `builder_utils.test.ts`, the test file of `builder_utils.ts`; the implementation file itself is not part of this model. Where the tests are silent, the model makes a choice of its own. Each such choice is listed under "## Left out".

## Model

| member | source | states |
|---|---|---|
| TypeTagParser.ParseTypeTag | ecosystem/typescript/sdk/src/transaction_builder/builder_utils.test.ts:75-85 | every signature the parser accepts gives a well-formed tag, and every rejection is the "Invalid struct tag string literal." error |
| TypeTagExamples.ParseBool | ecosystem/typescript/sdk/src/transaction_builder/builder_utils.test.ts:22-24 | `bool` parses to the Bool leaf |
| TypeTagExamples.ParseU8 | ecosystem/typescript/sdk/src/transaction_builder/builder_utils.test.ts:26-28 | `u8` parses to the U8 leaf |
| TypeTagExamples.ParseU64 | ecosystem/typescript/sdk/src/transaction_builder/builder_utils.test.ts:30-32 | `u64` parses to the U64 leaf |
| TypeTagExamples.ParseU128 | ecosystem/typescript/sdk/src/transaction_builder/builder_utils.test.ts:34-36 | `u128` parses to the U128 leaf |
| TypeTagExamples.ParseAddressKeyword | ecosystem/typescript/sdk/src/transaction_builder/builder_utils.test.ts:38-40 | `address` parses to the Address leaf |
| TypeTagExamples.ParseVectorAddress | ecosystem/typescript/sdk/src/transaction_builder/builder_utils.test.ts:42-45 | `vector<address>` parses to a vector whose element is Address |
| TypeTagExamples.ParseSpacedVector | ecosystem/typescript/sdk/src/transaction_builder/builder_utils.test.ts:47-49 | ` vector < u64 > ` parses to a vector whose element is U64 |
| TypeTagParser.ParseIgnoresPadding | ecosystem/typescript/sdk/src/transaction_builder/builder_utils.test.ts:47-49 | for every signature, white space before and after it leaves the parse result unchanged |
| TypeTagParser.ParseVectorText | ecosystem/typescript/sdk/src/transaction_builder/builder_utils.test.ts:42-50 | `vector`, any spaces, then `<inner>` parses exactly when `inner` parses, and then to the vector of inner's tag |
| TypeTagParser.ParseStructHead | ecosystem/typescript/sdk/src/transaction_builder/builder_utils.test.ts:52-64 | a signature beginning `address::module::` is parsed as its name part (the text after the second `::`) under that address and module, so any success is a struct of them; the head is read from the first two `::` only |
| TypeTagParser.ParseNamedPlain | ecosystem/typescript/sdk/src/transaction_builder/builder_utils.test.ts:58-60 | a name with no `<` gives a struct with that trimmed name and no type arguments |
| TypeTagParser.ParsePlainStruct | ecosystem/typescript/sdk/src/transaction_builder/builder_utils.test.ts:58-60 | `address::module::Name` parses to the struct with that address, module and name and no type arguments |
| TypeTagExamples.ParseCoin | ecosystem/typescript/sdk/src/transaction_builder/builder_utils.test.ts:58-60 | `0x1::TestCoin::Coin` is the struct at address 0x1, module TestCoin, name Coin |
| TypeTagParser.ParseNamedGeneric | ecosystem/typescript/sdk/src/transaction_builder/builder_utils.test.ts:62-73 | `Name<list>` with balanced brackets parses exactly when the list parses, and its type arguments are the list's tags |
| TypeTagParser.ParseArgListSingle | ecosystem/typescript/sdk/src/transaction_builder/builder_utils.test.ts:62-73 | a list with no unmatched `>` and no comma at bracket depth 0 (every comma lies inside an inner `<…>`) parses exactly when its one signature does, to the one-element list of it |
| TypeTagParser.ParseArgListCons | ecosystem/typescript/sdk/src/transaction_builder/builder_utils.test.ts:62-73 | a list splits at its first comma at bracket depth 0: when `x` is a balanced run holding no such comma, `x,y` parses exactly when `x` and the list `y` both parse, to `x`'s tag followed by `y`'s tags, in input order |
| Text.CommaIndexFirst | ecosystem/typescript/sdk/src/transaction_builder/builder_utils.test.ts:62-73 | the comma scanner that splits a type-argument list stops at the comma after `x` whenever `x` is balanced and has no comma at bracket depth 0, so commas inside an inner `<…>` never split the list |
| TypeTagExamples.ParseCoinStore | ecosystem/typescript/sdk/src/transaction_builder/builder_utils.test.ts:62-73 | the spaced generic CoinStore signature is the CoinStore struct at 0x1 in module Coin, with exactly the two TestCoin structs as type arguments, in input order |
| TypeTagParser.ParseMissingSeparator | ecosystem/typescript/sdk/src/transaction_builder/builder_utils.test.ts:75-77 | a trimmed `a::m` whose address part `a` starts with a hex digit, and in which neither `a` nor `m` holds a colon, fails with the struct-tag error: there is no second `::` before a name |
| TypeTagExamples.ParseMissingSeparatorExample | ecosystem/typescript/sdk/src/transaction_builder/builder_utils.test.ts:75-77 | `0x1::TestCoin` fails with the struct-tag error |
| TypeTagParser.ParseNamedUnclosed | ecosystem/typescript/sdk/src/transaction_builder/builder_utils.test.ts:79-81 | a `<` after the name that is never closed makes the signature fail |
| TypeTagExamples.ParseUnclosedExample | ecosystem/typescript/sdk/src/transaction_builder/builder_utils.test.ts:79-81 | the unclosed CoinStore signature fails with the struct-tag error |
| TypeTagExamples.ParseMissingInnerExample | ecosystem/typescript/sdk/src/transaction_builder/builder_utils.test.ts:83-85 | a type argument missing its own second `::` makes the whole signature fail with the struct-tag error |
| TypeTagParser.ParseUnknownWord | ecosystem/typescript/sdk/src/transaction_builder/builder_utils.test.ts:75-85 | a trimmed signature that is no keyword, does not begin with `vector` and has no two adjacent colons anywhere is refused with the struct-tag error |
| TypeTagExamples.ParseUnknownWordExamples | ecosystem/typescript/sdk/src/transaction_builder/builder_utils.test.ts:75-85 | the Move types `u16`, `u32` and `signer`, which the parser does not know, are refused with the struct-tag error |
| TypeTagParser.ParseBalanced | ecosystem/typescript/sdk/src/transaction_builder/builder_utils.test.ts:62-81 | every signature the parser accepts, trimmed or not, has balanced angle brackets: no `>` without an open `<`, and no `<` left open |
| TypeTagRoundTrip.FormatRoundTrip | ecosystem/typescript/sdk/src/transaction_builder/builder_utils.test.ts:42-73 | for every well-formed tag, including nested vectors and generic structs, parsing its canonical signature gives the tag back |
| AccountAddresses.ParseAddress | ecosystem/typescript/sdk/src/transaction_builder/builder_utils.test.ts:133-146 | a string is accepted exactly when it has 1 to 32 hex digits after an optional `0x`; the 16 bytes denote the digits' number; otherwise the error is "Invalid account address." |
| AccountAddresses.FormatAddressRoundTrip | ecosystem/typescript/sdk/src/transaction_builder/builder_utils.test.ts:136-140 | parsing the full-width hex form of any address gives the address back |
| AccountAddresses.SameAddressIffSameNumber | ecosystem/typescript/sdk/src/transaction_builder/builder_utils.test.ts:133-140 | two hex strings denote the same address exactly when their digits denote the same number, so a short form equals its zero-padded form |
| AccountAddresses.ParseAddressDigit | ecosystem/typescript/sdk/src/transaction_builder/builder_utils.test.ts:199-204 | a one-digit address `0xc` is fifteen zero bytes followed by the digit's value |
| TypeTagExamples.ParseOne | ecosystem/typescript/sdk/src/transaction_builder/builder_utils.test.ts:139 | `0x1` denotes fifteen zero bytes and then 1 |
| ArgumentExamples.ParseTwo | ecosystem/typescript/sdk/src/transaction_builder/builder_utils.test.ts:203 | `0x2` denotes fifteen zero bytes and then 2 |
| Bytes.LittleEndianRoundTrip | ecosystem/typescript/sdk/src/transaction_builder/builder_utils.test.ts:98-131 | any integer below 256^width is written in exactly width bytes, least significant first, and reads back as itself |
| Bytes.FromLittleEndianRoundTrip | ecosystem/typescript/sdk/src/transaction_builder/builder_utils.test.ts:98-131 | rewriting the number a byte run denotes, at the run's width, gives the run back |
| Bytes.LittleEndianAllOnes | ecosystem/typescript/sdk/src/transaction_builder/builder_utils.test.ts:109-131 | the largest integer of a width is written as that many 0xff bytes |
| Bytes.Uleb128 | ecosystem/typescript/sdk/src/transaction_builder/builder_utils.test.ts:148-151 | a length prefix is at least one byte; it is one byte exactly when the length is below 128; only its last byte has the high bit clear |
| Bytes.Uleb128RoundTrip | ecosystem/typescript/sdk/src/transaction_builder/builder_utils.test.ts:148-151 | the length prefix decodes back to the length whatever follows it, consuming exactly its own bytes |
| Bytes.DecodeUleb128RoundTrip | ecosystem/typescript/sdk/src/transaction_builder/builder_utils.test.ts:148-151 | whatever the prefix decoder reads is the canonical prefix of the number it returns |
| Results.MessagesDistinct | ecosystem/typescript/sdk/src/transaction_builder/builder_utils.test.ts:143-164 | different error kinds carry different messages |
| ArgEncoder.SerializeArg | ecosystem/typescript/sdk/src/transaction_builder/builder_utils.test.ts:88-165 | bool gives one byte; integers give their width; addresses give 16 bytes; scalar mismatches give "Invalid arg"; address mismatches give "Invalid account address."; a non-array under a vector gives "Invalid vector args."; an unrecognised tag gives "Unsupported arg type."; no other error arises |
| ArgEncoder.SerializeInteger | ecosystem/typescript/sdk/src/transaction_builder/builder_utils.test.ts:98-131 | an integer tag accepts exactly the integers in its range; the bytes have the tag's width and denote the integer little-endian; anything else is "Invalid arg" |
| ArgEncoder.SerializeArgAccepts | ecosystem/typescript/sdk/src/transaction_builder/builder_utils.test.ts:88-165 | the encoder succeeds exactly on the values the independent acceptance predicate `Conforms` admits, at every tag including nested vectors |
| ArgEncoder.SerializeItemsAccepts | ecosystem/typescript/sdk/src/transaction_builder/builder_utils.test.ts:148-157 | an array's items encode exactly when every item is accepted at the element tag |
| ArgEncoder.ByteArrayLikeArray | ecosystem/typescript/sdk/src/transaction_builder/builder_utils.test.ts:148-151 | raw bytes under `vector<u8>` encode exactly like the array of the integers they hold |
| ArgEncoder.DecodeSerializeArg | ecosystem/typescript/sdk/src/transaction_builder/builder_utils.test.ts:88-157 | for every accepted value and tag, decoding its bytes followed by anything gives back the value's canonical form and consumes exactly the encoded bytes |
| ArgumentExamples.SerializeBool | ecosystem/typescript/sdk/src/transaction_builder/builder_utils.test.ts:88-96 | `true` under bool is `[0x01]`; `123` under bool is "Invalid arg" |
| ArgumentExamples.SerializeU8 | ecosystem/typescript/sdk/src/transaction_builder/builder_utils.test.ts:98-107 | `255` under u8 is `[0xff]`; the string `u8` is "Invalid arg" |
| ArgumentExamples.SerializeU64 | ecosystem/typescript/sdk/src/transaction_builder/builder_utils.test.ts:109-118 | 2^64-1 under u64 is eight 0xff bytes; the string `u64` is "Invalid arg" |
| ArgumentExamples.SerializeU128 | ecosystem/typescript/sdk/src/transaction_builder/builder_utils.test.ts:120-131 | 2^128-1 under u128 is sixteen 0xff bytes; the string `u128` is "Invalid arg" |
| ArgumentExamples.SerializeAddress | ecosystem/typescript/sdk/src/transaction_builder/builder_utils.test.ts:133-146 | `"0x1"` and the address value 0x1 both encode as the 16 bytes of 0x1; `123456` is "Invalid account address." |
| ArgumentExamples.SerializeAddressForms | ecosystem/typescript/sdk/src/transaction_builder/builder_utils.test.ts:133-140 | every hex string encodes exactly as the address value it denotes |
| ArgumentExamples.SerializeVector | ecosystem/typescript/sdk/src/transaction_builder/builder_utils.test.ts:148-157 | `[255]` under `vector<u8>` is `[0x01, 0xff]`; `123456` is "Invalid vector args." |
| ArgumentExamples.SerializeUnrecognised | ecosystem/typescript/sdk/src/transaction_builder/builder_utils.test.ts:159-165 | a tag with no encoding rule gives "Unsupported arg type." |
| TransactionArguments.ArgToTransactionArgument | ecosystem/typescript/sdk/src/transaction_builder/builder_utils.test.ts:167-228 | the variant always matches the tag; scalar mismatches give "Invalid arg"; address mismatches give "Invalid account address."; `vector<u8>` succeeds exactly on raw bytes and otherwise gives the Uint8Array error; other vectors and unrecognised tags give "Unknown type for TransactionArgument." |
| TransactionArguments.ConvertValueOf | ecosystem/typescript/sdk/src/transaction_builder/builder_utils.test.ts:167-221 | converting the value an argument carries, at the argument's own tag, gives that argument back |
| TransactionArguments.ValueOfConverted | ecosystem/typescript/sdk/src/transaction_builder/builder_utils.test.ts:167-221 | a converted argument carries the value it came from; a hex string is carried as the address it denotes |
| TransactionArguments.ConvertMirrorsEncoder | ecosystem/typescript/sdk/src/transaction_builder/builder_utils.test.ts:167-209 | on bool, integer and address tags the converter accepts exactly what the encoder accepts, with the same error |
| TransactionArguments.ConvertedBytes | ecosystem/typescript/sdk/src/transaction_builder/builder_utils.test.ts:167-221 | whatever the converter accepts, the encoder accepts too, and the argument's payload bytes are the encoder's bytes |
| TransactionArguments.NonByteVectorAsymmetry | ecosystem/typescript/sdk/src/transaction_builder/builder_utils.test.ts:223-228 | a vector of any element other than u8 is encodable but has no tagged variant |
| TransactionArguments.ByteVectorAsymmetry | ecosystem/typescript/sdk/src/transaction_builder/builder_utils.test.ts:211-221 | an array of byte integers under `vector<u8>` encodes like raw bytes but is refused by the converter |
| ArgumentExamples.ConvertBool | ecosystem/typescript/sdk/src/transaction_builder/builder_utils.test.ts:167-173 | `true` under bool gives the Bool argument `true`; `123` is "Invalid arg" |
| ArgumentExamples.ConvertU8 | ecosystem/typescript/sdk/src/transaction_builder/builder_utils.test.ts:175-181 | `123` under u8 gives the U8 argument 123; the string `u8` under bool is "Invalid arg" |
| ArgumentExamples.ConvertU64 | ecosystem/typescript/sdk/src/transaction_builder/builder_utils.test.ts:183-189 | `123` under u64 gives the U64 argument 123; the string `u64` is "Invalid arg" |
| ArgumentExamples.ConvertU128 | ecosystem/typescript/sdk/src/transaction_builder/builder_utils.test.ts:191-197 | `123` under u128 gives the U128 argument 123; the string `u128` is "Invalid arg" |
| ArgumentExamples.ConvertAddress | ecosystem/typescript/sdk/src/transaction_builder/builder_utils.test.ts:199-209 | `"0x1"` gives the Address argument 0x1; the address value 0x2 gives the Address argument 0x2; `123456` is "Invalid account address." |
| ArgumentExamples.ConvertVector | ecosystem/typescript/sdk/src/transaction_builder/builder_utils.test.ts:211-221 | the raw bytes `[0x1]` under `vector<u8>` give the U8Vector argument `[0x1]`; `123456` gives the Uint8Array error |
| ArgumentExamples.ConvertUnrecognised | ecosystem/typescript/sdk/src/transaction_builder/builder_utils.test.ts:223-228 | a tag with no variant gives "Unknown type for TransactionArgument." |

## Left out

- `builder_utils.ts`, the implementation itself, is not part of this model. The helpers are rebuilt from their tested behaviour. Where the tests are silent, the model makes its own choices, each listed below.
- The `Serializer` class is not modelled. Its append-to-a-buffer interface is replaced by functions that return the bytes. A call that throws part-way through a vector has already appended some bytes to the caller's serializer; the model returns only the error.
- Bytes.Uleb128: the SDK writes vector lengths as a u32 in ULEB128. The model takes any natural number, because arrays longer than 2^32 cannot arise.
- Values.Value: JavaScript `number` and `bigint` are both `Integer`, unbounded. Dynamic typing becomes a closed datatype of six kinds.
- ArgEncoder.SerializeInteger: an integer outside the tag's range, including a negative one, is rejected with "Invalid arg". The tests only exercise in-range integers.
- TransactionArguments.ArgToTransactionArgument: an integer outside the tag's range (below 0, or at least 2^8, 2^64 or 2^128 for u8, u64 and u128) is rejected with "Invalid arg", the same range check `SerializeInteger` makes. The tests only convert the in-range `123`, so this is the model's choice.
- ArgEncoder.SerializeArg: a string under `vector<u8>` is rejected with "Invalid vector args."; it is not encoded as UTF-8 bytes. Only arrays and raw bytes are accepted under a vector tag.
- ArgEncoder.SerializeArg: the tests pass the non-tag `"unknown_type"`. A tag outside the grammar cannot be written as a `TypeTag` value, so the struct tag stands for it. The raw encoder has no rule for struct tags.
- Results.Message: the thrown message for a non-`Uint8Array` under `vector<u8>` begins with the offending value. The model keeps only the fixed suffix. Likewise "Invalid arg" omits the value and type the source appends.
- `HexString.toShortString` and other hex pretty-printing are not modelled. Addresses are compared as 16-byte values; `FormatAddress` prints the full-width form used by the printer.
- TypeTagParser.ParseTypeTag: Move identifiers are taken as a letter or underscore followed by letters, digits and underscores. Address strings take 1 to 32 hex digits after an optional `0x`. The tests fix neither rule beyond the cases they use.
- TypeTagParser.ParseTypeTag: what an accepted signature looks like is stated through `ParseBalanced` (its angle brackets balance) and `ParseUnknownWord` (a word that is no keyword, no vector and holds no `::` is refused). The model does not prove that an accepted signature is the printed form of its tag up to white space. That is false as stated: `0x1` and `0x01` are two spellings of one address.
- AccountAddresses.ParseAddress: accepts only 1 to 32 hex digits after an optional `0x`. It rejects `""`, `"0x"`, non-hex characters and more than 32 digits. The only address strings in the tests are `0x1` and `0x2`; `123456` there is a number, not a string. The rest is the model's choice.
- The Jest test runner, asynchronous test wrappers and `instanceof` checks are not modelled. Tags and arguments are compared structurally.

# Bencode decoder model

This project models the recursive-descent bencode decoder in `src/parser/parser.rs` and proves properties of it. Bencode is the serialisation defined in the "bencoding" section of BEP 3, the BitTorrent protocol specification.

In the decoder, every helper takes the remaining input. It returns the decoded value together with what is left of the input. The first character picks the helper:
- a digit means a string `<length>:<text>`;
- `i` means an integer `i<n>e`;
- `l` means a list `l...e`;
- `d` means a dictionary `d...e`.

The list and dictionary helpers loop over the remainder and call back into the dispatch. The top level returns the first value.

The model is split into these modules:

- `Wrappers`: `Option`. `None` stands for any panic of the source: an `unwrap()` on a missing `find` or a failed `parse`, a slice out of range, or the `panic!` in the dispatch.
- `Text`: `Find` models `str::find` on a character. `IsProperSuffix` describes the remainder a step hands back.
- `Numerals`: `ParseI64` models Rust's `str::parse::<i64>` exactly:
  - an optional single `+` or `-`, then one or more ASCII digits;
  - the value must lie in the 64-bit signed range;
  - leading zeros, `-0` and `+3` are accepted.

  Also here: canonical decimal rendering, which the lemmas use to build inputs.
- `Values`: the value tree, in place of `serde_json::Value`: `Int`, `Str`, `List` and `Dict` (a `map` from string to value).
- `Decoder`: the decoder as pure, mutually recursive functions. `ListItems` says what the list loop computes. `DictEntries` says what the dictionary loop computes.
- `Parser`: the decoder in the source's own imperative form:
  - the list and dictionary helpers are `while` loops that reassign `remaining` and grow `result`;
  - they recurse through the dispatch method;
  - each method is proved to compute the `Decoder` function of the same name.
- `DecoderProperties`: the behaviour of the decoder as lemmas:
  - progress;
  - the integer and string rules, in both directions;
  - the error cases and dispatch;
  - lists and dictionaries built from self-delimiting pieces;
  - the source's quirks.
- `ParserTests`: the unit tests of `src/parser/parser.rs` as lemmas about concrete inputs, plus concrete instances of the quirks.

The model reproduces the source's quirks and does not fix them:
- A dictionary never consumes its closing `e`, and it always hands back an empty remainder.
- So a list that contains a dictionary fails.
- So a dictionary whose value is a dictionary ends the outer dictionary, and any later pairs are dropped.
- A dictionary that runs out of input before its `e` is still accepted.
- Dictionary keys are read with the string rule directly, not through the dispatch. So a key such as `-0:` or `+3:foo` is accepted, although neither is a value on its own.
- A repeated key overwrites the earlier value.
- Integers and string lengths accept whatever Rust's `i64` parser accepts.
- The top level ignores trailing data.

The bencoding section of BEP 3 forbids leading zeros and `i-0e`, and it requires dictionary keys in sorted order. The source checks none of these, and the model follows the source.

## Model

| member | source | states |
|---|---|---|
| Text.Find | src/parser/parser.rs:5 | `None` exactly when the character does not occur; otherwise the index of its first occurrence |
| Numerals.ParseI64 | src/parser/parser.rs:7 | a successful parse has a non-empty input and a value in the i64 range |
| Numerals.ParseSigned | src/parser/parser.rs:7 | a digit string, unsigned or after `-`, parses to its decimal value, or fails when that value is outside the i64 range |
| Numerals.ParseIntToString | src/parser/parser.rs:7 | every i64, written in decimal, parses back to itself |
| Numerals.ParseI64Accepts | src/parser/parser.rs:7 | conversely, a successful parse has an optional single `+` or `-` followed by one or more ASCII digits, and its value is their magnitude, negated after a `-`; any other input fails |
| Numerals.ParseLeadingZero | src/parser/parser.rs:7 | a leading `0` does not change what a digit string parses to, so non-canonical integers are accepted |
| Numerals.ParsePlusSign | src/parser/parser.rs:7 | a leading `+` does not change what a digit string parses to |
| Numerals.ParseRejectsOverflow | src/parser/parser.rs:7 | a digit string whose value is outside the i64 range, with any sign, fails to parse |
| Decoder.DecodeNumber | src/parser/parser.rs:3-9 | success yields an `Int` in the i64 range; the input has an `e`; the remainder is shorter |
| Decoder.DecodeString | src/parser/parser.rs:11-18 | success yields a `Str`; the input has a `:`; the remainder is shorter |
| Decoder.DecodeVal | src/parser/parser.rs:46-54 | success needs a non-empty input and yields a shorter remainder; a digit gives a `Str`, `i` an `Int`, `l` a `List`, `d` a `Dict` with an empty remainder |
| Decoder.DecodeList | src/parser/parser.rs:20-30 | success yields a `List` and a shorter remainder |
| Decoder.ListItems | src/parser/parser.rs:21-28 | the list loop hands back a remainder shorter than its input |
| Decoder.DecodeDict | src/parser/parser.rs:32-44 | success yields a `Dict` and always the empty remainder |
| Decoder.DictEntries | src/parser/parser.rs:36-41 | no contract of its own: the dictionary loop is characterised by `DecoderProperties.DictEntriesKeyStep`, `DecoderProperties.DictEntriesStep` and `DecoderProperties.DictEntriesOfPairs` |
| Decoder.DecodeValue | src/parser/parser.rs:56-59 | success needs a non-empty input, and the first character decides the kind of value: a digit gives a `Str`, `i` an `Int`, `l` a `List`, `d` a `Dict` |
| Parser.DecodeVal | src/parser/parser.rs:46-54 | the dispatch method returns exactly what `Decoder.DecodeVal` defines; it repeats the function's branches so that the loop methods can recurse through it, and carries no proof work of its own |
| Parser.DecodeList | src/parser/parser.rs:20-30 | the `while` loop that pushes onto `result` returns exactly `Decoder.DecodeList`, including both failure paths |
| Parser.DecodeDict | src/parser/parser.rs:32-44 | the `while` loop that inserts into `result` returns exactly `Decoder.DecodeDict`, including both failure paths |
| Parser.DecodeValue | src/parser/parser.rs:56-59 | the top-level method returns exactly `Decoder.DecodeValue`; like `Parser.DecodeVal` it only mirrors the function, and the proof work in `Parser` lies in `DecodeList` and `DecodeDict` |
| DecoderProperties.NumberProgress | src/parser/parser.rs:8 | a successful integer decode leaves a strictly shorter suffix of its input |
| DecoderProperties.StringProgress | src/parser/parser.rs:17 | a successful string decode leaves a strictly shorter suffix of its input |
| DecoderProperties.ValProgress | src/parser/parser.rs:46-54 | any successful decode leaves a strictly shorter suffix of its input |
| DecoderProperties.ListProgress | src/parser/parser.rs:20-30 | a successful list decode leaves a strictly shorter suffix of its input |
| DecoderProperties.ItemsProgress | src/parser/parser.rs:23-28 | the list loop leaves a strictly shorter suffix of its input |
| DecoderProperties.DecodeIntLiteral | src/parser/parser.rs:3-9 | `i<body>e<rest>`, where `body` has no `e` and parses as i64 `n`, decodes to `Int(n)` with remainder `rest` |
| DecoderProperties.NumberLiteral | src/parser/parser.rs:3-9 | the integer rule itself, on `i<body>e<rest>` with no `e` in `body`, gives the i64 that `body` parses as and resumes at `rest` |
| DecoderProperties.DecodeIntIsLiteral | src/parser/parser.rs:3-9 | conversely, a successful decode of an input starting with `i` is an `Int` whose body up to the first `e` parses to it; the remainder is what follows that `e` |
| DecoderProperties.DecodeIntUnterminated | src/parser/parser.rs:5 | an integer with no `e` fails |
| DecoderProperties.DecodeIntBadNumeral | src/parser/parser.rs:6-7 | an integer whose body does not parse as i64 fails |
| DecoderProperties.IntDecodes | src/parser/parser.rs:3-9 | every i64 in canonical form decodes to itself, whatever follows it |
| DecoderProperties.DecodeStringLiteral | src/parser/parser.rs:11-18 | `<d>:<w><rest>`, where `d` has no colon and parses as the length of `w`, gives `Str(w)` with remainder `rest` |
| DecoderProperties.DecodeStrLiteral | src/parser/parser.rs:11-18 | the same through the dispatch, when the length starts with a digit |
| DecoderProperties.StringIsLiteral | src/parser/parser.rs:11-18 | conversely, a successful string decode has the form `<d>:<w><rest>`: `d` has no colon and parses as the length of `w` |
| DecoderProperties.DecodeStrIsLiteral | src/parser/parser.rs:11-18 | the same converse through the dispatch, for inputs starting with a digit |
| DecoderProperties.DecodeStrNoColon | src/parser/parser.rs:13 | a string with no `:` fails |
| DecoderProperties.DecodeStrBadLength | src/parser/parser.rs:14-15 | a string whose length does not parse as i64 fails |
| DecoderProperties.DecodeStrTooShort | src/parser/parser.rs:16 | a string whose declared length exceeds the text after the colon fails |
| DecoderProperties.StringLiteralDecodes | src/parser/parser.rs:11-18 | the string rule, given a canonical `<len>:<w>` and any text after it, yields `w` and exactly that text |
| DecoderProperties.StringDecodes | src/parser/parser.rs:11-18 | a canonical string encoding decodes to its text, whatever follows it |
| DecoderProperties.DecodeUnknownMarker | src/parser/parser.rs:47-53 | empty input, or a first character other than a digit, `i`, `l` or `d`, fails |
| DecoderProperties.DecodesStartsWithMarker | src/parser/parser.rs:46-54 | an encoding that decodes whatever follows it is non-empty, does not start with `e` and is not a dictionary |
| DecoderProperties.ListItemsOfPieces | src/parser/parser.rs:23-27 | the list loop decodes the elements in wire order, each from the previous element's remainder |
| DecoderProperties.ListItemsAtEnd | src/parser/parser.rs:23-28 | at an `e` the list loop stops and consumes the `e` |
| DecoderProperties.ListOfItems | src/parser/parser.rs:20-30 | a list whose loop yields `vs` followed by the closing `e` decodes to `List(vs)`, resuming after the `e` |
| DecoderProperties.ListLiteral | src/parser/parser.rs:20-30 | `l<e1>...<en>e<rest>` decodes to the list of the elements with remainder `rest` |
| DecoderProperties.ListDecodes | src/parser/parser.rs:20-30 | a list of self-delimiting elements is self-delimiting |
| DecoderProperties.EmptyListDecodes | src/parser/parser.rs:20-30 | `le` decodes to the empty list, whatever follows it |
| DecoderProperties.ListUnterminated | src/parser/parser.rs:23-28 | a list whose input runs out before its `e` fails |
| DecoderProperties.ListItemsAtDict | src/parser/parser.rs:23-28 | after a dictionary element the list loop has nothing left and fails |
| DecoderProperties.ListWithoutItems | src/parser/parser.rs:20-30 | when the list loop fails, the list fails |
| DecoderProperties.ListWithDictFails | src/parser/parser.rs:23-28 | a list that reaches a dictionary element fails |
| DecoderProperties.InsertedLastWins | src/parser/parser.rs:39 | inserting pairs in order binds exactly the given keys, each to the value of its last occurrence |
| DecoderProperties.InsertedSnoc | src/parser/parser.rs:39 | inserting one more pair at the end overwrites that key |
| DecoderProperties.DictEntriesKeyStep | src/parser/parser.rs:36-40 | one loop step reads any key text the string rule accepts, including ones not starting with a digit, then the value with the general rule, and inserts the pair in front of what the rest of the loop makes |
| DecoderProperties.DictEntriesStep | src/parser/parser.rs:36-40 | the same step for a canonical key `<len>:<k>` |
| DecoderProperties.DictEntriesOfPairs | src/parser/parser.rs:36-41 | the dictionary loop over a sequence of pairs inserts them in order |
| DecoderProperties.DictDecodes | src/parser/parser.rs:32-44 | `d<pairs>e<rest>` decodes to the pairs inserted in order, with the empty remainder |
| DecoderProperties.EmptyDictDecodes | src/parser/parser.rs:32-44 | `de` decodes to the empty map with the empty remainder, whatever follows |
| DecoderProperties.DictUnterminatedAccepted | src/parser/parser.rs:36-43 | a dictionary whose input ends before its `e` is still accepted |
| DecoderProperties.DictValueIsDict | src/parser/parser.rs:37-40 | a pair whose value is a dictionary ends the dictionary loop after that pair |
| DecoderProperties.NestedDictEndsOuter | src/parser/parser.rs:36-43 | a dictionary value ends the outer dictionary, and whatever followed it is dropped |
| DecoderProperties.DecodeValueIgnoresTrailing | src/parser/parser.rs:56-59 | the top level returns the first value and ignores any trailing text |
| ParserTests.TestDecodeInt | src/parser/parser.rs:67-69 | `i3e` decodes to 3 |
| ParserTests.TestDecodeNegativeInt | src/parser/parser.rs:72-74 | `i-3e` decodes to -3 |
| ParserTests.TestDecodeString | src/parser/parser.rs:77-79 | `5:hello` decodes to `"hello"` |
| ParserTests.TestDecodeList | src/parser/parser.rs:82-84 | `l5:helloi52ee` decodes to `["hello", 52]` |
| ParserTests.TestDecodeEmptyList | src/parser/parser.rs:87-89 | `le` decodes to `[]` |
| ParserTests.TestDecodeSimpleDict | src/parser/parser.rs:92-94 | `d3:foo3:bar5:helloi52ee` decodes to `{"foo": "bar", "hello": 52}` |
| ParserTests.TestDecodeEmptyDict | src/parser/parser.rs:97-99 | `de` decodes to `{}` |
| ParserTests.TestDecodeNestedDict | src/parser/parser.rs:102-110 | the nested test input decodes to the nested dictionary the test expects |
| ParserTests.LeadingZeroAccepted | src/parser/parser.rs:7 | `i03e` decodes to 3 |
| ParserTests.NegativeZeroAccepted | src/parser/parser.rs:7 | `i-0e` decodes to 0 |
| ParserTests.PlusSignAccepted | src/parser/parser.rs:7 | `i+3e` decodes to 3 |
| ParserTests.BadIntegers | src/parser/parser.rs:5-7 | `ie`, `i3` and `i-e` fail |
| ParserTests.BadStrings | src/parser/parser.rs:13-16 | `5:hi` and `5hello` fail |
| ParserTests.UnknownMarkers | src/parser/parser.rs:52 | the empty input, `x`, `-3:abc` and `e` fail |
| ParserTests.TrailingDataIgnored | src/parser/parser.rs:57 | `i3eabc` decodes to 3 |
| ParserTests.ListOfDictFails | src/parser/parser.rs:28 | `ld1:ai1eee` fails |
| ParserTests.DictAfterNestedDictDropped | src/parser/parser.rs:36-43 | `d1:ad1:bi1ee1:ci2ee` decodes to `{"a": {"b": 1}}`; the pair `c` is lost |
| ParserTests.OpenDictAccepted | src/parser/parser.rs:36 | `d3:foo3:bar` decodes to `{"foo": "bar"}` |
| ParserTests.DuplicateKeyLastWins | src/parser/parser.rs:39 | `d3:foo3:bar3:fooi1ee` decodes to `{"foo": 1}` |
| ParserTests.NonCanonicalKeyAccepted | src/parser/parser.rs:37 | `d-0:i1ee` decodes to `{"": 1}`, while `-0:` alone fails |
| ParserTests.NonStringKeyFails | src/parser/parser.rs:37 | `di1e0:e` fails, because a key must be a string |

## Left out

- `src/main.rs` is not part of this model. It holds argument handling, file reading, printing, the `serde` projection onto the torrent schema, re-encoding with `serde_bencode`, SHA-1 hashing, and calls into a `bencode::decoder` module whose source is not available. All of this is I/O or foreign code.
- The source has no encoder. `EncodeString` and `EncodeInt` in `DecoderProperties` are reference definitions of canonical encodings, used only to state lemmas. Canonical-form checks are not modelled either: rejecting leading zeros or `-0`, and checking for duplicate or unsorted keys. The source performs none of them.
- The input is a sequence of single-byte characters. The panics that byte-index slicing of a `&str` raises at a UTF-8 character boundary are not modelled.
- `serde_json` internals are abstracted to `Values.Value`. That covers JSON rendering, and the key order of `serde_json::Map`, which depends on crate features. A dictionary is a Dafny `map`, which has no order.
- Every panic becomes `None`. The panic message text and the distinction between panic sites are not kept.
- `usize` is taken to be 64 bits wide, so `colon_index + 1 + number` cannot overflow for an i64 length. A negative length is a failure: cast to `usize`, it either overflows or gives an inverted slice, and both panic.
- Numerals.ParseI64: the contract states only the range of a result. Which inputs succeed, and with what value, is stated by `Numerals.ParseI64Accepts`. The forms that succeed are stated by `Numerals.ParseSigned`, `Numerals.ParseIntToString`, `Numerals.ParseLeadingZero` and `Numerals.ParsePlusSign`. `Numerals.ParseRejectsOverflow` states which of them fail for range.
- DecoderProperties.DictEntriesOfPairs, DecoderProperties.DictDecodes: stated for canonical keys `<len>:<k>` only. Other key texts that the string rule accepts are covered one step at a time by `DecoderProperties.DictEntriesKeyStep`, and by the instance `ParserTests.NonCanonicalKeyAccepted`.
- Recursion depth is not modelled. The source recurses once per level of nesting, so a deeply nested input such as a long run of `l` overflows the Rust stack and aborts the process. The model decodes any depth.
- Decoder.DecodeList, Decoder.ListItems, Decoder.DecodeNumber, Decoder.DecodeString: the contracts state only that the remainder is shorter. That it is a suffix of the input is stated separately by the `DecoderProperties.*Progress` lemmas.

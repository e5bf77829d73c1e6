# A verified model of a partial bencode byte-string reader

This project models, in Dafny, the reading logic of a small BitTorrent
exercise program written in Rust. Bencode (BEP 3, "Bencoding") writes a
byte string as `<length>:<bytes>`, for example `5:hello`. The program only
goes as far as that byte-string form. It reads it in two ways:

- `decode_bencoded_value` requires a leading digit, finds the first `:`,
  parses the text before it as an `i64`, and returns that many bytes after
  the colon. Every failure is a panic.
- `bencode::Data::from_str` splits the text on every `:`, insists on exactly
  two pieces, parses the first as a `usize` length, and keeps the whole
  second piece as the content. Failures are `std::io::Error`s with
  `InvalidData` and a message.

It also has two smaller pieces:

- `bencode::IntegerFieldKey::from_str`, a validator for a `key:value` pair,
  whose branches make it impossible for it to succeed.
- The `Display` implementation of `bencode::ErrorKind`.

The model works on ASCII text, where a byte offset and a character
position coincide. Inputs are `string`s and results are explicit datatypes:

- `Outcomes.Result` stands for Rust's `Result`.
- `Failures.Panicking` separates a value that is returned from a panic.
- `Failures.Panic` records the reason for a panic: an `unwrap` on `None`, an
  `unwrap` on a failed integer parse, a slice past the end, or the explicit
  `panic!`.

The standard-library behaviour the program depends on is modelled as well:

- `str::find` and `str::split` with a `char` pattern (`RustStr`).
- `Iterator::next` and `Iterator::nth` on the split iterator (`Iteration`), so
  that two `nth(0)` calls in a row are seen to move forward.
- `str::parse` for `i32`, `i64` and `usize` (`RustNum`). This is Rust's
  `from_str_radix`: an optional sign, a lone sign rejected, `-` accepted
  only for signed types, leading zeros accepted, and each character checked
  to be a digit before the overflow check for that step.
- The `as usize` cast of an `i64`.

Each modelled operation is paired with an independent description and a
proof connecting the two:

- `ParseInt`, which walks the digits, is proved equal to `ParseIntSpec`,
  which reads off the leading digit run.
- `DecodeBencodedValue` is proved to return exactly on the inputs that
  satisfy `WellFormed`, and then to return `Content`. Both are defined
  without `find` or `parse`.
- `Split` is proved to be undone by `Join`.
- The count that `Display` prints is proved to read back as the same count.

Bencode as a format also has integers, lists and dictionaries with sorted
keys, and a full codec would have an encoder and round-trip laws. This
program implements none of that, and the model follows the program.

## Model

| member | source | states |
|---|---|---|
| `Iteration.NthItem` | src/main.rs:58-59 | `nth(n)`, defined by skipping `n` items with `next`, returns the item `n` places ahead and leaves the iterator just past it; with no such item it returns `None` and leaves the iterator exhausted |
| `Iteration.NthZeroTwice` | src/main.rs:110-112 | two `nth(0)` calls in a row on a fresh split iterator give the first piece and then the second, each `None` when there are not that many pieces |
| `Decimal.DecimalString` | src/main.rs:136 | the count in a message is printed as a non-empty run of digits with no leading zero, whose decimal value is the count |
| `RustStr.Find` | src/main.rs:153 | `find(':')` gives the position of a colon with no colon before it, and `None` exactly when the text has no colon |
| `RustStr.FindAfterPrefix` | src/main.rs:153 | `find(':')` on text whose first `:` follows a colon-free stretch gives the length of that stretch |
| `RustStr.Split` | src/main.rs:108-109 | the split count is the number of `:` in the text plus one, and no piece contains a `:` |
| `RustStr.JoinSplit` | src/main.rs:108 | splitting loses nothing: joining the pieces with `:` gives back the input |
| `RustStr.SplitWithoutSeparator` | src/main.rs:57-59 | text with no `:` splits into a single piece, itself |
| `RustStr.SplitAtFirst` | src/main.rs:108 | the text before the first `:` is the first piece, and the rest of the text is split on its own |
| `RustStr.SplitPiecesFromInput` | src/main.rs:57-59 | every character of every piece occurs in the input |
| `RustNum.I64AsUsize` | src/main.rs:156 | `number as usize` is the identity on non-negative values, and sends every negative value above `i64::MAX` |
| `RustNum.ErrorMessage` | src/main.rs:124 | the text of `ParseIntError`'s `to_string()` for each error kind; that these texts never collide with the two unreachable messages is stated by `Bencode.ParseMessageIsOwn` |
| `RustNum.ParseInt` | src/main.rs:155 | a successful parse lies within the target type's range |
| `RustNum.AccumulateReadsDigitRun` | src/main.rs:155 | from any point of the digit loop, the result is the one the reference reading gives for the digits read so far followed by the rest |
| `RustNum.ParseIntMatchesSpec` | src/main.rs:155 | on every input, the digit-by-digit parse equals the reference reading: empty text gives `Empty`, a digit run out of range gives an overflow, a non-digit after the run gives `InvalidDigit`, otherwise the signed value |
| `RustNum.ParseDigits` | src/main.rs:110 | a non-empty string of digits parses to its decimal value when that value fits the type, and gives `PosOverflow` otherwise |
| `RustNum.ParseUnsignedText` | src/main.rs:155 | text that starts with a digit parses to the value of its leading digits, unless they overflow, or a non-digit follows them |
| `RustNum.ParseIntOk` | src/main.rs:61 | a successful parse read an optional sign and then only digits, at least one, and its result is their signed value |
| `RustNum.ParseIntNeedsDigit` | src/main.rs:61 | text without any digit never parses as an integer |
| `Bencode.Display` | src/main.rs:22-29 | the `Display` of `ErrorKind`; its behaviour is stated by `DisplayReadBack`, `DisplayInjectiveWithinCase` and `DisplayAmbiguousAcrossCases` |
| `Bencode.DisplayReadBack` | src/main.rs:22-29 | every displayed error starts with `bencode error `; a `Parse` message follows verbatim; a `SplitCount` message reads `expected 2 elements, got ` followed by digits with no leading zero (`0` for zero) whose value is the count |
| `Bencode.DisplayInjectiveWithinCase` | src/main.rs:24-28 | two errors of the same case display alike exactly when they are equal |
| `Bencode.DisplayAmbiguousAcrossCases` | src/main.rs:24-28 | a `Parse` error whose message reads like the split-count complaint displays exactly like that `SplitCount` error |
| `Bencode.IntegerFieldKeyFromStr` | src/main.rs:53-65 | `IntegerFieldKey::from_str`; its behaviour on every ASCII input is stated by `IntegerFieldKeyNeverOk` |
| `Bencode.IntegerFieldKeyNeverOk` | src/main.rs:53-65 | `from_str` never yields a key. Text with a digit gives `InvalidInput`. Digit-free text without `:` gives `InvalidData`. Digit-free text with `:` panics in `unwrap`, with `Empty` as the cause when the value piece is empty and `InvalidDigit` otherwise |
| `Bencode.DataFromStr` | src/main.rs:107-141 | `Data::from_str`; its behaviour is stated by `DataFromStrOkIff`, `DataFromStrOneColon`, `DataFromStrSplitCount` and `DataFromStrDeadBranches` |
| `Bencode.DataFromStrOneColon` | src/main.rs:110-127 | with exactly one `:`, a length that parses gives `Data` with that length and the whole text after the colon as `Str`; a length that does not parse gives an `InvalidData` error carrying the parse error's message |
| `Bencode.DataFromStrSplitCount` | src/main.rs:135-139 | with any number of `:` other than one, the result is an `InvalidData` error `expected splitcount 2, got k`, where k is the number of colons plus one |
| `Bencode.DataFromStrOkIff` | src/main.rs:107-116 | `from_str` succeeds if and only if there is exactly one `:` and the text before it parses as a `usize`; the length is then that number and the content is everything after the colon |
| `Bencode.DataFromStrKeepsMismatchedLength` | src/main.rs:113-116 | the length is not checked against the content: `3:hello` gives length 3 with content `hello` |
| `Bencode.SplitCountMessageIsOwn` | src/main.rs:135-136 | the split-count message differs from `failed to get content` and from `coulndt parse length value`, whatever the count |
| `Bencode.ParseMessageIsOwn` | src/main.rs:123-124 | no `ParseIntError` text equals `failed to get content` or `coulndt parse length value` |
| `Bencode.DataFromStrDeadBranches` | src/main.rs:117-133 | every error has kind `InvalidData`, and the messages `failed to get content` and `coulndt parse length value` are never produced |
| `Decoder.DecodeBencodedValue` | src/main.rs:149-161 | `decode_bencoded_value`; its behaviour is stated by `DecodeMatchesReference` and the `DecodeRejects` lemmas |
| `Decoder.LengthPrefixParse` | src/main.rs:153-155 | for text that starts with a digit and holds a colon: the first colon is at or after the end of the leading digits, and it is right there exactly when the next character is `:`; the prefix then parses as the leading digits predict |
| `Decoder.DecodeMatchesReference` | src/main.rs:149-161 | the decoder returns if and only if the input is a digit run followed directly by `:`, with a value that fits an `i64` and is at most the number of characters after the colon; it then returns exactly that many characters after the colon |
| `Decoder.DecodeRejectsShape` | src/main.rs:151-159 | empty text panics in `unwrap` on `None`; a non-digit first character hits the `Unhandled encoded value` panic; a digit first but no colon panics in `unwrap` on `None` |
| `Decoder.DecodeRejectsOverflow` | src/main.rs:155 | when the text starts with a digit and holds a `:`, leading digits too large for an `i64` panic with a `PosOverflow` cause, whatever follows them |
| `Decoder.DecodeRejectsNonDigitLength` | src/main.rs:153-155 | when the leading digits fit an `i64`, a non-digit between them and the first colon panics with an `InvalidDigit` cause |
| `Decoder.DecodeRejectsTruncated` | src/main.rs:156 | fewer characters after the colon than declared makes the slice panic, with end at colon + 1 + length |
| `Decoder.DecodeLengthPrefixed` | src/main.rs:150-157 | for digits `d`, a colon, and a rest holding at least `N` characters (N the value of `d`, which fits an `i64`), the result is the first `N` characters of the rest, colons included |
| `Decoder.WindowDecides` | src/main.rs:153-156 | any text that agrees with an accepted input on its window (first colon index + 1 + N characters) is accepted too, with the same window and the same content |
| `Decoder.DecodeIgnoresTrailing` | src/main.rs:156 | appending any text to an accepted input leaves the result unchanged |
| `Decoder.DecodeReadsOnlyWindow` | src/main.rs:153-156 | for an accepted input, the result depends only on the first colon index + 1 + N characters |
| `Decoder.DecodeEndFitsUsize` | src/main.rs:156 | for text of at most `isize::MAX` bytes with a parsed length, the length is non-negative, the `as usize` cast keeps it, and the slice end fits a `usize` |
| `Decoder.DecodeHelloExample` | src/main.rs:152 | `5:hello` decodes to `hello` |
| `Decoder.DecodeTruncatedExample` | src/main.rs:156 | `4:abc` panics on the slice ending at 6 of a 5-character text |
| `Decoder.DataFromStrAgreesWithDecoder` | src/main.rs:110-116 | on text with one `:` that the decoder accepts, `Data::from_str` succeeds; its length is the length of the decoder's result, and its content begins with that result |

## Left out

- `log` (src/main.rs:8-13) writes to standard output, which is I/O.
- `main` (src/main.rs:164-182) is command-line dispatch and the process exit status.
- `serde_json::Value` is an external library. `decode_bencoded_value` is modelled as returning the string it would wrap.
- The generic `Kind::Arr` and `Kind::Dic` cases are left out: their iterator and closure parameters are never instantiated. The same holds for the `FieldKey`, `FieldValue` and `ArrayFieldKey` traits and for `StringFieldKey`, which have no behaviour. `Kind` keeps `Str` and `Int`.
- The derived `Debug`, `Clone`, `PartialEq` and `PartialOrd` of `ErrorKind` are not modelled, and neither is its empty `std::error::Error` impl.
- `Decoder.DecodeBencodedValue` and `Bencode.IntegerFieldKeyFromStr` require ASCII input. On other text, byte offsets differ from character positions, a slice can panic off a character boundary, and `char::is_numeric` accepts non-ASCII numerals. `Data::from_str` is modelled on any text.
- Panic messages are not modelled as text. A panic is modelled by its reason.
- `usize` is taken to be 64 bits wide.
- Integer, list and dictionary values, key ordering, nesting limits, an encoder and round-trip laws are not in the code, so they are not modelled.
- RustNum.I64AsUsize: for a negative `i64` the contract says only that the result lands above `i64::MAX`, not the exact offset of 2^64. The decoder never casts a negative value, because its length prefix starts with a digit (`Decoder.DecodeEndFitsUsize`).

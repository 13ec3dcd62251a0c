# matasano core in Dafny

This is a model of the non-I/O, non-floating-point core of the Rust crate `matasano`, a set of cryptopals solutions. It has three parts:

- `ByteString` (`bytestring.dfy`) is the hex and Base64 codec of `rust/src/bytestring.rs`:
  - the four character tables;
  - `nibbles_to_byte`;
  - `from_hex`, `to_hex`, `from_base64` and `to_base64`.

  A `ByteString` only wraps a `Vec<u8>`, so the model works on `seq<byte>`. Here `byte` is `bv8`, so that `<<`, `>>`, `&` and `^` behave as on `u8`. Strings are `seq<char>`. Decoding errors are a typed `DecodeError`, and `Message` gives the `String` the source returns for each.
  - `from_hex`, `to_hex` and `to_base64` are `chunks`/`map`/`collect`/`join` pipelines. Each becomes a recursion that takes a chunk at a time.
  - `from_base64` folds over 4-symbol chunks and pushes into a mutable vector. It is a method: `FromBase64` filters and checks, and the loop of `FoldSextets` appends each chunk's bytes. `FoldSextets` is proved equal to the function `DecodeSextets`, and `FromBase64` to the function `Base64Decode`.
- `Languages` (`languages.dfy`) is the byte-frequency histogram of `rust/src/languages.rs`:
  - `Frequencies` and `Frequencies::from_bytes`;
  - the integer part of `Frequencies::compare`;
  - `Language::compare`;
  - the `ENGLISH_UTF8` table.

  `FromBytes` is a method that fills a local 256-entry `u32` array in a loop. Each bucket is proved to hold the number of occurrences of its byte value. `u32` and `u64` are newtypes, so every operation that could overflow in the source carries a proof obligation. The overflow bounds are stated as preconditions: `Countable` for the counting loop and `ProductsFit` for the products in `compare`. `compare` divides and sums in `f32`; the model does the same over exact reals, and `None` stands for the division by a zero denominator.
- `Crypt` (`crypt.dfy`) is the repeating-key XOR of `rust/src/crypt.rs`:
  - `XorEncryptWith` models `zip` with a cycled key. Output stops when either side ends, and an empty key gives an empty output.
  - `XorDecryptWith` is the same function.

`Base64Layout` (`base64layout.dfy`) states the bit layout of the Base64 closures of `rust/src/bytestring.rs` against plain big-endian readings of a group's sextets and a chunk's bytes: what `to_base64` writes for a chunk, what `from_base64` writes for a group, and when decoding a group and encoding it again gives the group back.

`Prelude` (`prelude.dfy`) holds the shared types: `byte`, `u32`, `u64`, `Option` and `Result`.

In these places the code behaves differently from what a reader might expect, and the model follows the code:
- `from_base64` drops `=` anywhere in the input, not only at the end.
- Encryption with an empty key returns an empty vector; it is not an error.
- Comparing against an empty histogram is a silent `f32` division by zero, not a typed error; it is `None` in the model.
- `from_base64` does not check the unused low bits of a final 2- or 3-symbol group (`b >> 4` and `c >> 2` drop them), so `QR==` and `QQ==` both decode to `[0x41]`.
- Errors are plain strings; the model keeps them typed and gives their text through `Message`.

## Model

| member | source | states |
|---|---|---|
| ByteString.Message | rust/src/bytestring.rs:86-118 | the error text is non-empty, and for a bad character it ends with that character |
| ByteString.HexcharToNibble | rust/src/bytestring.rs:6-15 | succeeds exactly on `0-9a-fA-F`, in either case, with the digit's value (below 16); otherwise the error is the character itself |
| ByteString.Base64charToSextet | rust/src/bytestring.rs:17-37 | succeeds exactly on the RFC 4648 standard alphabet with the symbol's index (below 64); otherwise, `=` included, the error is the character itself |
| ByteString.NibbleToHexchar | rust/src/bytestring.rs:39-43 | succeeds exactly for values below 16, giving the upper-case digit of that value; otherwise the error is the value |
| ByteString.NibbleToBase64char | rust/src/bytestring.rs:45-51 | succeeds exactly for values below 64, giving the alphabet symbol with that index; otherwise the error is the value |
| ByteString.Base64CharsAt | rust/src/bytestring.rs:46-48 | position `k` of the three-piece alphabet string is the symbol whose index is `k` |
| ByteString.NibblesToByte | rust/src/bytestring.rs:53-59 | a pair of nibbles packs high nibble first, so both can be read back; a lone nibble gives `None`; the empty chunk that would panic is excluded by the precondition |
| ByteString.HexNibbles | rust/src/bytestring.rs:82-84 | collecting succeeds exactly when every character is a hex digit, with one nibble per character |
| ByteString.PackNibbles | rust/src/bytestring.rs:91-93 | `Some` exactly for an even count, with half as many bytes, byte `k` being `(n[2k] << 4) ^ n[2k+1]` |
| ByteString.FromHex | rust/src/bytestring.rs:81-99 | `Ok` exactly for an even run of hex digits; the odd-length error exactly when all are digits but the count is odd; no other error than these two |
| ByteString.FromHexFirstInvalid | rust/src/bytestring.rs:82-89 | the first character outside `0-9a-fA-F` is the error, before the length is looked at |
| ByteString.HexNibblesAt | rust/src/bytestring.rs:82-84 | nibble `i` of a successful collect is the value of character `i` |
| ByteString.PackedNibbleValue | rust/src/bytestring.rs:55 | `(hi << 4) ^ lo` on two nibbles is `16·hi + lo` |
| ByteString.FromHexDecodes | rust/src/bytestring.rs:90-96 | an even run of digits decodes to half as many bytes, byte `k` being 16 times the value of digit `2k` plus the value of digit `2k+1` |
| ByteString.HexPair | rust/src/bytestring.rs:149-151 | two upper-case hex digits; both unwraps succeed |
| ByteString.HexPairNibbles | rust/src/bytestring.rs:149-151 | the two digits collect back to the byte's high and low nibbles |
| ByteString.ToHex | rust/src/bytestring.rs:147-153 | output length is twice the input length, and every character is an upper-case hex digit |
| ByteString.HexNibblesAppend | rust/src/bytestring.rs:82-84 | collecting a concatenation gives the concatenated nibbles |
| ByteString.HexNibblesOfToHex | rust/src/bytestring.rs:147-153 | the characters of `to_hex` collect to the nibbles of the input, high first |
| ByteString.NibblePairPacks | rust/src/bytestring.rs:55 | packing the high and low nibble of a byte gives the byte |
| ByteString.PackNibblesOfNibbles | rust/src/bytestring.rs:91-93 | packing the nibbles of a byte string gives that byte string |
| ByteString.HexRoundTrip | rust/src/bytestring.rs:81-153 | `from_hex(to_hex(b)) == Ok(b)` for every byte vector |
| ByteString.NibbleCharCanonical | rust/src/bytestring.rs:6-43 | decoding a digit and encoding its value gives the digit in upper case |
| ByteString.ToHexAt | rust/src/bytestring.rs:147-153 | characters `2k` and `2k+1` of `to_hex` are the pair written for byte `k` |
| ByteString.HexCanonicalPair | rust/src/bytestring.rs:81-153 | each pair of a decoded string re-encodes as that pair in upper case |
| ByteString.HexCanonical | rust/src/bytestring.rs:81-153 | `to_hex(from_hex(s))` is `s` with its letters in upper case |
| ByteString.RemovePadding | rust/src/bytestring.rs:106-108 | the reference for the filter: the input with every `=` removed, no longer than the input |
| ByteString.Base64Sextets | rust/src/bytestring.rs:102-109 | succeeds exactly when every character is in the alphabet or is `=`, with one sextet per non-`=` character; the error is never `=` |
| ByteString.Base64SextetsAt | rust/src/bytestring.rs:102-109 | sextet `k` of a successful collect is the alphabet index of the `k`-th character once every `=` is removed |
| ByteString.DecodeChunk | rust/src/bytestring.rs:122-140 | a group of 2, 3 or 4 sextets yields 1, 2 or 3 bytes; the group of one that would panic is excluded by the precondition |
| ByteString.DecodeSextets | rust/src/bytestring.rs:120-141 | the fold yields `3·(n div 4)` bytes plus 0, 1 or 2 for a remainder of 0, 2 or 3 |
| ByteString.ChunkBounds | rust/src/bytestring.rs:116-120 | with the remainder 1 excluded, every chunk of `chunks(4)` has 2 to 4 sextets and leaves a rest whose remainder is not 1 |
| ByteString.DecodeSextetsSplit | rust/src/bytestring.rs:120-141 | the fold over the rest of the input is the next chunk's bytes followed by the fold over what follows it |
| ByteString.Base64Decode | rust/src/bytestring.rs:101-145 | the bad-character error exactly when a character is neither in the alphabet nor `=`; the dangling error exactly when the symbol count is 1 mod 4; success exactly when every character is a symbol or `=` and the symbol count is not 1 mod 4, with the length formula |
| ByteString.FoldSextets | rust/src/bytestring.rs:120-141 | the loop that pushes each chunk's bytes computes the fold, with its length |
| ByteString.FromBase64 | rust/src/bytestring.rs:101-145 | the method returns exactly `Base64Decode(s)` and the decoded length formula |
| ByteString.EncodeChunk | rust/src/bytestring.rs:156-173 | a chunk becomes four characters; 1 byte ends `==`, 2 bytes end in one `=`, 3 bytes have no padding; the first two are never `=`; the empty chunk that would panic is excluded |
| ByteString.ToBase64 | rust/src/bytestring.rs:155-175 | output length is `4·⌈n/3⌉`, four characters per started chunk |
| ByteString.ToBase64Append | rust/src/bytestring.rs:155-175 | whole chunks followed by a partial chunk encode as the whole chunks' text followed by the partial chunk's group |
| ByteString.ToBase64Unpadded | rust/src/bytestring.rs:167-172 | with a length that is a multiple of three the output has no `=` |
| ByteString.ToBase64Last | rust/src/bytestring.rs:156-174 | otherwise the last two characters are those of the group of the final partial chunk, and no `=` comes before that group |
| ByteString.ToBase64Padding | rust/src/bytestring.rs:155-175 | a final 1-byte chunk ends `==`, a final 2-byte chunk ends in a single `=`, with no remainder there is no `=`, and no `=` is written before the last group |
| ByteString.Base64FirstInvalid | rust/src/bytestring.rs:102-114 | the first character that is neither in the alphabet nor `=` is the error, whatever follows |
| ByteString.PaddingIgnored | rust/src/bytestring.rs:106-108 | removing every `=` beforehand changes neither the sextets nor the decoding: padding is discarded wherever it stands |
| ByteString.SymbolRoundTrip | rust/src/bytestring.rs:17-51 | decoding the symbol written for a value below 64 gives back that value |
| ByteString.SymbolsDecode | rust/src/bytestring.rs:17-51 | a sequence of symbols written for sextets decodes back to those sextets |
| ByteString.EncodeChunkSymbols | rust/src/bytestring.rs:156-173 | each chunk's text is the symbols of its sextets followed by `==`, `=` or nothing |
| ByteString.PaddingSextets | rust/src/bytestring.rs:106-108 | padding alone decodes to no sextets |
| Base64Layout.ChunkWindow | rust/src/bytestring.rs:156-173 | the sextets `to_base64` writes for a chunk are the chunk's bits, high bit of the first byte first, followed by 4, 2 or 0 zero bits, which is the bit layout of RFC 4648, section 4 |
| Base64Layout.DecodeChunkWindow | rust/src/bytestring.rs:122-140 | the bytes `from_base64` writes for a group of 2, 3 or 4 sextets are the group's bits, high bit first, with the 4, 2 or 0 trailing bits short of a whole byte dropped |
| Base64Layout.DecodeChunkCanonical | rust/src/bytestring.rs:122-173 | decoding a group and re-encoding its bytes gives the group back exactly when the dropped trailing bits are zero; a full group of four always comes back |
| ByteString.ChunkSextetsDecode | rust/src/bytestring.rs:122-173 | the decoding closure undoes the bit packing of the encoding closure |
| ByteString.ChunkRoundTrip | rust/src/bytestring.rs:122-173 | the text of a chunk decodes to its sextets, and these to the chunk |
| ByteString.SextetConsAppend | rust/src/bytestring.rs:102-109 | one step of the filter and collect commutes with appending sextets to the rest |
| ByteString.SextetCons | rust/src/bytestring.rs:104-109 | one step of the filter and collect succeeds exactly when the character is a symbol or `=` and the rest succeeds; a symbol's sextet goes in front of the rest, `=` adds nothing, and another character is the error |
| ByteString.Base64SextetsAppend | rust/src/bytestring.rs:102-109 | the sextets of a concatenation are the concatenated sextets |
| ByteString.EncodedSextetsOfToBase64 | rust/src/bytestring.rs:155-175 | the characters of `to_base64` decode to the sextets of every chunk in order |
| ByteString.DecodeEncodedSextets | rust/src/bytestring.rs:120-175 | those sextets are never 1 mod 4 in number and the fold turns them back into the input |
| ByteString.LowBitsGroup | rust/src/bytestring.rs:102-109 | `Q`, a symbol and `==` collect to the sextets 16 and that symbol's value |
| ByteString.LowBitsIgnored | rust/src/bytestring.rs:124-126 | `QR==` and `QQ==` both decode to `[0x41]`: the low bits of the last sextet are discarded unchecked |
| ByteString.Base64RoundTrip | rust/src/bytestring.rs:101-175 | `from_base64(to_base64(b)) == Ok(b)` for every byte vector |
| ByteString.HelloHex | rust/src/bytestring.rs:183-194 | `48 65 6C 6C 6F` encodes as `48656C6C6F`, and that string decodes back |
| ByteString.HelloBase64 | rust/src/bytestring.rs:197-208 | the same bytes encode as `SGVsbG8=`, and that string decodes back |
| Languages.Frequencies | rust/src/languages.rs:30-33 | the histogram of 256 `u32` buckets and the `u64` total (a datatype, so no contract) |
| Languages.FromBytes | rust/src/languages.rs:36-46 | after the loop, bucket `v` is the number of occurrences of `v` and the total is the length; this equals `HistogramOf(bytes)` |
| Languages.CountAppend | rust/src/languages.rs:40-42 | occurrences in a concatenation add up |
| Languages.CountablePrefix | rust/src/languages.rs:40-42 | if the counts of the whole input fit in `u32`, the counts of a prefix do |
| Languages.CountSnoc | rust/src/languages.rs:40-41 | one more byte adds one occurrence of its own value and none of any other |
| Languages.CountableSnoc | rust/src/languages.rs:40-42 | if one byte more can be counted without overflow, so can the input, and that byte's bucket has room for one more |
| Languages.HistogramSnocAt | rust/src/languages.rs:40-41 | one more byte increments its own bucket and leaves every other bucket |
| Languages.HistogramSnoc | rust/src/languages.rs:40-42 | one more byte increments its own bucket, which does not overflow, and leaves the others unchanged |
| Languages.EmptyHistogram | rust/src/languages.rs:37-45 | the total is zero exactly for empty input, and empty input gives all-zero buckets |
| Languages.HistogramSum | rust/src/languages.rs:38-45 | the total equals the sum of the 256 buckets |
| Languages.Max | rust/src/languages.rs:70 | `max`: at least both operands, and one of them |
| Languages.Min | rust/src/languages.rs:70 | `min`: at most both operands, and one of them |
| Languages.Terms | rust/src/languages.rs:63-70 | term `v` is `|total_y·x_v − total_x·y_v|`; `max − min` never underflows |
| Languages.Denominator | rust/src/languages.rs:63-71 | the denominator is zero exactly when either total is zero |
| Languages.Quotients | rust/src/languages.rs:71 | every divided term is non-negative, and zero exactly when its term is |
| Languages.Compare | rust/src/languages.rs:62-73 | `None` (division by zero) exactly when either total is zero |
| Languages.ProductsFitSymmetric | rust/src/languages.rs:66-71 | the products fit in one order of the operands exactly when they fit in the other |
| Languages.TermsSymmetric | rust/src/languages.rs:66-71 | the terms and the denominator do not change when the operands are swapped |
| Languages.TermsSelf | rust/src/languages.rs:66-70 | compared with itself, every term is zero |
| Languages.TermQuotient | rust/src/languages.rs:66-71 | a term divided by the denominator is the difference of the two relative frequencies of that byte |
| Languages.CompareIsDistance | rust/src/languages.rs:62-73 | the exact score is the sum over all byte values of the differences of relative frequencies |
| Languages.CompareNonNegative | rust/src/languages.rs:69-72 | the score is never negative |
| Languages.CompareSymmetric | rust/src/languages.rs:62-73 | `compare(f, g) == compare(g, f)` |
| Languages.CompareZero | rust/src/languages.rs:62-73 | the score is zero exactly when the histograms are proportional (equal relative frequencies for every byte value) |
| Languages.CompareSelf | rust/src/languages.rs:66-72 | a non-empty histogram scores zero against itself |
| Languages.RealSum | rust/src/languages.rs:72 | the fold of `+` from zero: over non-negative terms it is non-negative and at least every term |
| Languages.RealSumZero | rust/src/languages.rs:72 | a fold of non-negative terms is zero exactly when every term is |
| Languages.English | rust/src/languages.rs:9-28 | the 256 buckets of `ENGLISH_UTF8`, one row of 16 per source line, and the total 2190181928 (a constant, so no contract) |
| Languages.EnglishTotal | rust/src/languages.rs:9-28 | the stated total 2190181928 of `ENGLISH_UTF8` is the sum of its 256 buckets |
| Languages.Language | rust/src/languages.rs:95-98 | the single variant `EnglishUtf8` (a datatype, so no contract) |
| Languages.LanguageFrequencies | rust/src/languages.rs:101-105 | the table of every language has a non-zero total that is the sum of its buckets |
| Languages.ProductsFitWithin | rust/src/languages.rs:107-109 | against such a table, the products of `compare` fit whenever the product of the two totals fits |
| Languages.LanguageCompare | rust/src/languages.rs:107-109 | the method returns `compare(table, from_bytes(bytes))`, and `None` exactly for empty input |
| Crypt.XorFrom | rust/src/crypt.rs:15-18 | output length is that of the data, or zero for an empty key |
| Crypt.XorEncryptWith | rust/src/crypt.rs:14-19 | output length is `|data|` for a non-empty key and zero for an empty one |
| Crypt.XorFromAt | rust/src/crypt.rs:15-18 | output byte `i` is data byte `i` XOR the key byte `i` places further round the cycle |
| Crypt.XorElementwise | rust/src/crypt.rs:15-18 | with a non-empty key the output has length `|data|`, and byte `i` is `data[i] ^ key[i mod |key|]` |
| Crypt.XorEmptyKey | rust/src/crypt.rs:15-18 | an empty key gives an empty output |
| Crypt.XorDecryptWith | rust/src/crypt.rs:6-8 | with a non-empty key, encrypting the result gives back the data; with an empty key the result is empty |
| Crypt.XorInvolution | rust/src/crypt.rs:14-19 | encrypting twice with the same non-empty key restores the data |
| Crypt.XorLongKey | rust/src/crypt.rs:15-18 | a key at least as long as the data acts as its first `|data|` bytes |
| Crypt.XorEqualLength | rust/tests/s1/mod.rs:65-71 | with a key of the data's length, byte `i` is `data[i] ^ key[i]`, and data and key can be swapped |
| Crypt.XorSingleByte | rust/tests/s1/mod.rs:26-27 | a one-byte key `[k]` XORs every data byte with `k` |

## Left out

- `to_base64(from_base64(s))` for a whole string is not stated. `DecodeChunkCanonical` states the decode-then-encode direction one group at a time, and `PaddingIgnored` and `LowBitsIgnored` show why a whole-string version would need a canonical input: misplaced `=` and non-zero trailing bits are accepted.
- `ByteString::as_utf8` (rust/src/bytestring.rs:73-79) is left out: it reads through `io::Read` and decodes UTF-8 in the standard library.
- `ByteString::new` and `ByteString::from_bytes` only wrap a vector; the model uses `seq<byte>` directly.
- The `.inspect(|..| println!(..))` calls of `from_base64` (rust/src/bytestring.rs:103, 105) are left out: they are console output. The filter and map are modelled.
- `format!` and `join` are string concatenation in the model.
- `Frequencies::read_from` (rust/src/languages.rs:48-60) is left out: it reads an I/O source, and its counting loop is the one of `from_bytes`.
- The `Debug` impls and `ArrayWrapper` (rust/src/languages.rs:76-93) are left out: they only format.
- Languages.Compare: the `f32` conversion, division and fold (rust/src/languages.rs:71-72) are exact real arithmetic in the model. Nothing is claimed about `f32` rounding.
- Languages.Compare: `None` stands for the `NaN` or infinity that `f32` division by zero gives.
- Languages.Countable and Languages.ProductsFit: the overflow panics of a debug build (the `u32` increment at line 41, the `u64` products at lines 66, 67 and 71) are preconditions. Wrap-around in a release build is not modelled.
- `ENGLISH_UTF8` is a table of 16 rows of 16 buckets, one row per line of the source. Languages.EnglishTotal proves its total from those rows.
- `Crypt` is a Rust trait. The model has no trait; it gives the two functions of its only implementation, for `Vec<u8>`.
- `rust/src/english.rs` is not part of this model: it scores text with `f64` arithmetic over a `HashMap` using Unicode lower-casing.
- The integration tests `rust/tests/lib.rs` and `rust/tests/s1/mod.rs` are not part of this model. That includes the brute-force search over single-byte keys, which depends on `f64` scores and UTF-8 filtering. Only their test vectors are used.
- The source has no Hamming-distance, key-size or multi-byte attack code, so the model has none.
- The 48-byte test vector of the `s1` unit test (rust/src/bytestring.rs:211-225) and the 18-byte XOR vector of `c2` (rust/tests/s1/mod.rs:65-71) are not stated as concrete lemmas. A symbolic evaluation of either needs more than the 2,000,000 solver resource units that each proof of this project is limited to (`--resource-limit 2000000`); the 18-byte XOR vector alone needs roughly twice that limit. `HexRoundTrip`, `Base64RoundTrip` and `XorEqualLength` state the general properties they sample, and the 5-byte vectors of the unit tests are proved.

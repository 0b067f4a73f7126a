# CashAddr codec and address-string tests, in Dafny

This project models the CashAddr address codec of bstring, `lib/cashaddr-browser.js`, and the two string validators of `lib/bstr.js`.

A CashAddr address is written `prefix ':' data checksum`:
- `prefix` is a network name such as `bitcoincash`;
- `data` is a string of symbols from the 32-character alphabet `qpzry9x8gf2tvdw0s3jn54khce6mua7l`;
- `checksum` is eight more symbols of a BCH code over GF(32), computed by `polymod` on a 40-bit state held in a 64-bit word.

`encode` builds the data symbols from a version byte and a hash:
- the version byte is `type << 3 | size code`, with the size code taken from `encodedSize`;
- the version byte and the hash are regrouped from 8-bit bytes into 5-bit symbols by `convert`;
- `serialize` then writes the result.

`decode` undoes this. It calls `deserialize`, checks the padding bits, regroups back into bytes, and checks that the hash length matches the size code in the version byte. `test` says whether `decode` succeeds when no default prefix is given.

The model is split into modules:

- `Bits`: the 64-bit words of the checksum. Words are little-endian bit sequences with pointwise xor, and, and shifts.
- `Checksum`:
  - `polymod`, both as a function and as the generator loop;
  - the feeding of symbols into the state;
  - the checksum identity: the eight checksum symbols that `serialize` appends bring the state back to exactly 1;
  - error detection: a step is one-to-one on 40-bit states, so symbol sequences that differ in one symbol end in different states.
- `Charset`: `CHARSET`, `TABLE` and ASCII case mapping. It proves that `TABLE` inverts `CHARSET` in both cases.
- `Regroup`: `convert`.
  - The specification function `Converted` cuts the bit stream of the input into groups.
  - The method `Convert` keeps the loop of the source, with its accumulator, and is proved equal to `Converted`.
- `Serialization`: `serialize` and `deserialize`, as specification functions and as methods with the source's loops, with their round trip. It also proves that `deserialize` refuses a string with one substituted symbol, and reads an upper-case string as its lower-case form.
- `CashAddr`: `encodedSize`, the version byte, and `encode`, `decode` and `test`.
- `Bstr`: `isBase58` and `isBech32`.

Every operation is a function that states what the source computes, plus, where the source loops, a method proved equal to it. Errors are values of `Common.Error`, one case per place the source throws. The message 'Invalid cashaddr character.' is thrown from two places and is two cases. The one exception is `InvalidBits`, which covers both throws of `convert`: a value too wide and bad leftover bits. `MissingPrefix` stands for the TypeError that `prefix.length` raises when there is no separator and no default prefix. A JavaScript string is a sequence of 16-bit code units, and a value that is not a string is `None`.

Three behaviours of the code are worth knowing. The model follows the code in each.

- `deserialize` checks letter case only up to the separator, because its scan loop stops there. A lower-case prefix followed by upper-case data is accepted, since `TABLE` reads both cases.
- `decode` does not limit the type to 0 and 1. Any type below 32 is returned (`CashAddr.DecodedFields`).
- The check for a second separator in `deserialize` can never fire, because the scan loop stops at the first one. `Error.TwoSeparators` is therefore never produced.

## Model

| member | source | states |
|---|---|---|
| Checksum.ComputePolymod | lib/cashaddr-browser.js:86-97 | the generator loop of `polymod` computes `Polymod`: mask to 35 bits, shift up five, xor in each generator whose bit among bits 35-39 is set |
| Checksum.PolymodBelow | lib/cashaddr-browser.js:86-97 | every `polymod` result is below 2^40, whatever the 64-bit input |
| Checksum.GeneratorsBelow | lib/cashaddr-browser.js:71-77 | each of the five generators is below 2^40 |
| Checksum.MaskBits | lib/cashaddr-browser.js:70 | `CHECKSUM_MASK` has exactly bits 0-34 set |
| Checksum.PolymodXor | lib/cashaddr-browser.js:86-97 | a step is linear in values below 2^35: xor before the step is xor of the value shifted up five bits after it |
| Checksum.GeneratorLow | lib/cashaddr-browser.js:71-77 | the low five bits of generator `i` are the single bit `i` |
| Checksum.PolymodInjective | lib/cashaddr-browser.js:86-97 | two states below 2^40 with the same `polymod` result are equal: the fed-back bits reappear as the low five bits and the rest can be cancelled |
| Checksum.FoldDistinct | lib/cashaddr-browser.js:86-97 | two different states below 2^40 stay different after any further symbols |
| Checksum.SubstitutionDetected | lib/cashaddr-browser.js:222-236 | two symbol sequences that differ at exactly one position leave different checksum states |
| Checksum.FoldDigits | lib/cashaddr-browser.js:129-142 | feeding the top `n` five-bit digits of `x` is `n` bare steps xor the low `5n` bits of `x` |
| Checksum.ChecksumResidue | lib/cashaddr-browser.js:133-142 | after the eight checksum symbols, computed as eight bare steps xor 1 and split into digits, the state is exactly 1 |
| Checksum.DigitsAt | lib/cashaddr-browser.js:138-142 | checksum digit `i` is `(x >> (7 - i) * 5) & 0x1f` |
| Charset.LookupCharset | lib/cashaddr-browser.js:46-57 | `TABLE` maps every alphabet character, lower or upper case, back to its symbol |
| Charset.LookupValid | lib/cashaddr-browser.js:46-57 | every code unit the lookup accepts is an alphabet character up to case; every other code unit, including those of 0x80 and above, gives -1 |
| Charset.LookupRange | lib/cashaddr-browser.js:226 | the lookup yields -1 or a symbol below 32 |
| Charset.LookupUpper | lib/cashaddr-browser.js:46-57 | a code unit and its ASCII upper-case form stand for the same symbol, or both for none |
| Charset.CharsetAlnum | lib/cashaddr-browser.js:46 | every alphabet character is a lower-case letter or a digit |
| Regroup.Converted | lib/cashaddr-browser.js:365-396 | every value `convert` outputs is below `2^tobits` |
| Regroup.Convert | lib/cashaddr-browser.js:365-396 | the loop with its accumulator returns exactly `Converted`: groups of the bit stream, padded or checked at the end |
| Regroup.Emit | lib/cashaddr-browser.js:381-384 | the inner loop emits every complete group of the pending bits and leaves fewer than `tobits` pending |
| Regroup.ConvertedFromState | lib/cashaddr-browser.js:387-395 | the result in terms of the final loop state: a padded last group, or InvalidBits for `frombits` or more leftover bits or nonzero ones |
| Regroup.ConvertedUnfit | lib/cashaddr-browser.js:375-376 | any input value of `2^frombits` or more gives InvalidBits, in both modes |
| Regroup.ConvertedPadded | lib/cashaddr-browser.js:387-389 | padded mode succeeds on fitting input with ceil(n·frombits/tobits) values, each below 2^tobits, whose bits are the input bits followed by fewer than `tobits` zeros |
| Regroup.ConvertedStrict | lib/cashaddr-browser.js:390-393 | strict mode succeeds only on fitting input; it gives floor(n·frombits/tobits) values whose bits are the input bits without fewer than `frombits` trailing zeros |
| Regroup.ConvertedStrictRefuses | lib/cashaddr-browser.js:391-392 | strict mode refuses `frombits` or more leftover bits, and nonzero leftover bits |
| Regroup.PadGroupZero | lib/cashaddr-browser.js:391 | `(acc << (tobits - bits)) & maxv` is zero exactly when the leftover bits are all zero |
| Regroup.ConvertRoundTrip | lib/cashaddr-browser.js:365-396 | bytes regrouped into padded 5-bit symbols and back, strictly, are the same bytes |
| Serialization.ChecksumSymbols | lib/cashaddr-browser.js:133-142 | the checksum is eight symbols, each below 32 |
| Serialization.Serialize | lib/cashaddr-browser.js:106-145 | the loops of `serialize` return exactly `Serialized` |
| Serialization.WritePrefix | lib/cashaddr-browser.js:110-118 | the prefix loop succeeds exactly on a prefix of code units 0x20 to 0xff, copying it and feeding its low five bits |
| Serialization.AppendChecksum | lib/cashaddr-browser.js:133-142 | the tail of `serialize` appends the characters of the eight checksum symbols |
| Serialization.SerializedShape | lib/cashaddr-browser.js:106-145 | `serialize` succeeds exactly on a printable prefix and 5-bit data, otherwise with the error of the first failing check; the output is the prefix, ':', the character of each data symbol and eight alphabet characters: nine code units more than the prefix and the data together |
| Serialization.SerializedTailAlnum | lib/cashaddr-browser.js:121-142 | every code unit `serialize` writes after ':' is a lower-case letter or a digit, never a second ':' |
| Serialization.Deserialize | lib/cashaddr-browser.js:154-241 | the loops of `deserialize` return exactly `Deserialized` |
| Serialization.FoldPrefix | lib/cashaddr-browser.js:213-220 | the prefix loop of `deserialize` leaves the state of the prefix symbols followed by one bare step |
| Serialization.ReadData | lib/cashaddr-browser.js:222-240 | the data loop refuses any non-alphabet character, then a checksum that does not leave the state at 1; otherwise it returns all but the last eight symbols |
| Serialization.DeserializedEarlyErrors | lib/cashaddr-browser.js:155-187 | fewer than eight code units gives InvalidLength; a leading ':' gives EmptyPrefix |
| Serialization.DeserializedScanErrors | lib/cashaddr-browser.js:164-200 | at the first code unit that is not a letter or digit: anything but ':' is InvalidScanCharacter, a digit before ':' is NumberInPrefix, both cases before ':' is MixedCase |
| Serialization.DeserializedUnseparated | lib/cashaddr-browser.js:199-207 | a string of eight or more letters and digits only (so without ':') is MixedCase when it has both cases, and otherwise MissingPrefix when there is no default prefix |
| Serialization.DeserializedOk | lib/cashaddr-browser.js:213-240 | an accepted string has only alphabet characters after ':', their symbols bring the prefix state to 1, and the data are those symbols without the last eight, each below 32 |
| Serialization.RoundTrip | lib/cashaddr-browser.js:106-241 | `deserialize` of what `serialize` writes gives back the prefix and the data, for a one-case letter prefix and 5-bit data |
| Serialization.DeserializedSubstitution | lib/cashaddr-browser.js:222-237 | replacing one character after ':' of an accepted string by a character of another symbol gives InvalidChecksum |
| Serialization.DeserializedUpper | lib/cashaddr-browser.js:154-241 | a string without upper-case letters and its upper-cased form give the same error, or the same data under the upper-cased prefix (the default prefix when there is no ':') |
| Serialization.SymbolsOfSpell | lib/cashaddr-browser.js:224-231 | reading back the characters of symbols gives those symbols |
| CashAddr.EncodedSizeCodes | lib/cashaddr-browser.js:59-68 | `encodedSize` gives each allowed length a distinct size code below 8 |
| CashAddr.HeaderValue | lib/cashaddr-browser.js:265 | for types 0 and 1 the version byte, `type << 3` or-ed with the size code, is `type * 8 + size` |
| CashAddr.TypeFieldValue | lib/cashaddr-browser.js:299 | `(h >> 3) & 0x1f` is the version byte without its low three bits |
| CashAddr.SizeFieldValue | lib/cashaddr-browser.js:302-305 | the length formula of `decode` always gives an allowed length, the one whose size code is the low three bits of the byte, so it inverts `encodedSize` |
| CashAddr.HeaderFields | lib/cashaddr-browser.js:299-305 | the type and length `decode` reads from a version byte are those `encode` put in |
| CashAddr.Encode | lib/cashaddr-browser.js:251-272 | `encode` computes `Encoded` |
| CashAddr.EncodedOutcome | lib/cashaddr-browser.js:251-272 | a type above 1 gives InvalidType, then a length outside `encodedSize` gives NonStandardLength; past those, `encode` succeeds exactly on a prefix `serialize` accepts, writing the prefix, ':', ceil(8·(n + 1) / 5) data characters for a hash of n bytes, and eight checksum characters |
| CashAddr.EncodedSymbols | lib/cashaddr-browser.js:264-269 | the symbols handed to `serialize` are five-bit and begin with the type |
| CashAddr.EncodedFirstSymbol | lib/cashaddr-browser.js:264-271 | the first data character of an encoded address is `CHARSET[type]` |
| CashAddr.Decode | lib/cashaddr-browser.js:281-311 | `decode` computes `Decoded` |
| CashAddr.DecodedPadding | lib/cashaddr-browser.js:285-294 | the padding checks pass exactly when the leftover bits of the symbols cut into bytes are fewer than five and zero; InvalidPadding comes exactly from five or more leftover bits |
| CashAddr.DecodedNeverInvalidBits | lib/cashaddr-browser.js:285-297 | once the padding checks pass, the strict conversion never throws |
| CashAddr.DecodedFields | lib/cashaddr-browser.js:296-310 | a decoded address is the regrouped bytes split after the version byte `h`: type `h / 8`, below 32, and a hash of bytes whose length is exactly the one `h` announces (20 + 4·(h & 3), doubled when bit 2 is set), which `encodedSize` allows |
| CashAddr.DecodeEncode | lib/cashaddr-browser.js:251-311 | for a one-case letter prefix, type 0 or 1 and a hash length `encodedSize` allows, `encode` succeeds and `decode` of what it writes gives back the prefix, the type and the hash, whatever the default prefix |
| CashAddr.Test | lib/cashaddr-browser.js:319-327 | `test` is true exactly when `decode` without a default prefix succeeds |
| CashAddr.TestEncoded | lib/cashaddr-browser.js:319-327 | `test` accepts every address `encode` writes under a one-case letter prefix |
| CashAddr.TestNeedsSeparator | lib/cashaddr-browser.js:319-327 | `test` refuses every string without a ':', whatever other code units it holds |
| CashAddr.DecodedSubstitution | lib/cashaddr-browser.js:281-284 | `decode` refuses with InvalidChecksum an accepted address with one character after ':' replaced by a character of another symbol |
| CashAddr.DecodedUpper | lib/cashaddr-browser.js:281-311 | `decode` gives an address without upper-case letters and its upper-cased form the same error, or the same type and hash under the upper-cased prefix (the default prefix when there is no ':') |
| Bstr.Base58Chars | lib/bstr.js:19-21 | `isBase58` is true exactly for non-empty strings of ASCII letters and digits other than 0 |
| Bstr.Base58Wider | lib/bstr.js:12-21 | `0`, the empty string and non-strings are refused, but `IOl` is accepted |
| Bstr.Bech32MixedCase | lib/bstr.js:34-35 | the case test refuses exactly the strings with both lower- and upper-case letters |
| Bstr.Bech32Length | lib/bstr.js:37-38 | fewer than 8 or more than 90 code units are refused |
| Bstr.Bech32PatternMatches | lib/bstr.js:41 | the letter-run test equals the regular expression: 1-3 letters, `1`, and one or more alphabet characters in either case, wherever the regex places the `1` |
| Bstr.Bech32Accepts | lib/bstr.js:30-42 | `isBech32` is true exactly for one-case strings of 8-90 code units that the pattern matches, never for a non-string |
| Bstr.Bech32DataPart | lib/bstr.js:37-41 | an accepted string has at least four data characters after its `1`, each a CashAddr symbol in either case |

## Left out

- The `assert`s of `encode` (lines 252-254) and `decode` (line 282) are carried by the parameter types: strings, a type that is a byte, and a hash of bytes.
- Buffers are sequences. Two things go with them:
  - the shared output buffer `POOL105` and its aliasing are not modelled;
  - `decode` converts in place, into the buffer it reads from, but the model converts into a fresh sequence.
- The accumulator of `convert` is a 32-bit JavaScript integer. The model keeps every bit shifted in, without bound, while the source's `acc` keeps only the low 32. The bits the source loses are never read: only the low `bits + tobits` are, and `bits` stays below `tobits`.
- Regroup.Converted, Regroup.Convert: these require widths from 1 to 8. The source accepts any width, but its callers pass only 8→5 and 5→8.
- The `off` parameter of `convert` is not modelled: both callers pass 0.
- The U64 type of n64 is modelled only through the operations `polymod`, `serialize` and `deserialize` use on it.
- The error messages are modelled by the `Error` case they name, not by their text.
- Only a `test` that fails with one of the codec's errors is modelled. The input is a string, so the assertion inside `decode` cannot fire.
- A non-string `defaultPrefix` other than `undefined` is not modelled. `None` stands for a missing default prefix.
- `toUpperCase` and `toLowerCase` in `isBech32` are modelled on ASCII letters only. The result of `isBech32` is unchanged by this, because the pattern admits only ASCII characters.
- Serialization.DeserializedSubstitution, CashAddr.DecodedSubstitution: these cover a substitution after the separator only. In a string read under the default prefix, a substituted letter can also trip the case check, so the error is not always InvalidChecksum.
- Only the substitution of a single symbol is proved to be detected. The wider guarantees of the BCH code, such as several substituted symbols or a burst of errors, are not proved.
- The Base58 and Bech32 codecs (`exports.base58`, `exports.bech32`), the native bindings in `lib/binding.js` and `src/` are not part of this model.

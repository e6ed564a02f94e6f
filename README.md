# Provider identifier derivation

A Dafny model of how a provider's metadata record, `ProviderData`, gets its
`id`. When the record is constructed, `generateHash()` computes the id in five
steps:

1. It renders the record's `hashCode()` as decimal text.
2. It turns that text into bytes and appends 30 random bytes.
3. It hashes the result with SHA-1 (FIPS PUB 180-4; the digest is 20 bytes).
4. It hex-encodes the digest with the private `ByteArray.toHexString()`. Every
   byte becomes `"%02x".format(b)` and the pieces are joined with `""`.
5. It keeps the first 15 characters (`take(15)`).

The model is pure: functions over `seq<Byte>` and `string`, plus lemmas.
`Byte`, `Int32` and `Int64` are Kotlin's signed fixed-width types, written as
newtypes.

Modules:

- `KotlinStd` holds the library behaviour the derivation relies on:
  - the unsigned reading of a byte that Java's `%x` formats (b + 256 when b is negative);
  - digit rendering in a radix, for `Int.toString()` and `%x`;
  - the zero padding of the `0` flag in `%02x` (`PadStart`), `joinToString`, `take`;
  - `toByteArray()` on ASCII text.
- `HexCodec` holds `HexByte` and `ToHex` (the `toHexString` extension), plus the
  decoder `FromHex`. The decoder reads the hex form back and shows the encoding
  is injective.
- `ProviderData` holds the seed (`Seed`), the id (`GenerateHash`) and the record.
  The SHA-1 function is a parameter `sha1: seq<Byte> -> Digest`, where `Digest`
  is any 20-byte sequence. The salt is a parameter of type `Salt`, exactly 30
  bytes. The hash code is an `Int32` parameter.

Facts about the source that shape the model:

- `buildUrl` is declared `String?` (ProviderData.kt:34), so it is an
  `Option<string>`.
- The constructor defaults `changelog = null` (:35) and `adult = false` (:39)
  are default values of the `Metadata` constructor.
- The seed is built from the data class's `hashCode()`. That value is
  computed from the primary-constructor properties. Two equal records
  therefore have the same seed prefix, and only the salt tells their ids apart.
- The salt generator is seeded with `System.currentTimeMillis()` (:50). So two
  equal records built in the same millisecond get the same salt, and the same
  id. The model takes the salt as an input. It does not claim ids are unique.

## Model

| member | source | states |
|---|---|---|
| `KotlinStd.NumeralDigits` | model-provider/src/main/kotlin/com/boooplay/model/provider/ProviderData.kt:50 | the digits of a number in a radix; its contract is stated by `NumeralDigitsWellFormed`, `NumeralDigitsValue` and `NumeralDigitsLength` |
| `KotlinStd.FormatHex` | model-provider/src/main/kotlin/com/boooplay/model/provider/ProviderData.kt:57 | Java's `"%0<width>x"` on a non-negative value; `HexBytePercent02x` states that for a byte and width 2 it gives the two nibble digits |
| `KotlinStd.DecimalText` | model-provider/src/main/kotlin/com/boooplay/model/provider/ProviderData.kt:50 | `"${hashCode()}"`; its contract is stated by `DecimalTextCorrect` |
| `KotlinStd.JoinToString` | model-provider/src/main/kotlin/com/boooplay/model/provider/ProviderData.kt:57 | `joinToString(separator) { transform(it) }`; its contract is stated by `JoinToStringAppend` |
| `HexCodec.HexByte` | model-provider/src/main/kotlin/com/boooplay/model/provider/ProviderData.kt:57 | the rendering of one byte by `"%02x".format`; `HexBytePercent02x` and `HexByteDigits` state its contract |
| `HexCodec.ToHex` | model-provider/src/main/kotlin/com/boooplay/model/provider/ProviderData.kt:57 | `toHexString()`; its contract is stated by `ToHexLength`, `ToHexAt`, `ToHexAlphabet`, `ToHexAppend`, `FromHexToHex` and `ToHexInjective` |
| `ProviderData.Seed` | model-provider/src/main/kotlin/com/boooplay/model/provider/ProviderData.kt:50 | the digest input; its contract is stated by `SeedLayout` |
| `KotlinStd.Unsigned` | model-provider/src/main/kotlin/com/boooplay/model/provider/ProviderData.kt:57 | the value `%x` formats for a byte is in 0..255 and is the byte itself or the byte plus 256 |
| `KotlinStd.DigitChar` | model-provider/src/main/kotlin/com/boooplay/model/provider/ProviderData.kt:57 | a digit below 16 becomes a character of `0-9a-f`; the character is a decimal digit exactly when the digit is below 10 |
| `KotlinStd.DigitValue` | model-provider/src/main/kotlin/com/boooplay/model/provider/ProviderData.kt:57 | every character of `0-9a-f` stands for a digit below 16, and `DigitChar` maps that digit back to the character |
| `KotlinStd.DigitCharInjective` | model-provider/src/main/kotlin/com/boooplay/model/provider/ProviderData.kt:57 | two hex digits render to the same character if and only if they are equal |
| `KotlinStd.NumeralDigitsWellFormed` | model-provider/src/main/kotlin/com/boooplay/model/provider/ProviderData.kt:50 | the digits of n in a radix are non-empty, each one is below the radix, and there is no leading zero unless n is 0 |
| `KotlinStd.NumeralDigitsValue` | model-provider/src/main/kotlin/com/boooplay/model/provider/ProviderData.kt:50 | the digits of n read back as n |
| `KotlinStd.NumeralDigitsLength` | model-provider/src/main/kotlin/com/boooplay/model/provider/ProviderData.kt:50 | a number below radix^k has at most k digits |
| `KotlinStd.PadStart` | model-provider/src/main/kotlin/com/boooplay/model/provider/ProviderData.kt:57 | the width is a minimum: the result is the original text preceded only by pad characters, with length max(width, original length) |
| `KotlinStd.DecimalTextCorrect` | model-provider/src/main/kotlin/com/boooplay/model/provider/ProviderData.kt:50 | `"${hashCode()}"` is an optional '-' then 1 to 10 digits with no leading zero (so zero is exactly "0"); the '-' appears exactly for negative values; the text parses back to the value |
| `KotlinStd.JoinToStringAppend` | model-provider/src/main/kotlin/com/boooplay/model/provider/ProviderData.kt:57 | joining two non-empty lists puts exactly one separator between the two joins |
| `KotlinStd.Take` | model-provider/src/main/kotlin/com/boooplay/model/provider/ProviderData.kt:54 | `take(n)` returns a prefix of the text whose length is min(n, length) |
| `KotlinStd.AsciiBytes` | model-provider/src/main/kotlin/com/boooplay/model/provider/ProviderData.kt:50 | `toByteArray()` on ASCII text gives one byte per character, equal to the character code |
| `HexCodec.HexBytePercent02x` | model-provider/src/main/kotlin/com/boooplay/model/provider/ProviderData.kt:57 | `"%02x".format(b)` equals the two-character nibble rendering: the high nibble's digit, then the low nibble's digit |
| `HexCodec.HexByteDigits` | model-provider/src/main/kotlin/com/boooplay/model/provider/ProviderData.kt:57 | a byte renders as two characters of `0-9a-f` whose value, read as hex, is the unsigned byte |
| `HexCodec.HexByteExamples` | model-provider/src/main/kotlin/com/boooplay/model/provider/ProviderData.kt:57 | sample renderings, e.g. -1 gives "ff", -128 gives "80", 10 gives "0a" |
| `HexCodec.ToHexEmpty` | model-provider/src/main/kotlin/com/boooplay/model/provider/ProviderData.kt:57 | no bytes encode to the empty string |
| `HexCodec.ToHexSingle` | model-provider/src/main/kotlin/com/boooplay/model/provider/ProviderData.kt:57 | one byte encodes to its own two-character rendering, with no separator |
| `HexCodec.ToHexAppend` | model-provider/src/main/kotlin/com/boooplay/model/provider/ProviderData.kt:57 | because the separator is empty, the encoding of a + b is the encoding of a followed by the encoding of b |
| `HexCodec.ToHexLength` | model-provider/src/main/kotlin/com/boooplay/model/provider/ProviderData.kt:57 | n bytes encode to exactly 2n characters |
| `HexCodec.ToHexAt` | model-provider/src/main/kotlin/com/boooplay/model/provider/ProviderData.kt:57 | characters 2i and 2i+1 are the high and the low nibble digits of byte i |
| `HexCodec.ToHexAlphabet` | model-provider/src/main/kotlin/com/boooplay/model/provider/ProviderData.kt:57 | every character of the encoding is in `0-9a-f` |
| `HexCodec.ToHexTakeEven` | model-provider/src/main/kotlin/com/boooplay/model/provider/ProviderData.kt:54 | keeping 2k characters of the encoding gives the encoding of the first k bytes |
| `HexCodec.ToHexTakeOdd` | model-provider/src/main/kotlin/com/boooplay/model/provider/ProviderData.kt:54 | keeping 2k+1 characters gives the encoding of the first k bytes followed by the high nibble digit of byte k |
| `HexCodec.FromHexToHex` | model-provider/src/main/kotlin/com/boooplay/model/provider/ProviderData.kt:57 | decoding the encoding of any byte sequence gives that sequence back |
| `HexCodec.ToHexFromHex` | model-provider/src/main/kotlin/com/boooplay/model/provider/ProviderData.kt:57 | any string that decodes is the encoding of what it decodes to |
| `HexCodec.FromHexDefined` | model-provider/src/main/kotlin/com/boooplay/model/provider/ProviderData.kt:57 | a string decodes if and only if it has even length and only `0-9a-f` characters, i.e. exactly the possible encodings |
| `HexCodec.ToHexInjective` | model-provider/src/main/kotlin/com/boooplay/model/provider/ProviderData.kt:57 | two byte sequences have the same encoding if and only if they are equal |
| `ProviderData.GenerateHash` | model-provider/src/main/kotlin/com/boooplay/model/provider/ProviderData.kt:49-55 | the id has 15 characters from `0-9a-f`; it is a prefix of the 40-character hex digest; it is the encoding of the first 7 digest bytes followed by the high nibble digit of the 8th |
| `ProviderData.SeedLayout` | model-provider/src/main/kotlin/com/boooplay/model/provider/ProviderData.kt:50 | the digest input is the ASCII decimal text of the hash code (only '-' and digits, '-' first exactly for negative codes) followed by the 30 salt bytes, 31 to 41 bytes in all |
| `ProviderData.GenerateHashEqual` | model-provider/src/main/kotlin/com/boooplay/model/provider/ProviderData.kt:52-54 | two ids are equal if and only if their digests agree on the first 7 bytes and on the high nibble of the 8th |
| `ProviderData.NewProviderData` | model-provider/src/main/kotlin/com/boooplay/model/provider/ProviderData.kt:31-47 | a constructed record keeps the given properties, and its id is a well-formed provider id and a prefix of the hex digest of its seed |

## Left out

- The SHA-1 computation (`MessageDigest.getInstance("SHA-1")`, ProviderData.kt:52-53) is a library call. It is the parameter `sha1`; the model assumes only that the result has 20 bytes.
- `Random(System.currentTimeMillis()).nextBytes(30)` (ProviderData.kt:50) depends on the wall clock and a pseudo-random generator. It is the parameter `salt`. Nothing is claimed about ids being reproducible or unique.
- The compiler-generated `hashCode()` of the data class: its formula is not visible in the source, so it is the `Int32` parameter `hashCode`.
- `KotlinStd.AsciiBytes`: models `toByteArray()` (UTF-8) only on ASCII text, because the only text encoded is a decimal rendering. Multi-byte UTF-8 is not modelled.
- `KotlinStd.Take`: the count is a `nat`, so Kotlin's `IllegalArgumentException` for a negative count is not modelled. The only call passes 15.
- The data-class behaviour of `ProviderData` is not modelled. Its `equals` and `hashCode` ignore `id`, but Dafny's `==` on `ProviderRecord` compares `id`. `copy()` would run `generateHash()` again and give a new id. `hashCode` is a free parameter of `NewProviderData`, not computed from `meta`.
- The locale argument of `String.format` is not modelled: it does not change hex digits.
- The `@Serializable` support of `ProviderData` (ProviderData.kt:30) is generated by the serialization library.
- `Author`, `Language`, `ProviderType` and `Status` are defined in files that are not part of this model; they are type parameters of `Metadata`.
- provider/src/main/kotlin/com/boooplay/provider/ProviderApi.kt: every stage of this extension point only throws `NotImplementedError`. Its real behaviour is network I/O, concurrency and main-thread WebView access, so it is not part of this model.
- build-logic/convention/src/main/kotlin/AndroidLibraryConventionPlugin.kt (Gradle configuration) and core-util/src/main/kotlin/com/boooplay/core/util/android/IntentHelper.kt (an Android `Intent` builder) are not part of this model.

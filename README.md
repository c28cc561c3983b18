# OpenJCEPlus JUnit test support, modelled in Dafny

This project models the test-support layer of the OpenJCEPlus JUnit suite:
the abstract base class `BaseTest` and the parameter factory `TestArguments`.

- `BaseTest` keeps per-test metadata (provider name, key size, algorithm)
  whose getters throw until a value has been set. It parses the `groups`
  system property into a list of tags. It converts byte arrays to lower-case
  hex and back, and it generates sequential byte arrays.
- `TestArguments` turns the tags into the list of enabled OpenJCEPlus
  providers. It builds the provider × key-size argument list that JUnit
  feeds to parameterized tests, and it throws when that list is empty.

Files:

- `wrappers.dfy` (module `Wrappers`): `Option` stands for a nullable Java
  reference. `Result` stands for a value or a thrown exception.
- `javalang.dfy` (module `JavaLang`): the Java library behaviour the code
  depends on. This covers `int`, signed `byte`, the `(byte)` cast and
  `& 0xff`, `String.trim`, `replaceAll(" +", "")`, `split(",")`,
  `equalsIgnoreCase`, `String.format("%02x", …)` and
  `Integer.parseInt(…, 16)` on a two-character chunk. It also defines the
  exceptions that are thrown.
- `testprovider.dfy` (module `TestProviders`): the `TestProvider` enum
  and its provider names.
- `basetest.dfy` (module `BaseTest`): the class `Fixture` holding the
  metadata fields, tag parsing, the hex codec and `generateBytes`.
- `testarguments.dfy` (module `TestArguments`): the enabled providers, the
  cross product, the alias-test provider list and the two AES variants.

Code that fills an array or a list in a loop becomes a method with a loop.
Most such methods are proved equal to a pure specification function:
`HexEncode`, `HexDecode`, `Tags`, `EnabledProviders` or `KeySizeArguments`.
`GenerateBytes` instead states the array's contents element by element. Lemmas then
prove what the source promises about those functions. Java exceptions become
`Failure` results that carry the exception and its message.

The system property `groups` is read from the environment in the source. Here
it is a parameter, `groups: Option<string>`, passed through every operation
that reads it (`None` when the property is unset).

## Model

| member | source | states |
|---|---|---|
| `BaseTest.Fixture.constructor` | src/test/java/ibm/jceplus/junit/tests/BaseTest.java:15-19 | a new test starts with no provider name, no algorithm and key size -1 |
| `BaseTest.Fixture.SetProviderName` | src/test/java/ibm/jceplus/junit/tests/BaseTest.java:26-28 | sets the provider name (null allowed) and leaves key size and algorithm unchanged |
| `BaseTest.Fixture.GetProviderName` | src/test/java/ibm/jceplus/junit/tests/BaseTest.java:77-82 | throws RuntimeException "Provider name is null." exactly when no name is set; otherwise returns the last name set |
| `BaseTest.Fixture.SetAlgorithm` | src/test/java/ibm/jceplus/junit/tests/BaseTest.java:88-90 | sets the algorithm (null allowed) and leaves the other two fields unchanged |
| `BaseTest.Fixture.GetAlgorithm` | src/test/java/ibm/jceplus/junit/tests/BaseTest.java:96-101 | throws RuntimeException "Algorithm name is null." exactly when no algorithm is set; otherwise returns the last one set |
| `BaseTest.Fixture.SetKeySize` | src/test/java/ibm/jceplus/junit/tests/BaseTest.java:107-109 | sets the key size and leaves the other two fields unchanged |
| `BaseTest.Fixture.GetKeySize` | src/test/java/ibm/jceplus/junit/tests/BaseTest.java:115-120 | throws RuntimeException "Key size is not correct." exactly when the key size is the sentinel -1; otherwise returns it |
| `BaseTest.GetTagsPropertyAsArray` | src/test/java/ibm/jceplus/junit/tests/BaseTest.java:127-141 | the loop's result equals `Tags`: empty for an absent or blank property, otherwise one trimmed entry per field of `split(",")`, in order |
| `BaseTest.TagsAreClean` | src/test/java/ibm/jceplus/junit/tests/BaseTest.java:129-136 | every tag has no comma and no white space at either end, and there are at most (number of commas + 1) tags |
| `BaseTest.SingleTag` | src/test/java/ibm/jceplus/junit/tests/BaseTest.java:129-136 | a property holding a single clean name yields exactly that one tag |
| `BaseTest.OnlySeparators` | src/test/java/ibm/jceplus/junit/tests/BaseTest.java:131-131 | a property made only of commas yields no tags, because `split` drops trailing empty fields |
| `BaseTest.HexEncode` | src/test/java/ibm/jceplus/junit/tests/BaseTest.java:153-158 | the encoding has exactly two characters per byte |
| `BaseTest.HexEncodeAt` | src/test/java/ibm/jceplus/junit/tests/BaseTest.java:153-158 | byte i appears at positions 2i and 2i+1 as the high and low lower-case hex digit of `input[i] & 0xff` |
| `BaseTest.HexEncodeIsLowerHex` | src/test/java/ibm/jceplus/junit/tests/BaseTest.java:155-155 | every character of an encoding is a lower-case hex digit |
| `BaseTest.BytesToHex` | src/test/java/ibm/jceplus/junit/tests/BaseTest.java:148-159 | a null input gives exactly "<NULL>"; otherwise the loop builds `HexEncode(input)` |
| `BaseTest.Compact` | src/test/java/ibm/jceplus/junit/tests/BaseTest.java:180-180 | the text actually parsed (input trimmed, spaces removed) contains no space |
| `BaseTest.DecodePairs` | src/test/java/ibm/jceplus/junit/tests/BaseTest.java:182-187 | a successful decode has half as many bytes as the parsed text has characters, rounded down, so an odd trailing character is dropped |
| `BaseTest.DecodePairsSpec` | src/test/java/ibm/jceplus/junit/tests/BaseTest.java:182-187 | decoding succeeds exactly when every two-character chunk parses as base 16, and byte i is chunk i's value cast to a byte |
| `BaseTest.DecodePairsFirstFailure` | src/test/java/ibm/jceplus/junit/tests/BaseTest.java:183-186 | the NumberFormatException raised is that of the first chunk that fails to parse |
| `BaseTest.HexStringToByteArray` | src/test/java/ibm/jceplus/junit/tests/BaseTest.java:179-189 | the loop returns `HexDecode(string)`: the bytes on success, or the exception of the first bad chunk |
| `BaseTest.LowerChunkRoundTrip` | src/test/java/ibm/jceplus/junit/tests/BaseTest.java:185-186 | two lower-case digits parse, cast to a byte and print back as the same two digits |
| `BaseTest.RoundTrip` | src/test/java/ibm/jceplus/junit/tests/BaseTest.java:179-189 | `hexStringToByteArray(bytesToHex(b)) == b` for every byte array b |
| `BaseTest.EncodeDecode` | src/test/java/ibm/jceplus/junit/tests/BaseTest.java:179-189 | an even-length string of lower-case hex digits decodes to bytes whose encoding is that string |
| `BaseTest.DecodeIgnoresDigitCase` | src/test/java/ibm/jceplus/junit/tests/BaseTest.java:185-185 | an upper-case chunk parses to the same value as its lower-case form |
| `BaseTest.DecodeIgnoresOddTail` | src/test/java/ibm/jceplus/junit/tests/BaseTest.java:182-182 | appending one character to an even-length parsed text (the input after trimming and space removal) does not change the decode result |
| `BaseTest.GenerateBytes` | src/test/java/ibm/jceplus/junit/tests/BaseTest.java:166-172 | a negative length throws NegativeArraySizeException; otherwise the result has that length and element i is `(byte) (i % 256)`, whose unsigned value is i mod 256 |
| `JavaLang.ToByte` | src/test/java/ibm/jceplus/junit/tests/BaseTest.java:169-169 | the `(byte)` cast yields a value in [-128, 128) congruent to its input modulo 256 |
| `JavaLang.Unsigned` | src/test/java/ibm/jceplus/junit/tests/BaseTest.java:155-155 | `b & 0xff` yields a value in [0, 256) congruent to b modulo 256 |
| `JavaLang.ByteCasts` | src/test/java/ibm/jceplus/junit/tests/BaseTest.java:186-186 | casting the unsigned value back gives the byte, and masking a cast gives the value modulo 256 |
| `JavaLang.Format02x` | src/test/java/ibm/jceplus/junit/tests/BaseTest.java:155-155 | `%02x` prints two lower-case hex digits whose values are v / 16 and v % 16 |
| `JavaLang.DigitValue` | src/test/java/ibm/jceplus/junit/tests/BaseTest.java:185-185 | a character has a base-16 digit value (below 16) exactly when it is 0-9, a-f or A-F |
| `JavaLang.ParseHexChunk` | src/test/java/ibm/jceplus/junit/tests/BaseTest.java:185-185 | a chunk parses exactly when its second character is a hex digit and its first is a hex digit, '-' or '+'; any failure is a NumberFormatException naming the chunk; two hex digits parse to 16 * high + low, and "-d" and "+d" parse to -d and d |
| `JavaLang.ParseFormat02x` | src/test/java/ibm/jceplus/junit/tests/BaseTest.java:155-155 | parsing what `%02x` printed gives back the printed value |
| `JavaLang.Trim` | src/test/java/ibm/jceplus/junit/tests/BaseTest.java:129-134 | `trim` never lengthens a string and leaves neither end white |
| `JavaLang.TrimStartSpec` | src/test/java/ibm/jceplus/junit/tests/BaseTest.java:180-180 | stripping leading white space keeps a suffix, drops only characters up to U+0020, and leaves a non-white first character |
| `JavaLang.TrimEndSpec` | src/test/java/ibm/jceplus/junit/tests/BaseTest.java:180-180 | stripping trailing white space keeps a prefix, drops only characters up to U+0020, and leaves a non-white last character |
| `JavaLang.TrimSpec` | src/test/java/ibm/jceplus/junit/tests/BaseTest.java:129-129 | `trim` keeps a contiguous middle of the string and drops only white space around it, with neither end of the result white |
| `JavaLang.TrimEmpty` | src/test/java/ibm/jceplus/junit/tests/BaseTest.java:129-129 | `trim` gives the empty string exactly when every character is white space |
| `JavaLang.TrimNoOp` | src/test/java/ibm/jceplus/junit/tests/BaseTest.java:180-180 | a string with no white space at either end is unchanged by `trim` |
| `JavaLang.RemoveSpaces` | src/test/java/ibm/jceplus/junit/tests/BaseTest.java:180-180 | `replaceAll(" +", "")` leaves no space and keeps every other character the same number of times |
| `JavaLang.RemoveSpacesChar` | src/test/java/ibm/jceplus/junit/tests/BaseTest.java:180-180 | a single character is removed exactly when it is a space |
| `JavaLang.RemoveSpacesAppend` | src/test/java/ibm/jceplus/junit/tests/BaseTest.java:180-180 | removing spaces from a + b gives the result for a followed by the result for b, so the kept characters stay in order |
| `JavaLang.RemoveSpacesNoOp` | src/test/java/ibm/jceplus/junit/tests/BaseTest.java:180-180 | a string without spaces is unchanged |
| `JavaLang.SplitAll` | src/test/java/ibm/jceplus/junit/tests/BaseTest.java:131-131 | splitting gives at least one field, and no field contains the separator |
| `JavaLang.JoinSplitAll` | src/test/java/ibm/jceplus/junit/tests/BaseTest.java:131-131 | joining the fields with the separator rebuilds the input |
| `JavaLang.SplitAllCount` | src/test/java/ibm/jceplus/junit/tests/BaseTest.java:131-131 | there is one field more than there are separators |
| `JavaLang.SplitAllNoSeparator` | src/test/java/ibm/jceplus/junit/tests/BaseTest.java:131-131 | a string without the separator is one field |
| `JavaLang.DropTrailingEmpty` | src/test/java/ibm/jceplus/junit/tests/BaseTest.java:131-131 | the result is a prefix, everything dropped is empty, and the result does not end with an empty field |
| `JavaLang.Split` | src/test/java/ibm/jceplus/junit/tests/BaseTest.java:131-131 | no field of `split(",")` contains a comma; there are at most (number of commas + 1) fields; when a comma occurs the fields are the full split with trailing empty ones dropped |
| `JavaLang.SplitEmpty` | src/test/java/ibm/jceplus/junit/tests/BaseTest.java:131-131 | splitting the empty string gives one empty field, since a string without the separator is returned whole |
| `JavaLang.ToUpperAscii` | src/test/java/ibm/jceplus/junit/tests/TestArguments.java:64-66 | upper-cases exactly the letters a-z and leaves every other character alone |
| `JavaLang.EqualsIgnoreCase` | src/test/java/ibm/jceplus/junit/tests/TestArguments.java:64-66 | two strings are equal ignoring case exactly when their upper-cased forms are equal |
| `TestProviders.ProviderName` | src/test/java/ibm/jceplus/junit/tests/TestArguments.java:64-66 | each provider's name is non-empty and made of ASCII letters only |
| `TestProviders.ProviderNamesDistinct` | src/test/java/ibm/jceplus/junit/tests/TestArguments.java:64-67 | a tag equal to two providers' names ignoring case names the same provider both times |
| `TestProviders.JCEPlusNamesDistinct` | src/test/java/ibm/jceplus/junit/tests/TestArguments.java:64-67 | no tag names both OpenJCEPlus and OpenJCEPlusFIPS, even ignoring case |
| `TestArguments.GetEnabledProviders` | src/test/java/ibm/jceplus/junit/tests/TestArguments.java:52-72 | the loop returns `EnabledProviders(tags)`: [OpenJCEPlus, OpenJCEPlusFIPS] with no tags, otherwise each tag's contribution in tag order |
| `TestArguments.MatchTagsExtend` | src/test/java/ibm/jceplus/junit/tests/TestArguments.java:63-69 | one more tag appends exactly that tag's contribution to the providers found so far |
| `TestArguments.MatchTagsAppend` | src/test/java/ibm/jceplus/junit/tests/TestArguments.java:63-69 | tags are handled one after another: the providers of a + b are those of a followed by those of b |
| `TestArguments.MatchTagsLength` | src/test/java/ibm/jceplus/junit/tests/TestArguments.java:63-69 | each tag contributes at most one provider |
| `TestArguments.MatchTagsAreJCEPlus` | src/test/java/ibm/jceplus/junit/tests/TestArguments.java:63-69 | a tag list only enables OpenJCEPlus or OpenJCEPlusFIPS |
| `TestArguments.EnabledAreJCEPlus` | src/test/java/ibm/jceplus/junit/tests/TestArguments.java:58-71 | every enabled provider is OpenJCEPlus or OpenJCEPlusFIPS |
| `TestArguments.MatchTagsMembership` | src/test/java/ibm/jceplus/junit/tests/TestArguments.java:63-69 | OpenJCEPlus or OpenJCEPlusFIPS is enabled by tags exactly when some tag equals its name ignoring case; no other provider is ever enabled by a tag |
| `TestArguments.NoneEnabled` | src/test/java/ibm/jceplus/junit/tests/TestArguments.java:58-71 | no provider is enabled exactly when tags were given and none names an OpenJCEPlus provider |
| `TestArguments.CrossLength` | src/test/java/ibm/jceplus/junit/tests/TestArguments.java:34-39 | the product has exactly (number of providers) * (number of key sizes) arguments |
| `TestArguments.CrossAt` | src/test/java/ibm/jceplus/junit/tests/TestArguments.java:34-39 | with m key sizes, argument p * m + k is (keySizes[k], providers[p]): provider-major order |
| `TestArguments.CrossIndex` | src/test/java/ibm/jceplus/junit/tests/TestArguments.java:34-39 | with m key sizes, every argument i is (keySizes[i mod m], providers[i div m]) |
| `TestArguments.CrossDistinct` | src/test/java/ibm/jceplus/junit/tests/TestArguments.java:34-39 | with distinct providers and distinct key sizes no argument repeats |
| `TestArguments.RowExtend` | src/test/java/ibm/jceplus/junit/tests/TestArguments.java:36-38 | one more key size appends exactly (keySize, provider) to the provider's row |
| `TestArguments.CrossExtend` | src/test/java/ibm/jceplus/junit/tests/TestArguments.java:35-39 | one more provider appends exactly that provider's row to the product |
| `TestArguments.KeySizeArgumentsFail` | src/test/java/ibm/jceplus/junit/tests/TestArguments.java:41-43 | IllegalArgumentException is thrown exactly when no provider is enabled or no key size is given |
| `TestArguments.KeySizesAndJCEPlusProviders` | src/test/java/ibm/jceplus/junit/tests/TestArguments.java:28-45 | the nested loops return `KeySizeArguments`: the full product, or IllegalArgumentException when it is empty |
| `TestArguments.TestAliasesJCEPlusProviders` | src/test/java/ibm/jceplus/junit/tests/TestArguments.java:79-86 | throws IllegalArgumentException exactly when no provider is enabled; otherwise returns the enabled list unchanged |
| `TestArguments.AesKeySizesAndJCEPlusProviders` | src/test/java/ibm/jceplus/junit/tests/TestArguments.java:93-96 | the arguments for key sizes [128, 192, 256] |
| `TestArguments.AesgcmKeySizesAndJCEPlusProviders` | src/test/java/ibm/jceplus/junit/tests/TestArguments.java:103-106 | the arguments for key sizes [128, 192, 256] |
| `TestArguments.DefaultAesArguments` | src/test/java/ibm/jceplus/junit/tests/TestArguments.java:93-96 | with no `groups` property the AES arguments are six tuples: 128, 192, 256 with OpenJCEPlus, then the same with OpenJCEPlusFIPS |
| `TestArguments.OpenJCEPlusTagIsClean` | src/test/java/ibm/jceplus/junit/tests/TestArguments.java:64-64 | a tag equal to "OpenJCEPlus" ignoring case has no comma and no white space at either end |
| `TestArguments.SingleProviderTag` | src/test/java/ibm/jceplus/junit/tests/TestArguments.java:52-72 | `groups=OpenJCEPlus`, in any letter case, enables OpenJCEPlus alone |
| `TestArguments.SingleProviderGroup` | src/test/java/ibm/jceplus/junit/tests/TestArguments.java:34-39 | with `groups=OpenJCEPlus` every generated argument uses OpenJCEPlus |

## Left out

- `setAndInsertProvider` and `loadProvider` (BaseTest.java lines 30-70) are not modelled. They use reflection (`Class.forName`, `newInstance`) and change the process-wide `java.security.Security` registry.
- `BaseTestSignature.doSignVerify` is not modelled. It only calls `java.security.Signature`, whose cryptography is not visible, and asserts the outcome.
- The `TestProvider` enum's source is not part of this model. The seven constants are taken from the `switch` in `setAndInsertProvider`. Each provider's name is assumed to be its constant's identifier. The proofs use only that the seven names differ in length and consist of ASCII letters only. `getProviderClassName` is not modelled.
- `System.getProperty("groups")` reads the environment. The model takes its value as a parameter instead.
- The JUnit `Arguments` and `Stream` wrappers are not modelled. Results are sequences of `(keySize, provider)` tuples or of providers.
- Java arrays are returned as immutable sequences. Array identity and aliasing of the returned `byte[]` and `String[]` are not modelled.
- A null `keySizes` array, which would throw NullPointerException, is not modelled. A null `string` passed to `hexStringToByteArray` is not modelled either. The two visible callers of `keySizesAndJCEPlusProviders` (TestArguments.java lines 94-95 and 104-105) pass non-null arrays; `hexStringToByteArray` has no caller in the modelled files.
- `BaseTest.HexStringToByteArray`: strings are modelled as sequences of Unicode code points, not of UTF-16 code units, so lengths and `substring` positions differ for characters outside the Basic Multilingual Plane. For example "00\U{1F600}" decodes to the single byte 0 in the model, while Java sees four units, parses the surrogate pair as the second chunk and throws NumberFormatException. `BaseTest.HexDecode` and `BaseTest.BytesToHex` share this simplification; `bytesToHex` itself only produces ASCII.
- `JavaLang.DigitValue`: `Character.digit` also accepts non-ASCII digits and the full-width letters A-F. The model accepts only ASCII hex digits, so `hexStringToByteArray` fails on those characters where Java would decode them.
- `JavaLang.EqualsIgnoreCase`: Java folds case over all of Unicode. For example, the dotless ı (U+0131) upper-cases to I, so Java matches "OpenJCEPlusFıPS" to OpenJCEPlusFIPS. The model folds only ASCII letters.
- `int` overflow is not modelled for indices and lengths. Every loop index and array length stays within Java's `int` range because the arrays are bounded by it.

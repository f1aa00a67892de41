# Token resolution of the MEGADesignToken code generator

This project models the part of `TokenCodegenGenerator` that decides what the generated Swift file contains:

- **Literal parsers** (`parsers.swift`):
  - `parseHex`: hex colour text to normalised RGBA;
  - `parseNumber`: pixel numbers;
  - `parseInput`: the pseudo-array argument naming `tokens.json`.
- **Colour tables** (`parsers.swift`):
  - flattening the nested core colours into a map from lower-cased dotted paths;
  - following `{Colors.…}` references through that map;
  - replacing each semantic colour's value by the core value it names.
- **String helpers** (`extensions.swift`):
  - the name sanitisers;
  - the case conversions;
  - the `rgba(…)` alpha reader;
  - `isHexColor` and `updateHexAlpha`.
- **Decisions in `codegen.swift`**:
  - the light/dark inner join;
  - when a colour constant fails to generate;
  - the enum names;
  - the ascending order of number constants.
- **Token records** (the plugin's `model.swift`):
  - `ColorInfo.rgba`;
  - `NumberInfo` decoding and ordering.

Modules follow the program's files:

| module | contents |
|---|---|
| `Strings` | the Foundation string operations the code uses, restricted to ASCII |
| `Decimal` | `Double(String)` on decimal text, as an exact `real` |
| `Literals` | `parsers.swift`'s literal parsers |
| `Model` | the plugin's `model.swift` |
| `Extensions` | `extensions.swift` |
| `Resolution` | `resolveColorInfo` and `resolveNestedFlatColorData` |
| `Extraction` | `extractFlatColorData` and `extractColorData` |
| `Codegen` | `codegen.swift` |

Modelling choices:

- **Loops.** Loops over dictionaries are methods with `while` loops. The next key is picked with `:|`, so every proof holds for any iteration order.
- **Endless references.** The source follows references with no cycle guard. The model follows at most `|m|` hops and answers `None` when the chain is still going. `Resolution.ResolveNoneIffEndless` shows that `None` means exactly an endless chain, that is, a generator that does not return.
- **Colour reader.** The colour generators take the colour reader as a parameter, `Reader`. The generator's own reader is `Codegen.ColorRgba`, which is `ColorInfo.rgba`.

Where the repository's tests and its code disagree, the model follows the code:

- `Tests/MEGADesignTokenTests/TokenCodegenGeneratorTests.swift:252` expects `fooBar`, but `sanitizeSemanticVariableName` appends backticks (extensions.swift:107), as the plugin's test at line 279 expects.
- The plugin's test at line 192-207 expects an `rgba(…)` alpha to be applied in `extractColorData`. The code at parsers.swift:213 does not apply it, and neither does the model.

## Model

| member | source | states |
|---|---|---|
| Model.ColorInfo.Rgba | Plugins/TokenCodegen/Sources/TokenCodegenGenerator/model.swift:7-9 | a colour is present exactly when `parseHex` accepts the value, it is `parseHex`'s colour, and every channel lies in [0, 1] |
| Model.DecodeNumberInfo | Plugins/TokenCodegen/Sources/TokenCodegenGenerator/model.swift:30-35 | decoding succeeds exactly when `parseNumber` accepts the value text; the type is kept, the value is the parsed number, and a failure carries `parseNumber`'s error |
| Model.DecodeWholePixels | Plugins/TokenCodegen/Sources/TokenCodegenGenerator/model.swift:30-35 | a token whose value is `<n>px` decodes to the number n |
| Model.LessIsStrictWeakOrder | Plugins/TokenCodegen/Sources/TokenCodegenGenerator/model.swift:37-39 | `<` looks at values only (the type never matters); it is irreflexive and transitive, and two tokens are unordered only when their values are equal |
| Model.ReferenceHasNoRgba | Sources/Executables/TokenCodegenGenerator/parsers.swift:155 | a value starting with `{Colors.` never parses as a colour, so `resolveColorInfo`'s guard lets it through |
| Decimal.ParseDecimalAlphabet | Sources/Executables/TokenCodegenGenerator/parsers.swift:83 | on decimal text, `Double(text)` only accepts non-empty text made of digits, signs, `.` and `e`/`E` |
| Decimal.ParseDecimalOfNat | Sources/Executables/TokenCodegenGenerator/parsers.swift:83 | the decimal digits of a natural number read back as that number |
| Decimal.NatToStringValue | Sources/Executables/TokenCodegenGenerator/parsers.swift:83 | the digits printed for n spell n |
| Literals.ParseHex | Sources/Executables/TokenCodegenGenerator/parsers.swift:45-69 | after trimming and removing `#`: `invalidInputCharacters` exactly when a non-hex character remains; `invalidInputLength` exactly when all are hex but there are neither 6 nor 8; every parsed channel lies in [0, 1] |
| Literals.ParseHexSixDigits | Sources/Executables/TokenCodegenGenerator/parsers.swift:58-68 | six digits give their three bytes over 255 as red, green and blue, and alpha 1 |
| Literals.ParseHexEightDigits | Sources/Executables/TokenCodegenGenerator/parsers.swift:58-68 | eight digits give their four bytes over 255 as red, green, blue and alpha |
| Literals.HexValueAppend | Sources/Executables/TokenCodegenGenerator/parsers.swift:59 | the scanned value of two digit runs is the first shifted left by the second's length, plus the second |
| Literals.ParseHexRoundTrip | Sources/Executables/TokenCodegenGenerator/parsers.swift:45-69 | three bytes printed as `#rrggbb` parse back to those bytes over 255, with alpha 1 |
| Literals.ParseHexRoundTripWithAlpha | Sources/Executables/TokenCodegenGenerator/parsers.swift:45-69 | four bytes printed as `#rrggbbaa` parse back to those bytes over 255 |
| Literals.HexByte | Sources/Executables/TokenCodegenGenerator/extensions.swift:88 | `%02x` of a byte is two hex digits, with no `#` and no white space |
| Literals.ParseNumber | Sources/Executables/TokenCodegenGenerator/parsers.swift:80-88 | succeeds exactly when the text, with every `px` deleted, is a decimal number, and gives that number |
| Literals.ParseNumberIgnoresUnit | Sources/Executables/TokenCodegenGenerator/parsers.swift:81 | a trailing `px` changes neither success nor value |
| Literals.ParseNumberOfNat | Sources/Executables/TokenCodegenGenerator/parsers.swift:80-88 | whole pixel counts such as `150` and `44px` parse to their number |
| Literals.ParseNumberRejectsStrayText | Sources/Executables/TokenCodegenGenerator/parsers.swift:83-85 | on decimal text, any character a decimal number cannot hold, left after deleting `px`, makes the parse fail with `invalidInput` |
| Literals.ParseInput | Sources/Executables/TokenCodegenGenerator/parsers.swift:15-29 | an accepted path names `tokens.json`, holds no comma or bracket, has no surrounding blanks, and occurs in the input with its brackets removed; input that does not mention `tokens.json` once brackets are removed is refused with `wrongArguments` |
| Literals.ParseInputSinglePath | Sources/Executables/TokenCodegenGenerator/parsers.swift:15-29 | `[<path>]` with one path naming `tokens.json` is accepted and gives that path |
| Literals.ParseInputRejectsOtherFile | Sources/Executables/TokenCodegenGenerator/parsers.swift:24-26 | a single clean path in brackets that does not name `tokens.json` is refused with `wrongArguments` |
| Literals.ParseInputRejectsEmpty | Sources/Executables/TokenCodegenGenerator/parsers.swift:16-26 | `[]` names no path and is refused with `wrongArguments` |
| Literals.ParseInputRejectsTwoPaths | Sources/Executables/TokenCodegenGenerator/parsers.swift:24-26 | two comma-separated paths are refused with `wrongArguments` |
| Strings.ContainsOfTrim | Sources/Executables/TokenCodegenGenerator/parsers.swift:20-21 | whatever the trimmed text contains, the text contains |
| Strings.ContainsOfSplit | Sources/Executables/TokenCodegenGenerator/parsers.swift:18 | whatever a piece of a split contains, the split text contains |
| Literals.TrimIsInfix | Sources/Executables/TokenCodegenGenerator/parsers.swift:21 | trimming adds no character |
| Strings.Split | Sources/Executables/TokenCodegenGenerator/extensions.swift:15 | `split(separator:)` gives non-empty pieces without the separator, made of the input's characters |
| Strings.JoinSplit | Sources/Executables/TokenCodegenGenerator/extensions.swift:15-17 | joining the pieces of a split is the input with the separator removed |
| Strings.IndexOf | Sources/Executables/TokenCodegenGenerator/extensions.swift:41-42 | `range(of:)` finds the first occurrence, and `None` means there is none |
| Strings.Trim | Sources/Executables/TokenCodegenGenerator/parsers.swift:46 | the result neither starts nor ends with a trimmed character |
| Strings.TrimUntrimmed | Sources/Executables/TokenCodegenGenerator/parsers.swift:46 | text that neither starts nor ends with a trimmed character is unchanged |
| Strings.LowerIdempotent | Sources/Executables/TokenCodegenGenerator/extensions.swift:46 | lower-casing twice is lower-casing once |
| Strings.RemoveChars | Sources/Executables/TokenCodegenGenerator/parsers.swift:17 | removing the brackets leaves no bracket and keeps every other character |
| Extensions.ToCGFloat | Sources/Executables/TokenCodegenGenerator/extensions.swift:5-11 | on decimal text, a conversion only succeeds on non-empty decimal-number characters |
| Extensions.ToCGFloatOfNat | Sources/Executables/TokenCodegenGenerator/extensions.swift:5-11 | decimal digits convert to the number they spell |
| Extensions.ToCGFloatRejectsStrayText | Sources/Executables/TokenCodegenGenerator/extensions.swift:5-11 | on decimal text, text such as `abc` converts to `nil` |
| Extensions.Capitalized | Sources/Executables/TokenCodegenGenerator/extensions.swift:16 | same length and same letters ignoring case; a word's first character is not lower case, the others are not upper case |
| Extensions.ToPascalCase | Sources/Executables/TokenCodegenGenerator/extensions.swift:13-18 | no space remains, and ignoring case the result is the input without spaces |
| Extensions.LowerJoinCapitalized | Sources/Executables/TokenCodegenGenerator/extensions.swift:16-17 | capitalising the words changes nothing but case |
| Extensions.PascalCaseOfTwoWords | Sources/Executables/TokenCodegenGenerator/extensions.swift:13-18 | `a b` becomes `a` and `b` each capitalised, joined (`hello world` gives `HelloWorld`) |
| Extensions.ToCamelCase | Sources/Executables/TokenCodegenGenerator/extensions.swift:20-24 | the Pascal-case text with its first character not upper case and the rest unchanged |
| Extensions.CamelCaseOfTwoWords | Sources/Executables/TokenCodegenGenerator/extensions.swift:20-24 | `a b` becomes `a` lower-cased then `b` capitalised (`Hello World` gives `helloWorld`) |
| Extensions.CamelOfPascal | Sources/Executables/TokenCodegenGenerator/extensions.swift:20-24 | camel case lower-cases exactly the first character of the Pascal case |
| Extensions.DeletingPrefix | Sources/Executables/TokenCodegenGenerator/extensions.swift:26-30 | with the prefix present, prefix plus result is the input; without it, the input is unchanged |
| Extensions.AppendBackticks | Sources/Executables/TokenCodegenGenerator/extensions.swift:135-137 | the name is enclosed in backticks and otherwise unchanged |
| Extensions.RemoveSubstringIfNotWholeWord | Sources/Executables/TokenCodegenGenerator/extensions.swift:110-120 | a string equal to the parent ignoring case is kept; otherwise every case-insensitive occurrence is deleted, which never lengthens it |
| Extensions.RemoveLeadingParent | Sources/Executables/TokenCodegenGenerator/extensions.swift:110-120 | a leading parent name, in any case, is deleted along with the parent's other occurrences |
| Extensions.SanitizeNumberVariableName | Sources/Executables/TokenCodegenGenerator/extensions.swift:122-131 | a numeric name gets a leading `_`; any other has no space or dash left |
| Extensions.NumberNameOfTwoWords | Sources/Executables/TokenCodegenGenerator/extensions.swift:122-131 | `--border-radius-a-b` becomes the camel case of `a b` (`fooBar`) |
| Extensions.SanitizeSemanticVariableName | Sources/Executables/TokenCodegenGenerator/extensions.swift:101-108 | the name is enclosed in backticks, with no space or dash inside |
| Extensions.SemanticNameOfTwoWords | Sources/Executables/TokenCodegenGenerator/extensions.swift:101-108 | `--color-<parent>-a-b` under that parent becomes `` `aB` ``, when the parent does not reappear |
| Extensions.NoDashAfterCamelCase | Sources/Executables/TokenCodegenGenerator/extensions.swift:128-129 | camel case introduces no dash |
| Extensions.SanitizeSemanticJsonKeyAsWritten | Sources/Executables/TokenCodegenGenerator/extensions.swift:39-47 | as written: the input is returned unchanged when either marker is missing |
| Extensions.SanitizeTrapsOnEarlyBrace | Sources/Executables/TokenCodegenGenerator/extensions.swift:45-46 | as written, `}{Colors.a}` forms an inverted range, where Swift traps |
| Extensions.SanitizeSemanticJsonKey | Sources/Executables/TokenCodegenGenerator/extensions.swift:39-47 | text without `{Colors.` is returned unchanged |
| Extensions.SanitizeAgreesWhereDefined | Sources/Executables/TokenCodegenGenerator/extensions.swift:39-47 | wherever the source does not trap, the corrected key equals the source's key |
| Extensions.SanitizeReference | Sources/Executables/TokenCodegenGenerator/extensions.swift:36-47 | `{Colors.<path>}` after text with no brace gives the path lower-cased, whatever follows, both in the source as written and in the corrected version |
| Extensions.SanitizeExample | Plugins/TokenCodegen/Tests/TokenCodegenGeneratorTests/TokenCodegenGeneratorTests.swift:274-275 | `rgba( {Colors.Grey.500}, 0.1)` gives `grey.500` |
| Extensions.AlphaValueFromSemanticColors | Sources/Executables/TokenCodegenGenerator/extensions.swift:58-70 | text not starting with `rgba` gives `nil`; the value found on `rgba(<colour>,<alpha>)` is stated by `AlphaOfRgba` |
| Extensions.AlphaOfRgba | Sources/Executables/TokenCodegenGenerator/extensions.swift:58-70 | `rgba(<colour>,<alpha>)` gives the trimmed last argument read as a number |
| Extensions.AlphaExample | Plugins/TokenCodegen/Tests/TokenCodegenGeneratorTests/TokenCodegenGeneratorTests.swift:290-291 | `rgba(<colour>, 0.3)` has alpha 0.3 for any colour without parentheses |
| Extensions.DropFinalLineTerminator | Sources/Executables/TokenCodegenGenerator/extensions.swift:96 | the `$` anchor ignores a final line break: at most two trailing characters are dropped, all of them line terminators |
| Extensions.HexDigitsOfHexColor | Sources/Executables/TokenCodegenGenerator/extensions.swift:78-79 | for a hex colour, trimming and removing `#` leaves exactly the digits the pattern matched |
| Extensions.HexColorExamples | Plugins/TokenCodegen/Tests/TokenCodegenGeneratorTests/TokenCodegenGeneratorTests.swift:294-301 | `#ff0000` and `#FFF` are hex colours; `123456` and `#GGGGGG` are not |
| Extensions.HashedIsHexColor | Sources/Executables/TokenCodegenGenerator/extensions.swift:95-98 | `#` followed by 3, 6 or 8 hex digits is a hex colour |
| Extensions.Clamp01 | Sources/Executables/TokenCodegenGenerator/extensions.swift:86 | the result lies in [0, 1] and equals any alpha already there |
| Extensions.AlphaByte | Sources/Executables/TokenCodegenGenerator/extensions.swift:86-87 | a byte within half a unit of the clamped alpha times 255 |
| Extensions.UpdateHexAlphaAsWritten | Sources/Executables/TokenCodegenGenerator/extensions.swift:72-92 | as written: unchanged without an alpha or a hex colour; otherwise the digits grow by the alpha pair or, when an alpha pair is replaced, keep their length |
| Extensions.AsWrittenAgrees | Sources/Executables/TokenCodegenGenerator/extensions.swift:72-92 | on every hex colour except the three-digit shorthand, the source as written and the corrected version give the same text, so what is proved of the corrected version holds of the source there |
| Extensions.UpdateHexAlphaShorthandBreaks | Sources/Executables/TokenCodegenGenerator/extensions.swift:72-92 | as written, `#rgb` with any alpha becomes `#rgb` plus two digits, which is no hex colour and which `parseHex` refuses |
| Extensions.UpdateHexAlphaShorthandExample | Sources/Executables/TokenCodegenGenerator/extensions.swift:72-92 | as written, `#fff` with alpha 0.5 becomes `#fff80`, which is no hex colour |
| Extensions.UpdateHexAlpha | Sources/Executables/TokenCodegenGenerator/extensions.swift:72-92 | corrected: unchanged without an alpha or a hex colour; otherwise a hex colour with eight digits |
| Extensions.UpdateHexAlphaSpelled | Sources/Executables/TokenCodegenGenerator/extensions.swift:78-90 | the rewritten text is `#`, the red, green and blue digits, and the alpha byte |
| Extensions.RewrittenColour | Sources/Executables/TokenCodegenGenerator/extensions.swift:72-92 | the rewritten colour parses to its red, green and blue digit pairs over 255, with the requested alpha byte over 255 |
| Extensions.ShorthandPairs | Sources/Executables/TokenCodegenGenerator/extensions.swift:96 | a shorthand digit x stands for the byte xx, 17 times its value |
| Extensions.UpdateHexAlphaParses | Sources/Executables/TokenCodegenGenerator/extensions.swift:72-92 | for 6 or 8 digits, the rewritten colour parses with the original red, green and blue and the requested alpha |
| Extensions.WithAlphaByte | Sources/Executables/TokenCodegenGenerator/extensions.swift:88-90 | `#`, six digits and an alpha byte make a hex colour of those bytes |
| Extensions.SixDigitsOfDigits | Sources/Executables/TokenCodegenGenerator/extensions.swift:72-92 | on six digits the corrected version appends the alpha byte, as the source does |
| Extensions.UpdateHexAlphaExample | Plugins/TokenCodegen/Tests/TokenCodegenGeneratorTests/TokenCodegenGeneratorTests.swift:303-306 | `#ff0000` with alpha 0.5 becomes `#ff000080`, as written and corrected |
| Resolution.ReferenceNamesPath | Sources/Executables/TokenCodegenGenerator/parsers.swift:155-160 | `{Colors.<path>}` is a reference, to the lower-cased path |
| Resolution.ResolveLeavesNonReference | Sources/Executables/TokenCodegenGenerator/parsers.swift:155-162 | a value with no further step resolves to itself |
| Resolution.ResolveFollowsReference | Sources/Executables/TokenCodegenGenerator/parsers.swift:157-164 | a value with a step resolves as the entry it refers to |
| Resolution.ResolveNoneIffEndless | Sources/Executables/TokenCodegenGenerator/parsers.swift:154-165 | resolution fails exactly when the chain of references never ends |
| Resolution.ResolveSomeIffEnd | Sources/Executables/TokenCodegenGenerator/parsers.swift:154-165 | resolution yields r exactly when r has no further step and the chain reaches it |
| Resolution.LongChainIsEndless | Sources/Executables/TokenCodegenGenerator/parsers.swift:154-165 | a chain longer than the map has entries never ends, so `|m|` hops lose nothing |
| Resolution.FuelRunsOut | Sources/Executables/TokenCodegenGenerator/parsers.swift:154-165 | a bounded resolution gives up exactly when the chain is longer than its bound |
| Resolution.ResolvedIsFinal | Sources/Executables/TokenCodegenGenerator/parsers.swift:154-165 | a resolved value has no further step, and resolving it again changes nothing |
| Resolution.TwoReferenceChain | Sources/Executables/TokenCodegenGenerator/parsers.swift:154-165 | in a chain a to b to a colour c, all three resolve to c |
| Resolution.ReferenceChainResolves | Sources/Executables/TokenCodegenGenerator/parsers.swift:154-165 | two `{Colors.…}` references ending at a hex colour all resolve to that colour |
| Resolution.ResolveNestedFlatColorData | Sources/Executables/TokenCodegenGenerator/parsers.swift:146-152 | whatever the order, fails exactly when some entry fails to resolve; otherwise every entry is its resolution in the original map, though each lookup uses the partly updated map |
| Resolution.ShortcutResolve | Sources/Executables/TokenCodegenGenerator/parsers.swift:148-149 | resolving against the partly updated map gives the same result as against the original |
| Resolution.ResolvedMapIsIdempotent | Sources/Executables/TokenCodegenGenerator/parsers.swift:143-152 | a resolved map resolves to itself, so resolving twice changes nothing |
| Resolution.ResolvedMapResolvesAlike | Sources/Executables/TokenCodegenGenerator/parsers.swift:143-152 | any value resolves the same in the resolved map as in the original |
| Resolution.SubmapResolve | Sources/Executables/TokenCodegenGenerator/parsers.swift:138-143 | a chain that ends or never ends in a nested map does the same in the whole map |
| Extraction.FullPathSpelling | Sources/Executables/TokenCodegenGenerator/parsers.swift:127 | a full path is lower case: the lower-cased key at the top, otherwise path, dot and key, lower-cased |
| Extraction.ExtractFlatColorData | Sources/Executables/TokenCodegenGenerator/parsers.swift:123-144 | the keys are the full paths of every colour token in the tree; when no paths collide, fails exactly when some chain never ends, and otherwise every entry is its token's resolution in the whole flat map |
| Extraction.PathsAreLowerCase | Sources/Executables/TokenCodegenGenerator/parsers.swift:127 | every key of the flat map is lower case |
| Extraction.LeafIsEntry | Sources/Executables/TokenCodegenGenerator/parsers.swift:129-135 | every colour token is stored under its full path |
| Extraction.ScalarsContributeNothing | Sources/Executables/TokenCodegenGenerator/parsers.swift:129-140 | members that are not objects add no entry |
| Extraction.RawMap | Sources/Executables/TokenCodegenGenerator/parsers.swift:135-139 | with no collision, the flat map holds every token under its path |
| Extraction.LookupKeyAgreesWithSource | Sources/Executables/TokenCodegenGenerator/parsers.swift:207 | wherever the source's `sanitizeSemanticJSONKey` does not trap, the lookup key is the source's key |
| Extraction.ExtractCategory | Sources/Executables/TokenCodegenGenerator/parsers.swift:206-215 | succeeds exactly when every colour's key is in the flat map, each then takes its core value; a failure names a missing colour and its value |
| Extraction.ExtractColorData | Sources/Executables/TokenCodegenGenerator/parsers.swift:202-220 | succeeds exactly when every semantic colour's key is in the flat map, each then takes its core value and the categories are kept; a failure names a missing colour |
| Extraction.LookupOfReference | Sources/Executables/TokenCodegenGenerator/parsers.swift:207-213 | a value holding `{Colors.<path>}` after text with no brace takes the core value at the lower-cased path, which is also the key the source as written computes |
| Codegen.MergeColorData | Sources/Executables/TokenCodegenGenerator/codegen.swift:98-115 | a pair is present exactly when both inputs have it, it holds the two tokens unchanged, and no category is empty |
| Codegen.JoinCategory | Sources/Executables/TokenCodegenGenerator/codegen.swift:107-111 | one category's keys are those in both inputs, each with its two tokens |
| Codegen.ColorRgbaIsParseHex | Plugins/TokenCodegen/Sources/TokenCodegenGenerator/model.swift:7-9 | the reader succeeds exactly when `parseHex` does, with its colour |
| Codegen.GenerateSemanticVariable | Sources/Executables/TokenCodegenGenerator/codegen.swift:190-204 | succeeds exactly when both variants parse; the light failure is reported first; a success carries both colours, its key and its category |
| Codegen.FailureNamesTheVariant | Sources/Executables/TokenCodegenGenerator/codegen.swift:196-202 | a light failure and a dark failure are never the same error |
| Codegen.UnparsableLightComesFirst | Sources/Executables/TokenCodegenGenerator/codegen.swift:196-198 | an unparsable light value fails, whatever the dark value |
| Codegen.ParsedVariantsGenerate | Sources/Executables/TokenCodegenGenerator/codegen.swift:196-204 | two parsable values generate the constant with their two colours |
| Codegen.GenerateSemanticEnum | Sources/Executables/TokenCodegenGenerator/codegen.swift:154-175 | succeeds exactly when every variable parses; the enum is the Pascal case of the category and has one constant per variable; a failure is one variable's error |
| Codegen.GenerateSemanticEnums | Sources/Executables/TokenCodegenGenerator/codegen.swift:119-125 | succeeds exactly when every pair parses; one enum per category, named by its Pascal case, whose constants are exactly the variables `generateSemanticVariable` produces for that category; a failure is one pair's error |
| Codegen.GenerateSemanticTopLevelEnum | Sources/Executables/TokenCodegenGenerator/codegen.swift:117-134 | succeeds exactly when every shared light/dark pair parses; the categories and constants are exactly the shared ones, each constant the variable `generateSemanticVariable` produces from its light and dark tokens; a failure is one shared pair's error |
| Codegen.JoinSuccess | Sources/Executables/TokenCodegenGenerator/codegen.swift:117-125 | enums over the join have exactly the shared categories and variables, each named by its Pascal case and each constant generated from the shared pair's two tokens |
| Codegen.JoinFailure | Sources/Executables/TokenCodegenGenerator/codegen.swift:117-125 | a failure in the join is a failure of a shared pair |
| Codegen.IdentifiersDiffer | Sources/Executables/TokenCodegenGenerator/codegen.swift:22-29 | the radius and spacing enums have different names, both starting with `Token` |
| Codegen.Insert | Sources/Executables/TokenCodegenGenerator/codegen.swift:139 | inserting into a sorted list keeps it sorted and adds exactly that entry |
| Codegen.SortByValue | Sources/Executables/TokenCodegenGenerator/codegen.swift:139 | ascending by value, and a permutation of the input |
| Codegen.GenerateNumberTopLevelEnum | Sources/Executables/TokenCodegenGenerator/codegen.swift:136-152 | named by the input's identifier; one constant per token, in ascending order of value; every token appears and every constant comes from a token |

## Left out

- Decimal.ParseDecimalAlphabet: Swift's `Double(String)` also accepts `inf`, `infinity`, `nan` and hexadecimal floats such as `0x1p4`; the model reads decimal text only and rejects those spellings.
- Literals.ParseNumberRejectsStrayText: holds on decimal text only; `nanpx` or `0x1p4` parse in the source, not in the model.
- Extensions.ToCGFloat: decimal text only; `"inf".toCGFloat()` and `"0x1p4".toCGFloat()` succeed in the source and give `None` here.
- Extensions.ToCGFloatRejectsStrayText: decimal text only, for the same reason.
- Extensions.AlphaValueFromSemanticColors: its own contract states only the `rgba` prefix rule; the value is proved by `AlphaOfRgba` for `rgba(<colour>,<alpha>)` with no parenthesis in either argument and no comma in the alpha, not for other text that starts with `rgba`.
- Extraction.ExtractCategory: uses the corrected key (`LookupKey`). On a value whose first `}` comes before `{Colors.`, the source traps at extensions.swift:45-46; the model instead looks up the text between `{Colors.` and the next `}`. Everywhere else the key is the source's (`LookupKeyAgreesWithSource`).
- Extraction.ExtractColorData: uses the same corrected key, so the same trap is not modelled.
- I/O: reading the token file, writing the output and `main.swift` are not part of this model. The `URL` that `parseInput` builds is replaced by the path string.
- JSON decoding is left out: `JSONSerialization`, `JSONDecoder` and the decoding of `ColorData` and `NumberData`. The model starts from a decoded `Json` tree or from decoded maps. `extractNumberInfo` is only such a decode and is left out too.
- SwiftSyntax output is left out: the text of each declaration, including the `Int(info.value)` comment, `generateImport` and `generateSwiftUIExtensions`. Errors raised only by the syntax tree are left out as well, so `CodeHasWarnings` and `CodeHasErrors` are declared but never produced.
- Floating point: `Double` and `CGFloat` are exact reals. Rounding in `Double(String)`, in `/ 255.0` and in `round` is not modelled. `AlphaByte` rounds halves up, as `round` does for non-negative values.
- Text: ASCII only. There is no Unicode case mapping, grapheme clustering or normalisation. White space is space and tab; white space and newlines add `\n`, `\r`, `\u{0B}` and `\u{0C}`.
- Resolution.ResolveColorInfo: bounded by `|m|` hops. `None` stands for the recursion of the source that never returns; a stack overflow is not modelled.
- Extraction.ExtractFlatColorData: when two tokens collide on one full path after lower-casing, the contract does not say which one survives. That depends on dictionary order.
- Dictionary iteration order is not modelled. Loops pick keys with `:|`, and the number enum takes the order as a parameter, `order`. Every contract holds for any order.
- The order of declarations in the generated enums is not modelled: enums and constants are maps keyed by name.
- Codegen.SortByValue: ties between equal values are not ordered. The source's `sorted(by:)` is not stable, so only ascending values and the permutation are stated.
- Extraction.ExtractColorData: the `rgba(…)` alpha is not applied, because parsers.swift:213 does not apply it.
- Codegen.JoinCategory: stores a category once its inner loop ends, where the source stores each pair as it goes. The resulting map is the same.
- Codegen: colours are read through a `Reader` parameter. The generator's reader is `ColorRgba`.
- The examples from the tests are stated as general lemmas over any words, colours or digits, rather than for single literal strings.

## Findings

| source | as written | input that shows it | evidently intended | confidence | as-written member | corrected member |
|---|---|---|---|---|---|---|
| Sources/Executables/TokenCodegenGenerator/extensions.swift:39-47 | the closing brace is searched from the start of the string, so a `}` before `{Colors.` makes the range's lower bound exceed its upper bound | `}{Colors.a}` (Swift traps forming the range) | search for `}` after `{Colors.`, giving `a` | not executed | Extensions.SanitizeTrapsOnEarlyBrace | Extensions.SanitizeAgreesWhereDefined |
| Sources/Executables/TokenCodegenGenerator/extensions.swift:72-92 | a three-digit shorthand is kept as is and the alpha pair appended | `#fff` with alpha 0.5 gives `#fff80`, which is no hex colour and which `parseHex` refuses | expand the shorthand to six digits first, giving `#ffffff80` | not executed | Extensions.UpdateHexAlphaShorthandBreaks | Extensions.RewrittenColour |

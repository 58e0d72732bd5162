# SvgColor: SVG colour values to vector-drawable colours

This project models `SvgColor`, the converter that turns an SVG colour value
into the `#RRGGBB` / `#AARRGGBB` form used by Android vector drawables, and
proves what it does. The entry point `colorSvg2Vd` trims its input, then tries
these branches in order:

- a `#` value, whose CSS alpha-last forms `#RGBA` and `#RRGGBBAA` (section 5.2
  of CSS Color Module Level 4) get the alpha digits moved to the front;
- `none`, which is fully transparent;
- `rgb(r,g,b)` and `rgba(r,g,b,a)`, whose components are parsed as integers
  or percentages, clamped to 0..255 and printed as two upper-case hex
  digits, alpha first;
- a lookup of the lower-cased value in the colour keyword table of section 4.4
  of SVG 1.1, "Recognized color keyword names", with `null` for an unknown name.

Malformed functional forms throw `IllegalArgumentException` carrying the
untrimmed value.

Files and modules:

- `wrappers.dfy` (`Wrappers`): `Option`, used for Java's `null`, and `Result`,
  whose `IllegalArgument(message)` is the exception.
- `java_text.dfy` (`JavaText`): the library behaviour the converter relies on.
  That is `String.trim`, `String.endsWith`, `String.split(",")` with its
  dropping of trailing empty strings, `toLowerCase(Locale.ENGLISH)`,
  `Integer.parseInt` with its 32-bit range, and `String.format("%02X", n)`
  on 0..255. Each of them except `EndsWith`, a one-line slice comparison,
  comes with the lemmas that pin it down: round trips, idempotence and
  inverse lemmas.
- `svg_color.dfy` (`SvgColor`):
  - `clampColor` and `getColorComponent` as functions;
  - the specification function `Converted`;
  - the method `ColorSvg2Vd`, proved to return exactly `Converted`. Its
    `rgb` and `rgba` branches are the methods `RgbBranch` and `RgbaBranch`.
    They keep the source's `StringBuilder` loops, with invariants tying the
    text built so far to the components parsed so far.
- `svg_color_properties.dfy` (`SvgColorProperties`): the properties of
  `Converted`, and through it of `ColorSvg2Vd`, branch by branch.

Two collaborators are parameters:

- `keywords: map<string, string>` is the keyword table. The predicate
  `KeywordTable` states its shape: lower-case names mapping to `#` and six
  lower-case hex digits. `SampleKeywords` holds five of its real entries.
- `roundedPercent: string -> Option<int>` stands for
  `Math.round(Float.parseFloat(p) * 255f / 100f)` on the text before `%`.
  `None` is the `NumberFormatException`.

Behaviour the proofs make explicit:

- A `#` value is never validated. Lengths other than 5 and 9 come back
  trimmed and otherwise unchanged, so only the other branches are guaranteed
  to give a well-formed colour (`WellFormedOutput`).
- Only the keyword lookup ignores case. `NONE` and `RGB(1,2,3)` reach the
  table and give `null` with the SVG table (`NullOnlyForUnknownKeywords`).
- A component outside the 32-bit `int` range, above or below, is not
  clamped: `parseInt` fails and the exception is thrown (`ComponentOverflow`).
- `rgb(1,2,3,)` is accepted, because `split` drops the trailing empty string
  (`RgbTrailingComma`, `SplitTrailingComma`).

## Model

| member | source | states |
|---|---|---|
| SvgColor.ColorSvg2Vd | src/jvmMain/java/com/android/ide/common/vectordrawable/SvgColor.java:198-248 | the method returns exactly `Converted`: trim, then the hex, `none`, `rgb`, `rgba` and keyword branches in the source's order |
| SvgColor.Converted | src/jvmMain/java/com/android/ide/common/vectordrawable/SvgColor.java:198-248 | what `colorSvg2Vd` returns; its own contract: an exception always carries the untrimmed value. The `SvgColorProperties` lemmas state each branch, and `ColorSvg2Vd` is proved equal to it |
| SvgColor.ReorderHex | src/jvmMain/java/com/android/ide/common/vectordrawable/SvgColor.java:201-209 | the `#` reordering keeps the length and the leading `#`; `HexShortForm`, `HexLongForm`, `HexOtherLengths` and `ReorderHexPermutation` state where each digit goes |
| SvgColor.RgbBranch | src/jvmMain/java/com/android/ide/common/vectordrawable/SvgColor.java:216-228 | split the arguments; not three parts is the exception; otherwise `#` and each component's two digits in order, aborting with the exception at the first component that fails (`RgbColor`) |
| SvgColor.RgbaBranch | src/jvmMain/java/com/android/ide/common/vectordrawable/SvgColor.java:232-244 | as `RgbBranch` with four parts, reading part `(i + 3) % 4` at step `i` so alpha comes first (`RgbaColor`) |
| SvgColor.RgbColor | src/jvmMain/java/com/android/ide/common/vectordrawable/SvgColor.java:216-228 | an `rgb` result is a colour of 7 characters, and an exception carries the original value |
| SvgColor.RgbaColor | src/jvmMain/java/com/android/ide/common/vectordrawable/SvgColor.java:232-244 | an `rgba` result is a colour of 9 characters, and an exception carries the original value |
| SvgColor.FunctionalColor | src/jvmMain/java/com/android/ide/common/vectordrawable/SvgColor.java:221-228 | one `#` and two digits per component, `1 + 2n` characters; the exception carries the original value |
| SvgColor.ClampColor | src/jvmMain/java/com/android/ide/common/vectordrawable/SvgColor.java:265-267 | the result lies in 0..255; it is the value itself inside that range, 0 below it and 255 above it |
| SvgColor.GetColorComponent | src/jvmMain/java/com/android/ide/common/vectordrawable/SvgColor.java:250-262 | a failure of either path is an `IllegalArgumentException` carrying the whole colour value; when each path fails is stated by `ComponentOfPercent`, `ComponentOfNonPercent` and `ComponentRejectsNonDigit` |
| SvgColor.AlphaFirst | src/jvmMain/java/com/android/ide/common/vectordrawable/SvgColor.java:203-206 | the last `w` elements move to the front and the others follow, in order, at the same length |
| SvgColor.AlphaLast | src/jvmMain/java/com/android/ide/common/vectordrawable/SvgColor.java:203-206 | the inverse reordering keeps the length |
| SvgColor.AlphaRoundTrip | src/jvmMain/java/com/android/ide/common/vectordrawable/SvgColor.java:203-206 | moving the alpha part to the front and back again, in either order, is the identity |
| SvgColor.Arguments | src/jvmMain/java/com/android/ide/common/vectordrawable/SvgColor.java:216-232 | the text between `name(` and `)`: two characters plus the name shorter than the colour |
| SvgColor.ComponentValues | src/jvmMain/java/com/android/ide/common/vectordrawable/SvgColor.java:221-226 | all components parse: one value per part; otherwise the exception carries the original value |
| SvgColor.Collect | src/jvmMain/java/com/android/ide/common/vectordrawable/SvgColor.java:223-226 | the values of a sequence of results have its length; a failure carries the one message |
| SvgColor.CollectOkIff | src/jvmMain/java/com/android/ide/common/vectordrawable/SvgColor.java:223-226 | the results collect exactly when each of them is `Ok` (both directions) |
| SvgColor.CollectAt | src/jvmMain/java/com/android/ide/common/vectordrawable/SvgColor.java:223-226 | value `k` of the collected results is the value of result `k` |
| SvgColor.CollectStep | src/jvmMain/java/com/android/ide/common/vectordrawable/SvgColor.java:223-226 | one loop step: the values extend by the next component, or it fails |
| SvgColor.CollectPrefixError | src/jvmMain/java/com/android/ide/common/vectordrawable/SvgColor.java:224 | once one component fails, the whole conversion is the exception: the throw leaves the loop |
| SvgColor.CollectHexStep | src/jvmMain/java/com/android/ide/common/vectordrawable/SvgColor.java:223-226 | one loop step keeps both invariants: the values extend by the component and the text by its two digits; a failure is the exception |
| SvgColor.HexString | src/jvmMain/java/com/android/ide/common/vectordrawable/SvgColor.java:225 | two digits per component |
| SvgColor.HexStringAt | src/jvmMain/java/com/android/ide/common/vectordrawable/SvgColor.java:225 | digits `2k` and `2k+1` are component `k` printed with `%02X` |
| SvgColor.HexStringDigits | src/jvmMain/java/com/android/ide/common/vectordrawable/SvgColor.java:225 | every digit is an upper-case hexadecimal digit |
| SvgColor.HexStringStep | src/jvmMain/java/com/android/ide/common/vectordrawable/SvgColor.java:225 | appending one component appends its two digits |
| SvgColor.HexColor | src/jvmMain/java/com/android/ide/common/vectordrawable/SvgColor.java:222-241 | `#` then the digits: `1 + 2n` characters starting with `#` |
| SvgColor.RotateModulo | src/jvmMain/java/com/android/ide/common/vectordrawable/SvgColor.java:240 | `(i + 3) % 4` reads the last part at step 0 and part `i - 1` after |
| SvgColorProperties.HexShortForm | src/jvmMain/java/com/android/ide/common/vectordrawable/SvgColor.java:203-204 | `#RGBA` becomes `#ARGB`: character `j` of the result is input character `1 + (j + 2) % 4` |
| SvgColorProperties.HexLongForm | src/jvmMain/java/com/android/ide/common/vectordrawable/SvgColor.java:205-206 | `#RRGGBBAA` becomes `#AARRGGBB`: the alpha pair, then the six colour digits |
| SvgColorProperties.HexOtherLengths | src/jvmMain/java/com/android/ide/common/vectordrawable/SvgColor.java:201-208 | any other `#` value comes back trimmed and otherwise unchanged |
| SvgColorProperties.HexIsPermutation | src/jvmMain/java/com/android/ide/common/vectordrawable/SvgColor.java:201-209 | a `#` value never throws or gives `null`; the result keeps the length, the leading `#` and the multiset of characters |
| SvgColorProperties.ReorderHexPermutation | src/jvmMain/java/com/android/ide/common/vectordrawable/SvgColor.java:201-209 | the reordering keeps the length, the `#` and the characters |
| SvgColorProperties.AlphaFirstPermutation | src/jvmMain/java/com/android/ide/common/vectordrawable/SvgColor.java:203-206 | moving the alpha part only permutes the elements |
| SvgColorProperties.HexReorderUndone | src/jvmMain/java/com/android/ide/common/vectordrawable/SvgColor.java:203-206 | moving the alpha digits back to the end recovers the trimmed input |
| SvgColorProperties.NoneIsTransparent | src/jvmMain/java/com/android/ide/common/vectordrawable/SvgColor.java:211-213 | `none`, with any surrounding blanks, gives `#00000000`: alpha, red, green and blue all zero |
| SvgColorProperties.TransparentIsZero | src/jvmMain/java/com/android/ide/common/vectordrawable/SvgColor.java:212 | `#00000000` is the colour of four zero components |
| SvgColorProperties.FunctionalFormsDisjoint | src/jvmMain/java/com/android/ide/common/vectordrawable/SvgColor.java:215-231 | no value is both `rgb(...)` and `rgba(...)` |
| SvgColorProperties.CollectHex | src/jvmMain/java/com/android/ide/common/vectordrawable/SvgColor.java:221-226 | the components convert exactly when each parses; then digits `2k+1`, `2k+2` of the colour are component `k` |
| SvgColorProperties.ComponentResultsRotate | src/jvmMain/java/com/android/ide/common/vectordrawable/SvgColor.java:240 | parsing the rotated parts equals rotating the parsed components |
| SvgColorProperties.RgbOutcome | src/jvmMain/java/com/android/ide/common/vectordrawable/SvgColor.java:215-229 | the exception unless there are exactly 3 parts that each parse, and it carries the value; otherwise 7 characters, `#`, and component `k` at digits `2k+1`, `2k+2` |
| SvgColorProperties.ConvertedRgb | src/jvmMain/java/com/android/ide/common/vectordrawable/SvgColor.java:215-216 | a trimmed `rgb(...)` value is converted by the `rgb` branch on the text between its parentheses |
| SvgColorProperties.RotationIndex | src/jvmMain/java/com/android/ide/common/vectordrawable/SvgColor.java:239-240 | after the rotation, position `k` holds part `(k + 3) % 4` |
| SvgColorProperties.RotationAllOk | src/jvmMain/java/com/android/ide/common/vectordrawable/SvgColor.java:239-240 | the rotated components all parse exactly when the parts do |
| SvgColorProperties.RgbaOutcome | src/jvmMain/java/com/android/ide/common/vectordrawable/SvgColor.java:231-245 | the exception unless there are exactly 4 parts that each parse, and it carries the value; otherwise 9 characters, `#`, and at digits `2k+1`, `2k+2` the component of part `(k + 3) % 4`: alpha, red, green, blue |
| SvgColorProperties.RotatedHex | src/jvmMain/java/com/android/ide/common/vectordrawable/SvgColor.java:237-242 | four components read alpha first succeed exactly when all four parse; then digits `2k+1`, `2k+2` are component `(k + 3) % 4` |
| SvgColorProperties.ConvertedRgba | src/jvmMain/java/com/android/ide/common/vectordrawable/SvgColor.java:215-233 | a trimmed `rgba(...)` value is converted by the `rgba` branch, never by the `rgb` one |
| SvgColorProperties.CollectAlike | src/jvmMain/java/com/android/ide/common/vectordrawable/SvgColor.java:223-226 | results that succeed alike with equal values collect alike, whatever messages they carry |
| SvgColorProperties.FunctionalColorMessage | src/jvmMain/java/com/android/ide/common/vectordrawable/SvgColor.java:224 | the message only labels the exception: success and colour do not depend on it |
| SvgColorProperties.RgbTrailingComma | src/jvmMain/java/com/android/ide/common/vectordrawable/SvgColor.java:216-217 | for every `args`, the empty one included, `rgb(args,)` succeeds exactly when `rgb(args)` does, with the same colour |
| SvgColorProperties.EmptyRgbThrows | src/jvmMain/java/com/android/ide/common/vectordrawable/SvgColor.java:216-219 | `rgb()` (one empty part) and `rgb(,)` (no parts) both throw with their own text as the message |
| SvgColorProperties.RgbArguments | src/jvmMain/java/com/android/ide/common/vectordrawable/SvgColor.java:199-216 | `rgb(args)` is already trimmed, takes the `rgb` branch and has `args` as its arguments |
| SvgColorProperties.SurroundingWhitespaceIgnored | src/jvmMain/java/com/android/ide/common/vectordrawable/SvgColor.java:199 | trimming first changes nothing but the exception message |
| SvgColorProperties.SampleKeywordsWellFormed | src/jvmMain/java/com/android/ide/common/vectordrawable/SvgColor.java:31-180 | the sample entries have the table's shape: lower-case names, `#` and six lower-case hex digits |
| SvgColorProperties.SampleKeysAreKeywords | src/jvmMain/java/com/android/ide/common/vectordrawable/SvgColor.java:33-180 | the sample names are lower-case ASCII words |
| SvgColorProperties.SampleValuesAreColours | src/jvmMain/java/com/android/ide/common/vectordrawable/SvgColor.java:33-180 | the sample values are `#` and six lower-case hex digits |
| SvgColorProperties.KeywordBranch | src/jvmMain/java/com/android/ide/common/vectordrawable/SvgColor.java:247 | any value no earlier branch takes gives the table entry for its lower-cased form, or `null` |
| SvgColorProperties.KeywordCaseInsensitive | src/jvmMain/java/com/android/ide/common/vectordrawable/SvgColor.java:247 | a table name written in any case (other than the literal `none`) converts to its entry |
| SvgColorProperties.SampleKeywordAnyCase | src/jvmMain/java/com/android/ide/common/vectordrawable/SvgColor.java:153 | with the real entry for `red`, the value `" Red "` converts to `#ff0000` |
| SvgColorProperties.KeywordSpellingsAgree | src/jvmMain/java/com/android/ide/common/vectordrawable/SvgColor.java:247 | two spellings that differ only in case and reach the table convert alike |
| SvgColorProperties.NullOnlyForUnknownKeywords | src/jvmMain/java/com/android/ide/common/vectordrawable/SvgColor.java:247 | `null` exactly when the value reaches the table and its lower-cased form is not a key (both directions) |
| SvgColorProperties.ErrorsComeFromFunctionalForms | src/jvmMain/java/com/android/ide/common/vectordrawable/SvgColor.java:219-261 | only `rgb(...)`/`rgba(...)` values throw, always with the untrimmed value as the message |
| SvgColorProperties.HexColorDigits | src/jvmMain/java/com/android/ide/common/vectordrawable/SvgColor.java:225 | every character after the `#` of a built colour is an upper-case hex digit |
| SvgColorProperties.WellFormedOutput | src/jvmMain/java/com/android/ide/common/vectordrawable/SvgColor.java:184-247 | with a well-formed table, a non-`#` value that converts gives `#RRGGBB` or `#AARRGGBB` with hex digits |
| SvgColorProperties.ClampColorProperties | src/jvmMain/java/com/android/ide/common/vectordrawable/SvgColor.java:265-267 | `clampColor` equals `Math.max(0, Math.min(255, val))` and is idempotent |
| SvgColorProperties.ClampColorMonotone | src/jvmMain/java/com/android/ide/common/vectordrawable/SvgColor.java:265-267 | a larger value never gives a smaller component |
| SvgColorProperties.ComponentOfInteger | src/jvmMain/java/com/android/ide/common/vectordrawable/SvgColor.java:259 | a printed 32-bit integer component is parsed and clamped, never an exception |
| SvgColorProperties.ComponentOfNonPercent | src/jvmMain/java/com/android/ide/common/vectordrawable/SvgColor.java:259-261 | without a trailing `%`, the component converts exactly when `parseInt` succeeds (both directions), to the clamped value, and otherwise throws with the colour value |
| SvgColorProperties.ComponentRejectsNonDigit | src/jvmMain/java/com/android/ide/common/vectordrawable/SvgColor.java:259-261 | a component such as `12px`, with a character that is neither a digit nor a leading sign, throws |
| SvgColorProperties.ComponentOverflow | src/jvmMain/java/com/android/ide/common/vectordrawable/SvgColor.java:259-261 | a component above `Integer.MAX_VALUE`, or below `Integer.MIN_VALUE` written with `-`, is the exception, not 255 or 0 |
| SvgColorProperties.ComponentOfPercent | src/jvmMain/java/com/android/ide/common/vectordrawable/SvgColor.java:253-256 | `p%` is `roundedPercent(p)` clamped, or the exception when it does not parse |
| JavaText.Trim | src/jvmMain/java/com/android/ide/common/vectordrawable/SvgColor.java:199 | `trim` never lengthens a string |
| JavaText.TrimStart | src/jvmMain/java/com/android/ide/common/vectordrawable/SvgColor.java:199 | never lengthens |
| JavaText.TrimEnd | src/jvmMain/java/com/android/ide/common/vectordrawable/SvgColor.java:199 | never lengthens |
| JavaText.TrimStartSpec | src/jvmMain/java/com/android/ide/common/vectordrawable/SvgColor.java:199 | drops exactly the leading characters at most U+0020, stopping at the first other one |
| JavaText.TrimEndSpec | src/jvmMain/java/com/android/ide/common/vectordrawable/SvgColor.java:199 | drops exactly the trailing characters at most U+0020, stopping at the last other one |
| JavaText.TrimIsSlice | src/jvmMain/java/com/android/ide/common/vectordrawable/SvgColor.java:199 | the result is a contiguous slice with no trimmable character at either end, and everything removed is trimmable |
| JavaText.TrimOfTrimmed | src/jvmMain/java/com/android/ide/common/vectordrawable/SvgColor.java:199 | a string with no trimmable ends is its own trim |
| JavaText.TrimIdempotent | src/jvmMain/java/com/android/ide/common/vectordrawable/SvgColor.java:199 | trimming twice is trimming once |
| JavaText.Fields | src/jvmMain/java/com/android/ide/common/vectordrawable/SvgColor.java:217 | at least one field, none holding a comma |
| JavaText.FieldsJoin | src/jvmMain/java/com/android/ide/common/vectordrawable/SvgColor.java:217 | joining the fields with commas gives the string back; one more field than commas |
| JavaText.FieldsNoComma | src/jvmMain/java/com/android/ide/common/vectordrawable/SvgColor.java:217 | a comma-free string is a single field |
| JavaText.FieldsAppend | src/jvmMain/java/com/android/ide/common/vectordrawable/SvgColor.java:217 | a comma-free piece followed by a comma is the first field |
| JavaText.FieldsOfJoin | src/jvmMain/java/com/android/ide/common/vectordrawable/SvgColor.java:217 | the fields of comma-free pieces joined with commas are those pieces |
| JavaText.DropTrailingEmpty | src/jvmMain/java/com/android/ide/common/vectordrawable/SvgColor.java:217 | a prefix, ending in a non-empty string, whose removed tail is all empty strings |
| JavaText.Split | src/jvmMain/java/com/android/ide/common/vectordrawable/SvgColor.java:217 | `split(",")`: the string itself when it has no comma; otherwise the fields with trailing empty ones dropped; no piece holds a comma |
| JavaText.SplitJoin | src/jvmMain/java/com/android/ide/common/vectordrawable/SvgColor.java:217 | the pieces joined with commas give the input back, up to commas dropped at its end |
| JavaText.SplitOfJoin | src/jvmMain/java/com/android/ide/common/vectordrawable/SvgColor.java:217 | `split` inverts joining with commas when the last piece is not empty |
| JavaText.SplitTrailingComma | src/jvmMain/java/com/android/ide/common/vectordrawable/SvgColor.java:217 | a trailing comma after a non-empty string does not change the split |
| JavaText.JoinDropped | src/jvmMain/java/com/android/ide/common/vectordrawable/SvgColor.java:217 | the dropped empty strings are the commas at the end |
| JavaText.JoinAppendEmpty | src/jvmMain/java/com/android/ide/common/vectordrawable/SvgColor.java:217 | one more empty field is one more comma |
| JavaText.Repeat | src/jvmMain/java/com/android/ide/common/vectordrawable/SvgColor.java:217 | `n` copies of one character |
| JavaText.LowerChar | src/jvmMain/java/com/android/ide/common/vectordrawable/SvgColor.java:247 | `A`..`Z` lower to `a`..`z`, the Kelvin sign to `k`, all else stays, and no result is upper-case ASCII |
| JavaText.ToLowerSpec | src/jvmMain/java/com/android/ide/common/vectordrawable/SvgColor.java:247 | no upper-case ASCII letter is left; `A`..`Z` become `a`..`z`, the Kelvin sign becomes `k`, and every other character is kept in place |
| JavaText.ToLowerIdempotent | src/jvmMain/java/com/android/ide/common/vectordrawable/SvgColor.java:247 | lowering twice is lowering once |
| JavaText.ParseInt | src/jvmMain/java/com/android/ide/common/vectordrawable/SvgColor.java:259 | `Integer.parseInt`: results lie in the 32-bit range; `""`, `"+"` and `"-"` fail; `ParseIntRoundTrip`, `ParseIntRejectsNonDigit` and `ParseIntOverflow` give both sides |
| JavaText.Decimal | src/jvmMain/java/com/android/ide/common/vectordrawable/SvgColor.java:259 | a non-empty string of decimal digits |
| JavaText.DecimalValue | src/jvmMain/java/com/android/ide/common/vectordrawable/SvgColor.java:259 | decimal digits denote the number they were written from |
| JavaText.ParseIntRoundTrip | src/jvmMain/java/com/android/ide/common/vectordrawable/SvgColor.java:259 | parsing a printed 32-bit integer gives it back, also with a leading `+` |
| JavaText.ParseIntRejectsNonDigit | src/jvmMain/java/com/android/ide/common/vectordrawable/SvgColor.java:259 | any character that is not a decimal digit, except one sign in front, makes `parseInt` fail (for example `1.5`, `12px`) |
| JavaText.ParseIntOverflow | src/jvmMain/java/com/android/ide/common/vectordrawable/SvgColor.java:259 | a value above the 32-bit range fails, with or without `+`, and so does one below it written with `-` |
| JavaText.HexChar | src/jvmMain/java/com/android/ide/common/vectordrawable/SvgColor.java:225 | an upper-case hexadecimal digit |
| JavaText.HexDigitValue | src/jvmMain/java/com/android/ide/common/vectordrawable/SvgColor.java:225 | a digit's value lies in 0..15 |
| JavaText.Hex2 | src/jvmMain/java/com/android/ide/common/vectordrawable/SvgColor.java:225 | `%02X` on 0..255: exactly two upper-case hex digits |
| JavaText.Hex2RoundTrip | src/jvmMain/java/com/android/ide/common/vectordrawable/SvgColor.java:225 | reading the two digits back gives the number that was formatted |
| JavaText.Hex2Injective | src/jvmMain/java/com/android/ide/common/vectordrawable/SvgColor.java:225 | different components print differently |

## Left out

- `VdTree.java` is not part of this model. It reads existing vector-drawable
  files through `org.w3c.dom` and delegates to classes that are not shown.
- The percentage path is not modelled numerically. `Float.parseFloat` and the
  float arithmetic and rounding of `Math.round` become the parameter
  `roundedPercent`. Only the clamp after it and the exception are modelled.
- Only five of the 148 keyword-table entries are written out. Elsewhere the
  table is any map satisfying `KeywordTable`.
- JavaText.ParseInt: accepts only ASCII digits. `Integer.parseInt` also
  accepts other Unicode decimal digits, through `Character.digit`.
- JavaText.ToLower: lowers only `A`..`Z` and the Kelvin sign.
  `toLowerCase(Locale.ENGLISH)` lowers every cased character, and some of
  them into two characters. The result of the table lookup is unaffected:
  the table's keys are lower-case ASCII, and no other character lowers into
  ASCII letters only.
- JavaText.Hex2: is only defined on 0..255. That range is all
  `String.format("%02X", …)` ever receives here, because every component is
  clamped first. The formatter's locale and general machinery are left out.
- Strings are sequences of Unicode code points, not of UTF-16 code units. For
  characters outside the Basic Multilingual Plane, Java's length (the `5`
  and `9` of the hex branch) and `substring` indices count differently.
- The `StringBuilder` capacity hints are left out, and so are the two Java
  `assert` statements on the builder's length. The length is instead proved
  (`RgbColor`, `RgbaColor`).
- A `null` argument is left out: the parameter is annotated `@NonNull`.

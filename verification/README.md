# jsonify core in Dafny

A model of the core of jsonify, a small C++ JSON toolkit, with proofs about it. It covers three parts:

- **The recursive-descent parser** (`JsonParser`). `parse` reads one value from a text. It skips white space and dispatches on one look-ahead character to the object, array, string, boolean, null or number reader. Strings decode escapes, and `\uXXXX` escapes go through `decodeUnicode` to UTF-8. Errors are reported by message. The missing-colon error carries a line and column computed by `currentPos`. `correctJson` inserts the commas it thinks are missing after a closing bracket.
- **The printer** (`printJson`, `printIndent`). It writes a value tree back as text, either compact or indented by a step.
- **The linter** (`lintJson` for a tree and for a text, `lintNumber`). It reports infinite or NaN numbers and turns a parse error into an issue. It also checks keys for duplicates, a warning that can never fire, because a map holds each key once.

## How the code is modelled

- The parser is a family of pure functions over the source text and an offset (module `Parser`). Each returns `Result<Parsed<T>>`: either the value read with the offset after it, or the message of the exception the code would throw.
- The stream is the text. A `peek`, `get` or `unget` is an index step.
- `JsonValue` is the datatype `JsonValues.Value`.
- `JsonObject`, an `unordered_map`, is a Dafny `map`. Its iteration order is a parameter `KeyOrder`: any function listing each key exactly once. Every printer and linter theorem holds for every such order.
- A number is kept as its literal text (`Num`). Floating point is not modelled. In its place:
  - `std::stod` is modelled by how many characters it consumes (`NumberLexing.StrtodLength`), following the C decimal-literal grammar on the characters `parseNumber` collects.
  - Whether the value is in the range of a `double` is a parameter `fits`.
  - How `os << double` writes a number is a parameter `show`.
  - Whether a number is infinite or NaN is a parameter of the linter.
- `std::isspace` is the C locale's, which has six characters: space, tab, newline, vertical tab, form feed and carriage return.
- `std::stoul(hex, nullptr, 16)` in `decodeUnicode` is modelled the way strtoul reads base 16: white space, a sign, an optional `0x` and the longest hex run, with negation modulo 2^64, then the `uint32_t` cast.
- `correctJson` is a method with a loop. Its result is related to a functional definition, and the inserted characters are tracked by a mask.

## What the code does that a reader might not expect

The model follows the code. The proofs make these behaviours explicit:

- **`true`, `false` and `null` never parse.** `parseValue` calls `unget` before `parseBoolean` and `parseNull`. So the boolean token begins with its first letter twice (`"ttrue"`), and `parseNull` compares `"null"` against `"ull"` shifted by one.
- **Text after the value is ignored.** `parse` stops after one value, so `"1,"` parses as `1`.
- **A trailing dot is accepted.** `"1."` is a whole decimal literal for `stod`.
- **Number error messages are merged.** A lexeme that `stod` does not consume completely is reported as "Invalid number format": the "Trailing junk" exception is caught by the `catch (...)` around it.
- **Surrogate pairs are not combined.** Each `\uXXXX` escape is encoded on its own, so a surrogate becomes three bytes starting with `0xED`.
- **A backslash at the end of the text** gives "Unterminated escape sequence", not "Unterminated string".
- **White space** is everything `isspace` accepts, not only the four JSON white-space characters.
- **Strings are printed without escaping.** A string holding `"` or `\` does not read back.
- **The missing-colon position is cast to `int`.** In a text of 2^31 characters or more, the reported line and column can be those of the end of the text or of an earlier character.
- **There is no nesting limit.** `parseValue`, `parseObject` and `parseArray` call each other once per level of nesting with no depth bound and no depth error. A deep enough text exhausts the C++ call stack. The model is a total function and returns a result at any depth.

## Model

| member | source | states |
|---|---|---|
| CharClasses.SpaceRunEnd | jsonparser.cpp:46-55 | skipping white space stops at the end of the text or at the first character `isspace` rejects, never before the start |
| CharClasses.SpaceRunAllSpace | jsonparser.cpp:48-54 | every character skipped is white space, so the skip is the longest white-space run |
| Positions.CurrentPosDescribes | jsonparser.cpp:21-28 | the line is one more than the newlines before the offset; the column is one more than the characters since the last newline; an offset past the end describes the whole text |
| Positions.CurrentPosClamps | jsonparser.cpp:23 | every offset at or past the end reports the position of the end of the text |
| Positions.ScanFromStart | jsonparser.cpp:22-26 | the loop started at line 1, column 1 computes the line and column of the end of the text it scanned |
| ParserSteps.DispatchLiteral | jsonparser.cpp:70-71 | when `t`, `f` or `n` follows the white space, reading the value fails |
| ParserSteps.DispatchOther | jsonparser.cpp:61-74 | at the end of the text the error is "Unexpected end of input"; any other character gives "Unexpected character" naming it |
| ParserSteps.ObjectEmpty | jsonparser.cpp:81-82 | an object whose first character after the white space is `}` is the empty map, and reading ends after the `}` |
| ParserSteps.ArrayEmpty | jsonparser.cpp:114-115 | an array whose first character after the white space is `]` is the empty sequence, and reading ends after the `]` |
| Parser.ParseValue | jsonparser.cpp:58-75 | a successful read consumes at least one character and ends within the text |
| Parser.ParseObject | jsonparser.cpp:78-108 | a successful object read ends after at least one character (its closing brace) and within the text |
| Parser.ParseArray | jsonparser.cpp:111-127 | a successful array read ends after at least one character (its closing bracket) and within the text |
| Parser.ParseString | jsonparser.cpp:130-165 | a successful string read ends after its closing quote, within the text |
| Parser.ParseChars | jsonparser.cpp:137-164 | the character loop, when it succeeds, ends after the closing quote, within the text |
| Parser.ConvertNumber | jsonparser.cpp:202-210 | an accepted lexeme is not empty and becomes the number it spells |
| ParserShape.ValueShape | jsonparser.cpp:58-75 | a successful value is an object exactly when `{` starts it, an array exactly for `[`, a string for `"`, a number for a digit or `-`, and never contains a literal |
| ParserShape.ObjectShape | jsonparser.cpp:78-108 | a read object holds no literal, and it is empty exactly when `}` is the first character after the white space |
| ParserShape.ArrayShape | jsonparser.cpp:111-127 | a read array holds no literal, and it is empty exactly when `]` is the first character after the white space |
| ParserShape.ParseHasNoLiterals | jsonparser.cpp:39-43 | whatever the text, a successful `parse` yields a tree with no null and no boolean at any depth |
| ParserShape.CollectKeys | jsonparser.cpp:98 | the keys of the object built by `obj[key] =` are exactly the keys of its entries |
| ParserShape.CollectValues | jsonparser.cpp:98 | every member of the object built by `obj[key] =` is one of the entries read |
| ParserProperties.CollectLastWriteWins | jsonparser.cpp:98 | for a key given more than once, the object holds the value of its last entry |
| ParserShape.ConvertNumberSpec | jsonparser.cpp:202-210 | a lexeme is accepted exactly when it has a digit, `stod` consumes all of it, and it is in range; a lexeme without a digit gives "Number without digits", and every other rejection gives "Invalid number format" |
| ParserShape.NumberValue | jsonparser.cpp:192-211 | a number value is the whole run of number characters after the white space, whenever that run is an accepted lexeme |
| NumberLexing.NumberRunEnd | jsonparser.cpp:196-201 | the lexeme ends at the end of the text or at a character outside `0-9 . e E + -`, never before its start |
| NumberLexing.NumberRunAllNumberChars | jsonparser.cpp:196-201 | every character of the lexeme is one of `0-9 . e E + -`, so it ends at the first character outside them |
| NumberLexing.DigitFromIff | jsonparser.cpp:195-202 | the `hasDigit` flag is set exactly when some character of the lexeme is a digit |
| NumberLexing.StrtodWholeIff | jsonparser.cpp:205-206 | `stod` consumes the whole lexeme exactly when the lexeme is a decimal literal: sign, digits with at most one point and at least one digit, and an exponent only with digits |
| Parser.ParseNumber | jsonparser.cpp:192-211 | a successfully read number ends exactly where the run of number characters ends, after at least one character |
| Parser.LiteralTokenRepeatsFirst | jsonparser.cpp:168-178 | a token that begins with its first letter twice is never `true` or `false` |
| ParserProperties.BooleanRejected | jsonparser.cpp:168-178 | a text starting with `t` or `f` fails with "Invalid boolean: " followed by the first letter and then the whole run of letters |
| ParserProperties.LiteralsRejected | jsonparser.cpp:70-71 | `true` gives "Invalid boolean: ttrue", ` false ` gives "Invalid boolean: ffalse", and `null` gives "Invalid null" |
| ParserProperties.LiteralStartRejected | jsonparser.cpp:181-189 | every text whose first non-white-space character is `t`, `f` or `n` fails to parse |
| ParserProperties.TrailingInputIgnored | jsonparser.cpp:39-43 | appending any text after a root object, array or string that was read to the end gives the same result; after a root number, any text that does not begin with a number character |
| ParserProperties.ArrayThenDigit | jsonparser.cpp:39-43 | `[]5` is accepted as the empty array: the digit after the closing bracket is never read |
| ParserProperties.ValueExtends | jsonparser.cpp:58-75 | a successful read depends only on the characters it consumed: appending text changes nothing after an object, an array or a string, and after a number nothing as long as the next character cannot continue it |
| ParserProperties.TrailingCommaExample | jsonparser.cpp:39-43 | `1,` parses as the number 1 |
| ParserProperties.TrailingDotAccepted | jsonparser.cpp:203-207 | `1.` parses as a number |
| ParserProperties.DoubleSignRejected | jsonparser.cpp:203-210 | `1e++3` fails with "Invalid number format", because `stod` stops before the second sign |
| ParserProperties.NumberStartErrors | jsonparser.cpp:72-202 | `-` alone fails with "Number without digits"; `.5` fails with "Unexpected character '.'" because a point cannot start a value |
| ParserProperties.KeyNeedsQuote | jsonparser.cpp:85-87 | a member that does not start with `"` after the white space fails with the key error, and so does the member loop |
| ParserProperties.MissingColon | jsonparser.cpp:90-95 | a key not followed by `:` fails; the message gives the line and column of the offset `currentPos` receives, clamped to the text: the character read in its place when that lies below offset 2^31, and the end of the text when nothing was left to read |
| ParserProperties.ColonOffsetSpec | jsonparser.cpp:91 | `int(is.tellg()) - 1` as a `size_t`: the failed-read offset 2^64 - 2 at the end of the text; otherwise the offset modulo 2^32, moved up by 2^64 - 2^32 when that residue reaches 2^31 |
| ParserProperties.TellAfterRead | jsonparser.cpp:91 | after a read at offset `c`, `size_t(int(is.tellg()) - 1)` is `c` modulo 2^32 when that residue is below 2^31, and 2^64 - 2^32 plus the residue otherwise |
| ParserProperties.ColonOffsetTruncated | jsonparser.cpp:91 | past 2^31 characters the cast misplaces the report: offsets from 2^31 to 2^32 - 1 name the end of the text, and larger ones name the character at the offset modulo 2^32 |
| ParserProperties.MembersSeparator | jsonparser.cpp:100-105 | an entry followed by anything but `,` or `}` fails with "Expected ',' or '}' in object" |
| ParserProperties.ObjectTrailingComma | jsonparser.cpp:84-106 | a comma directly before `}` fails with the key error |
| ParserProperties.ItemsSeparator | jsonparser.cpp:119-124 | an element followed by anything but `,` or `]` fails with "Expected ',' or ']' in array" |
| ParserProperties.ArrayTrailingComma | jsonparser.cpp:117-125 | a comma directly before `]` fails with "Unexpected character ']'" |
| ParserProperties.ParseCharsOfEscape | jsonparser.cpp:137-163 | the escaped form of any string, closed by a quote, reads back as that string and ends after the quote |
| ParserProperties.QuotedStringParses | jsonparser.cpp:130-165 | a quoted, escaped string reads back as itself whatever follows it |
| ParserProperties.UnterminatedString | jsonparser.cpp:137-164 | a string with no quote and no backslash before the end of the text fails with "Unterminated string" |
| ParserProperties.EscapeErrors | jsonparser.cpp:140-158 | a backslash at the end gives "Unterminated escape sequence"; an unknown escape gives "Invalid escape sequence"; fewer than four characters after `\u` give "Incomplete Unicode escape" |
| ParserProperties.UnicodeEscapeStep | jsonparser.cpp:150-156 | a `\u` escape of four hex digits adds the UTF-8 encoding of their value and reading goes on after them |
| ParserProperties.SurrogateEncodedAlone | jsonparser.cpp:214-225 | a surrogate code unit is encoded on its own as three bytes, the first `0xED` and the second at least `0xA0` |
| ParserProperties.SurrogatePairNotCombined | jsonparser.cpp:150-156 | a high and a low surrogate escape in a row give six bytes, each unit encoded alone, instead of one four-byte character |
| UnicodeEscape.Stoul16Spec | jsonparser.cpp:215 | on one to four hex digits `stoul` gives their value; every result is below 2^64; for a text of at most four characters (a sign included) the result is below 2^16 or at least 2^64 - 2^16 |
| UnicodeEscape.ToUint32Spec | jsonparser.cpp:215 | the `uint32_t` cast keeps values below 2^16, and a negated small value stays at or above 2^32 - 2^16 |
| UnicodeEscape.Utf8EncodeSpec | jsonparser.cpp:216-233 | encoding succeeds exactly up to 0x10FFFF, with one to four bytes by range, lead bytes tagged by length and continuation bytes tagged `10` |
| UnicodeEscape.Utf8RoundTrip | jsonparser.cpp:216-233 | decoding the bytes written for a code point gives back that code point |
| UnicodeEscape.DecodeUnicodeSpec | jsonparser.cpp:214-235 | four hex digits decode to the UTF-8 encoding of their value, which is one to three bytes |
| Correction.CorrectJson | jsonparser.cpp:238-253 | the loop computes the corrected text, and removing the characters it inserted gives back the input |
| Correction.Inserted | jsonparser.cpp:238-253 | every inserted character is a comma, and the input characters are kept in order |
| Correction.InsertedCommas | jsonparser.cpp:246-249 | after any prefix of the input, every character inserted so far is a comma |
| Correction.CommaAfterIff | jsonparser.cpp:243-250 | a comma is inserted after a character exactly when it is `}` or `]`, an even number of unescaped quotes precede it, an even run of backslashes precedes it, and a next character exists that is not `,`, `}` or `]` |
| Correction.EscapedIffOddRun | jsonparser.cpp:243-244 | the escape flag is set exactly after an odd run of backslashes |
| Correction.InStringIffOddQuotes | jsonparser.cpp:245 | the in-string flag is set exactly after an odd number of unescaped quotes |
| Formatter.Spaces | jsonformatter.cpp:3-5 | `printIndent` writes `n` spaces, and none when `n` is not positive |
| FormatterProperties.LeafTexts | jsonformatter.cpp:8-17 | a null `shared_ptr` and a `Null` print as `null`, booleans as `true` and `false`, and a string between quotes with nothing escaped |
| Formatter.EmptyContainers | jsonformatter.cpp:18-48 | empty arrays and objects print as `[]` and `{}` in both modes and at any indent |
| Formatter.CompactArray | jsonformatter.cpp:18-31 | compact, an array is its elements' texts joined by `,` between brackets, each element printed one step deeper |
| Formatter.PrettyArray | jsonformatter.cpp:18-31 | indented, a non-empty array is a newline, one line per element joined by `,` and a newline, a newline, then the closing bracket at the current indent |
| Formatter.CompactObject | jsonformatter.cpp:32-48 | compact, an object is its members `"key": value` in iteration order, joined by `,` between braces |
| Formatter.PrettyObject | jsonformatter.cpp:32-48 | indented, a non-empty object has one indented line per member in iteration order, joined by `,` and a newline, and the closing brace at the current indent |
| Formatter.ItemsJoined | jsonformatter.cpp:22-27 | the element loop writes the element lines separated by commas, with the comma test `i + 1 < size` |
| Formatter.MembersJoined | jsonformatter.cpp:37-44 | the member loop writes the member lines separated by commas, with the counter `i` compared with `obj.size()` |
| FormatterProperties.CompactIgnoresIndent | jsonformatter.cpp:18-48 | in compact mode the text does not depend on the indent |
| FormatterProperties.CompactNoNewline | jsonformatter.cpp:21-42 | in compact mode no newline is written, unless a string or number text contains one |
| FormatterProperties.QuotesNotEscaped | jsonformatter.cpp:17 | the one-character string `"` prints as `"""`, which parses as the empty string; the one-character string `\` prints as `"\"`, which fails with "Unterminated string" |
| RoundTrip.StringRoundTripIff | jsonformatter.cpp:17 | a printed string parses back to itself if and only if it holds no `"` and no `\` |
| ParserProperties.CharsShrink | jsonparser.cpp:136-164 | the characters the string loop reads are never more than it consumed before the closing quote, and as many only when none of those is a `"` or a `\` |
| RoundTrip.PrintThenParse | jsonformatter.cpp:7-50 | parsing the printed text of a tree gives back the tree with every number replaced by the number its printed text spells, and the tree itself when every number is printed as its own literal. This holds in both modes, at any indent and in any key order, for trees with no null or boolean, no `"` or `\` in strings and keys, and printed number texts the parser accepts |
| RoundTrip.RereadLiterals | jsonformatter.cpp:16 | when every number is printed as its own literal, reading back the printed numbers changes nothing |
| RoundTrip.ValueRoundTrip | jsonformatter.cpp:7-50 | wherever the printed text of such a tree sits in a larger text, followed, when the tree is a number, by the end of the text or a character that cannot continue a number, the parser reads that tree with its numbers reread from their printed text and stops right after it |
| RoundTrip.CollectPairs | jsonformatter.cpp:37-40 | storing a map's entries in any order that lists each key once rebuilds the same map |
| JsonValues.EnumerationSize | jsonformatter.cpp:37-41 | an iteration over a map visits as many keys as the map has, so the last member is the one that gets no comma |
| JsonValues.EnumerationDistinct | jsonparser.h:14 | an iteration over an `unordered_map` never visits a key twice |
| JsonValues.ConsEnumerates | jsonparser.h:14 | a key followed by an iteration of the remaining keys is an iteration of the whole map |
| Linter.LeafIssues | jsonlinter.cpp:5-12 | a null `shared_ptr`, `Null`, booleans and strings have no issues; a number has exactly one issue when it is infinite or NaN, and none otherwise |
| Linter.Unvisited | jsonlinter.cpp:38-43 | when the loop reaches a key, that key is not yet in `seenKeys` |
| Linter.OnlyNumberIssues | jsonlinter.cpp:27-58 | every issue of a tree is the inf-or-NaN error, so the duplicate-key warning is never reported |
| Linter.ContainerIssues | jsonlinter.cpp:27-58 | an array's issues are its elements' issues in order, and an object's are its values' issues in iteration order |
| Linter.ItemsFlatten | jsonlinter.cpp:50-55 | the element loop appends each element's issues in order |
| Linter.MembersFlatten | jsonlinter.cpp:38-47 | the member loop appends each value's issues in iteration order, with nothing else added |
| Linter.SourceIssues | jsonlinter.cpp:14-25 | when the text does not parse, the issues are one error carrying the parser's message; otherwise they are the tree's issues; either way every issue is an error with line and column -1 |

## Left out

- File input (`loadFromFile`), the command-line front end (`main`) and stream I/O. The model works on the text held in memory.
- Floating point. Numbers are their literal text. `stod`'s range error is the parameter `fits`. The text `os << double` writes is the parameter `show`. `isinf`/`isnan` is a parameter of the linter.
- The `pos.line`/`pos.col` counters that `skipWhitespace`, `parseString` and the other readers update. No message uses them; the only position reported comes from `currentPos`, which is modelled.
- Null `shared_ptr` children. The parser never builds them, so only the root of a tree may be null (`Option<Value>`).
- `char` signedness and bytes outside 0-255. Characters are Dafny `char`s. `decodeUnicode`'s output bytes are characters 0-255.
- Integer overflow of `indent + indentStep`. Indents are unbounded integers.
- The `int(is.tellg()) - 1` of the missing-colon message is modelled with 32-bit wrap-around (`Parser.ColonOffset`). At offset 2^31 - 1 the subtraction overflows an `int`, which C++ leaves undefined; the model takes the two's-complement result there.
- `std::to_string` in the colon message is modelled by `Positions.NatToString`. Its contract only says the result is not empty; its digits are not related to the number.
- `lintJson(const std::string&)` is modelled (`Linter.LintSource`), although its declaration is commented out in jsonlinter.h.
- The internal-error branch of `parseString` (a call without an opening quote) cannot be reached from `parseValue`. The model's `ParseString` fails with the same message in that case, and no property is stated about it.
- Parser.ParseValue, Parser.ParseObject, Parser.ParseArray, Parser.ParseString, Parser.ParseChars: their own contracts only bound the offset where reading stops. What they read is stated by the `ParserSteps`, `ParserShape` and `ParserProperties` lemmas in the table.
- RoundTrip.PrintThenParse: the round trip is stated only for trees the printer writes readably. Nulls, booleans, and strings holding `"` or `\` do not read back: see `ParserProperties.LiteralsRejected` and `RoundTrip.StringRoundTripIff`. Numbers come back as the number their printed text spells. Whether that is the same `double` depends on the six significant digits `os << double` writes by default, and floating point is not modelled.
- Nesting depth. The code has no depth limit and a deep enough text overflows the C++ call stack. The model has no stack, so it returns a parse result at every depth.

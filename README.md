# JsonParser engine in Dafny

A model of the JSON engine of JsonParser: the byte lexer (lexer.h), the recursive-descent
parser in its strict and lenient modes (parser.cpp), the node tree and its queries (json.h,
json.cpp), the pretty and compact printers (json.cpp) and `Utils::SplitString` (utils.cpp).

- `Bytes` (bytes.dfy): bytes as `char`s below 256. The lexer's `(char)-1` sentinel is the
  byte 0xFF. The module also has decimal text, C strings up to the first NUL, `strncpy`, and
  the narrowing `int res = std::stoll(...)`.
- `Lexing` (lexer.dfy): the lexer state as the value `Cursor`. Its reads are functions.
  The class `Lexer` updates the index, line and column in place, and each of its methods is
  proved to reach the `Cursor` function of the same name. Line and column wrap modulo 2^32.
- `Json` (json.dfy): the tagged union `Node` as a datatype, with the queries `operator[]`,
  the conversion operators and `getSize`. Each query returns its value or the message of the
  `std::runtime_error` it throws.
- `Conversions` (conversions.dfy): `std::stoll` with its `invalid_argument` and
  `out_of_range` exceptions, and the syntax `std::stold` accepts, with its
  `invalid_argument` exception.
- `Grammar` (grammar.dfy): each parse method as a function of the mode and the state. The
  state is the cursor plus the diagnostics printed so far. A result is a value and the next
  state, or a failure: the `runtime_error` of strict mode, or a conversion exception, which
  escapes in both modes. `GrammarSteps` (steps.dfy) unfolds each function one step at a time.
- `Parsing` (parser.dfy): the class `Parser`. Its methods run the source's loops in place and
  are proved equal to the `Grammar` functions.
- `Printing` (printer.dfy): `PrettyPrint` and `CompactPrint` as the bytes they write.
  Writing a double is a formatting parameter.
- `RoundTrip` (roundtrip.dfy): the compact text of every tree the printer writes faithfully
  parses back to that tree, in both modes, with no diagnostic.
- `PrettyLayout` (layout.dfy): the pretty text and the compact text differ only in
  whitespace.
- `Quirks` (quirks.dfy): behaviour of the code as written, on concrete inputs.
- `Utils` (utils.dfy): `SplitString` as its own `do`/`while` loop, proved equal to a
  specification. With a one-byte delimiter it is also proved equal to a reference splitter,
  and it inverts joining.
- `JsonApi` (api.dfy): `JsonParser::Parse` and `JsonParser::ParsePartially`.

Where the design description and the code disagree, the model follows the code:
- CR LF adds one line, as it should, but consumes three bytes. The column is set to 0, then
  the loop skips two bytes and `skipChar` skips one more, so the byte after the pair is
  consumed too (`Lexing.CrLfSwallowsNextByte`).
- A line break does not leave the column at 0. After a lone CR or LF it is 1; after CR LF it
  is 3 (`Lexing.LineBreakStep`).
- A blank or tab advances the column by 2 (`Quirks.BlankTakesTwoColumns`).
- Neither mode requires commas between members or elements. Both modes read `[1 2]` as two
  elements (`Quirks.CommasOptional`).
- `PrettyPrint` writes an empty object as `{`, newline, `}`, newline, not `{ }`. It writes an
  empty array as `[  ]` and a newline, which strict parsing rejects (`Quirks.PrettyEmptyArray`).
- A missing closing quote makes the parser skip to the next `}`, whatever the value's
  context (`Grammar.ParseString`).
- The `.` of a fraction is not kept: `parseDecimal` skips it and returns only the digits
  after it, so `1.5` becomes the Double of the text `15` (`RoundTrip.FractionDropsDot`,
  `Quirks.FractionWithoutDot`).
- The lenient array loop does not always end at the end of input (see Findings).

## Model

| member | source | states |
|---|---|---|
| Bytes.Signed | lexer.h:16-27 | the byte value -1 (the sentinel) is exactly the byte 0xFF; bytes below 128 are non-negative |
| Bytes.NatToStringValue | json.cpp:94-96 | the decimal digits written for a number read back as that number |
| Bytes.IntToString | json.cpp:94-96 | the decimal text of a number starts with `-` exactly when it is negative; otherwise it is all digits, and after the `-` all digits |
| Bytes.CString | json.cpp:61 | what a `const char*` reader sees: the longest NUL-free prefix, stopped by the NUL |
| Bytes.StrNCpy | parser.cpp:187-190 | `strncpy` keeps the length, copies the bytes before the first NUL and fills the rest with NULs |
| Bytes.StrNCpyOfNulFree | parser.cpp:189 | a NUL-free source is copied unchanged |
| Bytes.NarrowToInt | parser.cpp:214 | `int res = <long long>` yields a value in the 32-bit range that is congruent to the input mod 2^32, and is the identity on that range |
| Lexing.CharacterClasses | lexer.h:85-92 | `IsNumber` holds exactly for `-` and the ten digits; `IsAlphaNum` exactly for the ten digits and the 26 lower- and 26 upper-case ASCII letters |
| Lexing.Cursor.Peek | lexer.h:22-27 | the sentinel appears at and past the end of the text, and for a 0xFF byte; otherwise the byte under the cursor |
| Lexing.Cursor.PeekAt | lexer.h:16-21 | past the end: the sentinel; at the end: the terminating NUL; otherwise the byte `forward` places ahead |
| Lexing.Cursor.PeekStr | lexer.h:28-35 | nothing at the end of the input, otherwise the next `min(n, remaining)` bytes of the text |
| Lexing.Cursor.WhitespaceStep | lexer.h:48-68 | a loop iteration keeps the text and moves the index forward |
| Lexing.Cursor.SkipWhitespace | lexer.h:46-69 | stops at a byte that is not whitespace, never moves back, and changes nothing at a non-whitespace byte |
| Lexing.LineBreakStep | lexer.h:50-67 | a line break adds one line; a lone CR or LF leaves column 1 after one byte, CR LF leaves column 3 after three bytes |
| Lexing.CrLfSwallowsNextByte | lexer.h:51-56 | after CR LF, skipping goes on three bytes further, so the byte after the pair is never examined |
| Lexing.SkipBlankRun | lexer.h:46-69 | over a run of spaces, tabs and LFs, skipping stops exactly at the run's end and adds the run's LF count to the line |
| Lexing.Lexer.constructor | lexer.h:12-14 | a new lexer is at index 0, line 1, column 0 |
| Lexing.Lexer.SkipChar | lexer.h:36-40 | one byte and one column further (column mod 2^32), line unchanged |
| Lexing.Lexer.SkipChars | lexer.h:41-45 | `count` bytes and columns further, line unchanged |
| Lexing.Lexer.SkipWhitespace | lexer.h:46-69 | the in-place loop reaches the state `Cursor.SkipWhitespace` describes, at a byte that is not whitespace |
| Lexing.Lexer.WhitespaceStep | lexer.h:49-68 | one loop body in place equals `Cursor.WhitespaceStep` |
| Json.GetType | json.h:42-45 | the tag is the node's constructor, one tag per constructor |
| Json.NewNode | json.cpp:120-123 | the zero-filled node has the first tag, None |
| Json.IndexCheckAdmitsOutOfBounds | json.cpp:127 | the bounds test as written accepts index 2^32 on a one-element array |
| Json.At | json.cpp:125-133 | indexing succeeds exactly on an Array below its length and then yields that element; otherwise it fails with "Invalid array index." |
| Json.IndexCheckPasses | json.cpp:127 | the test as written passes only on a non-empty Array, and always passes below the length |
| Json.IndexCheckAgreesBelow32 | json.cpp:127 | below 2^32 the test as written and the full test agree |
| Json.AtSucceedsBelowSize | json.cpp:189-194 | on an Array, indexing succeeds exactly below `getSize()` |
| Json.Lookup | json.cpp:135-145 | on an Object, returns the value of the first member whose name matches the key up to its NUL; fails "Invalid index." when none matches and "Node is not an object." for other nodes |
| Json.AsString | json.cpp:147-152 | a String yields its bytes up to the first NUL; any other node fails "Node is not a string." |
| Json.AsBool | json.cpp:168-173 | a Boolean yields its value; any other node fails "Node is not a boolean." |
| Json.AsInt64 | json.cpp:154-166 | an Integer yields its value, a Double its truncation; any other node fails "Node is not a number." |
| Json.AsDouble | json.cpp:175-187 | an Integer yields its widening, a Double its value; any other node fails "Node is not a number." |
| Json.NumbersConvertAlike | json.cpp:154-187 | a node converts to double exactly when it converts to int64, and both fail with the same message |
| Json.GetSize | json.cpp:189-202 | Arrays, Objects and Strings have as size their element, member and byte counts; any other node fails "Node does not have a size." |
| Conversions.StoLL | parser.cpp:214 | a converted value fits 64 bits and the text starts with a digit or a sign followed by a digit |
| Conversions.StoLLOfIntToString | parser.cpp:214 | `std::stoll` reads back the decimal text of every 64-bit value, whatever non-digit follows |
| Conversions.StoldAccepts | parser.cpp:221 | an accepted text is non-empty, and every text starting with a digit is accepted |
| Conversions.StoldAcceptsIntegers | parser.cpp:212-221 | every text `std::stoll` converts is one `std::stold` converts |
| Grammar.Report | parser.cpp:294-320 | strict mode throws the diagnostic; lenient mode appends it to the printed log and goes on |
| Grammar.SkipUntil | parser.cpp:98-99 | the recovery loop stops at the first target byte or at the end, skipping no target byte, without changing the line |
| Grammar.Expect | parser.cpp:95-100 | at the wanted byte nothing happens; otherwise the byte is reported and the cursor skips to the target; the state only moves forward |
| Grammar.ParseJson | parser.cpp:17-28 | parsing moves only forward and prints nothing in strict mode; lenient mode fails only on a conversion; a strict result ends at the end of the input |
| Grammar.ParseElement | parser.cpp:30-36 | the element is followed by a byte that is not whitespace |
| Grammar.ParseValue | parser.cpp:38-50 | every value parse moves forward and, in lenient mode, fails only on a conversion |
| Grammar.ParseLiteral | parser.cpp:52-87 | the same for `false`, `true`, `null` and an unknown byte |
| Grammar.ParseObject | parser.cpp:90-103 | an Object is parsed and the cursor has moved |
| Grammar.ParseMembers | parser.cpp:105-124 | the members loop ends at `}` or at the end of the input |
| Grammar.MembersLoop | parser.cpp:108-115 | the loop keeps the members collected so far as a prefix of its result and ends at `}` or the end |
| Grammar.AfterItem | parser.cpp:112-114 | whitespace and an optional comma keep the text and move forward |
| Grammar.ParseMember | parser.cpp:126-143 | a member parse always moves the cursor |
| Grammar.ParseArray | parser.cpp:145-173 | an Array is parsed and the cursor has moved |
| Grammar.ArrayIteration | parser.cpp:151-155 | one iteration of the array loop as written moves only forward |
| Grammar.ElementsLoop | parser.cpp:149-156 | the corrected loop keeps the elements so far as a prefix and ends at `]` or at the end of the input |
| Grammar.ScanString | parser.cpp:182-185 | the scan stops at the first offset past which it cannot continue: the sentinel, or an unescaped closing quote |
| Grammar.Copied | parser.cpp:187-190 | the node keeps exactly `length` bytes |
| Grammar.ParseString | parser.cpp:175-205 | a string parse always moves the cursor; what it reads is stated by RoundTrip.QuotedRoundTrip |
| Grammar.NumberRun | parser.cpp:238-242 | the loop appends exactly the number bytes it passes and stops at one that is not a number byte |
| Grammar.ParseInteger | parser.cpp:229-244 | the text is an optional `-` followed by the run of number bytes after it, exactly the bytes passed; the cursor stops at a byte that is not a number byte; a number byte at the cursor is always consumed |
| Grammar.ParseDecimal | parser.cpp:246-259 | without a `.` nothing is read; after a `.` the text is the run of number bytes that follows it, without the `.`, and the cursor stops at the first byte that is not a number byte |
| Grammar.ExponentHead | parser.cpp:273-280 | the marker byte and an optional `-` or `+` are taken as they are, one or two bytes of the text (or the sentinel at the end) |
| Grammar.ExponentFrom | parser.cpp:273-291 | a non-empty exponent is the text from the marker to the first byte that is not a number byte, all number bytes after the marker except a `+` sign, with nothing printed; an empty one means a lenient report of a non-digit after the marker |
| Grammar.ExponentRun | parser.cpp:281-290 | the marker, its sign and the run of digits after them are one slice of the text |
| Grammar.ParseExponent | parser.cpp:261-292 | a byte that is neither `e`/`E` nor alphanumeric yields an empty exponent and changes nothing; otherwise the exponent is the slice of the text from the marker (or from the byte after a reported stray letter) to the first non-number byte; in lenient mode it never throws |
| Grammar.ParseNumber | parser.cpp:207-227 | an Integer comes only from an empty fraction and exponent and is `NarrowToInt(stoll(integer text))`, within `int` range; a Double keeps the literal integer text + fraction digits + exponent text, which `std::stold` accepts; with a parsed exponent only a conversion fails |
| Parsing.Parser.constructor | parser.cpp:12-15 | a new parser holds a fresh lexer at the start of the text, with nothing printed |
| Parsing.Parser.Error | parser.cpp:294-320 | `error` changes no lexer state and equals `Grammar.Report` |
| Parsing.Parser.RecoverTo | parser.cpp:98-99 | the recovery loop in place reaches `Grammar.SkipUntil` |
| Parsing.Parser.Expect | parser.cpp:95-100 | equals `Grammar.Expect` |
| Parsing.Parser.ParseJson | parser.cpp:17-28 | equals `Grammar.ParseJson` |
| Parsing.Parser.ParseElement | parser.cpp:30-36 | equals `Grammar.ParseElement` |
| Parsing.Parser.ParseValue | parser.cpp:38-50 | equals `Grammar.ParseValue` |
| Parsing.Parser.ParseLiteral | parser.cpp:52-87 | equals `Grammar.ParseLiteral` |
| Parsing.Parser.ParseObject | parser.cpp:90-103 | equals `Grammar.ParseObject` |
| Parsing.Parser.ParseMembers | parser.cpp:105-124 | the loop that pushes members equals `Grammar.ParseMembers` |
| Parsing.Parser.ParseMember | parser.cpp:126-143 | equals `Grammar.ParseMember` |
| Parsing.Parser.ParseArray | parser.cpp:145-173 | the loop that pushes elements equals the corrected `Grammar.ParseArray` |
| Parsing.Parser.ArrayIteration | parser.cpp:151-155 | equals `Grammar.ArrayIteration` |
| Parsing.Parser.ParseString | parser.cpp:175-205 | the counting loop and the copy equal `Grammar.ParseString` |
| Parsing.Parser.AppendNumberBytes | parser.cpp:238-242 | the appending loop equals `Grammar.NumberRun` |
| Parsing.Parser.ParseInteger | parser.cpp:229-244 | equals `Grammar.ParseInteger` |
| Parsing.Parser.ParseDecimal | parser.cpp:246-259 | equals `Grammar.ParseDecimal` |
| Parsing.Parser.ExponentHead | parser.cpp:273-280 | taking the marker and sign in place equals `Grammar.ExponentHead` |
| Parsing.Parser.ExponentFrom | parser.cpp:273-291 | the digit check and loop in place equal `Grammar.ExponentFrom` |
| Parsing.Parser.ParseExponent | parser.cpp:261-292 | equals `Grammar.ParseExponent` |
| Parsing.Parser.ParseNumber | parser.cpp:207-227 | equals `Grammar.ParseNumber` |
| JsonApi.Parse | json.cpp:10-13 | the result of a strict `parseJson` on the text |
| JsonApi.ParsePartially | json.cpp:15-18 | the result of a lenient `parseJson`; only a conversion escapes; a returned tree comes with the printed diagnostics |
| JsonApi.ParseCompactPrint | json.cpp:69-113 | `Parse` and `ParsePartially` read `CompactPrint`'s text back as the printed tree, printing nothing |
| Printing.Spaces | json.cpp:28-29 | the indent is `2 * indent` spaces |
| Printing.Quoted | json.cpp:61 | a string is written as its bytes up to the first NUL between two double quotes |
| Printing.Scalar | json.cpp:48-64 | a scalar writes nothing exactly when it is Null (the `null` output is unreachable after `break`), None, or a Double whose formatting is empty; a String starts with a quote |
| Printing.Pretty | json.cpp:20-67 | an Object is written from `{` and a newline to `}` and a newline; an Array from `[ ` to ` ]` and a newline; a scalar as in the compact printer |
| Printing.PrettyMembers | json.cpp:26-35 | the member lines are empty exactly when no member is left, and otherwise end with a newline |
| Printing.PrettyElements | json.cpp:40-45 | the text has at least 3 bytes for each remaining element but the last: the separator `, ` and its newline |
| Printing.Compact | json.cpp:69-113 | an Object is written between `{` and `}`, an Array between `[` and `]` |
| Printing.CompactMembers | json.cpp:75-81 | the members' text is empty exactly when no member is left, and otherwise starts with a name's quote |
| Printing.CompactElements | json.cpp:86-91 | the text has at least one byte for each remaining element but the last: its comma |
| PrettyLayout.PrettyIsCompact | json.cpp:20-113 | for every node, indent and double format, `PrettyPrint` and `CompactPrint` write the same bytes once whitespace is removed |
| PrettyLayout.MembersAreCompact | json.cpp:26-35 | the pretty member lines and the compact members agree apart from whitespace |
| PrettyLayout.ElementsAreCompact | json.cpp:40-45 | the pretty elements and the compact elements agree apart from whitespace |
| PrettyLayout.MemberLine | json.cpp:28-34 | indent, `": "` and the line feed of a member line are whitespace next to the compact `":"` |
| PrettyLayout.ElementLine | json.cpp:43-44 | the pretty separator `", "` plus a line feed squeezes to the compact `","` |
| PrettyLayout.BracketsAgree | json.cpp:25-46 | the pretty brackets with their blanks and line feeds squeeze to the compact brackets |
| PrettyLayout.SqueezeKeeps | lexer.h:48 | whitespace removal keeps no whitespace byte and leaves text without whitespace unchanged |
| RoundTrip.CompactRoundTrip | json.cpp:69-113 | `parseJson` reads the compact text of every reparsable tree back as that tree, in both modes, with nothing printed |
| RoundTrip.CompactHead | json.cpp:73-107 | the compact text of a reparsable tree starts with a byte that opens a value |
| RoundTrip.QuotedRoundTrip | parser.cpp:175-205 | between two `"` or two `'` quotes, `parseString` reads back the raw content, escapes kept, when it holds no NUL or 0xFF, every quote of its kind is escaped and it does not end in a backslash; it consumes the content and both quotes and prints nothing |
| RoundTrip.StringRoundTrip | parser.cpp:175-205 | `parseString` reads a `"`-quoted text the printer writes back as its content, consuming it and both quotes |
| RoundTrip.ScanLength | parser.cpp:182-185 | the scan passes escaped quotes and stops at the closing quote |
| RoundTrip.CopiedText | parser.cpp:187-190 | the copied bytes are the text when it holds no NUL |
| RoundTrip.NumberRunOver | parser.cpp:238-242 | a run of number bytes ended by a delimiter or whitespace is read whole |
| RoundTrip.IntegerLexeme | parser.cpp:229-244 | `parseInteger` reads the decimal text of an integer whole |
| RoundTrip.IntegerRoundTrip | parser.cpp:207-220 | `parseNumber` reads the text of an `int` back as that Integer |
| RoundTrip.BooleanRoundTrip | parser.cpp:52-71 | `true` and `false` are read back |
| RoundTrip.NullRoundTrip | parser.cpp:72-79 | `null` is read back as Null over its four bytes, by `parseLiteral` and by `parseValue` |
| RoundTrip.ScalarRoundTrip | parser.cpp:38-50 | a reparsable Integer, Boolean or String is read back from its text |
| RoundTrip.ValueRoundTrip | parser.cpp:38-50 | `parseValue` reads back any reparsable tree's compact text |
| RoundTrip.ElementRoundTrip | parser.cpp:30-36 | `parseElement` reads back any reparsable tree's compact text |
| RoundTrip.ObjectRoundTrip | parser.cpp:90-103 | `parseObject` reads back the compact text of a reparsable Object |
| RoundTrip.ArrayRoundTrip | parser.cpp:145-173 | `parseArray` reads back the compact text of a reparsable Array |
| RoundTrip.NameRoundTrip | parser.cpp:126-136 | a member name is read back and the parser stops before the colon |
| RoundTrip.MemberRoundTrip | parser.cpp:126-143 | `parseMember` reads back a member's compact text |
| RoundTrip.MemberIteration | parser.cpp:108-115 | one members-loop iteration reads one member and its comma |
| RoundTrip.MembersRoundTrip | parser.cpp:105-124 | the members loop reads back all remaining members up to `}` |
| RoundTrip.ElementIteration | parser.cpp:149-156 | one array-loop iteration reads one element and its comma |
| RoundTrip.ElementsRoundTrip | parser.cpp:149-156 | the array loop reads back all remaining elements up to `]` |
| RoundTrip.MembersSplit | json.cpp:75-81 | the compact members are the `i`th member, its comma, then the rest |
| RoundTrip.ElementsSplit | json.cpp:86-91 | the compact elements are the `i`th element, its comma, then the rest |
| RoundTrip.CompactMembersHead | json.cpp:77 | compact members start with a quote, or are empty |
| RoundTrip.RunLength | parser.cpp:238-242 | a number run that stops at the first non-number byte covers exactly the number bytes ahead |
| RoundTrip.NumberRunTo | parser.cpp:238-242 | the number loop reads a run of number bytes whole and stops right after it |
| RoundTrip.IntegerPart | parser.cpp:229-244 | `parseInteger` reads a run of digits whole |
| RoundTrip.DecimalPart | parser.cpp:246-259 | `parseDecimal` at `.` and digits returns the digits, having consumed the `.` too |
| RoundTrip.DigitsBeforeDot | parser.cpp:229-244 | digits followed by `.` are read as the integer part and the cursor stops at the `.` |
| RoundTrip.FractionParts | parser.cpp:229-259 | on `i.f`, the integer part is `i` and the fraction part is `f` |
| RoundTrip.FractionDropsDot | parser.cpp:207-259 | `parseNumber` reads the text `i.f` as the Double of the text `i + f`, dropping the `.` |
| Quirks.BlankTakesTwoColumns | lexer.h:50-67 | a blank or a tab advances the column by two |
| Quirks.NoValueIsEmptyObject | parser.cpp:82-87 | a byte that starts no value is reported; lenient mode yields an empty Object without moving |
| Quirks.SpacedIteration | parser.cpp:149-153 | in `[ ]` the array loop takes the `]` after the blank for a value |
| Quirks.SpacedEmptyArrayStrict | parser.cpp:145-153 | `Parse("[ ]")` throws at line 1, column 3 |
| Quirks.SpacedEmptyArrayLenient | parser.cpp:145-173 | `ParsePartially("[ ]")` reports once and yields an array holding one empty Object |
| Quirks.PrettyEmptyText | json.cpp:38-47 | an empty array is pretty-printed as `[  ]` and a newline at any indent |
| Quirks.PrettyEmptyArray | parser.cpp:145-153 | that text is rejected by `Parse` |
| Quirks.DigitLexeme | parser.cpp:229-244 | a lone digit is its own integer text |
| Quirks.DigitValue | parser.cpp:214 | `std::stoll` of one digit is its value |
| Quirks.OneDigit | parser.cpp:207-220 | a one-digit number is that Integer |
| Quirks.FirstUnseparated | parser.cpp:151-155 | in `[1 2]` the first iteration reads `1` and consumes no comma |
| Quirks.SecondUnseparated | parser.cpp:151-155 | the second iteration reads `2` and stops at `]` |
| Quirks.UnseparatedElements | parser.cpp:149-156 | the loop over `[1 2]` collects both elements |
| Quirks.CommasOptional | parser.cpp:145-173 | in both modes `[1 2]` is the Array of 1 and 2 with nothing printed |
| Quirks.EscapedQuoteKept | parser.cpp:182-190 | `"a\"b"` is the String of the four bytes `a\"b`: the escaped quote does not end it and the escape is kept |
| Quirks.SingleQuotedString | parser.cpp:175-205 | `'x'` is the String `x` |
| Quirks.FractionWithoutDot | parser.cpp:246-259 | the text `1.5` is the Double of the text `15`, read whole with nothing printed |
| Quirks.StrayByteStalls | parser.cpp:149-156 | a lenient iteration at a byte that starts no value consumes nothing while the loop condition still holds |
| Quirks.StrayIterationStalls | parser.cpp:149-156 | on `[x]` the first iteration leaves the cursor on the `x` |
| Quirks.StrayElements | parser.cpp:149-156 | the corrected loop steps over the `x` and stops at `]` |
| Quirks.StrayByteSkipped | parser.cpp:145-173 | corrected, `ParsePartially("[x]")` ends with one empty Object and one diagnostic |
| Utils.Find | utils.cpp:10-12 | `find` yields a position at or after `from` where the delimiter occurs, or the length |
| Utils.FindFirst | utils.cpp:10 | no occurrence lies before the position `find` returns |
| Utils.SplitFrom | utils.cpp:8-17 | the iterations from `prev` push nothing at the end of the text and at most one token per remaining byte |
| Utils.Split | utils.cpp:4-19 | at most one token per byte of the text, none for an empty text |
| Utils.SplitContinues | utils.cpp:8-17 | an iteration after which the loop goes on pushes its token and continues past the delimiter |
| Utils.SplitStops | utils.cpp:8-17 | the last iteration pushes only its token |
| Utils.SplitString | utils.cpp:4-19 | the `do`/`while` loop returns exactly the specified tokens |
| Utils.TokensClean | utils.cpp:13-15 | the iterations from any point push no empty token and none containing the delimiter |
| Utils.TokenClean | utils.cpp:10-13 | the text up to the next delimiter does not contain it |
| Utils.SplitTokensClean | utils.cpp:4-19 | no token is empty and none contains the delimiter |
| Utils.SplitEmpty | utils.cpp:4-19 | an empty text has no tokens |
| Utils.SplitWithoutDelimiter | utils.cpp:4-19 | a non-empty text without the delimiter is one token |
| Utils.FindByte | utils.cpp:10 | for a one-byte delimiter `find` is the first position of that byte |
| Utils.SplitFromWords | utils.cpp:8-17 | from any position, the loop yields the words of the rest of the text |
| Utils.WordsStep | utils.cpp:8-17 | an iteration after which the loop goes on pushes the same word as the reference splitter |
| Utils.WordsLast | utils.cpp:8-17 | the last iteration pushes the last word of the text, if any |
| Utils.SplitIsWords | utils.cpp:4-19 | with a one-byte delimiter `SplitString` equals the reference splitter |
| Utils.WordsOfJoin | utils.cpp:4-19 | the reference splitter inverts joining non-empty, delimiter-free tokens |
| Utils.SplitJoin | utils.cpp:4-19 | `SplitString` of such tokens joined by the delimiter gives back the tokens |

## Left out

- The command interpreter, the file I/O, the mutation and search operations, and the test
  drivers (interpreter.cpp, main.cpp, test.cpp, testcmds.cpp, test.py) are not part of this model.
- Floating point: a Double keeps the text given to `std::stold`. Writing it (`fmt`),
  truncating it (`truncate`) and widening an integer (`widen`, `read`) are parameters.
  `std::stold`'s `out_of_range` is not modelled.
- Conversions.StoldAccepts: only the syntax `std::stold` accepts is modelled, not the value it computes.
- Memory: the allocation lists, the releases in strict `error`, `memcpy` into the node
  arrays and `JsonFree` are not modelled. The tree is a value.
- The printed diagnostics are a log, not writes to `std::cout`.
- The 64-bit lexer index is an unbounded natural. The wrap of `m_Idx + count` is not
  modelled. The one wrap the parser relies on, `peek(length - 1)` with `length == 0`, is
  modelled as offset -1.
- PrettyPrint's `uint32_t` indent and loop counter are unbounded naturals. They wrap only
  beyond 2^32 members or nesting levels.
- `std::isdigit` and `std::isalpha` are modelled on ASCII, the "C" locale.
- `char` is signed, so the sentinel `(char)-1` is the byte 0xFF. With an unsigned `char`
  no `peek() != -1` test would ever see the end of input; that platform is not modelled.
- Conversions.StoLL: leading whitespace, which `std::stoll` would skip, is not modelled. The
  parser never passes any.
- Lexing.SkipBlankRun: the line count is stated only while `m_Line` does not wrap past 2^32.
- JsonApi.ParsePartially: the diagnostics printed before a conversion exception escapes are
  not stated.
- Utils.SplitString: requires a non-empty delimiter when the text is non-empty. With an
  empty delimiter the source loop never advances and does not terminate.
- Object loops in both printers compare the index with `m_Data.array.length`. That field
  shares storage with `m_Data.object.length`, so the member count is used.
- Grammar.ParseExponent: when the byte after the marker and sign is not a digit, the contract
  says only that lenient mode returns an empty exponent with a longer log (strict mode
  throws). It does not state the `0-9` message or where the cursor stops.
- Grammar.ExponentFrom: the same for the `0-9` report.
- Printing.Compact: the contract states only the brackets; the scalar bytes are stated by
  Printing.Scalar, and the whole text by the round trip and the layout lemmas.
- Grammar.ElementsLoop: models the corrected loop. The source loop as written is
  `Grammar.ArrayIteration` plus `Quirks.StrayByteStalls` (see Findings).
- Round trip of the pretty text through the parser: not stated. The model proves instead
  that the pretty text equals the compact text apart from whitespace
  (`PrettyLayout.PrettyIsCompact`). The compact text is proved to parse back
  (`RoundTrip.CompactRoundTrip`). An empty array's pretty text does not parse
  (`Quirks.PrettyEmptyArray`).
- RoundTrip.CompactRoundTrip: covers only trees the printer writes faithfully:
  - no Null, None or Double;
  - Integers within `int`;
  - strings and names without NUL, `"`, 0xFF or a trailing backslash.

## Findings

| source | as written | input that shows it | evidently intended | confidence | as-written member | corrected member |
|---|---|---|---|---|---|---|
| parser.cpp:149-156 | the lenient array loop repeats an iteration that consumed nothing: a byte that starts no value is reported, an empty Object pushed, and the cursor left in place, forever | `ParsePartially("[x]")` | step over the offending byte so the loop reaches `]` or the end of input | high; not executed | Quirks.StrayByteStalls | Quirks.StrayByteSkipped |
| json.cpp:127 | the array index is cast to `unsigned int` before the bounds test, so index 2^32 on a one-element array passes and the element read is out of bounds | `(*node)[4294967296]` on `[null]` | compare the full `std::size_t` index with the length | high; not executed | Json.IndexCheckAdmitsOutOfBounds | Json.At |

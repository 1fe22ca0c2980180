/**
 * What each method of the recursive-descent parser in parser.cpp computes, as
 * functions of the parser's state.
 *
 * The state is the lexer's `Cursor` together with the diagnostics the parser has
 * written to `std::cout`. Every parse function takes the mode (`m_ShouldThrow`)
 * and a state, and either yields a value and the state after it, or fails: with
 * the `std::runtime_error` that `error` throws in strict mode, or with the
 * exception `std::stoll` or `std::stold` throws, which escapes in both modes.
 *
 * The class `Parser` in module `Parsing` performs the same steps in place and is
 * proved to agree with these functions.
 */
module Grammar {
  import opened Bytes
  import opened Lexing
  import opened Json
  import opened Conversions

  /** `m_ShouldThrow`: `Strict` throws on the first error, `Lenient` prints it and goes on. */
  datatype Mode = Strict | Lenient

  /** The lexer and the diagnostics printed so far. */
  datatype PState = PState(cur: Cursor, log: seq<seq<Byte>>)

  datatype Failure = Thrown(message: seq<Byte>) | Conversion(error: ConversionError)

  /** The outcome of a parse step: a value and the state after it, or a failure. */
  datatype Res<T> = Parsed(value: T, st: PState) | Failed(failure: Failure)

  /** A bytes value collected by the number scanners, with the cursor after it. */
  datatype Lexeme = Lexeme(text: seq<Byte>, cur: Cursor)

  /** `st2` is reachable from `st`: the same text, the index not moved back, the log only extended. */
  predicate Follows(st: PState, st2: PState) {
    st2.cur.text == st.cur.text && st2.cur.idx >= st.cur.idx && st.log <= st2.log
  }

  /**
   * What every parse step keeps: it moves forward; in strict mode it prints
   * nothing; in lenient mode nothing it does throws, so it fails only on a
   * conversion.
   */
  predicate Sound<T>(mode: Mode, st: PState, r: Res<T>) {
    (r.Parsed? ==> Follows(st, r.st) && (mode == Strict ==> r.st.log == st.log)) &&
    (r.Failed? && mode == Lenient ==> r.failure.Conversion?)
  }

  /** The text of the diagnostic `error(expected, got)` builds. */
  function Message(c: Cursor, expected: seq<Byte>, got: seq<Byte>): seq<Byte> {
    "Unexpected character at " + NatToString(c.line) + ":" + NatToString(c.column) +
    ". Expected \"" + expected + "\" got " + (if got == [] then "blank" else got) + ".\n"
  }

  /** `error(expected, got)`: throw the diagnostic in strict mode, print it in lenient mode. */
  function Report(mode: Mode, st: PState, expected: seq<Byte>, got: seq<Byte>): (r: Res<()>)
    ensures mode == Strict ==> r == Failed(Thrown(Message(st.cur, expected, got)))
    ensures mode == Lenient ==> r == Parsed((), st.(log := st.log + [Message(st.cur, expected, got)]))
  {
    if mode == Strict then Failed(Thrown(Message(st.cur, expected, got)))
    else Parsed((), st.(log := st.log + [Message(st.cur, expected, got)]))
  }

  /**
   * A recovery loop: skip bytes until the target byte or the end of the input.
   * It stops on the first target byte and moves only within the line.
   */
  function SkipUntil(c: Cursor, target: Byte): (r: Cursor)
    ensures r.text == c.text && r.idx >= c.idx && r.line == c.line
    ensures r.Peek() == EOF || r.Peek() == target
    ensures forall p :: c.idx <= p < r.idx && p < |c.text| ==> c.text[p] != target && c.text[p] != EOF
    decreases c.Rem()
  {
    if c.Peek() != EOF && c.Peek() != target then SkipUntil(c.SkipChar(), target) else c
  }

  /**
   * The pattern after a member name, an object's members, an array's elements and a
   * string's content: if the next byte is not `want`, report it and skip to `target`.
   * The caller then skips one byte.
   */
  function Expect(mode: Mode, st: PState, want: Byte, expected: seq<Byte>, target: Byte): (r: Res<()>)
    ensures Sound(mode, st, r)
    ensures st.cur.Peek() == want ==> r == Parsed((), st)
    ensures r.Parsed? ==> r.st.cur.line == st.cur.line
    ensures r.Parsed? && st.cur.Peek() != want ==>
      r.st.cur == SkipUntil(st.cur, target) &&
      r.st.log == st.log + [Message(st.cur, expected, st.cur.PeekStr(1))]
  {
    if st.cur.Peek() == want then Parsed((), st)
    else
      match Report(mode, st, expected, st.cur.PeekStr(1))
      case Failed(f) => Failed(f)
      case Parsed(_, st1) => Parsed((), st1.(cur := SkipUntil(st1.cur, target)))
  }

  /** `parseJson`: one element, then nothing but the end of the input. */
  function ParseJson(mode: Mode, text: seq<Byte>): (r: Res<Node>)
    ensures Sound(mode, PState(Start(text), []), r)
    ensures r.Parsed? && mode == Strict ==> r.st.cur.Peek() == EOF
  {
    var st := PState(Start(text), []);
    match ParseElement(mode, st)
    case Failed(f) => Failed(f)
    case Parsed(v, st1) =>
      if st1.cur.Peek() != EOF then
        match Report(mode, st1, "EOF", st1.cur.PeekStr(1))
        case Failed(f) => Failed(f)
        case Parsed(_, st2) => Parsed(v, st2)
      else Parsed(v, st1)
  }

  /** `parseElement`: a value with the whitespace on both sides of it. */
  function ParseElement(mode: Mode, st: PState): (r: Res<Node>)
    ensures Sound(mode, st, r)
    ensures r.Parsed? ==> !IsWhitespace(r.st.cur.Peek())
    decreases st.cur.Rem(), 2
  {
    match ParseValue(mode, st.(cur := st.cur.SkipWhitespace()))
    case Failed(f) => Failed(f)
    case Parsed(v, st1) => Parsed(v, st1.(cur := st1.cur.SkipWhitespace()))
  }

  /** `parseValue`: dispatch on the next byte. */
  function ParseValue(mode: Mode, st: PState): (r: Res<Node>)
    ensures Sound(mode, st, r)
    decreases st.cur.Rem(), 1
  {
    var b := st.cur.Peek();
    if b == '{' then ParseObject(mode, st)
    else if b == '[' then ParseArray(mode, st)
    else if b == '"' || b == '\'' then
      match ParseString(mode, st)
      case Failed(f) => Failed(f)
      case Parsed(s, st1) => Parsed(String(s), st1)
    else if IsNumber(b) then ParseNumber(mode, st)
    else ParseLiteral(mode, st)
  }

  /**
   * The rest of `parseValue`: the words `false`, `true` and `null`, and otherwise an
   * error, after which an empty Object stands for the value.
   */
  function ParseLiteral(mode: Mode, st: PState): (r: Res<Node>)
    ensures Sound(mode, st, r)
  {
    var p := st.cur.PeekStr(5);
    if StartsWith(p, "false") then Parsed(Boolean(false), st.(cur := st.cur.SkipChars(5)))
    else if StartsWith(p, "true") then Parsed(Boolean(true), st.(cur := st.cur.SkipChars(4)))
    else if StartsWith(p, "null") then Parsed(Null, st.(cur := st.cur.SkipChars(4)))
    else
      match Report(mode, st, NoValue, p)
      case Failed(f) => Failed(f)
      case Parsed(_, st1) => Parsed(Object([]), st1)
  }

  /** The expected text of the error for a byte that starts no value. */
  const NoValue: seq<Byte> := "object/array/string/true/false/number/null"

  /** `parseObject`: `{`, the members, then `}` (or a reported error and a skip to it). */
  function ParseObject(mode: Mode, st: PState): (r: Res<Node>)
    requires st.cur.Peek() == '{'
    ensures Sound(mode, st, r)
    ensures r.Parsed? ==> r.value.Object? && r.st.cur.idx > st.cur.idx
    decreases st.cur.Rem(), 0
  {
    match ParseMembers(mode, st.(cur := st.cur.SkipChar().SkipWhitespace()))
    case Failed(f) => Failed(f)
    case Parsed(ms, st1) =>
      match Expect(mode, st1, '}', "}", '}')
      case Failed(f) => Failed(f)
      case Parsed(_, st2) => Parsed(Object(ms), st2.(cur := st2.cur.SkipChar()))
  }

  /** `parseMembers`: members until `}` or the end of the input. */
  function ParseMembers(mode: Mode, st: PState): (r: Res<seq<Member>>)
    ensures Sound(mode, st, r)
    ensures r.Parsed? ==> r.st.cur.Peek() == EOF || r.st.cur.Peek() == '}'
    decreases st.cur.Rem(), 5
  {
    MembersLoop(mode, st, [])
  }

  /**
   * The loop of `parseMembers` with the members collected so far: skip whitespace,
   * a member, whitespace, and a comma if there is one.
   */
  function MembersLoop(mode: Mode, st: PState, acc: seq<Member>): (r: Res<seq<Member>>)
    ensures Sound(mode, st, r)
    ensures r.Parsed? ==> r.st.cur.Peek() == EOF || r.st.cur.Peek() == '}'
    ensures r.Parsed? ==> acc <= r.value
    decreases st.cur.Rem(), 4
  {
    if st.cur.Peek() == EOF || st.cur.Peek() == '}' then Parsed(acc, st)
    else
      match ParseMember(mode, st.(cur := st.cur.SkipWhitespace()))
      case Failed(f) => Failed(f)
      case Parsed(m, st1) =>
        MembersLoop(mode, st1.(cur := AfterItem(st1.cur)), acc + [m])
  }

  /** What follows a member or an element: whitespace, then a comma if there is one. */
  function AfterItem(c: Cursor): (r: Cursor)
    ensures r.text == c.text && r.idx >= c.idx
  {
    var c := c.SkipWhitespace();
    if c.Peek() == ',' then c.SkipChar() else c
  }

  /** `parseMember`: a string, `:`, then an element. It always moves forward. */
  function ParseMember(mode: Mode, st: PState): (r: Res<Member>)
    ensures Sound(mode, st, r)
    ensures r.Parsed? ==> r.st.cur.idx > st.cur.idx
    decreases st.cur.Rem(), 3
  {
    match ParseString(mode, st.(cur := st.cur.SkipWhitespace()))
    case Failed(f) => Failed(f)
    case Parsed(name, st1) =>
      match Expect(mode, st1, ':', ":", ':')
      case Failed(f) => Failed(f)
      case Parsed(_, st2) =>
        match ParseElement(mode, st2.(cur := st2.cur.SkipChar()))
        case Failed(f) => Failed(f)
        case Parsed(v, st3) => Parsed(Member(name, v), st3)
  }

  /** `parseArray`: `[`, the elements, then `]` (or a reported error and a skip to it). */
  function ParseArray(mode: Mode, st: PState): (r: Res<Node>)
    requires st.cur.Peek() == '['
    ensures Sound(mode, st, r)
    ensures r.Parsed? ==> r.value.Array? && r.st.cur.idx > st.cur.idx
    decreases st.cur.Rem(), 0
  {
    match ElementsLoop(mode, st.(cur := st.cur.SkipChar()), [])
    case Failed(f) => Failed(f)
    case Parsed(es, st1) =>
      match Expect(mode, st1, ']', "]", ']')
      case Failed(f) => Failed(f)
      case Parsed(_, st2) => Parsed(Array(es), st2.(cur := st2.cur.SkipChar()))
  }

  /**
   * One iteration of the loop of `parseArray` as written: whitespace, an element,
   * whitespace, and a comma if there is one.
   */
  function ArrayIteration(mode: Mode, st: PState): (r: Res<Node>)
    ensures Sound(mode, st, r)
    decreases st.cur.Rem(), 3
  {
    match ParseElement(mode, st.(cur := st.cur.SkipWhitespace()))
    case Failed(f) => Failed(f)
    case Parsed(v, st1) =>
      Parsed(v, st1.(cur := AfterItem(st1.cur)))
  }

  /**
   * The loop of `parseArray` with the elements collected so far. An iteration that
   * does not move the cursor (a lenient error on a byte that starts no value) would
   * repeat forever in the source; here the offending byte is skipped.
   */
  function ElementsLoop(mode: Mode, st: PState, acc: seq<Node>): (r: Res<seq<Node>>)
    ensures Sound(mode, st, r)
    ensures r.Parsed? ==> r.st.cur.Peek() == EOF || r.st.cur.Peek() == ']'
    ensures r.Parsed? ==> acc <= r.value
    decreases st.cur.Rem(), 4
  {
    if st.cur.Peek() == EOF || st.cur.Peek() == ']' then Parsed(acc, st)
    else
      match ArrayIteration(mode, st)
      case Failed(f) => Failed(f)
      case Parsed(v, st1) =>
        if st1.cur.idx == st.cur.idx then ElementsLoop(mode, st1.(cur := st1.cur.SkipChar()), acc + [v])
        else ElementsLoop(mode, st1, acc + [v])
  }

  /**
   * Whether the scan of `parseString` goes on past offset `k`: the byte there is not
   * the end, and it is not the closing quote unless a backslash precedes it.
   */
  predicate ScanContinues(c: Cursor, close: Byte, k: nat)
    requires c.idx >= 1
  {
    c.PeekAt(k) != EOF && (c.PeekAt(k) != close || c.PeekAt(k - 1) == '\\')
  }

  /** The scan loop of `parseString`: the content length, counted from offset `length`. */
  function ScanString(c: Cursor, close: Byte, length: nat): (r: nat)
    requires c.idx >= 1
    ensures r >= length
    ensures !ScanContinues(c, close, r)
    ensures forall k :: length <= k < r ==> ScanContinues(c, close, k)
    ensures r > length ==> c.idx + r <= |c.text| + 1
    decreases if c.idx + length <= |c.text| + 1 then |c.text| + 1 - c.idx - length else 0
  {
    if ScanContinues(c, close, length) then ScanString(c, close, length + 1) else length
  }

  /** The `length` bytes from the cursor that `strncpy` copies into the node. */
  function Copied(c: Cursor, length: nat): (s: seq<Byte>)
    ensures |s| == length
  {
    StrNCpy(seq(length, k requires 0 <= k < length => c.PeekAt(k)))
  }

  /**
   * `parseString`: the opening quote (reported if it is neither `"` nor `'`, and
   * taken as the closing quote anyway), the raw content, then the closing quote
   * (reported, with the quote's code as the expected text, and skipped to `}`).
   */
  function ParseString(mode: Mode, st: PState): (r: Res<seq<Byte>>)
    ensures Sound(mode, st, r)
    ensures r.Parsed? ==> r.st.cur.idx > st.cur.idx
  {
    var b := st.cur.Peek();
    var quoted := if b != '"' && b != '\'' then Report(mode, st, "\"", st.cur.PeekStr(1)) else Parsed((), st);
    match quoted
    case Failed(f) => Failed(f)
    case Parsed(_, st1) =>
      var c := st.cur.SkipChar();
      var length := ScanString(c, b, 0);
      match Expect(mode, st1.(cur := c.SkipChars(length)), b, IntToString(Signed(b)), '}')
      case Failed(f) => Failed(f)
      case Parsed(_, st2) => Parsed(Copied(c, length), st2.(cur := st2.cur.SkipChar()))
  }

  /** The loop shared by `parseInteger`, `parseDecimal` and `parseExponent`: append bytes while `IsNumber`. */
  function NumberRun(c: Cursor, acc: seq<Byte>): (r: Lexeme)
    ensures r.cur.text == c.text && r.cur.idx >= c.idx && r.cur.line == c.line
    ensures !IsNumber(r.cur.Peek())
    ensures r.cur.idx == c.idx ==> r.text == acc && r.cur == c
    ensures r.cur.idx > c.idx ==> r.cur.idx <= |c.text| && r.text == acc + c.text[c.idx..r.cur.idx]
    ensures forall p :: c.idx <= p < r.cur.idx ==> IsNumber(c.text[p])
    decreases c.Rem()
  {
    if c.Peek() != EOF && IsNumber(c.Peek()) then NumberRun(c.SkipChar(), acc + [c.Peek()])
    else Lexeme(acc, c)
  }

  /**
   * `r` is what the number loop collects after `acc` from the cursor `c`: the run of
   * number bytes there, ending at a byte that is not one.
   */
  predicate RunFrom(c: Cursor, acc: seq<Byte>, r: Lexeme) {
    r.cur.text == c.text && r.cur.line == c.line && r.cur.idx >= c.idx && !IsNumber(r.cur.Peek()) &&
    (r.cur.idx == c.idx ==> r.text == acc && r.cur == c) &&
    (r.cur.idx > c.idx ==>
      r.cur.idx <= |c.text| && r.text == acc + c.text[c.idx..r.cur.idx] &&
      forall p :: c.idx <= p < r.cur.idx ==> IsNumber(c.text[p]))
  }

  /** `parseInteger`: an optional `-` and then bytes while `IsNumber`. */
  function ParseInteger(c: Cursor): (r: Lexeme)
    ensures RunFrom(if c.Peek() == '-' then c.SkipChar() else c, if c.Peek() == '-' then "-" else [], r)
    ensures forall k :: 0 <= k < |r.text| ==> IsNumber(r.text[k])
    ensures r.cur.text == c.text && r.cur.idx >= c.idx
    ensures IsNumber(c.Peek()) ==> r.cur.idx > c.idx
  {
    if c.Peek() == '-' then NumberRun(c.SkipChar(), "-") else NumberRun(c, [])
  }

  /** `parseDecimal`: after a `.`, the bytes while `IsNumber`; the `.` itself is not kept. */
  function ParseDecimal(c: Cursor): (r: Lexeme)
    ensures r.cur.text == c.text && r.cur.idx >= c.idx
    ensures c.Peek() != '.' ==> r == Lexeme([], c)
    ensures c.Peek() == '.' ==> RunFrom(c.SkipChar(), [], r)
    ensures forall k :: 0 <= k < |r.text| ==> IsNumber(r.text[k])
  {
    if c.Peek() != '.' then Lexeme([], c) else NumberRun(c.SkipChar(), [])
  }

  /** Two adjacent slices of a text join into one. */
  lemma {:induction false} SlicesJoin(s: seq<Byte>, a: nat, b: nat, c: nat)
    requires a <= b <= c <= |s|
    ensures s[a..b] + s[b..c] == s[a..c]
  {
    assert forall k :: 0 <= k < c - a ==> (s[a..b] + s[b..c])[k] == s[a + k];
  }

  /**
   * `h` is the head of an exponent at `c`: the byte at the cursor, or the sentinel
   * past the end, and then possibly a sign.
   */
  predicate HeadAt(c: Cursor, h: Lexeme) {
    h.cur.text == c.text && h.cur.line == c.line && 0 < |h.text| <= 2 &&
    (c.idx >= |c.text| ==> h.text == [EOF] && h.cur.idx == c.idx + 1) &&
    (c.idx < |c.text| ==> c.idx < h.cur.idx <= |c.text| && h.text == c.text[c.idx..h.cur.idx]) &&
    (|h.text| == 2 ==> h.text[1] == '-' || h.text[1] == '+')
  }

  /**
   * The head of an exponent: the byte at the cursor, taken as the marker whatever it
   * is, and then a sign if one follows.
   */
  function ExponentHead(c: Cursor): (h: Lexeme)
    ensures HeadAt(c, h)
  {
    var c1 := c.SkipChar();
    if c1.Peek() == '-' || c1.Peek() == '+' then Lexeme([c.Peek(), c1.Peek()], c1.SkipChar())
    else Lexeme([c.Peek()], c1)
  }

  /**
   * The part of `parseExponent` after the marker is settled: the head, then number
   * bytes. A byte other than a number byte after the head is reported and the
   * whole exponent dropped.
   */
  function ExponentFrom(mode: Mode, st: PState): (r: Res<seq<Byte>>)
    ensures Sound(mode, st, r)
    ensures r.Parsed? && r.value != [] ==>
      r.st.log == st.log && !IsNumber(r.st.cur.Peek()) &&
      (st.cur.idx >= |st.cur.text| ==> r.value == [EOF]) &&
      (st.cur.idx < |st.cur.text| ==>
        st.cur.idx < r.st.cur.idx <= |st.cur.text| && r.value == st.cur.text[st.cur.idx..r.st.cur.idx]) &&
      (forall k :: 1 <= k < |r.value| ==> IsNumber(r.value[k]) || (k == 1 && r.value[k] == '+'))
    ensures r.Parsed? && r.value == [] ==> mode == Lenient && |r.st.log| == |st.log| + 1
  {
    var h := ExponentHead(st.cur);
    if h.cur.Peek() != EOF && !IsNumber(h.cur.Peek()) then
      match Report(mode, st.(cur := h.cur), "0-9", h.cur.PeekStr(1))
      case Failed(f) => Failed(f)
      case Parsed(_, st2) => Parsed([], st2)
    else
      var run := NumberRun(h.cur, h.text);
      ExponentRun(st.cur, h, run);
      Parsed(run.text, st.(cur := run.cur))
  }

  /** The number bytes after an exponent's head extend it within the text. */
  lemma {:induction false} ExponentRun(c: Cursor, h: Lexeme, run: Lexeme)
    requires HeadAt(c, h) && RunFrom(h.cur, h.text, run)
    ensures run.text != [] && !IsNumber(run.cur.Peek()) && run.cur.text == c.text && run.cur.idx >= h.cur.idx
    ensures c.idx >= |c.text| ==> run.text == [EOF]
    ensures c.idx < |c.text| ==> c.idx < run.cur.idx <= |c.text| && run.text == c.text[c.idx..run.cur.idx]
    ensures forall k :: 1 <= k < |run.text| ==> IsNumber(run.text[k]) || (k == 1 && run.text[k] == '+')
  {
    if run.cur.idx == h.cur.idx {
      assert run.text == h.text;
    } else {
      assert c.idx < |c.text|;
      var tail := c.text[h.cur.idx..run.cur.idx];
      assert run.text == h.text + tail;
      SlicesJoin(c.text, c.idx, h.cur.idx, run.cur.idx);
      forall k | 1 <= k < |run.text| ensures IsNumber(run.text[k]) || (k == 1 && run.text[k] == '+') {
        if k < |h.text| {
          assert run.text[k] == h.text[k];
        } else {
          assert run.text[k] == tail[k - |h.text|] == c.text[h.cur.idx + (k - |h.text|)];
        }
      }
    }
  }

  /**
   * `parseExponent`. Without `e`/`E` it is empty unless a letter or digit follows,
   * which is reported and skipped, and the byte after it taken in place of the `e`.
   * The rest is `ExponentFrom`.
   */
  function ParseExponent(mode: Mode, st: PState): (r: Res<seq<Byte>>)
    ensures Sound(mode, st, r)
    ensures var b := st.cur.Peek();
      b != 'e' && b != 'E' && !IsAlphaNum(b) ==> r == Parsed([], st)
    ensures var b := st.cur.Peek(); var marked := b == 'e' || b == 'E';
      var m := if marked then st.cur.idx else st.cur.idx + 1;
      r.Parsed? && r.value != [] ==>
        r.st.log == st.log + (if marked then [] else [Message(st.cur, "e/E", st.cur.PeekStr(1))]) &&
        !IsNumber(r.st.cur.Peek()) &&
        (m >= |st.cur.text| ==> r.value == [EOF]) &&
        (m < |st.cur.text| ==> m < r.st.cur.idx <= |st.cur.text| && r.value == st.cur.text[m..r.st.cur.idx]) &&
        (forall k :: 1 <= k < |r.value| ==> IsNumber(r.value[k]) || (k == 1 && r.value[k] == '+'))
    ensures var b := st.cur.Peek();
      (b == 'e' || b == 'E' || IsAlphaNum(b)) && r.Parsed? && r.value == [] ==> mode == Lenient && |r.st.log| > |st.log|
  {
    var b := st.cur.Peek();
    if b != 'e' && b != 'E' && !IsAlphaNum(b) then Parsed([], st)
    else if b != 'e' && b != 'E' then
      match Report(mode, st, "e/E", st.cur.PeekStr(1))
      case Failed(f) => Failed(f)
      case Parsed(_, st1) => ExponentFrom(mode, st1.(cur := st1.cur.SkipChar()))
    else ExponentFrom(mode, st)
  }

  /**
   * `parseNumber`: without fraction and exponent text an Integer, from `std::stoll`
   * narrowed through `int`; otherwise a Double of the concatenated text, if
   * `std::stold` accepts it.
   */
  function ParseNumber(mode: Mode, st: PState): (r: Res<Node>)
    ensures Sound(mode, st, r)
    ensures r.Parsed? ==> r.value.Integer? || r.value.Double?
    ensures r.Parsed? && r.value.Integer? ==> -0x8000_0000 <= r.value.value < 0x8000_0000
    ensures var ip := ParseInteger(st.cur); var dp := ParseDecimal(ip.cur);
      var ex := ParseExponent(mode, st.(cur := dp.cur));
      (r.Parsed? ==> ex.Parsed? && r.st == ex.st) &&
      (ex.Parsed? && r.Failed? ==> r.failure.Conversion?) &&
      (r.Parsed? && r.value.Integer? ==>
        dp.text == [] && ex.value == [] && StoLL(ip.text).Value? && r.value.value == NarrowToInt(StoLL(ip.text).v)) &&
      (r.Parsed? && r.value.Double? ==>
        (dp.text != [] || ex.value != []) && r.value.literal == ip.text + dp.text + ex.value &&
        StoldAccepts(r.value.literal))
  {
    var ip := ParseInteger(st.cur);
    var dp := ParseDecimal(ip.cur);
    match ParseExponent(mode, st.(cur := dp.cur))
    case Failed(f) => Failed(f)
    case Parsed(ex, st1) =>
      if dp.text == [] && ex == [] then
        match StoLL(ip.text)
        case Rejected(e) => Failed(Conversion(e))
        case Value(v) => Parsed(Integer(NarrowToInt(v)), st1)
      else if StoldAccepts(ip.text + dp.text + ex) then Parsed(Double(ip.text + dp.text + ex), st1)
      else Failed(Conversion(InvalidArgument))
  }
}

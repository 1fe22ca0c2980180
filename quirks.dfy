/**
 * Behaviour of the parser that a reader of the JSON grammar would not expect,
 * shown on the model as written: the column count, arrays with blanks and no
 * elements, optional commas, strings kept with their escapes, fractions without
 * their dot, and the stall of the lenient array loop.
 */
module Quirks {
  import opened Bytes
  import opened Lexing
  import opened Json
  import opened Conversions
  import opened Grammar
  import opened GrammarSteps
  import opened Printing
  import opened RoundTrip

  /**
   * `skipWhitespace` counts a blank or a tab twice: the column goes up by one
   * before the line-break check and again in `skipChar`.
   */
  lemma BlankTakesTwoColumns(c: Cursor)
    requires c.Peek() == ' ' || c.Peek() == '\t'
    ensures c.WhitespaceStep() == c.(idx := c.idx + 1, column := (c.column + 2) % U32)
  {
    AddMod32(c.column + 1, 1);
  }

  /**
   * A byte that starts no value is reported with the next five bytes; in lenient
   * mode the value is an empty Object and the cursor stays where it was.
   */
  lemma NoValueIsEmptyObject(mode: Mode, st: PState)
    requires st.cur.Peek() !in "{[\"'tfn" && !IsNumber(st.cur.Peek())
    ensures mode == Strict ==> ParseValue(mode, st) == Failed(Thrown(Message(st.cur, NoValue, st.cur.PeekStr(5))))
    ensures mode == Lenient ==>
      ParseValue(mode, st) == Parsed(Object([]), st.(log := st.log + [Message(st.cur, NoValue, st.cur.PeekStr(5))]))
  {
    var p := st.cur.PeekStr(5);
    assert p != [] ==> p[0] == st.cur.Peek();
    assert !StartsWith(p, "false") && !StartsWith(p, "true") && !StartsWith(p, "null");
  }

  /** The one iteration of the array loop over `[ ]`: the blank is skipped and `]` taken for a value. */
  lemma SpacedIteration(mode: Mode, text: seq<Byte>)
    requires text == "[ ]"
    ensures var close := Cursor(text, 2, 1, 3);
      ArrayIteration(mode, PState(Cursor(text, 1, 1, 1), [])) ==
        if mode == Strict then Failed(Thrown(Message(close, NoValue, "]")))
        else Parsed(Object([]), PState(close, [Message(close, NoValue, "]")]))
  {
    var c1 := Cursor(text, 1, 1, 1);
    var close := Cursor(text, 2, 1, 3);
    assert c1.WhitespaceStep() == close;
    assert c1.SkipWhitespace() == close;
    assert close.SkipWhitespace() == close;
    assert close.PeekStr(5) == "]";
    NoValueIsEmptyObject(mode, PState(close, []));
    AfterNoComma(close);
  }

  /** `Parse("[ ]")` fails: the `]` after the blank is taken for a value. */
  lemma SpacedEmptyArrayStrict(text: seq<Byte>)
    requires text == "[ ]"
    ensures ParseJson(Strict, text) == Failed(Thrown(Message(Cursor(text, 2, 1, 3), NoValue, "]")))
  {
    var c0 := Start(text);
    SpacedIteration(Strict, text);
    assert c0.SkipChar() == Cursor(text, 1, 1, 1);
    assert ElementsLoop(Strict, PState(c0.SkipChar(), []), []) == Failed(Thrown(Message(Cursor(text, 2, 1, 3), NoValue, "]")));
    ValueIsArray(Strict, PState(c0, []));
    assert c0.SkipWhitespace() == c0;
  }

  /** `ParsePartially("[ ]")` reports the `]` and yields an array holding one empty Object. */
  lemma SpacedEmptyArrayLenient(text: seq<Byte>)
    requires text == "[ ]"
    ensures var msg := Message(Cursor(text, 2, 1, 3), NoValue, "]");
      ParseJson(Lenient, text) == Parsed(Array([Object([])]), PState(Cursor(text, 3, 1, 4), [msg]))
  {
    var c0 := Start(text);
    var close := Cursor(text, 2, 1, 3);
    var st2 := PState(close, [Message(close, NoValue, "]")]);
    SpacedIteration(Lenient, text);
    assert c0.SkipChar() == Cursor(text, 1, 1, 1);
    ElementsStep(Lenient, PState(c0.SkipChar(), []), [], Object([]), st2);
    assert [] + [Object([])] == [Object([])];
    ElementsEnd(Lenient, st2, [Object([])]);
    ArrayStep(Lenient, PState(c0, []), [Object([])], st2);
    ValueIsArray(Lenient, PState(c0, []));
    var c3 := close.SkipChar();
    assert c3 == Cursor(text, 3, 1, 4) && c3.Peek() == EOF;
    assert c3.SkipWhitespace() == c3;
    assert c0.SkipWhitespace() == c0;
    ElementStep(Lenient, PState(c0, []), Array([Object([])]), st2.(cur := c3));
    JsonStep(Lenient, text, Array([Object([])]), st2.(cur := c3));
  }

  /** `PrettyPrint` writes an empty array as `[  ]` and a newline, whatever the indent. */
  lemma PrettyEmptyText(indent: nat, fmt: seq<Byte> -> seq<Byte>)
    ensures Pretty(Array([]), indent, fmt) == "[  ]\n"
  {
    assert PrettyElements(Array([]), fmt, 0) == [];
  }

  /** That text is not accepted by `Parse`: the `]` after the blanks is taken for a value. */
  lemma PrettyEmptyArray(text: seq<Byte>)
    requires text == "[  ]\n"
    ensures ParseJson(Strict, text) == Failed(Thrown(Message(Cursor(text, 3, 1, 5), NoValue, "]\n")))
  {
    var c0 := Start(text);
    var c1 := Cursor(text, 1, 1, 1);
    var close := Cursor(text, 3, 1, 5);
    var fail := Thrown(Message(close, NoValue, "]\n"));
    assert c1.WhitespaceStep() == Cursor(text, 2, 1, 3);
    assert Cursor(text, 2, 1, 3).WhitespaceStep() == close;
    assert c1.SkipWhitespace() == close;
    assert close.SkipWhitespace() == close;
    assert close.PeekStr(5) == "]\n";
    NoValueIsEmptyObject(Strict, PState(close, []));
    assert ArrayIteration(Strict, PState(c1, [])) == Failed(fail);
    assert c0.SkipChar() == c1;
    assert ElementsLoop(Strict, PState(c1, []), []) == Failed(fail);
    ValueIsArray(Strict, PState(c0, []));
    assert c0.SkipWhitespace() == c0;
  }

  /** The integer text of a lone digit is that digit. */
  lemma DigitLexeme(c: Cursor)
    requires IsDigit(c.Peek())
    requires c.SkipChar().Peek() in " ]"
    ensures ParseInteger(c) == Lexeme([c.Peek()], c.SkipChar())
  {
    assert NumberRun(c.SkipChar(), [c.Peek()]) == Lexeme([c.Peek()], c.SkipChar());
  }

  /** `std::stoll` of one digit is its value. */
  lemma DigitValue(b: Byte)
    requires IsDigit(b)
    ensures StoLL([b]) == Value(b as int - '0' as int)
  {
    assert DigitPrefix([b]) == [b];
    assert [b][..0] == [];
    assert DigitsValue([b]) == b as int - '0' as int;
  }

  /** A one-digit number followed by a blank or a `]` is that Integer. */
  lemma OneDigit(mode: Mode, st: PState)
    requires IsDigit(st.cur.Peek())
    requires st.cur.SkipChar().Peek() in " ]"
    ensures ParseValue(mode, st) ==
      Parsed(Integer(st.cur.Peek() as int - '0' as int), st.(cur := st.cur.SkipChar()))
  {
    ValueIsNumber(mode, st);
    DigitLexeme(st.cur);
    DigitValue(st.cur.Peek());
    IntegerStep(mode, st, st.cur.Peek() as int - '0' as int);
  }

  const EscapedQuote: seq<Byte> := "\"a\\\"b\""
  const EscapedContent: seq<Byte> := "a\\\"b"
  const SingleQuoted: seq<Byte> := "'x'"

  /** The text `"a\"b"`: a `"`, the content `a\"b` whose quote is escaped, a closing `"`. */
  lemma EscapedQuoteParts(c: Cursor)
    requires c == Start(EscapedQuote)
    ensures Ahead(c, ['"'] + EscapedContent + ['"']) && Quotable(EscapedContent, '"')
  {
    assert ['"'] + EscapedContent + ['"'] == EscapedQuote;
  }

  /**
   * An escaped quote does not end a string, and the escape is not decoded: `"a\"b"`
   * is the String of the four bytes `a\"b`.
   */
  lemma EscapedQuoteKept(mode: Mode)
    ensures var r := ParseValue(mode, PState(Start(EscapedQuote), []));
      r.Parsed? && r.value == String(EscapedContent) && r.st.cur.idx == 6 && r.st.log == []
  {
    var st := PState(Start(EscapedQuote), []);
    EscapedQuoteParts(st.cur);
    QuotedRoundTrip(mode, st, '"', EscapedContent);
    AheadPeek(st.cur, ['"'] + EscapedContent + ['"']);
    ValueIsString(mode, st, EscapedContent, ParseString(mode, st).st);
  }

  /** A string may be quoted by `'`: `'x'` is the String `x`. */
  lemma SingleQuotedString(mode: Mode)
    ensures var r := ParseValue(mode, PState(Start(SingleQuoted), []));
      r.Parsed? && r.value == String(['x']) && r.st.cur.idx == 3 && r.st.log == []
  {
    var st := PState(Start(SingleQuoted), []);
    assert Ahead(st.cur, ['\''] + ['x'] + ['\'']) by {
      assert ['\''] + ['x'] + ['\''] == SingleQuoted;
    }
    QuotedRoundTrip(mode, st, '\'', ['x']);
    AheadPeek(st.cur, ['\''] + ['x'] + ['\'']);
    ValueIsString(mode, st, ['x'], ParseString(mode, st).st);
  }

  const OneAndAHalf: seq<Byte> := "1.5"
  const Fifteen: seq<Byte> := "15"

  /** The text `1.5` as the parts `parseNumber` sees: digits, a `.`, digits, then the end. */
  lemma {:induction false} OneAndAHalfParts(c: Cursor)
    requires c == Start(OneAndAHalf)
    ensures Ahead(c, ['1'] + "." + ['5']) && Stops(c, 3)
    ensures AllDigits(['1']) && AllDigits(['5']) && ['1'] + ['5'] == Fifteen
  {
  }

  /** The `.` of a fraction is lost: the value `1.5` is read as the Double of the text `15`. */
  lemma {:induction false} FractionWithoutDot(mode: Mode)
    ensures var r := ParseValue(mode, PState(Start(OneAndAHalf), []));
      r.Parsed? && r.value == Double(Fifteen) && r.st.cur.idx == 3 && r.st.log == []
  {
    var st := PState(Start(OneAndAHalf), []);
    OneAndAHalfParts(st.cur);
    ValueIsNumber(mode, st);
    FractionDropsDot(mode, st, ['1'], ['5']);
  }

  /** In `[1 2]` the first iteration reads `1` and stops at `2`, with no comma consumed. */
  lemma FirstUnseparated(mode: Mode, text: seq<Byte>)
    requires text == "[1 2]"
    ensures ArrayIteration(mode, PState(Cursor(text, 1, 1, 1), [])) == Parsed(Integer(1), PState(Cursor(text, 3, 1, 4), []))
  {
    var c1 := Cursor(text, 1, 1, 1);
    var c2 := Cursor(text, 2, 1, 2);
    var c3 := Cursor(text, 3, 1, 4);
    assert c1.SkipWhitespace() == c1;
    assert c1.SkipChar() == c2;
    assert c2.WhitespaceStep() == c3;
    assert c2.SkipWhitespace() == c3;
    OneDigit(mode, PState(c1, []));
    ElementStep(mode, PState(c1, []), Integer(1), PState(c2, []));
    IterationStep(mode, PState(c1, []), Integer(1), PState(c3, []));
    AfterNoComma(c3);
  }

  /** The second iteration reads `2` and stops at `]`. */
  lemma SecondUnseparated(mode: Mode, text: seq<Byte>)
    requires text == "[1 2]"
    ensures ArrayIteration(mode, PState(Cursor(text, 3, 1, 4), [])) == Parsed(Integer(2), PState(Cursor(text, 4, 1, 5), []))
  {
    var c3 := Cursor(text, 3, 1, 4);
    var c4 := Cursor(text, 4, 1, 5);
    assert c3.SkipWhitespace() == c3;
    assert c3.SkipChar() == c4;
    assert c4.SkipWhitespace() == c4;
    OneDigit(mode, PState(c3, []));
    ElementStep(mode, PState(c3, []), Integer(2), PState(c4, []));
    IterationStep(mode, PState(c3, []), Integer(2), PState(c4, []));
    AfterNoComma(c4);
  }

  /** The loop over the elements of `[1 2]` collects both and stops at `]`. */
  lemma UnseparatedElements(mode: Mode, text: seq<Byte>)
    requires text == "[1 2]"
    ensures ElementsLoop(mode, PState(Cursor(text, 1, 1, 1), []), []) ==
      Parsed([Integer(1), Integer(2)], PState(Cursor(text, 4, 1, 5), []))
  {
    var c3 := Cursor(text, 3, 1, 4);
    var c4 := Cursor(text, 4, 1, 5);
    FirstUnseparated(mode, text);
    SecondUnseparated(mode, text);
    ElementsStep(mode, PState(Cursor(text, 1, 1, 1), []), [], Integer(1), PState(c3, []));
    ElementsStep(mode, PState(c3, []), [Integer(1)], Integer(2), PState(c4, []));
    ElementsEnd(mode, PState(c4, []), [Integer(1), Integer(2)]);
    assert [] + [Integer(1)] == [Integer(1)];
    assert [Integer(1)] + [Integer(2)] == [Integer(1), Integer(2)];
  }

  /** Elements need no comma between them: `[1 2]` is the array of 1 and 2. */
  lemma CommasOptional(mode: Mode, text: seq<Byte>)
    requires text == "[1 2]"
    ensures ParseJson(mode, text) == Parsed(Array([Integer(1), Integer(2)]), PState(Cursor(text, 5, 1, 6), []))
  {
    var c0 := Start(text);
    var c4 := Cursor(text, 4, 1, 5);
    UnseparatedElements(mode, text);
    assert c0.SkipChar() == Cursor(text, 1, 1, 1);
    ArrayStep(mode, PState(c0, []), [Integer(1), Integer(2)], PState(c4, []));
    ValueIsArray(mode, PState(c0, []));
    assert c0.SkipWhitespace() == c0;
    var c5 := c4.SkipChar();
    assert c5 == Cursor(text, 5, 1, 6) && c5.Peek() == EOF;
    assert c5.SkipWhitespace() == c5;
    ElementStep(mode, PState(c0, []), Array([Integer(1), Integer(2)]), PState(c5, []));
    JsonStep(mode, text, Array([Integer(1), Integer(2)]), PState(c5, []));
  }

  /**
   * As written, an iteration of the lenient array loop at a byte that starts no
   * value reports it and consumes nothing; the loop's condition still holds there,
   * so the same iteration would repeat forever. The condition here is sufficient,
   * not the full set: the loop also stalls on `}` and on a `t`, `f` or `n` that
   * does not begin its literal, which this lemma does not cover.
   */
  lemma StrayByteStalls(st: PState)
    requires st.cur.Peek() !in "{[\"'tfn]," && st.cur.Peek() != EOF
    requires !IsNumber(st.cur.Peek()) && !IsWhitespace(st.cur.Peek())
    ensures ArrayIteration(Lenient, st) ==
      Parsed(Object([]), st.(log := st.log + [Message(st.cur, NoValue, st.cur.PeekStr(5))]))
    ensures st.cur.Peek() != EOF && st.cur.Peek() != ']'
  {
    NoValueIsEmptyObject(Lenient, st);
    ElementStep(Lenient, st, Object([]), st.(log := st.log + [Message(st.cur, NoValue, st.cur.PeekStr(5))]));
    IterationStep(Lenient, st, Object([]), st.(log := st.log + [Message(st.cur, NoValue, st.cur.PeekStr(5))]));
    AfterNoComma(st.cur);
  }

  /** The array loop over `[x]` as written: the first iteration leaves the cursor on the `x`. */
  lemma StrayIterationStalls(text: seq<Byte>)
    requires text == "[x]"
    ensures var stray := Cursor(text, 1, 1, 1);
      ArrayIteration(Lenient, PState(stray, [])) == Parsed(Object([]), PState(stray, [Message(stray, NoValue, "x]")]))
    ensures Cursor(text, 1, 1, 1).Peek() !in [EOF, ']']
  {
    var stray := Cursor(text, 1, 1, 1);
    assert stray.PeekStr(5) == "x]";
    StrayByteStalls(PState(stray, []));
  }

  /** The loop of the model steps over the stray byte and stops at the `]`. */
  lemma StrayElements(text: seq<Byte>)
    requires text == "[x]"
    ensures var stray := Cursor(text, 1, 1, 1);
      ElementsLoop(Lenient, PState(stray, []), []) ==
        Parsed([Object([])], PState(Cursor(text, 2, 1, 2), [Message(stray, NoValue, "x]")]))
  {
    var stray := Cursor(text, 1, 1, 1);
    var st2 := PState(Cursor(text, 2, 1, 2), [Message(stray, NoValue, "x]")]);
    StrayIterationStalls(text);
    assert stray.SkipChar() == st2.cur;
    StalledStep(Lenient, PState(stray, []), [], Object([]), PState(stray, st2.log));
    assert [] + [Object([])] == [Object([])];
    assert ElementsLoop(Lenient, PState(stray, []), []) == ElementsLoop(Lenient, st2, [Object([])]);
    assert st2.cur.Peek() == ']';
    ElementsEnd(Lenient, st2, [Object([])]);
    assert ElementsLoop(Lenient, st2, [Object([])]) == Parsed([Object([])], st2);
  }

  /** With the stray byte skipped, `ParsePartially("[x]")` ends with one empty Object and one diagnostic. */
  lemma StrayByteSkipped(text: seq<Byte>)
    requires text == "[x]"
    ensures var msg := Message(Cursor(text, 1, 1, 1), NoValue, "x]");
      ParseJson(Lenient, text) == Parsed(Array([Object([])]), PState(Cursor(text, 3, 1, 3), [msg]))
  {
    var c0 := Start(text);
    var st2 := PState(Cursor(text, 2, 1, 2), [Message(Cursor(text, 1, 1, 1), NoValue, "x]")]);
    StrayElements(text);
    assert c0.SkipChar() == Cursor(text, 1, 1, 1);
    ArrayStep(Lenient, PState(c0, []), [Object([])], st2);
    ValueIsArray(Lenient, PState(c0, []));
    var c3 := st2.cur.SkipChar();
    assert c3 == Cursor(text, 3, 1, 3) && c3.Peek() == EOF;
    assert c3.SkipWhitespace() == c3;
    assert c0.SkipWhitespace() == c0;
    ElementStep(Lenient, PState(c0, []), Array([Object([])]), st2.(cur := c3));
    JsonStep(Lenient, text, Array([Object([])]), st2.(cur := c3));
  }
}

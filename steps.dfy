/**
 * One unfolding of each parse function, with the results of the steps it calls
 * given: proofs about whole texts chain these instead of unfolding the parser.
 */
module GrammarSteps {
  import opened Bytes
  import opened Lexing
  import opened Json
  import opened Conversions
  import opened Grammar

  lemma ValueIsObject(mode: Mode, st: PState)
    requires st.cur.Peek() == '{'
    ensures ParseValue(mode, st) == ParseObject(mode, st)
  {
  }

  lemma ValueIsArray(mode: Mode, st: PState)
    requires st.cur.Peek() == '['
    ensures ParseValue(mode, st) == ParseArray(mode, st)
  {
  }

  lemma ValueIsString(mode: Mode, st: PState, s: seq<Byte>, st1: PState)
    requires st.cur.Peek() == '"' || st.cur.Peek() == '\''
    requires ParseString(mode, st) == Parsed(s, st1)
    ensures ParseValue(mode, st) == Parsed(String(s), st1)
  {
  }

  lemma ValueIsNumber(mode: Mode, st: PState)
    requires IsNumber(st.cur.Peek())
    ensures ParseValue(mode, st) == ParseNumber(mode, st)
  {
    var b := st.cur.Peek();
    assert b != '{' && b != '[' && b != '"' && b != '\'';
  }

  lemma ValueIsLiteral(mode: Mode, st: PState)
    requires st.cur.Peek() in "tfn"
    ensures ParseValue(mode, st) == ParseLiteral(mode, st)
  {
  }

  lemma ElementStep(mode: Mode, st: PState, v: Node, st1: PState)
    requires ParseValue(mode, st.(cur := st.cur.SkipWhitespace())) == Parsed(v, st1)
    ensures ParseElement(mode, st) == Parsed(v, st1.(cur := st1.cur.SkipWhitespace()))
  {
  }

  lemma JsonStep(mode: Mode, text: seq<Byte>, v: Node, st1: PState)
    requires ParseElement(mode, PState(Start(text), [])) == Parsed(v, st1)
    requires st1.cur.Peek() == EOF
    ensures ParseJson(mode, text) == Parsed(v, st1)
  {
  }

  lemma ObjectStep(mode: Mode, st: PState, ms: seq<Member>, st1: PState)
    requires st.cur.Peek() == '{'
    requires !IsWhitespace(st.cur.SkipChar().Peek())
    requires MembersLoop(mode, st.(cur := st.cur.SkipChar()), []) == Parsed(ms, st1)
    requires st1.cur.Peek() == '}'
    ensures ParseObject(mode, st) == Parsed(Object(ms), st1.(cur := st1.cur.SkipChar()))
  {
  }

  /** `parseObject` when whitespace may follow the `{`: the loop starts after it. */
  lemma BlankObjectStep(mode: Mode, st: PState, ms: seq<Member>, st1: PState)
    requires st.cur.Peek() == '{'
    requires MembersLoop(mode, st.(cur := st.cur.SkipChar().SkipWhitespace()), []) == Parsed(ms, st1)
    requires st1.cur.Peek() == '}'
    ensures ParseObject(mode, st) == Parsed(Object(ms), st1.(cur := st1.cur.SkipChar()))
  {
  }

  lemma MembersEnd(mode: Mode, st: PState, acc: seq<Member>)
    requires st.cur.Peek() == '}'
    ensures MembersLoop(mode, st, acc) == Parsed(acc, st)
  {
  }

  lemma MembersStep(mode: Mode, st: PState, acc: seq<Member>, m: Member, st1: PState)
    requires st.cur.Peek() != EOF && st.cur.Peek() != '}'
    requires ParseMember(mode, st.(cur := st.cur.SkipWhitespace())) == Parsed(m, st1)
    ensures MembersLoop(mode, st, acc) == MembersLoop(mode, st1.(cur := AfterItem(st1.cur)), acc + [m])
  {
  }

  lemma MemberStep(mode: Mode, st: PState, name: seq<Byte>, st1: PState, v: Node, st3: PState)
    requires ParseString(mode, st.(cur := st.cur.SkipWhitespace())) == Parsed(name, st1)
    requires st1.cur.Peek() == ':'
    requires ParseElement(mode, st1.(cur := st1.cur.SkipChar())) == Parsed(v, st3)
    ensures ParseMember(mode, st) == Parsed(Member(name, v), st3)
  {
  }

  lemma ArrayStep(mode: Mode, st: PState, es: seq<Node>, st1: PState)
    requires st.cur.Peek() == '['
    requires ElementsLoop(mode, st.(cur := st.cur.SkipChar()), []) == Parsed(es, st1)
    requires st1.cur.Peek() == ']'
    ensures ParseArray(mode, st) == Parsed(Array(es), st1.(cur := st1.cur.SkipChar()))
  {
  }

  lemma ElementsEnd(mode: Mode, st: PState, acc: seq<Node>)
    requires st.cur.Peek() == ']'
    ensures ElementsLoop(mode, st, acc) == Parsed(acc, st)
  {
  }

  lemma ElementsStep(mode: Mode, st: PState, acc: seq<Node>, v: Node, st1: PState)
    requires st.cur.Peek() != EOF && st.cur.Peek() != ']'
    requires ArrayIteration(mode, st) == Parsed(v, st1)
    requires st1.cur.idx != st.cur.idx
    ensures ElementsLoop(mode, st, acc) == ElementsLoop(mode, st1, acc + [v])
  {
  }

  /** An iteration that consumed nothing: the loop steps over one byte before going on. */
  lemma StalledStep(mode: Mode, st: PState, acc: seq<Node>, v: Node, st1: PState)
    requires st.cur.Peek() != EOF && st.cur.Peek() != ']'
    requires ArrayIteration(mode, st) == Parsed(v, st1)
    requires st1.cur.idx == st.cur.idx
    ensures ElementsLoop(mode, st, acc) == ElementsLoop(mode, st1.(cur := st1.cur.SkipChar()), acc + [v])
  {
  }

  /** `parseElement` skips whitespace first, so skipping it before changes nothing. */
  lemma ElementSkips(mode: Mode, st: PState)
    ensures ParseElement(mode, st.(cur := st.cur.SkipWhitespace())) == ParseElement(mode, st)
  {
  }

  /** `parseMember` skips whitespace first, so skipping it before changes nothing. */
  lemma MemberSkips(mode: Mode, st: PState)
    ensures ParseMember(mode, st.(cur := st.cur.SkipWhitespace())) == ParseMember(mode, st)
  {
  }

  lemma IterationStep(mode: Mode, st: PState, v: Node, st1: PState)
    requires ParseElement(mode, st.(cur := st.cur.SkipWhitespace())) == Parsed(v, st1)
    ensures ArrayIteration(mode, st) == Parsed(v, st1.(cur := AfterItem(st1.cur)))
  {
  }

  lemma AfterComma(c: Cursor)
    requires c.Peek() == ','
    ensures AfterItem(c) == c.SkipChar()
  {
  }

  lemma AfterNoComma(c: Cursor)
    requires !IsWhitespace(c.Peek()) && c.Peek() != ','
    ensures AfterItem(c) == c
  {
  }

  /** `parseString` with a `"` opening quote, a scan of `length` bytes, and the closing `"` there. */
  lemma StringStep(mode: Mode, st: PState, q: Byte, length: nat)
    requires q == '"' || q == '\''
    requires st.cur.Peek() == q
    requires st.cur.idx < |st.cur.text|
    requires ScanString(st.cur.SkipChar(), q, 0) == length
    requires st.cur.SkipChar().SkipChars(length).Peek() == q
    ensures ParseString(mode, st) ==
      Parsed(Copied(st.cur.SkipChar(), length), st.(cur := st.cur.SkipChar().SkipChars(length).SkipChar()))
  {
  }

  /** `parseNumber` when `std::stoll` reads the integer text and neither fraction nor exponent follows. */
  lemma IntegerStep(mode: Mode, st: PState, v: int)
    requires ParseInteger(st.cur).cur.Peek() != '.'
    requires !IsAlphaNum(ParseInteger(st.cur).cur.Peek())
    requires StoLL(ParseInteger(st.cur).text) == Value(v)
    ensures ParseNumber(mode, st) == Parsed(Integer(NarrowToInt(v)), st.(cur := ParseInteger(st.cur).cur))
  {
  }

  /** `parseNumber` when fraction digits follow and no exponent does. */
  lemma {:induction false} FractionStep(mode: Mode, st: PState)
    requires ParseDecimal(ParseInteger(st.cur).cur).text != []
    requires !IsAlphaNum(ParseDecimal(ParseInteger(st.cur).cur).cur.Peek())
    requires ParseDecimal(ParseInteger(st.cur).cur).cur.Peek() !in "eE"
    requires StoldAccepts(ParseInteger(st.cur).text + ParseDecimal(ParseInteger(st.cur).cur).text)
    ensures var ip := ParseInteger(st.cur); var dp := ParseDecimal(ip.cur);
      ParseNumber(mode, st) == Parsed(Double(ip.text + dp.text), st.(cur := dp.cur))
  {
    var ip := ParseInteger(st.cur);
    var dp := ParseDecimal(ip.cur);
    assert ip.text + dp.text + [] == ip.text + dp.text;
  }
}

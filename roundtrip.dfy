/**
 * The printers and the parser against each other: the text `CompactPrint` writes
 * for a tree parses back to the same tree, in either mode, with no diagnostic,
 * provided the tree is one the printer writes faithfully (`Reparsable`).
 */
module RoundTrip {
  import opened Bytes
  import opened Lexing
  import opened Json
  import opened Conversions
  import opened Grammar
  import opened Printing
  import opened GrammarSteps

  /**
   * The content of a String node or a member name that the parser reads back as
   * it was printed: no NUL (the printer stops there), no `"` and no 0xFF (the scan
   * stops there), and no trailing backslash (it would escape the closing quote).
   */
  predicate TextOk(s: seq<Byte>) {
    NUL !in s && '"' !in s && EOF !in s && (s == [] || s[|s| - 1] != '\\')
  }

  /**
   * The trees whose printed text parses back to them: no Null and no None (printed
   * as nothing), no Double (its text depends on the formatting), Integers within
   * `int` (the parser narrows through it), and text that `TextOk` admits.
   */
  predicate Reparsable(n: Node)
    decreases n
  {
    match n
    case Object(ms) => forall i :: 0 <= i < |ms| ==> TextOk(ms[i].name) && Reparsable(ms[i].value)
    case Array(es) => forall i :: 0 <= i < |es| ==> Reparsable(es[i])
    case Integer(v) => -0x8000_0000 <= v < 0x8000_0000
    case Boolean(_) => true
    case String(s) => TextOk(s)
    case _ => false
  }

  /** The bytes `p` lie in the text at the cursor. */
  predicate Ahead(c: Cursor, p: seq<Byte>) {
    c.idx + |p| <= |c.text| && forall k :: 0 <= k < |p| ==> c.text[c.idx + k] == p[k]
  }

  /** The byte `k` places after the cursor ends a number and a literal: the end of input, `,`, `}` or `]`. */
  predicate Delimited(c: Cursor, k: nat) {
    c.idx + k >= |c.text| || c.text[c.idx + k] in ",}]"
  }

  /** The byte `k` places after the cursor ends a number: the end of input, a delimiter, or whitespace. */
  predicate Stops(c: Cursor, k: nat) {
    c.idx + k >= |c.text| || c.text[c.idx + k] in ",}] \t\r\n"
  }

  const Quote: seq<Byte> := "\""
  const Colon: seq<Byte> := ":"
  const Comma: seq<Byte> := ","
  const Minus: seq<Byte> := "-"
  const OpenBrace: seq<Byte> := "{"
  const CloseBrace: seq<Byte> := "}"
  const OpenBracket: seq<Byte> := "["
  const CloseBracket: seq<Byte> := "]"

  /** A step read the value `v` from `n` bytes, printing nothing. */
  predicate Reads<T(==)>(r: Res<T>, v: T, st: PState, n: nat) {
    r.Parsed? && r.value == v && r.st.cur.text == st.cur.text && r.st.cur.idx == st.cur.idx + n &&
    r.st.log == st.log
  }

  lemma AppendNext<T>(acc: seq<T>, xs: seq<T>, i: nat)
    requires i < |xs|
    ensures acc + [xs[i]] + xs[i + 1..] == acc + xs[i..]
  {
    assert xs[i..] == [xs[i]] + xs[i + 1..];
  }

  lemma AheadFront(c: Cursor, a: seq<Byte>, b: seq<Byte>)
    requires Ahead(c, a + b)
    ensures Ahead(c, a)
  {
    forall k | 0 <= k < |a| ensures c.text[c.idx + k] == a[k] {
      assert (a + b)[k] == a[k];
    }
  }

  lemma AheadRest(c: Cursor, a: seq<Byte>, b: seq<Byte>, d: Cursor)
    requires Ahead(c, a + b)
    requires d.text == c.text && d.idx == c.idx + |a|
    ensures Ahead(d, b)
  {
    forall k | 0 <= k < |b| ensures d.text[d.idx + k] == b[k] {
      assert (a + b)[|a| + k] == b[k];
    }
  }

  lemma AheadPeek(c: Cursor, p: seq<Byte>)
    requires Ahead(c, p) && |p| > 0
    ensures c.Peek() == p[0]
  {
    assert c.text[c.idx + 0] == p[0];
  }

  /** The byte a delimiter stands at ends whitespace, numbers and words. */
  lemma DelimitedStop(c: Cursor, k: nat, d: Cursor)
    requires Delimited(c, k) && d.text == c.text && d.idx == c.idx + k
    ensures d.Peek() == EOF || d.Peek() in ",}]"
    ensures !IsWhitespace(d.Peek()) && !IsNumber(d.Peek()) && !IsAlphaNum(d.Peek()) && d.Peek() != '.'
  {
  }

  lemma DelimitedShift(c: Cursor, k: nat, d: Cursor, j: nat)
    requires Delimited(c, k) && d.text == c.text && d.idx + j == c.idx + k
    ensures Delimited(d, j)
  {
  }

  /** A text followed by `tail` is delimited by the first byte of `tail`. */
  lemma AheadDelimited(c: Cursor, p: seq<Byte>, tail: seq<Byte>)
    requires Ahead(c, p + tail) && |tail| > 0 && tail[0] in ",}]"
    ensures Ahead(c, p) && Delimited(c, |p|)
  {
    AheadFront(c, p, tail);
    assert c.text[c.idx + |p|] == (p + tail)[|p|];
  }

  /** The first byte of a reparsable tree's compact text opens a value. */
  lemma CompactHead(n: Node, fmt: seq<Byte> -> seq<Byte>)
    requires Reparsable(n)
    ensures |Compact(n, fmt)| > 0
    ensures Compact(n, fmt)[0] in "{[\"tf" || IsNumber(Compact(n, fmt)[0])
  {
    if n.Integer? && n.value >= 0 {
      assert IsDigit(NatToString(n.value)[0]);
    }
  }

  /**
   * Content that `parseString` reads back between two `q` quotes: no NUL (the copy
   * stops there), no 0xFF (the scan stops there), every `q` escaped by the byte before
   * it, and no trailing backslash (it would escape the closing quote). Escapes are kept
   * as they are written.
   */
  predicate Quotable(s: seq<Byte>, q: Byte) {
    NUL !in s && EOF !in s && (s == [] || s[|s| - 1] != '\\') &&
    forall k :: 0 <= k < |s| && s[k] == q ==> k > 0 && s[k - 1] == '\\'
  }

  /** `parseString` reads back the raw content between two `"` or two `'` quotes. */
  lemma QuotedRoundTrip(mode: Mode, st: PState, q: Byte, s: seq<Byte>)
    requires q == '"' || q == '\''
    requires Quotable(s, q)
    requires Ahead(st.cur, [q] + s + [q])
    ensures Reads(ParseString(mode, st), s, st, |s| + 2)
  {
    var c := st.cur.SkipChar();
    ScanLength(st.cur, q, s);
    assert c.SkipChars(|s|).Peek() == q by {
      assert c.text[c.idx + |s|] == ([q] + s + [q])[|s| + 1];
    }
    AheadPeek(st.cur, [q] + s + [q]);
    StringStep(mode, st, q, |s|);
    assert [q] + s + [q] == [q] + (s + [q]);
    AheadRest(st.cur, [q], s + [q], c);
    AheadFront(c, s, [q]);
    CopiedText(c, s);
  }

  /** `parseString` reads back a `"`-quoted text the scan does not stop inside. */
  lemma StringRoundTrip(mode: Mode, st: PState, s: seq<Byte>)
    requires TextOk(s)
    requires Ahead(st.cur, Quote + s + Quote)
    ensures Reads(ParseString(mode, st), s, st, |s| + 2)
  {
    QuotedRoundTrip(mode, st, '"', s);
  }

  /** The scan of `parseString` stops at the closing quote, and at no escaped one. */
  lemma ScanLength(c0: Cursor, q: Byte, s: seq<Byte>)
    requires q == '"' || q == '\''
    requires Quotable(s, q)
    requires Ahead(c0, [q] + s + [q])
    ensures ScanString(c0.SkipChar(), q, 0) == |s|
  {
    var c := c0.SkipChar();
    var w := [q] + s + [q];
    assert forall k :: 0 <= k < |s| ==> c.PeekAt(k) == s[k] by {
      forall k | 0 <= k < |s| ensures c.PeekAt(k) == s[k] {
        assert c.text[c.idx + k] == w[k + 1];
      }
    }
    assert c.PeekAt(|s|) == q by {
      assert c.text[c.idx + |s|] == w[|s| + 1];
    }
    assert c.PeekAt(|s| - 1) != '\\' by {
      if s == [] {
        assert c.text[c.idx - 1] == w[0];
      }
    }
    forall k | 0 <= k < |s| ensures ScanContinues(c, q, k) {
      if s[k] == q {
        assert c.PeekAt(k - 1) == s[k - 1];
      }
    }
    assert !ScanContinues(c, q, |s|);
  }

  /** What `strncpy` copies from the text is the text, when it holds no NUL. */
  lemma CopiedText(c: Cursor, s: seq<Byte>)
    requires Ahead(c, s) && NUL !in s
    ensures Copied(c, |s|) == s
  {
    assert seq(|s|, k requires 0 <= k < |s| => c.PeekAt(k)) == s;
    StrNCpyOfNulFree(s);
  }

  /** A run of number bytes followed by a delimiter or whitespace is read whole. */
  lemma NumberRunOver(c: Cursor, acc: seq<Byte>, w: seq<Byte>)
    requires Ahead(c, w) && Stops(c, |w|)
    requires forall i :: 0 <= i < |w| ==> IsNumber(w[i])
    ensures NumberRun(c, acc).text == acc + w
    ensures NumberRun(c, acc).cur.text == c.text && NumberRun(c, acc).cur.idx == c.idx + |w|
  {
    assert c.idx + |w| < |c.text| ==> !IsNumber(c.text[c.idx + |w|]);
    NumberRunTo(c, acc, w);
  }

  /** `parseInteger` reads the decimal text of an integer whole. */
  lemma IntegerLexeme(c: Cursor, v: int)
    requires Ahead(c, IntToString(v)) && Stops(c, |IntToString(v)|)
    ensures ParseInteger(c).text == IntToString(v)
    ensures ParseInteger(c).cur.text == c.text && ParseInteger(c).cur.idx == c.idx + |IntToString(v)|
  {
    var w := IntToString(v);
    if v < 0 {
      var digits := NatToString(-v);
      assert w == "-" + digits;
      assert c.Peek() == '-';
      AheadRest(c, Minus, digits, c.SkipChar());
      NumberRunOver(c.SkipChar(), Minus, digits);
    } else {
      assert c.Peek() == w[0];
      NumberRunOver(c, [], w);
      assert [] + w == w;
    }
  }

  lemma {:induction false} StopsShift(c: Cursor, k: nat, d: Cursor, j: nat)
    requires Stops(c, k) && d.text == c.text && d.idx + j == c.idx + k
    ensures Stops(d, j)
  {
  }

  /** The byte where a number stops has no fraction and no exponent after it. */
  lemma {:induction false} StopsEnd(d: Cursor)
    requires Stops(d, 0)
    ensures !IsNumber(d.Peek()) && !IsAlphaNum(d.Peek()) && d.Peek() != '.'
  {
  }

  /** A run of number bytes ended by a byte that is not one, or by the end, is read whole. */
  lemma {:induction false} NumberRunTo(c: Cursor, acc: seq<Byte>, w: seq<Byte>)
    requires Ahead(c, w) && (c.idx + |w| < |c.text| ==> !IsNumber(c.text[c.idx + |w|]))
    requires forall i :: 0 <= i < |w| ==> IsNumber(w[i])
    ensures NumberRun(c, acc).text == acc + w
    ensures NumberRun(c, acc).cur.text == c.text && NumberRun(c, acc).cur.idx == c.idx + |w|
  {
    var r := NumberRun(c, acc);
    RunLength(c, acc, r, w);
  }

  /** The bytes ahead of the cursor that spell number bytes are number bytes of the text. */
  lemma NumbersAhead(c: Cursor, w: seq<Byte>)
    requires Ahead(c, w) && forall i :: 0 <= i < |w| ==> IsNumber(w[i])
    ensures forall p :: c.idx <= p < c.idx + |w| ==> IsNumber(c.text[p])
  {
    forall p | c.idx <= p < c.idx + |w| ensures IsNumber(c.text[p]) {
      assert c.text[c.idx + (p - c.idx)] == w[p - c.idx];
    }
  }

  /** A run that stops at the first byte that is not a number byte covers exactly the number bytes `w`. */
  lemma {:induction false} RunLength(c: Cursor, acc: seq<Byte>, r: Lexeme, w: seq<Byte>)
    requires RunFrom(c, acc, r)
    requires Ahead(c, w) && (c.idx + |w| < |c.text| ==> !IsNumber(c.text[c.idx + |w|]))
    requires forall i :: 0 <= i < |w| ==> IsNumber(w[i])
    ensures r.text == acc + w && r.cur.idx == c.idx + |w|
  {
    var e := c.idx + |w|;
    NumbersAhead(c, w);
    if r.cur.idx < e {
      assert false;
    }
    if r.cur.idx > e {
      assert false;
    }
    if w != [] {
      assert c.text[c.idx..r.cur.idx] == w;
    }
  }

  /** `parseInteger` reads digits ended by a byte that is not a number byte. */
  lemma {:induction false} IntegerPart(c: Cursor, i: seq<Byte>)
    requires i != [] && AllDigits(i) && Ahead(c, i)
    requires c.idx + |i| < |c.text| ==> !IsNumber(c.text[c.idx + |i|])
    ensures ParseInteger(c).text == i
    ensures ParseInteger(c).cur.text == c.text && ParseInteger(c).cur.idx == c.idx + |i|
  {
    AheadPeek(c, i);
    NumberRunTo(c, [], i);
  }

  /** `parseDecimal` at a `.` followed by digits that a delimiter or whitespace stops. */
  lemma {:induction false} DecimalPart(c: Cursor, f: seq<Byte>)
    requires AllDigits(f) && Ahead(c, "." + f) && Stops(c, 1 + |f|)
    ensures ParseDecimal(c).text == f
    ensures ParseDecimal(c).cur.text == c.text && ParseDecimal(c).cur.idx == c.idx + 1 + |f|
  {
    AheadPeek(c, "." + f);
    var d := c.SkipChar();
    AheadRest(c, ".", f, d);
    StopsShift(c, 1 + |f|, d, |f|);
    NumberRunOver(d, [], f);
    assert [] + f == f;
  }

  /** Digits and then a `.`: `parseInteger` reads the digits and stops at the `.`. */
  lemma {:induction false} DigitsBeforeDot(c: Cursor, i: seq<Byte>, f: seq<Byte>)
    requires i != [] && AllDigits(i)
    requires Ahead(c, i + "." + f) && Stops(c, |i| + 1 + |f|)
    ensures var ip := ParseInteger(c);
      ip.text == i && ip.cur.text == c.text && ip.cur.idx == c.idx + |i| &&
      Ahead(ip.cur, "." + f) && Stops(ip.cur, 1 + |f|)
  {
    var dotted: seq<Byte> := "." + f;
    assert i + "." + f == i + dotted;
    AheadFront(c, i, dotted);
    assert c.text[c.idx + |i|] == (i + dotted)[|i|] == '.';
    IntegerPart(c, i);
    var ip := ParseInteger(c);
    AheadRest(c, i, dotted, ip.cur);
    StopsShift(c, |i| + 1 + |f|, ip.cur, 1 + |f|);
  }

  /** Digits, a `.` and digits: the integer and fraction parts and the byte that stops them. */
  lemma {:induction false} FractionParts(c: Cursor, i: seq<Byte>, f: seq<Byte>)
    requires i != [] && f != [] && AllDigits(i) && AllDigits(f)
    requires Ahead(c, i + "." + f) && Stops(c, |i| + 1 + |f|)
    ensures var ip := ParseInteger(c); var dp := ParseDecimal(ip.cur);
      ip.text == i && dp.text == f && dp.cur.text == c.text && dp.cur.idx == c.idx + |i| + 1 + |f| &&
      !IsAlphaNum(dp.cur.Peek()) && dp.cur.Peek() !in "eE" && StoldAccepts(i + f)
  {
    DigitsBeforeDot(c, i, f);
    var ip := ParseInteger(c);
    DecimalPart(ip.cur, f);
    var dp := ParseDecimal(ip.cur);
    StopsShift(ip.cur, 1 + |f|, dp.cur, 0);
    StopsEnd(dp.cur);
    assert StoldAccepts(i + f) by {
      assert (i + f)[0] == i[0];
    }
  }

  /**
   * `parseNumber` on digits, a `.` and more digits yields the Double of the digits
   * alone: `parseDecimal` drops the `.`, so the text `std::stold` reads is `i + f`.
   */
  lemma {:induction false} FractionDropsDot(mode: Mode, st: PState, i: seq<Byte>, f: seq<Byte>)
    requires i != [] && f != [] && AllDigits(i) && AllDigits(f)
    requires Ahead(st.cur, i + "." + f) && Stops(st.cur, |i| + 1 + |f|)
    ensures Reads(ParseNumber(mode, st), Double(i + f), st, |i| + 1 + |f|)
  {
    FractionParts(st.cur, i, f);
    FractionStep(mode, st);
  }

  /** `parseNumber` reads back the decimal text of an `int`, stopped by a delimiter or whitespace. */
  lemma IntegerRoundTrip(mode: Mode, st: PState, v: int)
    requires -0x8000_0000 <= v < 0x8000_0000
    requires Ahead(st.cur, IntToString(v)) && Stops(st.cur, |IntToString(v)|)
    ensures Reads(ParseNumber(mode, st), Integer(v), st, |IntToString(v)|)
  {
    var w := IntToString(v);
    IntegerLexeme(st.cur, v);
    var ip := ParseInteger(st.cur);
    assert ip.cur.Peek() != '.' && !IsAlphaNum(ip.cur.Peek());
    StoLLOfIntToString(v, []);
    assert w + [] == w;
    IntegerStep(mode, st, v);
  }

  /** `peekStr(5)` starts with a word of at most five bytes that lies ahead. */
  lemma PeekWord(c: Cursor, w: seq<Byte>)
    requires Ahead(c, w) && 0 < |w| <= 5
    ensures StartsWith(c.PeekStr(5), w)
  {
    var p := c.PeekStr(5);
    forall k | 0 <= k < |w| ensures p[k] == w[k] {
      assert p[k] == c.text[c.idx + k];
    }
    assert p[..|w|] == w;
  }

  /** The literals `true` and `false` are read back. */
  lemma BooleanRoundTrip(mode: Mode, st: PState, b: bool)
    requires Ahead(st.cur, if b then "true" else "false")
    ensures Reads(ParseValue(mode, st), Boolean(b), st, if b then 4 else 5)
  {
    var w: seq<Byte> := if b then "true" else "false";
    AheadPeek(st.cur, w);
    ValueIsLiteral(mode, st);
    PeekWord(st.cur, w);
    if b {
      assert st.cur.PeekStr(5)[0] == 't';
    }
  }

  /** The literal `null` is read back as Null over its four bytes. */
  lemma NullRoundTrip(mode: Mode, st: PState)
    requires Ahead(st.cur, "null")
    ensures Reads(ParseLiteral(mode, st), Null, st, 4)
    ensures Reads(ParseValue(mode, st), Null, st, 4)
  {
    AheadPeek(st.cur, "null");
    ValueIsLiteral(mode, st);
    PeekWord(st.cur, "null");
    assert st.cur.PeekStr(5)[0] == 'n';
  }

  /** A reparsable tree is read back from its compact text, stopped by a delimiter. */
  lemma {:induction false} ValueRoundTrip(mode: Mode, st: PState, n: Node, fmt: seq<Byte> -> seq<Byte>)
    requires Reparsable(n)
    requires Ahead(st.cur, Compact(n, fmt)) && Delimited(st.cur, |Compact(n, fmt)|)
    ensures Reads(ParseValue(mode, st), n, st, |Compact(n, fmt)|)
    decreases n, 2, 0
  {
    match n
    case Object(_) =>
      ObjectRoundTrip(mode, st, n, fmt);
    case Array(_) =>
      ArrayRoundTrip(mode, st, n, fmt);
    case _ =>
      ScalarRoundTrip(mode, st, n, fmt);
  }

  /** A reparsable Integer, Boolean or String is read back from its text, which ends at a delimiter or whitespace. */
  lemma ScalarRoundTrip(mode: Mode, st: PState, n: Node, fmt: seq<Byte> -> seq<Byte>)
    requires Reparsable(n) && !n.Object? && !n.Array?
    requires Ahead(st.cur, Compact(n, fmt)) && Stops(st.cur, |Compact(n, fmt)|)
    ensures Reads(ParseValue(mode, st), n, st, |Compact(n, fmt)|)
  {
    var w := Compact(n, fmt);
    match n
    case Integer(v) =>
      CompactHead(n, fmt);
      AheadPeek(st.cur, w);
      ValueIsNumber(mode, st);
      IntegerRoundTrip(mode, st, v);
    case Boolean(b) =>
      BooleanRoundTrip(mode, st, b);
    case String(s) =>
      CStringOfNulFree(s);
      assert w == Quote + s + Quote;
      AheadPeek(st.cur, w);
      StringRoundTrip(mode, st, s);
      ValueIsString(mode, st, s, ParseString(mode, st).st);
  }

  /** The opening bracket of a container's text: one byte, after which its body and closing bracket lie. */
  lemma Opening(c: Cursor, open: seq<Byte>, rest: seq<Byte>)
    requires |open| == 1 && Ahead(c, open + rest)
    ensures c.Peek() == open[0]
    ensures c.SkipChar().text == c.text && c.SkipChar().idx == c.idx + 1
    ensures Ahead(c.SkipChar(), rest)
  {
    AheadPeek(c, open + rest);
    AheadRest(c, open, rest, c.SkipChar());
  }

  /** The comma after an item, or the closing bracket of the last item, moves `afterItem` past the comma only. */
  lemma SeparatorStep(c: Cursor, sep: seq<Byte>, rest: seq<Byte>)
    requires sep == Comma || (sep == [] && |rest| > 0 && rest[0] in "}]")
    requires Ahead(c, sep + rest)
    ensures AfterItem(c).text == c.text && AfterItem(c).idx == c.idx + |sep|
    ensures Ahead(AfterItem(c), rest)
  {
    AheadPeek(c, sep + rest);
    if sep == Comma {
      AfterComma(c);
    } else {
      AfterNoComma(c);
    }
    AheadRest(c, sep, rest, AfterItem(c));
  }

  /** An Object's members start with a quote or end at once: no whitespace to skip. */
  lemma MembersOpening(c: Cursor, n: Node, fmt: seq<Byte> -> seq<Byte>)
    requires n.Object? && Ahead(c, CompactMembers(n, fmt, 0) + CloseBrace)
    ensures !IsWhitespace(c.Peek())
  {
    CompactMembersHead(n, fmt, 0);
    AheadPeek(c, CompactMembers(n, fmt, 0) + CloseBrace);
  }

  /** `parseObject` reads back the compact text of a reparsable Object. */
  lemma {:induction false} ObjectRoundTrip(mode: Mode, st: PState, n: Node, fmt: seq<Byte> -> seq<Byte>)
    requires n.Object? && Reparsable(n)
    requires Ahead(st.cur, Compact(n, fmt))
    ensures Reads(ParseValue(mode, st), n, st, |Compact(n, fmt)|)
    decreases n, 1, 0
  {
    var body := CompactMembers(n, fmt, 0);
    assert Compact(n, fmt) == OpenBrace + (body + CloseBrace);
    Opening(st.cur, OpenBrace, body + CloseBrace);
    var c := st.cur.SkipChar();
    MembersOpening(c, n, fmt);
    MembersRoundTrip(mode, st.(cur := c), n, fmt, 0, []);
    var st1 := MembersLoop(mode, st.(cur := c), []).st;
    AheadRest(c, body, CloseBrace, st1.cur);
    AheadPeek(st1.cur, CloseBrace);
    assert [] + n.members[0..] == n.members;
    ObjectStep(mode, st, n.members, st1);
    ValueIsObject(mode, st);
  }

  /** `parseArray` reads back the compact text of a reparsable Array. */
  lemma {:induction false} ArrayRoundTrip(mode: Mode, st: PState, n: Node, fmt: seq<Byte> -> seq<Byte>)
    requires n.Array? && Reparsable(n)
    requires Ahead(st.cur, Compact(n, fmt))
    ensures Reads(ParseValue(mode, st), n, st, |Compact(n, fmt)|)
    decreases n, 1, 0
  {
    var body := CompactElements(n, fmt, 0);
    assert Compact(n, fmt) == OpenBracket + (body + CloseBracket);
    Opening(st.cur, OpenBracket, body + CloseBracket);
    var c := st.cur.SkipChar();
    ElementsRoundTrip(mode, st.(cur := c), n, fmt, 0, []);
    var st1 := ElementsLoop(mode, st.(cur := c), []).st;
    AheadRest(c, body, CloseBracket, st1.cur);
    AheadPeek(st1.cur, CloseBracket);
    assert [] + n.elements[0..] == n.elements;
    ArrayStep(mode, st, n.elements, st1);
    ValueIsArray(mode, st);
  }

  /** The comma the printers write after every item but the last of `count`. */
  function Separator(count: nat, i: nat): seq<Byte> {
    if i != count - 1 then Comma else []
  }

  /** What follows the `i`th member in an Object's compact text: its comma, the later members, the `}`. */
  function MembersTail(n: Node, fmt: seq<Byte> -> seq<Byte>, i: nat): seq<Byte>
    requires n.Object? && i < |n.members|
  {
    Separator(|n.members|, i) + (CompactMembers(n, fmt, i + 1) + CloseBrace)
  }

  lemma MembersSplit(n: Node, fmt: seq<Byte> -> seq<Byte>, i: nat)
    requires n.Object? && i < |n.members|
    ensures CompactMembers(n, fmt, i) + CloseBrace ==
      Quoted(n.members[i].name) + Colon + Compact(n.members[i].value, fmt) + MembersTail(n, fmt, i)
    ensures MembersTail(n, fmt, i)[0] in ",}"
    ensures Separator(|n.members|, i) == [] ==> CompactMembers(n, fmt, i + 1) + CloseBrace == CloseBrace
  {
    CompactMembersHead(n, fmt, i + 1);
  }

  /** What follows the `i`th element in an Array's compact text: its comma, the later elements, the `]`. */
  function ElementsTail(n: Node, fmt: seq<Byte> -> seq<Byte>, i: nat): seq<Byte>
    requires n.Array? && i < |n.elements|
  {
    Separator(|n.elements|, i) + (CompactElements(n, fmt, i + 1) + CloseBracket)
  }

  lemma ElementsSplit(n: Node, fmt: seq<Byte> -> seq<Byte>, i: nat)
    requires n.Array? && i < |n.elements|
    ensures CompactElements(n, fmt, i) + CloseBracket == Compact(n.elements[i], fmt) + ElementsTail(n, fmt, i)
    ensures ElementsTail(n, fmt, i)[0] in ",]"
    ensures Separator(|n.elements|, i) == [] ==> CompactElements(n, fmt, i + 1) + CloseBracket == CloseBracket
  {
  }

  /** The members' text starts with a quote, or is empty. */
  lemma CompactMembersHead(n: Node, fmt: seq<Byte> -> seq<Byte>, i: nat)
    requires n.Object? && i <= |n.members|
    ensures i < |n.members| ==> |CompactMembers(n, fmt, i)| > 0 && CompactMembers(n, fmt, i)[0] == '"'
    ensures i == |n.members| ==> CompactMembers(n, fmt, i) == []
  {
  }

  /** `parseElement` reads back the compact text of a reparsable tree: there is no whitespace to skip. */
  lemma {:induction false} ElementRoundTrip(mode: Mode, st: PState, n: Node, fmt: seq<Byte> -> seq<Byte>)
    requires Reparsable(n)
    requires Ahead(st.cur, Compact(n, fmt)) && Delimited(st.cur, |Compact(n, fmt)|)
    ensures Reads(ParseElement(mode, st), n, st, |Compact(n, fmt)|)
    decreases n, 2, 1
  {
    CompactHead(n, fmt);
    AheadPeek(st.cur, Compact(n, fmt));
    assert st.(cur := st.cur.SkipWhitespace()) == st;
    ValueRoundTrip(mode, st, n, fmt);
    var st1 := ParseValue(mode, st).st;
    DelimitedStop(st.cur, |Compact(n, fmt)|, st1.cur);
    assert st1.(cur := st1.cur.SkipWhitespace()) == st1;
    ElementStep(mode, st, n, st1);
  }

  /** `parseString` reads back a member name and stops before the colon. */
  lemma NameRoundTrip(mode: Mode, st: PState, name: seq<Byte>, after: seq<Byte>)
    requires TextOk(name)
    requires Ahead(st.cur, Quoted(name) + Colon + after)
    ensures st.cur.SkipWhitespace() == st.cur
    ensures Reads(ParseString(mode, st), name, st, |Quoted(name)|)
    ensures ParseString(mode, st).st.cur.Peek() == ':'
    ensures var c := ParseString(mode, st).st.cur.SkipChar();
      c.text == st.cur.text && c.idx == st.cur.idx + |Quoted(name)| + 1 && Ahead(c, after)
  {
    CStringOfNulFree(name);
    var q := Quote + name + Quote;
    assert Quoted(name) + Colon + after == q + (Colon + after);
    AheadFront(st.cur, q, Colon + after);
    AheadPeek(st.cur, q);
    StringRoundTrip(mode, st, name);
    var st1 := ParseString(mode, st).st;
    AheadRest(st.cur, q, Colon + after, st1.cur);
    AheadPeek(st1.cur, Colon + after);
    AheadRest(st1.cur, Colon, after, st1.cur.SkipChar());
  }

  /** `parseMember` reads back a member's compact text: its quoted name, the colon, its value. */
  lemma {:induction false} MemberRoundTrip(mode: Mode, st: PState, m: Member, fmt: seq<Byte> -> seq<Byte>)
    requires TextOk(m.name) && Reparsable(m.value)
    requires Ahead(st.cur, Quoted(m.name) + Colon + Compact(m.value, fmt))
    requires Delimited(st.cur, |Quoted(m.name)| + 1 + |Compact(m.value, fmt)|)
    ensures Reads(ParseMember(mode, st), m, st, |Quoted(m.name)| + 1 + |Compact(m.value, fmt)|)
    decreases m.value, 3, 0
  {
    var w := Compact(m.value, fmt);
    NameRoundTrip(mode, st, m.name, w);
    var st1 := ParseString(mode, st).st;
    var c := st1.cur.SkipChar();
    DelimitedShift(st.cur, |Quoted(m.name)| + 1 + |w|, c, |w|);
    ElementRoundTrip(mode, st1.(cur := c), m.value, fmt);
    MemberStep(mode, st, m.name, st1, m.value, ParseElement(mode, st1.(cur := c)).st);
  }

  /** One iteration of the loop of `parseMembers` reads the `i`th member and the comma after it. */
  lemma {:induction false} MemberIteration(
    mode: Mode, st: PState, n: Node, fmt: seq<Byte> -> seq<Byte>, i: nat, acc: seq<Member>)
    returns (st2: PState)
    requires n.Object? && i < |n.members| && Reparsable(n)
    requires Ahead(st.cur, CompactMembers(n, fmt, i) + CloseBrace)
    ensures MembersLoop(mode, st, acc) == MembersLoop(mode, st2, acc + [n.members[i]])
    ensures st2.cur.text == st.cur.text && st2.log == st.log
    ensures st2.cur.idx + |CompactMembers(n, fmt, i + 1)| == st.cur.idx + |CompactMembers(n, fmt, i)|
    ensures Ahead(st2.cur, CompactMembers(n, fmt, i + 1) + CloseBrace)
    decreases n, 0, |n.members| - i, 0
  {
    var m := n.members[i];
    var item := Quoted(m.name) + Colon + Compact(m.value, fmt);
    var tail := MembersTail(n, fmt, i);
    var sep := Separator(|n.members|, i);
    MembersSplit(n, fmt, i);
    AheadDelimited(st.cur, item, tail);
    AheadPeek(st.cur, item);
    assert st.(cur := st.cur.SkipWhitespace()) == st;
    MemberRoundTrip(mode, st, m, fmt);
    var st1 := ParseMember(mode, st).st;
    MembersStep(mode, st, acc, m, st1);
    AheadRest(st.cur, item, tail, st1.cur);
    SeparatorStep(st1.cur, sep, CompactMembers(n, fmt, i + 1) + CloseBrace);
    var c := AfterItem(st1.cur);
    st2 := st1.(cur := c);
  }

  /** The loop of `parseMembers` reads back the members from index `i` on, up to the `}`. */
  lemma {:induction false} MembersRoundTrip(
    mode: Mode, st: PState, n: Node, fmt: seq<Byte> -> seq<Byte>, i: nat, acc: seq<Member>)
    requires n.Object? && i <= |n.members| && Reparsable(n)
    requires Ahead(st.cur, CompactMembers(n, fmt, i) + CloseBrace)
    ensures Reads(MembersLoop(mode, st, acc), acc + n.members[i..], st, |CompactMembers(n, fmt, i)|)
    decreases n, 0, |n.members| - i, 1
  {
    if i == |n.members| {
      CompactMembersHead(n, fmt, i);
      assert CompactMembers(n, fmt, i) + CloseBrace == CloseBrace;
      AheadPeek(st.cur, CloseBrace);
      MembersEnd(mode, st, acc);
      assert acc + n.members[i..] == acc;
    } else {
      var st2 := MemberIteration(mode, st, n, fmt, i, acc);
      MembersRoundTrip(mode, st2, n, fmt, i + 1, acc + [n.members[i]]);
      AppendNext(acc, n.members, i);
    }
  }

  /** One iteration of the loop of `parseArray` reads the `i`th element and the comma after it. */
  lemma {:induction false} ElementIteration(
    mode: Mode, st: PState, n: Node, fmt: seq<Byte> -> seq<Byte>, i: nat, acc: seq<Node>)
    returns (st2: PState)
    requires n.Array? && i < |n.elements| && Reparsable(n)
    requires Ahead(st.cur, CompactElements(n, fmt, i) + CloseBracket)
    ensures ElementsLoop(mode, st, acc) == ElementsLoop(mode, st2, acc + [n.elements[i]])
    ensures st2.cur.text == st.cur.text && st2.log == st.log
    ensures st2.cur.idx + |CompactElements(n, fmt, i + 1)| == st.cur.idx + |CompactElements(n, fmt, i)|
    ensures Ahead(st2.cur, CompactElements(n, fmt, i + 1) + CloseBracket)
    decreases n, 0, |n.elements| - i, 0
  {
    var e := n.elements[i];
    var w := Compact(e, fmt);
    var tail := ElementsTail(n, fmt, i);
    ElementsSplit(n, fmt, i);
    AheadDelimited(st.cur, w, tail);
    CompactHead(e, fmt);
    AheadPeek(st.cur, w);
    assert st.(cur := st.cur.SkipWhitespace()) == st;
    ElementRoundTrip(mode, st, e, fmt);
    var st1 := ParseElement(mode, st).st;
    AheadRest(st.cur, w, tail, st1.cur);
    st2 := ElementSeparated(mode, st, n, fmt, i, acc, st1);
  }

  /** After the `i`th element is read, its comma is skipped and the loop goes on from there. */
  lemma ElementSeparated(
    mode: Mode, st: PState, n: Node, fmt: seq<Byte> -> seq<Byte>, i: nat, acc: seq<Node>, st1: PState)
    returns (st2: PState)
    requires n.Array? && i < |n.elements|
    requires st.cur.Peek() != EOF && st.cur.Peek() != ']' && st.(cur := st.cur.SkipWhitespace()) == st
    requires ParseElement(mode, st) == Parsed(n.elements[i], st1)
    requires st1.cur.text == st.cur.text && st1.log == st.log
    requires st1.cur.idx == st.cur.idx + |Compact(n.elements[i], fmt)| && |Compact(n.elements[i], fmt)| > 0
    requires Ahead(st1.cur, ElementsTail(n, fmt, i))
    ensures ElementsLoop(mode, st, acc) == ElementsLoop(mode, st2, acc + [n.elements[i]])
    ensures st2.cur.text == st.cur.text && st2.log == st.log
    ensures st2.cur.idx + |CompactElements(n, fmt, i + 1)| == st.cur.idx + |CompactElements(n, fmt, i)|
    ensures Ahead(st2.cur, CompactElements(n, fmt, i + 1) + CloseBracket)
  {
    var e := n.elements[i];
    ElementsSplit(n, fmt, i);
    IterationStep(mode, st, e, st1);
    SeparatorStep(st1.cur, Separator(|n.elements|, i), CompactElements(n, fmt, i + 1) + CloseBracket);
    var c := AfterItem(st1.cur);
    ElementsStep(mode, st, acc, e, st1.(cur := c));
    st2 := st1.(cur := c);
  }

  /** The loop of `parseArray` reads back the elements from index `i` on, up to the `]`. */
  lemma {:induction false} ElementsRoundTrip(
    mode: Mode, st: PState, n: Node, fmt: seq<Byte> -> seq<Byte>, i: nat, acc: seq<Node>)
    requires n.Array? && i <= |n.elements| && Reparsable(n)
    requires Ahead(st.cur, CompactElements(n, fmt, i) + CloseBracket)
    ensures Reads(ElementsLoop(mode, st, acc), acc + n.elements[i..], st, |CompactElements(n, fmt, i)|)
    decreases n, 0, |n.elements| - i, 1
  {
    if i == |n.elements| {
      assert CompactElements(n, fmt, i) + CloseBracket == CloseBracket;
      AheadPeek(st.cur, CloseBracket);
      ElementsEnd(mode, st, acc);
      assert acc + n.elements[i..] == acc;
    } else {
      var st2 := ElementIteration(mode, st, n, fmt, i, acc);
      ElementsRoundTrip(mode, st2, n, fmt, i + 1, acc + [n.elements[i]]);
      AppendNext(acc, n.elements, i);
    }
  }

  /** `parseJson` reads back the compact text of every reparsable tree, in either mode, printing nothing. */
  lemma CompactRoundTrip(mode: Mode, n: Node, fmt: seq<Byte> -> seq<Byte>)
    requires Reparsable(n)
    ensures var r := ParseJson(mode, Compact(n, fmt)); r.Parsed? && r.value == n && r.st.log == []
  {
    var text := Compact(n, fmt);
    var st := PState(Start(text), []);
    CompactHead(n, fmt);
    AheadPeek(st.cur, text);
    ElementRoundTrip(mode, st, n, fmt);
    var st1 := ParseElement(mode, st).st;
    assert st1.cur.Peek() == EOF;
    JsonStep(mode, text, n, st1);
  }
}

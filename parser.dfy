/**
 * The class `Parser` of parser.cpp: a lexer advanced in place by mutually
 * recursive parse methods, each of which collects members, elements and number
 * text in its own loop. A `std::runtime_error` from `error` and the exceptions of
 * `std::stoll`/`std::stold` become a `Raised` result; the diagnostics written to
 * `std::cout` in lenient mode are kept in the field `log`.
 *
 * Every method is proved to compute what the function of the same name in module
 * `Grammar` describes, starting from the state the parser was in when it was called.
 */
module Parsing {
  import opened Bytes
  import opened Lexing
  import opened Json
  import opened Conversions
  import opened Grammar

  /** What a parse method hands back: its value, or the exception it lets escape. */
  datatype Result<T> = Returned(value: T) | Raised(failure: Failure)

  /** A method's result together with the state it leaves, in the form `Grammar` uses. */
  function Pack<T>(r: Result<T>, st: PState): Res<T> {
    match r
    case Returned(v) => Parsed(v, st)
    case Raised(f) => Failed(f)
  }

  class Parser {
    const lexer: Lexer
    const shouldThrow: bool
    /** The diagnostics printed to `std::cout`, in order. */
    var log: seq<seq<Byte>>

    function ParseMode(): Mode {
      if shouldThrow then Strict else Lenient
    }

    /** The parser's state as a value. */
    function State(): PState
      reads this, lexer
    {
      PState(lexer.State(), log)
    }

    constructor (text: seq<Byte>, shouldThrow: bool)
      ensures this.shouldThrow == shouldThrow
      ensures State() == PState(Start(text), [])
      ensures fresh(lexer)
    {
      this.shouldThrow := shouldThrow;
      lexer := new Lexer(text);
      log := [];
    }

    /** `error(expected, got)`. */
    method Error(expected: seq<Byte>, got: seq<Byte>) returns (r: Result<()>)
      modifies this
      ensures lexer.State() == old(lexer.State())
      ensures Pack(r, State()) == Report(ParseMode(), old(State()), expected, got)
    {
      var res := Message(lexer.State(), expected, got);
      if shouldThrow {
        return Raised(Thrown(res));
      }
      log := log + [res];
      return Returned(());
    }

    /** A recovery loop: skip bytes until `target` or the end of the input. */
    method RecoverTo(target: Byte)
      modifies lexer
      ensures lexer.State() == SkipUntil(old(lexer.State()), target)
    {
      while lexer.Peek() != EOF && lexer.Peek() != target
        invariant SkipUntil(lexer.State(), target) == SkipUntil(old(lexer.State()), target)
        decreases lexer.State().Rem()
      {
        lexer.SkipChar();
      }
    }

    /** The check before the closing byte of an object, a member name, an array and a string. */
    method Expect(want: Byte, expected: seq<Byte>, target: Byte) returns (r: Result<()>)
      modifies this, lexer
      ensures Pack(r, State()) == Grammar.Expect(ParseMode(), old(State()), want, expected, target)
    {
      if lexer.Peek() != want {
        r := Error(expected, lexer.PeekStr(1));
        if r.Raised? {
          return;
        }
        RecoverTo(target);
      }
      return Returned(());
    }

    /** `parseJson`. */
    method ParseJson() returns (r: Result<Node>)
      requires State() == PState(Start(lexer.text), [])
      modifies this, lexer
      ensures Pack(r, State()) == Grammar.ParseJson(ParseMode(), lexer.text)
    {
      r := ParseElement();
      if r.Raised? {
        return;
      }
      if lexer.Peek() != EOF {
        var e := Error("EOF", lexer.PeekStr(1));
        if e.Raised? {
          return Raised(e.failure);
        }
      }
    }

    /** `parseElement`. */
    method ParseElement() returns (r: Result<Node>)
      modifies this, lexer
      ensures Pack(r, State()) == Grammar.ParseElement(ParseMode(), old(State()))
      decreases lexer.State().Rem(), 2
    {
      lexer.SkipWhitespace();
      r := ParseValue();
      if r.Raised? {
        return;
      }
      lexer.SkipWhitespace();
    }

    /** `parseValue`. */
    method ParseValue() returns (r: Result<Node>)
      modifies this, lexer
      ensures Pack(r, State()) == Grammar.ParseValue(ParseMode(), old(State()))
      decreases lexer.State().Rem(), 1
    {
      var next := lexer.Peek();
      if next == '{' {
        r := ParseObject();
        return;
      } else if next == '[' {
        r := ParseArray();
        return;
      } else if next == '"' || next == '\'' {
        var s := ParseString();
        if s.Raised? {
          return Raised(s.failure);
        }
        return Returned(String(s.value));
      }
      if IsNumber(next) {
        r := ParseNumber();
        return;
      }
      r := ParseLiteral();
    }

    /** The rest of `parseValue`: `false`, `true`, `null`, or an error and an empty Object. */
    method ParseLiteral() returns (r: Result<Node>)
      modifies this, lexer
      ensures Pack(r, State()) == Grammar.ParseLiteral(ParseMode(), old(State()))
    {
      var peek := lexer.PeekStr(5);
      if StartsWith(peek, "false") {
        lexer.SkipChars(5);
        return Returned(Boolean(false));
      }
      if StartsWith(peek, "true") {
        lexer.SkipChars(4);
        return Returned(Boolean(true));
      }
      if StartsWith(peek, "null") {
        lexer.SkipChars(4);
        return Returned(Null);
      }

      var e := Error(NoValue, lexer.PeekStr(5));
      if e.Raised? {
        return Raised(e.failure);
      }
      return Returned(Object([]));
    }

    /** `parseObject`. */
    method ParseObject() returns (r: Result<Node>)
      requires lexer.Peek() == '{'
      modifies this, lexer
      ensures Pack(r, State()) == Grammar.ParseObject(ParseMode(), old(State()))
      decreases lexer.State().Rem(), 0
    {
      lexer.SkipChar();
      lexer.SkipWhitespace();
      var members := ParseMembers();
      if members.Raised? {
        return Raised(members.failure);
      }
      var e := Expect('}', "}", '}');
      if e.Raised? {
        return Raised(e.failure);
      }
      lexer.SkipChar();
      return Returned(Object(members.value));
    }

    /** `parseMembers`: the members are pushed in order until `}` or the end of the input. */
    method ParseMembers() returns (r: Result<seq<Member>>)
      modifies this, lexer
      ensures Pack(r, State()) == Grammar.ParseMembers(ParseMode(), old(State()))
      decreases lexer.State().Rem(), 5
    {
      var members: seq<Member> := [];
      while lexer.Peek() != EOF && lexer.Peek() != '}'
        invariant MembersLoop(ParseMode(), State(), members) == MembersLoop(ParseMode(), old(State()), [])
        invariant lexer.State().Rem() <= old(lexer.State().Rem())
        decreases lexer.State().Rem()
      {
        lexer.SkipWhitespace();
        var member := ParseMember();
        if member.Raised? {
          return Raised(member.failure);
        }
        lexer.SkipWhitespace();
        if lexer.Peek() == ',' {
          lexer.SkipChar();
        }
        members := members + [member.value];
      }
      return Returned(members);
    }

    /** `parseMember`. */
    method ParseMember() returns (r: Result<Member>)
      modifies this, lexer
      ensures Pack(r, State()) == Grammar.ParseMember(ParseMode(), old(State()))
      decreases lexer.State().Rem(), 3
    {
      lexer.SkipWhitespace();
      var name := ParseString();
      if name.Raised? {
        return Raised(name.failure);
      }
      var e := Expect(':', ":", ':');
      if e.Raised? {
        return Raised(e.failure);
      }
      lexer.SkipChar();
      var element := ParseElement();
      if element.Raised? {
        return Raised(element.failure);
      }
      return Returned(Member(name.value, element.value));
    }

    /**
     * `parseArray`: the elements are pushed in order until `]` or the end of the
     * input. An iteration that leaves the cursor where it was skips one byte, where
     * the source would repeat the iteration forever.
     */
    method ParseArray() returns (r: Result<Node>)
      requires lexer.Peek() == '['
      modifies this, lexer
      ensures Pack(r, State()) == Grammar.ParseArray(ParseMode(), old(State()))
      decreases lexer.State().Rem(), 0
    {
      lexer.SkipChar();
      ghost var start := State();
      var elements: seq<Node> := [];
      while lexer.Peek() != EOF && lexer.Peek() != ']'
        invariant ElementsLoop(ParseMode(), State(), elements) == ElementsLoop(ParseMode(), start, [])
        invariant lexer.State().Rem() <= start.cur.Rem()
        decreases lexer.State().Rem()
      {
        var before := lexer.idx;
        var element := ArrayIteration();
        if element.Raised? {
          return Raised(element.failure);
        }
        if lexer.idx == before {
          lexer.SkipChar();
        }
        elements := elements + [element.value];
      }
      var e := Expect(']', "]", ']');
      if e.Raised? {
        return Raised(e.failure);
      }
      lexer.SkipChar();
      return Returned(Array(elements));
    }

    /** One iteration of the loop of `parseArray`: whitespace, an element, whitespace, an optional comma. */
    method ArrayIteration() returns (r: Result<Node>)
      modifies this, lexer
      ensures Pack(r, State()) == Grammar.ArrayIteration(ParseMode(), old(State()))
      decreases lexer.State().Rem(), 3
    {
      lexer.SkipWhitespace();
      r := ParseElement();
      if r.Raised? {
        return;
      }
      lexer.SkipWhitespace();
      if lexer.Peek() == ',' {
        lexer.SkipChar();
      }
    }

    /** `parseString`: the scan loop counts the content bytes, which are then copied. */
    method ParseString() returns (r: Result<seq<Byte>>)
      modifies this, lexer
      ensures Pack(r, State()) == Grammar.ParseString(ParseMode(), old(State()))
    {
      if lexer.Peek() != '"' && lexer.Peek() != '\'' {
        var e := Error("\"", lexer.PeekStr(1));
        if e.Raised? {
          return Raised(e.failure);
        }
      }
      var expectedClose := lexer.Peek();
      lexer.SkipChar();
      var length: nat := 0;
      while lexer.PeekAt(length) != EOF &&
            (lexer.PeekAt(length) != expectedClose ||
             (lexer.PeekAt(length) == expectedClose && lexer.PeekAt(length - 1) == '\\'))
        invariant ScanString(lexer.State(), expectedClose, length) == ScanString(lexer.State(), expectedClose, 0)
        decreases if lexer.idx + length <= |lexer.text| + 1 then |lexer.text| + 1 - lexer.idx - length else 0
      {
        length := length + 1;
      }
      var result := Copied(lexer.State(), length);
      lexer.SkipChars(length);
      var e := Expect(expectedClose, IntToString(Signed(expectedClose)), '}');
      if e.Raised? {
        return Raised(e.failure);
      }
      lexer.SkipChar();
      return Returned(result);
    }

    /** The loop of `parseInteger`, `parseDecimal` and `parseExponent`: append bytes while `IsNumber`. */
    method AppendNumberBytes(init: seq<Byte>) returns (result: seq<Byte>)
      modifies lexer
      ensures Lexeme(result, lexer.State()) == NumberRun(old(lexer.State()), init)
    {
      result := init;
      while lexer.Peek() != EOF && IsNumber(lexer.Peek())
        invariant NumberRun(lexer.State(), result) == NumberRun(old(lexer.State()), init)
        decreases lexer.State().Rem()
      {
        result := result + [lexer.Peek()];
        lexer.SkipChar();
      }
    }

    /** `parseInteger`. */
    method ParseInteger() returns (result: seq<Byte>)
      modifies lexer
      ensures Lexeme(result, lexer.State()) == Grammar.ParseInteger(old(lexer.State()))
    {
      result := [];
      if lexer.Peek() == '-' {
        result := result + ['-'];
        lexer.SkipChar();
        assert result == "-";
      }
      result := AppendNumberBytes(result);
    }

    /** `parseDecimal`. */
    method ParseDecimal() returns (result: seq<Byte>)
      modifies lexer
      ensures Lexeme(result, lexer.State()) == Grammar.ParseDecimal(old(lexer.State()))
    {
      if lexer.Peek() != '.' {
        return [];
      }
      lexer.SkipChar();
      result := AppendNumberBytes([]);
    }

    /** The head of an exponent in `parseExponent`: the marker byte and an optional sign. */
    method ExponentHead() returns (result: seq<Byte>)
      modifies lexer
      ensures Lexeme(result, lexer.State()) == Grammar.ExponentHead(old(lexer.State()))
    {
      result := [lexer.Peek()];
      lexer.SkipChar();
      if lexer.Peek() == '-' || lexer.Peek() == '+' {
        result := result + [lexer.Peek()];
        lexer.SkipChar();
      }
    }

    /** `parseExponent` once the marker is settled. */
    method ExponentFrom() returns (r: Result<seq<Byte>>)
      modifies this, lexer
      ensures Pack(r, State()) == Grammar.ExponentFrom(ParseMode(), old(State()))
    {
      var result := ExponentHead();
      if lexer.Peek() != EOF && !IsNumber(lexer.Peek()) {
        var e := Error("0-9", lexer.PeekStr(1));
        if e.Raised? {
          return Raised(e.failure);
        }
        return Returned([]);
      }
      result := AppendNumberBytes(result);
      return Returned(result);
    }

    /** `parseExponent`. */
    method ParseExponent() returns (r: Result<seq<Byte>>)
      modifies this, lexer
      ensures Pack(r, State()) == Grammar.ParseExponent(ParseMode(), old(State()))
    {
      if lexer.Peek() != 'e' && lexer.Peek() != 'E' {
        if IsAlphaNum(lexer.Peek()) {
          var e := Error("e/E", lexer.PeekStr(1));
          if e.Raised? {
            return Raised(e.failure);
          }
          lexer.SkipChar();
        } else {
          return Returned([]);
        }
      }
      r := ExponentFrom();
    }

    /** `parseNumber`. */
    method ParseNumber() returns (r: Result<Node>)
      modifies this, lexer
      ensures Pack(r, State()) == Grammar.ParseNumber(ParseMode(), old(State()))
    {
      var integerPart := ParseInteger();
      var decimalPart := ParseDecimal();
      var exponent := ParseExponent();
      if exponent.Raised? {
        return Raised(exponent.failure);
      }
      if decimalPart == [] && exponent.value == [] {
        var res := StoLL(integerPart);
        if res.Rejected? {
          return Raised(Conversion(res.error));
        }
        return Returned(Integer(NarrowToInt(res.v)));
      }
      var literal := integerPart + decimalPart + exponent.value;
      if !StoldAccepts(literal) {
        return Raised(Conversion(InvalidArgument));
      }
      return Returned(Double(literal));
    }
  }
}

/**
 * The entry points of json.cpp, `JsonParser::Parse` and `JsonParser::ParsePartially`:
 * each builds a `Parser` over the text and runs `parseJson`, the first with
 * `shouldThrow` set (strict), the second without (lenient).
 */
module JsonApi {
  import opened Bytes
  import opened Json
  import opened Grammar
  import opened Parsing
  import opened Printing
  import RoundTrip

  /** What the caller of an entry point sees: the tree, or the exception that escaped. */
  function Outcome(r: Res<Node>): (o: Result<Node>)
    ensures o.Returned? <==> r.Parsed?
    ensures r.Parsed? ==> o.value == r.value
    ensures r.Failed? ==> o.failure == r.failure
  {
    match r
    case Parsed(v, _) => Returned(v)
    case Failed(f) => Raised(f)
  }

  /** `Parse(text)`: a strict parse; any error escapes as an exception. */
  method Parse(text: seq<Byte>) returns (r: Result<Node>)
    ensures r == Outcome(Grammar.ParseJson(Strict, text))
  {
    var parser := new Parser(text, true);
    r := parser.ParseJson();
  }

  /**
   * `ParsePartially(text)`: a lenient parse, which prints a diagnostic for each error
   * and carries on; only a failed number conversion escapes.
   */
  method ParsePartially(text: seq<Byte>) returns (r: Result<Node>, printed: seq<seq<Byte>>)
    ensures r == Outcome(Grammar.ParseJson(Lenient, text))
    ensures r.Returned? ==> printed == Grammar.ParseJson(Lenient, text).st.log
    ensures r.Raised? ==> r.failure.Conversion?
  {
    var parser := new Parser(text, false);
    r := parser.ParseJson();
    printed := parser.log;
  }

  /**
   * What `CompactPrint` writes for a tree the parser can represent, `Parse` and
   * `ParsePartially` both read back as that same tree, printing nothing.
   */
  lemma ParseCompactPrint(n: Node, fmt: seq<Byte> -> seq<Byte>)
    requires RoundTrip.Reparsable(n)
    ensures Outcome(Grammar.ParseJson(Strict, Compact(n, fmt))) == Returned(n)
    ensures Outcome(Grammar.ParseJson(Lenient, Compact(n, fmt))) == Returned(n)
    ensures Grammar.ParseJson(Lenient, Compact(n, fmt)).st.log == []
  {
    RoundTrip.CompactRoundTrip(Strict, n, fmt);
    RoundTrip.CompactRoundTrip(Lenient, n, fmt);
  }
}

/**
 * The lexer of lexer.h: a byte cursor over the input text that tracks the index,
 * the line and the column.
 *
 * Its reads (`peek`, `peek(forward)`, `peekStr`, the character classes) have no
 * effect and are functions on the value `Cursor`, the lexer's state. The class
 * `Lexer` holds that state in fields and updates it in place with `SkipChar`,
 * `SkipChars` and `SkipWhitespace`, each proved to move to the `Cursor` the
 * corresponding function describes.
 */
module Lexing {
  import opened Bytes

  /** `Lexer::IsNumber`: a `-` or a decimal digit. */
  predicate IsNumber(b: Byte) {
    b == '-' || IsDigit(b)
  }

  /** `Lexer::IsAlphaNum`: a letter or a decimal digit. */
  predicate IsAlphaNum(b: Byte) {
    IsAlpha(b) || IsDigit(b)
  }

  const DigitBytes: seq<Byte> := "0123456789"
  const LowerBytes: seq<Byte> := "abcdefghijklmnopqrstuvwxyz"
  const UpperBytes: seq<Byte> := "ABCDEFGHIJKLMNOPQRSTUVWXYZ"

  /** The classes agree with the explicit lists of bytes they stand for. */
  lemma CharacterClasses(b: Byte)
    ensures IsNumber(b) <==> b in "-0123456789"
    ensures IsAlphaNum(b) <==> b in DigitBytes + LowerBytes + UpperBytes
  {
    ListedRange(DigitBytes, '0', b);
    ListedRange(LowerBytes, 'a', b);
    ListedRange(UpperBytes, 'A', b);
  }

  /** A list of consecutive bytes from `first` holds exactly the bytes of that range. */
  lemma ListedRange(list: seq<Byte>, first: Byte, b: Byte)
    requires forall i :: 0 <= i < |list| ==> list[i] as int == first as int + i
    ensures b in list <==> first as int <= b as int < first as int + |list|
  {
    if first as int <= b as int < first as int + |list| {
      assert list[b as int - first as int] == b;
    }
  }

  /** The bytes `skipWhitespace` skips. */
  predicate IsWhitespace(b: Byte) {
    b == ' ' || b == '\r' || b == '\n' || b == '\t'
  }

  /** The state of a lexer: the text, `m_Idx`, `m_Line` and `m_Column`. */
  datatype Cursor = Cursor(text: seq<Byte>, idx: nat, line: Uint32, column: Uint32)
  {
    /** Bytes left before the end of the text; the measure every loop of the parser decreases. */
    function Rem(): nat {
      if idx <= |text| then |text| - idx else 0
    }

    /** `peek()`: the byte under the cursor, or the sentinel once `idx + 1 > size`. */
    function Peek(): (b: Byte)
      ensures b == EOF <==> idx >= |text| || text[idx] == EOF
      ensures idx < |text| ==> b == text[idx]
    {
      if idx + 1 > |text| then EOF else text[idx]
    }

    /**
     * `peek(forward)`: the byte `forward` places ahead. Only a position past `size()`
     * gives the sentinel: position `size()` itself reads the terminating NUL. The
     * offset is signed here because the parser passes `length - 1` with `length == 0`,
     * which the 64-bit addition wraps to the byte just before the cursor.
     */
    function PeekAt(forward: int): (b: Byte)
      requires idx + forward >= 0
      ensures b == EOF <==> idx + forward > |text| || (idx + forward < |text| && text[idx + forward] == EOF)
      ensures idx + forward == |text| ==> b == NUL
      ensures idx + forward < |text| ==> b == text[idx + forward]
    {
      if idx + forward > |text| then EOF
      else if idx + forward == |text| then NUL
      else text[idx + forward]
    }

    /**
     * `peekStr(n)`: nothing at the end of the input, otherwise the next `min(n, remaining)`
     * bytes. (The source's second test compares an unsigned minimum with 0 and never holds.)
     */
    function PeekStr(n: nat): (s: seq<Byte>)
      ensures idx >= |text| ==> s == []
      ensures idx < |text| ==> |s| == (if n < |text| - idx then n else |text| - idx)
      ensures idx < |text| ==> s == text[idx..idx + |s|]
    {
      if idx + 1 > |text| then []
      else text[idx..idx + (if n < |text| - idx then n else |text| - idx)]
    }

    /** `skipChar()`: one byte further, one column further; no bounds check. */
    function SkipChar(): Cursor {
      this.(idx := idx + 1, column := (column + 1) % U32)
    }

    /** `skipChars(count)`: `count` bytes and columns further; no bounds check. */
    function SkipChars(count: nat): Cursor {
      this.(idx := idx + count, column := (column + count) % U32)
    }

    /**
     * The line-break part of one `skipWhitespace` iteration: CR LF moves two bytes
     * on, and any line break resets the column and starts a new line.
     */
    function BreakLine(): Cursor {
      if Peek() == '\r' && PeekAt(1) == '\n' then this.(column := 0, line := (line + 1) % U32).SkipChars(2)
      else if Peek() == '\r' then this.(column := 0, line := (line + 1) % U32)
      else if Peek() == '\n' then this.(column := 0, line := (line + 1) % U32)
      else this
    }

    /**
     * One iteration of the `skipWhitespace` loop: the column moves on, a line break
     * starts a new line, and the final `skipChar` moves past the byte.
     */
    function WhitespaceStep(): (c: Cursor)
      requires IsWhitespace(Peek())
      ensures c.text == text && c.idx > idx
    {
      this.(column := (column + 1) % U32).BreakLine().SkipChar()
    }

    /** `skipWhitespace()`: repeat `WhitespaceStep` while the next byte is whitespace. */
    function SkipWhitespace(): (c: Cursor)
      ensures c.text == text && c.idx >= idx
      ensures !IsWhitespace(c.Peek())
      ensures !IsWhitespace(Peek()) ==> c == this
      decreases Rem()
    {
      if IsWhitespace(Peek()) then WhitespaceStep().SkipWhitespace() else this
    }
  }

  /** A fresh lexer: index 0, line 1, column 0. */
  function Start(text: seq<Byte>): Cursor {
    Cursor(text, 0, 1, 0)
  }

  /**
   * A line break advances the line by one. A lone CR or LF leaves the column at 1
   * after one byte; CR LF leaves it at 3 after three bytes, so the byte that follows
   * the pair is consumed as well.
   */
  lemma LineBreakStep(c: Cursor)
    requires c.Peek() == '\r' || c.Peek() == '\n'
    ensures c.WhitespaceStep().text == c.text
    ensures c.WhitespaceStep().line == (c.line + 1) % U32
    ensures c.Peek() == '\r' && c.PeekAt(1) == '\n' ==>
      c.WhitespaceStep().idx == c.idx + 3 && c.WhitespaceStep().column == 3
    ensures !(c.Peek() == '\r' && c.PeekAt(1) == '\n') ==>
      c.WhitespaceStep().idx == c.idx + 1 && c.WhitespaceStep().column == 1
  {
  }

  /**
   * A CR LF pair swallows the byte after it, whatever that byte is: skipping
   * whitespace from the pair goes on from three bytes further, so the `{` of
   * "\r\n{" is never seen by the parser.
   */
  lemma CrLfSwallowsNextByte(c: Cursor)
    requires c.idx + 2 < |c.text| && c.text[c.idx] == '\r' && c.text[c.idx + 1] == '\n'
    ensures c.SkipWhitespace() ==
      Cursor(c.text, c.idx + 3, (c.line + 1) % U32, 3).SkipWhitespace()
  {
    assert c.WhitespaceStep() == Cursor(c.text, c.idx + 3, (c.line + 1) % U32, 3);
  }

  /** A space, a tab or an LF: whitespace that moves the cursor by exactly one byte. */
  predicate IsBlank(b: Byte) {
    b == ' ' || b == '\t' || b == '\n'
  }

  /** Number of LF bytes in `s`. */
  function CountLf(s: seq<Byte>): nat {
    if s == [] then 0 else CountLf(s[..|s| - 1]) + (if s[|s| - 1] == '\n' then 1 else 0)
  }

  /**
   * Over a run of spaces, tabs and LFs ending at a byte that is not whitespace (or at
   * the end of the text), `skipWhitespace` stops exactly at the end of the run, and
   * (while the counter does not wrap) the line has grown by the number of LFs in it.
   */
  lemma {:induction false} SkipBlankRun(c: Cursor, j: nat)
    requires c.idx <= j <= |c.text|
    requires forall p :: c.idx <= p < j ==> IsBlank(c.text[p])
    requires j < |c.text| ==> !IsWhitespace(c.text[j])
    ensures c.SkipWhitespace().idx == j
    ensures c.line + CountLf(c.text[c.idx..j]) < U32 ==>
      c.SkipWhitespace().line == c.line + CountLf(c.text[c.idx..j])
    decreases j - c.idx
  {
    if c.idx == j {
      AtRunEnd(c);
    } else {
      BlankStep(c);
      var d := c.WhitespaceStep();
      SkipBlankRun(d, j);
      CountLfFrom(c.text, c.idx, j);
      SkipWhitespaceUnfold(c);
    }
  }

  /** At a byte that is not whitespace, skipping whitespace changes nothing. */
  lemma AtRunEnd(c: Cursor)
    requires c.idx <= |c.text|
    requires c.idx < |c.text| ==> !IsWhitespace(c.text[c.idx])
    ensures c.SkipWhitespace() == c
    ensures CountLf(c.text[c.idx..c.idx]) == 0
  {
    assert c.text[c.idx..c.idx] == [];
  }

  /** Skipping whitespace from a whitespace byte is one step followed by the rest. */
  lemma SkipWhitespaceUnfold(c: Cursor)
    requires IsWhitespace(c.Peek())
    ensures c.SkipWhitespace() == c.WhitespaceStep().SkipWhitespace()
  {
  }

  /** Counting LFs from position `i` is the first byte's count plus the rest. */
  lemma CountLfFrom(s: seq<Byte>, i: nat, j: nat)
    requires i < j <= |s|
    ensures CountLf(s[i..j]) == (if s[i] == '\n' then 1 else 0) + CountLf(s[i + 1..j])
  {
    CountLfFront(s[i..j]);
    assert s[i..j][1..] == s[i + 1..j];
  }

  /** One step over a space, tab or LF moves one byte and counts the LF. */
  lemma BlankStep(c: Cursor)
    requires c.idx < |c.text| && IsBlank(c.text[c.idx])
    ensures c.WhitespaceStep().text == c.text
    ensures c.WhitespaceStep().idx == c.idx + 1
    ensures c.text[c.idx] != '\n' ==> c.WhitespaceStep().line == c.line
    ensures c.text[c.idx] == '\n' && c.line + 1 < U32 ==> c.WhitespaceStep().line == c.line + 1
  {
  }

  lemma {:induction false} CountLfFront(s: seq<Byte>)
    requires s != []
    ensures CountLf(s) == (if s[0] == '\n' then 1 else 0) + CountLf(s[1..])
    decreases |s|
  {
    if |s| > 1 {
      CountLfFront(s[..|s| - 1]);
      assert s[..|s| - 1][1..] == s[1..][..|s[1..]| - 1];
    } else {
      assert s[..|s| - 1] == [] && s[1..] == [];
    }
  }

  /**
   * The lexer object: `m_Text` is fixed at construction, the three counters are
   * updated in place.
   */
  class Lexer {
    const text: seq<Byte>
    var idx: nat
    var line: Uint32
    var column: Uint32

    /** The lexer's current state as a value. */
    function State(): Cursor
      reads this
    {
      Cursor(text, idx, line, column)
    }

    constructor (text: seq<Byte>)
      ensures State() == Start(text)
    {
      this.text := text;
      idx, line, column := 0, 1, 0;
    }

    /** `peek()`. */
    function Peek(): Byte
      reads this
    {
      State().Peek()
    }

    /** `peek(forward)`. */
    function PeekAt(forward: int): Byte
      reads this
      requires idx + forward >= 0
    {
      State().PeekAt(forward)
    }

    /** `peekStr(charCount)`. */
    function PeekStr(charCount: nat): seq<Byte>
      reads this
    {
      State().PeekStr(charCount)
    }

    /** `getLine()`. */
    function GetLine(): Uint32
      reads this
    {
      line
    }

    /** `getColumn()`. */
    function GetColumn(): Uint32
      reads this
    {
      column
    }

    method SkipChar()
      modifies this
      ensures idx == old(idx) + 1 && column == (old(column) + 1) % U32 && line == old(line)
      ensures State() == old(State()).SkipChar()
    {
      idx := idx + 1;
      column := (column + 1) % U32;
    }

    method SkipChars(count: nat)
      modifies this
      ensures idx == old(idx) + count && column == (old(column) + count) % U32 && line == old(line)
      ensures State() == old(State()).SkipChars(count)
    {
      idx := idx + count;
      column := (column + count) % U32;
    }

    method SkipWhitespace()
      modifies this
      ensures State() == old(State()).SkipWhitespace()
      ensures !IsWhitespace(State().Peek())
    {
      while IsWhitespace(State().Peek())
        invariant State().SkipWhitespace() == old(State()).SkipWhitespace()
        decreases State().Rem()
      {
        SkipWhitespaceUnfold(State());
        WhitespaceStep();
      }
    }

    /** The body of the `skipWhitespace` loop. */
    method WhitespaceStep()
      requires IsWhitespace(State().Peek())
      modifies this
      ensures State() == old(State()).WhitespaceStep()
    {
      column := (column + 1) % U32;
      ghost var bumped := State();
      if State().Peek() == '\r' && State().PeekAt(1) == '\n' {
        column := 0;
        line := (line + 1) % U32;
        SkipChars(2);
      } else if State().Peek() == '\r' {
        column := 0;
        line := (line + 1) % U32;
      } else if State().Peek() == '\n' {
        column := 0;
        line := (line + 1) % U32;
      }
      assert State() == bumped.BreakLine();
      SkipChar();
    }
  }
}

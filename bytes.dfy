/**
 * Byte-level vocabulary shared by the lexer, the parser, the printers and the
 * splitter: the byte type, the end-of-input sentinel, decimal text, C strings
 * and the fixed-width integer conversions the C++ code performs implicitly.
 */
module Bytes {

  /** A byte of a `std::string`. Dafny strings are sequences of `char`; a byte is one below 256. */
  type Byte = c: char | c as int < 256

  const U32: int := 0x1_0000_0000
  const U64: int := 0x1_0000_0000_0000_0000
  const I64: int := 0x8000_0000_0000_0000

  /** An `uint32_t`, such as the lexer's line and column counters. */
  type Uint32 = x: int | 0 <= x < U32

  /**
   * The lexer's end-of-input sentinel `(char)-1`. With a signed `char` this is the
   * byte 0xFF, so a 0xFF byte inside the text reads exactly like the end of input.
   */
  const EOF: Byte := '\U{FF}'

  /** The terminator that `std::string` keeps after its last byte. */
  const NUL: Byte := '\0'

  /** The value of a byte read as a signed `char`. */
  function Signed(b: Byte): (v: int)
    ensures -128 <= v < 128
    ensures v == -1 <==> b == EOF
    ensures 0 <= v <==> b as int < 128
  {
    if b as int < 128 then b as int else b as int - 256
  }

  /** `std::isdigit` on the ASCII range. */
  predicate IsDigit(b: Byte) {
    '0' <= b <= '9'
  }

  /** `std::isalpha` on the ASCII range. */
  predicate IsAlpha(b: Byte) {
    'a' <= b <= 'z' || 'A' <= b <= 'Z'
  }

  predicate AllDigits(s: seq<Byte>) {
    forall i :: 0 <= i < |s| ==> IsDigit(s[i])
  }

  function DigitChar(d: nat): (b: Byte)
    requires d < 10
    ensures IsDigit(b) && b as int - '0' as int == d
  {
    ('0' as int + d) as char
  }

  /** The number a run of decimal digits denotes (most significant digit first). */
  function DigitsValue(s: seq<Byte>): nat
    requires AllDigits(s)
  {
    if s == [] then 0 else DigitsValue(s[..|s| - 1]) * 10 + (s[|s| - 1] as int - '0' as int)
  }

  /** Decimal text of a natural number, as `std::to_string` and `operator<<` write it. */
  function NatToString(n: nat): (s: seq<Byte>)
    ensures |s| > 0 && AllDigits(s)
  {
    if n < 10 then [DigitChar(n)] else NatToString(n / 10) + [DigitChar(n % 10)]
  }

  /** Decimal text of an integer: a `-` before the magnitude of a negative number. */
  function IntToString(v: int): (s: seq<Byte>)
    ensures |s| > 0
    ensures s[0] == '-' <==> v < 0
    ensures v >= 0 ==> AllDigits(s)
    ensures v < 0 ==> |s| > 1 && AllDigits(s[1..])
  {
    if v < 0 then "-" + NatToString(-v) else NatToString(v)
  }

  /** Reading back the digits `NatToString` writes gives the number again. */
  lemma {:induction false} NatToStringValue(n: nat)
    ensures DigitsValue(NatToString(n)) == n
  {
    if n >= 10 {
      var s := NatToString(n);
      assert s[..|s| - 1] == NatToString(n / 10);
      NatToStringValue(n / 10);
    }
  }

  /** The characters a C routine sees through a `const char*`: everything before the first NUL. */
  function CString(s: seq<Byte>): (r: seq<Byte>)
    ensures |r| <= |s| && r == s[..|r|]
    ensures NUL !in r
    ensures |r| < |s| ==> s[|r|] == NUL
  {
    if s == [] || s[0] == NUL then [] else [s[0]] + CString(s[1..])
  }

  lemma CStringOfNulFree(s: seq<Byte>)
    requires NUL !in s
    ensures CString(s) == s
  {
  }

  /**
   * `strncpy(dst, src, |src|)`: bytes are copied up to the first NUL and the rest of
   * the destination is filled with NULs.
   */
  function StrNCpy(src: seq<Byte>): (r: seq<Byte>)
    ensures |r| == |src|
    ensures r[..|CString(src)|] == CString(src)
    ensures forall i :: |CString(src)| <= i < |r| ==> r[i] == NUL
  {
    CString(src) + seq(|src| - |CString(src)|, _ => NUL)
  }

  lemma StrNCpyOfNulFree(s: seq<Byte>)
    requires NUL !in s
    ensures StrNCpy(s) == s
  {
    CStringOfNulFree(s);
  }

  /** Reducing modulo 2^32 before or after an addition gives the same counter. */
  lemma AddMod32(a: int, b: int)
    ensures (a % U32 + b) % U32 == (a + b) % U32
  {
    var q := a / U32;
    assert a == q * U32 + a % U32;
    assert a + b == (a % U32 + b) + q * U32;
  }

  /** `s.rfind(prefix, 0) == 0`: `prefix` occurs at position 0 of `s`. */
  predicate StartsWith(s: seq<Byte>, prefix: seq<Byte>) {
    |prefix| <= |s| && s[..|prefix|] == prefix
  }

  /**
   * The narrowing `int res = <long long>`: the value modulo 2^32, read back in
   * two's complement.
   */
  function NarrowToInt(v: int): (r: int)
    ensures -0x8000_0000 <= r < 0x8000_0000
    ensures (r - v) % U32 == 0
    ensures -0x8000_0000 <= v < 0x8000_0000 ==> r == v
  {
    (v + 0x8000_0000) % U32 - 0x8000_0000
  }
}

/**
 * The two standard-library conversions the parser calls on the number text it
 * collected: `std::stoll` for integers and `std::stold` for everything else.
 * Both throw `std::invalid_argument` when no conversion can be performed, and
 * `std::stoll` throws `std::out_of_range` when the value does not fit 64 bits.
 */
module Conversions {
  import opened Bytes

  datatype ConversionError = InvalidArgument | OutOfRange

  datatype Converted = Value(v: int) | Rejected(error: ConversionError)

  /** The longest run of decimal digits at the front of `s`. */
  function DigitPrefix(s: seq<Byte>): (d: seq<Byte>)
    ensures |d| <= |s| && d == s[..|d|] && AllDigits(d)
    ensures |d| < |s| ==> !IsDigit(s[|d|])
  {
    if s != [] && IsDigit(s[0]) then [s[0]] + DigitPrefix(s[1..]) else []
  }

  lemma {:induction false} DigitPrefixOfDigits(s: seq<Byte>, rest: seq<Byte>)
    requires AllDigits(s)
    requires rest == [] || !IsDigit(rest[0])
    ensures DigitPrefix(s + rest) == s
    decreases |s|
  {
    if s != [] {
      assert (s + rest)[1..] == s[1..] + rest;
      DigitPrefixOfDigits(s[1..], rest);
    } else {
      assert s + rest == rest;
    }
  }

  /**
   * `std::stoll(s)` in base 10: an optional sign and then the longest run of digits,
   * the rest of the text ignored. (The parser never hands it leading whitespace.)
   */
  function StoLL(s: seq<Byte>): (r: Converted)
    ensures r.Value? ==> -I64 <= r.v < I64
    ensures r.Value? ==> s != [] && (IsDigit(s[0]) || (|s| > 1 && s[0] in "+-" && IsDigit(s[1])))
  {
    var signed := s != [] && (s[0] == '-' || s[0] == '+');
    var digits := DigitPrefix(if signed then s[1..] else s);
    if digits == [] then Rejected(InvalidArgument)
    else
      var magnitude: int := DigitsValue(digits);
      var v := if signed && s[0] == '-' then -magnitude else magnitude;
      if v < -I64 || v >= I64 then Rejected(OutOfRange) else Value(v)
  }

  /** `std::stoll` reads back every 64-bit value that `std::to_string` writes, whatever follows it. */
  lemma StoLLOfIntToString(v: int, rest: seq<Byte>)
    requires -I64 <= v < I64
    requires rest == [] || !IsDigit(rest[0])
    ensures StoLL(IntToString(v) + rest) == Value(v)
  {
    if v < 0 {
      StoLLOfNegative(v, rest);
    } else {
      var n := NatToString(v);
      assert IntToString(v) + rest == n + rest;
      DigitPrefixOfDigits(n, rest);
      NatToStringValue(v);
    }
  }

  lemma {:induction false} StoLLOfNegative(v: int, rest: seq<Byte>)
    requires -I64 <= v < 0
    requires rest == [] || !IsDigit(rest[0])
    ensures StoLL(IntToString(v) + rest) == Value(v)
  {
    var n := NatToString(-v);
    assert IntToString(v) + rest == ['-'] + (n + rest);
    DigitPrefixOfDigits(n, rest);
    NatToStringValue(-v);
    StoLLOfMinus(n + rest, n);
  }

  /** A `-` followed by digits `d` reads as the negated value of `d`. */
  lemma {:induction false} StoLLOfMinus(t: seq<Byte>, d: seq<Byte>)
    requires DigitPrefix(t) == d && d != [] && DigitsValue(d) <= I64
    ensures StoLL(['-'] + t) == Value(-(DigitsValue(d) as int))
  {
    assert (['-'] + t)[1..] == t;
  }

  /** ASCII lower case, as `strtold` compares "inf" and "nan". */
  function Lower(b: Byte): Byte {
    if 'A' <= b <= 'Z' then (b as int + 32) as char else b
  }

  predicate StartsWithIgnoringCase(s: seq<Byte>, word: seq<Byte>) {
    |word| <= |s| && forall i :: 0 <= i < |word| ==> Lower(s[i]) == word[i]
  }

  /**
   * Whether `std::stold` can convert the front of `s`: after an optional sign, a
   * digit, a `.` followed by a digit, or the words "inf" or "nan" in any case.
   */
  predicate StoldAccepts(s: seq<Byte>): (ok: bool)
    ensures ok ==> s != []
    ensures s != [] && IsDigit(s[0]) ==> ok
  {
    var t := if s != [] && (s[0] == '-' || s[0] == '+') then s[1..] else s;
    t != [] &&
    (IsDigit(t[0]) || (|t| > 1 && t[0] == '.' && IsDigit(t[1])) ||
     StartsWithIgnoringCase(t, "inf") || StartsWithIgnoringCase(t, "nan"))
  }

  /** Whatever `std::stoll` accepts, `std::stold` accepts too. */
  lemma StoldAcceptsIntegers(s: seq<Byte>)
    requires StoLL(s).Value?
    ensures StoldAccepts(s)
  {
  }
}

/**
 * `Utils::SplitString` of utils.cpp: the tokens of a text between occurrences of
 * a delimiter, empty tokens dropped.
 *
 * `std::string::find` is the function `Find`; `std::string::npos` is replaced by the
 * length of the text, as the loop does right after the call. With an empty delimiter
 * and a non-empty text the loop of the source never advances, so callers must pass a
 * non-empty delimiter unless the text is empty.
 */
module Utils {
  import opened Bytes

  /** The delimiter `SplitString` uses when none is given. */
  const DefaultDelimiter: seq<Byte> := " "

  /** `delim` occurs in `s` at offset `p`. */
  predicate OccursAt(s: seq<Byte>, delim: seq<Byte>, p: nat) {
    p + |delim| <= |s| && forall k :: 0 <= k < |delim| ==> s[p + k] == delim[k]
  }

  /** `delim` occurs somewhere in `s`. */
  predicate Contains(s: seq<Byte>, delim: seq<Byte>) {
    exists p: nat :: p <= |s| && OccursAt(s, delim, p)
  }

  /** `str.find(delim, from)`, with "not found" as `|s|`. */
  function Find(s: seq<Byte>, delim: seq<Byte>, from: nat): (pos: nat)
    requires from <= |s|
    ensures from <= pos <= |s|
    ensures pos < |s| ==> OccursAt(s, delim, pos)
    decreases |s| - from
  {
    if from == |s| || OccursAt(s, delim, from) then from else Find(s, delim, from + 1)
  }

  /** `find` returns the first occurrence at or after `from`. */
  lemma {:induction false} FindFirst(s: seq<Byte>, delim: seq<Byte>, from: nat, p: nat)
    requires from <= |s| && from <= p < Find(s, delim, from)
    ensures !OccursAt(s, delim, p)
    decreases |s| - from
  {
    if from < p {
      FindFirst(s, delim, from + 1, p);
    }
  }

  /** The iterations of the `do`/`while` loop from `prev` on: the tokens they push. */
  function SplitFrom(s: seq<Byte>, delim: seq<Byte>, prev: nat): (tokens: seq<seq<Byte>>)
    requires delim != [] || s == []
    requires prev <= |s|
    ensures prev == |s| ==> tokens == []
    ensures |tokens| <= |s| - prev
    decreases |s| - prev
  {
    var pos := Find(s, delim, prev);
    Keep(s[prev..pos]) + (if pos < |s| && pos + |delim| < |s| then SplitFrom(s, delim, pos + |delim|) else [])
  }

  /** An iteration after which the loop goes on: its token, then the iterations from `next`. */
  lemma SplitContinues(s: seq<Byte>, delim: seq<Byte>, prev: nat, pos: nat, next: nat)
    requires delim != [] || s == []
    requires prev <= |s| && pos == Find(s, delim, prev)
    requires next == pos + |delim| && pos < |s| && next < |s|
    ensures SplitFrom(s, delim, prev) == Keep(s[prev..pos]) + SplitFrom(s, delim, next)
  {
    assert pos < |s| && pos + |delim| < |s|;
  }

  /** The last iteration of the loop: its token only. */
  lemma SplitStops(s: seq<Byte>, delim: seq<Byte>, prev: nat, pos: nat)
    requires delim != [] || s == []
    requires prev <= |s| && pos == Find(s, delim, prev)
    requires !(pos < |s| && pos + |delim| < |s|)
    ensures SplitFrom(s, delim, prev) == Keep(s[prev..pos])
  {
  }

  /** The tokens one iteration pushes: the token, unless it is empty. */
  function Keep(token: seq<Byte>): seq<seq<Byte>> {
    if |token| == 0 then [] else [token]
  }

  /** `SplitString(str, delim)`. */
  function Split(s: seq<Byte>, delim: seq<Byte>): (tokens: seq<seq<Byte>>)
    requires delim != [] || s == []
    ensures |tokens| <= |s|
    ensures s == [] ==> tokens == []
  {
    SplitFrom(s, delim, 0)
  }

  lemma AppendAssoc<T>(a: seq<T>, b: seq<T>, c: seq<T>)
    ensures a + (b + c) == (a + b) + c
  {
  }

  lemma AppendNothing<T>(a: seq<T>)
    ensures a + [] == a
  {
  }

  /** `SplitString(str, delim)`, as written: a `do`/`while` loop that pushes each non-empty token. */
  method SplitString(s: seq<Byte>, delim: seq<Byte>) returns (tokens: seq<seq<Byte>>)
    requires delim != [] || s == []
    ensures tokens == Split(s, delim)
  {
    ghost var all := Split(s, delim);
    tokens := [];
    var prev: nat := 0;
    while true
      invariant prev <= |s| && tokens + SplitFrom(s, delim, prev) == all
      decreases |s| - prev
    {
      var pos := Find(s, delim, prev);
      var token := s[prev..pos];
      ghost var before := tokens;
      if token != [] {
        tokens := tokens + [token];
      }
      if token == [] {
        AppendNothing(before);
      }
      assert tokens == before + Keep(token);
      ghost var last := prev;
      prev := pos + |delim|;
      if !(pos < |s| && prev < |s|) {
        SplitStops(s, delim, last, pos);
        return;
      }
      SplitContinues(s, delim, last, pos, prev);
      AppendAssoc(before, Keep(token), SplitFrom(s, delim, prev));
    }
  }

  /** A token `SplitString` may return: not empty, and without the delimiter in it. */
  predicate Clean(t: seq<Byte>, delim: seq<Byte>) {
    |t| > 0 && !Contains(t, delim)
  }

  /** No token is empty and none contains the delimiter. */
  lemma {:induction false} TokensClean(s: seq<Byte>, delim: seq<Byte>, prev: nat)
    requires delim != [] || s == []
    requires prev <= |s|
    ensures forall t :: t in SplitFrom(s, delim, prev) ==> Clean(t, delim)
    decreases |s| - prev
  {
    var pos := Find(s, delim, prev);
    var token := s[prev..pos];
    TokenClean(s, delim, prev);
    if pos < |s| && pos + |delim| < |s| {
      var next := pos + |delim|;
      SplitContinues(s, delim, prev, pos, next);
      TokensClean(s, delim, next);
      forall t | t in SplitFrom(s, delim, prev) ensures Clean(t, delim) {
        assert t in Keep(token) || t in SplitFrom(s, delim, next);
      }
    } else {
      SplitStops(s, delim, prev, pos);
      forall t | t in SplitFrom(s, delim, prev) ensures Clean(t, delim) {
        assert t in Keep(token);
      }
    }
  }

  /** The text between `prev` and the next delimiter holds no delimiter. */
  lemma TokenClean(s: seq<Byte>, delim: seq<Byte>, prev: nat)
    requires delim != [] || s == []
    requires prev <= |s|
    ensures var token := s[prev..Find(s, delim, prev)]; |token| > 0 ==> Clean(token, delim)
  {
    var pos := Find(s, delim, prev);
    var token := s[prev..pos];
    if |token| > 0 && Contains(token, delim) {
      var p: nat :| p <= |token| && OccursAt(token, delim, p);
      assert OccursAt(s, delim, prev + p) by {
        forall k | 0 <= k < |delim| ensures s[prev + p + k] == delim[k] {
          assert token[p + k] == s[prev + p + k];
        }
      }
      FindFirst(s, delim, prev, prev + p);
      assert false;
    }
  }

  /** `SplitString` never returns an empty token, nor one that contains the delimiter. */
  lemma SplitTokensClean(s: seq<Byte>, delim: seq<Byte>)
    requires delim != [] || s == []
    ensures forall t :: t in Split(s, delim) ==> t != [] && !Contains(t, delim)
  {
    TokensClean(s, delim, 0);
    assert forall t :: t in Split(s, delim) ==> Clean(t, delim);
  }

  /** An empty text yields no tokens, whatever the delimiter. */
  lemma SplitEmpty(delim: seq<Byte>)
    ensures Split([], delim) == []
  {
  }

  /** A text with no delimiter in it is one token. */
  lemma SplitWithoutDelimiter(s: seq<Byte>, delim: seq<Byte>)
    requires delim != [] && s != [] && !Contains(s, delim)
    ensures Split(s, delim) == [s]
  {
    assert Find(s, delim, 0) == |s|;
    assert s[0..|s|] == s;
  }

  /**
   * A reference splitter for a one-byte delimiter `d`: drop the delimiters at the front,
   * then take the longest run without `d` as a word.
   */
  function Words(s: seq<Byte>, d: Byte): seq<seq<Byte>>
    decreases |s|
  {
    if s == [] then []
    else if s[0] == d then Words(s[1..], d)
    else
      var w := WordLength(s, d, 0);
      [s[..w]] + Words(s[w..], d)
  }

  /** The length of the run of bytes other than `d` at the front of `s`, counted from `k`. */
  function WordLength(s: seq<Byte>, d: Byte, k: nat): (w: nat)
    requires k <= |s|
    ensures k <= w <= |s|
    ensures w < |s| ==> s[w] == d
    ensures forall j :: k <= j < w ==> s[j] != d
    decreases |s| - k
  {
    if k == |s| || s[k] == d then k else WordLength(s, d, k + 1)
  }

  /** For a one-byte delimiter, `find` is the first position of that byte. */
  lemma FindByte(s: seq<Byte>, d: Byte, from: nat)
    requires from <= |s|
    ensures Find(s, [d], from) == WordLength(s, d, from)
    decreases |s| - from
  {
    if from < |s| && s[from] != d {
      assert s[from + 0] != [d][0];
      FindByte(s, d, from + 1);
    }
  }

  /** The run at the front of `s[k..]` is the run of `s` from `k`. */
  lemma {:induction false} WordLengthShift(s: seq<Byte>, d: Byte, k: nat, j: nat)
    requires k <= |s| && j <= |s| - k
    ensures WordLength(s[k..], d, j) + k == WordLength(s, d, k + j)
    decreases |s| - k - j
  {
    if j < |s| - k && s[k + j] != d {
      WordLengthShift(s, d, k, j + 1);
    }
  }

  /** The words from `prev` on: the run up to the next `d`, unless it is empty, then the words after that `d`. */
  lemma WordsFront(s: seq<Byte>, d: Byte, prev: nat, pos: nat)
    requires prev < |s| && pos == WordLength(s, d, prev)
    ensures Words(s[prev..], d) == Keep(s[prev..pos]) + (if pos < |s| then Words(s[pos + 1..], d) else [])
  {
    var rest := s[prev..];
    if s[prev] == d {
      assert rest[1..] == s[prev + 1..];
    } else {
      WordLengthShift(s, d, prev, 0);
      var w := WordLength(rest, d, 0);
      assert rest[..w] == s[prev..pos];
      assert rest[w..] == s[pos..];
      if pos < |s| {
        assert s[pos..][1..] == s[pos + 1..];
      } else {
        assert s[pos..] == [];
      }
    }
  }

  /** The loop from `prev` on yields the words of the rest of the text. */
  lemma {:induction false} SplitFromWords(s: seq<Byte>, d: Byte, prev: nat)
    requires prev <= |s|
    ensures SplitFrom(s, [d], prev) == Words(s[prev..], d)
    decreases |s| - prev
  {
    var pos := Find(s, [d], prev);
    FindByte(s, d, prev);
    if prev < |s| && pos + 1 < |s| {
      SplitFromWords(s, d, pos + 1);
      WordsStep(s, d, prev, pos);
    } else {
      WordsLast(s, d, prev, pos);
    }
  }

  /** An iteration after which the loop goes on pushes the same token as the word splitter. */
  lemma WordsStep(s: seq<Byte>, d: Byte, prev: nat, pos: nat)
    requires prev < |s| && pos == Find(s, [d], prev) && pos == WordLength(s, d, prev) && pos + 1 < |s|
    requires SplitFrom(s, [d], pos + 1) == Words(s[pos + 1..], d)
    ensures SplitFrom(s, [d], prev) == Words(s[prev..], d)
  {
    WordsFront(s, d, prev, pos);
    SplitContinues(s, [d], prev, pos, pos + 1);
  }

  /** The last iteration of the loop pushes the last word, if any. */
  lemma WordsLast(s: seq<Byte>, d: Byte, prev: nat, pos: nat)
    requires prev <= |s| && pos == Find(s, [d], prev) && pos == WordLength(s, d, prev)
    requires !(prev < |s| && pos + 1 < |s|)
    ensures SplitFrom(s, [d], prev) == Words(s[prev..], d)
  {
    SplitStops(s, [d], prev, pos);
    if prev == |s| {
      assert s[prev..] == [];
    } else {
      WordsFront(s, d, prev, pos);
      if pos < |s| {
        assert s[pos + 1..] == [];
      }
    }
  }

  /** With a one-byte delimiter, `SplitString` returns exactly the words of the text. */
  lemma SplitIsWords(s: seq<Byte>, d: Byte)
    ensures Split(s, [d]) == Words(s, d)
  {
    SplitFromWords(s, d, 0);
    assert s[0..] == s;
  }

  /** The tokens joined back together with `d` between them. */
  function Join(tokens: seq<seq<Byte>>, d: Byte): seq<Byte> {
    if tokens == [] then []
    else if |tokens| == 1 then tokens[0]
    else tokens[0] + [d] + Join(tokens[1..], d)
  }

  /** Words that are non-empty and free of `d`, joined with `d`, split back into themselves. */
  lemma {:induction false} WordsOfJoin(tokens: seq<seq<Byte>>, d: Byte)
    requires forall t :: t in tokens ==> t != [] && d !in t
    ensures Words(Join(tokens, d), d) == tokens
    decreases |tokens|
  {
    if tokens != [] {
      var t := tokens[0];
      assert t in tokens;
      var s := Join(tokens, d);
      var rest := Join(tokens[1..], d);
      var tail := if |tokens| == 1 then [] else [d] + rest;
      assert s == t + tail;
      RunOf(t, tail, d);
      assert s[..|t|] == t && s[|t|..] == tail;
      if |tokens| > 1 {
        assert tail[1..] == rest;
        assert forall u :: u in tokens[1..] ==> u in tokens;
        WordsOfJoin(tokens[1..], d);
      }
    }
  }

  /** A word free of `d` followed by `d` or by nothing is the run at the front. */
  lemma RunOf(t: seq<Byte>, tail: seq<Byte>, d: Byte)
    requires t != [] && d !in t && (tail == [] || tail[0] == d)
    ensures WordLength(t + tail, d, 0) == |t|
  {
    var s := t + tail;
    var k: nat := 0;
    while k < |t|
      invariant k <= |t|
      invariant WordLength(s, d, k) == WordLength(s, d, 0)
    {
      assert s[k] == t[k];
      k := k + 1;
    }
  }

  /** Tokens that are non-empty and contain no `d`, joined by `d`, are what `SplitString` gives back. */
  lemma SplitJoin(tokens: seq<seq<Byte>>, d: Byte)
    requires forall t :: t in tokens ==> t != [] && d !in t
    ensures Split(Join(tokens, d), [d]) == tokens
  {
    SplitIsWords(Join(tokens, d), d);
    WordsOfJoin(tokens, d);
  }
}

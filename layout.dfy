/**
 * `PrettyPrint` against `CompactPrint`: the two serializers write the same bytes
 * once the whitespace `skipWhitespace` steps over is taken out. The indentation,
 * the line feeds and the spaces after colons and commas are all the pretty printer
 * adds; names, strings and scalars are written alike by both.
 */
module PrettyLayout {
  import opened Bytes
  import opened Lexing
  import opened Json
  import opened Printing

  /** A byte `skipWhitespace` steps over; text is taken as `seq<char>` so that literals need no range check. */
  predicate Blank(c: char) {
    c as int < 256 && IsWhitespace(c as Byte)
  }

  /** `s` without its whitespace bytes: spaces, carriage returns, line feeds and tabs. */
  function Squeeze(s: seq<char>): (r: seq<char>)
    ensures |r| <= |s|
  {
    if s == [] then [] else (if Blank(s[0]) then [] else [s[0]]) + Squeeze(s[1..])
  }

  /** Nothing whitespace survives `Squeeze`, and text without whitespace is left as it is. */
  lemma {:induction false} SqueezeKeeps(s: seq<char>)
    ensures forall k :: 0 <= k < |Squeeze(s)| ==> !Blank(Squeeze(s)[k])
    ensures (forall k :: 0 <= k < |s| ==> !Blank(s[k])) ==> Squeeze(s) == s
    ensures (forall k :: 0 <= k < |s| ==> Blank(s[k])) ==> Squeeze(s) == []
  {
    if s != [] {
      SqueezeKeeps(s[1..]);
      if forall k :: 0 <= k < |s| ==> !Blank(s[k]) {
        assert forall k :: 0 <= k < |s[1..]| ==> !Blank(s[1..][k]) by {
          forall k | 0 <= k < |s[1..]| ensures !Blank(s[1..][k]) {
            assert s[1..][k] == s[k + 1];
          }
        }
        assert s == [s[0]] + s[1..];
      }
      if forall k :: 0 <= k < |s| ==> Blank(s[k]) {
        assert forall k :: 0 <= k < |s[1..]| ==> Blank(s[1..][k]) by {
          forall k | 0 <= k < |s[1..]| ensures Blank(s[1..][k]) {
            assert s[1..][k] == s[k + 1];
          }
        }
      }
    }
  }

  /** `Squeeze` works byte by byte, so it distributes over concatenation. */
  lemma {:induction false} SqueezeAppend(a: seq<char>, b: seq<char>)
    ensures Squeeze(a + b) == Squeeze(a) + Squeeze(b)
  {
    if a == [] {
      assert a + b == b;
    } else {
      assert (a + b)[0] == a[0];
      assert (a + b)[1..] == a[1..] + b;
      SqueezeAppend(a[1..], b);
    }
  }

  /** An indentation squeezes to nothing. */
  lemma {:induction false} SqueezeSpaces(indent: nat)
    ensures Squeeze(Spaces(indent)) == []
  {
    if indent > 0 {
      SqueezeAppend("  ", Spaces(indent - 1));
      SqueezeSpaces(indent - 1);
      assert Squeeze("  ") == [];
    }
  }

  /** The brackets the two printers put around an Object or an Array squeeze alike. */
  lemma {:induction false} BracketsAgree()
    ensures Squeeze("{\n") == Squeeze("{") && Squeeze("}\n") == Squeeze("}")
    ensures Squeeze("[ ") == Squeeze("[") && Squeeze(" ]\n") == Squeeze("]")
  {
    assert "{\n"[1..] == "\n" && "}\n"[1..] == "\n" && "[ "[1..] == " " && " ]\n"[1..] == "]\n";
    assert "]\n"[1..] == "\n" && "\n"[1..] == [] && " "[1..] == [];
    assert "{"[1..] == [] && "}"[1..] == [] && "["[1..] == [] && "]"[1..] == [];
  }

  /** Squeezing three concatenated parts squeezes each part. */
  lemma {:induction false} Squeeze3(a: seq<char>, b: seq<char>, c: seq<char>)
    ensures Squeeze(a + b + c) == Squeeze(a) + Squeeze(b) + Squeeze(c)
  {
    SqueezeAppend(a + b, c);
    SqueezeAppend(a, b);
  }

  /**
   * `PrettyPrint` and `CompactPrint` write the same bytes apart from whitespace,
   * for every node, indent and formatting of Doubles.
   */
  lemma {:induction false} PrettyIsCompact(n: Node, indent: nat, fmt: seq<Byte> -> seq<Byte>)
    ensures Squeeze(Pretty(n, indent, fmt)) == Squeeze(Compact(n, fmt))
    decreases n, 1
  {
    BracketsAgree();
    match n
    case Object(ms) =>
      SqueezeAppend("{\n" + PrettyMembers(n, indent, fmt, 0), "}\n");
      SqueezeAppend("{\n", PrettyMembers(n, indent, fmt, 0));
      SqueezeAppend("{" + CompactMembers(n, fmt, 0), "}");
      SqueezeAppend("{", CompactMembers(n, fmt, 0));
      MembersAreCompact(n, indent, fmt, 0);
    case Array(es) =>
      SqueezeAppend("[ " + PrettyElements(n, fmt, 0), " ]\n");
      SqueezeAppend("[ ", PrettyElements(n, fmt, 0));
      SqueezeAppend("[" + CompactElements(n, fmt, 0), "]");
      SqueezeAppend("[", CompactElements(n, fmt, 0));
      ElementsAreCompact(n, fmt, 0);
    case _ =>
  }

  /** The colon and line feed of a pretty member line squeeze as the compact line's colon and nothing. */
  lemma {:induction false} ColonAndNewline()
    ensures Squeeze(": ") == Squeeze(":") && Squeeze("\n") == []
  {
    assert ": "[1..] == " " && " "[1..] == [] && ":"[1..] == [] && "\n"[1..] == [];
  }

  /** One pretty member line and its compact counterpart agree apart from whitespace. */
  lemma {:induction false} MemberLine(indent: nat, name: seq<char>, p: seq<char>, c: seq<char>, sep: seq<char>, prest: seq<char>, crest: seq<char>)
    requires Squeeze(p) == Squeeze(c) && Squeeze(prest) == Squeeze(crest)
    ensures Squeeze(Spaces(indent) + name + ": " + p + sep + "\n" + prest) == Squeeze(name + ":" + c + sep + crest)
  {
    var head := Spaces(indent) + name + ": ";
    calc {
      Squeeze(head + p + sep + "\n" + prest);
      { Squeeze3(head + p + sep, "\n", prest); ColonAndNewline(); }
      Squeeze(head + p + sep) + [] + Squeeze(prest);
      Squeeze(head + p + sep) + Squeeze(crest);
      { Squeeze3(head, p, sep); }
      Squeeze(head) + Squeeze(c) + Squeeze(sep) + Squeeze(crest);
      { Squeeze3(Spaces(indent), name, ": "); SqueezeSpaces(indent); ColonAndNewline(); }
      ([] + Squeeze(name) + Squeeze(":")) + Squeeze(c) + Squeeze(sep) + Squeeze(crest);
      Squeeze(name) + Squeeze(":") + Squeeze(c) + Squeeze(sep) + Squeeze(crest);
      { Squeeze3(name, ":", c); Squeeze3(name + ":" + c, sep, crest); }
      Squeeze(name + ":" + c + sep + crest);
    }
  }

  /** The members of an Object from index `i` on, pretty and compact, agree apart from whitespace. */
  lemma {:induction false} MembersAreCompact(n: Node, indent: nat, fmt: seq<Byte> -> seq<Byte>, i: nat)
    requires n.Object? && i <= |n.members|
    ensures Squeeze(PrettyMembers(n, indent, fmt, i)) == Squeeze(CompactMembers(n, fmt, i))
    decreases n, 0, |n.members| - i
  {
    if i < |n.members| {
      var m := n.members[i];
      var sep: seq<char> := if i != |n.members| - 1 then "," else "";
      PrettyIsCompact(m.value, indent + 2, fmt);
      MembersAreCompact(n, indent, fmt, i + 1);
      MemberLine(indent, Quoted(m.name), Pretty(m.value, indent + 2, fmt), Compact(m.value, fmt), sep,
        PrettyMembers(n, indent, fmt, i + 1), CompactMembers(n, fmt, i + 1));
    }
  }

  /** The separators between elements squeeze to the same bytes. */
  lemma {:induction false} SeparatorsAgree(last: bool)
    ensures Squeeze(if last then "" else ", \n") == Squeeze(if last then "" else ",")
  {
    assert ", \n"[1..] == " \n" && " \n"[1..] == "\n" && "\n"[1..] == [] && ","[1..] == [];
  }

  /** One pretty element and its compact counterpart agree apart from whitespace. */
  lemma {:induction false} ElementLine(p: seq<char>, c: seq<char>, last: bool, prest: seq<char>, crest: seq<char>)
    requires Squeeze(p) == Squeeze(c) && Squeeze(prest) == Squeeze(crest)
    ensures Squeeze(p + (if last then "" else ", \n") + prest) == Squeeze(c + (if last then "" else ",") + crest)
  {
    Squeeze3(p, if last then "" else ", \n", prest);
    Squeeze3(c, if last then "" else ",", crest);
    SeparatorsAgree(last);
  }

  /** The elements of an Array from index `i` on, pretty and compact, agree apart from whitespace. */
  lemma {:induction false} ElementsAreCompact(n: Node, fmt: seq<Byte> -> seq<Byte>, i: nat)
    requires n.Array? && i <= |n.elements|
    ensures Squeeze(PrettyElements(n, fmt, i)) == Squeeze(CompactElements(n, fmt, i))
    decreases n, 0, |n.elements| - i
  {
    if i < |n.elements| {
      var e := n.elements[i];
      PrettyIsCompact(e, DefaultIndent, fmt);
      ElementsAreCompact(n, fmt, i + 1);
      ElementLine(Pretty(e, DefaultIndent, fmt), Compact(e, fmt), i == |n.elements| - 1,
        PrettyElements(n, fmt, i + 1), CompactElements(n, fmt, i + 1));
    }
  }
}

/**
 * The two serializers of json.cpp, `PrettyPrint` and `CompactPrint`, as functions
 * from a node to the bytes they write to the stream.
 *
 * Writing a `double` with `operator<<` is floating-point formatting; it is the
 * parameter `fmt`, applied to the Double's literal. Members and elements are
 * printed by functions over the parent node and an index, the shape of the source's
 * `for` loops.
 */
module Printing {
  import opened Bytes
  import opened Json

  /** The starting indent `PrettyPrint` uses when none is given, and for array elements. */
  const DefaultIndent: nat := 2

  /** `indent` times two spaces. */
  function Spaces(indent: nat): (s: seq<Byte>)
    ensures |s| == 2 * indent
    ensures forall k :: 0 <= k < |s| ==> s[k] == ' '
  {
    if indent == 0 then [] else "  " + Spaces(indent - 1)
  }

  /** A String node or a member name as `operator<<` writes its `const char*`: up to the first NUL, in double quotes. */
  function Quoted(s: seq<Byte>): (q: seq<Byte>)
    ensures |q| == |CString(s)| + 2 && q[0] == '"' && q[|q| - 1] == '"'
  {
    "\"" + CString(s) + "\""
  }

  /** What both printers write for a node that has no children. */
  function Scalar(n: Node, fmt: seq<Byte> -> seq<Byte>): (r: seq<Byte>)
    requires !n.Object? && !n.Array?
    ensures r == [] <==> n.Null? || n.None? || (n.Double? && fmt(n.literal) == [])
    ensures n.String? ==> r[0] == '"'
  {
    match n
    case Integer(v) => IntToString(v)
    case Double(literal) => fmt(literal)
    case Null => []
    case Boolean(b) => if b then "true" else "false"
    case String(s) => Quoted(s)
    case None => []
  }

  /** `PrettyPrint(output, json, indent)`: the bytes written for `n`. */
  function Pretty(n: Node, indent: nat, fmt: seq<Byte> -> seq<Byte>): (r: seq<Byte>)
    ensures n.Object? ==> |r| >= 4 && r[..2] == "{\n" && r[|r| - 2..] == "}\n"
    ensures n.Array? ==> |r| >= 5 && r[..2] == "[ " && r[|r| - 3..] == " ]\n"
    ensures !n.Object? && !n.Array? ==> r == Compact(n, fmt)
    decreases n, 1
  {
    match n
    case Object(_) => "{\n" + PrettyMembers(n, indent, fmt, 0) + "}\n"
    case Array(_) => "[ " + PrettyElements(n, fmt, 0) + " ]\n"
    case _ => Scalar(n, fmt)
  }

  /** The members of an Object from index `i` on, each on its own line. */
  function PrettyMembers(n: Node, indent: nat, fmt: seq<Byte> -> seq<Byte>, i: nat): (r: seq<Byte>)
    requires n.Object? && i <= |n.members|
    ensures r == [] <==> i == |n.members|
    ensures r != [] ==> r[|r| - 1] == '\n'
    decreases n, 0, |n.members| - i
  {
    if i == |n.members| then []
    else
      Spaces(indent) + Quoted(n.members[i].name) + ": " + Pretty(n.members[i].value, indent + 2, fmt) +
      (if i != |n.members| - 1 then "," else "") + "\n" + PrettyMembers(n, indent, fmt, i + 1)
  }

  /** The elements of an Array from index `i` on, at the default indent, separated by `, \n`. */
  function PrettyElements(n: Node, fmt: seq<Byte> -> seq<Byte>, i: nat): (r: seq<Byte>)
    requires n.Array? && i <= |n.elements|
    ensures i < |n.elements| ==> |r| >= 3 * (|n.elements| - 1 - i)
    decreases n, 0, |n.elements| - i
  {
    if i == |n.elements| then []
    else
      Pretty(n.elements[i], DefaultIndent, fmt) + (if i != |n.elements| - 1 then ", \n" else "") +
      PrettyElements(n, fmt, i + 1)
  }

  /** `CompactPrint(output, json)`: the bytes written for `n`. */
  function Compact(n: Node, fmt: seq<Byte> -> seq<Byte>): (r: seq<Byte>)
    ensures n.Object? ==> |r| >= 2 && r[0] == '{' && r[|r| - 1] == '}'
    ensures n.Array? ==> |r| >= 2 && r[0] == '[' && r[|r| - 1] == ']'
    decreases n, 1
  {
    match n
    case Object(_) => "{" + CompactMembers(n, fmt, 0) + "}"
    case Array(_) => "[" + CompactElements(n, fmt, 0) + "]"
    case _ => Scalar(n, fmt)
  }

  /** The members of an Object from index `i` on, as `"name":value` joined by commas. */
  function CompactMembers(n: Node, fmt: seq<Byte> -> seq<Byte>, i: nat): (r: seq<Byte>)
    requires n.Object? && i <= |n.members|
    ensures r == [] <==> i == |n.members|
    ensures r != [] ==> r[0] == '"'
    decreases n, 0, |n.members| - i
  {
    if i == |n.members| then []
    else
      Quoted(n.members[i].name) + ":" + Compact(n.members[i].value, fmt) +
      (if i != |n.members| - 1 then "," else "") + CompactMembers(n, fmt, i + 1)
  }

  /** The elements of an Array from index `i` on, joined by commas. */
  function CompactElements(n: Node, fmt: seq<Byte> -> seq<Byte>, i: nat): (r: seq<Byte>)
    requires n.Array? && i <= |n.elements|
    ensures i < |n.elements| ==> |r| >= |n.elements| - 1 - i
    decreases n, 0, |n.elements| - i
  {
    if i == |n.elements| then []
    else Compact(n.elements[i], fmt) + (if i != |n.elements| - 1 then "," else "") + CompactElements(n, fmt, i + 1)
  }
}

/**
 * The node tree of json.h and its queries from json.cpp.
 *
 * A `Node` is the tagged union of json.h as a datatype: one constructor per
 * `NodeType`, each carrying the payload the union holds for that tag. Object and
 * Array keep their members and elements as sequences, whose lengths are the
 * union's `length` fields. A String keeps the `length` bytes the parser copied
 * (its `length` is their count); C routines see it up to its first NUL. A Double
 * keeps the text the parser handed to `std::stold` instead of the floating-point
 * value.
 */
module Json {
  import opened Bytes

  /** `std::int64_t`. */
  type Int64 = x: int | -I64 <= x < I64

  /** `uint64_t` and `std::size_t`. */
  type Uint64 = x: int | 0 <= x < U64

  /** `enum class NodeType`. */
  datatype NodeType = NoneTag | ObjectTag | ArrayTag | IntegerTag | DoubleTag | NullTag | BooleanTag | StringTag

  datatype Node =
    | None
    | Object(members: seq<Member>)
    | Array(elements: seq<Node>)
    | Integer(value: Int64)
    | Double(literal: seq<Byte>)
    | Null
    | Boolean(b: bool)
    | String(bytes: seq<Byte>)

  /**
   * `JsonMember`: the name node the parser builds for a member is always a String
   * node, so only its bytes are kept.
   */
  datatype Member = Member(name: seq<Byte>, value: Node)

  /** The outcome of a query: its value, or the message of the `std::runtime_error` it throws. */
  datatype Outcome<T> = Ok(value: T) | Error(message: seq<Byte>)

  /** `getType()`: the tag of the node. */
  function GetType(n: Node): (t: NodeType)
    ensures t == NoneTag <==> n.None?
    ensures t == ObjectTag <==> n.Object?
    ensures t == ArrayTag <==> n.Array?
    ensures t == IntegerTag <==> n.Integer?
    ensures t == DoubleTag <==> n.Double?
    ensures t == NullTag <==> n.Null?
    ensures t == BooleanTag <==> n.Boolean?
    ensures t == StringTag <==> n.String?
  {
    match n
    case None => NoneTag
    case Object(_) => ObjectTag
    case Array(_) => ArrayTag
    case Integer(_) => IntegerTag
    case Double(_) => DoubleTag
    case Null => NullTag
    case Boolean(_) => BooleanTag
    case String(_) => StringTag
  }

  /** `Node()`: the zero-filled node, whose tag is the first enumerator. */
  function NewNode(): (n: Node)
    ensures GetType(n) == NoneTag
  {
    None
  }

  /**
   * The bounds test of `operator[](std::size_t)` as written: the index is cast to
   * `unsigned int` before it is compared with the length.
   */
  predicate IndexCheckPasses(n: Node, index: Uint64): (ok: bool)
    ensures ok ==> n.Array? && n.elements != []
    ensures n.Array? && index < |n.elements| ==> ok
  {
    n.Array? && index % U32 < |n.elements|
  }

  /**
   * The test passes for an index that is 2^32 too large, after which the element
   * read lies outside the array.
   */
  lemma IndexCheckAdmitsOutOfBounds()
    ensures IndexCheckPasses(Array([Null]), U32)
    ensures U32 >= |Array([Null]).elements|
  {
  }

  /** `operator[](std::size_t)` with the bounds test on the full index. */
  function At(n: Node, index: Uint64): (r: Outcome<Node>)
    ensures r.Ok? <==> n.Array? && index < |n.elements|
    ensures r.Ok? ==> r.value == n.elements[index]
    ensures r.Error? ==> r.message == "Invalid array index."
  {
    if !n.Array? || index >= |n.elements| then Error("Invalid array index.")
    else Ok(n.elements[index])
  }

  /** Every index the as-written test lets through within 2^32 is one the corrected test accepts. */
  lemma IndexCheckAgreesBelow32(n: Node, index: Uint64)
    requires index < U32
    ensures IndexCheckPasses(n, index) <==> At(n, index).Ok?
  {
  }

  /** The member names a key matches: `strcmp` compares the bytes before the first NUL. */
  predicate NameMatches(m: Member, key: seq<Byte>) {
    CString(m.name) == CString(key)
  }

  /**
   * `operator[](const char*)`: the value of the first member whose name equals the
   * key. The search loop is the source's own.
   */
  method Lookup(n: Node, key: seq<Byte>) returns (r: Outcome<Node>)
    ensures !n.Object? ==> r == Error("Node is not an object.")
    ensures n.Object? && (forall i :: 0 <= i < |n.members| ==> !NameMatches(n.members[i], key)) ==>
      r == Error("Invalid index.")
    ensures r.Ok? ==>
      exists i :: 0 <= i < |n.members| && NameMatches(n.members[i], key) &&
                  (forall k :: 0 <= k < i ==> !NameMatches(n.members[k], key)) &&
                  r.value == n.members[i].value
    ensures n.Object? && (exists i :: 0 <= i < |n.members| && NameMatches(n.members[i], key)) ==> r.Ok?
  {
    if !n.Object? {
      return Error("Node is not an object.");
    }
    var i := 0;
    while i < |n.members|
      invariant 0 <= i <= |n.members|
      invariant forall k :: 0 <= k < i ==> !NameMatches(n.members[k], key)
    {
      if CString(n.members[i].name) == CString(key) {
        return Ok(n.members[i].value);
      }
      i := i + 1;
    }
    return Error("Invalid index.");
  }

  /** `operator const char*()`: the characters of a String node as a C caller reads them. */
  function AsString(n: Node): (r: Outcome<seq<Byte>>)
    ensures r.Ok? <==> n.String?
    ensures r.Ok? ==> r.value == CString(n.bytes)
    ensures r.Error? ==> r.message == "Node is not a string."
  {
    if n.String? then Ok(CString(n.bytes)) else Error("Node is not a string.")
  }

  /** `operator bool()`. */
  function AsBool(n: Node): (r: Outcome<bool>)
    ensures r.Ok? <==> n.Boolean?
    ensures r.Ok? ==> r.value == n.b
    ensures r.Error? ==> r.message == "Node is not a boolean."
  {
    if n.Boolean? then Ok(n.b) else Error("Node is not a boolean.")
  }

  /**
   * `operator int64_t()`. The cast of a double to `int64_t` is floating-point
   * arithmetic and is supplied as `truncate`, applied to the Double's literal.
   */
  function AsInt64(n: Node, truncate: seq<Byte> -> Int64): (r: Outcome<Int64>)
    ensures r.Ok? <==> n.Integer? || n.Double?
    ensures n.Integer? ==> r == Ok(n.value)
    ensures n.Double? ==> r == Ok(truncate(n.literal))
    ensures r.Error? ==> r.message == "Node is not a number."
  {
    match n
    case Integer(v) => Ok(v)
    case Double(s) => Ok(truncate(s))
    case _ => Error("Node is not a number.")
  }

  /**
   * `operator double()`. Both conversions are floating-point arithmetic and are
   * supplied: `widen` for the cast of an Integer, `read` for a Double's literal.
   */
  function AsDouble<D>(n: Node, widen: Int64 -> D, read: seq<Byte> -> D): (r: Outcome<D>)
    ensures r.Ok? <==> n.Integer? || n.Double?
    ensures n.Integer? ==> r == Ok(widen(n.value))
    ensures n.Double? ==> r == Ok(read(n.literal))
    ensures r.Error? ==> r.message == "Node is not a number."
  {
    match n
    case Integer(v) => Ok(widen(v))
    case Double(s) => Ok(read(s))
    case _ => Error("Node is not a number.")
  }

  /** A node converts to a double exactly when it converts to a 64-bit integer. */
  lemma NumbersConvertAlike<D>(n: Node, truncate: seq<Byte> -> Int64, widen: Int64 -> D, read: seq<Byte> -> D)
    ensures AsDouble(n, widen, read).Ok? <==> AsInt64(n, truncate).Ok?
    ensures AsDouble(n, widen, read).Error? ==> AsDouble(n, widen, read).message == AsInt64(n, truncate).message
  {
  }

  /** `getSize()`: the length of an Array, an Object or a String. */
  function GetSize(n: Node): (r: Outcome<nat>)
    ensures r.Ok? <==> n.Array? || n.Object? || n.String?
    ensures n.Array? ==> r == Ok(|n.elements|)
    ensures n.Object? ==> r == Ok(|n.members|)
    ensures n.String? ==> r == Ok(|n.bytes|)
    ensures r.Error? ==> r.message == "Node does not have a size."
  {
    match n
    case Array(es) => Ok(|es|)
    case Object(ms) => Ok(|ms|)
    case String(s) => Ok(|s|)
    case _ => Error("Node does not have a size.")
  }

  /** On an Array, index lookup succeeds exactly for the indices below `getSize()`. */
  lemma AtSucceedsBelowSize(n: Node, index: Uint64)
    requires n.Array?
    ensures At(n, index).Ok? <==> index < GetSize(n).value
  {
  }
}

/** JSON trees as cJSON keeps them: an item's children form a list linked by `next`. */
module JsonValue {
  import opened Bytes

  /** CJSON_NESTING_LIMIT */
  const NESTING_LIMIT: nat := 1000

  const QUOTE: byte := 0x22
  const BACKSLASH: byte := 0x5C
  const SLASH: byte := 0x2F
  const STAR: byte := 0x2A
  const COMMA: byte := 0x2C
  const COLON: byte := 0x3A
  const LBRACKET: byte := 0x5B
  const RBRACKET: byte := 0x5D
  const LBRACE: byte := 0x7B
  const RBRACE: byte := 0x7D
  const SPACE: byte := 0x20
  const TAB: byte := 0x09
  const NEWLINE: byte := 0x0A
  const RETURN: byte := 0x0D
  const BACKSPACE: byte := 0x08
  const FORMFEED: byte := 0x0C
  const MINUS: byte := 0x2D
  const PLUS: byte := 0x2B
  const POINT: byte := 0x2E
  const LOWER_E: byte := 0x65
  const UPPER_E: byte := 0x45
  const LOWER_U: byte := 0x75

  const NULL_TEXT: seq<byte> := [0x6E, 0x75, 0x6C, 0x6C]
  const FALSE_TEXT: seq<byte> := [0x66, 0x61, 0x6C, 0x73, 0x65]
  const TRUE_TEXT: seq<byte> := [0x74, 0x72, 0x75, 0x65]

  datatype Value =
    | Null
    | False
    | True
    | Number(d: real)
    | String(s: seq<byte>)
    | Raw(raw: seq<byte>)
    | Array(items: Elems)
    | Object(members: Members)

  /** The children of an array item. */
  datatype Elems = NoElem | Elem(value: Value, next: Elems)

  /** The children of an object item; `key` is the child's name. */
  datatype Members = NoMember | Member(key: seq<byte>, value: Value, next: Members)

  function AppendElems(es: Elems, fs: Elems): Elems {
    match es
    case NoElem => fs
    case Elem(v, next) => Elem(v, AppendElems(next, fs))
  }

  function AppendMembers(ms: Members, ns: Members): Members {
    match ms
    case NoMember => ns
    case Member(k, v, next) => Member(k, v, AppendMembers(next, ns))
  }

  function Max(a: nat, b: nat): nat {
    if a < b then b else a
  }

  /** How many containers enclose the innermost value, the value itself included. */
  function Nesting(v: Value): nat {
    match v
    case Array(es) => 1 + NestingElems(es)
    case Object(ms) => 1 + NestingMembers(ms)
    case _ => 0
  }

  function NestingElems(es: Elems): nat {
    match es
    case NoElem => 0
    case Elem(v, next) => Max(Nesting(v), NestingElems(next))
  }

  function NestingMembers(ms: Members): nat {
    match ms
    case NoMember => 0
    case Member(_, v, next) => Max(Nesting(v), NestingMembers(next))
  }

  /** Integers that `%1.15g` prints as plain decimal digits. */
  predicate PlainInteger(d: real) {
    -1000000000000000.0 < d < 1000000000000000.0 && d == d.Floor as real
  }

  /** Trees whose strings are C strings and whose numbers are plain integers. */
  predicate Printable(v: Value) {
    match v
    case Number(d) => PlainInteger(d)
    case String(s) => NulFree(s)
    case Raw(s) => NulFree(s)
    case Array(es) => PrintableElems(es)
    case Object(ms) => PrintableMembers(ms)
    case _ => true
  }

  predicate PrintableElems(es: Elems) {
    match es
    case NoElem => true
    case Elem(v, next) => Printable(v) && PrintableElems(next)
  }

  predicate PrintableMembers(ms: Members) {
    match ms
    case NoMember => true
    case Member(k, v, next) => NulFree(k) && Printable(v) && PrintableMembers(next)
  }

  predicate RawFree(v: Value) {
    match v
    case Raw(_) => false
    case Array(es) => RawFreeElems(es)
    case Object(ms) => RawFreeMembers(ms)
    case _ => true
  }

  predicate RawFreeElems(es: Elems) {
    match es
    case NoElem => true
    case Elem(v, next) => RawFree(v) && RawFreeElems(next)
  }

  predicate RawFreeMembers(ms: Members) {
    match ms
    case NoMember => true
    case Member(_, v, next) => RawFree(v) && RawFreeMembers(next)
  }
}

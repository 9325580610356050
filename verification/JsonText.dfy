/** The text cJSON prints for a tree, as a function of the tree alone. */
module JsonText {
  import opened Bytes
  import opened JsonValue

  predicate IsDigit(b: byte) {
    0x30 <= b <= 0x39
  }

  function DigitByte(n: nat): (b: byte)
    requires n < 10
    ensures IsDigit(b) && DigitValue(b) == n
  {
    0x30 + n
  }

  function DigitValue(b: byte): (n: nat)
    requires IsDigit(b)
    ensures n < 10
  {
    b - 0x30
  }

  predicate AllDigits(s: seq<byte>) {
    forall k :: 0 <= k < |s| ==> IsDigit(s[k])
  }

  /** Decimal digits of a natural number, without leading zeros. */
  function Digits(n: nat): (s: seq<byte>)
    ensures s != [] && AllDigits(s)
  {
    if n < 10 then [DigitByte(n)] else Digits(n / 10) + [DigitByte(n % 10)]
  }

  /** What `%1.15g` prints for an integer of magnitude below 10^15. */
  function Decimal(n: int): (s: seq<byte>)
    ensures s != [] && NulFree(s)
  {
    if n < 0 then [MINUS] + Digits(-n) else Digits(n)
  }

  /** A nibble as `%x` prints it. */
  function HexDigit(x: nat): byte
    requires x < 16
  {
    if x < 10 then x + 0x30 else x + 0x57
  }

  /** How one byte of a string is printed. */
  function Escaped(b: byte): (s: seq<byte>)
    ensures b != NUL ==> NulFree(s)
    ensures |s| == 1 + EscapeCost(b)
  {
    if b == QUOTE then [BACKSLASH, QUOTE]
    else if b == BACKSLASH then [BACKSLASH, BACKSLASH]
    else if b == BACKSPACE then [BACKSLASH, 0x62]
    else if b == FORMFEED then [BACKSLASH, 0x66]
    else if b == NEWLINE then [BACKSLASH, 0x6E]
    else if b == RETURN then [BACKSLASH, 0x72]
    else if b == TAB then [BACKSLASH, 0x74]
    else if b < 32 then [BACKSLASH, LOWER_U, 0x30, 0x30, HexDigit(b / 16), HexDigit(b % 16)]
    else [b]
  }

  /** How many bytes escaping adds. */
  function EscapeCost(b: byte): nat {
    if b == QUOTE || b == BACKSLASH || b == BACKSPACE || b == FORMFEED
       || b == NEWLINE || b == RETURN || b == TAB then 1
    else if b < 32 then 5
    else 0
  }

  function EscapedAll(s: seq<byte>): (t: seq<byte>)
    ensures NulFree(s) ==> NulFree(t)
  {
    if s == [] then [] else Escaped(s[0]) + EscapedAll(s[1..])
  }

  function StringText(s: seq<byte>): (t: seq<byte>)
    ensures |t| == |EscapedAll(s)| + 2
    ensures NulFree(s) ==> NulFree(t)
  {
    [QUOTE] + EscapedAll(s) + [QUOTE]
  }

  function Tabs(n: nat): (s: seq<byte>)
    ensures |s| == n && NulFree(s) && forall k :: 0 <= k < n ==> s[k] == TAB
  {
    seq(n, _ => TAB)
  }

  /** The text of `v` printed at nesting depth `depth`. */
  function Text(v: Value, format: bool, depth: nat): (t: seq<byte>)
    requires Printable(v)
    ensures NulFree(t)
    ensures !v.Raw? ==> t != []
  {
    match v
    case Null => NULL_TEXT
    case False => FALSE_TEXT
    case True => TRUE_TEXT
    case Number(d) => Decimal(d.Floor)
    case String(s) => StringText(s)
    case Raw(s) => s
    case Array(es) => [LBRACKET] + ElemsText(es, format, depth + 1) + [RBRACKET]
    case Object(ms) => Opening(format) + MembersText(ms, format, depth + 1) + Closing(format, depth)
  }

  function ElemsText(es: Elems, format: bool, depth: nat): (t: seq<byte>)
    requires PrintableElems(es)
    ensures NulFree(t)
  {
    match es
    case NoElem => []
    case Elem(v, next) =>
      Text(v, format, depth)
      + (if next.Elem? then Separator(format) + ElemsText(next, format, depth) else [])
  }

  function MembersText(ms: Members, format: bool, depth: nat): (t: seq<byte>)
    requires PrintableMembers(ms)
    ensures NulFree(t)
  {
    match ms
    case NoMember => []
    case Member(k, v, next) =>
      MemberText(k, Text(v, format, depth), next.Member?, format, depth) + MembersText(next, format, depth)
  }

  /** One member with the text `t` as its value; `more` says that another member follows. */
  function MemberText(k: seq<byte>, t: seq<byte>, more: bool, format: bool, depth: nat): (m: seq<byte>)
    requires NulFree(k) && NulFree(t)
    ensures NulFree(m)
  {
    Indent(format, depth) + StringText(k) + Colon(format) + t + LineEnd(format, more)
  }

  function Separator(format: bool): (s: seq<byte>)
    ensures NulFree(s) && |s| == if format then 2 else 1
  {
    if format then [COMMA, SPACE] else [COMMA]
  }

  function Opening(format: bool): (s: seq<byte>)
    ensures NulFree(s) && |s| == if format then 2 else 1
  {
    if format then [LBRACE, NEWLINE] else [LBRACE]
  }

  function Closing(format: bool, depth: nat): (s: seq<byte>)
    ensures NulFree(s) && |s| == if format then depth + 1 else 1
  {
    Indent(format, depth) + [RBRACE]
  }

  function Indent(format: bool, depth: nat): (s: seq<byte>)
    ensures NulFree(s) && |s| == if format then depth else 0
  {
    if format then Tabs(depth) else []
  }

  function Colon(format: bool): (s: seq<byte>)
    ensures NulFree(s) && |s| == if format then 2 else 1
  {
    if format then [COLON, TAB] else [COLON]
  }

  function LineEnd(format: bool, more: bool): (s: seq<byte>)
    ensures NulFree(s) && |s| == (if format then 1 else 0) + (if more then 1 else 0)
  {
    (if more then [COMMA] else []) + (if format then [NEWLINE] else [])
  }

  lemma ElemsUnfold(es: Elems, format: bool, level: nat)
    requires PrintableElems(es) && es.Elem?
    ensures Printable(es.value) && PrintableElems(es.next)
    ensures ElemsText(es, format, level)
         == Text(es.value, format, level)
            + ((if es.next.Elem? then Separator(format) else []) + ElemsText(es.next, format, level))
  {
    if es.next.NoElem? {
      assert [] + ElemsText(es.next, format, level) == [];
    }
  }

  lemma ElemsEnd(format: bool, level: nat)
    ensures ElemsText(NoElem, format, level) == []
  {
  }

  lemma MembersUnfold(ms: Members, format: bool, level: nat)
    requires PrintableMembers(ms) && ms.Member?
    ensures NulFree(ms.key) && Printable(ms.value) && PrintableMembers(ms.next)
    ensures MembersText(ms, format, level)
         == MemberText(ms.key, Text(ms.value, format, level), ms.next.Member?, format, level)
            + MembersText(ms.next, format, level)
  {
  }

  lemma MembersEnd(format: bool, level: nat)
    ensures MembersText(NoMember, format, level) == []
  {
  }
}

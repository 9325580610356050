/** What the parser reads, as functions of the input text, a position and the nesting depth. */
module JsonGrammar {
  import opened Bytes
  import opened JsonValue
  import JsonText
  import Utf

  /** The outcome of reading at a position: a value and the next position, or where reading stopped. */
  datatype Parsed<+T> = Ok(value: T, next: nat) | Err(at: nat)

  /** Texts as cJSON_ParseWithOpts hands them to the parser: a C string with its terminator. */
  predicate Terminated(c: seq<byte>) {
    c != [] && c[|c| - 1] == NUL
  }

  /** buffer_skip_whitespace: the terminator counts as white space, and the end is stepped back from. */
  function SkipSpace(c: seq<byte>, i: nat): (j: nat)
    requires c != [] && i <= |c|
    ensures j < |c| && (i < |c| ==> i <= j)
    decreases |c| - i
  {
    if i < |c| && c[i] <= 32 then SkipSpace(c, i + 1)
    else if i == |c| then i - 1
    else i
  }

  // ---- Strings ----

  /** The first pass over a string: where the closing quote is and how many escapes precede it. */
  datatype Scan = Open | Closed(end: nat, skipped: nat)

  function ScanString(c: seq<byte>, p: nat): (r: Scan)
    requires p <= |c|
    ensures r.Closed? ==> p <= r.end < |c| && c[r.end] == QUOTE && p + 2 * r.skipped <= r.end
    decreases |c| - p
  {
    if p >= |c| then Open
    else if c[p] == QUOTE then Closed(p, 0)
    else if c[p] == BACKSLASH then
      if p + 1 >= |c| then Open
      else match ScanString(c, p + 2)
           case Open => Open
           case Closed(end, skipped) => Closed(end, skipped + 1)
    else ScanString(c, p + 1)
  }

  /** What a one-letter escape stands for. */
  function SimpleEscape(b: byte): Option<byte> {
    if b == 0x62 then Some(BACKSPACE)
    else if b == 0x66 then Some(FORMFEED)
    else if b == 0x6E then Some(NEWLINE)
    else if b == 0x72 then Some(RETURN)
    else if b == 0x74 then Some(TAB)
    else if b == QUOTE || b == BACKSLASH || b == SLASH then Some(b)
    else None
  }

  /** One step of the second pass: the bytes written and the input consumed. */
  datatype Step = Stuck | Wrote(bytes: seq<byte>, length: nat)

  function UnescapeStep(c: seq<byte>, p: nat, end: nat): (r: Step)
    requires p < end < |c|
    ensures r.Wrote? ==> 1 <= r.length && p + r.length <= end + 1
  {
    if c[p] != BACKSLASH then Wrote([c[p]], 1)
    else if c[p + 1] == LOWER_U then
      match Utf.ReadLiteral(c, p, end)
      case Bad => Stuck
      case Good(u, n) => Wrote(Utf.Utf8(u), n)
    else
      match SimpleEscape(c[p + 1])
      case None => Stuck
      case Some(b) => Wrote([b], 2)
  }

  /** The second pass from `p` on: the bytes of the string, or where an escape is wrong. */
  function Unescape(c: seq<byte>, p: nat, end: nat): (r: Parsed<seq<byte>>)
    requires p <= end + 1 && end < |c|
    ensures r.Ok? ==> r.next == end + 1
    ensures r.Err? ==> p <= r.at < end
    decreases end + 1 - p
  {
    if p >= end then Ok([], end + 1)
    else
      match UnescapeStep(c, p, end)
      case Stuck => Err(p)
      case Wrote(bytes, n) =>
        match Unescape(c, p + n, end)
        case Err(at) => Err(at)
        case Ok(rest, next) => Ok(bytes + rest, next)
  }

  /** parse_string; the result is the C string in the output buffer. */
  function ReadString(c: seq<byte>, i: nat): (r: Parsed<seq<byte>>)
    requires Terminated(c) && i < |c|
    ensures r.Ok? ==> i + 1 < r.next < |c| && NulFree(r.value)
    ensures r.Err? ==> i < r.at <= |c|
  {
    if c[i] != QUOTE then Err(i + 1)
    else
      match ScanString(c, i + 1)
      case Open => Err(i + 1)
      case Closed(end, _) =>
        match Unescape(c, i + 1, end)
        case Err(at) => Err(at)
        case Ok(bytes, next) => Ok(CString(bytes), next)
  }

  // ---- Numbers ----

  predicate IsNumberByte(b: byte) {
    JsonText.IsDigit(b) || b == PLUS || b == MINUS || b == LOWER_E || b == UPPER_E || b == POINT
  }

  /** The number of bytes copied for strtod: a run of number bytes, at most `room`. */
  function NumberRun(c: seq<byte>, i: nat, room: nat): (n: nat)
    requires i <= |c|
    ensures n <= room && i + n <= |c|
    ensures forall k :: i <= k < i + n ==> IsNumberByte(c[k])
    decreases room
  {
    if room == 0 || i == |c| || !IsNumberByte(c[i]) then 0 else 1 + NumberRun(c, i + 1, room - 1)
  }

  function DigitsEnd(s: seq<byte>, i: nat): (j: nat)
    requires i <= |s|
    ensures i <= j <= |s|
    ensures forall k :: i <= k < j ==> JsonText.IsDigit(s[k])
    decreases |s| - i
  {
    if i < |s| && JsonText.IsDigit(s[i]) then DigitsEnd(s, i + 1) else i
  }

  /** The natural number written by a sequence of digits. */
  function NatValue(s: seq<byte>): nat
    requires JsonText.AllDigits(s)
  {
    if s == [] then 0 else 10 * NatValue(s[..|s| - 1]) + JsonText.DigitValue(s[|s| - 1])
  }

  function Power10(n: nat): (r: real)
    ensures r > 0.0
  {
    if n == 0 then 1.0 else 10.0 * Power10(n - 1)
  }

  /** The number with these digits before and behind the point, and this exponent. */
  function Assembled(negative: bool, whole: seq<byte>, fraction: seq<byte>, down: bool, exponent: seq<byte>): real
    requires JsonText.AllDigits(whole) && JsonText.AllDigits(fraction) && JsonText.AllDigits(exponent)
  {
    var magnitude := NatValue(whole) as real + NatValue(fraction) as real / Power10(|fraction|);
    var value := if negative then -magnitude else magnitude;
    if down then value / Power10(NatValue(exponent)) else value * Power10(NatValue(exponent))
  }

  // The parts of a number as strtod finds them, one behind the other.

  function SignEnd(s: seq<byte>): (g: nat)
    ensures g <= |s|
  {
    if s != [] && (s[0] == MINUS || s[0] == PLUS) then 1 else 0
  }

  function WholeEnd(s: seq<byte>): (a: nat)
    ensures SignEnd(s) <= a <= |s|
  {
    DigitsEnd(s, SignEnd(s))
  }

  function MantissaEnd(s: seq<byte>): (b: nat)
    ensures WholeEnd(s) <= b <= |s|
  {
    var a := WholeEnd(s);
    if a < |s| && s[a] == POINT then DigitsEnd(s, a + 1) else a
  }

  function Whole(s: seq<byte>): (t: seq<byte>)
    ensures JsonText.AllDigits(t)
  {
    s[SignEnd(s)..WholeEnd(s)]
  }

  function Fraction(s: seq<byte>): (t: seq<byte>)
    ensures JsonText.AllDigits(t)
  {
    if MantissaEnd(s) > WholeEnd(s) then s[WholeEnd(s) + 1..MantissaEnd(s)] else []
  }

  predicate HasMark(s: seq<byte>) {
    var b := MantissaEnd(s);
    b < |s| && (s[b] == LOWER_E || s[b] == UPPER_E)
  }

  function ExponentStart(s: seq<byte>): (e: nat)
    requires HasMark(s)
    ensures e <= |s|
  {
    var b := MantissaEnd(s);
    if b + 1 < |s| && (s[b + 1] == MINUS || s[b + 1] == PLUS) then b + 2 else b + 1
  }

  function ExponentOf(s: seq<byte>): (t: seq<byte>)
    requires HasMark(s)
    ensures JsonText.AllDigits(t) && ExponentStart(s) + |t| <= |s|
  {
    s[ExponentStart(s)..DigitsEnd(s, ExponentStart(s))]
  }

  /** strtod on a text of number bytes in the C locale, without rounding: the value and the length used. */
  function Strtod(s: seq<byte>): (r: (real, nat))
    ensures r.1 <= |s|
  {
    var negative := s != [] && s[0] == MINUS;
    if Whole(s) == [] && Fraction(s) == [] then (0.0, 0)
    else if HasMark(s) && ExponentOf(s) != [] then
      (Assembled(negative, Whole(s), Fraction(s), s[MantissaEnd(s) + 1] == MINUS, ExponentOf(s)),
       ExponentStart(s) + |ExponentOf(s)|)
    else (Assembled(negative, Whole(s), Fraction(s), false, []), MantissaEnd(s))
  }

  /** parse_number: the temporary buffer holds 63 bytes. */
  function ReadNumber(c: seq<byte>, i: nat): (r: Parsed<Value>)
    requires Terminated(c) && i < |c|
    ensures r.Ok? ==> i < r.next < |c|
    ensures r.Err? ==> r.at == i
  {
    var n := NumberRun(c, i, 63);
    var (d, used) := Strtod(c[i..i + n]);
    if used == 0 then Err(i)
    else
      assert i + n < |c|;
      Ok(Number(d), i + used)
  }

  // ---- Values ----

  /** parse_value */
  function ReadValue(c: seq<byte>, i: nat, depth: nat): (r: Parsed<Value>)
    requires Terminated(c) && i < |c|
    ensures r.Ok? ==> i < r.next < |c|
    ensures r.Err? ==> i <= r.at <= |c|
    decreases |c| - i, 1
  {
    if At(c, i, NULL_TEXT) then AtEnd(c, i, NULL_TEXT); Ok(Null, i + 4)
    else if At(c, i, FALSE_TEXT) then AtEnd(c, i, FALSE_TEXT); Ok(False, i + 5)
    else if At(c, i, TRUE_TEXT) then AtEnd(c, i, TRUE_TEXT); Ok(True, i + 4)
    else if c[i] == QUOTE then
      match ReadString(c, i)
      case Err(at) => Err(at)
      case Ok(s, next) => Ok(String(s), next)
    else if c[i] == MINUS || JsonText.IsDigit(c[i]) then ReadNumber(c, i)
    else if c[i] == LBRACKET then ReadArray(c, i, depth)
    else if c[i] == LBRACE then ReadObject(c, i, depth)
    else Err(i)
  }

  /** parse_array */
  function ReadArray(c: seq<byte>, i: nat, depth: nat): (r: Parsed<Value>)
    requires Terminated(c) && i < |c| && c[i] == LBRACKET
    ensures r.Ok? ==> i < r.next < |c|
    ensures r.Err? ==> i <= r.at <= |c|
    decreases |c| - i, 0
  {
    if depth >= NESTING_LIMIT then Err(i)
    else
      var j := SkipSpace(c, i + 1);
      if c[j] == RBRACKET then Ok(Array(NoElem), j + 1)
      else
        match ReadElems(c, j, depth + 1)
        case Err(at) => Err(at)
        case Ok(es, next) => Ok(Array(es), next)
  }

  /** The elements from `p` on, up to and including the closing bracket. */
  function ReadElems(c: seq<byte>, p: nat, depth: nat): (r: Parsed<Elems>)
    requires Terminated(c) && p < |c|
    ensures r.Ok? ==> p < r.next < |c|
    ensures r.Err? ==> p <= r.at <= |c|
    decreases |c| - p, 2
  {
    match ReadValue(c, SkipSpace(c, p), depth)
    case Err(at) => Err(at)
    case Ok(v, next) => ReadElemsTail(c, v, SkipSpace(c, next), depth)
  }

  /** What follows the element `v`, from the comma or bracket at `k` on. */
  function ReadElemsTail(c: seq<byte>, v: Value, k: nat, depth: nat): (r: Parsed<Elems>)
    requires Terminated(c) && k < |c|
    ensures r.Ok? ==> k < r.next < |c|
    ensures r.Err? ==> k <= r.at <= |c|
    decreases |c| - k, 0
  {
    if c[k] == COMMA then
      match ReadElems(c, k + 1, depth)
      case Err(at) => Err(at)
      case Ok(es, end) => Ok(Elem(v, es), end)
    else if c[k] == RBRACKET then Ok(Elem(v, NoElem), k + 1)
    else Err(k)
  }

  /** parse_object */
  function ReadObject(c: seq<byte>, i: nat, depth: nat): (r: Parsed<Value>)
    requires Terminated(c) && i < |c| && c[i] == LBRACE
    ensures r.Ok? ==> i < r.next < |c|
    ensures r.Err? ==> i <= r.at <= |c|
    decreases |c| - i, 0
  {
    if depth >= NESTING_LIMIT then Err(i)
    else
      var j := SkipSpace(c, i + 1);
      if c[j] == RBRACE then Ok(Object(NoMember), j + 1)
      else
        match ReadMembers(c, j, depth + 1)
        case Err(at) => Err(at)
        case Ok(ms, next) => Ok(Object(ms), next)
  }

  /** The members from `p` on, up to and including the closing brace. */
  function ReadMembers(c: seq<byte>, p: nat, depth: nat): (r: Parsed<Members>)
    requires Terminated(c) && p < |c|
    ensures r.Ok? ==> p < r.next < |c|
    ensures r.Err? ==> p <= r.at <= |c|
    decreases |c| - p, 3
  {
    match ReadMember(c, p, depth)
    case Err(at) => Err(at)
    case Ok((key, v), next) => ReadMembersTail(c, key, v, SkipSpace(c, next), depth)
  }

  /** A key, a colon and a value. */
  function ReadMember(c: seq<byte>, p: nat, depth: nat): (r: Parsed<(seq<byte>, Value)>)
    requires Terminated(c) && p < |c|
    ensures r.Ok? ==> p < r.next < |c|
    ensures r.Err? ==> p <= r.at <= |c|
    decreases |c| - p, 2
  {
    match ReadString(c, SkipSpace(c, p))
    case Err(at) => Err(at)
    case Ok(key, next) =>
      var k := SkipSpace(c, next);
      if c[k] != COLON then Err(k)
      else
        match ReadValue(c, SkipSpace(c, k + 1), depth)
        case Err(at) => Err(at)
        case Ok(v, end) => Ok((key, v), end)
  }

  /** What follows a member, from the comma or brace at `k` on. */
  function ReadMembersTail(c: seq<byte>, key: seq<byte>, v: Value, k: nat, depth: nat): (r: Parsed<Members>)
    requires Terminated(c) && k < |c|
    ensures r.Ok? ==> k < r.next < |c|
    ensures r.Err? ==> k <= r.at <= |c|
    decreases |c| - k, 0
  {
    if c[k] == COMMA then
      match ReadMembers(c, k + 1, depth)
      case Err(at) => Err(at)
      case Ok(ms, end) => Ok(Member(key, v, ms), end)
    else if c[k] == RBRACE then Ok(Member(key, v, NoMember), k + 1)
    else Err(k)
  }

  /** cJSON_ParseWithOpts on a C string; `strict` asks that nothing but white space follows the value. */
  function Parse(text: seq<byte>, strict: bool): (r: Parsed<Value>)
    ensures r.Ok? ==> r.next <= |text|
  {
    var c := text + [NUL];
    match ReadValue(c, SkipSpace(c, 0), 0)
    case Err(at) => Err(at)
    case Ok(v, next) =>
      if !strict then Ok(v, next)
      else
        var end := SkipSpace(c, next);
        if c[end] == NUL then Ok(v, end) else Err(end)
  }

  /** A text without terminator inside a terminated text ends before the terminator. */
  lemma AtEnd(c: seq<byte>, i: nat, t: seq<byte>)
    requires Terminated(c) && At(c, i, t) && NulFree(t) && t != []
    ensures i + |t| < |c|
  {
    assert c[i + |t| - 1] == t[|t| - 1];
  }
}

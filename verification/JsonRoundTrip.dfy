/** Parsing the printed text of a tree gives the tree back, formatted or not. */
module JsonRoundTrip {
  import opened Bytes
  import opened JsonValue
  import opened JsonText
  import opened JsonGrammar
  import Utf

  // ---- White space ----

  lemma {:induction false} SkipBlank(c: seq<byte>, i: nat, t: seq<byte>)
    requires At(c, i, t) && i + |t| < |c|
    requires forall k :: 0 <= k < |t| ==> t[k] <= 32
    requires c[i + |t|] > 32
    ensures SkipSpace(c, i) == i + |t|
    decreases |t|
  {
    if t != [] {
      assert c[i] == t[0];
      assert c[i + 1..i + |t|] == t[1..];
      SkipBlank(c, i + 1, t[1..]);
    }
  }

  lemma NoBlank(c: seq<byte>, i: nat)
    requires i < |c| && c[i] > 32
    ensures SkipSpace(c, i) == i
  {
  }

  // ---- Strings ----

  lemma ScanPlain(c: seq<byte>, p: nat)
    requires p < |c| && c[p] != QUOTE && c[p] != BACKSLASH
    ensures ScanString(c, p) == ScanString(c, p + 1)
  {
  }

  lemma ScanByte(c: seq<byte>, p: nat, b: byte)
    requires At(c, p, Escaped(b)) && b != NUL
    requires ScanString(c, p + |Escaped(b)|).Closed?
    ensures ScanString(c, p).Closed? && ScanString(c, p).end == ScanString(c, p + |Escaped(b)|).end
  {
    var t := Escaped(b);
    assert forall k :: 0 <= k < |t| ==> c[p + k] == t[k];
    assert c[p] == t[0] && (|t| > 1 ==> c[p + 1] == t[1]);
    if EscapeCost(b) == 5 {
      assert c[p + 2] == 0x30 && c[p + 3] == 0x30 && c[p + 4] == t[4] && c[p + 5] == t[5];
      assert ScanString(c, p + 2) == ScanString(c, p + 6) by {
        ScanPlain(c, p + 2);
        ScanPlain(c, p + 3);
        ScanPlain(c, p + 4);
        ScanPlain(c, p + 5);
      }
    }
  }

  lemma {:induction false} ScanEscaped(c: seq<byte>, p: nat, s: seq<byte>)
    requires NulFree(s) && At(c, p, EscapedAll(s) + [QUOTE])
    ensures ScanString(c, p).Closed? && ScanString(c, p).end == p + |EscapedAll(s)|
    decreases |s|
  {
    AtSplit(c, p, EscapedAll(s), [QUOTE]);
    AtByte(c, p + |EscapedAll(s)|, QUOTE);
    if s != [] {
      var t := Escaped(s[0]);
      assert EscapedAll(s) + [QUOTE] == t + (EscapedAll(s[1..]) + [QUOTE]);
      AtSplit(c, p, t, EscapedAll(s[1..]) + [QUOTE]);
      ScanEscaped(c, p + |t|, s[1..]);
      ScanByte(c, p, s[0]);
    }
  }

  lemma StepEscaped(c: seq<byte>, p: nat, end: nat, b: byte)
    requires At(c, p, Escaped(b)) && b != NUL && p + |Escaped(b)| <= end < |c|
    ensures UnescapeStep(c, p, end) == Wrote([b], |Escaped(b)|)
  {
    var t := Escaped(b);
    assert forall k :: 0 <= k < |t| ==> c[p + k] == t[k];
    hide Utf.ReadLiteral, Utf.Utf8;
    if EscapeCost(b) == 5 {
      ReadControl(c, p, end, b);
    } else if EscapeCost(b) == 1 {
      assert c[p] == BACKSLASH && c[p + 1] == t[1];
    } else {
      assert c[p] == b;
    }
  }

  /** A control byte is printed as four hexadecimal digits. */
  lemma ReadControl(c: seq<byte>, p: nat, end: nat, b: byte)
    requires EscapeCost(b) == 5 && b != NUL && At(c, p, Escaped(b)) && p + 6 <= end < |c|
    ensures c[p] == BACKSLASH && c[p + 1] == LOWER_U
    ensures Utf.ReadLiteral(c, p, end) == Utf.Good(b, 6) && Utf.Utf8(b) == [b]
  {
    var s := c[p..p + 6];
    assert s == [BACKSLASH, LOWER_U, 0x30, 0x30, HexDigit(b / 16), HexDigit(b % 16)];
    assert c[p] == s[0] && c[p + 1] == s[1] && c[p + 2] == s[2];
    assert c[p + 3] == s[3] && c[p + 4] == s[4] && c[p + 5] == s[5];
    assert Utf.HexAt(c, p + 2);
    assert Utf.HexValue(HexDigit(b / 16)) == b / 16 && Utf.HexValue(HexDigit(b % 16)) == b % 16;
    assert Utf.Hex4(c, p + 2) == b / 16 * 16 + b % 16 == b;
  }

  lemma UnescapeMore(c: seq<byte>, p: nat, end: nat, bytes: seq<byte>, n: nat, rest: seq<byte>)
    requires p < end < |c| && UnescapeStep(c, p, end) == Wrote(bytes, n)
    requires Unescape(c, p + n, end) == Ok(rest, end + 1)
    ensures Unescape(c, p, end) == Ok(bytes + rest, end + 1)
  {
    hide UnescapeStep;
  }

  lemma {:induction false} UnescapeEscaped(c: seq<byte>, p: nat, s: seq<byte>)
    requires NulFree(s) && At(c, p, EscapedAll(s)) && p + |EscapedAll(s)| < |c|
    ensures Unescape(c, p, p + |EscapedAll(s)|) == Ok(s, p + |EscapedAll(s)| + 1)
    decreases |s|
  {
    hide UnescapeStep, Escaped, At;
    var end := p + |EscapedAll(s)|;
    if s != [] {
      var t := Escaped(s[0]);
      AtSplit(c, p, t, EscapedAll(s[1..]));
      StepEscaped(c, p, end, s[0]);
      UnescapeEscaped(c, p + |t|, s[1..]);
      UnescapeMore(c, p, end, [s[0]], |t|, s[1..]);
      assert [s[0]] + s[1..] == s;
    }
  }

  lemma ReadPrintedString(c: seq<byte>, i: nat, s: seq<byte>)
    requires Terminated(c) && NulFree(s) && At(c, i, StringText(s))
    ensures c[i] == QUOTE
    ensures ReadString(c, i) == Ok(s, i + |StringText(s)|)
  {
    hide At, ScanString, Unescape, EscapedAll;
    var body := EscapedAll(s) + [QUOTE];
    var end := i + 1 + |EscapedAll(s)|;
    assert At(c, i, [QUOTE]) && At(c, i + 1, body) by {
      assert StringText(s) == [QUOTE] + body;
      AtSplit(c, i, [QUOTE], body);
    }
    AtByte(c, i, QUOTE);
    assert At(c, i + 1, EscapedAll(s)) by {
      AtSplit(c, i + 1, EscapedAll(s), [QUOTE]);
    }
    assert ScanString(c, i + 1).Closed? && ScanString(c, i + 1).end == end by {
      ScanEscaped(c, i + 1, s);
    }
    assert Unescape(c, i + 1, end) == Ok(s, end + 1) by {
      UnescapeEscaped(c, i + 1, s);
    }
    assert CString(s) == s;
  }

  // ---- Numbers ----

  lemma {:induction false} DigitsRead(n: nat)
    ensures NatValue(Digits(n)) == n
  {
    if n >= 10 {
      DigitsRead(n / 10);
      assert Digits(n)[..|Digits(n)| - 1] == Digits(n / 10);
    }
  }

  lemma {:induction false} DigitsLength(n: nat, k: nat)
    requires k > 0 && n < Limit(k)
    ensures |Digits(n)| <= k
  {
    if n >= 10 {
      DigitsLength(n / 10, k - 1);
    }
  }

  function Limit(k: nat): nat {
    if k == 0 then 1 else 10 * Limit(k - 1)
  }

  lemma {:induction false} RunAll(c: seq<byte>, i: nat, n: nat, room: nat)
    requires n <= room && i + n < |c|
    requires forall k :: i <= k < i + n ==> IsNumberByte(c[k])
    requires !IsNumberByte(c[i + n])
    ensures NumberRun(c, i, room) == n
    decreases n
  {
    if n > 0 {
      RunAll(c, i + 1, n - 1, room - 1);
    }
  }

  lemma {:induction false} DigitsEndAll(s: seq<byte>, i: nat)
    requires i <= |s| && forall k :: i <= k < |s| ==> IsDigit(s[k])
    ensures DigitsEnd(s, i) == |s|
    decreases |s| - i
  {
    if i < |s| {
      DigitsEndAll(s, i + 1);
    }
  }

  lemma StrtodDecimal(n: int)
    ensures Strtod(Decimal(n)) == (n as real, |Decimal(n)|)
  {
    hide NatValue, Power10, Digits;
    var s := Decimal(n);
    var m := if n < 0 then -n else n;
    var sign := if n < 0 then 1 else 0;
    assert s[sign..] == Digits(m) == s[sign..|s|];
    DigitsEndAll(s, sign);
    assert Whole(s) == Digits(m) && Fraction(s) == [] && MantissaEnd(s) == |s|;
    DigitsRead(m);
    NothingBehind();
  }

  lemma NothingBehind()
    ensures NatValue([]) == 0 && Power10(0) == 1.0
  {
  }

  lemma DecimalBytes(n: int)
    requires -1000000000000000 < n < 1000000000000000
    ensures |Decimal(n)| <= 16
    ensures forall k :: 0 <= k < |Decimal(n)| ==> IsNumberByte(Decimal(n)[k])
    ensures Decimal(n)[0] == MINUS || IsDigit(Decimal(n)[0])
  {
    Limit15();
    DigitsLength(if n < 0 then -n else n, 15);
  }

  lemma ReadNumberText(c: seq<byte>, i: nat, t: seq<byte>, d: real)
    requires Terminated(c) && At(c, i, t) && i < |c| && t != []
    requires NumberRun(c, i, 63) == |t| && Strtod(t) == (d, |t|)
    ensures ReadNumber(c, i) == Ok(Number(d), i + |t|)
  {
    hide Strtod, NumberRun;
  }

  lemma ReadPrintedNumber(c: seq<byte>, i: nat, d: real)
    requires Terminated(c) && PlainInteger(d) && At(c, i, Decimal(d.Floor))
    requires Delimited(c, i + |Decimal(d.Floor)|)
    ensures c[i] == MINUS || IsDigit(c[i])
    ensures ReadNumber(c, i) == Ok(Number(d), i + |Decimal(d.Floor)|)
  {
    hide Strtod, ReadNumber;
    var t := Decimal(d.Floor);
    DecimalBytes(d.Floor);
    assert forall k :: i <= k < i + |t| ==> c[k] == t[k - i];
    assert NumberRun(c, i, 63) == |t| by {
      RunAll(c, i, |t|, 63);
    }
    StrtodDecimal(d.Floor);
    ReadNumberText(c, i, t, d);
  }

  lemma Limit15()
    ensures Limit(15) == 1000000000000000
  {
    assert Limit(3) == 1000;
    assert Limit(6) == 1000000;
    assert Limit(9) == 1000000000;
    assert Limit(12) == 1000000000000;
  }

  // ---- Trees ----

  /** The byte after a value, which a number must not run into. */
  predicate Delimited(c: seq<byte>, i: nat) {
    i < |c| && !IsNumberByte(c[i])
  }

  /** A text that starts with another byte does not stand at `i`. */
  lemma StartsOtherwise(c: seq<byte>, i: nat, t: seq<byte>)
    requires i < |c| && t != [] && c[i] != t[0]
    ensures !At(c, i, t)
  {
    if At(c, i, t) {
      Lead(c, i, t);
    }
  }

  lemma NoLiteral(c: seq<byte>, i: nat)
    requires i < |c| && c[i] !in {0x6E, 0x66, 0x74}
    ensures !At(c, i, NULL_TEXT) && !At(c, i, FALSE_TEXT) && !At(c, i, TRUE_TEXT)
  {
    StartsOtherwise(c, i, NULL_TEXT);
    StartsOtherwise(c, i, FALSE_TEXT);
    StartsOtherwise(c, i, TRUE_TEXT);
  }

  lemma Lead(c: seq<byte>, i: nat, t: seq<byte>)
    requires At(c, i, t) && t != []
    ensures i < |c| && c[i] == t[0]
  {
    assert c[i..i + |t|][0] == t[0];
  }

  /** A printed value starts with a byte that is neither white space nor a closing bracket. */
  lemma FirstByte(v: Value, format: bool, depth: nat)
    requires Printable(v) && RawFree(v)
    ensures var t := Text(v, format, depth);
            t[0] > 32 && t[0] != RBRACKET && t[0] != RBRACE
  {
    match v
    case Number(d) => DecimalBytes(d.Floor);
    case _ =>
  }

  /** Reading a printed value gives it back, unless it nests deeper than the limit allows. */
  lemma {:induction false} ReadPrinted(v: Value, format: bool, level: nat, c: seq<byte>, i: nat, depth: nat)
    requires Terminated(c) && Printable(v) && RawFree(v) && depth <= NESTING_LIMIT
    requires At(c, i, Text(v, format, level)) && Delimited(c, i + |Text(v, format, level)|)
    ensures var r := ReadValue(c, i, depth);
            if depth + Nesting(v) <= NESTING_LIMIT
            then r == Ok(v, i + |Text(v, format, level)|)
            else r.Err?
    decreases v, 1
  {
    Lead(c, i, Text(v, format, level));
    match v
    case Null =>
    case False => StartsOtherwise(c, i, NULL_TEXT);
    case True => StartsOtherwise(c, i, NULL_TEXT); StartsOtherwise(c, i, FALSE_TEXT);
    case Number(d) => ReadPrintedNumber(c, i, d); NoLiteral(c, i);
    case String(s) => ReadPrintedString(c, i, s); NoLiteral(c, i);
    case Array(es) => NoLiteral(c, i); ReadPrintedArray(es, format, level, c, i, depth);
    case Object(ms) => NoLiteral(c, i); ReadPrintedObject(ms, format, level, c, i, depth);
  }

  lemma {:induction false} ReadPrintedArray(es: Elems, format: bool, level: nat, c: seq<byte>, i: nat, depth: nat)
    requires Terminated(c) && PrintableElems(es) && RawFreeElems(es) && depth <= NESTING_LIMIT
    requires At(c, i, Text(Array(es), format, level)) && c[i] == LBRACKET
    ensures var r := ReadArray(c, i, depth);
            if depth + 1 + NestingElems(es) <= NESTING_LIMIT
            then r == Ok(Array(es), i + |Text(Array(es), format, level)|)
            else r.Err?
    decreases es, 1
  {
    hide At, SkipSpace, Text, ElemsText, ReadElems, NestingElems, PrintableElems, RawFreeElems, Terminated;
    ArrayBody(es, format, level, c, i);
    if depth < NESTING_LIMIT && es.Elem? {
      ReadPrintedElems(es, format, level + 1, c, i + 1, i + 1, depth + 1);
    }
  }

  /** What stands behind an opening bracket. */
  lemma ArrayBody(es: Elems, format: bool, level: nat, c: seq<byte>, i: nat)
    requires PrintableElems(es) && RawFreeElems(es) && At(c, i, Text(Array(es), format, level))
    ensures var body := ElemsText(es, format, level + 1) + [RBRACKET];
            At(c, i + 1, body) && |Text(Array(es), format, level)| == 1 + |body|
    ensures i + 1 < |c| && SkipSpace(c, i + 1) == i + 1
    ensures c[i + 1] == RBRACKET <==> es.NoElem?
    ensures es.NoElem? ==> |Text(Array(es), format, level)| == 2 && NestingElems(es) == 0
  {
    hide At, SkipSpace, Separator;
    var body := ElemsText(es, format, level + 1) + [RBRACKET];
    assert At(c, i + 1, body) by {
      assert Text(Array(es), format, level) == [LBRACKET] + body;
      AtSplit(c, i, [LBRACKET], body);
    }
    Lead(c, i + 1, body);
    if es.Elem? {
      FirstByte(es.value, format, level + 1);
    }
    NoBlank(c, i + 1);
  }

  lemma {:induction false} ReadPrintedElems(es: Elems, format: bool, level: nat,
                                            c: seq<byte>, p: nat, q: nat, depth: nat)
    requires Terminated(c) && PrintableElems(es) && RawFreeElems(es) && es.Elem? && depth <= NESTING_LIMIT
    requires p < |c| && SkipSpace(c, p) == q
    requires At(c, q, ElemsText(es, format, level) + [RBRACKET])
    ensures var r := ReadElems(c, p, depth);
            if depth + NestingElems(es) <= NESTING_LIMIT
            then r == Ok(es, q + |ElemsText(es, format, level)| + 1)
            else r.Err?
    decreases es, 0
  {
    hide At, ReadValue, SkipSpace, Text, ElemsText, Delimited, Terminated, ReadElems;
    hide Printable, PrintableElems, RawFree, RawFreeElems, Nesting, NestingElems;
    var v, next := es.value, es.next;
    ElemsParts(es, v, next);
    var q' := q + |Text(v, format, level)|;
    ElemsBody(es, format, level, c, q);
    ReadPrinted(v, format, level, c, q, depth);
    ReadElemsSteps(c, p, depth, q, v, q');
    if next.Elem? && depth + Nesting(v) <= NESTING_LIMIT {
      ReadPrintedElems(next, format, level, c, q' + 1, q' + 1 + |Blank(format)|, depth);
    }
  }

  lemma ElemsParts(es: Elems, v: Value, next: Elems)
    requires PrintableElems(es) && RawFreeElems(es) && es == Elem(v, next)
    ensures Printable(v) && PrintableElems(next) && RawFree(v) && RawFreeElems(next)
    ensures NestingElems(es) == Max(Nesting(v), NestingElems(next)) && (next.NoElem? ==> NestingElems(next) == 0)
  {
  }

  /** The reading of one element and what follows it. */
  lemma ReadElemsSteps(c: seq<byte>, p: nat, depth: nat, q: nat, v: Value, y: nat)
    requires Terminated(c) && p < |c| && SkipSpace(c, p) == q && y < |c| && SkipSpace(c, y) == y
    ensures ReadValue(c, q, depth).Err? ==> ReadElems(c, p, depth).Err?
    ensures ReadValue(c, q, depth) == Ok(v, y) && c[y] == RBRACKET ==>
              ReadElems(c, p, depth) == Ok(Elem(v, NoElem), y + 1)
    ensures ReadValue(c, q, depth) == Ok(v, y) && c[y] == COMMA ==>
              ReadElems(c, p, depth) == match ReadElems(c, y + 1, depth)
                                        case Err(at) => Err(at)
                                        case Ok(es, end) => Ok(Elem(v, es), end)
  {
    hide ReadValue, SkipSpace;
    assert ReadValue(c, q, depth) == Ok(v, y) ==> ReadElems(c, p, depth) == ReadElemsTail(c, v, y, depth);
  }

  /** What follows the comma after an element. */
  function Blank(format: bool): seq<byte> {
    if format then [SPACE] else []
  }

  /** Where an element, what separates it and the next one stand. */
  lemma ElemsBody(es: Elems, format: bool, level: nat, c: seq<byte>, q: nat)
    requires PrintableElems(es) && RawFreeElems(es) && es.Elem? && At(c, q, ElemsText(es, format, level) + [RBRACKET])
    ensures var t := Text(es.value, format, level);
            var q' := q + |t|;
            && At(c, q, t) && Delimited(c, q') && q' < |c| && SkipSpace(c, q') == q'
            && (es.next.NoElem? ==> c[q'] == RBRACKET && |ElemsText(es, format, level)| == |t|)
            && (es.next.Elem? ==>
                  var q'' := q' + 1 + |Blank(format)|;
                  && c[q'] == COMMA && q' + 1 < |c| && SkipSpace(c, q' + 1) == q''
                  && At(c, q'', ElemsText(es.next, format, level) + [RBRACKET])
                  && q + |ElemsText(es, format, level)| == q'' + |ElemsText(es.next, format, level)|)
  {
    hide At, SkipSpace, Text;
    var t := Text(es.value, format, level);
    var rest := if es.next.Elem? then Separator(format) + ElemsText(es.next, format, level) else [];
    var q' := q + |t|;
    assert At(c, q, t) && At(c, q', rest + [RBRACKET]) by {
      assert ElemsText(es, format, level) + [RBRACKET] == t + (rest + [RBRACKET]);
      AtSplit(c, q, t, rest + [RBRACKET]);
    }
    Lead(c, q', rest + [RBRACKET]);
    NoBlank(c, q');
    if es.next.Elem? {
      var blank, more := Blank(format), ElemsText(es.next, format, level) + [RBRACKET];
      assert At(c, q' + 1, blank) && At(c, q' + 1 + |blank|, more) by {
        assert rest + [RBRACKET] == [COMMA] + (blank + more);
        AtSplit(c, q', [COMMA], blank + more);
        AtSplit(c, q' + 1, blank, more);
      }
      FirstByte(es.next.value, format, level);
      Lead(c, q' + 1 + |blank|, more);
      SkipBlank(c, q' + 1, blank);
    }
  }

  /** The text of an object from its first key on, the closing brace included. */
  function FromKey(ms: Members, format: bool, level: nat): (t: seq<byte>)
    requires PrintableMembers(ms) && ms.Member?
    ensures t != [] && t[0] == QUOTE
  {
    StringText(ms.key) + (Colon(format) + (Text(ms.value, format, level + 1) + AfterValue(ms.next, format, level)))
  }

  /** What follows a member's value: the next members, if any, and the closing brace. */
  function AfterValue(ms: Members, format: bool, level: nat): seq<byte>
    requires PrintableMembers(ms)
  {
    LineEnd(format, ms.Member?) + (MembersText(ms, format, level + 1) + Closing(format, level))
  }

  lemma NestRight(a: seq<byte>, b: seq<byte>, d: seq<byte>, e: seq<byte>, f: seq<byte>, g: seq<byte>, h: seq<byte>)
    ensures a + b + d + e + f + g + h == a + (b + (d + (e + (f + (g + h)))))
  {
  }

  lemma MembersShape(ms: Members, format: bool, level: nat)
    requires PrintableMembers(ms)
    ensures var all := MembersText(ms, format, level + 1) + Closing(format, level);
            all == if ms.Member? then Indent(format, level + 1) + FromKey(ms, format, level) else Closing(format, level)
  {
    hide StringText, Colon, Text, LineEnd, Closing, Indent;
    if ms.Member? {
      var n := ms.next;
      var i, a, b, d := Indent(format, level + 1), StringText(ms.key), Colon(format), Text(ms.value, format, level + 1);
      var e, f, g := LineEnd(format, n.Member?), MembersText(n, format, level + 1), Closing(format, level);
      assert MembersText(ms, format, level + 1) == i + a + b + d + e + f;
      NestRight(i, a, b, d, e, f, g);
    }
  }

  /** From after an opening brace or a comma to the next key or the closing brace. */
  lemma SkipToMember(ms: Members, format: bool, level: nat, c: seq<byte>, p: nat) returns (q: nat)
    requires PrintableMembers(ms)
    requires At(c, p, (if format then [NEWLINE] else [])
                      + (MembersText(ms, format, level + 1) + Closing(format, level)))
    ensures p <= q < |c| && SkipSpace(c, p) == q
    ensures ms.Member? ==> At(c, q, FromKey(ms, format, level))
    ensures ms.NoMember? ==> c[q] == RBRACE
    ensures q + (if ms.Member? then |FromKey(ms, format, level)| else 1)
         == p + (if format then 1 else 0) + |MembersText(ms, format, level + 1)| + |Closing(format, level)|
  {
    hide At, SkipSpace, MembersText, Text, FromKey, Closing, Indent, PrintableMembers;
    var newline := if format then [NEWLINE] else [];
    var all := MembersText(ms, format, level + 1) + Closing(format, level);
    var n := if ms.Member? then level + 1 else level;
    var tabs := Indent(format, n);
    var rest := if ms.Member? then FromKey(ms, format, level) else [RBRACE];
    MembersShape(ms, format, level);
    ClosingShape(format, level);
    var blank := newline + tabs;
    q := p + |blank|;
    Associate(newline, tabs, rest);
    AtSplit(c, p, blank, rest);
    Lead(c, q, rest);
    BlankLine(format, n);
    SkipBlank(c, p, blank);
  }

  lemma ClosingShape(format: bool, level: nat)
    ensures Closing(format, level) == Indent(format, level) + [RBRACE]
  {
  }

  lemma BlankLine(format: bool, n: nat)
    ensures var blank := (if format then [NEWLINE] else []) + Indent(format, n);
            forall k :: 0 <= k < |blank| ==> blank[k] <= 32
  {
  }

  lemma {:induction false} ReadPrintedObject(ms: Members, format: bool, level: nat, c: seq<byte>, i: nat, depth: nat)
    requires Terminated(c) && PrintableMembers(ms) && RawFreeMembers(ms) && depth <= NESTING_LIMIT
    requires At(c, i, Text(Object(ms), format, level)) && c[i] == LBRACE
    ensures var r := ReadObject(c, i, depth);
            if depth + 1 + NestingMembers(ms) <= NESTING_LIMIT
            then r == Ok(Object(ms), i + |Text(Object(ms), format, level)|)
            else r.Err?
    decreases ms, 1
  {
    hide At, SkipSpace, FromKey, MembersText, ReadMembers;
    var newline := if format then [NEWLINE] else [];
    var all := MembersText(ms, format, level + 1) + Closing(format, level);
    assert At(c, i + 1, newline + all) by {
      assert Text(Object(ms), format, level) == [LBRACE] + (newline + all);
      AtSplit(c, i, [LBRACE], newline + all);
    }
    var q := SkipToMember(ms, format, level, c, i + 1);
    if depth < NESTING_LIMIT && ms.Member? {
      Lead(c, q, FromKey(ms, format, level));
      NoBlank(c, q);
      ReadPrintedMembers(ms, format, level, c, q, q, depth + 1);
    }
  }

  /** From a colon to the value. */
  lemma SkipColon(format: bool, c: seq<byte>, k: nat, value: seq<byte>)
    requires At(c, k, Colon(format)) && At(c, k + |Colon(format)|, value) && value != [] && value[0] > 32
    ensures c[k] == COLON && SkipSpace(c, k) == k && SkipSpace(c, k + 1) == k + |Colon(format)|
  {
    Lead(c, k, Colon(format));
    Lead(c, k + |Colon(format)|, value);
    var blank := if format then [TAB] else [];
    assert Colon(format) == [COLON] + blank;
    AtSplit(c, k, [COLON], blank);
    SkipBlank(c, k + 1, blank);
  }

  /** From the end of a value to the comma or the closing brace. */
  lemma SkipAfterValue(ms: Members, format: bool, level: nat, c: seq<byte>, y: nat)
    requires PrintableMembers(ms) && At(c, y, AfterValue(ms, format, level))
    ensures Delimited(c, y)
    ensures ms.Member? ==>
              c[y] == COMMA && SkipSpace(c, y) == y
              && At(c, y + 1, (if format then [NEWLINE] else [])
                              + (MembersText(ms, format, level + 1) + Closing(format, level)))
    ensures ms.NoMember? ==>
              var k := y + |AfterValue(ms, format, level)| - 1;
              k < |c| && SkipSpace(c, y) == k && c[k] == RBRACE
  {
    hide At, SkipSpace, MembersText, Text;
    var newline := if format then [NEWLINE] else [];
    var all := MembersText(ms, format, level + 1) + Closing(format, level);
    var after := AfterValue(ms, format, level);
    Lead(c, y, after);
    if ms.Member? {
      assert after == [COMMA] + (newline + all);
      AtSplit(c, y, [COMMA], newline + all);
      NoBlank(c, y);
    } else {
      MembersShape(ms, format, level);
      assert after == newline + all;
      var q := SkipToMember(ms, format, level, c, y);
    }
  }

  /** Where the key, the colon, the value and the rest of a member stand. */
  lemma MemberParts(ms: Members, format: bool, level: nat, c: seq<byte>, q: nat) returns (k: nat, x: nat, y: nat)
    requires PrintableMembers(ms) && ms.Member? && At(c, q, FromKey(ms, format, level))
    ensures k == q + |StringText(ms.key)| && At(c, q, StringText(ms.key))
    ensures x == k + |Colon(format)| && At(c, k, Colon(format))
    ensures y == x + |Text(ms.value, format, level + 1)| && At(c, x, Text(ms.value, format, level + 1))
    ensures At(c, y, AfterValue(ms.next, format, level))
    ensures q + |FromKey(ms, format, level)| == y + |AfterValue(ms.next, format, level)|
  {
    hide At, StringText, Colon, Text, AfterValue;
    var key, colon, value := StringText(ms.key), Colon(format), Text(ms.value, format, level + 1);
    var after := AfterValue(ms.next, format, level);
    k := q + |key|;
    x := k + |colon|;
    y := x + |value|;
    AtSplit(c, q, key, colon + (value + after));
    AtSplit(c, k, colon, value + after);
    AtSplit(c, x, value, after);
  }

  /** The reading of one member, step by step. */
  lemma ReadMembersSteps(c: seq<byte>, p: nat, depth: nat, q: nat, key: seq<byte>, k: nat, x: nat, v: Value, y: nat)
    requires Terminated(c) && p < |c| && SkipSpace(c, p) == q && ReadString(c, q) == Ok(key, k)
    requires SkipSpace(c, k) == k && c[k] == COLON && SkipSpace(c, k + 1) == x
    ensures var r := ReadValue(c, x, depth);
            r.Err? ==> ReadMembers(c, p, depth).Err?
    ensures ReadValue(c, x, depth) == Ok(v, y) ==>
              ReadMembers(c, p, depth) == ReadMembersTail(c, key, v, SkipSpace(c, y), depth)
  {
    hide ReadValue, ReadString, SkipSpace, ReadMembersTail;
    assert ReadValue(c, x, depth) == Ok(v, y) ==> ReadMember(c, p, depth) == Ok((key, v), y);
  }

  lemma {:induction false} ReadPrintedMembers(ms: Members, format: bool, level: nat,
                                              c: seq<byte>, p: nat, q: nat, depth: nat)
    requires Terminated(c) && PrintableMembers(ms) && RawFreeMembers(ms) && ms.Member? && depth <= NESTING_LIMIT
    requires p < |c| && SkipSpace(c, p) == q
    requires At(c, q, FromKey(ms, format, level))
    ensures var r := ReadMembers(c, p, depth);
            if depth + NestingMembers(ms) <= NESTING_LIMIT
            then r == Ok(ms, q + |FromKey(ms, format, level)|)
            else r.Err?
    decreases ms, 0
  {
    hide At, SkipSpace, Text, ReadValue, ReadString, MembersText, FromKey, StringText, Colon,
         ReadMember, ReadMembers, Terminated, LineEnd, Closing;
    var k, x, y := MemberParts(ms, format, level, c, q);
    ReadPrintedString(c, q, ms.key);
    FirstByte(ms.value, format, level + 1);
    SkipColon(format, c, k, Text(ms.value, format, level + 1));
    SkipAfterValue(ms.next, format, level, c, y);
    ReadPrinted(ms.value, format, level + 1, c, x, depth);
    ReadMembersSteps(c, p, depth, q, ms.key, k, x, ms.value, y);
    if depth + Nesting(ms.value) > NESTING_LIMIT {
      assert ReadMembers(c, p, depth).Err?;
    } else if ms.next.Member? {
      var n := SkipToMember(ms.next, format, level, c, y + 1);
      ReadPrintedMembers(ms.next, format, level, c, y + 1, n, depth);
      assert ReadMembers(c, p, depth) == ReadMembersTail(c, ms.key, ms.value, y, depth);
      assert ReadMembers(c, y + 1, depth).Err? ==> ReadMembersTail(c, ms.key, ms.value, y, depth).Err?;
    } else {
      assert NestingMembers(ms.next) == 0;
    }
  }

  /**
   * Parsing what was printed, formatted or not: the same tree comes back and the cursor stands on
   * the terminator, exactly when no value lies inside more than 1000 containers.
   */
  lemma ParsePrinted(v: Value, format: bool, strict: bool)
    requires Printable(v) && RawFree(v)
    ensures var t := Text(v, format, 0);
            var r := Parse(t, strict);
            if Nesting(v) <= NESTING_LIMIT then r == Ok(v, |t|) else r.Err?
  {
    hide ReadValue, Text;
    var t := Text(v, format, 0);
    var c := t + [NUL];
    assert At(c, 0, t);
    FirstByte(v, format, 0);
    NoBlank(c, 0);
    ReadPrinted(v, format, 0, c, 0, 0);
    assert SkipSpace(c, |t|) == |t|;
  }
}

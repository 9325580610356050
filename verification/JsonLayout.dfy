/** How trees are printed: every byte of white space, every escape and every digit. */
module JsonLayout {
  import opened Bytes
  import opened JsonValue
  import opened JsonText
  import opened JsonGrammar
  import opened JsonRoundTrip
  import opened JsonSpelling
  import opened JsonNumerals
  import opened JsonSyntax
  import JsonMeaning
  import Utf

  // ---- Strings ----

  /** Digits as `%x` writes them. */
  predicate LowerHex(digits: seq<byte>) {
    forall k :: 0 <= k < |digits| ==> 0x30 <= digits[k] <= 0x39 || 0x61 <= digits[k] <= 0x66
  }

  /**
   * How the byte `b` is written: as itself if it is neither a control nor a quote nor a backslash, with a letter if
   * it has one, and otherwise with four digits.
   */
  predicate Canonical(x: Piece, b: byte) {
    && ValidPiece(x) && Spelled(x) == [b]
    && (x.Itself? <==> b >= 0x20 && b != 0x22 && b != 0x5C)
    && match x
       case Itself(_) => true
       case Short(_, _) => true
       case Unit(digits) => LowerHex(digits) && forall letter :: !Letter(letter, b)
       case Pair(_, _) => false
  }

  predicate CanonicalName(s: Name, str: seq<byte>) {
    s.cut == [] && |s.pieces| == |str| && forall k :: 0 <= k < |str| ==> Canonical(s.pieces[k], str[k])
  }

  lemma PieceOf(b: byte) returns (x: Piece)
    requires b != NUL
    ensures Canonical(x, b) && Form(x) == Escaped(b)
  {
    if EscapeCost(b) == 0 {
      x := Itself(b);
    } else if EscapeCost(b) == 1 {
      x := Short(Escaped(b)[1], b);
    } else {
      var t := Escaped(b);
      x := Unit(t[2..]);
      assert t == ESCAPE_U + t[2..];
      ControlUnit(b);
    }
  }

  lemma ControlUnit(b: byte)
    requires EscapeCost(b) == 5 && b != NUL
    ensures var digits := Escaped(b)[2..];
            FourHex(digits) && CodeUnit(digits) == b && LowerHex(digits) && Utf.Utf8(b) == [b]
  {
    var t := Escaped(b);
    var d := t[2..];
    assert d[0] == 0x30 && d[1] == 0x30 && d[2] == HexDigit(b / 16) && d[3] == HexDigit(b % 16);
    assert Utf.HexValue(d[2]) == b / 16 && Utf.HexValue(d[3]) == b % 16;
  }

  lemma {:induction false} PiecesFor(str: seq<byte>) returns (xs: seq<Piece>)
    requires NulFree(str)
    ensures CanonicalName(Name(xs, []), str) && Forms(xs) == EscapedAll(str)
    ensures ValidPieces(xs) && AllSpelled(xs) == str
  {
    hide Canonical, Form, Escaped, ValidPiece, Spelled;
    if str == [] {
      xs := [];
    } else {
      var x := PieceOf(str[0]);
      CanonicalMeans(x, str[0]);
      var rest := PiecesFor(str[1..]);
      xs := [x] + rest;
      assert xs[1..] == rest;
      assert str == [str[0]] + str[1..];
    }
  }

  lemma CanonicalMeans(x: Piece, b: byte)
    requires Canonical(x, b)
    ensures ValidPiece(x) && Spelled(x) == [b]
  {
  }

  lemma PrintedName(str: seq<byte>) returns (s: Name)
    requires NulFree(str)
    ensures CanonicalName(s, str) && ValidName(s) && NameMeaning(s) == str && NameText(s) == StringText(str)
  {
    hide CanonicalName, ValidPieces, AllSpelled, Forms, EscapedAll, CString;
    var xs := PiecesFor(str);
    s := Name(xs, []);
    WholeText(str);
    assert [QUOTE] + Forms(xs) + [] + [QUOTE] == [QUOTE] + EscapedAll(str) + [QUOTE];
  }

  // ---- Numbers ----

  /** Digits only, with a minus if need be, without leading zeros and without a negative zero. */
  predicate CanonicalNumeral(n: Numeral) {
    && (n.sign == [] || n.sign == [MINUS]) && !n.point && n.fraction == [] && n.exponent.NoExponent?
    && n.whole != [] && (n.whole[0] == 0x30 ==> |n.whole| == 1 && n.sign == [])
  }

  lemma {:induction false} FirstDigit(n: nat)
    ensures Digits(n)[0] == 0x30 <==> n == 0
    ensures n == 0 ==> |Digits(n)| == 1
  {
    if n >= 10 {
      FirstDigit(n / 10);
    }
  }

  lemma PrintedNumber(d: real) returns (n: Numeral)
    requires PlainInteger(d)
    ensures CanonicalNumeral(n) && ValidNumber(n) && NumeralValue(n) == d && NumeralText(n) == Decimal(d.Floor)
  {
    hide Digits, NumeralValue, Strtod;
    var m := d.Floor;
    var size: nat := if m < 0 then -m else m;
    FirstDigit(size);
    n := Numeral(if m < 0 then [MINUS] else [], Digits(size), false, [], NoExponent);
    assert [] + Digits(size) + [] + [] == Digits(size);
    assert [MINUS] + Digits(size) + [] + [] == [MINUS] + Digits(size);
    assert Digits(size) + [] == Digits(size);
    DecimalBytes(m);
    StrtodNumeral(n);
    StrtodDecimal(m);
  }

  // ---- White space ----

  /** A new line, indented by `depth` tabs. */
  function NewLine(depth: nat): seq<byte> {
    [0x0A] + Tabs(depth)
  }

  /**
   * Unformatted there is no white space. Formatted, a blank follows each comma of an array and a tab each colon;
   * each member stands on a line of its own, indented by the number of objects and arrays around it, and the
   * closing brace on a line of its own, indented by one less.
   */
  predicate Layout(d: Doc, format: bool, depth: nat) {
    match d
    case NumberDoc(n) => CanonicalNumeral(n)
    case StringDoc(s) => ValidName(s) && CanonicalName(s, NameMeaning(s))
    case ArrayDoc(w, es) => w == [] && ElemsLayout(es, format, depth + 1)
    case ObjectDoc(w, ms) =>
      && w == (if !format then [] else NewLine(if ms.NoMembers? then depth else depth + 1))
      && MembersLayout(ms, format, depth + 1)
    case _ => true
  }

  predicate ElemsLayout(es: ElemDocs, format: bool, depth: nat) {
    match es
    case NoElems => true
    case LastElem(v, after) => Layout(v, format, depth) && after == []
    case NextElem(v, after, w, rest) =>
      && Layout(v, format, depth) && after == [] && w == (if format then [0x20] else [])
      && ElemsLayout(rest, format, depth)
  }

  predicate MembersLayout(ms: MemberDocs, format: bool, depth: nat)
    requires depth > 0
  {
    match ms
    case NoMembers => true
    case LastEntry(e) =>
      && EntryLayout(e, format) && Layout(e.v, format, depth)
      && e.after == if format then NewLine(depth - 1) else []
    case NextEntry(e, w, rest) =>
      && EntryLayout(e, format) && Layout(e.v, format, depth)
      && e.after == [] && w == (if format then NewLine(depth) else [])
      && MembersLayout(rest, format, depth)
  }

  predicate EntryLayout(e: Entry, format: bool) {
    ValidName(e.key) && CanonicalName(e.key, NameMeaning(e.key))
    && e.before == [] && e.behind == if format then [0x09] else []
  }

  /** The text of a tree is a value in this layout, and means the tree. */
  lemma {:induction false} PrintedLayout(v: Value, format: bool, depth: nat) returns (d: Doc)
    requires Printable(v) && RawFree(v)
    ensures ValidDoc(d) && Uncut(d) && Meaning(d) == v
    ensures DocText(d) == Text(v, format, depth) && Layout(d, format, depth)
    decreases v, 1
  {
    hide CanonicalName, CanonicalNumeral, ValidName, NameMeaning, NameText, StringText, NumeralText, NumeralValue;
    hide Decimal, ElemsSource, ElemsText, ElemsLayout, ElemsMeaning, ValidElems, UncutElems, ValidNumber;
    match v
    case Null => d := NullDoc;
    case False => d := FalseDoc;
    case True => d := TrueDoc;
    case Number(x) =>
      var n := PrintedNumber(x);
      d := NumberDoc(n);
    case String(str) =>
      var s := PrintedName(str);
      NoCut(s, str);
      d := StringDoc(s);
    case Array(es) =>
      var docs := PrintedElems(es, format, depth + 1);
      d := ArrayDoc([], docs);
      JsonSyntax.NoWhite();
      assert [LBRACKET] + [] + ElemsSource(docs) == [LBRACKET] + ElemsText(es, format, depth + 1) + [RBRACKET];
    case Object(ms) =>
      d := PrintedObject(ms, format, depth);
  }

  lemma NoCut(s: Name, str: seq<byte>)
    requires CanonicalName(s, str)
    ensures s.cut == []
  {
  }

  lemma {:induction false} PrintedElems(es: Elems, format: bool, depth: nat) returns (docs: ElemDocs)
    requires PrintableElems(es) && RawFreeElems(es)
    ensures ValidElems(docs) && UncutElems(docs) && ElemsMeaning(docs) == es && (docs.NoElems? <==> es.NoElem?)
    ensures ElemsSource(docs) == ElemsText(es, format, depth) + [RBRACKET] && ElemsLayout(docs, format, depth)
    decreases es, 0
  {
    hide Text, DocText, Layout, Meaning, ValidDoc, Uncut, Printable, RawFree;
    if es.NoElem? {
      docs := NoElems;
      assert [] + [RBRACKET] == [RBRACKET];
    } else {
      var d := PrintedLayout(es.value, format, depth);
      var t := Text(es.value, format, depth);
      JsonSyntax.NoWhite();
      if es.next.NoElem? {
        docs := LastElem(d, []);
        assert t + [] + [RBRACKET] == t + [RBRACKET];
      } else {
        var rest := PrintedElems(es.next, format, depth);
        var w := if format then [SPACE] else [];
        BlankIsWhite();
        docs := NextElem(d, [], w, rest);
        CommaGlue(t, w, ElemsText(es.next, format, depth));
        assert Separator(format) == [COMMA] + w;
      }
    }
  }

  lemma BlankIsWhite()
    ensures JsonMeaning.White([SPACE]) && JsonMeaning.White([TAB])
  {
  }

  lemma CommaGlue(t: seq<byte>, w: seq<byte>, rest: seq<byte>)
    ensures t + [] + [COMMA] + (w + (rest + [RBRACKET])) == t + (([COMMA] + w) + rest) + [RBRACKET]
  {
  }

  lemma NewLineIsWhite(depth: nat)
    ensures JsonMeaning.White(NewLine(depth))
  {
  }

  lemma {:induction false} PrintedObject(ms: Members, format: bool, depth: nat) returns (d: Doc)
    requires PrintableMembers(ms) && RawFreeMembers(ms)
    ensures d.ObjectDoc? && ValidDoc(d) && Uncut(d) && Meaning(d) == Object(ms)
    ensures DocText(d) == Text(Object(ms), format, depth) && Layout(d, format, depth)
    decreases ms, 1
  {
    hide MembersSource, MembersText, MembersLayout, MembersMeaning, ValidMembers, UncutMembers, Tabs;
    var n := if ms.NoMember? then depth else depth + 1;
    var w := if format then NewLine(n) else [];
    NewLineIsWhite(n);
    JsonSyntax.NoWhite();
    var docs := NoMembers;
    if ms.Member? {
      docs := PrintedMembers(ms, format, depth + 1);
    } else {
      EmptyMembers(format, depth);
    }
    d := ObjectDoc(w, docs);
    BraceGlue(format, n, depth, MembersSource(docs), MembersText(ms, format, depth + 1));
  }

  lemma EmptyMembers(format: bool, depth: nat)
    ensures MembersSource(NoMembers) == [RBRACE] && MembersText(NoMember, format, depth + 1) == []
    ensures MembersMeaning(NoMembers) == NoMember && ValidMembers(NoMembers) && UncutMembers(NoMembers)
    ensures MembersLayout(NoMembers, format, depth + 1)
    ensures Indent(format, depth) + [RBRACE] == [] + Closing(format, depth)
  {
  }

  lemma BraceGlue(format: bool, n: nat, depth: nat, source: seq<byte>, text: seq<byte>)
    requires Indent(format, n) + source == text + Closing(format, depth)
    ensures [LBRACE] + (if format then NewLine(n) else []) + source == Opening(format) + text + Closing(format, depth)
  {
    hide Tabs, Closing;
    var newline := if format then [NEWLINE] else [];
    assert [LBRACE] + (if format then NewLine(n) else []) + source == [LBRACE] + newline + (Indent(format, n) + source);
    assert Opening(format) == [LBRACE] + newline;
    assert [LBRACE] + newline + (text + Closing(format, depth)) == [LBRACE] + newline + text + Closing(format, depth);
  }

  /** The members, with the indentation of the first before them and the closing brace behind them. */
  lemma {:induction false} PrintedMembers(ms: Members, format: bool, depth: nat) returns (docs: MemberDocs)
    requires PrintableMembers(ms) && RawFreeMembers(ms) && ms.Member? && depth > 0
    ensures ValidMembers(docs) && UncutMembers(docs) && MembersMeaning(docs) == ms && !docs.NoMembers?
    ensures Indent(format, depth) + MembersSource(docs) == MembersText(ms, format, depth) + Closing(format, depth - 1)
    ensures MembersLayout(docs, format, depth)
    decreases ms, 0
  {
    hide DocText, Layout, Meaning, ValidDoc, Uncut, Text, MembersText, MembersSource, MembersLayout, MembersMeaning,
         ValidMembers, UncutMembers, Closing, Indent;
    MembersUnfold(ms, format, depth);
    var d := PrintedLayout(ms.value, format, depth);
    var key := PrintedName(ms.key);
    if ms.next.NoMember? {
      docs := LastPrinted(ms, format, depth, key, d);
    } else {
      var rest := PrintedMembers(ms.next, format, depth);
      docs := NextPrinted(ms, format, depth, key, d, rest);
    }
  }

  /** The key and the value of a member, as they are printed. */
  ghost predicate MemberDoc(key: Name, d: Doc, k: seq<byte>, v: Value, format: bool, depth: nat)
    requires Printable(v)
  {
    && CanonicalName(key, k) && ValidName(key) && NameMeaning(key) == k && NameText(key) == StringText(k)
    && ValidDoc(d) && Uncut(d) && Meaning(d) == v && DocText(d) == Text(v, format, depth) && Layout(d, format, depth)
  }

  lemma LastPrinted(ms: Members, format: bool, depth: nat, key: Name, d: Doc) returns (docs: MemberDocs)
    requires PrintableMembers(ms) && ms.Member? && ms.next.NoMember? && depth > 0
    requires MemberDoc(key, d, ms.key, ms.value, format, depth)
    ensures ValidMembers(docs) && UncutMembers(docs) && MembersMeaning(docs) == ms && !docs.NoMembers?
    ensures Indent(format, depth) + MembersSource(docs) == MembersText(ms, format, depth) + Closing(format, depth - 1)
    ensures MembersLayout(docs, format, depth)
  {
    hide Text, DocText, Layout, Meaning, ValidDoc, Uncut, Indent, Closing, Colon, LineEnd, NewLine, MembersText;
    hide CanonicalName, ValidName, NameMeaning, NameText, StringText, NulFree;
    var behind := if format then [TAB] else [];
    var after := if format then NewLine(depth - 1) else [];
    JsonSyntax.NoWhite();
    BlankIsWhite();
    NewLineIsWhite(depth - 1);
    NoCut(key, ms.key);
    docs := LastEntry(Entry(key, [], behind, d, after));
    assert MembersText(ms, format, depth)
        == MemberText(ms.key, Text(ms.value, format, depth), false, format, depth) + [] by {
      MembersUnfold(ms, format, depth);
      MembersEnd(format, depth);
    }
    LastTail(format, depth, ms.key, Text(ms.value, format, depth));
  }

  lemma LastTail(format: bool, depth: nat, k: seq<byte>, t: seq<byte>)
    requires depth > 0 && NulFree(k) && NulFree(t)
    ensures var behind := if format then [TAB] else [];
            var after := if format then NewLine(depth - 1) else [];
            Indent(format, depth) + (StringText(k) + [] + [COLON] + (behind + t + after + [RBRACE]))
            == MemberText(k, t, false, format, depth) + [] + Closing(format, depth - 1)
  {
    hide Indent, Closing, Colon, LineEnd, NewLine, StringText, NulFree;
    var behind, nl := if format then [TAB] else [], if format then [NEWLINE] else [];
    FixedParts(format, depth - 1);
    LastGlue(Indent(format, depth), StringText(k), behind, t, nl, Indent(format, depth - 1));
  }

  lemma NextPrinted(ms: Members, format: bool, depth: nat, key: Name, d: Doc, rest: MemberDocs)
    returns (docs: MemberDocs)
    requires PrintableMembers(ms) && ms.Member? && ms.next.Member? && depth > 0
    requires MemberDoc(key, d, ms.key, ms.value, format, depth)
    requires ValidMembers(rest) && UncutMembers(rest) && MembersMeaning(rest) == ms.next && !rest.NoMembers?
    requires Indent(format, depth) + MembersSource(rest)
          == MembersText(ms.next, format, depth) + Closing(format, depth - 1)
    requires MembersLayout(rest, format, depth)
    ensures ValidMembers(docs) && UncutMembers(docs) && MembersMeaning(docs) == ms && !docs.NoMembers?
    ensures Indent(format, depth) + MembersSource(docs) == MembersText(ms, format, depth) + Closing(format, depth - 1)
    ensures MembersLayout(docs, format, depth)
  {
    hide Text, DocText, Layout, Meaning, ValidDoc, Uncut, Indent, Closing, Colon, LineEnd, NewLine, MembersText;
    hide CanonicalName, ValidName, NameMeaning, NameText, StringText, NulFree;
    var behind, nl := if format then [TAB] else [], if format then [NEWLINE] else [];
    var w := if format then NewLine(depth) else [];
    JsonSyntax.NoWhite();
    BlankIsWhite();
    NewLineIsWhite(depth);
    NoCut(key, ms.key);
    docs := NextEntry(Entry(key, [], behind, d, []), w, rest);
    FixedParts(format, depth);
    MembersUnfold(ms, format, depth);
    NextGlue(Indent(format, depth), StringText(ms.key), behind, Text(ms.value, format, depth), nl,
             MembersSource(rest), MembersText(ms.next, format, depth), Closing(format, depth - 1));
  }

  lemma FixedParts(format: bool, depth: nat)
    ensures Colon(format) == [COLON] + (if format then [TAB] else [])
    ensures LineEnd(format, true) == [COMMA] + (if format then [NEWLINE] else [])
    ensures LineEnd(format, false) == if format then [NEWLINE] else []
    ensures (if format then NewLine(depth) else []) == (if format then [NEWLINE] else []) + Indent(format, depth)
    ensures Closing(format, depth) == Indent(format, depth) + [RBRACE]
  {
  }

  lemma LastGlue(i: seq<byte>, k: seq<byte>, behind: seq<byte>, t: seq<byte>, nl: seq<byte>, j: seq<byte>)
    ensures i + (k + [] + [COLON] + (behind + t + (nl + j) + [RBRACE]))
         == i + k + ([COLON] + behind) + t + nl + [] + (j + [RBRACE])
  {
    var tail := j + [RBRACE];
    assert behind + t + (nl + j) + [RBRACE] == behind + t + nl + tail;
    Glue(i, k, behind, t, nl, tail);
    assert i + k + ([COLON] + behind) + t + nl + [] == i + k + ([COLON] + behind) + t + nl;
  }

  lemma Glue(i: seq<byte>, k: seq<byte>, behind: seq<byte>, t: seq<byte>, end: seq<byte>, rest: seq<byte>)
    ensures i + (k + [] + [COLON] + (behind + t + end + rest)) == i + k + ([COLON] + behind) + t + end + rest
  {
  }

  lemma NextGlue(i: seq<byte>, k: seq<byte>, behind: seq<byte>, t: seq<byte>, nl: seq<byte>,
                 source: seq<byte>, text: seq<byte>, close: seq<byte>)
    requires i + source == text + close
    ensures i + (k + [] + [COLON] + (behind + t + [] + ([COMMA] + ((nl + i) + source))))
         == i + k + ([COLON] + behind) + t + ([COMMA] + nl) + text + close
  {
    var end, rest := [COMMA] + nl, text + close;
    assert [COMMA] + ((nl + i) + source) == end + (i + source);
    assert behind + t + [] + (end + rest) == behind + t + end + rest;
    Glue(i, k, behind, t, end, rest);
    Associate(i + k + ([COLON] + behind) + t + end, text, close);
  }
}

/** How strings are written in JSON, and that the parser reads every spelling as what it spells. */
module JsonSpelling {
  import opened Bytes
  import opened JsonValue
  import opened JsonGrammar
  import opened JsonRoundTrip
  import opened JsonMeaning
  import Utf

  /** One item of a string literal: a byte as itself, a one-letter escape, a code unit, or a surrogate pair. */
  datatype Piece =
    | Itself(b: byte)
    | Short(letter: byte, b: byte)
    | Unit(digits: seq<byte>)
    | Pair(high: seq<byte>, low: seq<byte>)

  /** The one-letter escapes of section 7 of RFC 8259, with the bytes they stand for. */
  predicate Letter(letter: byte, b: byte) {
    || (letter == 0x22 && b == 0x22)  // quotation mark
    || (letter == 0x5C && b == 0x5C)  // reverse solidus
    || (letter == 0x2F && b == 0x2F)  // solidus
    || (letter == 0x62 && b == 0x08)  // b, backspace
    || (letter == 0x66 && b == 0x0C)  // f, form feed
    || (letter == 0x6E && b == 0x0A)  // n, line feed
    || (letter == 0x72 && b == 0x0D)  // r, carriage return
    || (letter == 0x74 && b == 0x09)  // t, tab
  }

  predicate FourHex(digits: seq<byte>) {
    |digits| == 4 && Utf.HexAt(digits, 0)
  }

  /** The code unit written by four digits. */
  function CodeUnit(digits: seq<byte>): (w: nat)
    requires FourHex(digits)
    ensures w <= 0xFFFF
  {
    Utf.Hex4(digits, 0)
  }

  predicate ValidPiece(x: Piece) {
    match x
    case Itself(b) => b != QUOTE && b != BACKSLASH
    case Short(letter, b) => Letter(letter, b)
    case Unit(digits) => FourHex(digits) && Utf.Utf16Decode(CodeUnit(digits), None).Some?
    case Pair(high, low) =>
      FourHex(high) && FourHex(low)
      && Utf.HighSurrogate(CodeUnit(high)) && Utf.Utf16Decode(CodeUnit(high), Some(CodeUnit(low))).Some?
  }

  predicate ValidPieces(xs: seq<Piece>) {
    forall k :: 0 <= k < |xs| ==> ValidPiece(xs[k])
  }

  const ESCAPE_U: seq<byte> := [BACKSLASH, LOWER_U]

  /** The bytes in the literal. */
  function Form(x: Piece): (t: seq<byte>)
    ensures t != []
  {
    match x
    case Itself(b) => [b]
    case Short(letter, _) => [BACKSLASH, letter]
    case Unit(digits) => ESCAPE_U + digits
    case Pair(high, low) => ESCAPE_U + high + (ESCAPE_U + low)
  }

  /** The bytes spelled: for code points, their UTF-8 form. */
  function Spelled(x: Piece): seq<byte>
    requires ValidPiece(x)
  {
    match x
    case Itself(b) => [b]
    case Short(_, b) => [b]
    case Unit(digits) => Utf.Utf8(Utf.Utf16Decode(CodeUnit(digits), None).value)
    case Pair(high, low) => Utf.Utf8(Utf.Utf16Decode(CodeUnit(high), Some(CodeUnit(low))).value)
  }

  function Forms(xs: seq<Piece>): seq<byte> {
    if xs == [] then [] else Form(xs[0]) + Forms(xs[1..])
  }

  function AllSpelled(xs: seq<Piece>): seq<byte>
    requires ValidPieces(xs)
  {
    if xs == [] then [] else Spelled(xs[0]) + AllSpelled(xs[1..])
  }

  // ---- One piece ----

  /** The first pass finds the same closing quote from both places. */
  predicate SameEnd(c: seq<byte>, p: nat, q: nat) {
    p <= |c| && q <= |c| && ScanString(c, p).Closed? == ScanString(c, q).Closed?
    && (ScanString(c, p).Closed? ==> ScanString(c, p).end == ScanString(c, q).end)
  }

  lemma SameEndPlain(c: seq<byte>, p: nat)
    requires p < |c| && c[p] != QUOTE && c[p] != BACKSLASH
    ensures SameEnd(c, p, p + 1)
  {
  }

  lemma SameEndEscape(c: seq<byte>, p: nat)
    requires p + 2 <= |c| && c[p] == BACKSLASH
    ensures SameEnd(c, p, p + 2)
  {
  }

  lemma ScanUnit(c: seq<byte>, p: nat, digits: seq<byte>)
    requires FourHex(digits) && At(c, p, ESCAPE_U + digits)
    ensures SameEnd(c, p, p + 6)
  {
    hide ScanString, SameEnd;
    var t := ESCAPE_U + digits;
    assert forall k :: 0 <= k < 6 ==> c[p + k] == c[p..p + 6][k] == t[k];
    assert c[p] == t[0] && c[p + 2] == t[2] && c[p + 3] == t[3] && c[p + 4] == t[4] && c[p + 5] == t[5];
    SameEndEscape(c, p);
    SameEndPlain(c, p + 2);
    SameEndPlain(c, p + 3);
    SameEndPlain(c, p + 4);
    SameEndPlain(c, p + 5);
    SameEndOn(c, p, p + 2, p + 3);
    SameEndOn(c, p, p + 3, p + 4);
    SameEndOn(c, p, p + 4, p + 5);
    SameEndOn(c, p, p + 5, p + 6);
  }

  lemma SameEndOn(c: seq<byte>, p: nat, q: nat, r: nat)
    requires SameEnd(c, p, q) && SameEnd(c, q, r)
    ensures SameEnd(c, p, r)
  {
  }

  lemma ScanPiece(c: seq<byte>, p: nat, x: Piece)
    requires ValidPiece(x) && At(c, p, Form(x))
    ensures SameEnd(c, p, p + |Form(x)|)
  {
    hide ScanString, At, Utf.HexAt, CodeUnit, Utf.Utf16Decode, Letter, SameEnd;
    Lead(c, p, Form(x));
    match x
    case Itself(b) =>
      AtByte(c, p, b);
      SameEndPlain(c, p);
    case Short(letter, b) =>
      assert Form(x) == [BACKSLASH] + [letter];
      AtSplit(c, p, [BACKSLASH], [letter]);
      AtByte(c, p + 1, letter);
      SameEndEscape(c, p);
    case Unit(digits) => ScanUnit(c, p, digits);
    case Pair(high, low) =>
      AtSplit(c, p, ESCAPE_U + high, ESCAPE_U + low);
      ScanUnit(c, p, high);
      ScanUnit(c, p + 6, low);
      SameEndOn(c, p, p + 6, p + 12);
  }

  lemma UnitStands(c: seq<byte>, p: nat, digits: seq<byte>)
    requires FourHex(digits) && At(c, p, ESCAPE_U + digits)
    ensures Utf.EscapeU(c, p) && p + 6 <= |c| && Utf.HexAt(c, p + 2) && Utf.Hex4(c, p + 2) == CodeUnit(digits)
  {
    hide Utf.Hex4, Utf.IsHex;
    var t := ESCAPE_U + digits;
    assert forall k :: 0 <= k < 6 ==> c[p + k] == c[p..p + 6][k] == t[k];
    assert c[p] == t[0] && c[p + 1] == t[1];
    assert c[p + 2] == t[2] == digits[0] && c[p + 3] == t[3] == digits[1];
    assert c[p + 4] == t[4] == digits[2] && c[p + 5] == t[5] == digits[3];
    HexMoved(digits, 0, c, p + 2);
  }

  /** The second pass writes what the piece spells. */
  lemma StepPiece(c: seq<byte>, p: nat, end: nat, x: Piece)
    requires ValidPiece(x) && At(c, p, Form(x)) && p + |Form(x)| <= end < |c|
    ensures UnescapeStep(c, p, end) == Wrote(Spelled(x), |Form(x)|)
  {
    hide At, Utf.Hex4, Utf.Utf8;
    Lead(c, p, Form(x));
    match x
    case Itself(b) => AtByte(c, p, b);
    case Short(letter, b) =>
      assert Form(x) == [BACKSLASH] + [letter];
      AtSplit(c, p, [BACKSLASH], [letter]);
      AtByte(c, p + 1, letter);
    case Unit(digits) => UnitStands(c, p, digits);
    case Pair(high, low) =>
      AtSplit(c, p, ESCAPE_U + high, ESCAPE_U + low);
      UnitStands(c, p, high);
      UnitStands(c, p + 6, low);
  }

  // ---- Every spelling is read ----

  lemma {:induction false} ScanForms(c: seq<byte>, p: nat, xs: seq<Piece>)
    requires ValidPieces(xs) && At(c, p, Forms(xs))
    ensures SameEnd(c, p, p + |Forms(xs)|)
    decreases |xs|
  {
    hide ScanString, At, Form, ValidPiece;
    if xs != [] {
      AtSplit(c, p, Form(xs[0]), Forms(xs[1..]));
      ScanPiece(c, p, xs[0]);
      ScanForms(c, p + |Form(xs[0])|, xs[1..]);
    } else {
      AtBounds(c, p, []);
    }
  }

  lemma AtBounds(c: seq<byte>, p: nat, t: seq<byte>)
    requires At(c, p, t)
    ensures p + |t| <= |c|
  {
  }

  lemma {:induction false} UnescapeForms(c: seq<byte>, p: nat, xs: seq<Piece>)
    requires ValidPieces(xs) && At(c, p, Forms(xs)) && p + |Forms(xs)| < |c|
    ensures var end := p + |Forms(xs)|; Unescape(c, p, end) == Ok(AllSpelled(xs), end + 1)
    decreases |xs|
  {
    hide UnescapeStep, At, Form, Spelled, ValidPiece;
    if xs != [] {
      AtSplit(c, p, Form(xs[0]), Forms(xs[1..]));
      StepPiece(c, p, p + |Forms(xs)|, xs[0]);
      UnescapeForms(c, p + |Form(xs[0])|, xs[1..]);
    }
  }

  /** The literal with these pieces. */
  function Literal(xs: seq<Piece>): seq<byte> {
    [QUOTE] + Forms(xs) + [QUOTE]
  }

  /** Wherever a literal stands, it is read as the bytes that its pieces spell, up to a zero byte among them. */
  lemma SpellingRead(xs: seq<Piece>)
    requires ValidPieces(xs)
    ensures ReadsString(Literal(xs), CString(AllSpelled(xs)))
  {
    hide Forms, AllSpelled, CString, ValidPieces, ScanString, Unescape;
    var m := Literal(xs);
    forall d: seq<byte>, q: nat | Terminated(d) && At(d, q, m)
      ensures ReadString(d, q) == Ok(CString(AllSpelled(xs)), q + |m|)
    {
      SpellingAt(d, q, xs);
    }
  }

  lemma SpellingAt(d: seq<byte>, q: nat, xs: seq<Piece>)
    requires ValidPieces(xs) && Terminated(d) && At(d, q, Literal(xs))
    ensures q < |d| && ReadString(d, q) == Ok(CString(AllSpelled(xs)), q + |Literal(xs)|)
  {
    hide Forms, AllSpelled, CString, ValidPieces, Unescape, At;
    assert Literal(xs) == [QUOTE] + (Forms(xs) + [QUOTE]);
    AtSplit(d, q, [QUOTE], Forms(xs) + [QUOTE]);
    AtByte(d, q, QUOTE);
    AtSplit(d, q + 1, Forms(xs), [QUOTE]);
    var end := q + 1 + |Forms(xs)|;
    AtByte(d, end, QUOTE);
    ScanForms(d, q + 1, xs);
    UnescapeForms(d, q + 1, xs);
  }

  // ---- What is read is a spelling ----

  /**
   * A `\u` without four hexadecimal digits behind it. It is taken for a zero, so the string ends there, whatever
   * follows in the literal.
   */
  predicate Cut(t: seq<byte>) {
    |t| >= 6 && t[0] == BACKSLASH && t[1] == LOWER_U && !Utf.HexAt(t, 2)
  }

  lemma {:induction false} CStringOver(x: seq<byte>, y: seq<byte>)
    ensures CString(x + y) == if NulFree(x) then x + CString(y) else CString(x)
  {
    hide NulFree;
    NulFreeHead(x);
    if x == [] {
      assert x + y == y && x + CString(y) == CString(y);
    } else {
      assert (x + y)[0] == x[0];
      if x[0] != NUL {
        assert (x + y)[1..] == x[1..] + y;
        CStringOver(x[1..], y);
        Associate([x[0]], x[1..], CString(y));
        assert x == [x[0]] + x[1..];
      }
    }
  }

  lemma NulFreeHead(x: seq<byte>)
    ensures NulFree(x) <==> x == [] || (x[0] != NUL && NulFree(x[1..]))
  {
    if x != [] {
      assert x == [x[0]] + x[1..];
    }
  }

  /** The piece at which the second pass stands. */
  lemma PieceAt(c: seq<byte>, p: nat, end: nat) returns (x: Piece)
    requires p < end < |c| && ScanString(c, p).Closed? && ScanString(c, p).end == end
    requires UnescapeStep(c, p, end).Wrote? && !(p + 6 <= end && Cut(c[p..end]))
    ensures ValidPiece(x) && At(c, p, Form(x)) && p + |Form(x)| <= end
    ensures UnescapeStep(c, p, end) == Wrote(Spelled(x), |Form(x)|)
  {
    hide Utf.Utf8, Utf.Hex4;
    if c[p] != BACKSLASH {
      x := Itself(c[p]);
      AtByte(c, p, c[p]);
    } else if c[p + 1] == LOWER_U {
      x := UnitAt(c, p, end);
    } else {
      x := Short(c[p + 1], UnescapeStep(c, p, end).bytes[0]);
      assert c[p..p + 2] == [BACKSLASH, c[p + 1]];
    }
  }

  lemma UnitAt(c: seq<byte>, p: nat, end: nat) returns (x: Piece)
    requires p < end < |c| && c[p] == BACKSLASH && c[p + 1] == LOWER_U
    requires UnescapeStep(c, p, end).Wrote? && !(p + 6 <= end && Cut(c[p..end]))
    ensures ValidPiece(x) && At(c, p, Form(x)) && p + |Form(x)| <= end
    ensures UnescapeStep(c, p, end) == Wrote(Spelled(x), |Form(x)|)
  {
    hide Utf.Utf8, Utf.Hex4, Utf.HexAt, At, FourHex;
    NotCut(c, p, end);
    var digits := c[p + 2..p + 6];
    DigitsThere(c, p + 2, digits);
    UnitSlice(c, p, digits);
    if UnescapeStep(c, p, end).length == 6 {
      x := Unit(digits);
    } else {
      var low := c[p + 8..p + 12];
      SurrogateHex(c, p + 8);
      DigitsThere(c, p + 8, low);
      x := Pair(digits, low);
      UnitSlice(c, p + 6, low);
      AtSplit(c, p, ESCAPE_U + digits, ESCAPE_U + low);
    }
  }

  lemma NotCut(c: seq<byte>, p: nat, end: nat)
    requires p + 6 <= end <= |c| && c[p] == BACKSLASH && c[p + 1] == LOWER_U && !Cut(c[p..end])
    ensures Utf.HexAt(c, p + 2)
  {
    assert forall k :: 0 <= k < 6 ==> c[p..end][k] == c[p + k];
  }

  lemma UnitSlice(c: seq<byte>, p: nat, digits: seq<byte>)
    requires p + 6 <= |c| && c[p] == BACKSLASH && c[p + 1] == LOWER_U && digits == c[p + 2..p + 6]
    ensures At(c, p, ESCAPE_U + digits)
  {
    assert c[p..p + 6] == [c[p], c[p + 1]] + c[p + 2..p + 6];
  }

  lemma DigitsThere(c: seq<byte>, p: nat, digits: seq<byte>)
    requires Utf.HexAt(c, p) && digits == c[p..p + 4]
    ensures FourHex(digits) && CodeUnit(digits) == Utf.Hex4(c, p)
  {
    hide Utf.Hex4;
    HexMoved(c, p, digits, 0);
  }

  lemma SurrogateHex(c: seq<byte>, p: nat)
    requires p + 4 <= |c| && Utf.LowSurrogate(Utf.Hex4(c, p))
    ensures Utf.HexAt(c, p)
  {
  }

  lemma {:induction false} PiecesOf(c: seq<byte>, p: nat, end: nat) returns (xs: seq<Piece>, tail: seq<byte>)
    requires p <= end < |c| && ScanString(c, p).Closed? && ScanString(c, p).end == end && Unescape(c, p, end).Ok?
    ensures ValidPieces(xs) && (tail == [] || Cut(tail)) && c[p..end] == Forms(xs) + tail
    ensures CString(Unescape(c, p, end).value) == CString(AllSpelled(xs))
    decreases end - p
  {
    hide UnescapeStep, Form, Spelled, ValidPiece, ScanString, CString, At;
    if p == end {
      xs, tail := [], [];
    } else if p + 6 <= end && Cut(c[p..end]) {
      xs, tail := [], c[p..end];
      CutStep(c, p, end);
      var rest := Unescape(c, p + 6, end).value;
      CStringOver([NUL], rest);
      CStringOver([NUL], []);
      assert [NUL] + [] == [NUL];
      EmptyCString();
    } else {
      var x := PieceAt(c, p, end);
      ScanPiece(c, p, x);
      var q := p + |Form(x)|;
      var ys;
      ys, tail := PiecesOf(c, q, end);
      xs := [x] + ys;
      assert xs[1..] == ys;
      var rest := Unescape(c, q, end).value;
      CStringOver(Spelled(x), rest);
      CStringOver(Spelled(x), AllSpelled(ys));
      FormSlice(c, p, q, end, Form(x), Forms(ys), tail);
    }
  }

  lemma EmptyCString()
    ensures CString([NUL]) == [] == CString([])
  {
  }

  lemma FormSlice(c: seq<byte>, p: nat, q: nat, end: nat, form: seq<byte>, forms: seq<byte>, tail: seq<byte>)
    requires p <= q <= end <= |c| && q == p + |form| && At(c, p, form) && c[q..end] == forms + tail
    ensures c[p..end] == form + forms + tail
  {
    assert c[p..end] == c[p..q] + c[q..end];
  }

  lemma CutStep(c: seq<byte>, p: nat, end: nat)
    requires p + 6 <= end < |c| && Cut(c[p..end])
    ensures UnescapeStep(c, p, end) == Wrote([NUL], 6)
  {
    var t := c[p..end];
    assert forall k :: 0 <= k < 6 ==> t[k] == c[p + k];
    assert !Utf.HexAt(c, p + 2);
  }

  /** Every accepted literal is made of such pieces, up to a wrong `\u` if there is one, and means what they spell. */
  lemma AcceptedSpelling(c: seq<byte>, i: nat) returns (xs: seq<Piece>, tail: seq<byte>)
    requires Terminated(c) && i < |c| && ReadString(c, i).Ok?
    ensures ValidPieces(xs) && (tail == [] || Cut(tail))
    ensures ReadString(c, i).next <= |c| && c[i..ReadString(c, i).next] == [QUOTE] + Forms(xs) + tail + [QUOTE]
    ensures ReadString(c, i).value == CString(AllSpelled(xs))
  {
    hide Unescape, CString, Forms, AllSpelled, ValidPieces, Cut;
    var end := ScanString(c, i + 1).end;
    xs, tail := PiecesOf(c, i + 1, end);
    LiteralSlice(c, i, end, Forms(xs), tail);
  }

  lemma LiteralSlice(c: seq<byte>, i: nat, end: nat, forms: seq<byte>, tail: seq<byte>)
    requires i < end < |c| && c[i] == QUOTE == c[end] && c[i + 1..end] == forms + tail
    ensures c[i..end + 1] == [QUOTE] + forms + tail + [QUOTE]
  {
    assert c[i..end + 1] == [c[i]] + c[i + 1..end] + [c[end]];
  }
}

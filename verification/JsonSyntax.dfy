/**
 * The texts that the parser accepts, as a grammar with a meaning: what follows it is accepted and means that, and
 * what is accepted follows it, apart from what may stand behind a wrong `\u` in a string.
 */
module JsonSyntax {
  import opened Bytes
  import opened JsonValue
  import opened JsonGrammar
  import opened JsonRoundTrip
  import opened JsonMeaning
  import opened JsonSpelling
  import opened JsonNumerals
  import JsonMinify
  import JsonText

  /**
   * A string as it is written. Behind a wrong `\u` anything may follow up to the closing quote; it does not
   * count.
   */
  datatype Name = Name(pieces: seq<Piece>, cut: seq<byte>)

  /** A value as it is written, with all the white space. */
  datatype Doc =
    | NullDoc
    | FalseDoc
    | TrueDoc
    | NumberDoc(n: Numeral)
    | StringDoc(s: Name)
    | ArrayDoc(w: seq<byte>, elems: ElemDocs)
    | ObjectDoc(w: seq<byte>, members: MemberDocs)

  /** Elements up to the closing bracket; each one with the white space behind it, and behind the comma. */
  datatype ElemDocs =
    | NoElems
    | LastElem(v: Doc, after: seq<byte>)
    | NextElem(v: Doc, after: seq<byte>, w: seq<byte>, rest: ElemDocs)

  /** A key with the white space around the colon, its value, and the white space behind it. */
  datatype Entry = Entry(key: Name, before: seq<byte>, behind: seq<byte>, v: Doc, after: seq<byte>)

  datatype MemberDocs =
    | NoMembers
    | LastEntry(e: Entry)
    | NextEntry(e: Entry, w: seq<byte>, rest: MemberDocs)

  // ---- What is written ----

  function NameText(s: Name): seq<byte> {
    [QUOTE] + Forms(s.pieces) + s.cut + [QUOTE]
  }

  function DocText(d: Doc): seq<byte> {
    match d
    case NullDoc => NULL_TEXT
    case FalseDoc => FALSE_TEXT
    case TrueDoc => TRUE_TEXT
    case NumberDoc(n) => NumeralText(n)
    case StringDoc(s) => NameText(s)
    case ArrayDoc(w, es) => [LBRACKET] + w + ElemsSource(es)
    case ObjectDoc(w, ms) => [LBRACE] + w + MembersSource(ms)
  }

  function ElemsSource(es: ElemDocs): seq<byte> {
    match es
    case NoElems => [RBRACKET]
    case LastElem(v, after) => DocText(v) + after + [RBRACKET]
    case NextElem(v, after, w, rest) => DocText(v) + after + [COMMA] + (w + ElemsSource(rest))
  }

  /** The key up to the colon. */
  function KeyText(e: Entry): seq<byte> {
    NameText(e.key) + e.before + [COLON]
  }

  function MembersSource(ms: MemberDocs): seq<byte> {
    match ms
    case NoMembers => [RBRACE]
    case LastEntry(e) => KeyText(e) + (e.behind + DocText(e.v) + e.after + [RBRACE])
    case NextEntry(e, w, rest) =>
      KeyText(e) + (e.behind + DocText(e.v) + e.after + ([COMMA] + (w + MembersSource(rest))))
  }

  // ---- What is meant ----

  predicate ValidName(s: Name) {
    ValidPieces(s.pieces) && (s.cut == [] || Cut(s.cut))
  }

  predicate ValidDoc(d: Doc) {
    match d
    case NumberDoc(n) => ValidNumber(n)
    case StringDoc(s) => ValidName(s)
    case ArrayDoc(w, es) => White(w) && ValidElems(es)
    case ObjectDoc(w, ms) => White(w) && ValidMembers(ms)
    case _ => true
  }

  /** A comma is always followed by another element. */
  predicate ValidElems(es: ElemDocs) {
    match es
    case NoElems => true
    case LastElem(v, after) => ValidDoc(v) && White(after)
    case NextElem(v, after, w, rest) => ValidDoc(v) && White(after) && White(w) && ValidElems(rest) && !rest.NoElems?
  }

  predicate ValidMembers(ms: MemberDocs) {
    match ms
    case NoMembers => true
    case LastEntry(e) =>
      ValidName(e.key) && White(e.before) && White(e.behind) && ValidDoc(e.v) && White(e.after)
    case NextEntry(e, w, rest) =>
      ValidName(e.key) && White(e.before) && White(e.behind) && ValidDoc(e.v) && White(e.after)
      && White(w) && ValidMembers(rest) && !rest.NoMembers?
  }

  function NameMeaning(s: Name): seq<byte>
    requires ValidName(s)
  {
    CString(AllSpelled(s.pieces))
  }

  function Meaning(d: Doc): Value
    requires ValidDoc(d)
  {
    match d
    case NullDoc => Null
    case FalseDoc => False
    case TrueDoc => True
    case NumberDoc(n) => Number(NumeralValue(n))
    case StringDoc(s) => String(NameMeaning(s))
    case ArrayDoc(_, es) => Array(ElemsMeaning(es))
    case ObjectDoc(_, ms) => Object(MembersMeaning(ms))
  }

  function ElemsMeaning(es: ElemDocs): Elems
    requires ValidElems(es)
  {
    match es
    case NoElems => NoElem
    case LastElem(v, _) => Elem(Meaning(v), NoElem)
    case NextElem(v, _, _, rest) => Elem(Meaning(v), ElemsMeaning(rest))
  }

  function MembersMeaning(ms: MemberDocs): Members
    requires ValidMembers(ms)
  {
    match ms
    case NoMembers => NoMember
    case LastEntry(e) => Member(NameMeaning(e.key), Meaning(e.v), NoMember)
    case NextEntry(e, _, rest) => Member(NameMeaning(e.key), Meaning(e.v), MembersMeaning(rest))
  }

  // ---- Every such text is accepted ----

  /** No string is cut. */
  predicate Uncut(d: Doc) {
    match d
    case StringDoc(s) => s.cut == []
    case ArrayDoc(_, es) => UncutElems(es)
    case ObjectDoc(_, ms) => UncutMembers(ms)
    case _ => true
  }

  predicate UncutElems(es: ElemDocs) {
    match es
    case NoElems => true
    case LastElem(v, _) => Uncut(v)
    case NextElem(v, _, _, rest) => Uncut(v) && UncutElems(rest)
  }

  predicate UncutMembers(ms: MemberDocs) {
    match ms
    case NoMembers => true
    case LastEntry(e) => e.key.cut == [] && Uncut(e.v)
    case NextEntry(e, _, rest) => e.key.cut == [] && Uncut(e.v) && UncutMembers(rest)
  }

  lemma NameRead(s: Name)
    requires ValidName(s) && s.cut == []
    ensures ReadsString(NameText(s), NameMeaning(s)) && NameText(s) != [] && NameText(s)[0] == QUOTE
  {
    hide Forms, AllSpelled, ReadsString, CString;
    SpellingRead(s.pieces);
    assert [QUOTE] + Forms(s.pieces) + [] + [QUOTE] == Literal(s.pieces);
  }

  lemma WordRead(t: seq<byte>, v: Value, depth: nat)
    requires (t == NULL_TEXT && v == Null) || (t == FALSE_TEXT && v == False) || (t == TRUE_TEXT && v == True)
    ensures ReadsValue(t, v, depth)
  {
    hide ReadsValue, JsonMinify.Minified, Becomes;
    assert At(t + [NUL], 0, t);
    LiteralBecomes(t, 0, t, v, depth);
  }

  /** A value in any layout is read as what it means, wherever it stands, within the nesting limit. */
  lemma {:induction false} DocRead(d: Doc, depth: nat)
    requires ValidDoc(d) && Uncut(d) && depth + Nesting(Meaning(d)) <= NESTING_LIMIT
    ensures ReadsValue(DocText(d), Meaning(d), depth) && DocText(d) != [] && DocText(d)[0] > 32
    decreases d, 1
  {
    hide ReadsValue, ReadsString, ReadsElems, ReadsMembers, NumeralText, NumeralValue, NameText, NameMeaning, White,
         ElemsSource, MembersSource, ElemsMeaning, MembersMeaning, NestingElems, NestingMembers;
    match d
    case NullDoc => WordRead(NULL_TEXT, Null, depth);
    case FalseDoc => WordRead(FALSE_TEXT, False, depth);
    case TrueDoc => WordRead(TRUE_TEXT, True, depth);
    case NumberDoc(n) => NumeralRead(n, depth);
    case StringDoc(s) =>
      NameRead(s);
      StringValue(NameText(s), NameMeaning(s), depth);
    case ArrayDoc(w, es) =>
      if es.NoElems? {
        JsonMeaning.EmptyArray(w, depth);
        NoElemsMean(es);
      } else {
        NoWhite();
        ElemsRead([], es, depth + 1);
        assert [] + ElemsSource(es) == ElemsSource(es);
        JsonMeaning.FullArray(w, ElemsSource(es), ElemsMeaning(es), depth);
      }
    case ObjectDoc(w, ms) =>
      if ms.NoMembers? {
        JsonMeaning.EmptyObject(w, depth);
        NoMembersMean(ms);
      } else {
        NoWhite();
        MembersRead([], ms, depth + 1);
        assert [] + MembersSource(ms) == MembersSource(ms);
        JsonMeaning.FullObject(w, MembersSource(ms), MembersMeaning(ms), depth);
      }
  }

  lemma NoElemsMean(es: ElemDocs)
    requires es.NoElems?
    ensures ElemsSource(es) == [RBRACKET] && ElemsMeaning(es) == NoElem
  {
  }

  lemma NoMembersMean(ms: MemberDocs)
    requires ms.NoMembers?
    ensures MembersSource(ms) == [RBRACE] && MembersMeaning(ms) == NoMember
  {
  }

  lemma {:induction false} ElemsRead(w: seq<byte>, es: ElemDocs, depth: nat)
    requires White(w) && ValidElems(es) && UncutElems(es) && !es.NoElems?
    requires depth + NestingElems(ElemsMeaning(es)) <= NESTING_LIMIT
    ensures ReadsElems(w + ElemsSource(es), ElemsMeaning(es), depth)
    ensures ElemsSource(es) != [] && ElemsSource(es)[0] > 32 && ElemsSource(es)[0] != RBRACKET
    decreases es, 0
  {
    hide ReadsValue, ReadsElems, White, DocText, Meaning, Nesting;
    var v, mv := es.v, DocText(es.v);
    DocRead(v, depth);
    NotClosing(v);
    if es.LastElem? {
      JsonMeaning.LastElem(w, mv, es.after, Meaning(v), depth);
      assert w + (mv + es.after + [RBRACKET]) == w + mv + es.after + [RBRACKET];
    } else {
      ElemsRead(es.w, es.rest, depth);
      var rest := es.w + ElemsSource(es.rest);
      MoreElems(w, mv, es.after, rest, Meaning(v), ElemsMeaning(es.rest), depth);
      assert w + (mv + es.after + [COMMA] + rest) == w + mv + es.after + [COMMA] + rest;
    }
  }

  lemma NotClosing(d: Doc)
    requires ValidDoc(d)
    ensures DocText(d) != [] && DocText(d)[0] != RBRACKET && DocText(d)[0] != RBRACE
  {
    if d.NumberDoc? {
      FirstOfNumeral(d.n, NumeralText(d.n));
    }
  }

  lemma {:induction false} MembersRead(w: seq<byte>, ms: MemberDocs, depth: nat)
    requires White(w) && ValidMembers(ms) && UncutMembers(ms) && !ms.NoMembers?
    requires depth + NestingMembers(MembersMeaning(ms)) <= NESTING_LIMIT
    ensures ReadsMembers(w + MembersSource(ms), MembersMeaning(ms), depth)
    ensures MembersSource(ms) != [] && MembersSource(ms)[0] == QUOTE
    decreases ms, 0
  {
    hide ReadsValue, ReadsString, ReadsMembers, White, DocText, Meaning, Nesting, NameText, NameMeaning;
    var e := ms.e;
    var mk, mv, key, v := NameText(e.key), DocText(e.v), NameMeaning(e.key), Meaning(e.v);
    NameRead(e.key);
    DocRead(e.v, depth);
    if ms.LastEntry? {
      LastMember(w, mk, e.before, e.behind, mv, e.after, key, v, depth);
      KeyFirst(w, mk, e.before, e.behind + mv + e.after + [RBRACE]);
    } else {
      MembersRead(ms.w, ms.rest, depth);
      var rest := ms.w + MembersSource(ms.rest);
      MoreMembers(w, mk, e.before, e.behind, mv, e.after, rest, key, v, MembersMeaning(ms.rest), depth);
      KeyFirst(w, mk, e.before, e.behind + mv + e.after + ([COMMA] + rest));
    }
  }

  lemma KeyFirst(w: seq<byte>, mk: seq<byte>, before: seq<byte>, tail: seq<byte>)
    requires mk != []
    ensures w + (mk + before + [COLON] + tail) == w + mk + before + [COLON] + tail
    ensures (mk + before + [COLON] + tail)[0] == mk[0]
  {
  }

  /** A text with nothing but white space around a value is parsed to what the value means. */
  lemma Accepts(w: seq<byte>, d: Doc, w': seq<byte>)
    requires White(w) && White(w') && ValidDoc(d) && Uncut(d) && Nesting(Meaning(d)) <= NESTING_LIMIT
    ensures Parse(w + DocText(d) + w', true) == Ok(Meaning(d), |w + DocText(d) + w'|)
  {
    hide ReadsValue, White, DocText, Meaning, Parse;
    DocRead(d, 0);
    Reparsed(w, DocText(d), w', Meaning(d));
  }

  lemma NoWhite()
    ensures White([])
  {
  }

  /** What follows a value does not matter to a parse that is not strict, as long as it does not go on a number. */
  lemma AcceptsBefore(w: seq<byte>, d: Doc, rest: seq<byte>)
    requires White(w) && ValidDoc(d) && Uncut(d) && Nesting(Meaning(d)) <= NESTING_LIMIT
    requires rest != [] ==> !IsNumberByte(rest[0])
    ensures Parse(w + DocText(d) + rest, false) == Ok(Meaning(d), |w + DocText(d)|)
  {
    hide ReadsValue, DocText, Meaning, At, ReadValue, SkipSpace;
    DocRead(d, 0);
    var t := DocText(d);
    var c := w + t + rest + [NUL];
    assert c == w + (t + (rest + [NUL]));
    WholeAt(c);
    WhiteAt(c, 0, w, t + (rest + [NUL]));
    AtSplit(c, |w|, t, rest + [NUL]);
    assert Delimited(c, |w| + |t|);
    UseValue(t, Meaning(d), 0, c, |w|);
  }

  // ---- What is accepted is such a text ----

  /** The white space that was skipped. */
  lemma {:induction false} Skipped(c: seq<byte>, p: nat)
    requires p < |c|
    ensures var j := SkipSpace(c, p);
            p <= j < |c| && White(c[p..j]) && (c[j] > 32 || j == |c| - 1)
    decreases |c| - p
  {
    var j := SkipSpace(c, p);
    if c[p] <= 32 && p + 1 < |c| {
      Skipped(c, p + 1);
      assert c[p..j] == [c[p]] + c[p + 1..j];
    } else if c[p] <= 32 {
      assert SkipSpace(c, p + 1) == p;
    }
  }

  lemma NameOf(c: seq<byte>, i: nat) returns (s: Name)
    requires Terminated(c) && i < |c| && ReadString(c, i).Ok?
    ensures ValidName(s) && NameMeaning(s) == ReadString(c, i).value
    ensures At(c, i, NameText(s)) && ReadString(c, i).next == i + |NameText(s)|
  {
    hide ReadString, CString, AllSpelled, Forms, ValidPieces, Cut;
    var xs, tail := AcceptedSpelling(c, i);
    s := Name(xs, tail);
    var next := ReadString(c, i).next;
    assert |c[i..next]| == next - i;
  }

  /** The text between two places. */
  lemma Between(c: seq<byte>, p: nat, q: nat)
    requires p <= q <= |c|
    ensures At(c, p, c[p..q])
  {
  }

  /** Whatever is read as a value is a value in some layout, and means what was read. */
  lemma {:induction false} DocOf(c: seq<byte>, i: nat, depth: nat) returns (d: Doc)
    requires Terminated(c) && i < |c| && depth <= NESTING_LIMIT && ReadValue(c, i, depth).Ok?
    ensures ValidDoc(d) && Meaning(d) == ReadValue(c, i, depth).value
    ensures At(c, i, DocText(d)) && ReadValue(c, i, depth).next == i + |DocText(d)|
    ensures depth + Nesting(Meaning(d)) <= NESTING_LIMIT
    decreases |c| - i, 1
  {
    hide ReadString, ReadNumber, ReadArray, ReadObject, At, NumeralText, NumeralValue, NameText, NameMeaning,
         ElemsSource, MembersSource, ElemsMeaning, MembersMeaning, ValidElems, ValidMembers;
    if At(c, i, NULL_TEXT) {
      d := NullDoc;
    } else if At(c, i, FALSE_TEXT) {
      d := FalseDoc;
    } else if At(c, i, TRUE_TEXT) {
      d := TrueDoc;
    } else if c[i] == QUOTE {
      var s := NameOf(c, i);
      d := StringDoc(s);
    } else if c[i] == MINUS || JsonText.IsDigit(c[i]) {
      var n := AcceptedNumeral(c, i);
      d := NumberDoc(n);
    } else if c[i] == LBRACKET {
      d := ArrayOf(c, i, depth);
    } else {
      d := ObjectOf(c, i, depth);
    }
  }

  lemma {:induction false} ArrayOf(c: seq<byte>, i: nat, depth: nat) returns (d: Doc)
    requires Terminated(c) && i < |c| && c[i] == LBRACKET && depth <= NESTING_LIMIT && ReadArray(c, i, depth).Ok?
    ensures d.ArrayDoc? && ValidDoc(d) && Meaning(d) == ReadArray(c, i, depth).value
    ensures At(c, i, DocText(d)) && ReadArray(c, i, depth).next == i + |DocText(d)|
    ensures depth + Nesting(Meaning(d)) <= NESTING_LIMIT
    decreases |c| - i, 0
  {
    hide At, ReadElems, SkipSpace, White, ElemsSource, ElemsMeaning, ValidElems;
    var j := SkipSpace(c, i + 1);
    OpenerInside(c, i);
    Skipped(c, i + 1);
    var w := c[i + 1..j];
    var es;
    if c[j] == RBRACKET {
      es := NoElems;
      NoElemsMean(es);
      NoElemsValid(es);
      AtByte(c, j, RBRACKET);
    } else {
      SpaceTwice(c, i + 1, depth + 1);
      es := ElemsOf(c, j, depth + 1);
    }
    d := ArrayDoc(w, es);
    Container(c, i, j, LBRACKET, ElemsSource(es));
  }

  lemma NoElemsValid(es: ElemDocs)
    requires es.NoElems?
    ensures ValidElems(es)
  {
  }

  lemma NoMembersValid(ms: MemberDocs)
    requires ms.NoMembers?
    ensures ValidMembers(ms)
  {
  }

  lemma OpenerInside(c: seq<byte>, i: nat)
    requires Terminated(c) && i < |c| && c[i] != NUL
    ensures i + 1 < |c|
  {
  }

  lemma Container(c: seq<byte>, i: nat, j: nat, open: byte, rest: seq<byte>)
    requires i + 1 <= j <= |c| && c[i] == open && At(c, j, rest)
    ensures At(c, i, [open] + c[i + 1..j] + rest)
  {
    hide At;
    AtByte(c, i, open);
    Between(c, i + 1, j);
    AtSplit(c, i, [open], c[i + 1..j]);
    AtSplit(c, i, [open] + c[i + 1..j], rest);
  }

  /** The elements from a place on where no white space stands. */
  lemma {:induction false} ElemsOf(c: seq<byte>, p: nat, depth: nat) returns (es: ElemDocs)
    requires Terminated(c) && p < |c| && SkipSpace(c, p) == p && depth <= NESTING_LIMIT && ReadElems(c, p, depth).Ok?
    ensures ValidElems(es) && !es.NoElems? && ElemsMeaning(es) == ReadElems(c, p, depth).value
    ensures At(c, p, ElemsSource(es)) && ReadElems(c, p, depth).next == p + |ElemsSource(es)|
    ensures depth + NestingElems(ElemsMeaning(es)) <= NESTING_LIMIT
    decreases |c| - p, 2
  {
    hide At, ReadValue, SkipSpace, White, DocText, Meaning, ValidDoc, Nesting;
    var v := DocOf(c, p, depth);
    var n := p + |DocText(v)|;
    var k := SkipSpace(c, n);
    var after := c[n..k];
    ElemStands(c, p, DocText(v), n, k);
    if c[k] == COMMA {
      var j := SkipSpace(c, k + 1);
      OpenerInside(c, k);
      Skipped(c, k + 1);
      SpaceTwice(c, k + 1, depth);
      var rest := ElemsOf(c, j, depth);
      es := NextElem(v, after, c[k + 1..j], rest);
      RestStands(c, p, DocText(v) + after + [COMMA], k + 1, j, ElemsSource(rest));
    } else {
      es := LastElem(v, after);
    }
  }

  /** A value, the white space behind it, and the byte that follows. */
  lemma ElemStands(c: seq<byte>, p: nat, t: seq<byte>, n: nat, k: nat)
    requires At(c, p, t) && n == p + |t| && n < |c| && k == SkipSpace(c, n)
    ensures n <= k < |c| && White(c[n..k]) && At(c, p, t + c[n..k] + [c[k]])
  {
    hide At, SkipSpace, White;
    Skipped(c, n);
    Between(c, n, k);
    AtByte(c, k, c[k]);
    AtSplit(c, p, t, c[n..k]);
    AtSplit(c, p, t + c[n..k], [c[k]]);
  }

  lemma RestStands(c: seq<byte>, p: nat, first: seq<byte>, q: nat, j: nat, rest: seq<byte>)
    requires At(c, p, first) && q == p + |first| && q <= j <= |c| && At(c, j, rest)
    ensures At(c, p, first + (c[q..j] + rest))
  {
    hide At;
    Between(c, q, j);
    AtSplit(c, q, c[q..j], rest);
    AtSplit(c, p, first, c[q..j] + rest);
  }

  /** Reading elements or members starts by skipping white space. */
  lemma SpaceTwice(c: seq<byte>, p: nat, depth: nat)
    requires Terminated(c) && p < |c|
    ensures var j := SkipSpace(c, p);
            && j < |c| && SkipSpace(c, j) == j && ReadElems(c, p, depth) == ReadElems(c, j, depth)
            && ReadMembers(c, p, depth) == ReadMembers(c, j, depth)
  {
    hide ReadValue, ReadElemsTail, ReadMembersTail, ReadString;
    Skipped(c, p);
    var j := SkipSpace(c, p);
    if c[j] <= 32 {
      assert SkipSpace(c, j + 1) == j;
    }
  }

  lemma {:induction false} ObjectOf(c: seq<byte>, i: nat, depth: nat) returns (d: Doc)
    requires Terminated(c) && i < |c| && c[i] == LBRACE && depth <= NESTING_LIMIT && ReadObject(c, i, depth).Ok?
    ensures d.ObjectDoc? && ValidDoc(d) && Meaning(d) == ReadObject(c, i, depth).value
    ensures At(c, i, DocText(d)) && ReadObject(c, i, depth).next == i + |DocText(d)|
    ensures depth + Nesting(Meaning(d)) <= NESTING_LIMIT
    decreases |c| - i, 0
  {
    hide At, ReadMembers, SkipSpace, White, MembersSource, MembersMeaning, ValidMembers;
    var j := SkipSpace(c, i + 1);
    OpenerInside(c, i);
    Skipped(c, i + 1);
    var w := c[i + 1..j];
    var ms;
    if c[j] == RBRACE {
      ms := NoMembers;
      NoMembersMean(ms);
      NoMembersValid(ms);
      AtByte(c, j, RBRACE);
    } else {
      SpaceTwice(c, i + 1, depth + 1);
      ms := MembersOf(c, j, depth + 1);
    }
    d := ObjectDoc(w, ms);
    Container(c, i, j, LBRACE, MembersSource(ms));
  }

  /** The entry from a place on where no white space stands, up to what follows it at `k`. */
  lemma {:induction false} EntryOf(c: seq<byte>, p: nat, depth: nat) returns (e: Entry, k: nat)
    requires Terminated(c) && p < |c| && SkipSpace(c, p) == p && depth <= NESTING_LIMIT && ReadMember(c, p, depth).Ok?
    ensures ValidName(e.key) && White(e.before) && White(e.behind) && ValidDoc(e.v) && White(e.after)
    ensures ReadMember(c, p, depth).value == (NameMeaning(e.key), Meaning(e.v))
    ensures depth + Nesting(Meaning(e.v)) <= NESTING_LIMIT
    ensures p < k < |c| && k == SkipSpace(c, ReadMember(c, p, depth).next)
    ensures At(c, p, KeyText(e)) && At(c, p + |KeyText(e)|, e.behind + DocText(e.v) + e.after)
    ensures k == p + |KeyText(e)| + |e.behind + DocText(e.v) + e.after|
    decreases |c| - p, 2
  {
    hide At, ReadValue, ReadString, SkipSpace, White, DocText, Meaning, ValidDoc, Nesting;
    hide NameText, NameMeaning, ValidName;
    var key := NameOf(c, p);
    var n := p + |NameText(key)|;
    var colon := SkipSpace(c, n);
    Skipped(c, n);
    OpenerInside(c, colon);
    var i := SkipSpace(c, colon + 1);
    Skipped(c, colon + 1);
    var v := DocOf(c, i, depth);
    var m := i + |DocText(v)|;
    k := SkipSpace(c, m);
    Skipped(c, m);
    e := Entry(key, c[n..colon], c[colon + 1..i], v, c[m..k]);
    Between(c, n, colon);
    AtByte(c, colon, COLON);
    AtSplit(c, p, NameText(key), e.before);
    AtSplit(c, p, NameText(key) + e.before, [COLON]);
    Between(c, colon + 1, i);
    Between(c, m, k);
    AtSplit(c, colon + 1, e.behind, DocText(v));
    AtSplit(c, colon + 1, e.behind + DocText(v), e.after);
  }

  lemma {:induction false} MembersOf(c: seq<byte>, p: nat, depth: nat) returns (ms: MemberDocs)
    requires Terminated(c) && p < |c| && SkipSpace(c, p) == p && depth <= NESTING_LIMIT && ReadMembers(c, p, depth).Ok?
    ensures ValidMembers(ms) && !ms.NoMembers? && MembersMeaning(ms) == ReadMembers(c, p, depth).value
    ensures At(c, p, MembersSource(ms)) && ReadMembers(c, p, depth).next == p + |MembersSource(ms)|
    ensures depth + NestingMembers(MembersMeaning(ms)) <= NESTING_LIMIT
    decreases |c| - p, 3
  {
    hide At, ReadMember, SkipSpace, White, DocText, Meaning, ValidDoc, Nesting;
    hide NameText, NameMeaning, ValidName, KeyText;
    var e, k := EntryOf(c, p, depth);
    var kt, vt := KeyText(e), e.behind + DocText(e.v) + e.after;
    AtByte(c, k, c[k]);
    if c[k] == COMMA {
      OpenerInside(c, k);
      var j := SkipSpace(c, k + 1);
      Skipped(c, k + 1);
      SpaceTwice(c, k + 1, depth);
      var w := c[k + 1..j];
      var rest := MembersOf(c, j, depth);
      ms := NextEntry(e, w, rest);
      Between(c, k + 1, j);
      var tail := w + MembersSource(rest);
      AtSplit(c, k + 1, w, MembersSource(rest));
      AtSplit(c, k, [COMMA], tail);
      AtSplit(c, p + |kt|, vt, [COMMA] + tail);
      AtSplit(c, p, kt, vt + ([COMMA] + tail));
    } else {
      ms := LastEntry(e);
      AtSplit(c, p + |kt|, vt, [RBRACE]);
      AtSplit(c, p, kt, vt + [RBRACE]);
    }
  }

  /** A text that is parsed strictly is a value in some layout with white space around it, and nothing else. */
  lemma Accepted(t: seq<byte>) returns (w: seq<byte>, d: Doc, w': seq<byte>)
    requires NulFree(t) && Parse(t, true).Ok?
    ensures White(w) && White(w') && ValidDoc(d) && Nesting(Meaning(d)) <= NESTING_LIMIT
    ensures t == w + DocText(d) + w' && Parse(t, true) == Ok(Meaning(d), |t|)
  {
    hide ReadValue, SkipSpace, White, DocText, Meaning, ValidDoc, At, Nesting;
    var c := t + [NUL];
    var i := SkipSpace(c, 0);
    Skipped(c, 0);
    d := DocOf(c, i, 0);
    var n := i + |DocText(d)|;
    var end := SkipSpace(c, n);
    Skipped(c, n);
    EndOfText(t, end);
    w, w' := c[..i], c[n..end];
    JsonMinify.SliceAt(c, i, DocText(d));
    assert t == c[..end] == c[0..i] + c[i..n] + c[n..end];
  }

  lemma EndOfText(t: seq<byte>, end: nat)
    requires NulFree(t) && end <= |t| && (t + [NUL])[end] == NUL
    ensures end == |t|
  {
  }
}

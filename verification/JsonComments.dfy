/** The texts that cJSON_Minify is made for, in pieces: which of them stay and which go. */
module JsonComments {
  import opened Bytes
  import opened JsonValue
  import opened JsonGrammar
  import opened JsonRoundTrip
  import opened JsonMinify

  /**
   * A blank, a string between quotes, a comment up to the end of the line, a comment between marks, the three
   * bytes of a comment whose star belongs to both marks, or any other byte.
   */
  datatype Segment =
    | Blank(b: byte)
    | Quoted(body: seq<byte>)
    | ToLineEnd(text: seq<byte>)
    | Between(text: seq<byte>)
    | Overlapping
    | Other(b: byte)

  /** Every quote in a string is escaped, and no escape is broken off. */
  predicate Escapes(body: seq<byte>) {
    if body == [] then true
    else if body[0] == BACKSLASH then |body| >= 2 && Escapes(body[2..])
    else body[0] != QUOTE && Escapes(body[1..])
  }

  /** A star and a slash stand at `k`. */
  predicate EndMark(t: seq<byte>, k: nat) {
    k + 1 < |t| && t[k] == 0x2A && t[k + 1] == 0x2F
  }

  function Source(x: Segment): (t: seq<byte>)
    ensures t != []
  {
    match x
    case Blank(b) => [b]
    case Quoted(body) => [0x22] + body + [0x22]
    case ToLineEnd(text) => [0x2F, 0x2F] + text
    case Between(text) => [0x2F, 0x2A] + text + [0x2A, 0x2F]
    case Overlapping => [0x2F, 0x2A, 0x2F]
    case Other(b) => [b]
  }

  /** What is left of a piece: strings and other bytes stay as they are, blanks and comments go. */
  function Kept(x: Segment): seq<byte> {
    match x
    case Quoted(_) => Source(x)
    case Other(b) => [b]
    case _ => []
  }

  /** The piece stands before `next`. */
  predicate ValidBefore(x: Segment, next: seq<byte>) {
    match x
    case Blank(b) => b == 0x20 || b == 0x09 || b == 0x0D || b == 0x0A
    case Quoted(body) => Escapes(body)
    case ToLineEnd(text) => 0x0A !in text && (next == [] || next[0] == 0x0A)
    case Between(text) => (text == [] || text[0] != 0x2F) && forall k :: 0 <= k < |text| ==> !EndMark(text, k)
    case Overlapping => true
    case Other(b) =>
      b != 0x20 && b != 0x09 && b != 0x0D && b != 0x0A && b != 0x22
      && (b == 0x2F && next != [] ==> next[0] != 0x2F && next[0] != 0x2A)
  }

  function SourceOf(xs: seq<Segment>): seq<byte> {
    if xs == [] then [] else Source(xs[0]) + SourceOf(xs[1..])
  }

  function KeptOf(xs: seq<Segment>): seq<byte> {
    if xs == [] then [] else Kept(xs[0]) + KeptOf(xs[1..])
  }

  predicate ValidSegments(xs: seq<Segment>) {
    xs == [] || (ValidBefore(xs[0], SourceOf(xs[1..])) && ValidSegments(xs[1..]))
  }

  // ---- One piece ----

  lemma {:induction false} LineEndAt(s: seq<byte>, i: nat, text: seq<byte>)
    requires At(s, i, text) && NEWLINE !in text
    requires i + |text| < |s| ==> s[i + |text|] == NEWLINE
    ensures LineEndFrom(s, i) == i + |text|
    decreases |text|
  {
    if text != [] {
      Lead(s, i, text);
      assert text == [text[0]] + text[1..];
      AtSplit(s, i, [text[0]], text[1..]);
      LineEndAt(s, i + 1, text[1..]);
    }
  }

  lemma {:induction false} CommentEndAt(s: seq<byte>, i: nat, j: nat)
    requires i <= j && EndMark(s, j) && forall k :: i <= k < j ==> !EndMark(s, k)
    ensures CommentEndFrom(s, i) == j
    decreases j - i
  {
    if i < j {
      assert !EndMark(s, i);
      CommentEndAt(s, i + 1, j);
    }
  }

  lemma {:induction false} ScanBody(s: seq<byte>, p: nat, body: seq<byte>)
    requires Escapes(body) && At(s, p, body + [QUOTE])
    ensures ScanString(s, p).Closed? && ScanString(s, p).end == p + |body|
    decreases |body|
  {
    Lead(s, p, body + [QUOTE]);
    if body != [] {
      var n := if body[0] == BACKSLASH then 2 else 1;
      assert body + [QUOTE] == body[..n] + (body[n..] + [QUOTE]);
      AtSplit(s, p, body[..n], body[n..] + [QUOTE]);
      ScanBody(s, p + n, body[n..]);
    }
  }

  /** The end mark of a comment is the first one behind its first byte. */
  lemma MarkedComment(s: seq<byte>, i: nat, text: seq<byte>)
    requires At(s, i, Source(Between(text))) && ValidBefore(Between(text), [])
    ensures i + 1 <= |s| && CommentEndFrom(s, i + 1) == i + 2 + |text| && i + 2 + |text| < |s|
  {
    var t := Source(Between(text));
    assert forall k :: 0 <= k < |t| ==> s[i + k] == s[i..i + |t|][k] == t[k];
    assert s[i + 2 + |text|] == t[2 + |text|] && s[i + 3 + |text|] == t[3 + |text|];
    forall k | i + 1 <= k < i + 2 + |text| ensures !EndMark(s, k) {
      assert s[k] == t[k - i] && s[k + 1] == t[k + 1 - i];
      if k > i + 1 {
        assert !EndMark(text, k - i - 2);
      }
    }
    CommentEndAt(s, i + 1, i + 2 + |text|);
  }

  lemma OverlappingComment(s: seq<byte>, i: nat)
    requires At(s, i, Source(Overlapping))
    ensures i + 1 <= |s| && CommentEndFrom(s, i + 1) == i + 1 && i + 3 <= |s|
  {
    var t := Source(Overlapping);
    assert s[i..i + 3][1] == t[1] && s[i..i + 3][2] == t[2];
    assert s[i + 1] == t[1] && s[i + 2] == t[2];
  }

  lemma StartOf(s: seq<byte>, i: nat, x: Segment)
    requires At(s, i, Source(x))
    ensures i + |Source(x)| <= |s| && s[i] == Source(x)[0] && (|Source(x)| > 1 ==> s[i + 1] == Source(x)[1])
  {
    var t := Source(x);
    assert s[i..i + |t|][0] == s[i];
    assert |t| > 1 ==> s[i..i + |t|][1] == s[i + 1];
  }

  /** Minifying goes on behind the piece, with what is kept of it in front. */
  lemma OnePiece(s: seq<byte>, i: nat, x: Segment)
    requires At(s, i, Source(x)) && ValidBefore(x, s[i + |Source(x)|..])
    ensures Minified(s, i) == JsonMinify.Behind(Kept(x), Minified(s, i + |Source(x)|))
  {
    hide At, Minified, Escapes, JsonMinify.Behind;
    StartOf(s, i, x);
    var j := i + |Source(x)|;
    BehindNothing(Minified(s, j));
    match x
    case Blank(b) => ByteStep(s, i);
    case Quoted(body) => QuotedPiece(s, i, body);
    case ToLineEnd(text) =>
      LineComment(s, i, text);
      CommentStep(s, i);
    case Between(text) =>
      MarkedComment(s, i, text);
      CommentStep(s, i);
    case Overlapping =>
      OverlappingComment(s, i);
      CommentStep(s, i);
    case Other(b) => ByteStep(s, i);
  }

  lemma QuotedPiece(s: seq<byte>, i: nat, body: seq<byte>)
    requires At(s, i, Source(Quoted(body))) && Escapes(body)
    ensures i + |body| + 2 <= |s|
    ensures Minified(s, i) == JsonMinify.Behind(Source(Quoted(body)), Minified(s, i + |body| + 2))
  {
    hide At, ScanString, Escapes;
    var t := Source(Quoted(body));
    StartOf(s, i, Quoted(body));
    assert t == [QUOTE] + (body + [QUOTE]);
    AtSplit(s, i, [QUOTE], body + [QUOTE]);
    ScanBody(s, i + 1, body);
    SliceAt(s, i, t);
  }

  lemma CommentStep(s: seq<byte>, i: nat)
    requires i + 1 < |s| && s[i] == SLASH
    ensures s[i + 1] == SLASH ==> Minified(s, i) == Minified(s, LineEndFrom(s, i + 1))
    ensures s[i + 1] == STAR && CommentEndFrom(s, i + 1) < |s| ==>
              CommentEndFrom(s, i + 1) + 2 <= |s| && Minified(s, i) == Minified(s, CommentEndFrom(s, i + 1) + 2)
  {
    hide LineEndFrom, CommentEndFrom, ScanString;
  }

  lemma ByteStep(s: seq<byte>, i: nat)
    requires i < |s| && s[i] != QUOTE
    requires s[i] == SLASH && i + 1 < |s| ==> s[i + 1] != SLASH && s[i + 1] != STAR
    ensures Minified(s, i) == if IsBlank(s[i]) then Minified(s, i + 1)
                              else JsonMinify.Behind([s[i]], Minified(s, i + 1))
  {
    hide LineEndFrom, CommentEndFrom, ScanString;
  }

  lemma LineComment(s: seq<byte>, i: nat, text: seq<byte>)
    requires At(s, i, Source(ToLineEnd(text))) && ValidBefore(ToLineEnd(text), s[i + 2 + |text|..])
    ensures i + 1 <= |s| && LineEndFrom(s, i + 1) == i + 2 + |text|
  {
    hide At;
    assert Source(ToLineEnd(text)) == [SLASH] + ([SLASH] + text);
    AtSplit(s, i, [SLASH], [SLASH] + text);
    LineEndAt(s, i + 1, [SLASH] + text);
  }

  // ---- Whole texts ----

  lemma {:induction false} PiecesFrom(s: seq<byte>, i: nat, xs: seq<Segment>)
    requires i <= |s| && s[i..] == SourceOf(xs) && ValidSegments(xs)
    ensures Minified(s, i) == Some(KeptOf(xs))
    decreases |xs|
  {
    hide Minified, Source, Kept, ValidBefore;
    if xs == [] {
      NothingLeft(s);
    } else {
      var t := Source(xs[0]);
      SourceFrom(s, i, t, SourceOf(xs[1..]));
      OnePiece(s, i, xs[0]);
      PiecesFrom(s, i + |t|, xs[1..]);
    }
  }

  lemma NothingLeft(s: seq<byte>)
    ensures Minified(s, |s|) == Some([])
  {
  }

  lemma SourceFrom(s: seq<byte>, i: nat, t: seq<byte>, rest: seq<byte>)
    requires i <= |s| && s[i..] == t + rest
    ensures At(s, i, t) && i + |t| <= |s| && s[i + |t|..] == rest
  {
    assert |s[i..]| == |s| - i;
    assert s[i..i + |t|] == s[i..][..|t|];
    assert s[i + |t|..] == s[i..][|t|..];
  }

  /** Minifying a text made of such pieces leaves the strings and the other bytes, in their order, and no more. */
  lemma MinifyPieces(xs: seq<Segment>)
    requires ValidSegments(xs)
    ensures Minified(SourceOf(xs), 0) == Some(KeptOf(xs))
  {
    hide Minified, SourceOf, KeptOf, ValidSegments;
    assert SourceOf(xs)[0..] == SourceOf(xs);
    PiecesFrom(SourceOf(xs), 0, xs);
  }

  lemma {:induction false} KeptOver(xs: seq<Segment>, ys: seq<Segment>)
    ensures KeptOf(xs + ys) == KeptOf(xs) + KeptOf(ys)
  {
    hide Kept;
    if xs == [] {
      assert xs + ys == ys;
    } else {
      KeptOver(xs[1..], ys);
      assert (xs + ys)[0] == xs[0] && (xs + ys)[1..] == xs[1..] + ys;
      Associate(Kept(xs[0]), KeptOf(xs[1..]), KeptOf(ys));
    }
  }

  predicate IsComment(x: Segment) {
    x.ToLineEnd? || x.Between? || x.Overlapping?
  }

  /** A comment anywhere outside the strings makes no difference. */
  lemma CommentDropped(xs: seq<Segment>, x: Segment, ys: seq<Segment>)
    requires IsComment(x) && ValidSegments(xs + [x] + ys) && ValidSegments(xs + ys)
    ensures Minified(SourceOf(xs + [x] + ys), 0) == Minified(SourceOf(xs + ys), 0)
  {
    hide Minified, SourceOf, ValidSegments, KeptOf;
    MinifyPieces(xs + [x] + ys);
    MinifyPieces(xs + ys);
    KeptOver(xs, ys);
    KeptOver(xs + [x], ys);
    KeptOver(xs, [x]);
    NothingKept(x);
    assert KeptOf(xs) + [] == KeptOf(xs);
  }

  lemma NothingKept(x: Segment)
    requires IsComment(x)
    ensures KeptOf([x]) == []
  {
    assert [x][1..] == [];
  }

  // ---- Every text that can be minified ----

  lemma {:induction false} LineEndMeans(s: seq<byte>, i: nat)
    requires i <= |s|
    ensures var j := LineEndFrom(s, i); NEWLINE !in s[i..j] && (j < |s| ==> s[j] == NEWLINE)
    decreases |s| - i
  {
    if i < |s| && s[i] != NEWLINE {
      LineEndMeans(s, i + 1);
      assert s[i..LineEndFrom(s, i)] == [s[i]] + s[i + 1..LineEndFrom(s, i)];
    }
  }

  lemma {:induction false} CommentEndMeans(s: seq<byte>, i: nat)
    requires i <= |s|
    ensures var j := CommentEndFrom(s, i); forall k :: i <= k < j ==> !EndMark(s, k)
    decreases |s| - i
  {
    if i < |s| && !EndMark(s, i) {
      CommentEndMeans(s, i + 1);
    }
  }

  lemma {:induction false} BodyMeans(s: seq<byte>, p: nat)
    requires p <= |s| && ScanString(s, p).Closed?
    ensures Escapes(s[p..ScanString(s, p).end])
    decreases |s| - p
  {
    var end := ScanString(s, p).end;
    if s[p] != QUOTE {
      var n := if s[p] == BACKSLASH then 2 else 1;
      BodyMeans(s, p + n);
      assert s[p..end][n..] == s[p + n..end];
    }
  }

  /** The piece at `i`. */
  lemma PieceAt(s: seq<byte>, i: nat) returns (x: Segment)
    requires i < |s| && Minified(s, i).Some?
    ensures At(s, i, Source(x)) && i + |Source(x)| <= |s| && ValidBefore(x, s[i + |Source(x)|..])
  {
    hide LineEndFrom, ScanString, CommentEndFrom, Escapes, Minified, At;
    Step(s, i);
    AtByte(s, i, s[i]);
    if IsBlank(s[i]) {
      x := Blank(s[i]);
    } else if s[i] == SLASH && Peek(s, i + 1) == SLASH {
      x := LinePiece(s, i);
    } else if s[i] == SLASH && Peek(s, i + 1) == STAR {
      x := MarkedPiece(s, i);
    } else if s[i] == QUOTE {
      var end := ScanString(s, i + 1).end;
      BodyMeans(s, i + 1);
      x := Quoted(s[i + 1..end]);
      QuotedAt(s, i, end);
    } else {
      x := Other(s[i]);
    }
  }

  lemma QuotedAt(s: seq<byte>, i: nat, end: nat)
    requires i < end < |s| && s[i] == QUOTE == s[end]
    ensures At(s, i, [QUOTE] + s[i + 1..end] + [QUOTE])
  {
    assert s[i..end + 1] == [s[i]] + s[i + 1..end] + [s[end]];
  }

  lemma Step(s: seq<byte>, i: nat)
    requires i < |s| && Minified(s, i).Some?
    ensures !IsBlank(s[i]) && s[i] == SLASH && Peek(s, i + 1) == STAR ==> CommentEndFrom(s, i + 1) < |s|
    ensures s[i] == QUOTE ==> ScanString(s, i + 1).Closed?
  {
  }

  lemma LinePiece(s: seq<byte>, i: nat) returns (x: Segment)
    requires i + 1 < |s| && s[i] == SLASH == s[i + 1]
    ensures At(s, i, Source(x)) && i + |Source(x)| <= |s| && ValidBefore(x, s[i + |Source(x)|..])
  {
    LineEndMeans(s, i + 1);
    var j := LineEndFrom(s, i + 1);
    assert s[i + 1] in s[i + 1..i + 2];
    assert j > i + 1;
    x := ToLineEnd(s[i + 2..j]);
    assert s[i + 1..j] == [s[i + 1]] + s[i + 2..j];
    assert s[i..j] == [s[i], s[i + 1]] + s[i + 2..j];
  }

  lemma MarkedPiece(s: seq<byte>, i: nat) returns (x: Segment)
    requires i + 1 < |s| && s[i] == SLASH && s[i + 1] == STAR && CommentEndFrom(s, i + 1) < |s|
    ensures At(s, i, Source(x)) && i + |Source(x)| <= |s| && ValidBefore(x, s[i + |Source(x)|..])
  {
    hide CommentEndFrom;
    CommentEndMeans(s, i + 1);
    var j := CommentEndFrom(s, i + 1);
    assert j + 1 < |s| && s[j + 1] == SLASH;
    if j == i + 1 {
      x := Overlapping;
      assert s[i..i + 3] == [s[i], s[i + 1], s[i + 2]];
    } else {
      var text := s[i + 2..j];
      x := Between(text);
      assert !EndMark(s, i + 1);
      forall k | 0 <= k < |text| ensures !EndMark(text, k) {
        assert !EndMark(s, i + 2 + k);
      }
      assert s[i..j + 2] == [s[i], s[i + 1]] + text + [s[j], s[j + 1]];
    }
  }

  lemma {:induction false} PiecesAt(s: seq<byte>, i: nat) returns (xs: seq<Segment>)
    requires i <= |s| && Minified(s, i).Some?
    ensures ValidSegments(xs) && SourceOf(xs) == s[i..]
    decreases |s| - i
  {
    hide Minified, Source, Kept, ValidBefore;
    if i == |s| {
      xs := [];
    } else {
      var x := PieceAt(s, i);
      var j := i + |Source(x)|;
      OnePiece(s, i, x);
      SomeBehind(Kept(x), Minified(s, j));
      var rest := PiecesAt(s, j);
      xs := [x] + rest;
      assert xs[1..] == rest;
      SliceAt(s, i, Source(x));
      assert s[i..] == s[i..j] + s[j..];
    }
  }

  lemma SomeBehind(t: seq<byte>, r: Option<seq<byte>>)
    requires JsonMinify.Behind(t, r).Some?
    ensures r.Some?
  {
  }

  /** A text can be minified if and only if it is made of such pieces: no string and no comment is left open. */
  lemma MinifiableIff(s: seq<byte>)
    ensures Minified(s, 0).Some? <==> exists xs :: ValidSegments(xs) && SourceOf(xs) == s
  {
    hide Minified, SourceOf, ValidSegments;
    if Minified(s, 0).Some? {
      var xs := PiecesAt(s, 0);
      assert s[0..] == s;
    }
    if xs :| ValidSegments(xs) && SourceOf(xs) == s {
      MinifyPieces(xs);
    }
  }

  /**
   * A slash right behind the opening mark of a comment ends it, as the star counts for both marks: what looks
   * like the rest of the comment stays.
   */
  lemma SlashEndsComment()
    ensures Minified([0x2F, 0x2A, 0x2F, 0x31, 0x2A, 0x2F], 0) == Some([0x31, 0x2A, 0x2F])
  {
    hide Minified;
    var xs := [Overlapping, Other(0x31), Other(0x2A), Other(0x2F)];
    assert xs[1..] == [Other(0x31), Other(0x2A), Other(0x2F)] && xs[1..][1..] == [Other(0x2A), Other(0x2F)];
    assert xs[1..][1..][1..] == [Other(0x2F)] && xs[1..][1..][1..][1..] == [];
    assert SourceOf(xs) == [0x2F, 0x2A, 0x2F, 0x31, 0x2A, 0x2F];
    assert KeptOf(xs) == [] + ([0x31] + ([0x2A] + ([0x2F] + []))) == [0x31, 0x2A, 0x2F];
    MinifyPieces(xs);
  }
}

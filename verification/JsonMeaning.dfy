/** Minifying keeps the meaning of every text that is a value and nothing else. */
module JsonMeaning {
  import opened Bytes
  import opened JsonValue
  import opened JsonText
  import opened JsonGrammar
  import opened JsonRoundTrip
  import opened JsonMinify
  import Utf

  // ---- Pieces of minified text ----

  /** Outside its strings, `s` has no comment from `i` on. */
  predicate CommentFree(s: seq<byte>, i: nat)
    requires i <= |s|
    decreases |s| - i
  {
    if i == |s| then true
    else if s[i] == SLASH && (Peek(s, i + 1) == SLASH || Peek(s, i + 1) == STAR) then false
    else if s[i] == QUOTE then
      match ScanString(s, i + 1)
      case Open => true
      case Closed(end, _) => CommentFree(s, end + 1)
    else CommentFree(s, i + 1)
  }

  /** The part of `s` from `i` to `j` is minified to `m`, and has no comment. */
  ghost predicate Becomes(s: seq<byte>, i: nat, j: nat, m: seq<byte>) {
    i <= j <= |s| && Minified(s, i) == Behind(m, Minified(s, j)) && CommentFree(s, i) == CommentFree(s, j)
  }

  lemma BecomesJoin(s: seq<byte>, i: nat, j: nat, k: nat, m: seq<byte>, n: seq<byte>)
    requires Becomes(s, i, j, m) && Becomes(s, j, k, n)
    ensures Becomes(s, i, k, m + n)
  {
    hide Minified;
    BehindTwice(m, n, Minified(s, k));
  }

  lemma BecomesItself(s: seq<byte>, i: nat, t: seq<byte>)
    requires At(s, i, t) && Plain(t)
    ensures Becomes(s, i, i + |t|, t)
  {
    hide Minified, CommentFree;
    MinifyPlain(s, i, t);
    SliceAt(s, i, t);
    PlainIsNoComment(s, i, t);
  }

  lemma {:induction false} PlainIsNoComment(s: seq<byte>, i: nat, t: seq<byte>)
    requires At(s, i, t) && Plain(t)
    ensures CommentFree(s, i) == CommentFree(s, i + |t|)
    decreases |t|
  {
    if t != [] {
      Lead(s, i, t);
      assert t == [t[0]] + t[1..];
      AtSplit(s, i, [t[0]], t[1..]);
      PlainIsNoComment(s, i + 1, t[1..]);
    }
  }

  lemma BecomesByte(s: seq<byte>, i: nat, b: byte)
    requires i < |s| && s[i] == b && !IsBlank(b) && b != SLASH && b != QUOTE
    ensures Becomes(s, i, i + 1, [b])
  {
    hide Minified;
    AtByte(s, i, b);
    BecomesItself(s, i, [b]);
  }

  predicate White(w: seq<byte>) {
    forall k :: 0 <= k < |w| ==> w[k] <= 32
  }

  /** Where the parser skips, only white space is left, if anything. */
  lemma {:induction false} WhiteBecomes(s: seq<byte>, i: nat) returns (w: seq<byte>)
    requires i <= |s| && NulFree(s)
    ensures SkipSpace(s + [NUL], i) <= |s| && Becomes(s, i, SkipSpace(s + [NUL], i), w) && White(w)
    ensures i < |s| && s[i] > 32 ==> w == []
    decreases |s| - i
  {
    var c := s + [NUL];
    if i < |s| && s[i] <= 32 {
      var rest := WhiteBecomes(s, i + 1);
      if IsBlank(s[i]) {
        w := rest;
      } else {
        w := [s[i]] + rest;
        BecomesByte(s, i, s[i]);
        BecomesJoin(s, i, i + 1, SkipSpace(c, i), [s[i]], rest);
      }
    } else {
      w := [];
      BehindNothing(Minified(s, i));
      assert i == |s| ==> SkipSpace(c, i + 1) == |s|;
    }
  }

  // ---- Strings ----

  /** The same `n` bytes stand at `p` in `c` and at `q` in `d`. */
  predicate Same(c: seq<byte>, p: nat, d: seq<byte>, q: nat, n: nat) {
    p + n <= |c| && q + n <= |d| && forall k :: p <= k < p + n ==> c[k] == d[k - p + q]
  }

  lemma {:induction false} ScanMoved(c: seq<byte>, p: nat, d: seq<byte>, q: nat)
    requires p <= |c| && ScanString(c, p).Closed?
    requires Same(c, p, d, q, ScanString(c, p).end + 1 - p)
    ensures ScanString(d, q) == Closed(ScanString(c, p).end - p + q, ScanString(c, p).skipped)
    decreases |c| - p
  {
    assert c[p] == d[q];
    if c[p] == BACKSLASH {
      ScanMoved(c, p + 2, d, q + 2);
    } else if c[p] != QUOTE {
      ScanMoved(c, p + 1, d, q + 1);
    }
  }

  lemma HexMoved(c: seq<byte>, p: nat, d: seq<byte>, q: nat)
    requires Same(c, p, d, q, 4)
    ensures Utf.Hex4(c, p) == Utf.Hex4(d, q)
  {
    hide Utf.IsHex, Utf.HexValue;
    assert c[p] == d[q] && c[p + 1] == d[q + 1] && c[p + 2] == d[q + 2] && c[p + 3] == d[q + 3];
  }

  lemma LiteralMoved(c: seq<byte>, p: nat, end: nat, d: seq<byte>, q: nat)
    requires p <= end <= |c| && Same(c, p, d, q, end - p)
    ensures Utf.ReadLiteral(c, p, end) == Utf.ReadLiteral(d, q, end - p + q)
  {
    hide Utf.Hex4;
    if end - p >= 6 {
      HexMoved(c, p + 2, d, q + 2);
    }
    if end - p >= 12 {
      HexMoved(c, p + 8, d, q + 8);
      assert c[p + 6] == d[q + 6] && c[p + 7] == d[q + 7];
    }
  }

  lemma StepMoved(c: seq<byte>, p: nat, end: nat, d: seq<byte>, q: nat)
    requires p < end < |c| && Same(c, p, d, q, end + 1 - p)
    ensures UnescapeStep(c, p, end) == UnescapeStep(d, q, end - p + q)
  {
    hide Utf.ReadLiteral, Utf.Utf8, SimpleEscape;
    assert c[p] == d[q] && c[p + 1] == d[q + 1];
    LiteralMoved(c, p, end, d, q);
  }

  lemma {:induction false} UnescapeMoved(c: seq<byte>, p: nat, end: nat, d: seq<byte>, q: nat)
    requires p <= end + 1 && end < |c| && q > 0 && Same(c, p, d, q, end + 1 - p) && Unescape(c, p, end).Ok?
    ensures Unescape(d, q, end + q - p) == Ok(Unescape(c, p, end).value, end + q - p + 1)
    decreases end + 1 - p
  {
    hide UnescapeStep;
    if p < end {
      StepMoved(c, p, end, d, q);
      var n := UnescapeStep(c, p, end).length;
      UnescapeMoved(c, p + n, end, d, q + n);
    }
  }

  /** Wherever the text `m` stands, it is read as the string `str`. */
  ghost predicate ReadsString(m: seq<byte>, str: seq<byte>) {
    m != [] && forall d: seq<byte>, q: nat :: Terminated(d) && At(d, q, m) ==> ReadString(d, q) == Ok(str, q + |m|)
  }

  lemma StringBecomes(s: seq<byte>, i: nat) returns (m: seq<byte>)
    requires i < |s| && NulFree(s) && ReadString(s + [NUL], i).Ok?
    ensures var r := ReadString(s + [NUL], i);
            Becomes(s, i, r.next, m) && ReadsString(m, r.value) && m != [] && m[0] == QUOTE == s[i]
  {
    hide ReadString, Unescape, Minified, Becomes, At;
    var c := s + [NUL];
    var r := ReadString(c, i);
    var end := StringSpan(c, i);
    m := s[i..end + 1];
    assert Same(c, i + 1, s, i + 1, end - i);
    ScanMoved(c, i + 1, s, i + 1);
    StringKept(s, i, end);
    SliceStands(c, i, end + 1, m);
    forall d: seq<byte>, q: nat | Terminated(d) && At(d, q, m)
      ensures q < |d| && ReadString(d, q) == Ok(r.value, q + |m|)
    {
      StringAnywhere(c, i, d, q, m);
    }
  }

  /** Where the string at `i` ends. */
  lemma StringSpan(c: seq<byte>, i: nat) returns (end: nat)
    requires Terminated(c) && i < |c| && ReadString(c, i).Ok?
    ensures c[i] == QUOTE && ScanString(c, i + 1).Closed? && ScanString(c, i + 1).end == end
    ensures ReadString(c, i).next == end + 1 && i < end && end + 1 < |c|
  {
    hide ScanString, CString, Unescape;
    end := ScanString(c, i + 1).end;
  }

  lemma SliceStands(c: seq<byte>, i: nat, j: nat, m: seq<byte>)
    requires i <= j <= |c| && |m| == j - i && forall k :: 0 <= k < |m| ==> m[k] == c[i + k]
    ensures At(c, i, m)
  {
  }

  lemma StringAnywhere(c: seq<byte>, i: nat, d: seq<byte>, q: nat, m: seq<byte>)
    requires Terminated(c) && Terminated(d) && i < |c| && ReadString(c, i).Ok? && m != []
    requires At(c, i, m) && At(d, q, m) && |m| == ReadString(c, i).next - i
    ensures q < |d| && ReadString(d, q) == Ok(ReadString(c, i).value, q + |m|)
  {
    hide ScanString, Unescape, CString, At;
    AtSame(c, i, d, q, m);
    var end := StringSpan(c, i);
    ScanMoved(c, i + 1, d, q + 1);
    UnescapeMoved(c, i + 1, end, d, q + 1);
  }

  lemma StringKept(s: seq<byte>, i: nat, end: nat)
    requires i < |s| && s[i] == QUOTE && ScanString(s, i + 1).Closed? && ScanString(s, i + 1).end == end
    ensures Becomes(s, i, end + 1, s[i..end + 1])
  {
  }

  /** A text that stands in two places. */
  lemma AtSame(c: seq<byte>, i: nat, d: seq<byte>, q: nat, m: seq<byte>)
    requires At(c, i, m) && At(d, q, m) && m != []
    ensures Same(c, i, d, q, |m|) && Same(c, i + 1, d, q + 1, |m| - 1) && c[i] == d[q]
  {
    assert forall k :: i <= k < i + |m| ==> c[k] == m[k - i];
    assert forall k :: q <= k < q + |m| ==> d[k] == m[k - q];
    forall k | i <= k < i + |m| ensures c[k] == d[k - i + q] {
      assert d[k - i + q] == m[k - i];
    }
  }

  // ---- Numbers ----

  /** Wherever the text `m` stands before a delimiter, it is read as the value `v`. */
  ghost predicate ReadsValue(m: seq<byte>, v: Value, depth: nat) {
    m != [] && forall d: seq<byte>, q: nat :: Terminated(d) && At(d, q, m) && Delimited(d, q + |m|) ==>
                 ReadValue(d, q, depth) == Ok(v, q + |m|)
  }

  lemma NumberBecomes(s: seq<byte>, i: nat, depth: nat) returns (m: seq<byte>)
    requires i < |s| && NulFree(s) && (s[i] == MINUS || IsDigit(s[i]))
    requires ReadNumber(s + [NUL], i).Ok? && Delimited(s + [NUL], ReadNumber(s + [NUL], i).next)
    ensures var r := ReadNumber(s + [NUL], i);
            Becomes(s, i, r.next, m) && ReadsValue(m, r.value, depth) && m != [] && m[0] == s[i]
  {
    hide Strtod, NumberRun, ReadNumber, Minified, IsNumberByte, Delimited, ReadValue;
    var c := s + [NUL];
    var x;
    m, x := WholeRun(c, i);
    NumberBytes(m);
    InsideText(s, i, m);
    BecomesItself(s, i, m);
    forall d: seq<byte>, q: nat | Terminated(d) && At(d, q, m) && Delimited(d, q + |m|)
      ensures ReadValue(d, q, depth) == Ok(Number(x), q + |m|)
    {
      NumberAnywhere(d, q, m, x, depth);
    }
  }

  /** A number before a delimiter is the whole run of number bytes. */
  lemma WholeRun(c: seq<byte>, i: nat) returns (m: seq<byte>, x: real)
    requires Terminated(c) && i < |c| && ReadNumber(c, i).Ok? && Delimited(c, ReadNumber(c, i).next)
    ensures At(c, i, m) && m != [] && |m| <= 63 && m[0] == c[i] && Strtod(m) == (x, |m|)
    ensures forall k :: 0 <= k < |m| ==> IsNumberByte(m[k])
    ensures ReadNumber(c, i) == Ok(Number(x), i + |m|)
  {
    hide Strtod;
    var n := NumberRun(c, i, 63);
    m := c[i..i + n];
    x := Strtod(m).0;
    assert Strtod(m).1 == n;
  }

  lemma NumberBytes(m: seq<byte>)
    requires forall k :: 0 <= k < |m| ==> IsNumberByte(m[k])
    ensures Plain(m) && NulFree(m)
  {
  }

  lemma NumberAnywhere(d: seq<byte>, q: nat, m: seq<byte>, x: real, depth: nat)
    requires Terminated(d) && At(d, q, m) && Delimited(d, q + |m|) && m != [] && |m| <= 63
    requires (m[0] == MINUS || IsDigit(m[0])) && Strtod(m) == (x, |m|)
    requires forall k :: 0 <= k < |m| ==> IsNumberByte(m[k])
    ensures ReadValue(d, q, depth) == Ok(Number(x), q + |m|)
  {
    hide Strtod, ReadNumber;
    Lead(d, q, m);
    assert forall k :: q <= k < q + |m| ==> d[k] == m[k - q];
    RunAll(d, q, |m|, 63);
    ReadNumberText(d, q, m, x);
    NoLiteral(d, q);
  }

  /** A text without terminator that stands before the end stands in the text itself. */
  lemma InsideText(s: seq<byte>, i: nat, t: seq<byte>)
    requires At(s + [NUL], i, t) && NulFree(t) && t != []
    ensures At(s, i, t)
  {
    var c := s + [NUL];
    assert t[|t| - 1] == c[i + |t| - 1] != NUL;
    assert s[i..i + |t|] == c[i..i + |t|];
  }

  // ---- Values ----

  ghost predicate ReadsElems(m: seq<byte>, es: Elems, depth: nat) {
    m != [] && forall d: seq<byte>, q: nat :: Terminated(d) && At(d, q, m) ==> ReadElems(d, q, depth) == Ok(es, q + |m|)
  }

  ghost predicate ReadsMembers(m: seq<byte>, ms: Members, depth: nat) {
    m != [] && forall d: seq<byte>, q: nat :: Terminated(d) && At(d, q, m) ==>
                 ReadMembers(d, q, depth) == Ok(ms, q + |m|)
  }

  lemma LiteralBecomes(s: seq<byte>, i: nat, t: seq<byte>, v: Value, depth: nat)
    requires NulFree(s) && At(s + [NUL], i, t)
    requires (t == NULL_TEXT && v == Null) || (t == FALSE_TEXT && v == False) || (t == TRUE_TEXT && v == True)
    ensures Becomes(s, i, i + |t|, t) && ReadsValue(t, v, depth)
  {
    hide Minified;
    InsideText(s, i, t);
    BecomesItself(s, i, t);
    forall d: seq<byte>, q: nat | Terminated(d) && At(d, q, t) && Delimited(d, q + |t|)
      ensures ReadValue(d, q, depth) == Ok(v, q + |t|)
    {
      Lead(d, q, t);
      if t != NULL_TEXT {
        StartsOtherwise(d, q, NULL_TEXT);
      }
      if t == TRUE_TEXT {
        StartsOtherwise(d, q, FALSE_TEXT);
      }
    }
  }

  lemma {:induction false} ValueBecomes(s: seq<byte>, i: nat, depth: nat) returns (m: seq<byte>)
    requires i < |s| && NulFree(s) && ReadValue(s + [NUL], i, depth).Ok?
    requires Delimited(s + [NUL], ReadValue(s + [NUL], i, depth).next)
    ensures var r := ReadValue(s + [NUL], i, depth);
            Becomes(s, i, r.next, m) && ReadsValue(m, r.value, depth) && m != [] && m[0] == s[i] > 32
    decreases |s| - i, 1
  {
    hide ReadString, ReadNumber, ReadArray, ReadObject, Becomes, ReadsValue, ReadsString, At;
    var c := s + [NUL];
    assert c[i] == s[i];
    if At(c, i, NULL_TEXT) {
      m := NULL_TEXT;
      Lead(c, i, m);
      LiteralBecomes(s, i, m, Null, depth);
    } else if At(c, i, FALSE_TEXT) {
      m := FALSE_TEXT;
      Lead(c, i, m);
      LiteralBecomes(s, i, m, False, depth);
    } else if At(c, i, TRUE_TEXT) {
      m := TRUE_TEXT;
      Lead(c, i, m);
      LiteralBecomes(s, i, m, True, depth);
    } else if c[i] == QUOTE {
      m := StringBecomes(s, i);
      StringValue(m, ReadString(c, i).value, depth);
    } else if c[i] == MINUS || IsDigit(c[i]) {
      m := NumberBecomes(s, i, depth);
    } else if c[i] == LBRACKET {
      m := ArrayBecomes(s, i, depth);
    } else {
      m := ObjectBecomes(s, i, depth);
    }
  }

  lemma StringValue(m: seq<byte>, str: seq<byte>, depth: nat)
    requires ReadsString(m, str) && m != [] && m[0] == QUOTE
    ensures ReadsValue(m, String(str), depth)
  {
    hide ReadString;
    forall d: seq<byte>, q: nat | Terminated(d) && At(d, q, m) && Delimited(d, q + |m|)
      ensures ReadValue(d, q, depth) == Ok(String(str), q + |m|)
    {
      Lead(d, q, m);
      NoLiteral(d, q);
    }
  }

  lemma {:induction false} ArrayBecomes(s: seq<byte>, i: nat, depth: nat) returns (m: seq<byte>)
    requires i < |s| && NulFree(s) && s[i] == LBRACKET && ReadArray(s + [NUL], i, depth).Ok?
    ensures var r := ReadArray(s + [NUL], i, depth);
            Becomes(s, i, r.next, m) && ReadsValue(m, r.value, depth) && m != [] && m[0] == LBRACKET
    decreases |s| - i, 0
  {
    hide Becomes, ReadElems, ReadsElems, ReadsValue, White, SkipSpace, At;
    var c := s + [NUL];
    var w := WhiteBecomes(s, i + 1);
    var j := SkipSpace(c, i + 1);
    BecomesByte(s, i, LBRACKET);
    BecomesJoin(s, i, i + 1, j, [LBRACKET], w);
    AfterSpace(s, i + 1);
    if c[j] == RBRACKET {
      m := [LBRACKET] + w + [RBRACKET];
      BecomesByte(s, j, RBRACKET);
      BecomesJoin(s, i, j, j + 1, [LBRACKET] + w, [RBRACKET]);
      EmptyArray(w, depth);
    } else {
      var rest := ElemsBecomes(s, j, depth + 1);
      m := [LBRACKET] + w + rest;
      BecomesJoin(s, i, j, ReadElems(c, j, depth + 1).next, [LBRACKET] + w, rest);
      FullArray(w, rest, ReadElems(c, j, depth + 1).value, depth);
    }
  }

  /** The byte after what was skipped is no white space, unless it is the terminator. */
  lemma {:induction false} AfterSpace(s: seq<byte>, i: nat)
    requires i <= |s| && NulFree(s)
    ensures var j := SkipSpace(s + [NUL], i);
            i <= j <= |s| && (j < |s| ==> (s + [NUL])[j] == s[j] > 32) && (j == |s| ==> (s + [NUL])[j] == NUL)
    ensures i < |s| && s[i] > 32 ==> SkipSpace(s + [NUL], i) == i
    decreases |s| - i
  {
    var c := s + [NUL];
    if i < |s| && s[i] <= 32 {
      AfterSpace(s, i + 1);
    } else {
      assert i == |s| ==> SkipSpace(c, i + 1) == |s|;
    }
  }

  lemma EmptyArray(w: seq<byte>, depth: nat)
    requires White(w) && depth < NESTING_LIMIT
    ensures ReadsValue([LBRACKET] + w + [RBRACKET], Array(NoElem), depth)
  {
    hide At, SkipSpace;
    var m := [LBRACKET] + w + [RBRACKET];
    forall d: seq<byte>, q: nat | Terminated(d) && At(d, q, m) && Delimited(d, q + |m|)
      ensures ReadValue(d, q, depth) == Ok(Array(NoElem), q + |m|)
    {
      BracketAt(d, q, LBRACKET, w, [RBRACKET]);
      NoLiteral(d, q);
    }
  }

  lemma FullArray(w: seq<byte>, rest: seq<byte>, es: Elems, depth: nat)
    requires White(w) && ReadsElems(rest, es, depth + 1) && rest != [] && rest[0] > 32 && rest[0] != RBRACKET
    requires depth < NESTING_LIMIT
    ensures ReadsValue([LBRACKET] + w + rest, Array(es), depth)
  {
    hide At, SkipSpace, ReadElems;
    var m := [LBRACKET] + w + rest;
    forall d: seq<byte>, q: nat | Terminated(d) && At(d, q, m) && Delimited(d, q + |m|)
      ensures ReadValue(d, q, depth) == Ok(Array(es), q + |m|)
    {
      BracketAt(d, q, LBRACKET, w, rest);
      NoLiteral(d, q);
    }
  }

  /** From an opening bracket over white space to what follows. */
  lemma BracketAt(d: seq<byte>, q: nat, open: byte, w: seq<byte>, rest: seq<byte>)
    requires At(d, q, [open] + w + rest) && White(w) && rest != [] && rest[0] > 32
    ensures q + 1 + |w| < |d| && d[q] == open && d[q + 1 + |w|] == rest[0]
    ensures SkipSpace(d, q + 1) == q + 1 + |w| && At(d, q + 1 + |w|, rest)
  {
    hide At, SkipSpace;
    assert [open] + w + rest == [open] + (w + rest);
    AtSplit(d, q, [open], w + rest);
    AtByte(d, q, open);
    WhiteAt(d, q + 1, w, rest);
  }

  lemma WhiteAt(d: seq<byte>, q: nat, w: seq<byte>, rest: seq<byte>)
    requires At(d, q, w + rest) && White(w) && rest != [] && rest[0] > 32
    ensures q + |w| < |d| && d[q + |w|] == rest[0] && SkipSpace(d, q) == q + |w|
    ensures At(d, q, w) && At(d, q + |w|, rest)
  {
    hide At, SkipSpace;
    AtSplit(d, q, w, rest);
    Lead(d, q + |w|, rest);
    SkipBlank(d, q, w);
  }

  lemma {:induction false} ElemsBecomes(s: seq<byte>, p: nat, depth: nat) returns (m: seq<byte>)
    requires p <= |s| && NulFree(s) && ReadElems(s + [NUL], p, depth).Ok?
    ensures var r := ReadElems(s + [NUL], p, depth);
            Becomes(s, p, r.next, m) && ReadsElems(m, r.value, depth) && m != []
    ensures p < |s| && s[p] > 32 ==> m[0] == s[p]
    decreases |s| - p, 2
  {
    hide Becomes, ReadValue, ReadsElems, ReadsValue, White, SkipSpace, At, Delimited;
    var c := s + [NUL];
    var w := WhiteBecomes(s, p);
    var i := SkipSpace(c, p);
    AfterSpace(s, p);
    ValueStarts(s, i, depth);
    var v, n := ReadValue(c, i, depth).value, ReadValue(c, i, depth).next;
    var k := SkipSpace(c, n);
    AfterSpace(s, n);
    ValueEnds(s, n);
    var mv := ValueBecomes(s, i, depth);
    var w' := WhiteBecomes(s, n);
    var first := w + mv + w';
    BecomesJoin(s, p, i, n, w, mv);
    BecomesJoin(s, p, n, k, w + mv, w');
    BecomesByte(s, k, c[k]);
    BecomesJoin(s, p, k, k + 1, first, [c[k]]);
    if c[k] == COMMA {
      var rest := ElemsBecomes(s, k + 1, depth);
      m := first + [COMMA] + rest;
      BecomesJoin(s, p, k + 1, ReadElems(c, k + 1, depth).next, first + [COMMA], rest);
      MoreElems(w, mv, w', rest, v, ReadElems(c, k + 1, depth).value, depth);
    } else {
      m := first + [RBRACKET];
      LastElem(w, mv, w', v, depth);
    }
  }

  lemma ValueStarts(s: seq<byte>, i: nat, depth: nat)
    requires i <= |s| && ReadValue(s + [NUL], i, depth).Ok?
    ensures i < |s|
  {
    hide ReadString, ReadNumber, ReadArray, ReadObject;
  }

  /** A value is followed by white space or by what stands behind it. */
  lemma ValueEnds(s: seq<byte>, n: nat)
    requires n <= |s| && NulFree(s) && !IsNumberByte((s + [NUL])[SkipSpace(s + [NUL], n)])
    ensures Delimited(s + [NUL], n)
  {
  }

  /** A value between white space, and what follows it. */
  lemma ValueAt(d: seq<byte>, q: nat, w: seq<byte>, mv: seq<byte>, w': seq<byte>, tail: seq<byte>, v: Value, depth: nat)
    requires Terminated(d) && At(d, q, w + mv + w' + tail) && White(w) && White(w')
    requires ReadsValue(mv, v, depth) && mv != [] && mv[0] > 32
    requires tail != [] && tail[0] > 32 && !IsNumberByte(tail[0])
    ensures var i, n, k := q + |w|, q + |w| + |mv|, q + |w| + |mv| + |w'|;
            && q < |d| && SkipSpace(d, q) == i < |d| && ReadValue(d, i, depth) == Ok(v, n)
            && SkipSpace(d, n) == k < |d| && d[k] == tail[0] && At(d, k, tail)
  {
    hide At, SkipSpace, ReadValue, White, ReadsValue;
    var i, n := q + |w|, q + |w| + |mv|;
    assert w + mv + w' + tail == w + (mv + (w' + tail));
    WhiteAt(d, q, w, mv + (w' + tail));
    AtSplit(d, i, mv, w' + tail);
    WhiteAt(d, n, w', tail);
    DelimitedBy(d, n, w', tail);
    UseValue(mv, v, depth, d, i);
  }

  lemma DelimitedBy(d: seq<byte>, n: nat, w: seq<byte>, tail: seq<byte>)
    requires At(d, n, w) && At(d, n + |w|, tail) && White(w) && tail != [] && !IsNumberByte(tail[0])
    ensures Delimited(d, n)
  {
    hide At;
    if w == [] {
      Lead(d, n, tail);
    } else {
      Lead(d, n, w);
    }
  }

  lemma UseValue(m: seq<byte>, v: Value, depth: nat, d: seq<byte>, q: nat)
    requires ReadsValue(m, v, depth) && Terminated(d) && At(d, q, m) && Delimited(d, q + |m|)
    ensures q < |d| && ReadValue(d, q, depth) == Ok(v, q + |m|)
  {
    hide ReadValue;
  }

  lemma UseElems(m: seq<byte>, es: Elems, depth: nat, d: seq<byte>, q: nat)
    requires ReadsElems(m, es, depth) && Terminated(d) && At(d, q, m)
    ensures q < |d| && ReadElems(d, q, depth) == Ok(es, q + |m|)
  {
    hide ReadElems;
  }

  lemma LastElem(w: seq<byte>, mv: seq<byte>, w': seq<byte>, v: Value, depth: nat)
    requires White(w) && White(w') && ReadsValue(mv, v, depth) && mv != [] && mv[0] > 32
    ensures ReadsElems(w + mv + w' + [RBRACKET], Elem(v, NoElem), depth)
  {
    hide ReadValue, SkipSpace, ReadsValue;
    var m := w + mv + w' + [RBRACKET];
    forall d: seq<byte>, q: nat | Terminated(d) && At(d, q, m)
      ensures ReadElems(d, q, depth) == Ok(Elem(v, NoElem), q + |m|)
    {
      ValueAt(d, q, w, mv, w', [RBRACKET], v, depth);
    }
  }

  lemma MoreElems(w: seq<byte>, mv: seq<byte>, w': seq<byte>, rest: seq<byte>, v: Value, es: Elems, depth: nat)
    requires White(w) && White(w') && ReadsValue(mv, v, depth) && mv != [] && mv[0] > 32
    requires ReadsElems(rest, es, depth)
    ensures ReadsElems(w + mv + w' + [COMMA] + rest, Elem(v, es), depth)
  {
    hide ReadElems, ReadsValue, White;
    var m := w + mv + w' + [COMMA] + rest;
    forall d: seq<byte>, q: nat | Terminated(d) && At(d, q, m)
      ensures ReadElems(d, q, depth) == Ok(Elem(v, es), q + |m|)
    {
      MoreElemsAt(d, q, w, mv, w', rest, v, es, depth);
    }
  }

  lemma MoreElemsAt(d: seq<byte>, q: nat, w: seq<byte>, mv: seq<byte>, w': seq<byte>, rest: seq<byte>,
                    v: Value, es: Elems, depth: nat)
    requires Terminated(d) && At(d, q, w + mv + w' + [COMMA] + rest)
    requires White(w) && White(w') && ReadsValue(mv, v, depth) && mv != [] && mv[0] > 32
    requires ReadsElems(rest, es, depth)
    ensures q < |d| && ReadElems(d, q, depth) == Ok(Elem(v, es), q + |w + mv + w' + [COMMA] + rest|)
  {
    hide At, ReadValue, SkipSpace, ReadsValue, ReadsElems, White, Terminated;
    var tail := [COMMA] + rest;
    assert w + mv + w' + [COMMA] + rest == w + mv + w' + tail;
    ValueAt(d, q, w, mv, w', tail, v, depth);
    var k := q + |w| + |mv| + |w'|;
    AtSplit(d, k, [COMMA], rest);
    UseElems(rest, es, depth, d, k + 1);
    assert ReadElems(d, q, depth) == ReadElemsTail(d, v, k, depth);
  }

  lemma {:induction false} ObjectBecomes(s: seq<byte>, i: nat, depth: nat) returns (m: seq<byte>)
    requires i < |s| && NulFree(s) && s[i] == LBRACE && ReadObject(s + [NUL], i, depth).Ok?
    ensures var r := ReadObject(s + [NUL], i, depth);
            Becomes(s, i, r.next, m) && ReadsValue(m, r.value, depth) && m != [] && m[0] == LBRACE
    decreases |s| - i, 0
  {
    hide Becomes, ReadMembers, ReadsMembers, ReadsValue, White, SkipSpace, At;
    var c := s + [NUL];
    var w := WhiteBecomes(s, i + 1);
    var j := SkipSpace(c, i + 1);
    BecomesByte(s, i, LBRACE);
    BecomesJoin(s, i, i + 1, j, [LBRACE], w);
    AfterSpace(s, i + 1);
    if c[j] == RBRACE {
      m := [LBRACE] + w + [RBRACE];
      BecomesByte(s, j, RBRACE);
      BecomesJoin(s, i, j, j + 1, [LBRACE] + w, [RBRACE]);
      EmptyObject(w, depth);
    } else {
      var rest := MembersBecomes(s, j, depth + 1);
      m := [LBRACE] + w + rest;
      BecomesJoin(s, i, j, ReadMembers(c, j, depth + 1).next, [LBRACE] + w, rest);
      FullObject(w, rest, ReadMembers(c, j, depth + 1).value, depth);
    }
  }

  lemma EmptyObject(w: seq<byte>, depth: nat)
    requires White(w) && depth < NESTING_LIMIT
    ensures ReadsValue([LBRACE] + w + [RBRACE], Object(NoMember), depth)
  {
    hide At, SkipSpace;
    var m := [LBRACE] + w + [RBRACE];
    forall d: seq<byte>, q: nat | Terminated(d) && At(d, q, m) && Delimited(d, q + |m|)
      ensures ReadValue(d, q, depth) == Ok(Object(NoMember), q + |m|)
    {
      BracketAt(d, q, LBRACE, w, [RBRACE]);
      NoLiteral(d, q);
    }
  }

  lemma FullObject(w: seq<byte>, rest: seq<byte>, ms: Members, depth: nat)
    requires White(w) && ReadsMembers(rest, ms, depth + 1) && rest != [] && rest[0] > 32 && rest[0] != RBRACE
    requires depth < NESTING_LIMIT
    ensures ReadsValue([LBRACE] + w + rest, Object(ms), depth)
  {
    hide At, SkipSpace, ReadMembers;
    var m := [LBRACE] + w + rest;
    forall d: seq<byte>, q: nat | Terminated(d) && At(d, q, m) && Delimited(d, q + |m|)
      ensures ReadValue(d, q, depth) == Ok(Object(ms), q + |m|)
    {
      BracketAt(d, q, LBRACE, w, rest);
      NoLiteral(d, q);
    }
  }

  /** The text up to and including the colon of a member becomes `m`. */
  lemma KeyBecomes(s: seq<byte>, p: nat) returns (w: seq<byte>, mk: seq<byte>, w': seq<byte>, k: nat)
    requires p <= |s| && NulFree(s) && ReadString(s + [NUL], SkipSpace(s + [NUL], p)).Ok?
    requires var next := ReadString(s + [NUL], SkipSpace(s + [NUL], p)).next;
             (s + [NUL])[SkipSpace(s + [NUL], next)] == COLON
    ensures var r := ReadString(s + [NUL], SkipSpace(s + [NUL], p));
            && White(w) && White(w') && ReadsString(mk, r.value) && mk != [] && mk[0] == QUOTE
            && k == SkipSpace(s + [NUL], r.next) && p < k < |s| && Becomes(s, p, k + 1, w + mk + w' + [COLON])
    ensures p < |s| && s[p] > 32 ==> s[p] == QUOTE && w == []
  {
    hide Becomes, ReadsString, White, SkipSpace, ScanString, Unescape;
    var c := s + [NUL];
    var i := SkipSpace(c, p);
    w := WhiteBecomes(s, p);
    AfterSpace(s, p);
    mk := StringBecomes(s, i);
    var n := ReadString(c, i).next;
    w' := WhiteBecomes(s, n);
    AfterSpace(s, n);
    k := SkipSpace(c, n);
    BecomesJoin(s, p, i, n, w, mk);
    BecomesJoin(s, p, n, k, w + mk, w');
    BecomesByte(s, k, COLON);
    BecomesJoin(s, p, k, k + 1, w + mk + w', [COLON]);
  }

  lemma {:induction false} MembersBecomes(s: seq<byte>, p: nat, depth: nat) returns (m: seq<byte>)
    requires p <= |s| && NulFree(s) && ReadMembers(s + [NUL], p, depth).Ok?
    ensures var r := ReadMembers(s + [NUL], p, depth);
            Becomes(s, p, r.next, m) && ReadsMembers(m, r.value, depth) && m != []
    ensures p < |s| && s[p] > 32 ==> m[0] == s[p]
    decreases |s| - p, 2
  {
    hide Becomes, ReadValue, ReadString, ReadsMembers, ReadsValue, ReadsString, White, SkipSpace, At, Delimited;
    var c := s + [NUL];
    var key := ReadString(c, SkipSpace(c, p)).value;
    var w, mk, w', colon := KeyBecomes(s, p);
    var head := w + mk + w' + [COLON];
    var i := SkipSpace(c, colon + 1);
    AfterSpace(s, colon + 1);
    ValueStarts(s, i, depth);
    var v, n := ReadValue(c, i, depth).value, ReadValue(c, i, depth).next;
    var k := SkipSpace(c, n);
    AfterSpace(s, n);
    ValueEnds(s, n);
    var u := WhiteBecomes(s, colon + 1);
    var mv := ValueBecomes(s, i, depth);
    var u' := WhiteBecomes(s, n);
    BecomesJoin(s, colon + 1, i, n, u, mv);
    BecomesJoin(s, colon + 1, n, k, u + mv, u');
    BecomesByte(s, k, c[k]);
    if c[k] == COMMA {
      var rest := MembersBecomes(s, k + 1, depth);
      var tail := [COMMA] + rest;
      BecomesJoin(s, k, k + 1, ReadMembers(c, k + 1, depth).next, [COMMA], rest);
      BecomesJoin(s, colon + 1, k, ReadMembers(c, k + 1, depth).next, u + mv + u', tail);
      m := head + (u + mv + u' + tail);
      BecomesJoin(s, p, colon + 1, ReadMembers(c, k + 1, depth).next, head, u + mv + u' + tail);
      MoreMembers(w, mk, w', u, mv, u', rest, key, v, ReadMembers(c, k + 1, depth).value, depth);
    } else {
      m := head + (u + mv + u' + [RBRACE]);
      BecomesJoin(s, colon + 1, k, k + 1, u + mv + u', [RBRACE]);
      BecomesJoin(s, p, colon + 1, k + 1, head, u + mv + u' + [RBRACE]);
      LastMember(w, mk, w', u, mv, u', key, v, depth);
    }
  }

  /** A key between white space, and its colon. */
  lemma KeyAt(d: seq<byte>, q: nat, w: seq<byte>, mk: seq<byte>, w': seq<byte>, tail: seq<byte>, key: seq<byte>)
    requires Terminated(d) && At(d, q, w + mk + w' + [COLON] + tail) && White(w) && White(w')
    requires ReadsString(mk, key) && mk != [] && mk[0] == QUOTE
    ensures var i, n, k := q + |w|, q + |w| + |mk|, q + |w| + |mk| + |w'|;
            && q < |d| && SkipSpace(d, q) == i < |d| && ReadString(d, i) == Ok(key, n)
            && SkipSpace(d, n) == k && k + 1 <= |d| && d[k] == COLON && At(d, k + 1, tail)
  {
    hide At, SkipSpace, ReadString, White, ReadsString;
    var i, n, k := q + |w|, q + |w| + |mk|, q + |w| + |mk| + |w'|;
    assert w + mk + w' + [COLON] + tail == w + (mk + (w' + ([COLON] + tail)));
    WhiteAt(d, q, w, mk + (w' + ([COLON] + tail)));
    AtSplit(d, i, mk, w' + ([COLON] + tail));
    WhiteAt(d, n, w', [COLON] + tail);
    AtSplit(d, k, [COLON], tail);
    UseString(mk, key, d, i);
  }

  lemma UseString(m: seq<byte>, str: seq<byte>, d: seq<byte>, q: nat)
    requires ReadsString(m, str) && Terminated(d) && At(d, q, m)
    ensures q < |d| && ReadString(d, q) == Ok(str, q + |m|)
  {
    hide ReadString;
  }

  lemma UseMembers(m: seq<byte>, ms: Members, depth: nat, d: seq<byte>, q: nat)
    requires ReadsMembers(m, ms, depth) && Terminated(d) && At(d, q, m)
    ensures q < |d| && ReadMembers(d, q, depth) == Ok(ms, q + |m|)
  {
    hide ReadMembers;
  }

  /** One member, wherever its text stands. */
  lemma MemberAt(d: seq<byte>, q: nat, w: seq<byte>, mk: seq<byte>, w': seq<byte>, u: seq<byte>, mv: seq<byte>,
                 u': seq<byte>, tail: seq<byte>, key: seq<byte>, v: Value, depth: nat)
    requires Terminated(d) && At(d, q, w + mk + w' + [COLON] + (u + mv + u' + tail))
    requires White(w) && White(w') && White(u) && White(u')
    requires ReadsString(mk, key) && mk != [] && mk[0] == QUOTE && ReadsValue(mv, v, depth) && mv != [] && mv[0] > 32
    requires tail != [] && tail[0] > 32 && !IsNumberByte(tail[0])
    ensures var k := q + |w + mk + w' + [COLON]| + |u + mv + u'|;
            && q < |d| && k < |d| && d[k] == tail[0] && At(d, k, tail)
            && ReadMembers(d, q, depth) == ReadMembersTail(d, key, v, k, depth)
  {
    hide At, SkipSpace, ReadString, ReadValue, White, ReadsString, ReadsValue, ReadMembersTail;
    KeyAt(d, q, w, mk, w', u + mv + u' + tail, key);
    var colon := q + |w| + |mk| + |w'|;
    ValueAt(d, colon + 1, u, mv, u', tail, v, depth);
    assert ReadMember(d, q, depth) == Ok((key, v), colon + 1 + |u| + |mv|);
  }

  lemma LastMember(w: seq<byte>, mk: seq<byte>, w': seq<byte>, u: seq<byte>, mv: seq<byte>, u': seq<byte>,
                   key: seq<byte>, v: Value, depth: nat)
    requires White(w) && White(w') && White(u) && White(u')
    requires ReadsString(mk, key) && mk != [] && mk[0] == QUOTE && ReadsValue(mv, v, depth) && mv != [] && mv[0] > 32
    ensures ReadsMembers(w + mk + w' + [COLON] + (u + mv + u' + [RBRACE]), Member(key, v, NoMember), depth)
  {
    hide ReadMembers, ReadsString, ReadsValue, White;
    var m := w + mk + w' + [COLON] + (u + mv + u' + [RBRACE]);
    forall d: seq<byte>, q: nat | Terminated(d) && At(d, q, m)
      ensures ReadMembers(d, q, depth) == Ok(Member(key, v, NoMember), q + |m|)
    {
      MemberAt(d, q, w, mk, w', u, mv, u', [RBRACE], key, v, depth);
    }
  }

  lemma MoreMembers(w: seq<byte>, mk: seq<byte>, w': seq<byte>, u: seq<byte>, mv: seq<byte>, u': seq<byte>,
                    rest: seq<byte>, key: seq<byte>, v: Value, ms: Members, depth: nat)
    requires White(w) && White(w') && White(u) && White(u')
    requires ReadsString(mk, key) && mk != [] && mk[0] == QUOTE && ReadsValue(mv, v, depth) && mv != [] && mv[0] > 32
    requires ReadsMembers(rest, ms, depth)
    ensures ReadsMembers(w + mk + w' + [COLON] + (u + mv + u' + ([COMMA] + rest)), Member(key, v, ms), depth)
  {
    hide ReadMembers, ReadsString, ReadsValue, White;
    var tail := [COMMA] + rest;
    var m := w + mk + w' + [COLON] + (u + mv + u' + tail);
    forall d: seq<byte>, q: nat | Terminated(d) && At(d, q, m)
      ensures ReadMembers(d, q, depth) == Ok(Member(key, v, ms), q + |m|)
    {
      MemberAt(d, q, w, mk, w', u, mv, u', tail, key, v, depth);
      var k := q + |w + mk + w' + [COLON]| + |u + mv + u'|;
      AtSplit(d, k, [COMMA], rest);
      UseMembers(rest, ms, depth, d, k + 1);
    }
  }

  // ---- Texts ----

  /**
   * A text that is a value and nothing else stays one when it is minified, and stays the same value. There
   * is no comment in such a text outside its strings, and no string in it is left open.
   */
  lemma MinifyKeepsMeaning(s: seq<byte>)
    requires NulFree(s) && Parse(s, true).Ok?
    ensures Minified(s, 0).Some? && CommentFree(s, 0)
    ensures var t := Minified(s, 0).value; Parse(t, true) == Ok(Parse(s, true).value, |t|)
  {
    hide ReadValue, SkipSpace, ReadsValue, White, Delimited, Minified;
    var c := s + [NUL];
    var i := SkipSpace(c, 0);
    AfterSpace(s, 0);
    ValueStarts(s, i, 0);
    var v, n := ReadValue(c, i, 0).value, ReadValue(c, i, 0).next;
    AfterSpace(s, n);
    ValueEnds(s, n);
    var w := WhiteBecomes(s, 0);
    var mv := ValueBecomes(s, i, 0);
    var w' := WhiteBecomes(s, n);
    BecomesJoin(s, 0, i, n, w, mv);
    BecomesJoin(s, 0, n, |s|, w + mv, w');
    MinifiedEnd(s, w + mv + w');
    Reparsed(w, mv, w', v);
  }

  lemma Reparsed(w: seq<byte>, mv: seq<byte>, w': seq<byte>, v: Value)
    requires White(w) && White(w') && ReadsValue(mv, v, 0) && mv != [] && mv[0] > 32
    ensures var t := w + mv + w'; Parse(t, true) == Ok(v, |t|)
  {
    hide At, ReadValue, SkipSpace, ReadsValue;
    var t := w + mv + w';
    var d := t + [NUL];
    assert At(d, 0, w + (mv + (w' + [NUL]))) by {
      WholeAt(d);
      assert d == w + (mv + (w' + [NUL]));
    }
    WhiteAt(d, 0, w, mv + (w' + [NUL]));
    AtSplit(d, |w|, mv, w' + [NUL]);
    AtSplit(d, |w| + |mv|, w', [NUL]);
    DelimitedBy(d, |w| + |mv|, w', [NUL]);
    UseValue(mv, v, 0, d, |w|);
    WhiteToEnd(d, |w| + |mv|);
  }

  lemma WholeAt(d: seq<byte>)
    ensures At(d, 0, d)
  {
    assert d[0..|d|] == d;
  }

  lemma {:induction false} WhiteToEnd(d: seq<byte>, i: nat)
    requires i < |d| && forall k :: i <= k < |d| ==> d[k] <= 32
    ensures SkipSpace(d, i) == |d| - 1
    decreases |d| - i
  {
    if i + 1 < |d| {
      WhiteToEnd(d, i + 1);
    }
  }
}

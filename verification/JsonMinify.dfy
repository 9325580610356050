/** cJSON_Minify: removing white space and comments in place. */
module JsonMinify {
  import opened Bytes
  import opened JsonValue
  import opened JsonText
  import opened JsonGrammar
  import opened JsonRoundTrip

  predicate IsBlank(b: byte) {
    b == SPACE || b == TAB || b == RETURN || b == NEWLINE
  }

  /** The byte at `i`, or the terminator. */
  function Peek(s: seq<byte>, i: nat): byte {
    if i < |s| then s[i] else NUL
  }

  /** Where a comment to the end of the line stops. */
  function LineEndFrom(s: seq<byte>, i: nat): (j: nat)
    requires i <= |s|
    ensures i <= j <= |s|
    decreases |s| - i
  {
    if i < |s| && s[i] != NEWLINE then LineEndFrom(s, i + 1) else i
  }

  /** Where the end mark of a comment stands, or the end of the text. */
  function CommentEndFrom(s: seq<byte>, i: nat): (j: nat)
    requires i <= |s|
    ensures i <= j <= |s|
    ensures j < |s| ==> s[j] == STAR && Peek(s, j + 1) == SLASH
    decreases |s| - i
  {
    if i < |s| && !(s[i] == STAR && Peek(s, i + 1) == SLASH) then CommentEndFrom(s, i + 1) else i
  }

  /** What remains of the C string `s` from `i` on; `None` when a string or a comment is not closed. */
  function Minified(s: seq<byte>, i: nat): Option<seq<byte>>
    requires i <= |s|
    decreases |s| - i
  {
    if i == |s| then Some([])
    else if IsBlank(s[i]) then Minified(s, i + 1)
    else if s[i] == SLASH && Peek(s, i + 1) == SLASH then
      Minified(s, LineEndFrom(s, i + 1))
    else if s[i] == SLASH && Peek(s, i + 1) == STAR then
      var j := CommentEndFrom(s, i + 1);
      if j == |s| then None else Minified(s, j + 2)
    else if s[i] == QUOTE then
      match ScanString(s, i + 1)
      case Open => None
      case Closed(end, _) => Behind(s[i..end + 1], Minified(s, end + 1))
    else Behind([s[i]], Minified(s, i + 1))
  }

  function Behind(t: seq<byte>, r: Option<seq<byte>>): Option<seq<byte>> {
    match r
    case None => None
    case Some(rest) => Some(t + rest)
  }

  // ---- Printed text ----

  lemma BehindTwice(t: seq<byte>, u: seq<byte>, r: Option<seq<byte>>)
    ensures Behind(t, Behind(u, r)) == Behind(t + u, r)
  {
    match r
    case None =>
    case Some(rest) => assert t + (u + rest) == t + u + rest;
  }

  lemma BehindNothing(r: Option<seq<byte>>)
    ensures Behind([], r) == r
  {
    match r
    case None =>
    case Some(rest) => assert [] + rest == rest;
  }

  predicate Plain(t: seq<byte>) {
    forall k :: 0 <= k < |t| ==> !IsBlank(t[k]) && t[k] != SLASH && t[k] != QUOTE
  }

  predicate Blank(t: seq<byte>) {
    forall k :: 0 <= k < |t| ==> IsBlank(t[k])
  }

  lemma {:induction false} MinifyPlain(s: seq<byte>, i: nat, t: seq<byte>)
    requires At(s, i, t) && Plain(t)
    ensures Minified(s, i) == Behind(t, Minified(s, i + |t|))
    decreases |t|
  {
    if t == [] {
      BehindNothing(Minified(s, i));
    } else {
      Lead(s, i, t);
      assert t == [t[0]] + t[1..];
      AtSplit(s, i, [t[0]], t[1..]);
      MinifyPlain(s, i + 1, t[1..]);
      BehindTwice([t[0]], t[1..], Minified(s, i + |t|));
    }
  }

  lemma {:induction false} MinifyBlank(s: seq<byte>, i: nat, t: seq<byte>)
    requires At(s, i, t) && Blank(t)
    ensures Minified(s, i) == Minified(s, i + |t|)
    decreases |t|
  {
    if t != [] {
      Lead(s, i, t);
      assert t == [t[0]] + t[1..];
      AtSplit(s, i, [t[0]], t[1..]);
      MinifyBlank(s, i + 1, t[1..]);
    }
  }

  lemma MinifyString(s: seq<byte>, i: nat, str: seq<byte>)
    requires At(s, i, StringText(str)) && NulFree(str)
    ensures Minified(s, i) == Behind(StringText(str), Minified(s, i + |StringText(str)|))
  {
    hide At, EscapedAll;
    var body := EscapedAll(str) + [QUOTE];
    assert StringText(str) == [QUOTE] + body;
    AtSplit(s, i, [QUOTE], body);
    AtByte(s, i, QUOTE);
    ScanEscaped(s, i + 1, str);
    SliceAt(s, i, StringText(str));
  }

  lemma SliceAt(s: seq<byte>, i: nat, t: seq<byte>)
    requires At(s, i, t)
    ensures i + |t| <= |s| && s[i..i + |t|] == t
  {
  }

  lemma DecimalPlain(n: int)
    ensures Plain(Decimal(n))
  {
  }

  /** The text `full` at `i` shrinks to `short`. */
  predicate Shrinks(s: seq<byte>, i: nat, full: seq<byte>, short: seq<byte>) {
    At(s, i, full) && Minified(s, i) == Behind(short, Minified(s, i + |full|))
  }

  lemma ShrinksJoin(s: seq<byte>, i: nat, a: seq<byte>, a': seq<byte>, b: seq<byte>, b': seq<byte>)
    requires Shrinks(s, i, a, a') && Shrinks(s, i + |a|, b, b')
    ensures Shrinks(s, i, a + b, a' + b')
  {
    hide Minified, At, Behind;
    SliceAt(s, i + |a|, b);
    AtSplit(s, i, a, b);
    BehindTwice(a', b', Minified(s, i + |a| + |b|));
  }

  lemma ShrinkPiece(s: seq<byte>, i: nat, before: seq<byte>, plain: seq<byte>, after: seq<byte>)
    requires At(s, i, before + plain + after) && Blank(before) && Plain(plain) && Blank(after)
    ensures Shrinks(s, i, before + plain + after, plain)
  {
    hide Minified, At, Behind, Blank, Plain;
    assert before + plain + after == before + (plain + after);
    AtSplit(s, i, before, plain + after);
    AtSplit(s, i + |before|, plain, after);
    MinifyBlank(s, i, before);
    MinifyPlain(s, i + |before|, plain);
    MinifyBlank(s, i + |before| + |plain|, after);
  }

  // Each fixed piece of formatted text shrinks to the piece of unformatted text.

  lemma ShrinkSeparator(s: seq<byte>, i: nat, format: bool)
    requires At(s, i, Separator(format))
    ensures Shrinks(s, i, Separator(format), Separator(false))
  {
    hide At, Shrinks;
    var space := if format then [SPACE] else [];
    assert Separator(format) == [] + [COMMA] + space;
    ShrinkPiece(s, i, [], [COMMA], space);
  }

  lemma ShrinkOpening(s: seq<byte>, i: nat, format: bool)
    requires At(s, i, Opening(format))
    ensures Shrinks(s, i, Opening(format), Opening(false))
  {
    hide At, Shrinks;
    var newline := if format then [NEWLINE] else [];
    assert Opening(format) == [] + [LBRACE] + newline;
    ShrinkPiece(s, i, [], [LBRACE], newline);
  }

  lemma ShrinkIndent(s: seq<byte>, i: nat, format: bool, level: nat)
    requires At(s, i, Indent(format, level))
    ensures Shrinks(s, i, Indent(format, level), Indent(false, level))
  {
    hide At, Shrinks;
    assert Indent(format, level) == Indent(format, level) + [] + [];
    ShrinkPiece(s, i, Indent(format, level), [], []);
  }

  lemma ShrinkClosing(s: seq<byte>, i: nat, format: bool, level: nat)
    requires At(s, i, Closing(format, level))
    ensures Shrinks(s, i, Closing(format, level), Closing(false, level))
  {
    hide At, Shrinks;
    assert Closing(format, level) == Indent(format, level) + [RBRACE] + [];
    assert Closing(false, level) == [RBRACE];
    ShrinkPiece(s, i, Indent(format, level), [RBRACE], []);
  }

  lemma ShrinkColon(s: seq<byte>, i: nat, format: bool)
    requires At(s, i, Colon(format))
    ensures Shrinks(s, i, Colon(format), Colon(false))
  {
    hide At, Shrinks;
    var tab := if format then [TAB] else [];
    assert Colon(format) == [] + [COLON] + tab;
    ShrinkPiece(s, i, [], [COLON], tab);
  }

  lemma ShrinkLineEnd(s: seq<byte>, i: nat, format: bool, more: bool)
    requires At(s, i, LineEnd(format, more))
    ensures Shrinks(s, i, LineEnd(format, more), LineEnd(false, more))
  {
    hide At, Shrinks;
    var comma, newline := if more then [COMMA] else [], if format then [NEWLINE] else [];
    assert LineEnd(format, more) == [] + comma + newline && LineEnd(false, more) == comma;
    ShrinkPiece(s, i, [], comma, newline);
  }

  lemma {:induction false} ShrinkValue(s: seq<byte>, i: nat, v: Value, format: bool, level: nat)
    requires Printable(v) && RawFree(v) && At(s, i, Text(v, format, level))
    ensures Shrinks(s, i, Text(v, format, level), Text(v, false, level))
    decreases v, 1
  {
    hide At, Minified, Behind, ElemsText, MembersText;
    match v
    case Null => MinifyPlain(s, i, NULL_TEXT);
    case False => MinifyPlain(s, i, FALSE_TEXT);
    case True => MinifyPlain(s, i, TRUE_TEXT);
    case Number(d) => DecimalPlain(d.Floor); MinifyPlain(s, i, Decimal(d.Floor));
    case String(str) => MinifyString(s, i, str);
    case Array(es) =>
      var body := ElemsText(es, format, level + 1);
      AtSplit(s, i, [LBRACKET] + body, [RBRACKET]);
      AtSplit(s, i, [LBRACKET], body);
      MinifyPlain(s, i, [LBRACKET]);
      ShrinkElems(s, i + 1, es, format, level + 1);
      MinifyPlain(s, i + 1 + |body|, [RBRACKET]);
      ShrinksJoin(s, i, [LBRACKET], [LBRACKET], body, ElemsText(es, false, level + 1));
      ShrinksJoin(s, i, [LBRACKET] + body, [LBRACKET] + ElemsText(es, false, level + 1), [RBRACKET], [RBRACKET]);
    case Object(ms) =>
      var body := MembersText(ms, format, level + 1);
      AtSplit(s, i, Opening(format) + body, Closing(format, level));
      AtSplit(s, i, Opening(format), body);
      ShrinkOpening(s, i, format);
      ShrinkMembers(s, i + |Opening(format)|, ms, format, level + 1);
      ShrinkClosing(s, i + |Opening(format)| + |body|, format, level);
      ShrinksJoin(s, i, Opening(format), Opening(false), body, MembersText(ms, false, level + 1));
      ShrinksJoin(s, i, Opening(format) + body, Opening(false) + MembersText(ms, false, level + 1),
                  Closing(format, level), Closing(false, level));
  }

  lemma {:induction false} ShrinkElems(s: seq<byte>, i: nat, es: Elems, format: bool, level: nat)
    requires PrintableElems(es) && RawFreeElems(es) && At(s, i, ElemsText(es, format, level))
    ensures Shrinks(s, i, ElemsText(es, format, level), ElemsText(es, false, level))
    decreases es, 0
  {
    hide At, Shrinks, Text, Separator, ElemsText;
    if es.NoElem? {
      ElemsEnd(format, level);
      ElemsEnd(false, level);
      ShrinkNothing(s, i);
    } else {
      var t, t' := Text(es.value, format, level), Text(es.value, false, level);
      var rest, rest' := ElemsText(es.next, format, level), ElemsText(es.next, false, level);
      ElemsUnfold(es, format, level);
      ElemsUnfold(es, false, level);
      if es.next.Elem? {
        AtSplit(s, i, t, Separator(format) + rest);
        AtSplit(s, i + |t|, Separator(format), rest);
        ShrinkSeparator(s, i + |t|, format);
        ShrinkElems(s, i + |t| + |Separator(format)|, es.next, format, level);
        ShrinksJoin(s, i + |t|, Separator(format), Separator(false), rest, rest');
        ShrinkValue(s, i, es.value, format, level);
        ShrinksJoin(s, i, t, t', Separator(format) + rest, Separator(false) + rest');
      } else {
        ElemsEnd(format, level);
        ElemsEnd(false, level);
        assert t + ([] + []) == t && t' + ([] + []) == t';
        ShrinkValue(s, i, es.value, format, level);
      }
    }
  }

  lemma ShrinkNothing(s: seq<byte>, i: nat)
    requires At(s, i, [])
    ensures Shrinks(s, i, [], [])
  {
    BehindNothing(Minified(s, i));
  }

  lemma {:induction false} ShrinkMembers(s: seq<byte>, i: nat, ms: Members, format: bool, level: nat)
    requires PrintableMembers(ms) && RawFreeMembers(ms) && At(s, i, MembersText(ms, format, level))
    ensures Shrinks(s, i, MembersText(ms, format, level), MembersText(ms, false, level))
    decreases ms, 0
  {
    hide At, Shrinks, Text, MemberText, MembersText;
    if ms.NoMember? {
      MembersEnd(format, level);
      MembersEnd(false, level);
      ShrinkNothing(s, i);
    } else {
      var t, t' := Text(ms.value, format, level), Text(ms.value, false, level);
      var more := ms.next.Member?;
      MembersUnfold(ms, format, level);
      MembersUnfold(ms, false, level);
      var m, m' := MemberText(ms.key, t, more, format, level), MemberText(ms.key, t', more, false, level);
      AtSplit(s, i, m, MembersText(ms.next, format, level));
      var p := ValuePlace(s, i, ms.key, t, more, format, level);
      ShrinkValue(s, p, ms.value, format, level);
      ShrinkMember(s, i, p, ms.key, t, t', more, format, level);
      ShrinkMembers(s, i + |m|, ms.next, format, level);
      ShrinksJoin(s, i, m, m', MembersText(ms.next, format, level), MembersText(ms.next, false, level));
    }
  }

  /** Where the value of a member stands. */
  lemma ValuePlace(s: seq<byte>, i: nat, k: seq<byte>, t: seq<byte>, more: bool, format: bool, level: nat)
    returns (p: nat)
    requires NulFree(k) && NulFree(t) && At(s, i, MemberText(k, t, more, format, level))
    ensures p == i + |Indent(format, level)| + |StringText(k)| + |Colon(format)| && At(s, p, t)
    ensures At(s, i, Indent(format, level))
    ensures At(s, i + |Indent(format, level)|, StringText(k))
    ensures At(s, i + |Indent(format, level)| + |StringText(k)|, Colon(format))
    ensures At(s, p + |t|, LineEnd(format, more))
  {
    hide At, Indent, StringText, Colon, LineEnd;
    var a, b, d, e := Indent(format, level), StringText(k), Colon(format), LineEnd(format, more);
    AtSplit(s, i, a + b + d + t, e);
    AtSplit(s, i, a + b + d, t);
    AtSplit(s, i, a + b, d);
    AtSplit(s, i, a, b);
    p := i + |a| + |b| + |d|;
  }

  lemma ShrinkMember(s: seq<byte>, i: nat, p: nat, k: seq<byte>, t: seq<byte>, t': seq<byte>,
                     more: bool, format: bool, level: nat)
    requires NulFree(k) && NulFree(t) && NulFree(t') && At(s, i, MemberText(k, t, more, format, level))
    requires p == i + |Indent(format, level)| + |StringText(k)| + |Colon(format)| && Shrinks(s, p, t, t')
    ensures Shrinks(s, i, MemberText(k, t, more, format, level), MemberText(k, t', more, false, level))
  {
    hide At, Indent, StringText, Colon, LineEnd, Shrinks;
    var p' := ValuePlace(s, i, k, t, more, format, level);
    var a, b, d, e := Indent(format, level), StringText(k), Colon(format), LineEnd(format, more);
    var a', d', e' := Indent(false, level), Colon(false), LineEnd(false, more);
    ShrinkIndent(s, i, format, level);
    ShrinkString(s, i + |a|, k);
    ShrinkColon(s, i + |a| + |b|, format);
    ShrinkLineEnd(s, p + |t|, format, more);
    ShrinksJoin(s, i, a, a', b, b);
    ShrinksJoin(s, i, a + b, a' + b, d, d');
    ShrinksJoin(s, i, a + b + d, a' + b + d', t, t');
    ShrinksJoin(s, i, a + b + d + t, a' + b + d' + t', e, e');
  }

  lemma ShrinkString(s: seq<byte>, i: nat, k: seq<byte>)
    requires NulFree(k) && At(s, i, StringText(k))
    ensures Shrinks(s, i, StringText(k), StringText(k))
  {
    hide At, StringText, Minified, Behind;
    MinifyString(s, i, k);
  }

  /** Minifying what cJSON_Print prints gives what cJSON_PrintUnformatted prints; the latter stays as it is. */
  lemma MinifyPrinted(v: Value, format: bool)
    requires Printable(v) && RawFree(v)
    ensures Minified(Text(v, format, 0), 0) == Some(Text(v, false, 0))
  {
    hide Text;
    var t := Text(v, format, 0);
    assert At(t, 0, t);
    ShrinkValue(t, 0, v, format, 0);
    assert Text(v, false, 0) + [] == Text(v, false, 0);
  }

  // ---- The code, in place ----

  /** The buffer holds the C string `s` unchanged from `i` on, and `i` has not been passed by `into`. */
  ghost predicate Unread(json: array<byte>, s: seq<byte>, i: nat, into: nat)
    reads json
  {
    |s| < json.Length && into <= i <= |s| && NulFree(s) && json[i..|s| + 1] == s[i..] + [NUL]
  }

  lemma UnreadAt(json: array<byte>, s: seq<byte>, i: nat, into: nat, k: nat)
    requires Unread(json, s, i, into) && i <= k <= |s|
    ensures json[k] == Peek(s, k)
    ensures Unread(json, s, k, into)
  {
    assert json[k] == json[i..|s| + 1][k - i];
    assert json[k..|s| + 1] == json[i..|s| + 1][k - i..];
  }

  method SkipLine(json: array<byte>, ghost s: seq<byte>, i: nat, ghost into: nat) returns (j: nat)
    requires Unread(json, s, i, into)
    ensures j == LineEndFrom(s, i) && Unread(json, s, j, into)
  {
    j := i;
    UnreadAt(json, s, i, into, j);
    while json[j] != NUL && json[j] != NEWLINE
      invariant i <= j <= |s| && json[j] == Peek(s, j)
      invariant LineEndFrom(s, i) == LineEndFrom(s, j)
      decreases |s| - j
    {
      j := j + 1;
      UnreadAt(json, s, i, into, j);
    }
    UnreadAt(json, s, i, into, j);
  }

  method SkipComment(json: array<byte>, ghost s: seq<byte>, i: nat, ghost into: nat) returns (j: nat)
    requires Unread(json, s, i, into)
    ensures j == CommentEndFrom(s, i) && Unread(json, s, j, into)
  {
    j := i;
    UnreadAt(json, s, i, into, j);
    if j < |s| { UnreadAt(json, s, i, into, j + 1); }
    while json[j] != NUL && !(json[j] == STAR && json[j + 1] == SLASH)
      invariant i <= j <= |s| && json[j] == Peek(s, j)
      invariant j < |s| ==> json[j + 1] == Peek(s, j + 1)
      invariant CommentEndFrom(s, i) == CommentEndFrom(s, j)
      decreases |s| - j
    {
      j := j + 1;
      UnreadAt(json, s, i, into, j);
      if j < |s| { UnreadAt(json, s, i, into, j + 1); }
    }
    UnreadAt(json, s, i, into, j);
  }

  /** Copies one byte down; the write never passes the read. */
  method CopyDown(json: array<byte>, ghost s: seq<byte>, i: nat, into: nat)
    requires Unread(json, s, i, into) && i < |s|
    modifies json
    ensures Unread(json, s, i + 1, into + 1)
    ensures json[..into + 1] == old(json[..into]) + [s[i]]
  {
    UnreadAt(json, s, i, into, i);
    ghost var rest := json[i..|s| + 1];
    json[into] := json[i];
    assert json[i + 1..|s| + 1] == rest[1..];
    assert s[i..][1..] == s[i + 1..];
  }

  /** The string branch: everything from the opening to the closing quote. */
  method CopyString(json: array<byte>, ghost s: seq<byte>, i: nat, into: nat) returns (j: nat, into': nat)
    requires Unread(json, s, i, into) && i < |s| && s[i] == QUOTE && ScanString(s, i + 1).Closed?
    modifies json
    ensures j == ScanString(s, i + 1).end + 1 && Unread(json, s, j, into')
    ensures into' == into + j - i && json[..into'] == old(json[..into]) + s[i..j]
  {
    hide Copied, ScanString, Unread;
    Bounds(json, s, i, into);
    ghost var end := ScanString(s, i + 1).end;
    ghost var kept := json[..into];
    assert Copied(json, s, kept, i, i, into) by {
      StartCopied(json, s, i, into);
    }
    j, into' := CopyNext(json, s, kept, i, i, into);
    while json[j] != NUL && json[j] != QUOTE
      invariant i < j <= end < |s| < json.Length && Copied(json, s, kept, i, j, into') && json[j] == s[j]
      invariant ScanString(s, j).Closed? && ScanString(s, j).end == end
      decreases |s| - j
    {
      ScanNext(s, j);
      if json[j] == BACKSLASH {
        j, into' := CopyNext(json, s, kept, i, j, into');
      }
      j, into' := CopyNext(json, s, kept, i, j, into');
    }
    CopiedNulFree(json, s, kept, i, j, into');
    ScanNext(s, j);
    j, into' := CopyNext(json, s, kept, i, j, into');
    EndCopied(json, s, kept, i, j, into');
  }

  /** The bytes from `i` to `j` have been copied behind `kept`. */
  ghost predicate Copied(json: array<byte>, s: seq<byte>, kept: seq<byte>, i: nat, j: nat, into: nat)
    reads json
  {
    Unread(json, s, j, into) && i <= j && into == |kept| + j - i && json[..into] == kept + s[i..j]
  }

  lemma StartCopied(json: array<byte>, s: seq<byte>, i: nat, into: nat)
    requires Unread(json, s, i, into)
    ensures Copied(json, s, json[..into], i, i, into)
  {
    assert json[..into] + s[i..i] == json[..into];
  }

  lemma CopiedNulFree(json: array<byte>, s: seq<byte>, kept: seq<byte>, i: nat, j: nat, into: nat)
    requires Copied(json, s, kept, i, j, into)
    ensures NulFree(s)
  {
  }

  lemma EndCopied(json: array<byte>, s: seq<byte>, kept: seq<byte>, i: nat, j: nat, into: nat)
    requires Copied(json, s, kept, i, j, into)
    ensures Unread(json, s, j, into) && into == |kept| + j - i && json[..into] == kept + s[i..j]
  {
  }

  method CopyNext(json: array<byte>, ghost s: seq<byte>, ghost kept: seq<byte>, ghost i: nat, j: nat, into: nat)
    returns (j': nat, into': nat)
    requires Copied(json, s, kept, i, j, into) && j < |s|
    modifies json
    ensures j' == j + 1 && into' == into + 1 && Copied(json, s, kept, i, j', into')
    ensures j' <= |s| < json.Length && json[j'] == Peek(s, j')
  {
    CopyDown(json, s, j, into);
    SliceGrow(kept, s, i, j);
    j', into' := j + 1, into + 1;
    UnreadAt(json, s, j', into', j');
  }

  lemma ScanNext(s: seq<byte>, j: nat)
    requires j < |s| && ScanString(s, j).Closed?
    ensures var end := ScanString(s, j).end;
            if s[j] == QUOTE then end == j
            else
              var n := if s[j] == BACKSLASH then j + 2 else j + 1;
              n <= end && ScanString(s, n).Closed? && ScanString(s, n).end == end
  {
  }

  lemma SliceGrow(kept: seq<byte>, s: seq<byte>, i: nat, j: nat)
    requires i <= j < |s|
    ensures kept + s[i..j] + [s[j]] == kept + s[i..j + 1]
  {
  }

  lemma Bounds(json: array<byte>, s: seq<byte>, i: nat, into: nat)
    requires Unread(json, s, i, into)
    ensures |s| < json.Length && into <= i <= |s| && NulFree(s)
  {
  }

  /** cJSON_Minify on a C string of length `n` whose strings and comments are closed. */
  method Minify(json: array<byte>, ghost n: nat)
    requires n < json.Length && json[n] == NUL && NulFree(json[..n])
    requires Minified(json[..n], 0).Some?
    modifies json
    ensures CString(json[..]) == Minified(old(json[..n]), 0).value
  {
    hide Minified, Behind, Unread, CString;
    ghost var s := json[..n];
    var into: nat, i: nat := 0, 0;
    StartUnread(json, n);
    BehindNothing(Minified(s, 0));
    assert json[..0] == [];
    UnreadAt(json, s, i, into, i);
    while json[i] != NUL
      invariant |s| < json.Length && Unread(json, s, i, into) && into <= i <= |s|
      invariant json[i] == Peek(s, i)
      invariant Minified(s, i).Some? && Minified(s, 0) == Behind(json[..into], Minified(s, i))
      decreases |s| - i
    {
      i, into := MinifyRound(json, s, i, into);
    }
    MinifiedEnd(s, json[..into]);
    Bounds(json, s, i, into);
    json[into] := NUL;
    MinifiedNulFree(s, 0);
    CStringOf(json[..], json[..into]);
  }

  /** The body of the main loop. */
  method MinifyRound(json: array<byte>, ghost s: seq<byte>, i: nat, into: nat) returns (i': nat, into': nat)
    requires Unread(json, s, i, into) && i < |s| && Minified(s, i).Some?
    modifies json
    ensures |s| < json.Length && Unread(json, s, i', into') && i < i' <= |s| && into' <= i'
    ensures json[i'] == Peek(s, i') && Minified(s, i').Some?
    ensures Behind(json[..into'], Minified(s, i')) == Behind(old(json[..into]), Minified(s, i))
  {
    hide Minified, Behind, Unread, ScanString, LineEndFrom, CommentEndFrom, NulFree;
    Bounds(json, s, i, into);
    MinifiedStep(s, i, json[..into]);
    UnreadAt(json, s, i, into, i);
    UnreadAt(json, s, i, into, i + 1);
    i', into' := i, into;
    if json[i] == SPACE || json[i] == TAB || json[i] == RETURN || json[i] == NEWLINE {
      i' := i + 1;
    } else if json[i] == SLASH && json[i + 1] == SLASH {
      i' := SkipLine(json, s, i + 1, into);
    } else if json[i] == SLASH && json[i + 1] == STAR {
      i' := SkipComment(json, s, i + 1, into);
      UnreadAt(json, s, i', into, i' + 2);
      i' := i' + 2;
    } else if json[i] == QUOTE {
      i', into' := CopyString(json, s, i, into);
    } else {
      CopyDown(json, s, i, into);
      i', into' := i + 1, into + 1;
    }
    Bounds(json, s, i', into');
    UnreadAt(json, s, i', into', i');
  }

  lemma StartUnread(json: array<byte>, n: nat)
    requires n < json.Length && json[n] == NUL && NulFree(json[..n])
    ensures Unread(json, json[..n], 0, 0)
  {
  }

  /** One round of the main loop, with `done` already written. */
  lemma MinifiedStep(s: seq<byte>, i: nat, done: seq<byte>)
    requires i < |s| && Minified(s, i).Some?
    ensures
      if IsBlank(s[i]) then Minified(s, i) == Minified(s, i + 1)
      else if s[i] == SLASH && Peek(s, i + 1) == SLASH then Minified(s, i) == Minified(s, LineEndFrom(s, i + 1))
      else if s[i] == SLASH && Peek(s, i + 1) == STAR then
        CommentEndFrom(s, i + 1) + 2 <= |s| && Minified(s, i) == Minified(s, CommentEndFrom(s, i + 1) + 2)
      else if s[i] == QUOTE then
        ScanString(s, i + 1).Closed?
        && var end := ScanString(s, i + 1).end + 1;
           Minified(s, end).Some? && Behind(done, Minified(s, i)) == Behind(done + s[i..end], Minified(s, end))
      else Minified(s, i + 1).Some? && Behind(done, Minified(s, i)) == Behind(done + [s[i]], Minified(s, i + 1))
  {
    if s[i] == QUOTE {
      var end := ScanString(s, i + 1).end + 1;
      BehindTwice(done, s[i..end], Minified(s, end));
    } else {
      BehindTwice(done, [s[i]], Minified(s, i + 1));
    }
  }

  lemma MinifiedEnd(s: seq<byte>, done: seq<byte>)
    ensures Behind(done, Minified(s, |s|)) == Some(done)
  {
    assert done + [] == done;
  }

  lemma {:induction false} MinifiedNulFree(s: seq<byte>, i: nat)
    requires i <= |s| && NulFree(s) && Minified(s, i).Some?
    ensures NulFree(Minified(s, i).value)
    decreases |s| - i
  {
    if i < |s| {
      MinifiedStep(s, i, []);
      if IsBlank(s[i]) {
        MinifiedNulFree(s, i + 1);
      } else if s[i] == SLASH && Peek(s, i + 1) == SLASH {
        MinifiedNulFree(s, LineEndFrom(s, i + 1));
      } else if s[i] == SLASH && Peek(s, i + 1) == STAR {
        MinifiedNulFree(s, CommentEndFrom(s, i + 1) + 2);
      } else if s[i] == QUOTE {
        MinifiedNulFree(s, ScanString(s, i + 1).end + 1);
      } else {
        MinifiedNulFree(s, i + 1);
      }
    }
  }
}

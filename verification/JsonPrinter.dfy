/** The printer of cjson.c: text written into a buffer that grows when it must. */
module JsonPrinter {
  import opened Bytes
  import opened JsonValue
  import opened JsonText

  const LLONG_MAX: nat := 9223372036854775807

  /**
   * How many bytes beyond its own text the printer reserves for a value: a number only the
   * terminator, everything else one byte more.
   */
  function Slack(v: Value): nat {
    if v.Number? then 1 else 2
  }

  class PrintBuffer {
    var buffer: array<byte>
    var length: nat
    var offset: nat
    var depth: nat
    const noalloc: bool
    const format: bool
    const hasRealloc: bool

    ghost predicate Valid()
      reads this
    {
      && length <= buffer.Length
      && length <= LLONG_MAX
      && (if length == 0 then offset == 0 else offset < length)
      && (!noalloc ==> offset < buffer.Length)
    }

    /** What the last reserved byte may not go beyond. */
    ghost function Limit(): nat
      reads this
    {
      if noalloc then length else LLONG_MAX
    }

    /** The buffer of print(): 256 bytes are allocated, but the recorded length is zero. */
    constructor Growing(format: bool, hasRealloc: bool)
      ensures Valid() && fresh(buffer) && !noalloc
      ensures this.format == format && offset == 0 && depth == 0
    {
      buffer := new byte[256];
      length, offset, depth := 0, 0, 0;
      noalloc := false;
      this.format, this.hasRealloc := format, hasRealloc;
    }

    /** The buffer of cJSON_PrintBuffered. */
    constructor Buffered(prebuffer: nat, format: bool, hasRealloc: bool)
      requires 0 < prebuffer <= LLONG_MAX
      ensures Valid() && fresh(buffer) && !noalloc
      ensures this.format == format && offset == 0 && depth == 0
    {
      buffer := new byte[prebuffer];
      length, offset, depth := prebuffer, 0, 0;
      noalloc := false;
      this.format, this.hasRealloc := format, hasRealloc;
    }

    /** The buffer of cJSON_PrintPreallocated. */
    constructor Preallocated(buf: array<byte>, format: bool)
      requires buf.Length <= LLONG_MAX
      ensures Valid() && buffer == buf && noalloc && length == buf.Length
      ensures this.format == format && offset == 0 && depth == 0
    {
      buffer := buf;
      length, offset, depth := buf.Length, 0, 0;
      noalloc := true;
      this.format, this.hasRealloc := format, true;
    }

    /** ensure(): `needed` more bytes and a terminator can be written, or nothing changes. */
    method Ensure(needed: nat) returns (ok: bool)
      requires Valid()
      modifies this`buffer, this`length
      ensures Valid() && Limit() == old(Limit())
      ensures ok <==> offset + needed + 1 <= Limit()
      ensures ok ==> offset + needed + 1 <= length
      ensures !ok || offset + needed + 1 <= old(length) ==> buffer == old(buffer) && length == old(length)
      ensures ok && offset + needed + 1 > old(length) ==> length == Min(2 * (offset + needed + 1), LLONG_MAX)
      ensures buffer == old(buffer) || fresh(buffer)
      ensures noalloc ==> buffer == old(buffer)
      ensures offset <= buffer.Length && buffer[..offset] == old(buffer[..offset])
    {
      if length > 0 && offset >= length {
        return false;
      }
      if needed > LLONG_MAX {
        return false;
      }
      var total := needed + offset + 1;
      if total <= length {
        return true;
      }
      if noalloc {
        return false;
      }
      var newsize;
      if total > LLONG_MAX / 2 {
        if total <= LLONG_MAX {
          newsize := LLONG_MAX;
        } else {
          return false;
        }
      } else {
        newsize := total * 2;
      }
      var newbuffer := new byte[newsize];
      // realloc() keeps everything that fits, the manual path only what lies before the offset
      var kept := if hasRealloc && buffer.Length <= newsize then buffer.Length else offset + 1;
      forall k | 0 <= k < kept {
        newbuffer[k] := buffer[k];
      }
      length := newsize;
      buffer := newbuffer;
      return true;
    }

    /** The text `t` and its terminator stand from `start` on, and the offset lies on them. */
    ghost predicate Printed(start: nat, t: seq<byte>)
      reads this, buffer
    {
      start <= offset <= start + |t| < length <= buffer.Length && At(buffer[..], start, t + [NUL])
    }

    /** update_offset(): moves past the C string that stands at the offset. */
    method UpdateOffset(ghost start: nat, ghost t: seq<byte>)
      requires NulFree(t) && Printed(start, t)
      modifies this`offset
      ensures offset == start + |t| && At(buffer[..], start, t)
    {
      ghost var end := start + |t|;
      assert forall k :: start <= k < end ==>
               buffer[k] == (t + [NUL])[k - start] == buffer[..][start..end + 1][k - start];
      assert buffer[end] == buffer[..][start..end + 1][|t|];
      AtSplit(buffer[..], start, t, [NUL]);
      while buffer[offset] != NUL
        invariant offset <= end
        decreases end - offset
      {
        offset := offset + 1;
      }
    }

    /** strcpy() and memcpy() into the buffer; no byte at or beyond `length` is touched. */
    method Store(at: nat, t: seq<byte>)
      requires at + |t| <= length <= buffer.Length
      modifies buffer
      ensures buffer[..at] == old(buffer[..at])
      ensures At(buffer[..], at, t)
      ensures buffer[at + |t|..] == old(buffer[at + |t|..])
    {
      forall k | 0 <= k < |t| {
        buffer[at + k] := t[k];
      }
    }

    /** Reserves space, writes `t` and moves the offset by `advance`. */
    method Write(reserve: nat, t: seq<byte>, advance: nat) returns (ok: bool)
      requires Valid() && |t| <= reserve + 1 && advance <= |t| && advance <= reserve
      modifies this`buffer, this`length, this`offset, buffer
      ensures Limit() == old(Limit())
      ensures ok <==> old(offset) + reserve + 1 <= Limit()
      ensures ok ==> Valid() && offset == old(offset) + advance && old(offset) + reserve < length
      ensures ok ==> buffer[..old(offset)] == old(buffer[..offset]) && At(buffer[..], old(offset), t)
      ensures buffer == old(buffer) || fresh(buffer)
      ensures noalloc ==> buffer == old(buffer)
    {
      ok := Ensure(reserve);
      if ok {
        Store(offset, t);
        offset := offset + advance;
      }
    }

    /** print_string_ptr() */
    method PrintString(s: seq<byte>) returns (ok: bool)
      requires Valid() && NulFree(s)
      modifies this`buffer, this`length, buffer
      ensures Limit() == old(Limit())
      ensures ok <==> offset + |StringText(s)| + 2 <= Limit()
      ensures ok ==> Valid() && Printed(offset, StringText(s)) && buffer[..offset] == old(buffer[..offset])
      ensures buffer == old(buffer) || fresh(buffer)
      ensures noalloc ==> buffer == old(buffer)
    {
      hide At, EscapedAll;
      var escapes := CountEscapes(s);
      CostLength(s);
      ok := Ensure(|s| + escapes + 3);
      if !ok {
        return;
      }
      if escapes == 0 {
        NothingEscaped(s);
        Store(offset, [QUOTE] + s + [QUOTE, NUL]);
        assert [QUOTE] + s + [QUOTE, NUL] == StringText(s) + [NUL];
      } else {
        QuoteEscaped(s, offset + 1 + |s| + escapes);
      }
    }

    method QuoteEscaped(s: seq<byte>, end: nat)
      requires NulFree(s) && end == offset + 1 + |EscapedAll(s)| && end + 2 <= length <= buffer.Length
      modifies buffer
      ensures buffer[..offset] == old(buffer[..offset])
      ensures At(buffer[..], offset, StringText(s) + [NUL])
    {
      hide At, EscapedAll;
      EscapeInto(s);
      ghost var before := buffer[..];
      Store(end, [QUOTE, NUL]);
      assert buffer[..offset] == buffer[..end][..offset];
      KeepAt(before, buffer[..], end, offset, [QUOTE] + EscapedAll(s));
      AtSplit(buffer[..], offset, [QUOTE] + EscapedAll(s), [QUOTE, NUL]);
      assert StringText(s) + [NUL] == ([QUOTE] + EscapedAll(s)) + [QUOTE, NUL];
    }

    /** The copying loop of print_string_ptr(): the opening quote and the escaped bytes. */
    method EscapeInto(s: seq<byte>)
      requires NulFree(s) && offset + |EscapedAll(s)| + 2 < length <= buffer.Length
      modifies buffer
      ensures buffer[..offset] == old(buffer[..offset])
      ensures At(buffer[..], offset, [QUOTE] + EscapedAll(s))
    {
      hide At, EscapedAll, Escaped;
      Store(offset, [QUOTE]);
      EscapedNone();
      assert s[..0] == [] && [QUOTE] + [] == [QUOTE];
      var p := offset + 1;
      for i := 0 to |s|
        invariant p == offset + 1 + |EscapedAll(s[..i])|
        invariant buffer[..offset] == old(buffer[..offset])
        invariant At(buffer[..], offset, [QUOTE] + EscapedAll(s[..i]))
      {
        EscapedStep(s, i);
        ghost var before := buffer[..];
        EscapeOne(p, s[i]);
        KeepAt(before, buffer[..], p, offset, [QUOTE] + EscapedAll(s[..i]));
        AtSplit(buffer[..], offset, [QUOTE] + EscapedAll(s[..i]), Escaped(s[i]));
        assert [QUOTE] + EscapedAll(s[..i]) + Escaped(s[i]) == [QUOTE] + EscapedAll(s[..i + 1]);
        assert buffer[..offset] == buffer[..p][..offset];
        p := p + |Escaped(s[i])|;
      }
      assert s[..|s|] == s;
    }

    method EscapeOne(p: nat, b: byte)
      requires p + |Escaped(b)| < length <= buffer.Length
      modifies buffer
      ensures buffer[..p] == old(buffer[..p]) && At(buffer[..], p, Escaped(b))
    {
      var t := Escaped(b);
      if EscapeCost(b) == 5 {
        Store(p, t + [NUL]); // sprintf() also writes a terminator
        AtSplit(buffer[..], p, t, [NUL]);
      } else {
        Store(p, t);
      }
    }

    // ---- Pieces one after the other: `done` stands from `start` up to the offset ----

    ghost predicate Standing(start: nat, done: seq<byte>)
      reads this, buffer
    {
      Valid() && offset == start + |done| && At(buffer[..], start, done)
    }

    /** Reserves space, writes `t + tail` and moves the offset behind `t`. */
    method WriteNext(ghost start: nat, ghost done: seq<byte>, reserve: nat, t: seq<byte>, tail: seq<byte>)
      returns (ok: bool)
      requires Standing(start, done) && |t| <= reserve && |t| + |tail| <= reserve + 1
      modifies this`buffer, this`length, this`offset, buffer
      ensures Limit() == old(Limit())
      ensures ok <==> old(offset) + reserve + 1 <= Limit()
      ensures ok ==> Standing(start, done + t) && buffer[..start] == old(buffer[..start])
      ensures ok ==> At(buffer[..], offset, tail) && old(offset) + reserve < length
      ensures buffer == old(buffer) || fresh(buffer)
      ensures noalloc ==> buffer == old(buffer)
    {
      hide At;
      ghost var before := buffer[..];
      ghost var at := offset;
      assert before[..at] == buffer[..at];
      ok := Write(reserve, t + tail, |t|);
      if ok {
        assert buffer[..][..at] == buffer[..at];
        assert start <= at && before[..start] == old(buffer[..start]);
        AtSplit(buffer[..], start + |done|, t, tail);
        Extend(before, buffer[..], start, done, t);
      }
    }

    /** print_string_ptr() followed by update_offset(). */
    method StringNext(ghost start: nat, ghost done: seq<byte>, s: seq<byte>) returns (ok: bool)
      requires Standing(start, done) && NulFree(s)
      modifies this`buffer, this`length, this`offset, buffer
      ensures Limit() == old(Limit())
      ensures ok <==> old(offset) + |StringText(s)| + 2 <= Limit()
      ensures ok ==> Standing(start, done + StringText(s)) && buffer[..start] == old(buffer[..start])
      ensures buffer == old(buffer) || fresh(buffer)
      ensures noalloc ==> buffer == old(buffer)
    {
      hide StringText;
      ghost var before := buffer[..];
      ghost var at := offset;
      ok := PrintString(s);
      if ok {
        UpdateOffset(at, StringText(s));
        Extend(before, buffer[..], start, done, StringText(s));
      }
    }

    /** print_value() followed by update_offset(). */
    method ValueNext(ghost start: nat, ghost done: seq<byte>, v: Value) returns (ok: bool)
      requires Standing(start, done) && Printable(v)
      modifies this`buffer, this`length, this`offset, this`depth, buffer
      ensures Limit() == old(Limit())
      ensures ok <==> old(offset) + |Text(v, format, old(depth))| + Slack(v) <= Limit()
      ensures ok ==> depth == old(depth) && Standing(start, done + Text(v, format, depth))
      ensures ok ==> buffer[..start] == old(buffer[..start])
      ensures buffer == old(buffer) || fresh(buffer)
      ensures noalloc ==> buffer == old(buffer)
      decreases v, 1
    {
      hide Text, Printable;
      ghost var before := buffer[..];
      ghost var at := offset;
      ok := PrintValue(v);
      if ok {
        UpdateOffset(at, Text(v, format, depth));
        Extend(before, buffer[..], start, done, Text(v, format, depth));
      }
    }

    /** print_value(): succeeds exactly when the text and its slack stay within the limit. */
    method PrintValue(v: Value) returns (ok: bool)
      requires Valid() && Printable(v)
      modifies this`buffer, this`length, this`offset, this`depth, buffer
      ensures Limit() == old(Limit())
      ensures ok <==> old(offset) + |Text(v, format, old(depth))| + Slack(v) <= Limit()
      ensures ok ==> Valid() && depth == old(depth) && Printed(old(offset), Text(v, format, depth))
      ensures ok ==> buffer[..old(offset)] == old(buffer[..offset])
      ensures buffer == old(buffer) || fresh(buffer)
      ensures noalloc ==> buffer == old(buffer)
      decreases v, 0
    {
      hide At;
      match v
      case Null => ok := Write(5, NULL_TEXT + [NUL], 0);
      case False => ok := Write(6, FALSE_TEXT + [NUL], 0);
      case True => ok := Write(5, TRUE_TEXT + [NUL], 0);
      case Number(d) =>
        var t := Decimal(d.Floor);
        ok := Write(|t|, t + [NUL], |t|);
      case Raw(s) => ok := Write(|s| + 1, s + [NUL], 0);
      case String(s) => ok := PrintString(s);
      case Array(es) => ok := PrintArray(es);
      case Object(ms) => ok := PrintObject(ms);
    }

    method PrintArray(es: Elems) returns (ok: bool)
      requires Valid() && PrintableElems(es)
      modifies this`buffer, this`length, this`offset, this`depth, buffer
      ensures Limit() == old(Limit())
      ensures ok <==> old(offset) + |ElemsText(es, format, old(depth) + 1)| + 4 <= Limit()
      ensures ok ==> Valid() && depth == old(depth)
      ensures ok ==> Printed(old(offset), [LBRACKET] + ElemsText(es, format, depth + 1) + [RBRACKET])
      ensures ok ==> buffer[..old(offset)] == old(buffer[..offset])
      ensures buffer == old(buffer) || fresh(buffer)
      ensures noalloc ==> buffer == old(buffer)
      decreases es, 1
    {
      hide At, ElemsText, PrintableElems;
      ghost var start := offset;
      AtEmpty(buffer[..], start);
      ok := WriteNext(start, [], 1, [LBRACKET], []);
      if !ok {
        return;
      }
      assert [] + [LBRACKET] == [LBRACKET];
      depth := depth + 1;
      ok := PrintElems(start, [LBRACKET], es);
      if !ok {
        return;
      }
      ghost var done := [LBRACKET] + ElemsText(es, format, depth);
      assert done + [] == done;
      ok := WriteNext(start, done, 2, [], [RBRACKET, NUL]);
      if ok {
        assert done + [RBRACKET, NUL] == (done + [RBRACKET]) + [NUL];
        AtSplit(buffer[..], start, done, [RBRACKET, NUL]);
        depth := depth - 1;
      }
    }

    /** The loop of print_array(). */
    method PrintElems(ghost start: nat, ghost before: seq<byte>, es: Elems) returns (ok: bool)
      requires Standing(start, before) && PrintableElems(es)
      modifies this`buffer, this`length, this`offset, this`depth, buffer
      ensures Limit() == old(Limit())
      ensures !ok ==> old(offset) + |ElemsText(es, format, old(depth))| + 2 > Limit()
      ensures ok ==> depth == old(depth) && Standing(start, before + ElemsText(es, format, depth))
      ensures ok ==> buffer[..start] == old(buffer[..start])
      ensures buffer == old(buffer) || fresh(buffer)
      ensures noalloc ==> buffer == old(buffer)
      decreases es, 0
    {
      hide At, ElemsText, Text, Printable, PrintableElems, Separator;
      ok := true;
      ghost var done := before;
      var current := es;
      while current.Elem?
        invariant Standing(start, done) && depth == old(depth) && Limit() == old(Limit())
        invariant PrintableElems(current) && ok
        invariant done + ElemsText(current, format, depth) == before + ElemsText(es, format, depth)
        invariant buffer[..start] == old(buffer[..start])
        invariant buffer == old(buffer) || fresh(buffer)
        invariant noalloc ==> buffer == old(buffer)
        decreases current
      {
        ElemsUnfold(current, format, depth);
        ghost var t := Text(current.value, format, depth);
        ghost var sep := if current.next.Elem? then Separator(format) else [];
        RegroupElems(done, t, sep, ElemsText(current.next, format, depth));
        ok := ValueNext(start, done, current.value);
        if !ok {
          return;
        }
        assert done + t + [] == done + t;
        if current.next.Elem? {
          var comma := Separator(format);
          ok := WriteNext(start, done + t, |comma| + 1, comma, [NUL]);
          if !ok {
            return;
          }
        }
        done := done + t + sep;
        current := current.next;
      }
      ElemsEnd(format, depth);
      assert done + [] == done;
    }

    method PrintObject(ms: Members) returns (ok: bool)
      requires Valid() && PrintableMembers(ms)
      modifies this`buffer, this`length, this`offset, this`depth, buffer
      ensures Limit() == old(Limit())
      ensures ok <==> old(offset) + |Text(Object(ms), format, old(depth))| + 2 <= Limit()
      ensures ok ==> Valid() && depth == old(depth) && Printed(old(offset), Text(Object(ms), format, depth))
      ensures ok ==> buffer[..old(offset)] == old(buffer[..offset])
      ensures buffer == old(buffer) || fresh(buffer)
      ensures noalloc ==> buffer == old(buffer)
      decreases ms, 2
    {
      hide At, Text, MembersText, PrintableMembers, Opening, Closing;
      ObjectText(ms, format, depth);
      ghost var start := offset;
      AtEmpty(buffer[..], start);
      var brace := Opening(format);
      ok := WriteNext(start, [], |brace| + 1, brace, []);
      if !ok {
        return;
      }
      assert [] + brace == brace;
      depth := depth + 1;
      ok := PrintMembers(start, brace, ms);
      if !ok {
        return;
      }
      ghost var done := brace + MembersText(ms, format, depth);
      assert done + [] == done;
      var closing := Closing(format, depth - 1);
      ok := WriteNext(start, done, if format then depth + 1 else 2, [], closing + [NUL]);
      if ok {
        assert done + (closing + [NUL]) == (done + closing) + [NUL];
        AtSplit(buffer[..], start, done, closing + [NUL]);
        depth := depth - 1;
      }
    }

    /** The loop of print_object(). */
    method PrintMembers(ghost start: nat, ghost before: seq<byte>, ms: Members) returns (ok: bool)
      requires Standing(start, before) && PrintableMembers(ms)
      modifies this`buffer, this`length, this`offset, this`depth, buffer
      ensures Limit() == old(Limit())
      ensures !ok ==> old(offset) + |MembersText(ms, format, old(depth))| + 2 > Limit()
      ensures ok ==> depth == old(depth) && Standing(start, before + MembersText(ms, format, depth))
      ensures ok ==> buffer[..start] == old(buffer[..start])
      ensures buffer == old(buffer) || fresh(buffer)
      ensures noalloc ==> buffer == old(buffer)
      decreases ms, 1
    {
      hide At, MembersText, MemberText, Text, Printable, PrintableMembers;
      ok := true;
      ghost var done := before;
      var current := ms;
      while current.Member?
        invariant Standing(start, done) && depth == old(depth) && Limit() == old(Limit())
        invariant PrintableMembers(current) && ok
        invariant done + MembersText(current, format, depth) == before + MembersText(ms, format, depth)
        invariant buffer[..start] == old(buffer[..start])
        invariant buffer == old(buffer) || fresh(buffer)
        invariant noalloc ==> buffer == old(buffer)
        decreases current
      {
        MembersUnfold(current, format, depth);
        ghost var m := MemberText(current.key, Text(current.value, format, depth), current.next.Member?, format, depth);
        Associate(done, m, MembersText(current.next, format, depth));
        ok := PrintMember(start, done, current.key, current.value, current.next.Member?);
        if !ok {
          return;
        }
        done := done + m;
        current := current.next;
      }
      MembersEnd(format, depth);
      assert done + [] == done;
    }

    /** The part of a member before its value. */
    method KeyNext(ghost start: nat, ghost before: seq<byte>, key: seq<byte>) returns (ok: bool)
      requires Standing(start, before) && NulFree(key)
      modifies this`buffer, this`length, this`offset, buffer
      ensures Limit() == old(Limit())
      ensures ok <==> old(offset) + |Indent(format, depth)| + |StringText(key)| + |Colon(format)| + 1 <= Limit()
      ensures ok ==> Standing(start, before + Indent(format, depth) + StringText(key) + Colon(format))
      ensures ok ==> buffer[..start] == old(buffer[..start])
      ensures buffer == old(buffer) || fresh(buffer)
      ensures noalloc ==> buffer == old(buffer)
    {
      hide At, StringText, Colon, Indent, NulFree;
      var indent, colon := Indent(format, depth), Colon(format);
      if format {
        ok := WriteNext(start, before, depth, indent, []);
        if !ok {
          return;
        }
      } else {
        assert indent == [] && before + [] == before;
      }
      ok := StringNext(start, before + indent, key);
      if !ok {
        return;
      }
      ok := WriteNext(start, before + indent + StringText(key), |colon|, colon, []);
    }

    /** The body of that loop. */
    method PrintMember(ghost start: nat, ghost before: seq<byte>, key: seq<byte>, v: Value, more: bool)
      returns (ok: bool)
      requires Standing(start, before) && NulFree(key) && Printable(v)
      modifies this`buffer, this`length, this`offset, this`depth, buffer
      ensures Limit() == old(Limit())
      ensures ok <==>
                old(offset) + |MemberText(key, Text(v, format, old(depth)), more, format, old(depth))| + 2 <= Limit()
      ensures ok ==> depth == old(depth)
                     && Standing(start, before + MemberText(key, Text(v, format, depth), more, format, depth))
      ensures ok ==> buffer[..start] == old(buffer[..start])
      ensures buffer == old(buffer) || fresh(buffer)
      ensures noalloc ==> buffer == old(buffer)
      decreases v, 2
    {
      hide At, Text, Printable, StringText, Colon, LineEnd, Indent, MemberText, NulFree;
      ghost var t := Text(v, format, depth);
      var end := LineEnd(format, more);
      MemberParts(before, key, t, more, format, depth);
      ok := KeyNext(start, before, key);
      if !ok {
        return;
      }
      ghost var done := before + Indent(format, depth) + StringText(key) + Colon(format);
      ok := ValueNext(start, done, v);
      if !ok {
        return;
      }
      done := done + t;
      ok := WriteNext(start, done, |end| + 1, end, [NUL]);
    }
  }

  lemma MemberParts(before: seq<byte>, k: seq<byte>, t: seq<byte>, more: bool, format: bool, level: nat)
    requires NulFree(k) && NulFree(t)
    ensures before + MemberText(k, t, more, format, level)
         == before + Indent(format, level) + StringText(k) + Colon(format) + t + LineEnd(format, more)
  {
    hide Indent, StringText, Colon, LineEnd;
    Associate6(before, Indent(format, level), StringText(k), Colon(format), t, LineEnd(format, more));
  }

  lemma Associate6(a: seq<byte>, b: seq<byte>, c: seq<byte>, d: seq<byte>, e: seq<byte>, f: seq<byte>)
    ensures a + (b + c + d + e + f) == a + b + c + d + e + f
  {
  }

  /** cJSON_Print and cJSON_PrintUnformatted: the C string printed is the text of the tree. */
  method Print(v: Value, format: bool, hasRealloc: bool) returns (ok: bool, printed: array<byte>)
    requires Printable(v)
    ensures ok <==> |Text(v, format, 0)| + Slack(v) <= LLONG_MAX
    ensures ok ==> CString(printed[..]) == Text(v, format, 0)
    ensures fresh(printed)
  {
    hide Text, Printable, CString;
    ghost var t := Text(v, format, 0);
    var p := new PrintBuffer.Growing(format, hasRealloc);
    ok := p.PrintValue(v);
    printed := p.buffer;
    if !ok {
      return;
    }
    CStringStands(p.buffer[..], t);
    p.UpdateOffset(0, t);
    if !hasRealloc {
      printed := new byte[p.offset + 1];
      var n := Min(p.length, p.offset + 1);
      forall k | 0 <= k < n {
        printed[k] := p.buffer[k];
      }
      printed[p.offset] := NUL;
      assert printed[..] == p.buffer[..][..|t|] + [NUL] == t + [NUL];
      CStringStands(printed[..], t);
    }
  }

  /** cJSON_PrintBuffered, for a positive starting size. */
  method PrintBuffered(v: Value, prebuffer: nat, format: bool, hasRealloc: bool)
    returns (ok: bool, printed: array<byte>)
    requires Printable(v) && 0 < prebuffer <= LLONG_MAX
    ensures ok <==> |Text(v, format, 0)| + Slack(v) <= LLONG_MAX
    ensures ok ==> CString(printed[..]) == Text(v, format, 0)
    ensures fresh(printed)
  {
    hide Text, Printable, CString;
    var p := new PrintBuffer.Buffered(prebuffer, format, hasRealloc);
    ok := p.PrintValue(v);
    printed := p.buffer;
    if ok {
      CStringStands(p.buffer[..], Text(v, format, 0));
    }
  }

  /**
   * cJSON_PrintPreallocated: succeeds exactly when the buffer has room for the text, the terminator
   * and, unless the value is a number, one byte more.
   */
  method PrintPreallocated(v: Value, buf: array<byte>, format: bool) returns (ok: bool)
    requires Printable(v) && buf.Length <= LLONG_MAX
    modifies buf
    ensures ok <==> |Text(v, format, 0)| + Slack(v) <= buf.Length
    ensures ok ==> CString(buf[..]) == Text(v, format, 0)
  {
    hide Text, Printable, CString;
    var p := new PrintBuffer.Preallocated(buf, format);
    ok := p.PrintValue(v);
    if ok {
      CStringStands(buf[..], Text(v, format, 0));
    }
  }

  lemma AtEmpty(c: seq<byte>, i: nat)
    ensures At(c, i, []) <==> i <= |c|
  {
  }

  lemma RegroupElems(done: seq<byte>, t: seq<byte>, sep: seq<byte>, rest: seq<byte>)
    ensures done + (t + (sep + rest)) == done + t + sep + rest
  {
  }

  /** Writing a text behind another one that is left alone. */
  lemma Extend(before: seq<byte>, after: seq<byte>, start: nat, done: seq<byte>, t: seq<byte>)
    requires At(before, start, done) && start + |done| <= |after|
    requires after[..start + |done|] == before[..start + |done|]
    requires At(after, start + |done|, t)
    ensures At(after, start, done + t) && after[..start] == before[..start]
  {
    assert start + |done| <= |before|;
    hide At;
    KeepAt(before, after, start + |done|, start, done);
    AtSplit(after, start, done, t);
    assert after[..start] == after[..start + |done|][..start];
  }

  /** The counting loop of print_string_ptr(). */
  method CountEscapes(s: seq<byte>) returns (escapes: nat)
    ensures escapes == Cost(s)
  {
    escapes := 0;
    for i := 0 to |s|
      invariant escapes == Cost(s[..i])
    {
      CostStep(s, i);
      escapes := escapes + EscapeCost(s[i]);
    }
    assert s[..|s|] == s;
  }

  /** A text stays where it is when only later bytes change. */
  lemma KeepAt(before: seq<byte>, after: seq<byte>, p: nat, i: nat, t: seq<byte>)
    requires p <= |before| && p <= |after| && before[..p] == after[..p]
    requires At(before, i, t) && i + |t| <= p
    ensures At(after, i, t)
  {
    assert after[i..i + |t|] == after[..p][i..i + |t|] == before[..p][i..i + |t|] == before[i..i + |t|];
  }

  lemma EscapedNone()
    ensures EscapedAll([]) == []
  {
  }

  // ---- Lengths of escaped strings ----

  function Cost(s: seq<byte>): nat {
    if s == [] then 0 else EscapeCost(s[0]) + Cost(s[1..])
  }

  lemma {:induction false} CostStep(s: seq<byte>, i: nat)
    requires i < |s|
    ensures Cost(s[..i + 1]) == Cost(s[..i]) + EscapeCost(s[i])
  {
    if i == 0 {
      assert s[..1][1..] == [];
    } else {
      CostStep(s[1..], i - 1);
      assert s[..i + 1][1..] == s[1..][..i] && s[..i][1..] == s[1..][..i - 1];
    }
  }

  lemma {:induction false} CostLength(s: seq<byte>)
    ensures |EscapedAll(s)| == |s| + Cost(s)
  {
    if s != [] {
      CostLength(s[1..]);
    }
  }

  lemma {:induction false} NothingEscaped(s: seq<byte>)
    requires Cost(s) == 0
    ensures EscapedAll(s) == s
  {
    if s != [] {
      NothingEscaped(s[1..]);
    }
  }

  lemma EscapedOne(b: byte)
    ensures EscapedAll([b]) == Escaped(b)
  {
    hide Escaped;
    assert [b][1..] == [];
    assert Escaped(b) + [] == Escaped(b);
  }

  lemma {:induction false} EscapedStep(s: seq<byte>, i: nat)
    requires i < |s|
    ensures EscapedAll(s[..i + 1]) == EscapedAll(s[..i]) + Escaped(s[i])
    ensures |EscapedAll(s[..i + 1])| <= |EscapedAll(s)|
  {
    hide EscapedAll, Escaped;
    EscapedOne(s[i]);
    EscapedConcat(s[..i], [s[i]]);
    assert s[..i + 1] == s[..i] + [s[i]];
    EscapedConcat(s[..i + 1], s[i + 1..]);
    assert s == s[..i + 1] + s[i + 1..];
  }

  lemma ObjectText(ms: Members, format: bool, depth: nat)
    requires PrintableMembers(ms)
    ensures Text(Object(ms), format, depth)
         == Opening(format) + MembersText(ms, format, depth + 1) + Closing(format, depth)
  {
  }

  lemma FirstOfConcat(s: seq<byte>, t: seq<byte>)
    requires s != []
    ensures (s + t)[0] == s[0] && (s + t)[1..] == s[1..] + t
  {
  }

  lemma {:induction false} EscapedConcat(s: seq<byte>, t: seq<byte>)
    ensures EscapedAll(s + t) == EscapedAll(s) + EscapedAll(t)
  {
    hide Escaped;
    if s == [] {
      assert s + t == t;
    } else {
      EscapedConcat(s[1..], t);
      FirstOfConcat(s, t);
      Associate(Escaped(s[0]), EscapedAll(s[1..]), EscapedAll(t));
    }
  }
}

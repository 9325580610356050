/** The parser of cjson.c: a cursor moving over the input. */
module JsonParser {
  import opened Bytes
  import opened JsonValue
  import opened JsonGrammar
  import opened JsonStrings
  import JsonText
  import Utf

  lemma {:induction false} AppendElem(es: Elems, v: Value, fs: Elems)
    ensures AppendElems(AppendElems(es, Elem(v, NoElem)), fs) == AppendElems(es, Elem(v, fs))
  {
    match es
    case NoElem =>
    case Elem(_, next) => AppendElem(next, v, fs);
  }

  lemma {:induction false} AppendMember(ms: Members, k: seq<byte>, v: Value, ns: Members)
    ensures AppendMembers(AppendMembers(ms, Member(k, v, NoMember)), ns) == AppendMembers(ms, Member(k, v, ns))
  {
    match ms
    case NoMember =>
    case Member(_, _, next) => AppendMember(next, k, v, ns);
  }

  /** What a loop over elements will return, once it has read `done`. */
  function AfterElems(done: Elems, r: Parsed<Elems>): Parsed<Elems> {
    match r
    case Err(at) => Err(at)
    case Ok(es, next) => Ok(AppendElems(done, es), next)
  }

  function AfterMembers(done: Members, r: Parsed<Members>): Parsed<Members> {
    match r
    case Err(at) => Err(at)
    case Ok(ms, next) => Ok(AppendMembers(done, ms), next)
  }

  /** What the second pass over a string will return, once it has written `done`. */
  function AfterBytes(done: seq<byte>, r: Parsed<seq<byte>>): Parsed<seq<byte>> {
    match r
    case Err(at) => Err(at)
    case Ok(bytes, next) => Ok(done + bytes, next)
  }

  class ParseBuffer {
    const content: seq<byte>
    var offset: nat
    var depth: nat

    /** The buffer of cJSON_ParseWithOpts: the C string together with its terminator. */
    constructor (text: seq<byte>)
      ensures content == text + [NUL] && offset == 0 && depth == 0
    {
      content := text + [NUL];
      offset, depth := 0, 0;
    }

    method SkipWhitespace()
      requires content != [] && offset <= |content|
      modifies this`offset
      ensures offset == SkipSpace(content, old(offset))
    {
      while offset < |content| && content[offset] <= 32
        invariant offset <= |content|
        invariant SkipSpace(content, offset) == SkipSpace(content, old(offset))
      {
        offset := offset + 1;
      }
      if offset == |content| {
        offset := offset - 1;
      }
    }

    /** The copying loop of parse_number. */
    method CopyNumber(number: array<byte>) returns (i: nat)
      requires number.Length > 0 && offset <= |content|
      modifies number
      ensures i == NumberRun(content, offset, number.Length - 1)
      ensures number[..i] == content[offset..offset + i]
    {
      i := 0;
      while i < number.Length - 1 && offset + i < |content| && IsNumberByte(content[offset + i])
        invariant 0 <= i < number.Length && offset + i <= |content|
        invariant number[..i] == content[offset..offset + i]
        invariant NumberRun(content, offset, number.Length - 1)
               == i + NumberRun(content, offset + i, number.Length - 1 - i)
      {
        number[i] := content[offset + i];
        i := i + 1;
      }
    }

    method ParseNumber() returns (ok: bool, value: Value)
      requires Terminated(content) && offset < |content|
      modifies this`offset
      ensures match ReadNumber(content, old(offset))
              case Ok(v, next) => ok && value == v && offset == next
              case Err(at) => !ok && offset == at
    {
      hide Strtod, NumberRun;
      var number := new byte[64];
      var i := CopyNumber(number);
      number[i] := NUL;
      assert number[..i] == content[offset..offset + i];
      var (d, used) := Strtod(number[..i]);
      if used == 0 {
        return false, Null;
      }
      offset := offset + used;
      return true, Number(d);
    }

    /** The first pass of parse_string, from after the opening quote. */
    method FindClosingQuote() returns (closed: bool, end: nat, skipped: nat)
      requires offset < |content|
      ensures ScanString(content, offset + 1) == if closed then Closed(end, skipped) else Open
    {
      end, skipped := offset + 1, 0;
      while end < |content| && content[end] != QUOTE
        invariant offset < end <= |content|
        invariant ScanString(content, offset + 1)
               == match ScanString(content, end)
                  case Open => Open
                  case Closed(e, k) => Closed(e, k + skipped)
        decreases |content| - end
      {
        if content[end] == BACKSLASH {
          if end + 1 >= |content| {
            closed := false;
            return;
          }
          skipped := skipped + 1;
          end := end + 1;
        }
        end := end + 1;
      }
      closed := end < |content|;
    }

    /** One round of the second pass of parse_string. */
    method UnescapeOne(p: nat, end: nat, output: array<byte>, at: nat) returns (ok: bool, p': nat, at': nat)
      requires p < end < |content|
      requires UnescapeStep(content, p, end).Wrote? ==> at + |UnescapeStep(content, p, end).bytes| <= output.Length
      modifies output
      ensures match UnescapeStep(content, p, end)
              case Stuck => !ok
              case Wrote(bytes, n) =>
                ok && p' == p + n && at' == at + |bytes|
                && output[..at] == old(output[..at]) && output[at..at'] == bytes
    {
      hide Utf.ReadLiteral, Utf.Utf8;
      ok, p', at' := true, p, at;
      if content[p] != BACKSLASH {
        output[at] := content[p];
        p', at' := p + 1, at + 1;
      } else if content[p + 1] == LOWER_U {
        var length, next := Utf.LiteralToUtf8(content, p, end, output, at);
        if length == 0 {
          return false, p, at;
        }
        p', at' := p + length, next;
      } else {
        var escape := SimpleEscape(content[p + 1]);
        if escape.None? {
          return false, p, at;
        }
        output[at] := escape.value;
        p', at' := p + 2, at + 1;
      }
    }

    /** The second pass of parse_string; `stop` is where the input pointer stands when it ends. */
    method UnescapeLiteral(end: nat, skipped: nat) returns (ok: bool, value: seq<byte>, stop: nat)
      requires offset < |content| && ScanString(content, offset + 1) == Closed(end, skipped)
      ensures match Unescape(content, offset + 1, end)
              case Ok(bytes, _) => ok && value == CString(bytes)
              case Err(at) => !ok && stop == at
    {
      hide UnescapeStep, CString, Unescape, AfterBytes, ScanString, Fits;
      StartFits(content, offset, end, skipped);
      var output := new byte[Allocation(offset, end, skipped)];
      ghost var room := output.Length - 2;
      var at := 0;
      var p := offset + 1;
      NothingYet(Unescape(content, p, end));
      while p < end
        invariant offset < p <= end + 1
        invariant 0 <= at <= room
        invariant Fits(content, p, end, room - at)
        invariant Unescape(content, offset + 1, end) == AfterBytes(output[..at], Unescape(content, p, end))
        decreases end + 1 - p
      {
        StepFits(content, p, end, room - at);
        UnescapeUnfold(content, p, end, output[..at]);
        var more, p', at' := UnescapeOne(p, end, output, at);
        if !more {
          return false, [], p;
        }
        assert output[..at'] == output[..at] + output[at..at'];
        at, p := at', p';
        FitsRoom(content, p, end, room - at);
      }
      AllWritten(content, p, end, output[..at]);
      output[at] := NUL;
      return true, CString(output[..at]), end + 1;
    }

    method ParseString() returns (ok: bool, value: seq<byte>)
      requires Terminated(content) && offset < |content|
      modifies this`offset
      ensures match ReadString(content, old(offset))
              case Ok(s, next) => ok && value == s && offset == next
              case Err(at) => !ok && offset == at
    {
      hide ScanString, Unescape, CString;
      ok, value := false, [];
      if content[offset] != QUOTE {
        offset := offset + 1;
        return;
      }
      var closed, end, skipped := FindClosingQuote();
      if !closed {
        offset := offset + 1;
        return;
      }
      var stop;
      ok, value, stop := UnescapeLiteral(end, skipped);
      if !ok {
        offset := stop;
        return;
      }
      offset := end + 1;
    }

    method ParseValue() returns (ok: bool, value: Value)
      requires Terminated(content) && offset < |content|
      modifies this`offset, this`depth
      ensures match ReadValue(content, old(offset), old(depth))
              case Ok(v, next) => ok && value == v && offset == next && depth == old(depth)
              case Err(at) => !ok && offset == at
      decreases |content| - offset, 1
    {
      hide At, ReadString, ReadNumber, ReadArray, ReadObject;
      if At(content, offset, NULL_TEXT) {
        offset := offset + 4;
        return true, Null;
      }
      if At(content, offset, FALSE_TEXT) {
        offset := offset + 5;
        return true, False;
      }
      if At(content, offset, TRUE_TEXT) {
        offset := offset + 4;
        return true, True;
      }
      if content[offset] == QUOTE {
        var s;
        ok, s := ParseString();
        return ok, String(s);
      }
      if content[offset] == MINUS || 0x30 <= content[offset] <= 0x39 {
        ok, value := ParseNumber();
        return;
      }
      if content[offset] == LBRACKET {
        ok, value := ParseArray();
        return;
      }
      if content[offset] == LBRACE {
        ok, value := ParseObject();
        return;
      }
      return false, Null;
    }

    method ParseArray() returns (ok: bool, value: Value)
      requires Terminated(content) && offset < |content| && content[offset] == LBRACKET
      modifies this`offset, this`depth
      ensures match ReadArray(content, old(offset), old(depth))
              case Ok(v, next) => ok && value == v && offset == next && depth == old(depth)
              case Err(at) => !ok && offset == at
      decreases |content| - offset, 0
    {
      hide ReadValue, ReadElems, SkipSpace, AfterElems, AppendElems;
      if depth >= NESTING_LIMIT {
        return false, Null;
      }
      depth := depth + 1;
      offset := offset + 1;
      SkipWhitespace();
      var items := NoElem;
      if content[offset] != RBRACKET {
        ghost var first := offset;
        offset := offset - 1;
        StartElems(ReadElems(content, first, depth));
        var more := true;
        while more
          invariant old(offset) <= offset && first <= offset + 1 <= |content| && depth == old(depth) + 1
          invariant more ==>
              offset + 1 < |content|
              && ReadElems(content, first, depth) == AfterElems(items, ReadElems(content, offset + 1, depth))
          invariant !more ==>
              ReadElems(content, first, depth)
              == if content[offset] == RBRACKET then Ok(items, offset + 1) else Err(offset)
          decreases more, |content| - offset
        {
          offset := offset + 1;
          ElemsRound(content, items, offset, depth);
          SkipWhitespace();
          var v;
          ok, v := ParseValue();
          if !ok {
            return false, Null;
          }
          items := AppendElems(items, Elem(v, NoElem));
          SkipWhitespace();
          more := content[offset] == COMMA;
        }
        if content[offset] != RBRACKET {
          return false, Null;
        }
      }
      depth := depth - 1;
      offset := offset + 1;
      return true, Array(items);
    }

    /** The part of the loop of parse_object that reads one name and its value. */
    method ParseMember() returns (ok: bool, key: seq<byte>, value: Value)
      requires Terminated(content) && offset < |content|
      modifies this`offset, this`depth
      ensures match ReadMember(content, old(offset), old(depth))
              case Ok((k, v), next) => ok && key == k && value == v && offset == next && depth == old(depth)
              case Err(at) => !ok && offset == at
      decreases |content| - offset, 2
    {
      hide ReadValue, ReadString, SkipSpace;
      value := Null;
      SkipWhitespace();
      ok, key := ParseString();
      if !ok {
        return;
      }
      SkipWhitespace();
      if content[offset] != COLON {
        return false, key, Null;
      }
      offset := offset + 1;
      SkipWhitespace();
      ok, value := ParseValue();
    }

    method ParseObject() returns (ok: bool, value: Value)
      requires Terminated(content) && offset < |content| && content[offset] == LBRACE
      modifies this`offset, this`depth
      ensures match ReadObject(content, old(offset), old(depth))
              case Ok(v, next) => ok && value == v && offset == next && depth == old(depth)
              case Err(at) => !ok && offset == at
      decreases |content| - offset, 0
    {
      hide ReadMember, ReadMembers, SkipSpace, AfterMembers, AppendMembers;
      if depth >= NESTING_LIMIT {
        return false, Null;
      }
      depth := depth + 1;
      offset := offset + 1;
      SkipWhitespace();
      var items := NoMember;
      if content[offset] != RBRACE {
        ghost var first := offset;
        offset := offset - 1;
        StartMembers(ReadMembers(content, first, depth));
        var more := true;
        while more
          invariant old(offset) <= offset && first <= offset + 1 <= |content| && depth == old(depth) + 1
          invariant more ==>
              offset + 1 < |content|
              && ReadMembers(content, first, depth) == AfterMembers(items, ReadMembers(content, offset + 1, depth))
          invariant !more ==>
              ReadMembers(content, first, depth)
              == if content[offset] == RBRACE then Ok(items, offset + 1) else Err(offset)
          decreases more, |content| - offset
        {
          offset := offset + 1;
          MembersRound(content, items, offset, depth);
          var key, v;
          ok, key, v := ParseMember();
          if !ok {
            return false, Null;
          }
          items := AppendMembers(items, Member(key, v, NoMember));
          SkipWhitespace();
          more := content[offset] == COMMA;
        }
        if content[offset] != RBRACE {
          return false, Null;
        }
      }
      depth := depth - 1;
      offset := offset + 1;
      return true, Object(items);
    }
  }

  /**
   * cJSON_ParseWithOpts; `end` is what it reports through return_parse_end: the end of the value, or the place of
   * the error, which is the terminator when the cursor has run past it.
   */
  method ParseWithOpts(text: seq<byte>, strict: bool) returns (ok: bool, value: Value, end: nat)
    ensures match Parse(text, strict)
            case Ok(v, next) => ok && value == v && end == next
            case Err(at) => !ok && end == Min(at, |text|)
  {
    hide ReadValue, SkipSpace;
    var buffer := new ParseBuffer(text);
    buffer.SkipWhitespace();
    ok, value := buffer.ParseValue();
    if ok && strict {
      buffer.SkipWhitespace();
      ok := buffer.content[buffer.offset] == NUL;
    }
    end := buffer.offset;
    if !ok && end >= |buffer.content| {
      end := |buffer.content| - 1;
    }
  }

  lemma StartElems(r: Parsed<Elems>)
    ensures AfterElems(NoElem, r) == r
  {
  }

  lemma StartMembers(r: Parsed<Members>)
    ensures AfterMembers(NoMember, r) == r
  {
  }

  /** One round of the loop of parse_array. */
  lemma ElemsRound(c: seq<byte>, done: Elems, p: nat, depth: nat)
    requires Terminated(c) && p < |c|
    ensures AfterElems(done, ReadElems(c, p, depth))
         == match ReadValue(c, SkipSpace(c, p), depth)
            case Err(at) => Err(at)
            case Ok(v, next) =>
              var k := SkipSpace(c, next);
              var done' := AppendElems(done, Elem(v, NoElem));
              if c[k] == COMMA then AfterElems(done', ReadElems(c, k + 1, depth))
              else if c[k] == RBRACKET then Ok(done', k + 1)
              else Err(k)
  {
    hide ReadValue, SkipSpace, AppendElems;
    match ReadValue(c, SkipSpace(c, p), depth)
    case Err(_) =>
    case Ok(v, next) =>
      var k := SkipSpace(c, next);
      if c[k] == COMMA {
        match ReadElems(c, k + 1, depth)
        case Err(_) =>
        case Ok(es, _) => AppendElem(done, v, es);
      }
  }

  /** One round of the loop of parse_object. */
  lemma MembersRound(c: seq<byte>, done: Members, p: nat, depth: nat)
    requires Terminated(c) && p < |c|
    ensures AfterMembers(done, ReadMembers(c, p, depth))
         == match ReadMember(c, p, depth)
            case Err(at) => Err(at)
            case Ok((key, v), next) =>
              var k := SkipSpace(c, next);
              var done' := AppendMembers(done, Member(key, v, NoMember));
              if c[k] == COMMA then AfterMembers(done', ReadMembers(c, k + 1, depth))
              else if c[k] == RBRACE then Ok(done', k + 1)
              else Err(k)
  {
    hide ReadMember, SkipSpace, AppendMembers;
    match ReadMember(c, p, depth)
    case Err(_) =>
    case Ok((key, v), next) =>
      var k := SkipSpace(c, next);
      if c[k] == COMMA {
        match ReadMembers(c, k + 1, depth)
        case Err(_) =>
        case Ok(ms, _) => AppendMember(done, key, v, ms);
      }
  }

  lemma NothingYet(r: Parsed<seq<byte>>)
    ensures AfterBytes([], r) == r
  {
    match r
    case Err(_) =>
    case Ok(bytes, _) => assert [] + bytes == bytes;
  }

  lemma AllWritten(c: seq<byte>, p: nat, end: nat, done: seq<byte>)
    requires end <= p <= end + 1 && end < |c|
    ensures AfterBytes(done, Unescape(c, p, end)) == Ok(done, end + 1)
  {
    assert done + [] == done;
  }

  lemma UnescapeUnfold(c: seq<byte>, p: nat, end: nat, done: seq<byte>)
    requires p < end < |c|
    ensures AfterBytes(done, Unescape(c, p, end))
         == match UnescapeStep(c, p, end)
            case Stuck => Err(p)
            case Wrote(bytes, n) => AfterBytes(done + bytes, Unescape(c, p + n, end))
  {
    hide UnescapeStep;
    match UnescapeStep(c, p, end)
    case Stuck =>
    case Wrote(bytes, n) =>
      match Unescape(c, p + n, end)
      case Err(_) =>
      case Ok(rest, _) => assert done + (bytes + rest) == done + bytes + rest;
  }
}

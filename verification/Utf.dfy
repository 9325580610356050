/** UTF-16 escapes and their UTF-8 form (parse_hex4 and utf16_literal_to_utf8). */
module Utf {
  import opened Bytes
  import opened JsonValue

  predicate IsHex(b: byte) {
    0x30 <= b <= 0x39 || 0x41 <= b <= 0x46 || 0x61 <= b <= 0x66
  }

  /** Four hexadecimal digits stand at `p`. */
  predicate HexAt(c: seq<byte>, p: nat) {
    p + 4 <= |c| && IsHex(c[p]) && IsHex(c[p + 1]) && IsHex(c[p + 2]) && IsHex(c[p + 3])
  }

  function HexValue(b: byte): (h: nat)
    requires IsHex(b)
    ensures h < 16
  {
    if b <= 0x39 then b - 0x30 else if b <= 0x46 then b - 0x37 else b - 0x57
  }

  /** The number written by the four bytes at `p`; zero when one of them is no hexadecimal digit. */
  function Hex4(c: seq<byte>, p: nat): (h: nat)
    requires p + 4 <= |c|
    ensures h <= 0xFFFF
  {
    if HexAt(c, p)
    then HexValue(c[p]) * 0x1000 + HexValue(c[p + 1]) * 0x100 + HexValue(c[p + 2]) * 0x10 + HexValue(c[p + 3])
    else 0
  }

  /** The digits in their order, in either case. */
  lemma HexDigits(b: byte)
    requires IsHex(b)
    ensures b as char == "0123456789abcdef"[HexValue(b)] || b as char == "0123456789ABCDEF"[HexValue(b)]
  {
  }

  /** The number written by digits, the highest first. */
  function Base16(digits: seq<byte>): nat
    requires forall k :: 0 <= k < |digits| ==> IsHex(digits[k])
  {
    if digits == [] then 0 else Base16(digits[..|digits| - 1]) * 16 + HexValue(digits[|digits| - 1])
  }

  lemma Base16More(digits: seq<byte>, b: byte)
    requires (forall k :: 0 <= k < |digits| ==> IsHex(digits[k])) && IsHex(b)
    ensures forall k :: 0 <= k <= |digits| ==> IsHex((digits + [b])[k])
    ensures Base16(digits + [b]) == Base16(digits) * 16 + HexValue(b)
  {
    hide HexValue, IsHex;
    assert (digits + [b])[..|digits|] == digits;
  }

  lemma Hex4Base(c: seq<byte>, p: nat)
    requires HexAt(c, p)
    ensures Hex4(c, p) == Base16(c[p..p + 4])
  {
    hide HexValue, IsHex, Base16;
    NoDigits();
    Base16More([], c[p]);
    Base16More([] + [c[p]], c[p + 1]);
    Base16More([] + [c[p]] + [c[p + 1]], c[p + 2]);
    Base16More([] + [c[p]] + [c[p + 1]] + [c[p + 2]], c[p + 3]);
    assert c[p..p + 4] == [] + [c[p]] + [c[p + 1]] + [c[p + 2]] + [c[p + 3]];
  }

  lemma NoDigits()
    ensures Base16([]) == 0
  {
  }

  method ParseHex4(c: seq<byte>, p: nat) returns (h: nat)
    requires p + 4 <= |c|
    ensures h == Hex4(c, p)
  {
    h := 0;
    for i := 0 to 4
      invariant forall k :: p <= k < p + i ==> IsHex(c[k])
      invariant i == 0 ==> h == 0
      invariant i == 1 ==> h == HexValue(c[p]) * 0x10
      invariant i == 2 ==> h == HexValue(c[p]) * 0x100 + HexValue(c[p + 1]) * 0x10
      invariant i == 3 ==> h == HexValue(c[p]) * 0x1000 + HexValue(c[p + 1]) * 0x100 + HexValue(c[p + 2]) * 0x10
      invariant i == 4 ==> h == Hex4(c, p)
    {
      var b := c[p + i];
      if 0x30 <= b <= 0x39 {
        h := h + b - 0x30;
      } else if 0x41 <= b <= 0x46 {
        h := h + 10 + b - 0x41;
      } else if 0x61 <= b <= 0x66 {
        h := h + 10 + b - 0x61;
      } else {
        return 0;
      }
      if i < 3 {
        h := h * 16;
      }
    }
  }

  // ---- The standards ----

  predicate HighSurrogate(w: nat) { 0xD800 <= w <= 0xDBFF }

  predicate LowSurrogate(w: nat) { 0xDC00 <= w <= 0xDFFF }

  /** Code points that UTF-8 encodes, section 3 of RFC 3629. */
  predicate IsScalar(u: nat) {
    u <= 0x10FFFF && !(0xD800 <= u <= 0xDFFF)
  }

  /** Decoding one UTF-16 character, section 2.2 of RFC 2781. */
  function Utf16Decode(w1: nat, w2: Option<nat>): (u: Option<nat>)
    requires w1 <= 0xFFFF
    ensures u.Some? ==> IsScalar(u.value)
  {
    if w1 < 0xD800 || w1 > 0xDFFF then Some(w1)
    else if w1 > 0xDBFF then None
    else if w2.None? || !LowSurrogate(w2.value) then None
    else Some((w1 - 0xD800) * 0x400 + (w2.value - 0xDC00) + 0x10000)
  }

  /** `u` without its last `n` groups of six bits. */
  function Shifted(u: nat, n: nat): nat {
    if n == 0 then u else Shifted(u, n - 1) / 0x40
  }

  /** The UTF-8 form of a code point: the table in section 3 of RFC 3629. */
  function Utf8(u: nat): (s: seq<byte>)
    requires u <= 0x10FFFF
    ensures 1 <= |s| <= 4
  {
    if u <= 0x7F then [u]
    else if u <= 0x7FF then [0xC0 + Shifted(u, 1), Tail(u, 0)]
    else if u <= 0xFFFF then [0xE0 + Shifted(u, 2), Tail(u, 1), Tail(u, 0)]
    else [0xF0 + Shifted(u, 3), Tail(u, 2), Tail(u, 1), Tail(u, 0)]
  }

  /** The continuation byte that carries the six-bit group `n` of `u`. */
  function Tail(u: nat, n: nat): byte {
    0x80 + Shifted(u, n) % 0x40
  }

  predicate Continuation(b: byte) { 0x80 <= b <= 0xBF }

  function Over(b: byte, mark: byte): int {
    b - mark
  }

  /** Decoding a UTF-8 sequence; overlong forms, surrogates and large code points are invalid. */
  function Utf8Decode(s: seq<byte>): (u: Option<nat>)
    ensures u.Some? ==> IsScalar(u.value)
  {
    if |s| == 1 && s[0] <= 0x7F then Some(s[0])
    else if |s| == 2 && 0xC0 <= s[0] <= 0xDF && Continuation(s[1]) then
      var u := Over(s[0], 0xC0) * 0x40 + Over(s[1], 0x80);
      if u < 0x80 then None else Some(u)
    else if |s| == 3 && 0xE0 <= s[0] <= 0xEF && Continuation(s[1]) && Continuation(s[2]) then
      var u := Over(s[0], 0xE0) * 0x1000 + Over(s[1], 0x80) * 0x40 + Over(s[2], 0x80);
      if u < 0x800 || 0xD800 <= u <= 0xDFFF then None else Some(u)
    else if |s| == 4 && 0xF0 <= s[0] <= 0xF7 && Continuation(s[1]) && Continuation(s[2]) && Continuation(s[3]) then
      var u := Over(s[0], 0xF0) * 0x40000 + Over(s[1], 0x80) * 0x1000 + Over(s[2], 0x80) * 0x40 + Over(s[3], 0x80);
      if u < 0x10000 || u > 0x10FFFF then None else Some(u)
    else None
  }

  lemma DecodesItsForm(u: nat)
    requires IsScalar(u)
    ensures Utf8Decode(Utf8(u)) == Some(u)
  {
    assert Shifted(u, 1) == u / 0x40;
    assert Shifted(u, 2) == u / 0x40 / 0x40;
    assert Shifted(u, 3) == u / 0x40 / 0x40 / 0x40;
  }

  /** Cutting off a group of six bits. */
  lemma CutGroup(u: nat, n: nat, q: nat, r: nat)
    requires Shifted(u, n) == q * 0x40 + r && r < 0x40
    ensures Shifted(u, n + 1) == q && Tail(u, n) == 0x80 + r
  {
    GroupOf(q, r);
  }

  lemma GroupOf(q: nat, r: nat)
    requires r < 0x40
    ensures (q * 0x40 + r) / 0x40 == q && (q * 0x40 + r) % 0x40 == r
  {
  }

  lemma FormOfDecoded(s: seq<byte>)
    requires Utf8Decode(s).Some?
    ensures Utf8(Utf8Decode(s).value) == s
  {
    hide Shifted, Tail;
    var u := Utf8Decode(s).value;
    NothingCut(u);
    if |s| == 2 {
      CutGroup(u, 0, Over(s[0], 0xC0), Over(s[1], 0x80));
    } else if |s| == 3 {
      CutGroup(u, 0, Over(s[0], 0xE0) * 0x40 + Over(s[1], 0x80), Over(s[2], 0x80));
      CutGroup(u, 1, Over(s[0], 0xE0), Over(s[1], 0x80));
    } else if |s| == 4 {
      CutGroup(u, 0, (Over(s[0], 0xF0) * 0x40 + Over(s[1], 0x80)) * 0x40 + Over(s[2], 0x80), Over(s[3], 0x80));
      CutGroup(u, 1, Over(s[0], 0xF0) * 0x40 + Over(s[1], 0x80), Over(s[2], 0x80));
      CutGroup(u, 2, Over(s[0], 0xF0), Over(s[1], 0x80));
    }
  }

  lemma NothingCut(u: nat)
    ensures Shifted(u, 0) == u
  {
  }

  /** The UTF-8 form and the decoder are inverse: exactly one byte sequence decodes to `u`. */
  lemma Utf8RoundTrip(u: nat, s: seq<byte>)
    requires IsScalar(u)
    ensures Utf8Decode(s) == Some(u) <==> s == Utf8(u)
  {
    DecodesItsForm(u);
    if Utf8Decode(s) == Some(u) {
      FormOfDecoded(s);
    }
  }

  /**
   * The arithmetic used for the code's bit operations: joining two surrogates, cutting off a
   * continuation byte, and marking the first byte.
   */
  lemma BitForms(w1: bv32, w2: bv32, u: bv32)
    ensures 0xD800 <= w1 <= 0xDBFF && 0xDC00 <= w2 <= 0xDFFF ==>
              (((w1 & 0x3FF) << 10) | (w2 & 0x3FF)) == (w1 % 0x400) * 0x400 + w2 % 0x400
    ensures (u | 0x80) & 0xBF == 0x80 + u % 0x40
    ensures (u >> 6) == u / 0x40 && u & 0x7F == u % 0x80
    ensures u < 0x20 ==> (u | 0xC0) & 0xFF == 0xC0 + u
    ensures u < 0x10 ==> (u | 0xE0) & 0xFF == 0xE0 + u
    ensures u < 0x08 ==> (u | 0xF0) & 0xFF == 0xF0 + u
  {
  }

  // ---- The code ----

  /** What one escape in the input stands for: a code point, and the input consumed. */
  datatype Literal = Bad | Good(u: nat, length: nat)

  predicate EscapeU(c: seq<byte>, p: nat) {
    p + 1 < |c| && c[p] == BACKSLASH && c[p + 1] == LOWER_U
  }

  /** The escape standing at `p`, in a literal that ends before `end`. */
  function ReadLiteral(c: seq<byte>, p: nat, end: nat): (r: Literal)
    requires p <= end <= |c|
    ensures r.Good? ==> r.length <= end - p && (r.length == 6 || r.length == 12) && IsScalar(r.u)
  {
    if end - p < 6 then Bad
    else
      var w1 := Hex4(c, p + 2);
      if LowSurrogate(w1) then Bad
      else if !HighSurrogate(w1) then Good(w1, 6)
      else if end - p < 12 || !EscapeU(c, p + 6) then Bad
      else
        var w2 := Hex4(c, p + 8);
        if !LowSurrogate(w2) then Bad
        else Good((w1 - 0xD800) * 0x400 + (w2 - 0xDC00) + 0x10000, 12)
  }

  /** The code unit of a well-formed escape at `p`. */
  function UnitAt(c: seq<byte>, p: nat, end: nat): (w: Option<nat>)
    requires end <= |c|
    ensures w.Some? ==> w.value <= 0xFFFF
  {
    if p + 6 <= end && EscapeU(c, p) && HexAt(c, p + 2) then Some(Hex4(c, p + 2)) else None
  }

  /**
   * A well-formed escape is accepted exactly when UTF-16 decoding gives a code point, so a lone
   * surrogate is rejected, and the bytes written are the only ones that decode to that code point.
   */
  lemma LiteralMeaning(c: seq<byte>, p: nat, end: nat, s: seq<byte>)
    requires p <= end <= |c|
    requires UnitAt(c, p, end).Some?
    ensures var w1 := UnitAt(c, p, end).value;
            var r := ReadLiteral(c, p, end);
            match Utf16Decode(w1, UnitAt(c, p + 6, end))
            case None => r == Bad
            case Some(u) =>
              r == Good(u, if HighSurrogate(w1) then 12 else 6)
              && (s == Utf8(r.u) <==> Utf8Decode(s) == Some(u))
  {
    match Utf16Decode(UnitAt(c, p, end).value, UnitAt(c, p + 6, end))
    case None =>
    case Some(u) => Utf8RoundTrip(u, s);
  }

  /** utf16_literal_to_utf8: writes the bytes of the escape at `p` to `out` from `at` on. */
  method LiteralToUtf8(c: seq<byte>, p: nat, end: nat, out: array<byte>, at: nat)
    returns (length: nat, next: nat)
    requires p <= end <= |c|
    requires ReadLiteral(c, p, end).Good? ==> at + |Utf8(ReadLiteral(c, p, end).u)| <= out.Length
    modifies out
    ensures match ReadLiteral(c, p, end)
            case Bad => length == 0 && next == at && out[..] == old(out[..])
            case Good(u, n) =>
              length == n && next == at + |Utf8(u)| <= out.Length
              && out[..at] == old(out[..at]) && out[at..next] == Utf8(u) && out[next..] == old(out[next..])
  {
    var codepoint;
    length, codepoint := DecodeLiteral(c, p, end);
    next := at;
    if length != 0 {
      next := EncodeUtf8(codepoint, out, at);
    }
  }

  /** The decoding half of utf16_literal_to_utf8; a length of zero means failure. */
  method DecodeLiteral(c: seq<byte>, p: nat, end: nat) returns (length: nat, codepoint: nat)
    requires p <= end <= |c|
    ensures ReadLiteral(c, p, end) == if length == 0 then Bad else Good(codepoint, length)
  {
    hide Hex4;
    length, codepoint := 0, 0;
    if end - p < 6 {
      return;
    }
    var first := ParseHex4(c, p + 2);
    if 0xDC00 <= first <= 0xDFFF {
      return;
    }
    if 0xD800 <= first <= 0xDBFF {
      if end - (p + 6) < 6 {
        return;
      }
      if c[p + 6] != BACKSLASH || c[p + 7] != LOWER_U {
        return;
      }
      var second := ParseHex4(c, p + 8);
      if second < 0xDC00 || second > 0xDFFF {
        return;
      }
      LowBits(first, second);
      length, codepoint := 12, 0x10000 + first % 0x400 * 0x400 + second % 0x400;
    } else {
      length, codepoint := 6, first;
    }
  }

  lemma LowBits(first: nat, second: nat)
    requires 0xD800 <= first <= 0xDBFF && 0xDC00 <= second <= 0xDFFF
    ensures first % 0x400 == first - 0xD800 && second % 0x400 == second - 0xDC00
  {
  }

  lemma FormTails(u: nat)
    requires u <= 0x10FFFF
    ensures forall k :: 0 < k < |Utf8(u)| ==> Utf8(u)[k] == Tail(u, |Utf8(u)| - 1 - k)
    ensures |Utf8(u)| == 1 ==> Utf8(u)[0] == u < 0x80
  {
  }

  /** The encoding half of utf16_literal_to_utf8. */
  method EncodeUtf8(u: nat, out: array<byte>, at: nat) returns (next: nat)
    requires u <= 0x10FFFF
    requires at + |Utf8(u)| <= out.Length
    modifies out
    ensures next == at + |Utf8(u)|
    ensures out[..at] == old(out[..at]) && out[at..next] == Utf8(u) && out[next..] == old(out[next..])
  {
    var codepoint := u;
    var utf8Length: nat;
    var firstByteMark: byte := 0;
    if codepoint < 0x80 {
      utf8Length := 1;
    } else if codepoint < 0x800 {
      utf8Length, firstByteMark := 2, 0xC0;
    } else if codepoint < 0x10000 {
      utf8Length, firstByteMark := 3, 0xE0;
    } else {
      utf8Length, firstByteMark := 4, 0xF0;
    }
    WriteForm(u, utf8Length, firstByteMark, out, at);
    next := at + utf8Length;
  }

  /** The bytes are written from the last to the first, cutting six bits off the code point each time. */
  method WriteForm(u: nat, utf8Length: nat, firstByteMark: byte, out: array<byte>, at: nat)
    requires u <= 0x10FFFF && utf8Length == |Utf8(u)| && at + utf8Length <= out.Length
    requires utf8Length == 1 || firstByteMark + Shifted(u, utf8Length - 1) == Utf8(u)[0]
    modifies out
    ensures out[..at] == old(out[..at])
    ensures out[at..at + utf8Length] == Utf8(u)
    ensures out[at + utf8Length..] == old(out[at + utf8Length..])
  {
    hide Utf8;
    var codepoint := u;
    ghost var form := Utf8(u);
    FormTails(u);
    var position := utf8Length - 1;
    while position > 0
      invariant 0 <= position < utf8Length
      invariant codepoint == Shifted(u, utf8Length - 1 - position)
      invariant forall k :: at + position < k < at + utf8Length ==> out[k] == form[k - at]
      invariant forall k :: 0 <= k < out.Length && !(at <= k < at + utf8Length) ==> out[k] == old(out[k])
    {
      out[at + position] := 0x80 + codepoint % 0x40;
      codepoint := codepoint / 0x40;
      position := position - 1;
    }
    if utf8Length > 1 {
      out[at] := firstByteMark + codepoint;
    } else {
      out[at] := codepoint % 0x80;
    }
  }
}

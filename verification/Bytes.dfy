/** Bytes, C strings, and placing a text inside a buffer. */
module Bytes {

  type byte = x: int | 0 <= x < 256

  const NUL: byte := 0

  datatype Option<+T> = None | Some(value: T)

  function Min(a: int, b: int): int {
    if a < b then a else b
  }

  /** True when no byte of `s` is the C string terminator. */
  predicate NulFree(s: seq<byte>) {
    forall k :: 0 <= k < |s| ==> s[k] != NUL
  }

  /** The part of `s` that C string functions see: everything before the first terminator. */
  function CString(s: seq<byte>): (r: seq<byte>)
    ensures NulFree(r) && r <= s
    ensures |r| < |s| ==> s[|r|] == NUL
  {
    if s == [] || s[0] == NUL then [] else [s[0]] + CString(s[1..])
  }

  /** A prefix without terminator before a terminator is the C string. */
  lemma CStringOf(c: seq<byte>, t: seq<byte>)
    requires t < c && c[|t|] == NUL && NulFree(t)
    ensures CString(c) == t
  {
    var r := CString(c);
    assert |r| >= |t|;
    assert |r| <= |t|;
    assert r == c[..|r|];
  }

  lemma {:induction false} WholeText(text: seq<byte>)
    requires NulFree(text)
    ensures CString(text) == text
  {
    if text != [] {
      WholeText(text[1..]);
    }
  }

  lemma Associate(a: seq<byte>, b: seq<byte>, c: seq<byte>)
    ensures a + (b + c) == a + b + c
  {
  }

  /** The bytes of `t` stand in `c` from position `i` on. */
  predicate At(c: seq<byte>, i: nat, t: seq<byte>) {
    i + |t| <= |c| && c[i..i + |t|] == t
  }

  /** A concatenation stands in a buffer exactly when its parts stand one after the other. */
  lemma AtSplit(c: seq<byte>, i: nat, s: seq<byte>, t: seq<byte>)
    ensures At(c, i, s + t) <==> At(c, i, s) && At(c, i + |s|, t)
  {
    if At(c, i, s + t) {
      assert c[i..i + |s|] == c[i..i + |s + t|][..|s|] == s;
      assert c[i + |s|..i + |s| + |t|] == c[i..i + |s + t|][|s|..] == t;
    }
    if At(c, i, s) && At(c, i + |s|, t) {
      assert c[i..i + |s + t|] == c[i..i + |s|] + c[i + |s|..i + |s| + |t|];
    }
  }

  lemma CStringStands(c: seq<byte>, t: seq<byte>)
    requires NulFree(t) && At(c, 0, t + [NUL])
    ensures CString(c) == t
  {
    hide CString;
    assert c[..|t| + 1] == t + [NUL];
    assert forall k :: 0 <= k < |t| ==> c[k] == c[..|t| + 1][k] == t[k];
    assert c[|t|] == c[..|t| + 1][|t|] == NUL;
    CStringOf(c, t);
  }

  lemma AtByte(c: seq<byte>, i: nat, b: byte)
    ensures At(c, i, [b]) <==> i < |c| && c[i] == b
  {
    if i < |c| {
      assert c[i..i + 1] == [c[i]];
    }
  }
}

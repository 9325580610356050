/** Decimal numerals, their values, and that the parser reads every numeral as its value. */
module JsonNumerals {
  import opened Bytes
  import opened JsonValue
  import opened JsonText
  import opened JsonGrammar
  import opened JsonRoundTrip
  import opened JsonMeaning
  import JsonMinify

  datatype Exponent = NoExponent | Exponent(mark: byte, sign: seq<byte>, digits: seq<byte>)

  /** A sign, digits, a point with digits behind it, and an exponent; what is optional may be empty. */
  datatype Numeral =
    Numeral(sign: seq<byte>, whole: seq<byte>, point: bool, fraction: seq<byte>, exponent: Exponent)

  predicate IsSign(s: seq<byte>) {
    s == [] || s == [MINUS] || s == [PLUS]
  }

  predicate ValidNumeral(n: Numeral) {
    && IsSign(n.sign) && AllDigits(n.whole) && AllDigits(n.fraction)
    && n.whole + n.fraction != [] && (!n.point ==> n.fraction == [])
    && match n.exponent
       case NoExponent => true
       case Exponent(mark, sign, digits) =>
         (mark == LOWER_E || mark == UPPER_E) && IsSign(sign) && AllDigits(digits) && digits != []
  }

  function MantissaText(n: Numeral): seq<byte> {
    n.sign + n.whole + (if n.point then [POINT] + n.fraction else [])
  }

  function ExponentText(e: Exponent): seq<byte> {
    match e
    case NoExponent => []
    case Exponent(mark, sign, digits) => [mark] + sign + digits
  }

  function NumeralText(n: Numeral): seq<byte> {
    MantissaText(n) + ExponentText(n.exponent)
  }

  // ---- Values ----

  function TenTo(n: nat): (p: nat)
    ensures p > 0
  {
    if n == 0 then 1 else 10 * TenTo(n - 1)
  }

  /** The sum of the digits, each times the power of ten of its place. */
  function PlaceValue(s: seq<byte>): nat
    requires AllDigits(s)
  {
    if s == [] then 0 else DigitValue(s[0]) * TenTo(|s| - 1) + PlaceValue(s[1..])
  }

  /** `x` times ten to the power `e`. */
  function Scaled(x: real, e: int): real {
    if e >= 0 then x * TenTo(e) as real else x / TenTo(-e) as real
  }

  function ExponentValue(e: Exponent): int
    requires e.Exponent? ==> AllDigits(e.digits)
  {
    match e
    case NoExponent => 0
    case Exponent(_, sign, digits) =>
      var size: int := PlaceValue(digits);
      if sign == [MINUS] then -size else size
  }

  /** All digits as one number, scaled to where the point and the exponent put it. */
  function NumeralValue(n: Numeral): real
    requires ValidNumeral(n)
  {
    var x := Scaled(PlaceValue(n.whole + n.fraction) as real, ExponentValue(n.exponent) - |n.fraction|);
    if n.sign == [MINUS] then -x else x
  }

  lemma {:induction false} TenToAdds(m: nat, n: nat)
    ensures TenTo(m + n) == TenTo(m) * TenTo(n)
  {
    if m > 0 {
      TenToAdds(m - 1, n);
      Ten(TenTo(m - 1), TenTo(n));
    }
  }

  lemma Ten(a: nat, b: nat)
    ensures 10 * (a * b) == (10 * a) * b
  {
  }

  lemma {:induction false} PowerIsTen(n: nat)
    ensures Power10(n) == TenTo(n) as real
  {
    if n > 0 {
      PowerIsTen(n - 1);
    }
  }

  lemma {:induction false} PlaceValueMore(s: seq<byte>, b: byte)
    requires AllDigits(s) && IsDigit(b)
    ensures PlaceValue(s + [b]) == 10 * PlaceValue(s) + DigitValue(b)
  {
    if s == [] {
      assert [b][1..] == [];
      assert [] + [b] == [b];
    } else {
      PlaceValueMore(s[1..], b);
      assert (s + [b])[1..] == s[1..] + [b];
      Ten(DigitValue(s[0]), TenTo(|s| - 1));
      assert DigitValue(s[0]) * TenTo(|s|) == 10 * (DigitValue(s[0]) * TenTo(|s| - 1)) by {
        assert TenTo(|s|) == 10 * TenTo(|s| - 1);
        Swap(DigitValue(s[0]), TenTo(|s| - 1));
      }
    }
  }

  lemma Swap(a: nat, b: nat)
    ensures a * (10 * b) == 10 * (a * b)
  {
  }

  lemma {:induction false} NatIsPlaceValue(s: seq<byte>)
    requires AllDigits(s)
    ensures NatValue(s) == PlaceValue(s)
  {
    if s != [] {
      var front := s[..|s| - 1];
      NatIsPlaceValue(front);
      PlaceValueMore(front, s[|s| - 1]);
      assert s == front + [s[|s| - 1]];
    }
  }

  /** Digits behind others: the first ones move up. */
  lemma {:induction false} PlaceValueConcat(s: seq<byte>, t: seq<byte>)
    requires AllDigits(s) && AllDigits(t)
    ensures PlaceValue(s + t) == PlaceValue(s) * TenTo(|t|) + PlaceValue(t)
    decreases |t|
  {
    if t == [] {
      assert s + t == s;
    } else {
      var front, b := t[..|t| - 1], t[|t| - 1];
      PlaceValueConcat(s, front);
      PlaceValueMore(s + front, b);
      PlaceValueMore(front, b);
      assert s + t == (s + front) + [b] && t == front + [b];
      Swap(PlaceValue(s), TenTo(|front|));
    }
  }

  // ---- The arithmetic of strtod ----

  /** Ten to the power of a sum, in the reals. */
  lemma TensMultiply(m: nat, n: nat)
    ensures TenTo(m + n) as real == TenTo(m) as real * TenTo(n) as real
  {
    hide TenTo;
    TenToAdds(m, n);
  }

  lemma ScaledDown(x: real, k: nat, m: nat)
    requires m > 0
    ensures Scaled(x / TenTo(k) as real, 0 - m) == Scaled(x, 0 - (k + m))
  {
    hide TenTo;
    TensMultiply(k, m);
    DivideTwice(x, TenTo(k) as real, TenTo(m) as real);
  }

  lemma ScaledUp(x: real, k: nat, m: nat)
    ensures Scaled(x / TenTo(k) as real, k + m) == Scaled(x, m)
  {
    hide TenTo;
    TensMultiply(k, m);
    Cancel(x, TenTo(k) as real, TenTo(m) as real);
  }

  lemma ScaledBetween(x: real, e: nat, d: nat)
    requires d > 0
    ensures Scaled(x / TenTo(e + d) as real, e) == Scaled(x, 0 - d)
  {
    hide TenTo;
    TensMultiply(e, d);
    CancelBelow(x, TenTo(e) as real, TenTo(d) as real);
  }

  lemma ScaledTwice(x: real, k: nat, e: int)
    ensures Scaled(x / TenTo(k) as real, e) == Scaled(x, e - k)
  {
    hide TenTo, Scaled;
    if e < 0 {
      ScaledDown(x, k, -e);
    } else if e >= k {
      ScaledUp(x, k, e - k);
    } else {
      ScaledBetween(x, e, k - e);
    }
  }

  lemma DivideTwice(x: real, a: real, b: real)
    requires a > 0.0 && b > 0.0
    ensures x / a / b == x / (a * b)
  {
    var y := x / a / b;
    assert y * b == x / a;
    assert y * b * a == x;
    assert y * (a * b) == y * b * a;
  }

  lemma Cancel(x: real, a: real, b: real)
    requires a > 0.0
    ensures x / a * (a * b) == x * b
  {
    var y := x / a;
    assert y * a == x;
    assert y * (a * b) == y * a * b;
  }

  lemma CancelBelow(x: real, a: real, b: real)
    requires a > 0.0 && b > 0.0
    ensures x / (a * b) * a == x / b
  {
    DivideTwice(x, b, a);
    assert a * b == b * a;
    var y := x / b / a;
    assert y * a == x / b;
  }

  lemma CommonDenominator(w: nat, f: nat, p: nat)
    requires p > 0
    ensures w as real + f as real / p as real == (w * p + f) as real / p as real
  {
    var q := f as real / p as real;
    assert (w as real + q) * p as real == w as real * p as real + q * p as real;
    assert w as real * p as real == (w * p) as real;
  }

  lemma Negated(x: real, e: int)
    ensures Scaled(-x, e) == -Scaled(x, e)
  {
    hide TenTo;
    if e < 0 {
      var p := TenTo(-e) as real;
      var y := x / p;
      assert y * p == x;
      assert (-y) * p == -x;
    }
  }

  predicate Down(e: Exponent) {
    e.Exponent? && e.sign == [MINUS]
  }

  function ExponentDigits(e: Exponent): seq<byte> {
    if e.Exponent? then e.digits else []
  }

  /** What strtod computes from the parts of a numeral is its value. */
  lemma PartsValue(n: Numeral)
    requires ValidNumeral(n)
    ensures Assembled(n.sign == [MINUS], n.whole, n.fraction, Down(n.exponent), ExponentDigits(n.exponent))
         == NumeralValue(n)
  {
    hide PlaceValue, NatValue, TenTo, Power10, Scaled;
    var m := MantissaValue(n);
    var e := ExponentValue(n.exponent);
    var digits := ExponentDigits(n.exponent);
    Negated(m, e);
    NatIsPlaceValue(digits);
    NoDigits();
    ScaledByPower(if n.sign == [MINUS] then -m else m, PlaceValue(digits));
  }

  lemma NoDigits()
    ensures PlaceValue([]) == 0
  {
  }

  lemma MantissaValue(n: Numeral) returns (m: real)
    requires ValidNumeral(n)
    ensures m == NatValue(n.whole) as real + NatValue(n.fraction) as real / Power10(|n.fraction|)
    ensures forall e :: Scaled(m, e) == Scaled(PlaceValue(n.whole + n.fraction) as real, e - |n.fraction|)
  {
    hide PlaceValue, NatValue, TenTo, Power10, Scaled;
    var w, f, k := PlaceValue(n.whole), PlaceValue(n.fraction), |n.fraction|;
    NatIsPlaceValue(n.whole);
    NatIsPlaceValue(n.fraction);
    PowerIsTen(k);
    PlaceValueConcat(n.whole, n.fraction);
    CommonDenominator(w, f, TenTo(k));
    m := w as real + f as real / TenTo(k) as real;
    forall e ensures Scaled(m, e) == Scaled(PlaceValue(n.whole + n.fraction) as real, e - k) {
      ScaledTwice((w * TenTo(k) + f) as real, k, e);
    }
  }

  lemma ScaledByPower(x: real, n: int)
    requires n >= 0
    ensures Scaled(x, n) == x * Power10(n) && Scaled(x, -n) == x / Power10(n)
  {
    hide TenTo, Power10;
    PowerIsTen(n);
    if n == 0 {
      TenToNothing();
    }
  }

  lemma TenToNothing()
    ensures TenTo(0) == 1
  {
  }

  lemma ScaledByNothing(x: real)
    ensures Scaled(x, 0) == x
  {
  }

  // ---- strtod reads every numeral ----

  lemma {:induction false} DigitsEndAt(s: seq<byte>, i: nat, digits: seq<byte>)
    requires At(s, i, digits) && AllDigits(digits)
    requires i + |digits| < |s| ==> !IsDigit(s[i + |digits|])
    ensures DigitsEnd(s, i) == i + |digits|
    decreases |digits|
  {
    if digits != [] {
      Lead(s, i, digits);
      assert digits == [digits[0]] + digits[1..];
      AtSplit(s, i, [digits[0]], digits[1..]);
      DigitsEndAt(s, i + 1, digits[1..]);
    }
  }

  /** Where the parts of a numeral stand in its text. */
  lemma PartsStand(n: Numeral, s: seq<byte>)
    requires ValidNumeral(n) && s == NumeralText(n)
    ensures var g := |n.sign|;
            var a := g + |n.whole|;
            var b := if n.point then a + 1 + |n.fraction| else a;
            && b <= |s| && s[..g] == n.sign && At(s, g, n.whole)
            && (n.point ==> a < |s| && s[a] == POINT && At(s, a + 1, n.fraction))
            && At(s, b, ExponentText(n.exponent)) && |s| == b + |ExponentText(n.exponent)|
  {
    hide At;
    var p := if n.point then [POINT] + n.fraction else [];
    var x := ExponentText(n.exponent);
    WholeAt(s);
    AtSplit(s, 0, n.sign + n.whole + p, x);
    AtSplit(s, 0, n.sign + n.whole, p);
    AtSplit(s, 0, n.sign, n.whole);
    JsonMinify.SliceAt(s, 0, n.sign);
    if n.point {
      var a := |n.sign| + |n.whole|;
      AtSplit(s, a, [POINT], n.fraction);
      AtByte(s, a, POINT);
    }
  }

  /** How an exponent begins. */
  lemma ExponentStands(e: Exponent, s: seq<byte>, b: nat)
    requires e.Exponent? && IsSign(e.sign) && AllDigits(e.digits) && e.digits != []
    requires At(s, b, ExponentText(e)) && |s| == b + |ExponentText(e)|
    ensures b + 1 < |s| && s[b] == e.mark && At(s, b + 1 + |e.sign|, e.digits) && |s| == b + 1 + |e.sign| + |e.digits|
    ensures if e.sign == [] then IsDigit(s[b + 1]) else s[b + 1] == e.sign[0]
  {
    hide At, IsDigit;
    var tail := e.sign + e.digits;
    Associate([e.mark], e.sign, e.digits);
    AtSplit(s, b, [e.mark], tail);
    AtByte(s, b, e.mark);
    AtSplit(s, b + 1, e.sign, e.digits);
    Lead(s, b + 1, tail);
    assert tail[0] == if e.sign == [] then e.digits[0] else e.sign[0];
  }

  lemma StrtodNumeral(n: Numeral)
    requires ValidNumeral(n)
    ensures Strtod(NumeralText(n)) == (NumeralValue(n), |NumeralText(n)|)
  {
    hide At, Assembled, NumeralValue, DigitsEnd, AllDigits, ExponentText, ExponentStart, Whole, Fraction, ExponentOf,
         HasMark, MantissaEnd;
    var s := NumeralText(n);
    NumeralParts(n, s);
    StartOfNumeral(n, s);
    PartsStand(n, s);
    NumeralExponent(n, s);
    PartsValue(n);
    assert n.whole + n.fraction == [] <==> n.whole == [] && n.fraction == [];
  }

  lemma NumeralParts(n: Numeral, s: seq<byte>)
    requires ValidNumeral(n) && s == NumeralText(n)
    ensures var a := |n.sign| + |n.whole|;
            && SignEnd(s) == |n.sign| && WholeEnd(s) == a
            && MantissaEnd(s) == (if n.point then a + 1 + |n.fraction| else a)
    ensures Whole(s) == n.whole && Fraction(s) == n.fraction
  {
    hide At, DigitsEnd, AllDigits, ExponentText;
    var g := |n.sign|;
    var a := g + |n.whole|;
    var b := if n.point then a + 1 + |n.fraction| else a;
    PartsStand(n, s);
    AfterMantissa(n, s, b);
    StartOfNumeral(n, s);
    DigitsEndAt(s, g, n.whole);
    JsonMinify.SliceAt(s, g, n.whole);
    if n.point {
      DigitsEndAt(s, a + 1, n.fraction);
      JsonMinify.SliceAt(s, a + 1, n.fraction);
    }
  }

  lemma NumeralExponent(n: Numeral, s: seq<byte>)
    requires ValidNumeral(n) && s == NumeralText(n)
    ensures HasMark(s) == n.exponent.Exponent?
    ensures n.exponent.Exponent? ==>
              && MantissaEnd(s) + 1 < |s| && (s[MantissaEnd(s) + 1] == MINUS) == Down(n.exponent)
              && ExponentOf(s) == n.exponent.digits && ExponentStart(s) + |ExponentOf(s)| == |s|
    ensures n.exponent.NoExponent? ==> MantissaEnd(s) == |s|
  {
    hide At, DigitsEnd, AllDigits, ExponentText, MantissaEnd, WholeEnd, SignEnd, Whole, Fraction, NumeralText;
    var b := MantissaEnd(s);
    NumeralParts(n, s);
    PartsStand(n, s);
    AfterMantissa(n, s, b);
    if n.exponent.Exponent? {
      var e := b + 1 + |n.exponent.sign|;
      ExponentStands(n.exponent, s, b);
      DigitsEndAt(s, e, n.exponent.digits);
      JsonMinify.SliceAt(s, e, n.exponent.digits);
      SignOrDigit(n.exponent.sign, s[b + 1]);
    }
  }

  lemma SignOrDigit(sign: seq<byte>, b: byte)
    requires IsSign(sign) && if sign == [] then IsDigit(b) else b == sign[0]
    ensures (b == MINUS || b == PLUS) == (sign != []) && (b == MINUS) == (sign == [MINUS])
  {
  }

  /** The byte behind the mantissa, if any, is an exponent mark. */
  lemma AfterMantissa(n: Numeral, s: seq<byte>, b: nat)
    requires ValidNumeral(n) && At(s, b, ExponentText(n.exponent)) && |s| == b + |ExponentText(n.exponent)|
    ensures b < |s| <==> n.exponent.Exponent?
    ensures b < |s| ==> (s[b] == LOWER_E || s[b] == UPPER_E)
  {
    hide At;
    if n.exponent.Exponent? {
      Lead(s, b, ExponentText(n.exponent));
    }
  }

  lemma StartOfNumeral(n: Numeral, s: seq<byte>)
    requires ValidNumeral(n) && s == NumeralText(n)
    ensures s != [] && (s[0] == MINUS || s[0] == PLUS) == (n.sign != []) && (s[0] == MINUS) == (n.sign == [MINUS])
  {
    if n.sign == [] {
      if n.whole == [] {
        assert n.point && s[0] == POINT;
      } else {
        assert s[0] == n.whole[0];
      }
    } else {
      assert s[0] == n.sign[0];
    }
  }

  lemma NumeralBytes(n: Numeral)
    requires ValidNumeral(n)
    ensures forall k :: 0 <= k < |NumeralText(n)| ==> IsNumberByte(NumeralText(n)[k])
  {
  }

  /** A numeral of JSON, which the parser looks at only behind a minus or a digit, and up to 63 bytes. */
  predicate ValidNumber(n: Numeral) {
    ValidNumeral(n) && n.sign != [PLUS] && (n.sign == [] ==> n.whole != []) && |NumeralText(n)| <= 63
  }

  /** Wherever a numeral stands before a delimiter, it is read as its value. */
  lemma NumeralRead(n: Numeral, depth: nat)
    requires ValidNumber(n)
    ensures ReadsValue(NumeralText(n), Number(NumeralValue(n)), depth)
    ensures NumeralText(n) != [] && NumeralText(n)[0] > 32
  {
    hide NumeralValue, Strtod, ReadValue, Delimited, IsNumberByte;
    var m := NumeralText(n);
    StrtodNumeral(n);
    NumeralBytes(n);
    StartOfNumeral(n, m);
    FirstOfNumeral(n, m);
    forall d: seq<byte>, q: nat | Terminated(d) && At(d, q, m) && Delimited(d, q + |m|)
      ensures ReadValue(d, q, depth) == Ok(Number(NumeralValue(n)), q + |m|)
    {
      NumberAnywhere(d, q, m, NumeralValue(n), depth);
    }
  }

  lemma FirstOfNumeral(n: Numeral, m: seq<byte>)
    requires ValidNumber(n) && m == NumeralText(n)
    ensures m != [] && (m[0] == MINUS || IsDigit(m[0]))
  {
    if n.sign == [] {
      assert m[0] == n.whole[0];
    } else {
      assert m[0] == n.sign[0];
    }
  }

  // ---- What is read is a numeral ----

  /** strtod uses a numeral, or nothing. */
  lemma UsedNumeral(s: seq<byte>) returns (n: Numeral)
    requires Strtod(s).1 > 0
    ensures ValidNumeral(n) && NumeralText(n) == s[..Strtod(s).1] && NumeralValue(n) == Strtod(s).0
  {
    hide Assembled, NumeralValue, DigitsEnd, AllDigits, SignEnd, WholeEnd, MantissaEnd, Whole, Fraction, ExponentStart,
         ExponentOf, HasMark;
    var b := MantissaEnd(s);
    var point := b > WholeEnd(s);
    UsedMantissa(s);
    assert Whole(s) != [] || Fraction(s) != [] ==> Whole(s) + Fraction(s) != [];
    if HasMark(s) && ExponentOf(s) != [] {
      var x := UsedExponent(s);
      n := Numeral(s[..SignEnd(s)], Whole(s), point, Fraction(s), x);
    } else {
      n := Numeral(s[..SignEnd(s)], Whole(s), point, Fraction(s), NoExponent);
      assert s[..b] + [] == s[..b];
    }
    PartsValue(n);
  }

  lemma UsedMantissa(s: seq<byte>)
    ensures IsSign(s[..SignEnd(s)]) && (s[..SignEnd(s)] == [MINUS] <==> s != [] && s[0] == MINUS)
    ensures MantissaEnd(s) == WholeEnd(s) ==> Fraction(s) == []
    ensures s[..SignEnd(s)] + Whole(s) + (if MantissaEnd(s) > WholeEnd(s) then [POINT] + Fraction(s) else [])
         == s[..MantissaEnd(s)]
  {
    hide DigitsEnd;
    if SignEnd(s) == 1 {
      assert s[..1] == [s[0]];
    }
    MantissaSlice(s, SignEnd(s), WholeEnd(s), MantissaEnd(s), MantissaEnd(s) > WholeEnd(s), Fraction(s));
  }

  lemma UsedExponent(s: seq<byte>) returns (x: Exponent)
    requires HasMark(s) && ExponentOf(s) != []
    ensures x.Exponent? && (x.mark == LOWER_E || x.mark == UPPER_E) && IsSign(x.sign) && x.digits == ExponentOf(s)
    ensures Down(x) == (s[MantissaEnd(s) + 1] == MINUS)
    ensures s[..ExponentStart(s) + |ExponentOf(s)|] == s[..MantissaEnd(s)] + ExponentText(x)
  {
    hide DigitsEnd, MantissaEnd;
    var b, e := MantissaEnd(s), ExponentStart(s);
    var f := e + |ExponentOf(s)|;
    x := Exponent(s[b], s[b + 1..e], s[e..f]);
    if e == b + 2 {
      assert s[b + 1..e] == [s[b + 1]];
    }
    assert s[..f] == s[..b] + ([s[b]] + s[b + 1..e] + s[e..f]);
  }

  lemma MantissaSlice(s: seq<byte>, g: nat, a: nat, b: nat, point: bool, fraction: seq<byte>)
    requires g <= a <= b <= |s| && (point ==> a < b && s[a] == POINT && fraction == s[a + 1..b])
    requires !point ==> a == b && fraction == []
    ensures s[..g] + s[g..a] + (if point then [POINT] + fraction else []) == s[..b]
  {
  }

  /** What the parser reads as a number is a numeral with that value. */
  lemma AcceptedNumeral(c: seq<byte>, i: nat) returns (n: Numeral)
    requires Terminated(c) && i < |c| && ReadNumber(c, i).Ok? && (c[i] == MINUS || IsDigit(c[i]))
    ensures ValidNumber(n) && At(c, i, NumeralText(n)) && ReadNumber(c, i).next == i + |NumeralText(n)|
    ensures ReadNumber(c, i).value == Number(NumeralValue(n))
  {
    hide Strtod, NumberRun, NumeralValue;
    var run := NumberRun(c, i, 63);
    var s := c[i..i + run];
    n := UsedNumeral(s);
    assert NumeralText(n) == s[..Strtod(s).1] == c[i..i + |NumeralText(n)|];
    StartOfNumeral(n, NumeralText(n));
    assert NumeralText(n)[0] == c[i];
    NoLeadingPoint(n);
  }

  lemma NoLeadingPoint(n: Numeral)
    requires ValidNumeral(n)
    ensures NumeralText(n) != [] && (n.sign == [] && n.whole == [] ==> NumeralText(n)[0] == POINT)
  {
  }

  /** Of a longer run of digits, 63 are read. */
  lemma LongNumber(c: seq<byte>, i: nat)
    requires Terminated(c) && i + 63 < |c| && forall k :: i <= k < i + 63 ==> IsDigit(c[k])
    ensures ReadNumber(c, i) == Ok(Number(PlaceValue(c[i..i + 63]) as real), i + 63)
  {
    hide PlaceValue, Strtod, NumberRun;
    var t := c[i..i + 63];
    var n := Numeral([], t, false, [], NoExponent);
    assert NumeralText(n) == t && t + [] == t;
    StrtodNumeral(n);
    ScaledByNothing(PlaceValue(t) as real);
    FullRun(c, i, 63);
  }

  lemma {:induction false} FullRun(c: seq<byte>, i: nat, room: nat)
    requires i + room <= |c| && forall k :: i <= k < i + room ==> IsDigit(c[k])
    ensures NumberRun(c, i, room) == room
    decreases room
  {
    if room > 0 {
      FullRun(c, i + 1, room - 1);
    }
  }
}

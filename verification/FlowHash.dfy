/** The Flow Director hash of the 82599: the byte-wise loop against its bit-level definition. */
module FlowHash {

  import opened Bits

  /** Bit `n` of a 16-bit word. */
  predicate WordBit(x: bv16, n: nat)
    requires n < 16
  {
    x & (1 << Shift(n)) != 0
  }

  /** Bit `n` of a byte. */
  predicate Bit(x: bv8, n: nat)
    requires n < 8
  {
    WordBit(x as bv16, n)
  }

  // ---- Definition ----

  /** Stream[335:0]: the first byte is the most significant one. */
  predicate StreamBit(stream: seq<bv8>, n: nat)
    requires |stream| == 42 && n < 336
  {
    Bit(stream[41 - n / 8], n % 8)
  }

  /** int_stream: the 336 stream bits, with the 15 highest of them once more below and the 15 lowest once more above. */
  predicate WrappedBit(stream: seq<bv8>, n: nat)
    requires |stream| == 42 && n < 366
  {
    if n < 15 then StreamBit(stream, 321 + n)
    else if n < 351 then StreamBit(stream, n - 15)
    else StreamBit(stream, n - 351)
  }

  /** tmp_key[351:0]: the four key bytes eleven times, the first byte in memory being the most significant. */
  predicate RepeatedBit(key: seq<bv8>, n: nat)
    requires |key| == 4 && n < 352
  {
    Bit(key[(43 - n / 8) % 4], n % 8)
  }

  /** int_key: the repeated key without its lowest bit. */
  predicate KeyBit(key: seq<bv8>, n: nat)
    requires |key| == 4 && n < 351
  {
    RepeatedBit(key, n + 1)
  }

  /** Bit `b` of the exclusive or, over the set key bits below `n`, of int_stream[(k + 15):k]. */
  predicate HashBit(stream: seq<bv8>, key: seq<bv8>, n: nat, b: nat)
    requires |stream| == 42 && |key| == 4 && n <= 351 && b < 16
  {
    n > 0 && HashBit(stream, key, n - 1, b) != (KeyBit(key, n - 1) && WrappedBit(stream, n - 1 + b))
  }

  // ---- Bit patterns ----

  /** A byte made of the last bit of one byte and the first seven of the next. */
  function Joined(a: bv8, b: bv8): bv8 {
    (a << 7) | (b >> 1)
  }

  lemma JoinedBit(a: bv8, b: bv8, n: nat)
    requires n < 8
    ensures Bit(Joined(a, b), n) == if n == 7 then Bit(a, 0) else Bit(b, n + 1)
  {
    ShiftSum(1, n);
    JoinedShift(a, b, Shift(n));
  }

  lemma JoinedShift(a: bv8, b: bv8, n: bv16)
    requires n < 8
    ensures (Joined(a, b) as bv16 & (1 << n) != 0)
         == if n == 7 then a as bv16 & 1 != 0 else b as bv16 & (1 << (n + 1)) != 0
  {
  }

  /** The 16 bits that start at bit `h` of `x`, going on in `y` and `z`. */
  function Window(x: bv8, y: bv8, z: bv8, h: nat): bv16
    requires h < 8
  {
    var s := Shift(h);
    (x as bv16 >> s) | (y as bv16 << (8 - s)) | ((z as bv16 & ((1 << s) - 1)) << (16 - s))
  }

  /** Bit `n` of three bytes, counted from the lowest bit of `x`. */
  predicate Spans(x: bv8, y: bv8, z: bv8, n: nat)
    requires n < 24
  {
    if n < 8 then Bit(x, n) else if n < 16 then Bit(y, n - 8) else Bit(z, n - 16)
  }

  lemma WindowBit(x: bv8, y: bv8, z: bv8, h: nat, b: nat)
    requires h < 8 && b < 16
    ensures WordBit(Window(x, y, z, h), b) == Spans(x, y, z, b + h)
  {
    hide Shift;
    ShiftBytes();
    ShiftSum(h, b);
    if b + h >= 8 { ShiftSum(8, b + h - 8); }
    if b + h >= 16 { ShiftSum(16, b + h - 16); }
    WindowShift(x as bv16, y as bv16, z as bv16, Shift(h), Shift(b));
  }

  lemma WindowShift(x: bv16, y: bv16, z: bv16, h: bv16, b: bv16)
    requires x < 0x100 && y < 0x100 && z < 0x100 && h < 8 && b < 16
    ensures var w := (x >> h) | (y << (8 - h)) | ((z & ((1 << h) - 1)) << (16 - h));
            (w & (1 << b) != 0)
            == if b + h < 8 then x & (1 << (b + h)) != 0
               else if b + h < 16 then y & (1 << (b + h - 8)) != 0
               else z & (1 << (b + h - 16)) != 0
  {
  }

  lemma XorBit(x: bv16, y: bv16, b: nat)
    requires b < 16
    ensures WordBit(x ^ y, b) == (WordBit(x, b) != WordBit(y, b))
  {
    OneBit(Shift(b));
    XorMask(x, y, 1 << Shift(b));
  }

  lemma OneBit(n: bv16)
    requires n < 16
    ensures var m: bv16 := 1 << n; m & (m - 1) == 0
  {
  }

  lemma XorMask(x: bv16, y: bv16, m: bv16)
    requires m & (m - 1) == 0
    ensures ((x ^ y) & m != 0) == ((x & m != 0) != (y & m != 0))
  {
  }

  // ---- The code ----

  /** Byte `i` of the key, counted from the least significant one. */
  function ByteOf(key: bv32, i: nat): bv8
    requires i < 4
  {
    if i == 0 then (key & 0xFF) as bv8
    else if i == 1 then ((key >> 8) & 0xFF) as bv8
    else if i == 2 then ((key >> 16) & 0xFF) as bv8
    else (key >> 24) as bv8
  }

  /** The bytes of the key as they stand in memory. */
  function KeyBytes(key: bv32, littleEndian: bool): (bytes: seq<bv8>)
    ensures |bytes| == 4
  {
    if littleEndian
    then [ByteOf(key, 0), ByteOf(key, 1), ByteOf(key, 2), ByteOf(key, 3)]
    else [ByteOf(key, 3), ByteOf(key, 2), ByteOf(key, 1), ByteOf(key, 0)]
  }

  /** Byte `i` of the 44-byte interim key; the top bit of byte 0 is unused. */
  ghost predicate KeyByte(key: seq<bv8>, i: nat, x: bv8)
    requires |key| == 4 && i < 44
  {
    forall h :: 0 <= h < (if i == 0 then 7 else 8) ==> Bit(x, h) == KeyBit(key, (43 - i) * 8 + h)
  }

  lemma KeyFrom(key: seq<bv8>, i: nat, h: nat)
    requires |key| == 4 && i < 44 && h < 8 && (i == 0 ==> h < 7)
    ensures (43 - i) * 8 + h < 351
    ensures KeyBit(key, (43 - i) * 8 + h) == if h == 7 then Bit(key[(i + 3) % 4], 0) else Bit(key[i % 4], h + 1)
  {
    hide Bit;
    var n := (43 - i) * 8 + h + 1;
    if h == 7 {
      assert n / 8 == 44 - i && n % 8 == 0;
    } else {
      assert n / 8 == 43 - i && n % 8 == h + 1;
    }
  }

  /** The interim key: the repeated key bytes, shifted right by one bit. */
  method InterimKey(key: seq<bv8>) returns (intKey: array<bv8>)
    requires |key| == 4
    ensures fresh(intKey) && intKey.Length == 44
    ensures forall i :: 0 <= i < 44 ==> KeyByte(key, i, intKey[i])
  {
    hide KeyByte, Joined;
    var keyStream := new bv8[44](i => key[i % 4]);
    intKey := new bv8[44];
    intKey[0] := keyStream[0] >> 1;
    FirstByte(key);
    var j := 0;
    for i := 1 to 44
      invariant j == i - 1
      invariant forall m :: 0 <= m < i ==> KeyByte(key, m, intKey[m])
      invariant forall m :: 0 <= m < 44 ==> keyStream[m] == key[m % 4]
    {
      var thisKey := keyStream[j];
      j := j + 1;
      intKey[i] := Joined(thisKey, keyStream[j]);
      NextByte(key, i);
    }
  }

  lemma FirstByte(key: seq<bv8>)
    requires |key| == 4
    ensures KeyByte(key, 0, key[0] >> 1)
  {
    hide Bit, KeyBit;
    var x := key[0] >> 1;
    forall h | 0 <= h < 7 ensures Bit(x, h) == KeyBit(key, (43 - 0) * 8 + h) {
      KeyFrom(key, 0, h);
      JoinedBit(0, key[0], h);
    }
  }

  lemma NextByte(key: seq<bv8>, i: nat)
    requires |key| == 4 && 1 <= i < 44
    ensures KeyByte(key, i, Joined(key[(i - 1) % 4], key[i % 4]))
  {
    hide Bit, KeyBit, Joined;
    var x := Joined(key[(i - 1) % 4], key[i % 4]);
    forall h | 0 <= h < 8 ensures Bit(x, h) == KeyBit(key, (43 - i) * 8 + h) {
      KeyFrom(key, i, h);
      JoinedBit(key[(i - 1) % 4], key[i % 4], h);
    }
  }

  /** Byte `i` of the 46-byte interim string; the two top bits of byte 0 are unused. */
  ghost predicate StreamByte(stream: seq<bv8>, i: nat, x: bv8)
    requires |stream| == 42 && i < 46
  {
    forall h :: 0 <= h < (if i == 0 then 6 else 8) ==> Bit(x, h) == WrappedBit(stream, (45 - i) * 8 + h)
  }

  lemma StreamFrom(stream: seq<bv8>, i: nat, h: nat)
    requires |stream| == 42 && i < 46 && h < 8 && (i == 0 ==> h < 6)
    ensures (45 - i) * 8 + h < 366
    ensures WrappedBit(stream, (45 - i) * 8 + h)
         == if h == 7 then Bit(stream[(i + 39) % 42], 0) else Bit(stream[(i + 40) % 42], h + 1)
  {
    hide Bit;
    var n := (45 - i) * 8 + h;
    if n < 15 {
      Divides(321 + n, if h == 7 then 86 - i else 85 - i, (h + 1) % 8);
    } else if n < 351 {
      Divides(n - 15, if h == 7 then 44 - i else 43 - i, (h + 1) % 8);
    } else {
      Divides(n - 351, if h == 7 then 2 - i else 1 - i, (h + 1) % 8);
    }
  }

  lemma Divides(n: nat, q: int, r: nat)
    requires n == 8 * q + r && r < 8
    ensures n / 8 == q && n % 8 == r
  {
  }

  /** The interim bit string: the stream wrapped around at both ends. */
  method InterimStream(stream: seq<bv8>) returns (hashStr: array<bv8>)
    requires |stream| == 42
    ensures fresh(hashStr) && hashStr.Length == 46
    ensures forall i :: 0 <= i < 46 ==> StreamByte(stream, i, hashStr[i])
  {
    hide StreamByte, Joined;
    hashStr := new bv8[46];
    hashStr[0] := (stream[40] & 0x7F) >> 1;
    FirstPart(stream);
    var j := 40;
    for i := 1 to 46
      invariant j == (i + 39) % 42
      invariant forall m :: 0 <= m < i ==> StreamByte(stream, m, hashStr[m])
    {
      var thisStr := stream[j];
      j := j + 1;
      if j > 41 {
        j := 0;
      }
      hashStr[i] := Joined(thisStr, stream[j]);
      NextPart(stream, i);
    }
  }

  lemma FirstPart(stream: seq<bv8>)
    requires |stream| == 42
    ensures StreamByte(stream, 0, (stream[40] & 0x7F) >> 1)
  {
    hide Bit, WrappedBit;
    var x := (stream[40] & 0x7F) >> 1;
    forall h | 0 <= h < 6 ensures Bit(x, h) == WrappedBit(stream, (45 - 0) * 8 + h) {
      StreamFrom(stream, 0, h);
      MaskedBit(stream[40], h);
    }
  }

  lemma MaskedBit(a: bv8, n: nat)
    requires n < 6
    ensures Bit((a & 0x7F) >> 1, n) == Bit(a, n + 1)
  {
    ShiftSum(1, n);
    MaskedShift(a, Shift(n));
  }

  lemma MaskedShift(a: bv8, n: bv16)
    requires n < 6
    ensures (((a & 0x7F) >> 1) as bv16 & (1 << n) != 0) == (a as bv16 & (1 << (n + 1)) != 0)
  {
  }

  lemma NextPart(stream: seq<bv8>, i: nat)
    requires |stream| == 42 && 1 <= i < 46
    ensures StreamByte(stream, i, Joined(stream[(i + 39) % 42], stream[(i + 40) % 42]))
  {
    hide Bit, WrappedBit, Joined;
    var last, first := stream[(i + 39) % 42], stream[(i + 40) % 42];
    forall h | 0 <= h < 8 ensures Bit(Joined(last, first), h) == WrappedBit(stream, (45 - i) * 8 + h) {
      StreamFrom(stream, i, h);
      JoinedBit(last, first, h);
    }
  }

  /** `hash` is the exclusive or over the set key bits below `k`. */
  ghost predicate HashOf(stream: seq<bv8>, key: seq<bv8>, k: nat, hash: bv16)
    requires |stream| == 42 && |key| == 4 && k <= 351
  {
    forall b :: 0 <= b < 16 ==> WordBit(hash, b) == HashBit(stream, key, k, b)
  }

  /** ixgbe_atr_compute_hash_82599 computes the bit-level definition. */
  method ComputeHash(stream: seq<bv8>, key: bv32, littleEndian: bool) returns (hash: bv16)
    requires |stream| == 42
    ensures HashOf(stream, KeyBytes(key, littleEndian), 351, hash)
  {
    hide Bit, Window, KeyBytes, KeyByte, StreamByte, HashOf;
    var bytes := KeyBytes(key, littleEndian);
    var intKey := InterimKey(bytes);
    var hashStr := InterimStream(stream);
    hash := 0;
    NothingTaken(stream, bytes);
    var i, j, k := 45, 43, 0;
    while k < 351 && i >= 2 && j >= 0
      invariant i == j + 2 && -1 <= j <= 43 && (if j == -1 then k == 351 else k == (43 - j) * 8)
      invariant HashOf(stream, bytes, k, hash)
      decreases j
      modifies {}
    {
      var h := 0;
      while h < 8 && k < 351
        invariant 0 <= h <= 8 && k == (43 - j) * 8 + h <= 351
        invariant HashOf(stream, bytes, k, hash)
        modifies {}
      {
        HashStep(stream, bytes, hash, j, h, intKey[j], hashStr[i], hashStr[i - 1], hashStr[i - 2]);
        if Bit(intKey[j], h) {
          hash := hash ^ Window(hashStr[i], hashStr[i - 1], hashStr[i - 2], h);
        }
        h, k := h + 1, k + 1;
      }
      i, j := i - 1, j - 1;
    }
  }

  lemma NothingTaken(stream: seq<bv8>, key: seq<bv8>)
    requires |stream| == 42 && |key| == 4
    ensures HashOf(stream, key, 0, 0)
  {
    hide Shift;
  }

  /** One key bit: the window is taken in exactly when the bit is set. */
  lemma HashStep(stream: seq<bv8>, key: seq<bv8>, hash: bv16, j: nat, h: nat, d: bv8, x: bv8, y: bv8, z: bv8)
    requires |stream| == 42 && |key| == 4 && j < 44 && h < 8 && (43 - j) * 8 + h < 351
    requires KeyByte(key, j, d)
    requires StreamByte(stream, j + 2, x) && StreamByte(stream, j + 1, y) && StreamByte(stream, j, z)
    requires HashOf(stream, key, (43 - j) * 8 + h, hash)
    ensures HashOf(stream, key, (43 - j) * 8 + h + 1, if Bit(d, h) then hash ^ Window(x, y, z, h) else hash)
  {
    hide Bit, WordBit, Window, KeyByte, StreamByte, HashBit;
    var taken := if Bit(d, h) then hash ^ Window(x, y, z, h) else hash;
    forall b | 0 <= b < 16 ensures WordBit(taken, b) == HashBit(stream, key, (43 - j) * 8 + h + 1, b) {
      HashStepBit(stream, key, hash, j, h, d, x, y, z, b);
    }
  }

  lemma HashStepBit(stream: seq<bv8>, key: seq<bv8>, hash: bv16, j: nat, h: nat, d: bv8, x: bv8, y: bv8, z: bv8, b: nat)
    requires |stream| == 42 && |key| == 4 && j < 44 && h < 8 && (43 - j) * 8 + h < 351 && b < 16
    requires KeyByte(key, j, d)
    requires StreamByte(stream, j + 2, x) && StreamByte(stream, j + 1, y) && StreamByte(stream, j, z)
    requires WordBit(hash, b) == HashBit(stream, key, (43 - j) * 8 + h, b)
    ensures WordBit(if Bit(d, h) then hash ^ Window(x, y, z, h) else hash, b)
         == HashBit(stream, key, (43 - j) * 8 + h + 1, b)
  {
    hide Bit, WordBit, Window, Spans, KeyBit, WrappedBit, KeyByte, StreamByte;
    KeyHere(key, j, d, h);
    StreamHere(stream, j, x, y, z, b + h);
    WindowBit(x, y, z, h, b);
    XorBit(hash, Window(x, y, z, h), b);
  }

  lemma KeyHere(key: seq<bv8>, j: nat, d: bv8, h: nat)
    requires |key| == 4 && j < 44 && h < 8 && (43 - j) * 8 + h < 351 && KeyByte(key, j, d)
    ensures Bit(d, h) == KeyBit(key, (43 - j) * 8 + h)
  {
    hide Bit, KeyBit;
  }

  lemma StreamHere(stream: seq<bv8>, j: nat, x: bv8, y: bv8, z: bv8, n: nat)
    requires |stream| == 42 && j < 44 && n < 23 && (43 - j) * 8 + n < 366
    requires StreamByte(stream, j + 2, x) && StreamByte(stream, j + 1, y) && StreamByte(stream, j, z)
    ensures Spans(x, y, z, n) == WrappedBit(stream, (43 - j) * 8 + n)
  {
    hide Bit, WrappedBit;
    assert (43 - j) * 8 + n == (45 - (j + 1)) * 8 + (n - 8) == (45 - j) * 8 + (n - 16);
  }

  /** The definition leaves no choice: one word has these bits. */
  lemma HashDetermined(stream: seq<bv8>, key: seq<bv8>, k: nat, g: bv16, hash: bv16)
    requires |stream| == 42 && |key| == 4 && k <= 351
    requires HashOf(stream, key, k, g) && HashOf(stream, key, k, hash)
    ensures g == hash
  {
    hide WordBit, HashBit;
    var x := g ^ hash;
    forall b | 0 <= b < 16 ensures !WordBit(x, b) {
      XorBit(g, hash, b);
    }
    NoBits(x);
    XorZero(g, hash);
  }

  lemma NoBits(x: bv16)
    requires forall b :: 0 <= b < 16 ==> !WordBit(x, b)
    ensures x == 0
  {
    assert !WordBit(x, 0) && !WordBit(x, 1) && !WordBit(x, 2) && !WordBit(x, 3);
    assert !WordBit(x, 4) && !WordBit(x, 5) && !WordBit(x, 6) && !WordBit(x, 7);
    assert !WordBit(x, 8) && !WordBit(x, 9) && !WordBit(x, 10) && !WordBit(x, 11);
    assert !WordBit(x, 12) && !WordBit(x, 13) && !WordBit(x, 14) && !WordBit(x, 15);
  }

  lemma XorZero(x: bv16, y: bv16)
    requires x ^ y == 0
    ensures x == y
  {
  }

  function Swapped(key: bv32): bv32 {
    (key << 24) | ((key & 0xFF00) << 8) | ((key >> 8) & 0xFF00) | (key >> 24)
  }

  /**
   * The definition reads the key most significant byte first. A little-endian
   * machine therefore hashes with the byte-swapped key.
   */
  lemma ByteOrder(key: bv32)
    ensures KeyBytes(key, true) == KeyBytes(Swapped(key), false)
  {
    hide ByteOf, Swapped;
    SwappedByte(key, 0);
    SwappedByte(key, 1);
    SwappedByte(key, 2);
    SwappedByte(key, 3);
  }

  lemma SwappedByte(key: bv32, i: nat)
    requires i < 4
    ensures ByteOf(key, i) == ByteOf(Swapped(key), 3 - i)
  {
  }

  // ---- When the reading of the key matters ----

  /** The stream whose only set bit is `m`. */
  function Single(m: nat): (stream: seq<bv8>)
    requires m < 336
    ensures |stream| == 42
  {
    seq(42, i requires 0 <= i < 42 => if i == 41 - m / 8 then OneAt(m % 8) else 0)
  }

  /** The byte whose only set bit is `n`. */
  function OneAt(n: nat): bv8
    requires n < 8
  {
    if n == 0 then 0x01 else if n == 1 then 0x02 else if n == 2 then 0x04 else if n == 3 then 0x08
    else if n == 4 then 0x10 else if n == 5 then 0x20 else if n == 6 then 0x40 else 0x80
  }

  lemma OneAtBit(n: nat, h: nat)
    requires n < 8 && h < 8
    ensures Bit(OneAt(n), h) == (h == n) && !Bit(0, h)
  {
  }

  lemma SingleBit(m: nat, n: nat)
    requires m < 336 && n < 336
    ensures StreamBit(Single(m), n) == (n == m)
  {
    OneAtBit(m % 8, n % 8);
    hide Bit, OneAt;
    assert n == 8 * (n / 8) + n % 8 && m == 8 * (m / 8) + m % 8;
  }

  /** Bit 0 of the hash of such a stream is one bit of the key. */
  lemma {:induction false} SingleHash(key: seq<bv8>, m: nat, n: nat)
    requires |key| == 4 && m < 321 && n <= 351
    ensures HashBit(Single(m), key, n, 0) == (m + 15 < n && KeyBit(key, m + 15))
  {
    hide KeyBit, StreamBit, Single;
    if n > 0 {
      SingleHash(key, m, n - 1);
      var k := n - 1;
      if k < 15 {
        SingleBit(m, 321 + k);
      } else {
        SingleBit(m, k - 15);
      }
    }
  }

  /** Two keys give the same hash of every stream. */
  ghost predicate SameHash(key: seq<bv8>, other: seq<bv8>)
    requires |key| == 4 && |other| == 4
  {
    forall stream: seq<bv8>, b :: |stream| == 42 && 0 <= b < 16 ==>
      HashBit(stream, key, 351, b) == HashBit(stream, other, 351, b)
  }

  /** That is so if and only if they are the same bytes. */
  lemma SameHashIff(key: seq<bv8>, other: seq<bv8>)
    requires |key| == 4 && |other| == 4
    ensures SameHash(key, other) <==> key == other
  {
    hide HashBit, Bit;
    if key == other {
      assert SameHash(key, key);
    }
    if SameHash(key, other) {
      forall i, h | 0 <= i < 4 && 0 <= h < 8 ensures Bit(key[i], h) == Bit(other[i], h) {
        var m := 16 + (3 - i) * 8 + h;
        KeyBitOf(key, i, h);
        KeyBitOf(other, i, h);
        SingleHash(key, m, 351);
        SingleHash(other, m, 351);
        assert HashBit(Single(m), key, 351, 0) == HashBit(Single(m), other, 351, 0);
      }
      forall i | 0 <= i < 4 ensures key[i] == other[i] {
        ByteDetermined(key[i], other[i]);
      }
      assert key == other;
    }
  }

  /** Where bit `h` of key byte `i` stands in the interim key. */
  lemma KeyBitOf(key: seq<bv8>, i: nat, h: nat)
    requires |key| == 4 && i < 4 && h < 8
    ensures KeyBit(key, 16 + (3 - i) * 8 + h + 15) == Bit(key[i], h)
  {
    hide Bit;
    var n := 16 + (3 - i) * 8 + h + 16;
    Divides(n, 7 - i, h);
  }

  lemma ByteDetermined(x: bv8, y: bv8)
    requires forall h :: 0 <= h < 8 ==> Bit(x, h) == Bit(y, h)
    ensures x == y
  {
    assert Bit(x, 0) == Bit(y, 0) && Bit(x, 1) == Bit(y, 1) && Bit(x, 2) == Bit(y, 2) && Bit(x, 3) == Bit(y, 3);
    assert Bit(x, 4) == Bit(y, 4) && Bit(x, 5) == Bit(y, 5) && Bit(x, 6) == Bit(y, 6) && Bit(x, 7) == Bit(y, 7);
  }

  /**
   * A little-endian machine computes the definition with the key as given, for every stream, if and only
   * if the key is its own byte swap.
   */
  lemma LittleEndianIff(key: bv32)
    ensures SameHash(KeyBytes(key, true), KeyBytes(key, false)) <==> Swapped(key) == key
  {
    hide SameHash, KeyBytes, Swapped;
    SameHashIff(KeyBytes(key, true), KeyBytes(key, false));
    ByteOrder(key);
    if KeyBytes(Swapped(key), false) == KeyBytes(key, false) {
      KeyDetermined(Swapped(key), key);
    }
  }

  lemma KeyDetermined(key: bv32, other: bv32)
    requires KeyBytes(key, false) == KeyBytes(other, false)
    ensures key == other
  {
    hide ByteOf;
    var s, t := KeyBytes(key, false), KeyBytes(other, false);
    assert s[3] == t[3] && s[2] == t[2] && s[1] == t[1] && s[0] == t[0];
    SameWord(key, other);
  }

  lemma SameWord(x: bv32, y: bv32)
    requires ByteOf(x, 0) == ByteOf(y, 0) && ByteOf(x, 1) == ByteOf(y, 1)
    requires ByteOf(x, 2) == ByteOf(y, 2) && ByteOf(x, 3) == ByteOf(y, 3)
    ensures x == y
  {
  }

  /** With key 1, the stream whose only set bit is bit 16 is hashed differently. */
  lemma ByteOrderMatters()
    ensures HashBit(Single(16), KeyBytes(1, true), 351, 0) != HashBit(Single(16), KeyBytes(1, false), 351, 0)
  {
    hide HashBit, Bit, OneAt;
    var little, big := KeyBytes(1, true), KeyBytes(1, false);
    SingleHash(little, 16, 351);
    SingleHash(big, 16, 351);
    KeyBitOf(little, 3, 0);
    KeyBitOf(big, 3, 0);
    assert little[3] == 0 && big[3] == 1;
    OneAtBit(0, 0);
    OneIsFirst();
  }

  lemma OneIsFirst()
    ensures OneAt(0) == 1
  {
  }
}

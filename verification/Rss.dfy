/**
 * Receive-side scaling: the cached Toeplitz hash of a flow against the
 * matrix definition, and the processor core it selects.
 */
module Rss {
  import opened Bits

  /** The mask of bit `n` of a byte, counted from the most significant one. */
  function ByteMask(n: nat): (m: bv32)
    requires n < 8
    ensures 0 < m < 0x100 && m & (m - 1) == 0
    ensures if n < 7 then m & 1 == 0 else m == 1
  {
    if n == 0 then 0x80 else if n == 1 then 0x40 else if n == 2 then 0x20 else if n == 3 then 0x10
    else if n == 4 then 0x08 else if n == 5 then 0x04 else if n == 6 then 0x02 else 0x01
  }

  /** The mask of bit `n` of a word, counted from the most significant one. */
  function Mask(n: nat): (m: bv32)
    requires n < 32
    ensures m & (m - 1) == 0
    ensures if n < 31 then m & 1 == 0 else m == 1
  {
    if n < 8 then ByteMask(n) << 24
    else if n < 16 then ByteMask(n - 8) << 16
    else if n < 24 then ByteMask(n - 16) << 8
    else ByteMask(n - 24)
  }

  lemma MaskNext(n: nat)
    requires n < 31
    ensures Mask(n + 1) == Mask(n) >> 1
  {
    if n % 8 < 7 {
      assert ByteMask(n % 8 + 1) == ByteMask(n % 8) >> 1;
      hide ByteMask;
      HalfMask(ByteMask(n % 8));
    }
  }

  lemma HalfMask(m: bv32)
    requires m < 0x100 && m & 1 == 0
    ensures (m >> 1) << 24 == (m << 24) >> 1
    ensures (m >> 1) << 16 == (m << 16) >> 1
    ensures (m >> 1) << 8 == (m << 8) >> 1
  {
  }

  /** Bit `n` of a word, counted from the most significant one. */
  predicate Top(x: bv32, n: nat)
    requires n < 32
  {
    x & Mask(n) != 0
  }

  /** Bit `n` of the key, counted from the most significant bit of its first byte. */
  predicate KeyBit(key: seq<bv8>, n: nat)
    requires |key| == 40 && n < 320
  {
    Top(key[n / 8] as bv32, 24 + n % 8)
  }

  // ---- Definition ----

  /** The address or port bits of a flow, most significant first. */
  function WordBits(x: bv32, n: nat): (bits: seq<bool>)
    requires n <= 32
  {
    seq(n, i requires 0 <= i < n => Top(x, i))
  }

  /** A port in the upper half of a word. */
  function Wide(port: bv16): bv32 {
    port as bv32 << 16
  }

  /** The 96 input bits: source and destination address, source and destination port. */
  function Input(sip: bv32, dip: bv32, sp: bv16, dp: bv16): (bits: seq<bool>)
    ensures |bits| == 96
  {
    WordBits(sip, 32) + WordBits(dip, 32) + WordBits(Wide(sp), 16) + WordBits(Wide(dp), 16)
  }

  /** The exclusive or, over the positions in `[from, end)`, of input bit and key bit `b` places on. */
  predicate Parity(bits: seq<bool>, key: seq<bv8>, from: nat, end: nat, b: nat)
    requires from <= end <= 96 && |bits| == 96 && |key| == 40 && b < 32
    decreases end
  {
    from < end && Parity(bits, key, from, end - 1, b) != (bits[end - 1] && KeyBit(key, end - 1 + b))
  }

  /** Row by row, `hash` is the Toeplitz matrix of the key applied to the first `n` input bits. */
  ghost predicate HashOf(bits: seq<bool>, key: seq<bv8>, n: nat, hash: bv32)
    requires n <= 96 && |bits| == 96 && |key| == 40
  {
    forall b :: 0 <= b < 32 ==> Top(hash, b) == Parity(bits, key, 0, n, b)
  }

  /** `w` holds the 32 key bits that start at bit `i`. */
  ghost predicate KeyWindow(key: seq<bv8>, i: nat, w: bv32)
    requires |key| == 40 && i <= 288
  {
    forall b :: 0 <= b < 32 ==> Top(w, b) == KeyBit(key, i + b)
  }

  // ---- Single bits ----

  lemma ShiftedTop(x: bv32, n: nat)
    requires n < 31
    ensures Top(x << 1, n) == Top(x, n + 1)
  {
    MaskNext(n);
    hide Mask;
    EnteringMask(x, 0, Mask(n));
  }

  lemma XorTop(x: bv32, y: bv32, n: nat)
    requires n < 32
    ensures Top(x ^ y, n) == (Top(x, n) != Top(y, n))
  {
    hide Mask;
    XorMask(x, y, Mask(n));
  }

  lemma XorMask(x: bv32, y: bv32, m: bv32)
    requires m & (m - 1) == 0
    ensures ((x ^ y) & m != 0) == ((x & m != 0) != (y & m != 0))
  {
  }

  lemma PortTop(port: bv16)
    ensures Top(Wide(port), 0) == (port & 0x8000 != 0)
    ensures Wide(port << 1) == Wide(port) << 1
  {
  }

  // ---- The key cache ----

  /** Entry `i` of the cache is the 32-bit window of the key at bit `i`. */
  method BuildKeyCache(key: seq<bv8>, cache: array<bv32>)
    requires |key| == 40 && cache.Length <= 288
    modifies cache
    ensures forall i :: 0 <= i < cache.Length ==> KeyWindow(key, i, cache[i])
  {
    hide KeyWindow, KeyBit, Shift;
    var result := (key[0] as bv32 << 24) | (key[1] as bv32 << 16) | (key[2] as bv32 << 8) | key[3] as bv32;
    FirstWindow(key);
    var idx := 32;
    for i := 0 to cache.Length
      invariant idx == 32 + i
      invariant KeyWindow(key, i, result)
      invariant forall m :: 0 <= m < i ==> KeyWindow(key, m, cache[m])
    {
      cache[i] := result;
      var bit: bv32 := if (key[idx / 8] as bv32 << Shift(idx % 8)) & 0x80 != 0 then 1 else 0;
      KeyTest(key, idx);
      NextWindow(key, i, result, bit);
      result := (result << 1) | bit;
      idx := idx + 1;
    }
  }

  lemma FirstWindow(key: seq<bv8>)
    requires |key| == 40
    ensures KeyWindow(key, 0, (key[0] as bv32 << 24) | (key[1] as bv32 << 16) | (key[2] as bv32 << 8) | key[3] as bv32)
  {
    hide Top, KeyBit;
    var w := (key[0] as bv32 << 24) | (key[1] as bv32 << 16) | (key[2] as bv32 << 8) | key[3] as bv32;
    forall b | 0 <= b < 32 ensures Top(w, b) == KeyBit(key, 0 + b) {
      FirstWindowBit(key, b);
    }
  }

  lemma FirstWindowBit(key: seq<bv8>, b: nat)
    requires |key| == 40 && b < 32
    ensures Top((key[0] as bv32 << 24) | (key[1] as bv32 << 16) | (key[2] as bv32 << 8) | key[3] as bv32, b)
         == KeyBit(key, b)
  {
    hide ByteMask;
    FirstMask(key[0] as bv32, key[1] as bv32, key[2] as bv32, key[3] as bv32, ByteMask(b % 8));
  }

  lemma FirstMask(p: bv32, q: bv32, r: bv32, t: bv32, m: bv32)
    requires p < 0x100 && q < 0x100 && r < 0x100 && t < 0x100 && m < 0x100
    ensures var w := (p << 24) | (q << 16) | (r << 8) | t;
            && (w & (m << 24) != 0) == (p & m != 0)
            && (w & (m << 16) != 0) == (q & m != 0)
            && (w & (m << 8) != 0) == (r & m != 0)
            && (w & m != 0) == (t & m != 0)
  {
  }

  lemma KeyTest(key: seq<bv8>, n: nat)
    requires |key| == 40 && n < 320
    ensures ((key[n / 8] as bv32 << Shift(n % 8)) & 0x80 != 0) == KeyBit(key, n)
  {
    ShiftedTest(key[n / 8] as bv32, n % 8);
  }

  lemma ShiftedTest(x: bv32, n: nat)
    requires n < 8
    ensures ((x << Shift(n)) & 0x80 != 0) == Top(x, 24 + n)
  {
  }

  lemma NextWindow(key: seq<bv8>, i: nat, w: bv32, bit: bv32)
    requires |key| == 40 && i < 288 && KeyWindow(key, i, w)
    requires bit == if KeyBit(key, 32 + i) then 1 else 0
    ensures KeyWindow(key, i + 1, (w << 1) | bit)
  {
    hide Top, KeyBit;
    var next := (w << 1) | bit;
    forall b | 0 <= b < 32 ensures Top(next, b) == KeyBit(key, i + 1 + b) {
      EnteringBit(w, bit, b);
      if b < 31 {
        assert Top(w, b + 1) == KeyBit(key, i + (b + 1));
      }
    }
  }

  lemma EnteringBit(w: bv32, bit: bv32, b: nat)
    requires bit <= 1 && b < 32
    ensures Top((w << 1) | bit, b) == if b < 31 then Top(w, b + 1) else bit == 1
  {
    if b < 31 {
      MaskNext(b);
    }
    hide Mask;
    EnteringMask(w, bit, Mask(b));
  }

  lemma EnteringMask(w: bv32, bit: bv32, m: bv32)
    requires bit <= 1
    ensures m & 1 == 0 ==> (((w << 1) | bit) & m != 0) == (w & (m >> 1) != 0)
    ensures m == 1 ==> (((w << 1) | bit) & m != 0) == (bit == 1)
  {
  }

  // ---- The hash ----

  /** An entry of the cache is taken in exactly when its input bit is set. */
  lemma HashStep(bits: seq<bool>, key: seq<bv8>, n: nat, hash: bv32, w: bv32)
    requires n < 96 && |bits| == 96 && |key| == 40
    requires HashOf(bits, key, n, hash) && KeyWindow(key, n, w)
    ensures HashOf(bits, key, n + 1, if bits[n] then hash ^ w else hash)
  {
    hide Top, KeyBit;
    var taken := if bits[n] then hash ^ w else hash;
    forall b | 0 <= b < 32 ensures Top(taken, b) == Parity(bits, key, 0, n + 1, b) {
      XorTop(hash, w, b);
    }
  }

  /** The part of `bits` from `n` on is what is left of the word `x`. */
  ghost predicate Rest(bits: seq<bool>, n: nat, x: bv32, left: nat)
    requires n + left <= |bits| && left <= 32
  {
    forall i {:trigger Top(x, i)} :: 0 <= i < left ==> bits[n + i] == Top(x, i)
  }

  lemma RestNext(bits: seq<bool>, n: nat, x: bv32, left: nat)
    requires n + left <= |bits| && 0 < left <= 32 && Rest(bits, n, x, left)
    ensures bits[n] == (x & 0x8000_0000 != 0)
    ensures Rest(bits, n + 1, x << 1, left - 1)
  {
    assert bits[n + 0] == Top(x, 0);
    hide Top;
    var y := x << 1;
    forall i | 0 <= i < left - 1 ensures bits[n + 1 + i] == Top(y, i) {
      ShiftedTop(x, i);
      assert bits[n + (i + 1)] == Top(x, i + 1);
    }
  }

  method AbsorbAddress(cache: array<bv32>, from: nat, address: bv32, hash: bv32,
                       ghost bits: seq<bool>, ghost key: seq<bv8>)
    returns (res: bv32)
    requires cache.Length == 96 && from + 32 <= 96 && |bits| == 96 && |key| == 40
    requires forall i :: 0 <= i < 96 ==> KeyWindow(key, i, cache[i])
    requires HashOf(bits, key, from, hash) && Rest(bits, from, address, 32)
    ensures HashOf(bits, key, from + 32, res)
  {
    hide HashOf, KeyWindow, Rest;
    res := hash;
    var ip := address;
    for i := 0 to 32
      invariant HashOf(bits, key, from + i, res) && Rest(bits, from + i, ip, 32 - i)
    {
      HashStep(bits, key, from + i, res, cache[from + i]);
      RestNext(bits, from + i, ip, 32 - i);
      if ip & 0x8000_0000 != 0 {
        res := res ^ cache[from + i];
      }
      ip := ip << 1;
    }
  }

  method AbsorbPort(cache: array<bv32>, from: nat, port: bv16, hash: bv32, ghost bits: seq<bool>, ghost key: seq<bv8>)
    returns (res: bv32)
    requires cache.Length == 96 && from + 16 <= 96 && |bits| == 96 && |key| == 40
    requires forall i :: 0 <= i < 96 ==> KeyWindow(key, i, cache[i])
    requires HashOf(bits, key, from, hash) && Rest(bits, from, Wide(port), 16)
    ensures HashOf(bits, key, from + 16, res)
  {
    hide HashOf, KeyWindow, Rest, Wide;
    res := hash;
    var p := port;
    for i := 0 to 16
      invariant HashOf(bits, key, from + i, res) && Rest(bits, from + i, Wide(p), 16 - i)
    {
      HashStep(bits, key, from + i, res, cache[from + i]);
      RestNext(bits, from + i, Wide(p), 16 - i);
      PortTop(p);
      if p & 0x8000 != 0 {
        res := res ^ cache[from + i];
      }
      p := p << 1;
    }
  }

  /** GetRSSHash computes the Toeplitz hash of the flow. */
  method GetRSSHash(key: seq<bv8>, sip: bv32, dip: bv32, sp: bv16, dp: bv16) returns (res: bv32)
    requires |key| == 40
    ensures HashOf(Input(sip, dip, sp, dp), key, 96, res)
  {
    hide HashOf, KeyWindow, Rest, Input;
    var cache := new bv32[96];
    BuildKeyCache(key, cache);
    ghost var bits := Input(sip, dip, sp, dp);
    InputParts(sip, dip, sp, dp);
    NothingTaken(bits, key);
    res := AbsorbAddress(cache, 0, sip, 0, bits, key);
    res := AbsorbAddress(cache, 32, dip, res, bits, key);
    res := AbsorbPort(cache, 64, sp, res, bits, key);
    res := AbsorbPort(cache, 80, dp, res, bits, key);
  }

  lemma InputParts(sip: bv32, dip: bv32, sp: bv16, dp: bv16)
    ensures var bits := Input(sip, dip, sp, dp);
            && Rest(bits, 0, sip, 32) && Rest(bits, 32, dip, 32)
            && Rest(bits, 64, Wide(sp), 16) && Rest(bits, 80, Wide(dp), 16)
  {
    hide Top, Wide;
  }

  lemma NothingTaken(bits: seq<bool>, key: seq<bv8>)
    requires |bits| == 96 && |key| == 40
    ensures HashOf(bits, key, 0, 0)
  {
    hide Mask;
  }

  /** The definition leaves no choice: one word has these bits. */
  lemma HashDetermined(bits: seq<bool>, key: seq<bv8>, g: bv32, hash: bv32)
    requires |bits| == 96 && |key| == 40 && HashOf(bits, key, 96, g)
    ensures HashOf(bits, key, 96, hash) <==> g == hash
  {
    hide Top, Parity;
    if HashOf(bits, key, 96, hash) {
      var x := g ^ hash;
      forall b | 0 <= b < 32 ensures !Top(x, b) {
        XorTop(g, hash, b);
      }
      NoBits(x);
      XorZero(g, hash);
    }
  }

  lemma NoBits(x: bv32)
    requires forall b :: 0 <= b < 32 ==> !Top(x, b)
    ensures x == 0
  {
    NoByte(x, 0);
    NoByte(x, 8);
    NoByte(x, 16);
    NoByte(x, 24);
  }

  lemma NoByte(x: bv32, n: nat)
    requires n + 8 <= 32 && n % 8 == 0
    requires forall b :: 0 <= b < 32 ==> !Top(x, b)
    ensures x & (if n == 0 then 0xFF00_0000 else if n == 8 then 0x00FF_0000 else if n == 16 then 0xFF00 else 0xFF) == 0
  {
    assert !Top(x, n) && !Top(x, n + 1) && !Top(x, n + 2) && !Top(x, n + 3);
    assert !Top(x, n + 4) && !Top(x, n + 5) && !Top(x, n + 6) && !Top(x, n + 7);
  }

  lemma XorZero(x: bv32, y: bv32)
    requires x ^ y == 0
    ensures x == y
  {
  }

  // ---- Linearity ----

  function Xor(x: seq<bool>, y: seq<bool>): (z: seq<bool>)
    requires |x| == 96 && |y| == 96
    ensures |z| == 96
  {
    seq(96, i requires 0 <= i < 96 => x[i] != y[i])
  }

  lemma {:induction false} ParityXor(x: seq<bool>, y: seq<bool>, key: seq<bv8>, end: nat, b: nat)
    requires |x| == 96 && |y| == 96 && |key| == 40 && end <= 96 && b < 32
    ensures Parity(Xor(x, y), key, 0, end, b) == (Parity(x, key, 0, end, b) != Parity(y, key, 0, end, b))
  {
    hide KeyBit;
    if end > 0 {
      ParityXor(x, y, key, end - 1, b);
    }
  }

  /** The hash of the exclusive or of two flows is the exclusive or of their hashes. */
  lemma HashXor(x: seq<bool>, y: seq<bool>, key: seq<bv8>, g: bv32, h: bv32)
    requires |x| == 96 && |y| == 96 && |key| == 40
    requires HashOf(x, key, 96, g) && HashOf(y, key, 96, h)
    ensures HashOf(Xor(x, y), key, 96, g ^ h)
  {
    hide Top, Parity;
    var w := g ^ h;
    forall b | 0 <= b < 32 ensures Top(w, b) == Parity(Xor(x, y), key, 0, 96, b) {
      XorTop(g, h, b);
      ParityXor(x, y, key, 96, b);
    }
  }

  // ---- Both directions of a flow ----

  /** The input of the opposite direction. */
  function Opposite(bits: seq<bool>): (other: seq<bool>)
    requires |bits| == 96
    ensures |other| == 96
  {
    bits[32..64] + bits[..32] + bits[80..] + bits[64..80]
  }

  lemma OppositeInput(sip: bv32, dip: bv32, sp: bv16, dp: bv16)
    ensures Opposite(Input(sip, dip, sp, dp)) == Input(dip, sip, dp, sp)
  {
    hide Top, Wide;
  }

  /** Every hash is the same in both directions. */
  ghost predicate Symmetric(key: seq<bv8>)
    requires |key| == 40
  {
    forall bits: seq<bool>, b :: |bits| == 96 && 0 <= b < 32 ==>
      Parity(bits, key, 0, 96, b) == Parity(Opposite(bits), key, 0, 96, b)
  }

  /** The key repeats after 32 bits under the addresses and after 16 bits under the ports. */
  ghost predicate Repeats(key: seq<bv8>)
    requires |key| == 40
  {
    && (forall n {:trigger KeyBit(key, n)} :: 0 <= n < 63 ==> KeyBit(key, n) == KeyBit(key, n + 32))
    && (forall n {:trigger KeyBit(key, n)} :: 64 <= n < 111 ==> KeyBit(key, n) == KeyBit(key, n + 16))
  }

  lemma SymmetricIffRepeats(key: seq<bv8>)
    requires |key| == 40
    ensures Symmetric(key) <==> Repeats(key)
  {
    hide Parity, KeyBit, Opposite;
    if Repeats(key) {
      forall bits: seq<bool>, b | |bits| == 96 && 0 <= b < 32
        ensures Parity(bits, key, 0, 96, b) == Parity(Opposite(bits), key, 0, 96, b)
      {
        RepeatsParity(bits, key, b);
      }
    }
    if Symmetric(key) {
      forall n | 0 <= n < 63 ensures KeyBit(key, n) == KeyBit(key, n + 32) {
        SymmetricAt(key, if n < 32 then n else 31, if n < 32 then 0 else n - 31);
      }
      forall n | 64 <= n < 111 ensures KeyBit(key, n) == KeyBit(key, n + 16) {
        SymmetricAt(key, if n < 80 then n else 79, if n < 80 then 0 else n - 79);
      }
    }
  }

  /** The flow whose only set bit is `i`. */
  function Single(i: nat): (bits: seq<bool>)
    requires i < 96
    ensures |bits| == 96
  {
    seq(96, n => n == i)
  }

  lemma {:induction false} SingleParity(key: seq<bv8>, i: nat, end: nat, b: nat)
    requires |key| == 40 && i < 96 && end <= 96 && b < 32
    ensures Parity(Single(i), key, 0, end, b) == (i < end && KeyBit(key, i + b))
  {
    hide KeyBit;
    if end > 0 {
      SingleParity(key, i, end - 1, b);
    }
  }

  lemma SymmetricAt(key: seq<bv8>, i: nat, b: nat)
    requires |key| == 40 && b < 32 && (i < 32 || 64 <= i < 80) && Symmetric(key)
    ensures KeyBit(key, i + b) == KeyBit(key, i + b + if i < 32 then 32 else 16)
  {
    hide KeyBit, Parity;
    var bits := Single(i);
    assert Parity(bits, key, 0, 96, b) == Parity(Opposite(bits), key, 0, 96, b);
    SingleParity(key, i, 96, b);
    var j := i + if i < 32 then 32 else 16;
    assert Opposite(bits) == Single(j);
    SingleParity(key, j, 96, b);
  }

  /** Place `i` after `from` in one input and after `at` in another holds the same bit under the same key bit. */
  predicate Moved(bits: seq<bool>, other: seq<bool>, key: seq<bv8>, from: nat, at: nat, i: nat, b: nat)
    requires |bits| == 96 && |other| == 96 && |key| == 40 && from + i < 96 && at + i < 96 && b < 32
  {
    bits[from + i] == other[at + i] && KeyBit(key, from + i + b) == KeyBit(key, at + i + b)
  }

  /** Equal bits under equal key bits contribute equally. */
  lemma {:induction false} MovedParity(bits: seq<bool>, other: seq<bool>, key: seq<bv8>,
                                       from: nat, at: nat, len: nat, b: nat)
    requires |bits| == 96 && |other| == 96 && |key| == 40 && b < 32 && from + len <= 96 && at + len <= 96
    requires forall i :: 0 <= i < len ==> Moved(bits, other, key, from, at, i, b)
    ensures Parity(bits, key, from, from + len, b) == Parity(other, key, at, at + len, b)
  {
    hide KeyBit;
    if len > 0 {
      MovedParity(bits, other, key, from, at, len - 1, b);
      assert Moved(bits, other, key, from, at, len - 1, b);
    }
  }

  lemma {:induction false} SplitParity(bits: seq<bool>, key: seq<bv8>, from: nat, mid: nat, end: nat, b: nat)
    requires |bits| == 96 && |key| == 40 && b < 32 && from <= mid <= end <= 96
    ensures Parity(bits, key, from, end, b) == (Parity(bits, key, from, mid, b) != Parity(bits, key, mid, end, b))
    decreases end
  {
    hide KeyBit;
    if mid < end {
      SplitParity(bits, key, from, mid, end - 1, b);
    }
  }

  lemma FourParts(bits: seq<bool>, key: seq<bv8>, b: nat)
    requires |bits| == 96 && |key| == 40 && b < 32
    ensures Parity(bits, key, 0, 96, b)
         == ((Parity(bits, key, 0, 32, b) != Parity(bits, key, 32, 64, b))
             != (Parity(bits, key, 64, 80, b) != Parity(bits, key, 80, 96, b)))
  {
    hide Parity;
    SplitParity(bits, key, 0, 64, 96, b);
    SplitParity(bits, key, 0, 32, 64, b);
    SplitParity(bits, key, 64, 80, 96, b);
  }

  lemma RepeatsParity(bits: seq<bool>, key: seq<bv8>, b: nat)
    requires |bits| == 96 && |key| == 40 && b < 32 && Repeats(key)
    ensures Parity(bits, key, 0, 96, b) == Parity(Opposite(bits), key, 0, 96, b)
  {
    hide Parity, KeyBit;
    var other := Opposite(bits);
    FourParts(bits, key, b);
    FourParts(other, key, b);
    forall i | 0 <= i < 32
      ensures Moved(bits, other, key, 0, 32, i, b) && Moved(bits, other, key, 32, 0, i, b)
    {
      assert KeyBit(key, i + b) == KeyBit(key, i + b + 32);
    }
    forall i | 0 <= i < 16
      ensures Moved(bits, other, key, 64, 80, i, b) && Moved(bits, other, key, 80, 64, i, b)
    {
      assert KeyBit(key, 64 + i + b) == KeyBit(key, 64 + i + b + 16);
    }
    MovedParity(bits, other, key, 0, 32, 32, b);
    MovedParity(bits, other, key, 32, 0, 32, b);
    MovedParity(bits, other, key, 64, 80, 16, b);
    MovedParity(bits, other, key, 80, 64, 16, b);
  }

  /** The key in use: every byte is 5. */
  const KEY: seq<bv8> := seq(40, _ => 5)

  lemma KeyRepeats()
    ensures |KEY| == 40 && Repeats(KEY)
  {
    hide Top;
  }

  /** With this key a flow and its replies hash alike. */
  lemma BothDirections(sip: bv32, dip: bv32, sp: bv16, dp: bv16, hash: bv32)
    requires |KEY| == 40
    ensures HashOf(Input(sip, dip, sp, dp), KEY, 96, hash) <==> HashOf(Input(dip, sip, dp, sp), KEY, 96, hash)
  {
    hide Parity, Input, KEY;
    KeyRepeats();
    OppositeInput(sip, dip, sp, dp);
    var bits := Input(sip, dip, sp, dp);
    forall b | 0 <= b < 32 ensures Parity(bits, KEY, 0, 96, b) == Parity(Opposite(bits), KEY, 0, 96, b) {
      RepeatsParity(bits, KEY, b);
    }
  }

  // ---- The core ----

  /** Conversion of a C int to unsigned. */
  function Unsigned(n: int): int {
    if n < 0 then n + 0x1_0000_0000 else n
  }

  /** The offsets 3, 1, -1, -3 as unsigned words. */
  function Off(place: bv32): bv32 {
    if place == 0 then 3 else if place == 1 then 1 else if place == 2 then 0xFFFF_FFFF else 0xFFFF_FFFD
  }

  /** Adding the offset reverses each group of four entries. */
  lemma Redirected(masked: bv32)
    requires masked < 0x80
    ensures masked + Off(masked & 3) == masked ^ 3 < 0x80
  {
  }

  /** GetRSSCPUCore: the core is a function of the flow's Toeplitz hash, `hash`. */
  method GetRSSCPUCore(sip: bv32, dip: bv32, sp: bv16, dp: bv16, numQueues: int) returns (core: int, ghost hash: bv32)
    requires -0x8000_0000 <= numQueues < 0x8000_0000 && numQueues != 0
    ensures |KEY| == 40 && HashOf(Input(sip, dip, sp, dp), KEY, 96, hash)
    ensures core == ((hash & 0x7F) ^ 3) as int % Unsigned(numQueues)
    ensures numQueues > 0 ==> 0 <= core < numQueues
  {
    hide HashOf, Input, Off;
    var res := GetRSSHash(KEY, sip, dip, sp, dp);
    hash := res;
    var masked := res & 0x7F;
    Redirected(masked);
    masked := masked + Off(masked & 3);
    core := masked as int % Unsigned(numQueues);
  }

  /** Both directions of every flow are handled by the same core. */
  method CoreOfFlow(sip: bv32, dip: bv32, sp: bv16, dp: bv16, numQueues: int) returns (there: int, back: int)
    requires -0x8000_0000 <= numQueues < 0x8000_0000 && numQueues != 0
    ensures there == back
    ensures numQueues > 0 ==> 0 <= there < numQueues
  {
    hide HashOf, Input, KEY;
    ghost var hash, reply;
    there, hash := GetRSSCPUCore(sip, dip, sp, dp, numQueues);
    back, reply := GetRSSCPUCore(dip, sip, dp, sp, numQueues);
    BothDirections(sip, dip, sp, dp, reply);
    HashDetermined(Input(sip, dip, sp, dp), KEY, hash, reply);
  }
}

/** Bit positions as shift counts, and single-bit tests. */
module Bits {

  /** A bit position as a shift count. */
  function Shift(n: nat): (s: bv16)
    requires n < 32
    ensures s < 32 && (n < 8 <==> s < 8) && (n < 16 <==> s < 16) && (n < 24 <==> s < 24)
  {
    if n == 0 then 0 else if n == 1 then 1 else if n == 2 then 2 else if n == 3 then 3 else
    if n == 4 then 4 else if n == 5 then 5 else if n == 6 then 6 else if n == 7 then 7 else
    if n == 8 then 8 else if n == 9 then 9 else if n == 10 then 10 else if n == 11 then 11 else
    if n == 12 then 12 else if n == 13 then 13 else if n == 14 then 14 else if n == 15 then 15 else
    if n == 16 then 16 else if n == 17 then 17 else if n == 18 then 18 else if n == 19 then 19 else
    if n == 20 then 20 else if n == 21 then 21 else if n == 22 then 22 else if n == 23 then 23 else
    if n == 24 then 24 else if n == 25 then 25 else if n == 26 then 26 else if n == 27 then 27 else
    if n == 28 then 28 else if n == 29 then 29 else if n == 30 then 30 else 31
  }

  lemma ShiftNext(n: nat)
    requires n < 31
    ensures Shift(n + 1) == Shift(n) + 1
  {
  }

  lemma ShiftBytes()
    ensures Shift(8) == 8 && Shift(16) == 16
  {
  }

  lemma {:induction false} ShiftSum(m: nat, n: nat)
    requires n + m < 32
    ensures Shift(n + m) == Shift(n) + Shift(m)
  {
    if m > 0 {
      hide Shift;
      ShiftSum(m - 1, n);
      ShiftNext(m - 1);
      ShiftNext(n + m - 1);
    }
  }
}

/**
 * The two passes of parse_string: what the second pass writes always fits into what the first pass
 * had counted, even where a `\u` with wrong digits makes them disagree on where escapes begin.
 */
module JsonStrings {
  import opened Bytes
  import opened JsonValue
  import opened JsonGrammar
  import Utf

  /** The first pass, from `p` on, still counts at most `room` bytes, and it starts an item at `p`. */
  predicate Aligned(c: seq<byte>, p: nat, end: nat, room: int)
    requires p <= |c|
  {
    match ScanString(c, p)
    case Open => false
    case Closed(e, k) => e == end && room >= end - p - k
  }

  /** As `Aligned`, but for the first pass the byte at `p` is the escaped byte of a pair. */
  predicate Skewed(c: seq<byte>, p: nat, end: nat, room: int) {
    p < |c| && match ScanString(c, p + 1)
               case Open => false
               case Closed(e, k) => e == end && room >= end - p - k
  }

  /** At most `room` bytes are written by the second pass from `p` on. */
  predicate Fits(c: seq<byte>, p: nat, end: nat, room: int)
    requires p <= |c|
  {
    (p >= end && room >= 0) || Aligned(c, p, end, room) || Skewed(c, p, end, room)
  }

  lemma FitsRoom(c: seq<byte>, p: nat, end: nat, room: int)
    requires p <= |c| && Fits(c, p, end, room)
    ensures room >= 0
  {
  }

  /** Passing one byte keeps the bound; a byte other than a backslash even frees one place. */
  lemma RawStep(c: seq<byte>, p: nat, end: nat, room: int)
    requires p < end < |c| && Fits(c, p, end, room)
    ensures Fits(c, p + 1, end, room)
    ensures c[p] != BACKSLASH ==> Fits(c, p + 1, end, room - 1)
  {
    if Aligned(c, p, end, room) {
      if c[p] == BACKSLASH {
        assert Skewed(c, p + 1, end, room);
      } else {
        assert Aligned(c, p + 1, end, room - 1);
      }
    } else {
      assert Aligned(c, p + 1, end, room - 1);
    }
  }

  /** A backslash and the byte after it free one place, whichever pass they are escapes for. */
  lemma PairStep(c: seq<byte>, p: nat, end: nat, room: int)
    requires p < end < |c| && c[p] == BACKSLASH && Fits(c, p, end, room)
    ensures Fits(c, p + 2, end, room - 1)
  {
    if Aligned(c, p, end, room) {
      assert Aligned(c, p + 2, end, room - 1);
    } else if p + 1 < end {
      if c[p + 1] == BACKSLASH {
        assert Skewed(c, p + 2, end, room - 1);
      } else {
        assert Aligned(c, p + 2, end, room - 1);
      }
    }
  }

  lemma Raw4(c: seq<byte>, p: nat, end: nat, room: int)
    requires p + 4 <= end < |c| && Fits(c, p, end, room)
    ensures Fits(c, p + 4, end, room)
    ensures Utf.HexAt(c, p) ==> Fits(c, p + 4, end, room - 4)
  {
    hide Fits;
    RawStep(c, p, end, room);
    RawStep(c, p + 1, end, room);
    RawStep(c, p + 2, end, room);
    RawStep(c, p + 3, end, room);
    if Utf.HexAt(c, p) {
      RawStep(c, p + 1, end, room - 1);
      RawStep(c, p + 2, end, room - 2);
      RawStep(c, p + 3, end, room - 3);
    }
  }

  lemma LiteralStep(c: seq<byte>, p: nat, end: nat, room: int)
    requires p < end < |c| && Utf.EscapeU(c, p) && Fits(c, p, end, room)
    requires Utf.ReadLiteral(c, p, end).Good?
    ensures var r := Utf.ReadLiteral(c, p, end);
            Fits(c, p + r.length, end, room - |Utf.Utf8(r.u)|)
  {
    hide Fits, Utf.Tail, Utf.Shifted;
    var r := Utf.ReadLiteral(c, p, end);
    PairStep(c, p, end, room);
    Raw4(c, p + 2, end, room - 1);
    if Utf.HexAt(c, p + 2) {
      var spare := room - 5;
      if r.length == 12 {
        PairStep(c, p + 6, end, spare);
        Raw4(c, p + 8, end, spare - 1);
        FitsMore(c, p + 12, end, spare - 5, room - |Utf.Utf8(r.u)|);
      } else {
        FitsMore(c, p + 6, end, spare, room - |Utf.Utf8(r.u)|);
      }
    }
  }

  lemma FitsMore(c: seq<byte>, p: nat, end: nat, room: int, more: int)
    requires p <= |c| && Fits(c, p, end, room) && room <= more
    ensures Fits(c, p, end, more)
  {
  }

  /** Every step of the second pass writes no more than the places it frees. */
  lemma StepFits(c: seq<byte>, p: nat, end: nat, room: int)
    requires p < end < |c| && Fits(c, p, end, room)
    ensures match UnescapeStep(c, p, end)
            case Stuck => true
            case Wrote(bytes, n) => |bytes| <= room && Fits(c, p + n, end, room - |bytes|)
  {
    hide Fits;
    match UnescapeStep(c, p, end)
    case Stuck =>
    case Wrote(bytes, n) =>
      if c[p] != BACKSLASH {
        RawStep(c, p, end, room);
      } else if c[p + 1] == LOWER_U {
        LiteralStep(c, p, end, room);
      } else {
        PairStep(c, p, end, room);
      }
      FitsRoom(c, p + n, end, room - |bytes|);
  }

  /** The size parse_string allocates for the string whose opening quote is at `i`. */
  function Allocation(i: nat, end: nat, skipped: nat): int {
    end - i - skipped + 1
  }

  lemma StartFits(c: seq<byte>, i: nat, end: nat, skipped: nat)
    requires i < |c| && ScanString(c, i + 1) == Closed(end, skipped)
    ensures i < end < |c| && Fits(c, i + 1, end, Allocation(i, end, skipped) - 2)
    ensures Allocation(i, end, skipped) >= 2
  {
  }

  /** The bytes of any string, plus the terminator, fit into the allocation, with one byte to spare. */
  lemma {:induction false} StringFits(c: seq<byte>, i: nat)
    requires i < |c| && ScanString(c, i + 1).Closed?
    ensures var scan := ScanString(c, i + 1);
            var r := Unescape(c, i + 1, scan.end);
            r.Ok? ==> |r.value| + 1 < Allocation(i, scan.end, scan.skipped)
  {
    var scan := ScanString(c, i + 1);
    UnescapeFits(c, i + 1, scan.end, scan.end - i - 1 - scan.skipped);
  }

  lemma {:induction false} UnescapeFits(c: seq<byte>, p: nat, end: nat, room: int)
    requires p <= end + 1 && end < |c| && Fits(c, p, end, room)
    ensures Unescape(c, p, end).Ok? ==> |Unescape(c, p, end).value| <= room
    decreases end + 1 - p
  {
    hide Fits, UnescapeStep;
    FitsRoom(c, p, end, room);
    if p < end {
      StepFits(c, p, end, room);
      match UnescapeStep(c, p, end)
      case Stuck =>
      case Wrote(bytes, n) => UnescapeFits(c, p + n, end, room - |bytes|);
    }
  }
}

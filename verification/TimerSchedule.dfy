/** Times as timer.c keeps them, and the callbacks that one run of its scheduler makes. */
module TimerSchedule {
  import opened CDivision

  const MILLION: int := 1000000

  datatype Timeval = Timeval(sec: int, usec: int)

  /** The comparison made throughout timer.c. */
  predicate Before(a: Timeval, b: Timeval) {
    a.sec < b.sec || (a.sec == b.sec && a.usec < b.usec)
  }

  function Total(t: Timeval): int {
    t.sec * MILLION + t.usec
  }

  predicate Normalised(t: Timeval) {
    0 <= t.usec < MILLION
  }

  /** What every time in the list satisfies, also for timers made with a negative period. */
  predicate Near(t: Timeval) {
    -MILLION < t.usec < MILLION
  }

  /** A number that orders `Near` times as `Before` does. */
  function Rank(t: Timeval): int {
    2 * MILLION * t.sec + t.usec
  }

  lemma RankOrders(a: Timeval, b: Timeval)
    requires Near(a) && Near(b)
    ensures Before(a, b) <==> Rank(a) < Rank(b)
  {
  }

  lemma TotalOrders(a: Timeval, b: Timeval)
    requires Normalised(a) && Normalised(b)
    ensures Before(a, b) <==> Total(a) < Total(b)
  {
  }

  /** add_usecs */
  function AddUsecs(t: Timeval, usecs: int): Timeval {
    var sec := t.sec + Quotient(usecs, MILLION);
    var usec := t.usec + Remainder(usecs, MILLION);
    if usec >= MILLION
    then Timeval(sec + Quotient(usec, MILLION), Remainder(usec, MILLION))
    else Timeval(sec, usec)
  }

  /** Adding moves the time by exactly the period and keeps it near; a positive period moves it later. */
  lemma AddUsecsMoves(t: Timeval, usecs: int)
    requires Near(t)
    ensures Total(AddUsecs(t, usecs)) == Total(t) + usecs
    ensures Normalised(t) || usecs >= 0 ==> Near(AddUsecs(t, usecs))
    ensures usecs > 0 ==> Before(t, AddUsecs(t, usecs))
  {
  }

  /** The microseconds come out normalised exactly when the remainder does not take them below zero. */
  lemma AddUsecsNormalises(t: Timeval, usecs: int)
    requires Normalised(t)
    ensures Normalised(AddUsecs(t, usecs)) <==> t.usec + Remainder(usecs, MILLION) >= 0
    ensures usecs >= 0 ==> Normalised(AddUsecs(t, usecs))
    ensures !Normalised(AddUsecs(Timeval(10, 0), -1))
  {
  }

  /** By time, and at equal times by the number of the insertion. */
  predicate InOrder(a: Timeval, n: nat, b: Timeval, m: nat) {
    !Before(b, a) && (a == b ==> n < m)
  }

  lemma InOrderTrans(a: Timeval, n: nat, b: Timeval, m: nat, c: Timeval, l: nat)
    requires InOrder(a, n, b, m) && InOrder(b, m, c, l)
    ensures InOrder(a, n, c, l)
  {
  }

  lemma BeforeBoth(a: Timeval, b: Timeval, m: nat, c: Timeval, l: nat)
    requires Before(a, b) && InOrder(b, m, c, l)
    ensures Before(a, c)
  {
  }

  /** A timer that stands before one with a smaller number is earlier. */
  lemma BeforeOlder(a: Timeval, n: nat, b: Timeval, m: nat)
    requires InOrder(a, n, b, m) && m < n
    ensures Before(a, b)
  {
  }

  // ---- Callbacks ----

  /** A callback, with the time its timer stood at. */
  datatype Firing<T> = Firing(timer: T, at: Timeval)

  /** How often `x` was fired. */
  function Times<T(==)>(fired: seq<Firing<T>>, x: T): nat {
    if fired == [] then 0
    else Times(fired[..|fired| - 1], x) + (if fired[|fired| - 1].timer == x then 1 else 0)
  }

  lemma TimesMore<T>(fired: seq<Firing<T>>, t: T, at: Timeval)
    ensures forall x :: Times(fired + [Firing(t, at)], x) == Times(fired, x) + (if x == t then 1 else 0)
  {
    var more := fired + [Firing(t, at)];
    assert more[..|more| - 1] == fired;
  }

  lemma TimesNone<T>(fired: seq<Firing<T>>, x: T)
    requires fired == []
    ensures Times(fired, x) == 0
  {
  }

  lemma {:induction false} TimesPrefix<T>(fired: seq<Firing<T>>, m: nat, x: T)
    requires m <= |fired|
    ensures Times(fired[..m], x) <= Times(fired, x)
  {
    if m == |fired| {
      assert fired[..m] == fired;
    } else {
      var front := fired[..|fired| - 1];
      TimesPrefix(front, m, x);
      assert front[..m] == fired[..m];
    }
  }

  lemma TimesNext<T>(fired: seq<Firing<T>>, k: nat, x: T)
    requires k < |fired|
    ensures Times(fired[..k + 1], x) == Times(fired[..k], x) + (if fired[k].timer == x then 1 else 0)
  {
    assert fired[..k + 1][..k] == fired[..k];
  }

  /** The first callback of `x` from position `k` on. */
  lemma {:induction false} NextOf<T>(fired: seq<Firing<T>>, k: nat, x: T) returns (j: nat)
    requires k <= |fired| && Times(fired[..k], x) < Times(fired, x)
    ensures k <= j < |fired| && fired[j].timer == x && Times(fired[..j], x) == Times(fired[..k], x)
    ensures forall i :: k <= i < j ==> fired[i].timer != x
    decreases |fired| - k
  {
    assert fired[..|fired|] == fired;
    if fired[k].timer == x {
      j := k;
    } else {
      TimesNext(fired, k, x);
      j := NextOf(fired, k + 1, x);
    }
  }

  /** The last callback of `x`. */
  lemma {:induction false} LastOf<T>(fired: seq<Firing<T>>, x: T) returns (k: nat)
    requires Times(fired, x) > 0
    ensures k < |fired| && fired[k].timer == x && Times(fired[..k], x) == Times(fired, x) - 1
  {
    var last := |fired| - 1;
    if fired[last].timer == x {
      k := last;
    } else {
      k := LastOf(fired[..last], x);
      assert fired[..last][..k] == fired[..k];
    }
  }

  /** Callback `m` comes after the last one of `x`. */
  predicate AfterLast<T(==)>(fired: seq<Firing<T>>, x: T, m: nat) {
    m < |fired| && 0 < Times(fired, x) == Times(fired[..m], x)
  }

  // ---- What a run makes of its timers ----

  /** A timer as it stands when a run begins; `added` is the number of the insertion that put it there. */
  datatype Stand = Stand(periodic: bool, usecs: int, time: Timeval, added: nat)

  /** Where a timer stands after `n` callbacks. */
  function TimeAfter(s: Stand, n: nat): Timeval {
    if n == 0 || !s.periodic then s.time else AddUsecs(TimeAfter(s, n - 1), s.usecs)
  }

  /** Every callback moves a periodic timer by one period. */
  lemma {:induction false} TimeAfterMoves(s: Stand, n: nat)
    requires Near(s.time) && s.periodic && s.usecs > 0
    ensures Near(TimeAfter(s, n)) && Total(TimeAfter(s, n)) == Total(s.time) + n * s.usecs
    ensures Normalised(s.time) ==> Normalised(TimeAfter(s, n))
  {
    hide AddUsecs, Near, Normalised, Total;
    if n > 0 {
      TimeAfterMoves(s, n - 1);
      AddUsecsMoves(TimeAfter(s, n - 1), s.usecs);
      if Normalised(s.time) {
        AddUsecsNormalises(TimeAfter(s, n - 1), s.usecs);
      }
      OneMore(n, s.usecs);
    }
  }

  lemma OneMore(n: nat, usecs: int)
    requires n > 0
    ensures n * usecs == (n - 1) * usecs + usecs
  {
  }

  predicate Repeats<T(==)>(x: T, stands: map<T, Stand>) {
    x in stands && stands[x].periodic
  }

  /** How many of the callbacks put their timer back on the list. */
  function PutBack<T(==)>(fired: seq<Firing<T>>, stands: map<T, Stand>): nat {
    if fired == [] then 0
    else PutBack(fired[..|fired| - 1], stands) + (if Repeats(fired[|fired| - 1].timer, stands) then 1 else 0)
  }

  /** The number of the insertion that put `x` where it stands after the callbacks; the run's first one is `first`. */
  function Number<T(==)>(fired: seq<Firing<T>>, x: T, stands: map<T, Stand>, first: nat): nat
    requires x in stands
  {
    if fired == [] then stands[x].added
    else if fired[|fired| - 1].timer == x && stands[x].periodic then first + PutBack(fired[..|fired| - 1], stands)
    else Number(fired[..|fired| - 1], x, stands, first)
  }

  lemma NumberMore<T>(fired: seq<Firing<T>>, t: T, at: Timeval, stands: map<T, Stand>, first: nat, x: T)
    requires x in stands
    ensures var more := fired + [Firing(t, at)];
            && PutBack(more, stands) == PutBack(fired, stands) + (if Repeats(t, stands) then 1 else 0)
            && Number(more, x, stands, first)
               == if x == t && stands[x].periodic then first + PutBack(fired, stands)
                  else Number(fired, x, stands, first)
  {
    var more := fired + [Firing(t, at)];
    assert more[..|more| - 1] == fired;
  }

  /** The number of `x` changes only when `x` is fired. */
  lemma {:induction false} NumberKept<T>(fired: seq<Firing<T>>, k: nat, j: nat, x: T, stands: map<T, Stand>, first: nat)
    requires x in stands && k <= j <= |fired| && forall i :: k <= i < j ==> fired[i].timer != x
    ensures Number(fired[..j], x, stands, first) == Number(fired[..k], x, stands, first)
    decreases j
  {
    if k < j {
      NumberKept(fired, k, j - 1, x, stands, first);
      assert fired[..j][..j - 1] == fired[..j - 1];
      assert fired[j - 1].timer != x;
    }
  }

  /** A timer that was not fired keeps its number, and one that was put back is behind all that were there. */
  lemma {:induction false} NumberFired<T>(fired: seq<Firing<T>>, x: T, stands: map<T, Stand>, first: nat)
    requires x in stands
    ensures Times(fired, x) == 0 || !stands[x].periodic ==> Number(fired, x, stands, first) == stands[x].added
    ensures Times(fired, x) > 0 && stands[x].periodic ==> first <= Number(fired, x, stands, first)
    ensures stands[x].added < first ==> Number(fired, x, stands, first) < first + PutBack(fired, stands)
  {
    if fired != [] {
      NumberFired(fired[..|fired| - 1], x, stands, first);
    }
  }

  /** Timers are put back in the order of their last callbacks. */
  lemma {:induction false} LaterNumber<T>(fired: seq<Firing<T>>, x: T, m: nat, stands: map<T, Stand>, first: nat)
    requires Repeats(x, stands) && AfterLast(fired, x, m) && Repeats(fired[m].timer, stands) && stands[x].added < first
    ensures Number(fired, x, stands, first) < Number(fired, fired[m].timer, stands, first)
  {
    hide PutBack;
    var last := |fired| - 1;
    var front := fired[..last];
    TimesPrefix(front, m, x);
    assert front[..m] == fired[..m];
    NumberFired(front, x, stands, first);
    if fired[last].timer != fired[m].timer {
      LaterNumber(front, x, m, stands, first);
    }
  }

  // ---- The schedule ----

  /** Callback `k` is made at the time at which its timer stands. */
  predicate OwnTime<T(==)>(fired: seq<Firing<T>>, k: nat, stands: map<T, Stand>)
    requires k < |fired|
  {
    var x := fired[k].timer;
    x in stands && fired[k].at == TimeAfter(stands[x], Times(fired[..k], x))
  }

  /** The number its timer has when callback `k` is made. */
  function NumberAt<T(==)>(fired: seq<Firing<T>>, k: nat, stands: map<T, Stand>, first: nat): nat
    requires k < |fired|
  {
    if fired[k].timer in stands then Number(fired[..k], fired[k].timer, stands, first) else 0
  }

  /** The callbacks come in the order of the list: by time, and at equal times by insertion. */
  predicate InTurn<T(==)>(fired: seq<Firing<T>>, stands: map<T, Stand>, first: nat) {
    forall i, j :: 0 <= i < j < |fired| ==>
      InOrder(fired[i].at, NumberAt(fired, i, stands, first), fired[j].at, NumberAt(fired, j, stands, first))
  }

  /** No timer is fired twice in a row. */
  ghost predicate NoneTwice<T>(fired: seq<Firing<T>>) {
    forall i, j :: 0 <= i < j < |fired| && j == i + 1 ==> fired[i].timer != fired[j].timer
  }

  /** Every callback after the last one of `x` is made for a time later than `time`. */
  predicate Overtaken<T(==)>(fired: seq<Firing<T>>, x: T, time: Timeval) {
    forall m :: 0 <= m < |fired| && AfterLast(fired, x, m) ==> Before(time, fired[m].at)
  }

  /**
   * What a run fires at `now`: callbacks that are due, at the times of their timers, in the order of the list and
   * never twice in a row. A timer is fired if and only if it was due, a one-shot timer once. A periodic timer that
   * is left due is one that would have come before all that was fired after it.
   */
  ghost predicate Schedule<T>(fired: seq<Firing<T>>, stands: map<T, Stand>, first: nat, now: Timeval) {
    && (forall k :: 0 <= k < |fired| ==> OwnTime(fired, k, stands) && !Before(now, fired[k].at))
    && InTurn(fired, stands, first) && NoneTwice(fired)
    && (forall x :: x in stands ==> (Times(fired, x) > 0 <==> !Before(now, stands[x].time)))
    && (forall x :: x in stands && !stands[x].periodic ==> Times(fired, x) <= 1)
    && (forall x :: x in stands && stands[x].periodic && !Before(now, TimeAfter(stands[x], Times(fired, x))) ==>
          Overtaken(fired, x, TimeAfter(stands[x], Times(fired, x))))
  }

  /** Two schedules that agree so far: what one fires next, the other fires sooner or later. */
  lemma MustFire<T>(fired: seq<Firing<T>>, other: seq<Firing<T>>, k: nat,
                    stands: map<T, Stand>, first: nat, now: Timeval)
    requires Schedule(fired, stands, first, now) && Schedule(other, stands, first, now)
    requires k <= |fired| && k < |other| && fired[..k] == other[..k]
    ensures Times(fired[..k], other[k].timer) < Times(fired, other[k].timer)
  {
    hide Before, TimeAfter, Number, NumberAt, Times;
    var x := other[k].timer;
    TimesPrefix(fired, k, x);
    TimesNext(other, k, x);
    TimesPrefix(other, k + 1, x);
    assert OwnTime(other, k, stands);
    if k == 0 {
      TimesNone(fired[..k], x);
    } else {
      assert fired[k - 1] == fired[..k][k - 1] == other[k - 1];
      TimesNext(fired, k - 1, x);
      assert Times(fired[..k], x) == Times(fired, x) > 0 ==> AfterLast(fired, x, k - 1);
    }
  }

  /** They fire it now. */
  lemma SameNext<T>(fired: seq<Firing<T>>, other: seq<Firing<T>>, k: nat,
                    stands: map<T, Stand>, first: nat, now: Timeval)
    requires Schedule(fired, stands, first, now) && Schedule(other, stands, first, now)
    requires k < |fired| && k < |other| && fired[..k] == other[..k]
    ensures fired[k] == other[k]
  {
    hide TimeAfter, Number, Times;
    var x, y := other[k].timer, fired[k].timer;
    MustFire(fired, other, k, stands, first, now);
    MustFire(other, fired, k, stands, first, now);
    var j := NextOf(fired, k, x);
    var i := NextOf(other, k, y);
    assert OwnTime(fired, k, stands) && OwnTime(other, k, stands);
    assert OwnTime(fired, j, stands) && OwnTime(other, i, stands);
    NumberKept(fired, k, j, x, stands, first);
    NumberKept(other, k, i, y, stands, first);
  }

  /** What a run fires is determined by where its timers stand. */
  lemma {:induction false} OneSchedule<T>(fired: seq<Firing<T>>, other: seq<Firing<T>>,
                                          stands: map<T, Stand>, first: nat, now: Timeval)
    requires Schedule(fired, stands, first, now) && Schedule(other, stands, first, now)
    ensures fired == other
  {
    hide Schedule;
    var k := 0;
    while k < |fired| && k < |other|
      invariant k <= |fired| && k <= |other| && fired[..k] == other[..k]
    {
      SameNext(fired, other, k, stands, first, now);
      k := k + 1;
    }
    assert fired[..|fired|] == fired && other[..|other|] == other;
    if k < |other| {
      MustFire(fired, other, k, stands, first, now);
    } else if k < |fired| {
      MustFire(other, fired, k, stands, first, now);
    }
  }

  // ---- One callback more ----

  lemma PrefixMore<T>(fired: seq<Firing<T>>, f: Firing<T>, k: nat)
    requires k <= |fired|
    ensures (fired + [f])[..k] == fired[..k]
  {
  }

  ghost predicate Recorded<T>(fired: seq<Firing<T>>, stands: map<T, Stand>, first: nat) {
    (forall k :: 0 <= k < |fired| ==> OwnTime(fired, k, stands)) && InTurn(fired, stands, first) && NoneTwice(fired)
  }

  /** A timer `x` with this time and number may be fired next. */
  predicate MayFollow<T(==)>(fired: seq<Firing<T>>, stands: map<T, Stand>, first: nat, x: T, time: Timeval, n: nat) {
    (forall k :: 0 <= k < |fired| ==> InOrder(fired[k].at, NumberAt(fired, k, stands, first), time, n))
    && (fired != [] ==> fired[|fired| - 1].timer != x)
  }

  lemma RecordedMore<T>(fired: seq<Firing<T>>, t: T, at: Timeval, stands: map<T, Stand>, first: nat)
    requires Recorded(fired, stands, first) && t in stands && at == TimeAfter(stands[t], Times(fired, t))
    requires MayFollow(fired, stands, first, t, at, Number(fired, t, stands, first))
    ensures Recorded(fired + [Firing(t, at)], stands, first)
  {
    hide InOrder, TimeAfter, Times, Number;
    var more := fired + [Firing(t, at)];
    forall k | 0 <= k < |more|
      ensures OwnTime(more, k, stands)
      ensures NumberAt(more, k, stands, first)
           == if k < |fired| then NumberAt(fired, k, stands, first) else Number(fired, t, stands, first)
    {
      PrefixMore(fired, Firing(t, at), k);
      assert k < |fired| ==> OwnTime(fired, k, stands);
      assert fired[..|fired|] == fired;
    }
  }

  lemma MayFollowMore<T>(fired: seq<Firing<T>>, t: T, at: Timeval, stands: map<T, Stand>, first: nat,
                         x: T, time: Timeval, n: nat)
    requires t in stands && MayFollow(fired, stands, first, t, at, Number(fired, t, stands, first))
    requires x != t && InOrder(at, Number(fired, t, stands, first), time, n)
    ensures MayFollow(fired + [Firing(t, at)], stands, first, x, time, n)
  {
    hide InOrder, TimeAfter, Times, Number;
    var more := fired + [Firing(t, at)];
    forall k | 0 <= k < |more| ensures InOrder(more[k].at, NumberAt(more, k, stands, first), time, n) {
      PrefixMore(fired, Firing(t, at), k);
      assert fired[..|fired|] == fired;
      if k < |fired| {
        InOrderTrans(fired[k].at, NumberAt(fired, k, stands, first), at, Number(fired, t, stands, first), time, n);
      }
    }
  }

  lemma OvertakenMore<T>(fired: seq<Firing<T>>, t: T, at: Timeval, x: T, time: Timeval)
    requires x == t || (Overtaken(fired, x, time) && Before(time, at))
    ensures Overtaken(fired + [Firing(t, at)], x, time)
  {
    hide Before, Times;
    var more := fired + [Firing(t, at)];
    TimesMore(fired, t, at);
    forall m | 0 <= m < |more| && AfterLast(more, x, m) ensures Before(time, more[m].at) {
      PrefixMore(fired, Firing(t, at), m);
      TimesPrefix(fired, m, x);
      assert m < |fired| ==> AfterLast(fired, x, m);
    }
  }

  /** `x`, with these fields, stands where the callbacks have put it. */
  predicate Stood<T(==)>(fired: seq<Firing<T>>, stands: map<T, Stand>, first: nat,
                         x: T, periodic: bool, usecs: int, time: Timeval, added: nat)
  {
    && x in stands && periodic == stands[x].periodic && usecs == stands[x].usecs
    && time == TimeAfter(stands[x], Times(fired, x)) && added == Number(fired, x, stands, first)
  }

  lemma StoodMore<T>(fired: seq<Firing<T>>, t: T, at: Timeval, stands: map<T, Stand>, first: nat, x: T,
                     periodic: bool, usecs: int, time: Timeval, added: nat, time': Timeval, added': nat)
    requires Stood(fired, stands, first, x, periodic, usecs, time, added)
    requires time' == if x == t && periodic then AddUsecs(time, usecs) else time
    requires added' == if x == t && periodic then first + PutBack(fired, stands) else added
    ensures Stood(fired + [Firing(t, at)], stands, first, x, periodic, usecs, time', added')
  {
    hide AddUsecs, Times, Number, PutBack;
    TimesMore(fired, t, at);
    NumberMore(fired, t, at, stands, first, x);
  }

  lemma StoodStill<T>(fired: seq<Firing<T>>, stands: map<T, Stand>, first: nat,
                      x: T, periodic: bool, usecs: int, time: Timeval, added: nat)
    requires Stood(fired, stands, first, x, periodic, usecs, time, added) && Times(fired, x) == 0
    ensures time == stands[x].time && added == stands[x].added
  {
    hide Number;
    NumberFired(fired, x, stands, first);
  }

  // ---- What a schedule means for one timer and for one callback ----

  /** A timer of a valid list at the beginning of a run: a periodic one has a positive period. */
  predicate Sound(s: Stand, first: nat) {
    Near(s.time) && s.added < first && (s.periodic ==> s.usecs > 0)
  }

  lemma SoundAt<T>(stands: map<T, Stand>, first: nat, x: T)
    requires x in stands && forall s :: s in stands.Values ==> Sound(s, first)
    ensures Sound(stands[x], first)
  {
    assert x in stands.Keys;
    assert stands[x] in stands.Values;
  }

  /** A periodic timer is moved by its period at each callback, and never a whole period past `now`. */
  lemma Served<T>(fired: seq<Firing<T>>, stands: map<T, Stand>, first: nat, now: Timeval, x: T)
    requires Schedule(fired, stands, first, now) && Normalised(now) && x in stands && Sound(stands[x], first)
    ensures var s, n := stands[x], Times(fired, x);
            var time, number := TimeAfter(s, n), Number(fired, x, stands, first);
            && (s.periodic ==> Total(time) == Total(s.time) + n * s.usecs)
            && (Normalised(s.time) ==> Normalised(time))
            && (n == 0 || !s.periodic ==> time == s.time && number == s.added)
            && (n > 0 && s.periodic ==> first <= number)
            && (n > 0 && s.periodic && Normalised(s.time) ==> Total(time) - s.usecs <= Total(now))
  {
    hide Times, Number, AddUsecs, Before, Total, Normalised, Near;
    var s, n := stands[x], Times(fired, x);
    NumberFired(fired, x, stands, first);
    if s.periodic {
      TimeAfterMoves(s, n);
      if n > 0 && Normalised(s.time) {
        var k := LastOf(fired, x);
        assert OwnTime(fired, k, stands);
        TimeAfterMoves(s, n - 1);
        TotalOrders(now, fired[k].at);
        OneMore(n, s.usecs);
      }
    }
  }

  /** Callback `k`, of a timer that stood at `s`: made at the timer's own time, moved on by the callbacks before. */
  predicate CalledAt<T(==)>(fired: seq<Firing<T>>, k: nat, s: Stand)
    requires k < |fired|
  {
    var n := Times(fired[..k], fired[k].timer);
    && Total(fired[k].at) == Total(s.time) + n * s.usecs
    && (n == 0 ==> fired[k].at == s.time)
    && (Normalised(s.time) ==> Normalised(fired[k].at))
  }

  lemma Called<T>(fired: seq<Firing<T>>, stands: map<T, Stand>, first: nat, now: Timeval, k: nat)
    requires Schedule(fired, stands, first, now) && k < |fired|
    requires forall s :: s in stands.Values ==> Sound(s, first)
    ensures fired[k].timer in stands && CalledAt(fired, k, stands[fired[k].timer])
  {
    hide Times, AddUsecs, Before, Total, Normalised, Near;
    assert OwnTime(fired, k, stands);
    var x := fired[k].timer;
    var s, n := stands[x], Times(fired[..k], x);
    SoundAt(stands, first, x);
    if s.periodic {
      TimeAfterMoves(s, n);
    } else {
      TimesNext(fired, k, x);
      TimesPrefix(fired, k + 1, x);
    }
  }

  lemma AllCalled<T>(fired: seq<Firing<T>>, stands: map<T, Stand>, first: nat, now: Timeval)
    requires Schedule(fired, stands, first, now) && forall s :: s in stands.Values ==> Sound(s, first)
    ensures forall k :: 0 <= k < |fired| ==> fired[k].timer in stands && CalledAt(fired, k, stands[fired[k].timer])
    ensures forall i, j :: 0 <= i < j < |fired| ==> !Before(fired[j].at, fired[i].at)
  {
    hide CalledAt, NumberAt, Before, Times, Sound;
    forall k | 0 <= k < |fired|
      ensures fired[k].timer in stands && CalledAt(fired, k, stands[fired[k].timer])
    {
      Called(fired, stands, first, now, k);
    }
  }
}

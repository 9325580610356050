/** The timer list of mperf: active timers sorted by time, and a list of free ones. */
module Timers {
  import opened Bytes
  import opened CDivision
  import opened TimerSchedule

  class Timer {
    var usecs: int
    var periodic: bool
    var time: Timeval
    var prev: Timer?
    var next: Timer?
    /** The number of the insertion that put the timer where it is. */
    ghost var added: nat

    constructor ()
    {
      usecs, periodic, time := 0, false, Timeval(0, 0);
      prev, next := null, null;
      added := 0;
    }
  }

  predicate Distinct(list: seq<Timer>) {
    forall i, j :: 0 <= i < j < |list| ==> list[i] != list[j]
  }

  ghost function Nth(list: seq<Timer>, i: int): Timer? {
    if 0 <= i < |list| then list[i] else null
  }

  /** The timers of `list` are linked forward and backward in this order. */
  ghost predicate Linked(list: seq<Timer>)
    reads list`prev, list`next
  {
    Distinct(list)
    && (forall i {:trigger list[i].next} :: 0 <= i < |list| ==> list[i].next == Nth(list, i + 1))
    && (forall i {:trigger list[i].prev} :: 0 <= i < |list| ==> list[i].prev == Nth(list, i - 1))
  }

  /** Free timers are linked forward only. */
  ghost predicate Chained(list: seq<Timer>)
    reads list`prev, list`next
  {
    Distinct(list)
    && (forall i {:trigger list[i].next} :: 0 <= i < |list| ==> list[i].next == Nth(list, i + 1))
    && (forall i {:trigger list[i].prev} :: 0 <= i < |list| ==> list[i].prev == null)
  }

  /** By time, and timers of equal time in the order in which they were put there. */
  ghost predicate Sorted(list: seq<Timer>)
    reads list`time, list`added
  {
    forall i, j :: 0 <= i < j < |list| ==> InOrder(list[i].time, list[i].added, list[j].time, list[j].added)
  }

  ghost predicate Stamped(list: seq<Timer>, clock: nat)
    reads list`added
  {
    forall i :: 0 <= i < |list| ==> list[i].added < clock
  }

  ghost predicate AllNear(list: seq<Timer>)
    reads list`time
  {
    forall i :: 0 <= i < |list| ==> Near(list[i].time)
  }

  /** `t` put before position `k`. */
  ghost function Inserted(list: seq<Timer>, k: nat, t: Timer): seq<Timer>
    requires k <= |list|
  {
    list[..k] + [t] + list[k..]
  }

  ghost function Removed(list: seq<Timer>, k: nat): seq<Timer>
    requires k < |list|
  {
    list[..k] + list[k + 1..]
  }

  lemma InsertedAt(list: seq<Timer>, k: nat, t: Timer, i: nat)
    requires k <= |list| && i <= |list|
    ensures |Inserted(list, k, t)| == |list| + 1
    ensures Inserted(list, k, t)[i] == if i < k then list[i] else if i == k then t else list[i - 1]
  {
  }

  /** The pointers written by an insertion link the longer list. */
  lemma LinkedInserted(list: seq<Timer>, k: nat, t: Timer)
    requires k <= |list| && Distinct(list) && t !in list
    requires forall i {:trigger list[i].next} :: 0 <= i < |list| ==>
               list[i].next == if i == k - 1 then t else Nth(list, i + 1)
    requires forall i {:trigger list[i].prev} :: 0 <= i < |list| ==>
               list[i].prev == if i == k then t else Nth(list, i - 1)
    requires t.prev == Nth(list, k - 1) && t.next == Nth(list, k)
    ensures Linked(Inserted(list, k, t))
  {
    var more := Inserted(list, k, t);
    forall i | 0 <= i < |more|
      ensures more[i].next == Nth(more, i + 1) && more[i].prev == Nth(more, i - 1)
    {
      InsertedAt(list, k, t, i);
      if i > 0 { InsertedAt(list, k, t, i - 1); }
      if i + 1 < |more| { InsertedAt(list, k, t, i + 1); }
    }
    forall i, j | 0 <= i < j < |more| ensures more[i] != more[j] {
      InsertedAt(list, k, t, i);
      InsertedAt(list, k, t, j);
    }
  }

  lemma SortedInserted(list: seq<Timer>, k: nat, t: Timer)
    requires k <= |list| && Sorted(list)
    requires forall i :: 0 <= i < k ==> !Before(t.time, list[i].time)
    requires forall i :: k <= i < |list| ==> Before(t.time, list[i].time)
    requires Stamped(list, t.added)
    ensures Sorted(Inserted(list, k, t))
  {
    var more := Inserted(list, k, t);
    forall i, j | 0 <= i < j < |more|
      ensures InOrder(more[i].time, more[i].added, more[j].time, more[j].added)
    {
      InsertedAt(list, k, t, i);
      InsertedAt(list, k, t, j);
    }
  }

  lemma LaterFrom(list: seq<Timer>, k: nat, t: Timer)
    requires k < |list| && Sorted(list) && Before(t.time, list[k].time)
    ensures forall i :: k <= i < |list| ==> Before(t.time, list[i].time)
  {
  }

  lemma RemovedAt(list: seq<Timer>, k: nat, i: nat)
    requires k < |list|
    ensures |Removed(list, k)| == |list| - 1
    ensures i + 1 < |list| ==> Removed(list, k)[i] == if i < k then list[i] else list[i + 1]
  {
  }

  /** The pointers written by a removal link the shorter list. */
  lemma LinkedRemoved(list: seq<Timer>, k: nat)
    requires k < |list| && Distinct(list)
    requires forall i {:trigger list[i].next} :: 0 <= i < |list| && i != k ==>
               list[i].next == if i == k - 1 then Nth(list, k + 1) else Nth(list, i + 1)
    requires forall i {:trigger list[i].prev} :: 0 <= i < |list| && i != k ==>
               list[i].prev == if i == k + 1 then Nth(list, k - 1) else Nth(list, i - 1)
    ensures Linked(Removed(list, k))
  {
    var less := Removed(list, k);
    forall i | 0 <= i < |less|
      ensures less[i].next == Nth(less, i + 1) && less[i].prev == Nth(less, i - 1)
    {
      RemovedAt(list, k, i);
      if i > 0 { RemovedAt(list, k, i - 1); }
      if i + 1 < |less| { RemovedAt(list, k, i + 1); }
    }
    forall i, j | 0 <= i < j < |less| ensures less[i] != less[j] {
      RemovedAt(list, k, i);
      RemovedAt(list, k, j);
    }
  }

  lemma SortedRemoved(list: seq<Timer>, k: nat)
    requires k < |list| && Sorted(list)
    ensures Sorted(Removed(list, k))
  {
    var less := Removed(list, k);
    forall i, j | 0 <= i < j < |less|
      ensures InOrder(less[i].time, less[i].added, less[j].time, less[j].added)
    {
      RemovedAt(list, k, i);
      RemovedAt(list, k, j);
    }
  }

  lemma LinkedDistinct(list: seq<Timer>)
    requires Linked(list)
    ensures Distinct(list)
  {
  }

  lemma StampedMore(list: seq<Timer>, clock: nat)
    requires Stamped(list, clock)
    ensures Stamped(list, clock + 1)
  {
  }

  lemma StampedInserted(list: seq<Timer>, k: nat, t: Timer, clock: nat)
    requires k <= |list| && Stamped(list, clock) && t.added < clock
    ensures Stamped(Inserted(list, k, t), clock)
  {
  }

  lemma StampedRemoved(list: seq<Timer>, k: nat, clock: nat)
    requires k < |list| && Stamped(list, clock)
    ensures Stamped(Removed(list, k), clock)
  {
  }

  lemma InsertedAll(list: seq<Timer>, k: nat, t: Timer)
    requires k <= |list|
    ensures multiset(Inserted(list, k, t)) == multiset(list) + multiset{t}
  {
    assert list == list[..k] + list[k..];
  }

  lemma RemovedAll(list: seq<Timer>, k: nat)
    requires k < |list|
    ensures multiset(Removed(list, k)) + multiset{list[k]} == multiset(list)
  {
    assert list == list[..k] + [list[k]] + list[k + 1..];
  }

  lemma MovedAll(list: seq<Timer>, k: nat, j: nat, t: Timer)
    requires k < |list| && list[k] == t && j <= |Removed(list, k)|
    ensures multiset(Inserted(Removed(list, k), j, t)) == multiset(list)
  {
    hide Removed, Inserted;
    RemovedAll(list, k);
    InsertedAll(Removed(list, k), j, t);
  }

  lemma CreatedAll(list: seq<Timer>, k: nat, t: Timer, free: seq<Timer>)
    requires k <= |list|
    ensures free == [] ==>
              multiset(Inserted(list, k, t)) + multiset([]) == multiset(list) + multiset(free) + multiset{t}
    ensures free != [] && t == free[0] ==>
              multiset(Inserted(list, k, t)) + multiset(free[1..]) == multiset(list) + multiset(free)
  {
    hide Inserted;
    InsertedAll(list, k, t);
    assert free != [] ==> free == [free[0]] + free[1..];
  }

  lemma FreedAll(list: seq<Timer>, k: nat, free: seq<Timer>)
    requires k < |list|
    ensures multiset(Removed(list, k)) + multiset([list[k]] + free) == multiset(list) + multiset(free)
  {
    hide Removed;
    RemovedAll(list, k);
  }

  /** What is neither active any more nor was free before has become free. */
  lemma Accounted(active: seq<Timer>, free: seq<Timer>, active0: seq<Timer>, free0: seq<Timer>)
    requires multiset(active) + multiset(free) == multiset(active0) + multiset(free0)
    requires forall x :: x in active ==> x in active0 && x !in free
    requires forall x :: x in active0 ==> x !in free0
    ensures forall x :: x in free <==> x in free0 || (x in active0 && x !in active)
  {
    forall x: Timer
      ensures x in free <==> x in free0 || (x in active0 && x !in active)
    {
      assert x in free <==> x in multiset(free);
      assert x in active <==> x in multiset(active);
      assert x in free0 <==> x in multiset(free0);
      assert x in active0 <==> x in multiset(active0);
      assert x in multiset(active) + multiset(free) <==> x in multiset(active0) + multiset(free0);
    }
  }

  class TimerQueue {
    var timers: Timer?
    var freeTimers: Timer?
    ghost var active: seq<Timer>
    ghost var free: seq<Timer>
    /** How often a timer was put on the active list. */
    ghost var clock: nat

    /** Both lists start empty. */
    constructor ()
      ensures Valid() && active == [] && free == []
    {
      timers, freeTimers, active, free, clock := null, null, [], [], 0;
    }

    ghost predicate ActiveList()
      reads `timers, `active, `clock, active`prev, active`next, active`added
    {
      Linked(active) && timers == Nth(active, 0) && Stamped(active, clock)
    }

    /** Every timer there is. */
    ghost function All(): multiset<Timer>
      reads this
    {
      multiset(active) + multiset(free)
    }

    ghost predicate FreeList()
      reads `freeTimers, `free, free`prev, free`next
    {
      Chained(free) && freeTimers == Nth(free, 0)
    }

    ghost predicate Valid()
      reads this, active, free
    {
      ActiveList() && FreeList() && Sorted(active) && AllNear(active)
      && forall t :: t in active ==> t !in free
    }

    /** list_add: behind every timer that is not later than `t`, before all later ones. */
    method ListAdd(t: Timer) returns (ghost k: nat)
      requires ActiveList() && Sorted(active) && t !in active
      modifies this`timers, this`active, this`clock, t`prev, t`next, t`added, active`prev, active`next
      ensures ActiveList() && Sorted(active) && t.added == old(clock) && clock == old(clock) + 1
      ensures k <= |old(active)| && active == Inserted(old(active), k, t)
      ensures forall i :: 0 <= i < k ==> !Before(t.time, old(active)[i].time)
      ensures forall i :: k <= i < |old(active)| ==> Before(t.time, old(active)[i].time)
    {
      hide Inserted, Linked, Sorted, Stamped;
      t.added, clock := clock, clock + 1;
      StampedMore(active, t.added);
      assert Linked(active) && Sorted(active);
      if timers == null {
        k := 0;
        LinkFirst(t);
      } else if Before(t.time, timers.time) {
        k := 0;
        LaterFrom(active, 0, t);
        LinkFirst(t);
      } else {
        var t2prev, t2;
        t2prev, t2, k := FindPlace(t);
        LinkAfter(t, t2prev, t2, k);
      }
      assert Sorted(old(active)) && Stamped(old(active), t.added);
      SortedInserted(old(active), k, t);
    }

    /** The first two branches of list_add: `t` becomes the head. */
    method LinkFirst(t: Timer)
      requires ActiveList() && t !in active && t.added < clock
      modifies this`timers, this`active, t`prev, t`next, active`prev, active`next
      ensures ActiveList() && active == Inserted(old(active), 0, t)
    {
      t.prev, t.next := null, timers;
      if timers != null {
        timers.prev := t;
      }
      timers := t;
      LinkedInserted(active, 0, t);
      StampedInserted(active, 0, t, clock);
      active := Inserted(active, 0, t);
    }

    /** The walk of list_add to the insertion point. */
    method FindPlace(t: Timer) returns (t2prev: Timer, t2: Timer?, ghost k: nat)
      requires ActiveList() && Sorted(active) && timers != null && !Before(t.time, timers.time)
      ensures t2 == t2prev.next && !Before(t.time, t2prev.time) && (t2 != null ==> Before(t.time, t2.time))
      ensures 1 <= k <= |active| && t2prev == active[k - 1] && t2 == Nth(active, k)
      ensures forall i :: 0 <= i < k ==> !Before(t.time, active[i].time)
      ensures forall i :: k <= i < |active| ==> Before(t.time, active[i].time)
    {
      hide Sorted, Distinct;
      t2prev, t2 := timers, timers.next;
      k := 1;
      while t2 != null && !Before(t.time, t2.time)
        invariant 1 <= k <= |active| && t2prev == active[k - 1] && t2 == Nth(active, k)
        invariant forall i :: 0 <= i < k ==> !Before(t.time, active[i].time)
        decreases |active| - k
      {
        t2prev, t2 := t2, t2.next;
        k := k + 1;
      }
      if t2 != null {
        LaterFrom(active, k, t);
      }
    }

    /** The last branch of list_add: `t` goes between two timers or to the end. */
    method LinkAfter(t: Timer, t2prev: Timer, t2: Timer?, ghost k: nat)
      requires ActiveList() && t !in active && t.added < clock
      requires 1 <= k <= |active| && t2prev == active[k - 1] && t2 == Nth(active, k)
      modifies this`active, t`prev, t`next, active`prev, active`next
      ensures ActiveList() && active == Inserted(old(active), k, t)
    {
      hide Inserted, Stamped;
      ghost var list := active;
      assert forall i :: 0 <= i < |list| && i != k - 1 ==> list[i] != t2prev;
      assert t2 != null ==> forall i :: 0 <= i < |list| && i != k ==> list[i] != t2;
      t2prev.next := t;
      t.prev := t2prev;
      t.next := t2;
      if t2 != null {
        t2.prev := t;
      }
      LinkedInserted(list, k, t);
      StampedInserted(list, k, t, clock);
      InsertedAt(list, k, t, 0);
      active := Inserted(list, k, t);
    }

    /** list_remove */
    method ListRemove(t: Timer, ghost k: nat)
      requires ActiveList() && k < |active| && active[k] == t
      modifies this`timers, this`active, active`prev, active`next
      ensures ActiveList()
      ensures active == Removed(old(active), k)
    {
      hide Removed, Stamped;
      ghost var list := active;
      assert t.prev != null ==> forall i :: 0 <= i < |list| && i != k - 1 ==> list[i] != t.prev;
      assert t.next != null ==> forall i :: 0 <= i < |list| && i != k + 1 ==> list[i] != t.next;
      if t.prev == null {
        timers := t.next;
      } else {
        t.prev.next := t.next;
      }
      if t.next != null {
        t.next.prev := t.prev;
      }
      LinkedRemoved(list, k);
      StampedRemoved(list, k, clock);
      RemovedAt(list, k, 0);
      active := Removed(list, k);
    }

    /** list_resort, for a timer whose time alone may be out of order. */
    method ListResort(t: Timer, ghost k: nat) returns (ghost j: nat)
      requires ActiveList() && k < |active| && active[k] == t && Sorted(Removed(active, k))
      modifies this`timers, this`active, this`clock, active`prev, active`next, t`added
      ensures ActiveList() && Sorted(active) && t.added == old(clock) && clock == old(clock) + 1
      ensures var rest := Removed(old(active), k);
              j <= |rest| && active == Inserted(rest, j, t)
              && (forall i :: 0 <= i < j ==> !Before(t.time, rest[i].time))
              && (forall i :: j <= i < |rest| ==> Before(t.time, rest[i].time))
    {
      RemovedMembers(active, k);
      hide Removed, Inserted, Linked, Sorted, Stamped;
      ListRemove(t, k);
      j := ListAdd(t);
    }

    /** The allocation in tmr_create: a free timer is reused before a new one is made. */
    method TakeFree() returns (t: Timer)
      requires FreeList()
      modifies this`freeTimers, this`free
      ensures FreeList() && t !in free
      ensures if old(free) == [] then fresh(t) && free == [] else t == old(free)[0] && free == old(free)[1..]
    {
      if freeTimers != null {
        ChainedTail(free);
        t := freeTimers;
        freeTimers := t.next;
        free := free[1..];
      } else {
        t := new Timer();
      }
    }

    /** The end of tmr_cancel: `t` is put on the free list. */
    method PutFree(t: Timer)
      requires FreeList() && t !in free
      modifies this`freeTimers, this`free, t`prev, t`next
      ensures FreeList() && free == [t] + old(free)
    {
      hide Chained;
      t.next := freeTimers;
      freeTimers := t;
      t.prev := null;
      assert Chained(free);
      ChainedMore(t, free);
      free := [t] + free;
    }

    /** The first part of tmr_create: a timer with its settings, not yet on the list. */
    method Prepare(now: Timeval, usecs: int, periodic: bool) returns (t: Timer)
      requires Valid() && Normalised(now)
      modifies this`freeTimers, this`free, if freeTimers == null then {} else {freeTimers}
      ensures Valid() && t !in active && t !in free
      ensures t.usecs == usecs && t.periodic == periodic && t.time == AddUsecs(now, usecs)
      ensures if old(free) == [] then fresh(t) && free == [] else t == old(free)[0] && free == old(free)[1..]
    {
      hide Linked, Chained, Sorted, AllNear, Distinct, Stamped, AddUsecs;
      t := TakeFree();
      assert t !in active;
      t.usecs := usecs;
      t.periodic := periodic;
      t.time := AddUsecs(now, usecs);
      assert forall x :: x in free ==> x in old(free);
    }

    /** tmr_create */
    method Create(now: Timeval, usecs: int, periodic: bool) returns (t: Timer, ghost k: nat)
      requires Valid() && Normalised(now)
      modifies this, active`prev, active`next, if freeTimers == null then {} else {freeTimers}
      ensures Valid()
      ensures t.usecs == usecs && t.periodic == periodic && t.time == AddUsecs(now, usecs)
      ensures t.added == old(clock) && clock == old(clock) + 1
      ensures usecs >= 0 ==> Normalised(t.time)
      ensures k <= |old(active)| && active == Inserted(old(active), k, t)
      ensures forall i :: 0 <= i < k ==> !Before(t.time, old(active)[i].time)
      ensures forall i :: k <= i < |old(active)| ==> Before(t.time, old(active)[i].time)
      ensures if old(free) == [] then fresh(t) && free == [] else t == old(free)[0] && free == old(free)[1..]
      ensures All() == if old(free) == [] then old(All()) + multiset{t} else old(All())
    {
      hide Linked, Chained, Sorted, AllNear, Distinct, Inserted, Stamped, AddUsecs, Before, Total, Remainder;
      AddUsecsNormalises(now, usecs);
      AddUsecsMoves(now, usecs);
      t := Prepare(now, usecs, periodic);
      ghost var list := active;
      label prepared:
      k := ListAdd(t);
      assert forall x :: x in free ==> x.next == old@prepared(x.next) && x.prev == old@prepared(x.prev);
      assert AllNear(list) && FreeList();
      NearInserted(list, k, t);
      InsertedMembers(list, k, t);
      forall x | x in active ensures x !in free {
        assert x in list || x == t;
      }
      CreatedAll(list, k, t, old(free));
    }

    /** A new time for `t`, and list_resort. */
    method Retime(t: Timer, ghost k: nat, time: Timeval) returns (ghost j: nat)
      requires Valid() && Near(time) && k < |active| && active[k] == t
      modifies this`timers, this`active, this`clock, active`prev, active`next, t`time, t`added
      ensures Valid() && free == old(free) && t.time == time && All() == old(All())
      ensures t.added == old(clock) && clock == old(clock) + 1
      ensures var rest := Removed(old(active), k);
              j <= |rest| == |old(active)| - 1 && active == Inserted(rest, j, t)
              && (forall i :: 0 <= i < j ==> !Before(time, rest[i].time))
              && (forall i :: j <= i < |rest| ==> Before(time, rest[i].time))
    {
      hide Linked, Chained, Sorted, AllNear, Distinct, Inserted, Removed, Stamped, Before;
      ghost var rest := Removed(active, k);
      LinkedDistinct(active);
      RemovedMembers(active, k);
      SortedRemoved(active, k);
      NearRemoved(active, k);
      RemovedAt(active, k, 0);
      assert t !in rest;
      t.time := time;
      assert Sorted(rest) && AllNear(rest) && Chained(free);
      j := ListResort(t, k);
      assert forall x :: x in free ==> x.next == old(x.next) && x.prev == old(x.prev);
      NearInserted(rest, j, t);
      InsertedMembers(rest, j, t);
      MovedAll(old(active), k, j, t);
    }

    /** tmr_reset */
    method Reset(now: Timeval, t: Timer, ghost k: nat) returns (ghost j: nat)
      requires Valid() && Normalised(now) && k < |active| && active[k] == t
      modifies this`timers, this`active, this`clock, active`prev, active`next, t`time, t`added
      ensures Valid() && free == old(free) && t.time == AddUsecs(now, t.usecs) && All() == old(All())
      ensures t.added == old(clock) && clock == old(clock) + 1
      ensures t.usecs >= 0 ==> Normalised(t.time)
      ensures var rest := Removed(old(active), k);
              j <= |rest| == |old(active)| - 1 && active == Inserted(rest, j, t)
              && (forall i :: 0 <= i < j ==> !Before(t.time, rest[i].time))
              && (forall i :: j <= i < |rest| ==> Before(t.time, rest[i].time))
    {
      hide Valid, All, Inserted, Removed, AddUsecs, Before, Total, Remainder;
      AddUsecsNormalises(now, t.usecs);
      AddUsecsMoves(now, t.usecs);
      j := Retime(t, k, AddUsecs(now, t.usecs));
    }

    /** tmr_cancel */
    method Cancel(t: Timer, ghost k: nat)
      requires Valid() && k < |active| && active[k] == t
      modifies this, active`prev, active`next
      ensures Valid() && clock == old(clock)
      ensures active == Removed(old(active), k) && free == [t] + old(free) && All() == old(All())
    {
      hide Linked, Chained, Sorted, AllNear, Distinct, Removed, Stamped, Nth;
      ghost var list := active;
      LinkedDistinct(list);
      ListRemove(t, k);
      assert Sorted(list) && AllNear(list);
      assert forall x :: x in free ==> x.next == old(x.next) && x.prev == old(x.prev);
      assert FreeList();
      RemovedMembers(list, k);
      label removed:
      PutFree(t);
      assert Sorted(list) && AllNear(list);
      assert forall x :: x in active ==> x.next == old@removed(x.next) && x.prev == old@removed(x.prev);
      SortedRemoved(list, k);
      NearRemoved(list, k);
      FreedAll(list, k, old(free));
    }

    /** tmr_timeout */
    method Timeout(now: Timeval) returns (r: Option<Timeval>)
      requires Valid()
      ensures r.None? <==> active == []
      ensures r.Some? ==> Normalised(r.value) && Total(r.value) == Wait(active[0].time, now)
      ensures r.Some? && (forall i :: 0 <= i < |active| ==> Normalised(active[i].time)) ==>
                forall i :: 0 <= i < |active| ==> Total(r.value) <= Wait(active[i].time, now)
    {
      if timers == null {
        return None;
      }
      var usecs := (timers.time.sec - now.sec) * MILLION + (timers.time.usec - now.usec);
      if usecs <= 0 {
        usecs := 0;
      }
      r := Some(Timeval(usecs / MILLION, usecs % MILLION));
      forall i | 0 <= i < |active| && Normalised(active[0].time) && Normalised(active[i].time)
        ensures Wait(active[0].time, now) <= Wait(active[i].time, now)
      {
        TotalOrders(active[i].time, active[0].time);
      }
    }

    /** tmr_cleanup: the free timers are given back. */
    method Cleanup()
      requires FreeList()
      modifies this`freeTimers, this`free
      ensures FreeList() && free == []
    {
      hide Chained;
      while freeTimers != null
        invariant FreeList()
        decreases |free|
      {
        ChainedTail(free);
        var t := freeTimers;
        freeTimers := t.next;
        free := free[1..];
      }
    }

    /** tmr_destroy */
    method Destroy()
      requires Valid()
      modifies this, active`prev, active`next
      ensures Valid() && active == [] && free == []
    {
      hide Chained, Sorted, AllNear;
      while timers != null
        invariant Valid()
        invariant forall x :: x in active ==> x in old(active)
        decreases |active|
      {
        RemovedAt(active, 0, 0);
        RemovedMembers(active, 0);
        forall i | 0 <= i < |active| ensures active[i] in old(active) {
          assert active[i] in active;
        }
        Cancel(timers, 0);
      }
      Cleanup();
    }

    /** What one round of tmr_run does with a timer that is due. */
    method Fire(t: Timer, ghost pos: nat) returns (ghost j: nat)
      requires Valid() && pos < |active| && active[pos] == t
      requires t.periodic ==> t.usecs > 0
      modifies this, active`prev, active`next, t`time, t`added
      ensures Valid() && All() == old(All())
      ensures t.added == (if t.periodic then old(clock) else old(t.added))
      ensures clock == old(clock) + (if t.periodic then 1 else 0)
      ensures t.periodic ==>
                t.time == AddUsecs(old(t.time), t.usecs) && free == old(free)
                && pos <= j < |old(active)| && active == Inserted(Removed(old(active), pos), j, t)
      ensures !t.periodic ==>
                t.time == old(t.time) && active == Removed(old(active), pos) && free == [t] + old(free)
    {
      hide Valid, All, Sorted, Distinct, Inserted, Removed, AddUsecs, Before, Total, Near;
      AboutToFire(pos);
      if t.periodic {
        StillSorted();
        EarlierBefore(active, pos);
        ghost var rest := Removed(active, pos);
        ghost var was := t.time;
        AddUsecsMoves(was, t.usecs);
        j := Retime(t, pos, AddUsecs(t.time, t.usecs));
        forall i | 0 <= i < pos ensures !Before(was, rest[i].time) {
          assert rest[i] == old(active)[i] != t;
        }
        LaterPlace(rest, pos, j, was, t.time);
      } else {
        j := 0;
        Cancel(t, pos);
      }
    }

    /** What a run owes the timer `x`: it stands where its callbacks put it, and is still active or else free. */
    ghost predicate Account(x: Timer, stands: map<Timer, Stand>, first: nat, fired: seq<Firing<Timer>>, now: Timeval)
      reads this, x
    {
      Booked(fired, stands, first, now, x, x.periodic, x.usecs, x.time, x.added, x in active, x in free)
    }

    ghost predicate Passed(fired: seq<Firing<Timer>>, pos: nat)
      reads this, active
      requires pos <= |active|
    {
      forall i :: 0 <= i < pos ==> active[i].periodic && Times(fired, active[i]) > 0
    }

    /** The timers before `pos` have been fired and rescheduled; every other one is accounted for. */
    ghost predicate Progress(start: seq<Timer>, stands: map<Timer, Stand>, first: nat, fired: seq<Firing<Timer>>,
                             now: Timeval, pos: nat)
      reads this, active, start
    {
      pos <= |active| && clock == first + PutBack(fired, stands)
      && (forall k :: 0 <= k < |start| ==> Account(start[k], stands, first, fired, now))
      && (forall x :: x in active ==> x in start)
      && Passed(fired, pos)
      && (forall k :: 0 <= k < |fired| ==> fired[k].timer in start && !Before(now, fired[k].at))
    }

    /** What a run at `now` leaves of `x`, which stood at `s` when the run began with insertion number `first`. */
    ghost predicate Outcome(x: Timer, s: Stand, first: nat, fired: seq<Firing<Timer>>, now: Timeval)
      reads this, x
    {
      && (Times(fired, x) > 0 <==> !Before(now, s.time))
      && (x.periodic ==> x in active && Total(x.time) == Total(s.time) + Times(fired, x) * x.usecs)
      && (Normalised(s.time) ==> Normalised(x.time))
      && (x.periodic && Times(fired, x) > 0 && Normalised(s.time) ==> Total(x.time) - x.usecs <= Total(now))
      && (Times(fired, x) == 0 ==> x in active && x.time == s.time && x.added == s.added)
      && (Times(fired, x) > 0 && x.periodic ==> first <= x.added)
      && (!x.periodic ==> Times(fired, x) <= 1 && x.time == s.time && (Times(fired, x) == 1 ==> x in free))
    }

    /** The timers before `pos` have been passed by: they come before all that is fired after them. */
    ghost predicate Skipped(fired: seq<Firing<Timer>>, pos: nat)
      reads this, active
    {
      pos <= |active|
      && forall i :: 0 <= i < pos ==>
           Overtaken(fired, active[i], active[i].time)
           && (pos < |active| ==> Before(active[i].time, active[pos].time))
    }

    /** The books of a run: every timer is accounted for, the callbacks are in turn, and the next one may follow. */
    ghost predicate Books(start: seq<Timer>, stands: map<Timer, Stand>, first: nat, fired: seq<Firing<Timer>>,
                          now: Timeval, pos: nat)
      reads this, active, start
    {
      Progress(start, stands, first, fired, now, pos) && Recorded(fired, stands, first) && Skipped(fired, pos)
      && (pos < |active| ==> MayFollow(fired, stands, first, active[pos], active[pos].time, active[pos].added))
    }

    lemma StillSorted()
      requires Valid()
      ensures Sorted(active)
    {
    }

    lemma AboutToFire(pos: nat)
      requires Valid() && pos < |active|
      ensures Distinct(active) && Near(active[pos].time)
    {
    }

    /** Firing a periodic timer: where the saved next timer stands afterwards. */
    method FirePeriodic(now: Timeval, t: Timer, ghost pos: nat) returns (ghost pos': nat)
      requires Valid() && Normalised(now) && pos < |active| && active[pos] == t && !Before(now, t.time)
      requires t.periodic && t.usecs > 0
      modifies this, active`prev, active`next, t`time, t`added
      ensures Valid() && All() == old(All())
      ensures t.added == (if t.periodic then old(clock) else old(t.added))
      ensures clock == old(clock) + (if t.periodic then 1 else 0)
      ensures t.time == AddUsecs(old(t.time), t.usecs) && free == old(free)
      ensures forall x :: x in active <==> x in old(active)
      ensures pos <= pos' <= |active| && Nth(active, pos') == Nth(old(active), pos + 1)
      ensures forall i :: 0 <= i < pos ==> active[i] == old(active)[i]
      ensures pos' == pos || (pos' == pos + 1 && active[pos] == t)
      ensures DueSum(TimesFrom(active, pos'), now) < old(DueSum(TimesFrom(active, pos), now))
    {
      hide Valid, All, Distinct, Inserted, Removed, TimesFrom, DueSum, Before, Total, AddUsecs, Near, Due, Normalised;
      ghost var list := active;
      ghost var later := TimesFrom(list, pos + 1);
      AboutToFire(pos);
      FiringFrom(list, pos, t);
      ghost var j := Fire(t, pos);
      forall i | pos < i < |list| ensures list[i].time == later[i - pos - 1] {
        assert list[i] in list && list[i] != t;
      }
      pos' := if j == pos then pos + 1 else pos;
      AddUsecsMoves(old(t.time), t.usecs);
      DueSooner(old(t.time), t.time, now);
      MovedOn(list, pos, j, t, later, now);
    }

    /** Firing a one-shot timer: where the saved next timer stands afterwards. */
    method FireOnce(now: Timeval, t: Timer, ghost pos: nat)
      requires Valid() && Normalised(now) && pos < |active| && active[pos] == t && !Before(now, t.time)
      requires !t.periodic
      modifies this, active`prev, active`next, t`time, t`added
      ensures Valid() && All() == old(All())
      ensures t.added == (if t.periodic then old(clock) else old(t.added))
      ensures clock == old(clock) + (if t.periodic then 1 else 0)
      ensures t.time == old(t.time) && free == [t] + old(free)
      ensures forall x :: x in active <==> x in old(active) && x != t
      ensures pos <= |active| && Nth(active, pos) == Nth(old(active), pos + 1)
      ensures forall i :: 0 <= i < pos ==> active[i] == old(active)[i]
      ensures DueSum(TimesFrom(active, pos), now) < old(DueSum(TimesFrom(active, pos), now))
    {
      hide Valid, All, Distinct, Near, Due, Inserted, Removed, TimesFrom, DueSum, Before, Total, Normalised;
      ghost var list := active;
      ghost var later := TimesFrom(list, pos + 1);
      ghost var rest := Removed(list, pos);
      AboutToFire(pos);
      IsDue(t.time, now);
      FiringFrom(list, pos, t);
      ghost var j := Fire(t, pos);
      assert active == rest;
      RemovedMembers(list, pos);
      forall i | pos < i < |list| ensures list[i].time == later[i - pos - 1] {
        assert list[i] in list && list[i] != t;
      }
      TimesLeft(list, pos, later);
      PrefixLeft(list, pos);
    }

    /** Firing `t`: where the saved next timer stands afterwards, and how much less is due from there on. */
    method FireAndGoOn(now: Timeval, t: Timer, ghost pos: nat) returns (ghost pos': nat)
      requires Valid() && Normalised(now) && pos < |active| && active[pos] == t && !Before(now, t.time)
      requires t.periodic ==> t.usecs > 0
      modifies this, active`prev, active`next, t`time, t`added
      ensures Valid() && All() == old(All())
      ensures t.added == (if t.periodic then old(clock) else old(t.added))
      ensures clock == old(clock) + (if t.periodic then 1 else 0)
      ensures t.time == if t.periodic then AddUsecs(old(t.time), t.usecs) else old(t.time)
      ensures free == if t.periodic then old(free) else [t] + old(free)
      ensures forall x :: x in active <==> x in old(active) && (x != t || t.periodic)
      ensures pos <= pos' <= |active| && Nth(active, pos') == Nth(old(active), pos + 1)
      ensures forall i :: 0 <= i < pos ==> active[i] == old(active)[i]
      ensures pos' == pos || (pos' == pos + 1 && active[pos] == t && t.periodic)
      ensures DueSum(TimesFrom(active, pos'), now) < old(DueSum(TimesFrom(active, pos), now))
    {
      hide Valid, All, TimesFrom, DueSum, Before, AddUsecs, Normalised;
      if t.periodic {
        pos' := FirePeriodic(now, t, pos);
      } else {
        pos' := pos;
        FireOnce(now, t, pos);
      }
    }

    /** One round of tmr_run, with every timer accounted for. */
    method Round(now: Timeval, t: Timer, ghost pos: nat, ghost start: seq<Timer>, ghost stands: map<Timer, Stand>,
                 ghost first: nat, fired: seq<Firing<Timer>>)
      returns (fired': seq<Firing<Timer>>, ghost pos': nat)
      requires Valid() && Normalised(now) && Progress(start, stands, first, fired, now, pos)
      requires pos < |active| && active[pos] == t && !Before(now, t.time)
      requires t.periodic ==> t.usecs > 0
      modifies this, active`prev, active`next, t`time, t`added
      ensures Valid() && All() == old(All()) && fired' == fired + [Firing(t, old(t.time))]
      ensures t.periodic ==> t.added == old(clock)
      ensures Progress(start, stands, first, fired', now, pos')
      ensures pos <= pos' <= |active| && Nth(active, pos') == Nth(old(active), pos + 1)
      ensures forall i :: 0 <= i < pos ==> active[i] == old(active)[i]
      ensures pos' == pos || (pos' == pos + 1 && active[pos] == t && t.periodic)
      ensures DueSum(TimesFrom(active, pos'), now) < old(DueSum(TimesFrom(active, pos), now))
    {
      hide Before, TimesFrom, DueSum, Times, Valid, All, Normalised, AddUsecs, Booked, PutBack, TimeAfter, Number;
      InProgress(start, stands, first, fired, now, pos);
      TimesMore(fired, t, t.time);
      NumberMore(fired, t, t.time, stands, first, t);
      fired' := fired + [Firing(t, t.time)];
      pos' := FireAndGoOn(now, t, pos);
      forall k | 0 <= k < |start| ensures Account(start[k], stands, first, fired', now) {
        var x := start[k];
        assert old(Account(x, stands, first, fired, now));
        BookedMore(fired, t, old(t.time), stands, first, now, x, x.periodic, x.usecs,
                   old(x.time), old(x.added), old(x in active), old(x in free),
                   x.time, x.added, x in active, x in free);
      }
    }

    /** The same round, with the callbacks in turn. */
    method OrderedRound(now: Timeval, t: Timer, ghost pos: nat, ghost start: seq<Timer>,
                        ghost stands: map<Timer, Stand>, ghost first: nat, fired: seq<Firing<Timer>>)
      returns (fired': seq<Firing<Timer>>, ghost pos': nat)
      requires Valid() && Normalised(now) && Books(start, stands, first, fired, now, pos)
      requires pos < |active| && active[pos] == t && !Before(now, t.time)
      requires t.periodic ==> t.usecs > 0
      modifies this, active`prev, active`next, t`time, t`added
      ensures Valid() && All() == old(All()) && fired' == fired + [Firing(t, old(t.time))]
      ensures Books(start, stands, first, fired', now, pos')
      ensures Nth(active, pos') == Nth(old(active), pos + 1)
      ensures DueSum(TimesFrom(active, pos'), now) < old(DueSum(TimesFrom(active, pos), now))
    {
      hide Before, TimesFrom, DueSum, Times, Valid, All, Normalised, Progress, Recorded, MayFollow, Overtaken, InOrder,
           Number, TimeAfter;
      ghost var at, list := t.time, active;
      NextInTurn(pos);
      InProgress(start, stands, first, fired, now, pos);
      RecordedMore(fired, t, at, stands, first);
      if pos + 1 < |list| {
        MayFollowMore(fired, t, at, stands, first, list[pos + 1], list[pos + 1].time, list[pos + 1].added);
      }
      forall i | 0 <= i < pos ensures Overtaken(fired + [Firing(t, at)], list[i], list[i].time) {
        OvertakenMore(fired, t, at, list[i], list[i].time);
      }
      fired', pos' := Round(now, t, pos, start, stands, first, fired);
      OvertakenMore(fired, t, at, t, t.time);
      if pos' < |active| {
        ghost var next := active[pos'];
        forall i | 0 <= i < pos ensures Before(active[i].time, next.time) {
          BeforeBoth(list[i].time, at, old(t.added), next.time, next.added);
        }
        if pos' == pos + 1 {
          NextInTurn(pos);
          BeforeOlder(t.time, t.added, next.time, next.added);
        }
      }
    }

    lemma NextInTurn(pos: nat)
      requires Valid() && pos < |active|
      ensures forall i :: 0 <= i < |active| ==> active[i].added < clock && (i != pos ==> active[i] != active[pos])
      ensures pos + 1 < |active| ==>
                InOrder(active[pos].time, active[pos].added, active[pos + 1].time, active[pos + 1].added)
    {
    }

    /** The loop of tmr_run, which stops at the end or at the first timer that is not due. */
    method FireDue(now: Timeval) returns (fired: seq<Firing<Timer>>, ghost pos: nat)
      requires Valid() && Normalised(now)
      requires forall x :: x in active && x.periodic ==> x.usecs > 0
      modifies this, active`prev, active`next, active`time, active`added
      ensures Valid() && All() == old(All())
      ensures Books(old(active), old(Snapshot(active)), old(clock), fired, now, pos)
      ensures pos < |active| ==> Before(now, active[pos].time)
      ensures forall x :: x in free <==> x in old(free) || (x in old(active) && x !in active)
      ensures fired == [] ==> active == old(active) && free == old(free)
    {
      hide Before, Linked, Chained, AllNear, Sorted, Stamped, DueSum, Normalised, Books, Snapshot;
      ghost var start := active;
      ghost var stands := Snapshot(active);
      ghost var first := clock;
      pos := 0;
      fired := [];
      var t := timers;
      StartBooks(now);
      while t != null
        invariant Valid() && pos <= |active| && t == Nth(active, pos)
        invariant Books(start, stands, first, fired, now, pos)
        invariant forall x :: x in start && x.periodic ==> x.usecs > 0
        invariant All() == old(All())
        invariant fired == [] ==> active == start && free == old(free)
        decreases DueSum(TimesFrom(active, pos), now), t != null
      {
        var next := t.next;
        if Before(now, t.time) {
          break;
        }
        InBooks(start, stands, first, fired, now, pos);
        forall i | 0 <= i < |active| ensures active[i] in old(active) {
          assert active[i] in active;
        }
        fired, pos := OrderedRound(now, t, pos, start, stands, first, fired);
        InBooks(start, stands, first, fired, now, pos);
        t := next;
      }
      InBooks(start, stands, first, fired, now, pos);
      Accounted(active, free, start, old(free));
    }

    /**
     * tmr_run: `fired` lists the callbacks made, with the times the timers stood at. They are the one schedule there
     * is: a timer is fired if and only if it was due; a one-shot timer once, after which it is free; a periodic one
     * moves on by a period each time, and not more than one period past `now`. What is still due afterwards is
     * periodic and has been fired in this run. Nothing is fired early, and the callbacks come in the order of the
     * list. A timer that was not fired keeps its time and the number of its insertion, and any two such timers keep
     * their order; at equal times the ones put back stand behind them, in the order of their last callbacks.
     */
    method Run(now: Timeval) returns (fired: seq<Firing<Timer>>)
      requires Valid() && Normalised(now)
      requires forall x :: x in active && x.periodic ==> x.usecs > 0
      modifies this, active`prev, active`next, active`time, active`added
      ensures Valid() && All() == old(All())
      ensures forall x :: x in old(active) ==> Outcome(x, old(StandOf(x)), old(clock), fired, now)
      ensures forall x :: x in active ==>
                x in old(active) && (!Before(now, x.time) ==> x.periodic && Times(fired, x) > 0)
      ensures forall x :: x in free <==> x in old(free) || (x in old(active) && x !in active)
      ensures forall k :: 0 <= k < |fired| ==>
                && fired[k].timer in old(active) && !Before(now, fired[k].at)
                && CalledAt(fired, k, old(StandOf(fired[k].timer)))
      ensures forall i, j :: 0 <= i < j < |fired| ==> !Before(fired[j].at, fired[i].at)
      ensures forall x, m: nat ::
                x in old(active) && x.periodic && AfterLast(fired, x, m) && fired[m].timer.periodic ==>
                  x.added < fired[m].timer.added
      ensures fired == [] ==> active == old(active) && free == old(free)
      ensures forall x, y :: Precedes(old(active), x, y) && Times(fired, x) == Times(fired, y) == 0 ==>
                Precedes(active, x, y)
      ensures Schedule(fired, old(Snapshot(active)), old(clock), now)
      ensures clock == old(clock) + PutBack(fired, old(Snapshot(active)))
      ensures forall x :: x in old(active) ==>
                Stood(fired, old(Snapshot(active)), old(clock), x, x.periodic, x.usecs, x.time, x.added)
    {
      hide Valid, All, Before, Times, Total, Normalised, Sorted, Distinct, InOrder, Precedes, Schedule, Books, Snapshot,
           Outcome, Progress, Sound, CalledAt, PutBack, Account, Stood;
      ghost var start, stands, first := active, Snapshot(active), clock;
      StartOrder();
      StartSound();
      ghost var pos;
      fired, pos := FireDue(now);
      Scheduled(start, stands, first, fired, now, pos);
      InBooks(start, stands, first, fired, now, pos);
      AllServed(start, stands, first, fired, now, pos);
      Settled(start, stands, first, fired, now, pos);
      AllCalled(fired, stands, first, now);
      forall x, m: nat | x in start && AfterLast(fired, x, m)
        ensures x.periodic && fired[m].timer.periodic ==> x.added < fired[m].timer.added
      {
        LastInTurn(start, stands, first, fired, now, pos, x, m);
      }
      forall x, y | Precedes(start, x, y) && Times(fired, x) == Times(fired, y) == 0 ensures Precedes(active, x, y) {
        var i, j := PlacesOf(start, x, y);
        assert start[i] in start && start[j] in start;
        Untouched(start[i], stands[start[i]], first, fired, now);
        Untouched(start[j], stands[start[j]], first, fired, now);
        StillPrecedes(start[i], start[j]);
      }
    }

    lemma StartOrder()
      requires Valid()
      ensures forall i, j :: 0 <= i < j < |active| ==>
                active[i] != active[j]
                && InOrder(active[i].time, active[i].added, active[j].time, active[j].added)
    {
    }

    lemma StillPrecedes(x: Timer, y: Timer)
      requires Valid() && x in active && y in active && x != y && InOrder(x.time, x.added, y.time, y.added)
      ensures Precedes(active, x, y)
    {
      var i :| 0 <= i < |active| && active[i] == x;
      var j :| 0 <= j < |active| && active[j] == y;
      NotReversed(active, i, j);
    }

    lemma InProgress(start: seq<Timer>, stands: map<Timer, Stand>, first: nat, fired: seq<Firing<Timer>>,
                     now: Timeval, pos: nat)
      requires Valid() && Progress(start, stands, first, fired, now, pos)
      ensures pos <= |active| && clock == first + PutBack(fired, stands) && forall x :: x in active ==> x in start
      ensures pos < |active| ==>
                && active[pos] in start && active[pos] !in free && active[pos].next == Nth(active, pos + 1)
                && active[pos] in stands && Repeats(active[pos], stands) == active[pos].periodic
                && active[pos].time == TimeAfter(stands[active[pos]], Times(fired, active[pos]))
                && active[pos].added == Number(fired, active[pos], stands, first)
    {
      hide Chained, AllNear, Sorted, TimeAfter, Times, Number;
      if pos < |active| {
        assert active[pos] in active;
        var k :| 0 <= k < |start| && start[k] == active[pos];
        assert Account(start[k], stands, first, fired, now);
      }
    }

    lemma InBooks(start: seq<Timer>, stands: map<Timer, Stand>, first: nat, fired: seq<Firing<Timer>>,
                  now: Timeval, pos: nat)
      requires Valid() && Books(start, stands, first, fired, now, pos)
      ensures Progress(start, stands, first, fired, now, pos) && pos <= |active|
      ensures clock == first + PutBack(fired, stands)
      ensures forall x :: x in active ==> x in start
      ensures pos < |active| ==> active[pos].next == Nth(active, pos + 1)
    {
      hide Linked, Chained, AllNear, Sorted, Progress;
      InProgress(start, stands, first, fired, now, pos);
    }

    /** When the run stops, at the end or at a timer that is not due, every timer is accounted for. */
    lemma Settled(start: seq<Timer>, stands: map<Timer, Stand>, first: nat, fired: seq<Firing<Timer>>,
                  now: Timeval, pos: nat)
      requires Valid() && Progress(start, stands, first, fired, now, pos)
      requires pos < |active| ==> Before(now, active[pos].time)
      ensures forall k :: 0 <= k < |start| ==>
                Account(start[k], stands, first, fired, now)
                && (Times(fired, start[k]) > 0 <==> !Before(now, stands[start[k]].time))
      ensures forall x :: x in active ==>
                x in start && (!Before(now, x.time) ==> x.periodic && Times(fired, x) > 0)
      ensures forall k :: 0 <= k < |fired| ==> fired[k].timer in start && !Before(now, fired[k].at)
    {
      hide Linked, Chained, AllNear, Sorted, Before, Times, TimeAfter, Number;
      forall i | 0 <= i < |active| && !Before(now, active[i].time)
        ensures active[i].periodic && Times(fired, active[i]) > 0
      {
        LaterThanNow(active, pos, i, now);
      }
      forall k | 0 <= k < |start| && Times(fired, start[k]) == 0 ensures Before(now, stands[start[k]].time) {
        var x := start[k];
        assert Account(x, stands, first, fired, now);
        StoodStill(fired, stands, first, x, x.periodic, x.usecs, x.time, x.added);
      }
    }

    lemma LaterThanNow(list: seq<Timer>, pos: nat, i: nat, now: Timeval)
      requires Sorted(list) && i < |list| && (pos < |list| ==> Before(now, list[pos].time))
      ensures pos <= i ==> Before(now, list[i].time)
    {
    }

    lemma StartBooks(now: Timeval)
      requires Valid()
      ensures Books(active, Snapshot(active), clock, [], now, 0)
    {
    }

    /** The callbacks of a run that has stopped are a schedule. */
    lemma Scheduled(start: seq<Timer>, stands: map<Timer, Stand>, first: nat, fired: seq<Firing<Timer>>,
                    now: Timeval, pos: nat)
      requires Valid() && Books(start, stands, first, fired, now, pos) && stands.Keys == (set x | x in start)
      requires pos < |active| ==> Before(now, active[pos].time)
      ensures Schedule(fired, stands, first, now)
    {
      hide Before, Times, TimeAfter, Number, Valid, Progress, InTurn, NoneTwice, OwnTime, Overtaken;
      Settled(start, stands, first, fired, now, pos);
      forall x | x in stands
        ensures Times(fired, x) > 0 <==> !Before(now, stands[x].time)
        ensures !stands[x].periodic ==> Times(fired, x) <= 1
        ensures stands[x].periodic && !Before(now, TimeAfter(stands[x], Times(fired, x))) ==>
                  Overtaken(fired, x, TimeAfter(stands[x], Times(fired, x)))
      {
        var k :| 0 <= k < |start| && start[k] == x;
        assert Account(start[k], stands, first, fired, now);
        if stands[x].periodic && !Before(now, TimeAfter(stands[x], Times(fired, x))) {
          var i :| 0 <= i < |active| && active[i] == x;
          DueBefore(pos, i, now);
        }
      }
    }

    lemma StartSound()
      requires Valid() && forall x :: x in active && x.periodic ==> x.usecs > 0
      ensures Snapshot(active).Keys == (set x | x in active)
      ensures forall s :: s in Snapshot(active).Values ==> Sound(s, clock)
      ensures forall k :: 0 <= k < |active| ==>
                active[k] in Snapshot(active) && Snapshot(active)[active[k]] == StandOf(active[k])
    {
      forall k | 0 <= k < |active| ensures Sound(StandOf(active[k]), clock) {
        assert active[k] in active;
      }
    }

    /** What became of each timer when the run has stopped. */
    lemma AllServed(start: seq<Timer>, stands: map<Timer, Stand>, first: nat, fired: seq<Firing<Timer>>,
                    now: Timeval, pos: nat)
      requires Valid() && Normalised(now) && Progress(start, stands, first, fired, now, pos)
      requires Schedule(fired, stands, first, now) && (pos < |active| ==> Before(now, active[pos].time))
      requires stands.Keys == (set x | x in start) && forall s :: s in stands.Values ==> Sound(s, first)
      ensures forall k :: 0 <= k < |start| ==>
                var x := start[k];
                Outcome(x, stands[x], first, fired, now)
                && Stood(fired, stands, first, x, x.periodic, x.usecs, x.time, x.added)
    {
      hide Valid, Progress, Before, Times, Total, Normalised, Schedule, Number, TimeAfter, Sound;
      Settled(start, stands, first, fired, now, pos);
      forall k | 0 <= k < |start| ensures Outcome(start[k], stands[start[k]], first, fired, now) {
        assert Account(start[k], stands, first, fired, now);
        Served(fired, stands, first, now, start[k]);
      }
    }

    lemma Untouched(x: Timer, s: Stand, first: nat, fired: seq<Firing<Timer>>, now: Timeval)
      requires Outcome(x, s, first, fired, now) && Times(fired, x) == 0
      ensures x in active && x.time == s.time && x.added == s.added
    {
    }

    /** Timers that were put back are numbered in the order of their last callbacks. */
    lemma LastInTurn(start: seq<Timer>, stands: map<Timer, Stand>, first: nat, fired: seq<Firing<Timer>>,
                     now: Timeval, pos: nat, x: Timer, m: nat)
      requires Progress(start, stands, first, fired, now, pos) && AfterLast(fired, x, m) && x in start
      requires stands.Keys == (set x | x in start) && forall s :: s in stands.Values ==> Sound(s, first)
      ensures x.periodic && fired[m].timer.periodic ==> x.added < fired[m].timer.added
    {
      hide Before, Times, TimeAfter, Number;
      var i :| 0 <= i < |start| && start[i] == x;
      var y := fired[m].timer;
      var j :| 0 <= j < |start| && start[j] == y;
      assert Account(start[i], stands, first, fired, now) && Account(start[j], stands, first, fired, now);
      if x.periodic && y.periodic {
        SoundAt(stands, first, x);
        LaterNumber(fired, x, m, stands, first);
      }
    }

    lemma DueBefore(pos: nat, i: nat, now: Timeval)
      requires Valid() && i < |active| && !Before(now, active[i].time)
      requires pos < |active| ==> Before(now, active[pos].time)
      ensures i < pos
    {
      LaterThanNow(active, pos, i, now);
    }
  }

  /** `x` stands somewhere before `y`. */
  ghost predicate Precedes(list: seq<Timer>, x: Timer, y: Timer) {
    exists i, j :: 0 <= i < j < |list| && list[i] == x && list[j] == y
  }

  lemma PlacesOf(list: seq<Timer>, x: Timer, y: Timer) returns (i: nat, j: nat)
    requires Precedes(list, x, y)
    ensures i < j < |list| && list[i] == x && list[j] == y
  {
    i, j :| 0 <= i < j < |list| && list[i] == x && list[j] == y;
  }

  lemma NotReversed(list: seq<Timer>, i: nat, j: nat)
    requires Sorted(list) && i < |list| && j < |list|
    requires InOrder(list[i].time, list[i].added, list[j].time, list[j].added)
    ensures i <= j
  {
  }

  ghost function StandOf(x: Timer): Stand
    reads x
  {
    Stand(x.periodic, x.usecs, x.time, x.added)
  }

  ghost function Snapshot(list: seq<Timer>): map<Timer, Stand>
    reads list
  {
    map x | x in list :: StandOf(x)
  }

  /**
   * `x`, with these fields, stands where its callbacks put it. It was due if it was fired at all; it is active,
   * or it is a one-shot timer that was fired once, and free.
   */
  predicate Booked(fired: seq<Firing<Timer>>, stands: map<Timer, Stand>, first: nat, now: Timeval, x: Timer,
                   periodic: bool, usecs: int, time: Timeval, added: nat, isActive: bool, isFree: bool)
  {
    Stood(fired, stands, first, x, periodic, usecs, time, added)
    && var n := Times(fired, x);
       && (n > 0 ==> !Before(now, stands[x].time))
       && (n == 0 || periodic ==> isActive)
       && (!periodic ==> n <= 1 && (n == 1 ==> isFree))
  }

  lemma BookedMore(fired: seq<Firing<Timer>>, t: Timer, at: Timeval, stands: map<Timer, Stand>, first: nat,
                   now: Timeval, x: Timer, periodic: bool, usecs: int,
                   time: Timeval, added: nat, isActive: bool, isFree: bool,
                   time': Timeval, added': nat, isActive': bool, isFree': bool)
    requires Booked(fired, stands, first, now, x, periodic, usecs, time, added, isActive, isFree)
    requires x == t ==> at == time && isActive && !isFree && !Before(now, at)
    requires time' == if x == t && periodic then AddUsecs(time, usecs) else time
    requires added' == if x == t && periodic then first + PutBack(fired, stands) else added
    requires isActive' == (isActive && (x != t || periodic)) && isFree' == (isFree || (x == t && !periodic))
    ensures Booked(fired + [Firing(t, at)], stands, first, now, x, periodic, usecs, time', added', isActive', isFree')
  {
    hide Before, Times, AddUsecs, Stood, PutBack;
    TimesMore(fired, t, at);
    StoodMore(fired, t, at, stands, first, x, periodic, usecs, time, added, time', added');
    if Times(fired, x) == 0 {
      StoodStill(fired, stands, first, x, periodic, usecs, time, added);
    }
  }

  lemma IsDue(time: Timeval, now: Timeval)
    requires Near(time) && Normalised(now) && !Before(now, time)
    ensures Due(time, now) > 0
  {
    RankOrders(now, time);
  }

  lemma TimesFirst(list: seq<Timer>, pos: nat)
    requires pos < |list|
    ensures forall now ::
              DueSum(TimesFrom(list, pos), now) == Due(list[pos].time, now) + DueSum(TimesFrom(list, pos + 1), now)
  {
    assert TimesFrom(list, pos)[1..] == TimesFrom(list, pos + 1);
  }

  /** What is known of a list whose timer at `pos` is about to be fired. */
  lemma FiringFrom(list: seq<Timer>, pos: nat, t: Timer)
    requires pos < |list| && Distinct(list) && list[pos] == t
    ensures |Removed(list, pos)| == |list| - 1
    ensures forall x :: x in Removed(list, pos) <==> x in list && x != t
    ensures |TimesFrom(list, pos + 1)| == |list| - pos - 1
    ensures forall i :: pos < i < |list| ==> list[i] != t && list[i].time == TimesFrom(list, pos + 1)[i - pos - 1]
    ensures forall now :: DueSum(TimesFrom(list, pos), now) == Due(t.time, now) + DueSum(TimesFrom(list, pos + 1), now)
  {
    RemovedMembers(list, pos);
    RemovedAt(list, pos, 0);
    TimesFirst(list, pos);
  }

  /** A timer that is due becomes less so when its time moves on. */
  lemma DueSooner(was: Timeval, later: Timeval, now: Timeval)
    requires Near(was) && Near(later) && Normalised(now) && Before(was, later) && !Before(now, was)
    ensures Due(later, now) < Due(was, now)
  {
    RankOrders(was, later);
    RankOrders(now, was);
  }

  lemma TimesLeft(list: seq<Timer>, pos: nat, later: seq<Timeval>)
    requires pos < |list| && |later| == |list| - pos - 1
    requires forall i :: pos < i < |list| ==> list[i].time == later[i - pos - 1]
    ensures |Removed(list, pos)| == |list| - 1 && TimesFrom(Removed(list, pos), pos) == later
    ensures Nth(Removed(list, pos), pos) == Nth(list, pos + 1)
  {
    forall i | pos < i < |list| ensures Removed(list, pos)[i - 1] == list[i] {
      RemovedAt(list, pos, i - 1);
    }
  }

  lemma TimesMoved(list: seq<Timer>, pos: nat, j: nat, t: Timer, later: seq<Timeval>, now: Timeval)
    requires pos <= j < |list| && |later| == |list| - pos - 1
    requires forall i :: pos < i < |list| ==> list[i].time == later[i - pos - 1]
    ensures var moved := Inserted(Removed(list, pos), j, t);
            var pos' := if j == pos then pos + 1 else pos;
            |moved| == |list| && Nth(moved, pos') == Nth(list, pos + 1)
            && DueSum(TimesFrom(moved, pos'), now) <= DueSum(later, now) + Due(t.time, now)
  {
    TimesLeft(list, pos, later);
    var rest := Removed(list, pos);
    var moved := Inserted(rest, j, t);
    if j == pos {
      assert TimesFrom(moved, pos + 1) == later;
    } else {
      DueSumInsert(later, j - pos, t.time, now);
      assert TimesFrom(moved, pos) == later[..j - pos] + [t.time] + later[j - pos..];
    }
  }

  /** All that is to say about a list in which the timer at `pos` has moved to `j`. */
  lemma MovedOn(list: seq<Timer>, pos: nat, j: nat, t: Timer, later: seq<Timeval>, now: Timeval)
    requires pos <= j < |list| && |later| == |list| - pos - 1 && Distinct(list) && list[pos] == t
    requires forall i :: pos < i < |list| ==> list[i].time == later[i - pos - 1]
    ensures |Removed(list, pos)| == |list| - 1
    ensures var moved := Inserted(Removed(list, pos), j, t);
            var pos' := if j == pos then pos + 1 else pos;
            && |moved| == |list| && Nth(moved, pos') == Nth(list, pos + 1)
            && DueSum(TimesFrom(moved, pos'), now) <= DueSum(later, now) + Due(t.time, now)
            && (forall i :: 0 <= i < pos ==> moved[i] == list[i]) && (j == pos ==> moved[pos] == t)
            && (forall x :: x in moved <==> x in list)
  {
    hide Distinct, DueSum, TimesFrom, Due, Inserted, Removed;
    RemovedAt(list, pos, 0);
    TimesMoved(list, pos, j, t, later, now);
    PrefixKept(list, pos, j, t);
    RemovedMembers(list, pos);
    InsertedMembers(Removed(list, pos), j, t);
    assert t in list;
  }

  lemma PrefixLeft(list: seq<Timer>, pos: nat)
    requires pos < |list|
    ensures pos <= |Removed(list, pos)| && forall i :: 0 <= i < pos ==> Removed(list, pos)[i] == list[i]
  {
  }

  lemma PrefixKept(list: seq<Timer>, pos: nat, j: nat, t: Timer)
    requires pos <= j < |list|
    ensures var moved := Inserted(Removed(list, pos), j, t);
            pos < |moved| && (forall i :: 0 <= i < pos ==> moved[i] == list[i]) && (j == pos ==> moved[pos] == t)
  {
  }

  /** How far a time lies in the past of `now`, counting from one. */
  function Due(time: Timeval, now: Timeval): nat {
    if Rank(time) <= Rank(now) then Rank(now) - Rank(time) + 1 else 0
  }

  function DueSum(times: seq<Timeval>, now: Timeval): nat {
    if times == [] then 0 else Due(times[0], now) + DueSum(times[1..], now)
  }

  lemma {:induction false} DueSumInsert(times: seq<Timeval>, k: nat, t: Timeval, now: Timeval)
    requires k <= |times|
    ensures DueSum(times[..k] + [t] + times[k..], now) == DueSum(times, now) + Due(t, now)
  {
    var more := times[..k] + [t] + times[k..];
    if k == 0 {
      assert more[1..] == times;
    } else {
      DueSumInsert(times[1..], k - 1, t, now);
      assert more[0] == times[0];
      assert more[1..] == times[1..][..k - 1] + [t] + times[1..][k - 1..];
    }
  }

  ghost function TimesFrom(list: seq<Timer>, pos: nat): (ts: seq<Timeval>)
    requires pos <= |list|
    reads list
    ensures |ts| == |list| - pos && forall i :: 0 <= i < |ts| ==> ts[i] == list[pos + i].time
  {
    seq(|list| - pos, i requires 0 <= i < |list| - pos reads list => list[pos + i].time)
  }

  lemma LaterPlace(rest: seq<Timer>, pos: nat, j: nat, was: Timeval, later: Timeval)
    requires pos <= |rest| && j <= |rest| && Before(was, later)
    requires forall i :: 0 <= i < pos ==> !Before(was, rest[i].time)
    requires j < |rest| ==> Before(later, rest[j].time)
    ensures pos <= j
  {
  }

  function Wait(time: Timeval, now: Timeval): nat {
    if Total(time) <= Total(now) then 0 else Total(time) - Total(now)
  }

  lemma EarlierBefore(list: seq<Timer>, pos: nat)
    requires pos < |list| && Sorted(list) && Distinct(list)
    ensures pos <= |Removed(list, pos)| == |list| - 1
    ensures forall i :: 0 <= i < pos ==>
              Removed(list, pos)[i] == list[i] != list[pos] && !Before(list[pos].time, list[i].time)
  {
  }

  lemma ChainedTail(list: seq<Timer>)
    requires Chained(list) && list != []
    ensures Chained(list[1..]) && list[0].next == Nth(list[1..], 0) && list[0] !in list[1..]
  {
  }

  lemma ChainedMore(t: Timer, list: seq<Timer>)
    requires Chained(list) && t !in list && t.prev == null && t.next == Nth(list, 0)
    ensures Chained([t] + list)
  {
    var more := [t] + list;
    forall i | 0 <= i < |more| ensures more[i].next == Nth(more, i + 1) && more[i].prev == null {
      assert i > 0 ==> more[i] == list[i - 1];
    }
  }

  lemma NearInserted(list: seq<Timer>, k: nat, t: Timer)
    requires k <= |list| && AllNear(list) && Near(t.time)
    ensures AllNear(Inserted(list, k, t))
  {
  }

  lemma NearRemoved(list: seq<Timer>, k: nat)
    requires k < |list| && AllNear(list)
    ensures AllNear(Removed(list, k))
  {
  }

  lemma RemovedMembers(list: seq<Timer>, k: nat)
    requires k < |list| && Distinct(list)
    ensures forall t :: t in Removed(list, k) <==> t in list && t != list[k]
  {
    var less := Removed(list, k);
    forall t | t in list && t != list[k] ensures t in less {
      var i :| 0 <= i < |list| && list[i] == t;
      assert if i < k then less[i] == t else less[i - 1] == t;
    }
    forall i | 0 <= i < |less| ensures less[i] in list && less[i] != list[k] {
      assert less[i] == if i < k then list[i] else list[i + 1];
    }
  }

  lemma InsertedMembers(list: seq<Timer>, k: nat, t: Timer)
    requires k <= |list|
    ensures forall x :: x in Inserted(list, k, t) <==> x in list || x == t
  {
    var more := Inserted(list, k, t);
    assert more[k] == t;
    forall x | x in list ensures x in more {
      var i :| 0 <= i < |list| && list[i] == x;
      assert more[if i < k then i else i + 1] == x;
    }
  }
}

/** What the calls of a driver come to, over whole runs: how long they try, and what they leave. */
module SwfwHistory {
  import opened SwfwSync

  /**
   * A driver's call so far: what it held when it made the call, the mask, and whether it acquires; the reads of
   * SWSM in a row that found SMBI set, and that found SWESMBI not set; the reads of GSSR that found the resource
   * in use; and whether it has written GSSR.
   */
  datatype Record = Record(held: Bits, mask: Bits, acquire: bool, polls: nat, checks: nat, busy: nat, wrote: bool)

  const NO_CALL := Record({}, {}, false, 0, 0, 0, false)

  function NextRecord(r: Record, s: State, a: Action, d: nat): Record
    requires Enabled(s, a) && d < |s.drivers|
  {
    match a
    case CallAcquire(e, mask) => if e == d then Record(s.drivers[d].held, mask, true, 0, 0, 0, false) else r
    case CallRelease(e, mask) => if e == d then Record(s.drivers[d].held, mask, false, 0, 0, 0, false) else r
    case Step(e) =>
      if e != d then r
      else
        (match s.drivers[d].pc
         case PollSmbi(_, _) => r.(polls := if s.swsm.smbi then r.polls + 1 else 0, checks := 0)
         case CheckGrant(_, _) => r.(checks := if s.swsm.swesmbi then 0 else r.checks + 1)
         case ReadGssr(_) => r.(busy := if s.gssr * (r.mask + FirmwareMask(r.mask)) != {} then r.busy + 1 else r.busy)
         case WriteGssr(_, _) => r.(wrote := true)
         case _ => r)
    case _ => r
  }

  /** The record after a run. */
  function Recall(s: State, actions: seq<Action>, d: nat, r: Record): Record
    requires Possible(s, actions) && d < |s.drivers|
    decreases |actions|
  {
    if actions == [] then r
    else
      SameDrivers(s, actions[0]);
      Recall(Apply(s, actions[0]), actions[1..], d, NextRecord(r, s, actions[0], d))
  }

  lemma SameDrivers(s: State, a: Action)
    requires Enabled(s, a)
    ensures |Apply(s, a).drivers| == |s.drivers|
  {
  }

  /** The driver stands where its record says. */
  predicate Remembers(driver: Driver, r: Record) {
    var pc := driver.pc;
    !pc.Idle? ==>
      && pc.call.Acquire? == r.acquire && pc.call.mask == r.mask
      && (pc.call.Acquire? ==>
            pc.call.tries >= 1
            && pc.call.tries + r.busy == ACQUIRE_TRIES + if pc.BusyRead? || pc.BusyWrite? then 1 else 0)
      && (pc.BusyRead? || pc.BusyWrite? ==> pc.call.Acquire?)
      && (if pc.PollSmbi? then pc.i == r.polls < SEMAPHORE_POLLS else r.acquire ==> r.polls == 0)
      && (pc.ReadRequest? || pc.WriteRequest? || pc.CheckGrant? ==> pc.i == r.checks < SEMAPHORE_POLLS)
      && (pc.GiveUpRead? || pc.GiveUpWrite? ==> r.checks == SEMAPHORE_POLLS)
      && (r.wrote <==> pc.DoneRead? || pc.DoneWrite?)
      && driver.held == (if !r.wrote then r.held else if r.acquire then r.held + r.mask else r.held - r.mask)
  }

  lemma StepRemembers(s: State, a: Action, d: nat, r: Record)
    requires Enabled(s, a) && d < |s.drivers| && Remembers(s.drivers[d], r)
    ensures d < |Apply(s, a).drivers| && Remembers(Apply(s, a).drivers[d], NextRecord(r, s, a, d))
  {
    if a.Step? {
      if a.d == d {
        OwnStepRemembers(s, d, r);
      }
    }
  }

  lemma OwnStepRemembers(s: State, d: nat, r: Record)
    requires Enabled(s, Step(d)) && Remembers(s.drivers[d], r)
    ensures Remembers(DriverStep(s, d).drivers[d], NextRecord(r, s, Step(d), d))
  {
  }

  lemma {:induction false} RunRemembers(s: State, actions: seq<Action>, d: nat, r: Record)
    requires Possible(s, actions) && d < |s.drivers| && Remembers(s.drivers[d], r)
    ensures var t := Outcome(s, actions);
            |t.drivers| == |s.drivers| && Remembers(t.drivers[d], Recall(s, actions, d, r))
    decreases |actions|
  {
    hide Remembers, NextRecord, Apply, Enabled;
    if actions != [] {
      SameDrivers(s, actions[0]);
      StepRemembers(s, actions[0], d, r);
      RunRemembers(Apply(s, actions[0]), actions[1..], d, NextRecord(r, s, actions[0], d));
    }
  }

  /**
   * When a call returns: an acquisition that has written GSSR holds the resources in addition, a release no longer
   * holds them. An acquisition returns without having written only after exactly 2000 reads in a row that found
   * SMBI set, or exactly 2000 that found SWESMBI not set, or exactly 200 reads that found the resource in use, and
   * it leaves what the driver holds as it was. A release always writes.
   */
  lemma CallReturns(s: State, actions: seq<Action>, d: nat)
    requires Initial(s) && Possible(s, actions) && d < |s.drivers|
    requires var t := Outcome(s, actions);
             Enabled(t, Step(d)) && Apply(t, Step(d)).drivers[d].pc.Idle?
    ensures var t := Outcome(s, actions);
            var r, held := NextRecord(Recall(s, actions, d, NO_CALL), t, Step(d), d), Apply(t, Step(d)).drivers[d].held;
            && (r.wrote ==> held == if r.acquire then r.held + r.mask else r.held - r.mask)
            && (!r.wrote ==> r.acquire && held == r.held)
            && (!r.wrote ==> r.polls == 2000 || r.checks == 2000 || r.busy == 200)
  {
    hide Possible, Outcome, Recall;
    RunRemembers(s, actions, d, NO_CALL);
  }

  /** Until then the call goes on: no limit has been reached. */
  lemma CallGoesOn(s: State, actions: seq<Action>, d: nat)
    requires Initial(s) && Possible(s, actions) && d < |s.drivers|
    requires var drivers := Outcome(s, actions).drivers;
             d < |drivers| && !drivers[d].pc.Idle? && drivers[d].pc.call.Acquire?
    ensures var r := Recall(s, actions, d, NO_CALL);
            var pc := Outcome(s, actions).drivers[d].pc;
            && r.acquire && r.polls < 2000 && r.busy <= 200
            && (r.busy == 200 ==> pc.BusyRead? || pc.BusyWrite?)
  {
    hide Possible, Outcome, Recall;
    RunRemembers(s, actions, d, NO_CALL);
  }
}

/**
 * The software/firmware semaphore of the ixgbe driver: several drivers and the firmware take turns,
 * one register access at a time.
 */
module SwfwSync {

  /** Polls of SWSM in ixgbe_get_eeprom_semaphore, and tries in ixgbe_acquire_swfw_sync. */
  const SEMAPHORE_POLLS: nat := 2000
  const ACQUIRE_TRIES: nat := 200

  /** The resources of GSSR: EEPROM, PHY0, PHY1, MAC CSR, flash. Firmware's bits stand five higher. */
  const RESOURCES: nat := 5

  type Bits = set<nat>

  predicate IsMask(m: Bits) {
    forall b :: b in m ==> b < RESOURCES
  }

  /** mask << 5 */
  function FirmwareMask(m: Bits): Bits {
    set b | b in m :: b + RESOURCES
  }

  datatype Swsm = Swsm(smbi: bool, swesmbi: bool)

  /** The call in which ixgbe_get_eeprom_semaphore was made. */
  datatype Call = Acquire(mask: Bits, tries: nat) | Release(mask: Bits)

  /** The next register access of a driver, with the values it holds in local variables. */
  datatype Pc =
    | Idle
    | PollSmbi(call: Call, i: nat)
    | ReadRequest(call: Call, i: nat)
    | WriteRequest(call: Call, i: nat, swsm: Swsm)
    | CheckGrant(call: Call, i: nat)
    | GiveUpRead(call: Call)
    | GiveUpWrite(call: Call)
    | ReadGssr(call: Call)
    | WriteGssr(call: Call, gssr: Bits)
    | BusyRead(call: Call)
    | BusyWrite(call: Call)
    | DoneRead(call: Call)
    | DoneWrite(call: Call)

  /** `held` is what the driver has set in GSSR and not yet cleared. */
  datatype Driver = Driver(pc: Pc, held: Bits)

  /** Firmware has its own half of the semaphore while it is not idle. */
  datatype Firmware = Away | Inside | Modify(gssr: Bits)

  datatype State = State(swsm: Swsm, gssr: Bits, drivers: seq<Driver>, firmware: Firmware, fwBits: Bits)

  datatype Action =
    | CallAcquire(d: nat, mask: Bits)
    | CallRelease(d: nat, mask: Bits)
    | Step(d: nat)
    | FwEnter
    | FwRead
    | FwWrite(bits: Bits)
    | FwLeave

  // ---- Hardware ----

  /** Reading SWSM sets SMBI as a side effect. */
  function AfterRead(w: Swsm): Swsm {
    w.(smbi := true)
  }

  /** SWESMBI can be set only while firmware is away. */
  function AfterWrite(written: Swsm, firmware: Firmware): Swsm {
    written.(swesmbi := written.swesmbi && firmware.Away?)
  }

  const CLEARED := Swsm(false, false)

  // ---- Drivers ----

  predicate Enabled(s: State, a: Action) {
    match a
    case CallAcquire(d, mask) => d < |s.drivers| && s.drivers[d].pc.Idle? && IsMask(mask)
    case CallRelease(d, mask) => d < |s.drivers| && s.drivers[d].pc.Idle? && mask <= s.drivers[d].held
    case Step(d) => d < |s.drivers| && !s.drivers[d].pc.Idle?
    case FwEnter => s.firmware.Away? && !s.swsm.swesmbi
    case FwRead => s.firmware.Inside?
    case FwWrite(bits) => s.firmware.Modify? && forall b :: b in bits ==> RESOURCES <= b < 2 * RESOURCES
    case FwLeave => s.firmware.Inside?
  }

  function SetPc(s: State, d: nat, pc: Pc): State
    requires d < |s.drivers|
  {
    s.(drivers := s.drivers[d := s.drivers[d].(pc := pc)])
  }

  /** Where a driver goes on when the semaphore was not granted; ixgbe_release_swfw_sync does not look. */
  function NotGranted(call: Call): Pc {
    match call
    case Acquire(_, _) => Idle
    case Release(_) => ReadGssr(call)
  }

  /** One register access of driver `d`. */
  function DriverStep(s: State, d: nat): State
    requires d < |s.drivers| && !s.drivers[d].pc.Idle?
  {
    var me := s.drivers[d];
    var seen := s.(swsm := AfterRead(s.swsm));
    match me.pc
    case PollSmbi(call, i) =>
      if !s.swsm.smbi then SetPc(seen, d, ReadRequest(call, 0))
      else if i + 1 < SEMAPHORE_POLLS then SetPc(seen, d, PollSmbi(call, i + 1))
      else SetPc(seen, d, NotGranted(call))
    case ReadRequest(call, i) =>
      SetPc(seen, d, WriteRequest(call, i, s.swsm))
    case WriteRequest(call, i, w) =>
      SetPc(s.(swsm := AfterWrite(w.(swesmbi := true), s.firmware)), d, CheckGrant(call, i))
    case CheckGrant(call, i) =>
      if s.swsm.swesmbi then SetPc(seen, d, ReadGssr(call))
      else if i + 1 < SEMAPHORE_POLLS then SetPc(seen, d, ReadRequest(call, i + 1))
      else SetPc(seen, d, GiveUpRead(call))
    case GiveUpRead(call) => SetPc(seen, d, GiveUpWrite(call))
    case GiveUpWrite(call) =>
      SetPc(s.(swsm := CLEARED), d, NotGranted(call))
    case ReadGssr(call) =>
      if call.Acquire? && s.gssr * (call.mask + FirmwareMask(call.mask)) != {}
      then SetPc(s, d, BusyRead(call))
      else SetPc(s, d, WriteGssr(call, s.gssr))
    case WriteGssr(call, gssr) =>
      var written := if call.Acquire? then gssr + call.mask else gssr - call.mask;
      var held := if call.Acquire? then me.held + call.mask else me.held - call.mask;
      s.(gssr := written, drivers := s.drivers[d := Driver(DoneRead(call), held)])
    case BusyRead(call) => SetPc(seen, d, BusyWrite(call))
    case BusyWrite(call) =>
      SetPc(s.(swsm := CLEARED), d,
            if call.Acquire? && call.tries > 1 then PollSmbi(Acquire(call.mask, call.tries - 1), 0) else Idle)
    case DoneRead(call) => SetPc(seen, d, DoneWrite(call))
    case DoneWrite(call) => SetPc(s.(swsm := CLEARED), d, Idle)
  }

  function Apply(s: State, a: Action): State
    requires Enabled(s, a)
  {
    match a
    case CallAcquire(d, mask) => SetPc(s, d, PollSmbi(Acquire(mask, ACQUIRE_TRIES), 0))
    case CallRelease(d, mask) => SetPc(s, d, PollSmbi(Release(mask), 0))
    case Step(d) => DriverStep(s, d)
    case FwEnter => s.(firmware := Inside)
    case FwRead => s.(firmware := Modify(s.gssr))
    case FwWrite(bits) =>
      s.(gssr := (set b | b in s.firmware.gssr && b < RESOURCES) + bits, firmware := Inside, fwBits := bits)
    case FwLeave => s.(firmware := Away)
  }

  /** The step by which an acquisition inside ixgbe_release_swfw_sync fails unnoticed. */
  predicate ReleaseGoesOnWithout(s: State, a: Action)
    requires Enabled(s, a)
  {
    a.Step?
    && var pc := s.drivers[a.d].pc;
       (pc.PollSmbi? || pc.GiveUpWrite?) && Apply(s, a).drivers[a.d].pc.ReadGssr?
  }

  // ---- Runs ----

  predicate Initial(s: State) {
    s.swsm == CLEARED && s.gssr == {} && s.firmware == Away && s.fwBits == {}
    && forall d :: 0 <= d < |s.drivers| ==> s.drivers[d] == Driver(Idle, {})
  }

  /** Every action is possible, and no release goes on without the semaphore. */
  predicate Proper(s: State, actions: seq<Action>)
    decreases |actions|
  {
    actions == []
    || (Enabled(s, actions[0]) && !ReleaseGoesOnWithout(s, actions[0])
        && Proper(Apply(s, actions[0]), actions[1..]))
  }

  function Run(s: State, actions: seq<Action>): State
    requires Proper(s, actions)
    decreases |actions|
  {
    if actions == [] then s else Run(Apply(s, actions[0]), actions[1..])
  }

  // ---- The invariant ----

  /** The driver has SMBI. */
  predicate Among(pc: Pc) {
    !pc.Idle? && !pc.PollSmbi?
  }

  /** The driver has both halves of the semaphore. */
  predicate Granted(pc: Pc) {
    pc.ReadGssr? || pc.WriteGssr? || pc.BusyRead? || pc.BusyWrite? || pc.DoneRead? || pc.DoneWrite?
  }

  predicate SemaphoreInv(s: State) {
    (forall d, e ::
       (0 <= d < |s.drivers| && 0 <= e < |s.drivers| && Among(s.drivers[d].pc) && Among(s.drivers[e].pc)) ==> d == e)
    && (forall d :: 0 <= d < |s.drivers| && Among(s.drivers[d].pc) ==> s.swsm.smbi)
    && (forall d :: 0 <= d < |s.drivers| && Granted(s.drivers[d].pc) ==> s.swsm.swesmbi)
    && (forall d :: 0 <= d < |s.drivers| && s.drivers[d].pc.WriteRequest? ==> s.drivers[d].pc.swsm.smbi)
    && (s.swsm.swesmbi ==> s.firmware.Away?)
  }

  predicate CallInv(driver: Driver) {
    var pc := driver.pc;
    IsMask(driver.held)
    && (!pc.Idle? && pc.call.Acquire? ==> IsMask(pc.call.mask))
    && (!pc.Idle? && pc.call.Release? && !pc.DoneRead? && !pc.DoneWrite? ==> pc.call.mask <= driver.held)
    && (pc.BusyRead? || pc.BusyWrite? ==> pc.call.Acquire?)
  }

  predicate OwnersInv(s: State) {
    (forall d :: 0 <= d < |s.drivers| ==> CallInv(s.drivers[d]))
    && (forall d, e :: 0 <= d < e < |s.drivers| ==> s.drivers[d].held !! s.drivers[e].held)
    && (forall b :: b in s.gssr && b < RESOURCES ==> Owned(s, b))
    && (forall d :: 0 <= d < |s.drivers| ==> s.drivers[d].held <= s.gssr)
    && (forall b :: b in s.gssr && b >= RESOURCES ==> b in s.fwBits)
    && s.fwBits <= s.gssr && (forall b :: b in s.fwBits ==> b >= RESOURCES)
  }

  predicate Owned(s: State, b: nat) {
    exists d :: 0 <= d < |s.drivers| && b in s.drivers[d].held
  }

  /** The copy of GSSR that is about to be written back is still what the register holds. */
  predicate CopiesInv(s: State) {
    (forall d :: 0 <= d < |s.drivers| && s.drivers[d].pc.WriteGssr? ==>
       s.drivers[d].pc.gssr == s.gssr
       && (s.drivers[d].pc.call.Acquire? ==>
             s.gssr !! s.drivers[d].pc.call.mask && s.gssr !! FirmwareMask(s.drivers[d].pc.call.mask)))
    && (s.firmware.Modify? ==> s.firmware.gssr == s.gssr)
  }

  predicate Inv(s: State) {
    SemaphoreInv(s) && OwnersInv(s) && CopiesInv(s)
  }

  /** What one step of a driver means for the semaphore, given what held for that driver before. */
  lemma DriverStepFacts(s: State, d: nat)
    requires Enabled(s, Step(d)) && !ReleaseGoesOnWithout(s, Step(d))
    requires Among(s.drivers[d].pc) ==> s.swsm.smbi
    requires Granted(s.drivers[d].pc) ==> s.swsm.swesmbi
    requires s.drivers[d].pc.WriteRequest? ==> s.drivers[d].pc.swsm.smbi
    requires s.swsm.swesmbi ==> s.firmware.Away?
    ensures var s' := DriverStep(s, d);
            var pc, pc' := s.drivers[d].pc, s'.drivers[d].pc;
            (!Among(pc) ==> s'.swsm == AfterRead(s.swsm))
            && (!Among(pc) && Among(pc') ==> !s.swsm.smbi)
            && (Among(pc') ==> s'.swsm.smbi)
            && (Granted(pc') ==> s'.swsm.swesmbi)
            && (pc'.WriteRequest? ==> pc'.swsm.smbi)
            && (s'.swsm.swesmbi ==> s.firmware.Away?)
            && s'.firmware == s.firmware
  {
  }

  lemma StepKeepsSemaphore(s: State, a: Action)
    requires Enabled(s, a) && !ReleaseGoesOnWithout(s, a) && SemaphoreInv(s)
    ensures SemaphoreInv(Apply(s, a))
  {
    var s' := Apply(s, a);
    match a
    case Step(d) =>
      DriverStepFacts(s, d);
      DriverStepOthers(s, d);
      hide DriverStep, Granted, Among;
      if Among(s.drivers[d].pc) {
        assert forall e :: 0 <= e < |s.drivers| && e != d ==> !Among(s.drivers[e].pc);
        forall e | 0 <= e < |s.drivers| && e != d ensures !Granted(s.drivers[e].pc) && !s.drivers[e].pc.WriteRequest? {
          GrantedAmong(s.drivers[e].pc);
        }
      }
    case _ =>
  }

  lemma GrantedAmong(pc: Pc)
    ensures Granted(pc) || pc.WriteRequest? ==> Among(pc)
  {
  }

  lemma DriverStepOthers(s: State, d: nat)
    requires Enabled(s, Step(d))
    ensures var s' := DriverStep(s, d);
            |s'.drivers| == |s.drivers|
            && forall e :: 0 <= e < |s.drivers| && e != d ==> s'.drivers[e] == s.drivers[e]
  {
  }

  /** Outside the two writes of GSSR neither the register nor an owner changes. */
  lemma QuietStep(s: State, d: nat)
    requires d < |s.drivers| && !s.drivers[d].pc.Idle? && !s.drivers[d].pc.WriteGssr?
    ensures var s' := DriverStep(s, d);
            s'.gssr == s.gssr && s'.fwBits == s.fwBits && s'.firmware == s.firmware && |s'.drivers| == |s.drivers|
            && forall e :: 0 <= e < |s.drivers| ==>
                 s'.drivers[e].held == s.drivers[e].held && (e != d ==> s'.drivers[e] == s.drivers[e])
  {
  }

  /** An acquisition's write adds the caller's mask to GSSR and to what the caller holds; a release's removes it. */
  lemma WriteStep(s: State, d: nat)
    requires d < |s.drivers| && s.drivers[d].pc.WriteGssr? && Inv(s)
    ensures var s' := DriverStep(s, d);
            var call := s.drivers[d].pc.call;
            s'.gssr == (if call.Acquire? then s.gssr + call.mask else s.gssr - call.mask)
            && s'.drivers[d].held
               == (if call.Acquire? then s.drivers[d].held + call.mask else s.drivers[d].held - call.mask)
            && (call.Acquire? ==> s.gssr !! call.mask && s.gssr !! FirmwareMask(call.mask))
            && (call.Release? ==> call.mask <= s.drivers[d].held)
            && s'.fwBits == s.fwBits && s'.firmware == s.firmware
            && forall e :: 0 <= e < |s.drivers| && e != d ==> s'.drivers[e] == s.drivers[e]
  {
    assert CallInv(s.drivers[d]);
  }

  lemma StepKeepsCopies(s: State, a: Action)
    requires Enabled(s, a) && !ReleaseGoesOnWithout(s, a) && Inv(s)
    ensures CopiesInv(Apply(s, a))
  {
    var s' := Apply(s, a);
    match a
    case Step(d) =>
      var pc := s.drivers[d].pc;
      if pc.WriteGssr? {
        WriteStep(s, d);
        assert forall e :: 0 <= e < |s.drivers| && e != d ==> !Among(s.drivers[e].pc);
        assert !s.firmware.Modify?;
      } else {
        QuietStep(s, d);
        if pc.ReadGssr? && s'.drivers[d].pc.WriteGssr? && pc.call.Acquire? {
          var both := pc.call.mask + FirmwareMask(pc.call.mask);
          assert forall b :: b in both ==> b !in s.gssr * both;
        }
      }
    case FwWrite(_) =>
      assert forall e :: 0 <= e < |s.drivers| ==> !s.drivers[e].pc.WriteGssr?;
    case _ =>
  }

  lemma StepKeepsCalls(s: State, a: Action)
    requires Enabled(s, a) && !ReleaseGoesOnWithout(s, a) && Inv(s)
    ensures forall d :: 0 <= d < |s.drivers| ==> CallInv(Apply(s, a).drivers[d])
  {
    match a
    case CallAcquire(d, _) => assert CallInv(s.drivers[d]);
    case CallRelease(d, _) => assert CallInv(s.drivers[d]);
    case Step(d) =>
      assert CallInv(s.drivers[d]);
      DriverStepOthers(s, d);
      DriverStepCall(s, d);
      hide DriverStep, CallInv;
    case _ =>
  }

  lemma DriverStepCall(s: State, d: nat)
    requires Enabled(s, Step(d)) && CallInv(s.drivers[d])
    ensures CallInv(DriverStep(s, d).drivers[d])
  {
  }

  lemma StepKeepsOwners(s: State, a: Action)
    requires Enabled(s, a) && !ReleaseGoesOnWithout(s, a) && Inv(s)
    ensures OwnersInv(Apply(s, a))
  {
    var s' := Apply(s, a);
    StepKeepsCalls(s, a);
    match a
    case Step(d) =>
      if s.drivers[d].pc.WriteGssr? {
        WriteKeepsOwners(s, d);
      } else {
        QuietStep(s, d);
        SameOwners(s, s');
      }
    case FwWrite(_) =>
      assert s.firmware.gssr == s.gssr;
      FirmwareKeepsOwners(s, a);
    case _ => SameOwners(s, s');
  }

  lemma SameOwners(s: State, s': State)
    requires OwnersInv(s) && s'.gssr == s.gssr && s'.fwBits == s.fwBits && |s'.drivers| == |s.drivers|
    requires forall e :: 0 <= e < |s.drivers| ==> s'.drivers[e].held == s.drivers[e].held && CallInv(s'.drivers[e])
    ensures OwnersInv(s')
  {
    forall b | b in s'.gssr && b < RESOURCES ensures Owned(s', b) {
      var d :| 0 <= d < |s.drivers| && b in s.drivers[d].held;
      assert b in s'.drivers[d].held;
    }
  }

  lemma FirmwareKeepsOwners(s: State, a: Action)
    requires a.FwWrite? && Enabled(s, a) && Inv(s)
    ensures OwnersInv(Apply(s, a))
  {
    var s' := Apply(s, a);
    forall b | b in s'.gssr && b < RESOURCES ensures Owned(s', b) {
      assert Owned(s, b);
    }
    forall d | 0 <= d < |s.drivers| ensures s'.drivers[d].held <= s'.gssr {
      assert CallInv(s.drivers[d]);
    }
  }

  lemma WriteKeepsOwners(s: State, d: nat)
    requires d < |s.drivers| && s.drivers[d].pc.WriteGssr? && Inv(s)
    requires forall e :: 0 <= e < |s.drivers| ==> CallInv(DriverStep(s, d).drivers[e])
    ensures OwnersInv(DriverStep(s, d))
  {
    WriteStep(s, d);
    var s' := DriverStep(s, d);
    var call := s.drivers[d].pc.call;
    assert CallInv(s.drivers[d]);
    hide DriverStep, CallInv;
    forall b | b in s'.gssr && b < RESOURCES ensures Owned(s', b) {
      if b in call.mask {
        assert b in s'.drivers[d].held;
      } else {
        var e :| 0 <= e < |s.drivers| && b in s.drivers[e].held;
        assert b in s'.drivers[e].held;
      }
    }
  }

  // ---- Theorems ----

  lemma InitialInv(s: State)
    requires Initial(s)
    ensures Inv(s)
  {
  }

  lemma StepKeepsInv(s: State, a: Action)
    requires Enabled(s, a) && !ReleaseGoesOnWithout(s, a) && Inv(s)
    ensures Inv(Apply(s, a))
  {
    hide SemaphoreInv, OwnersInv, CopiesInv, Apply, Enabled, ReleaseGoesOnWithout;
    StepKeepsSemaphore(s, a);
    StepKeepsOwners(s, a);
    StepKeepsCopies(s, a);
  }

  lemma {:induction false} RunKeepsInv(s: State, actions: seq<Action>)
    requires Proper(s, actions) && Inv(s)
    ensures Inv(Run(s, actions))
    decreases |actions|
  {
    hide Inv, Apply, Enabled, ReleaseGoesOnWithout;
    if actions != [] {
      StepKeepsInv(s, actions[0]);
      RunKeepsInv(Apply(s, actions[0]), actions[1..]);
    }
  }

  /**
   * In every run: no resource bit has two owners, GSSR says exactly what the drivers and the firmware
   * have set (so no update was lost), and at most one party is between taking and giving back the semaphore.
   */
  lemma MutualExclusion(s: State, actions: seq<Action>)
    requires Initial(s) && Proper(s, actions)
    ensures var t := Run(s, actions);
            (forall d, e :: 0 <= d < e < |t.drivers| ==> t.drivers[d].held !! t.drivers[e].held)
            && (forall b: nat :: b < RESOURCES ==> (b in t.gssr <==> Owned(t, b)))
            && (forall b: nat :: b >= RESOURCES ==> (b in t.gssr <==> b in t.fwBits))
            && (forall d, e :: 0 <= d < e < |t.drivers| ==> !(Among(t.drivers[d].pc) && Among(t.drivers[e].pc)))
            && (forall d :: 0 <= d < |t.drivers| && Granted(t.drivers[d].pc) ==> t.firmware.Away?)
  {
    InitialInv(s);
    RunKeepsInv(s, actions);
  }

  /** The bits of GSSR that an action may change. */
  function Touched(s: State, a: Action): Bits
    requires Enabled(s, a)
  {
    match a
    case Step(d) => if s.drivers[d].pc.WriteGssr? then s.drivers[d].pc.call.mask else {}
    case FwWrite(bits) => s.fwBits + bits
    case _ => {}
  }

  /**
   * Whatever happens next in a run changes only the actor's own bits: an acquisition sets bits that were
   * free, also on the firmware's side; a release clears exactly its mask, all of it held by the caller.
   */
  lemma OnlyOwnBits(s: State, actions: seq<Action>, a: Action)
    requires Initial(s) && Proper(s, actions)
    requires Enabled(Run(s, actions), a)
    ensures var t := Run(s, actions);
            var t' := Apply(t, a);
            (forall b :: b !in Touched(t, a) ==> (b in t'.gssr <==> b in t.gssr))
            && (a.Step? && t.drivers[a.d].pc.WriteGssr? ==>
                  var call := t.drivers[a.d].pc.call;
                  match call
                  case Acquire(mask, _) =>
                    t.gssr !! mask && t.gssr !! FirmwareMask(mask)
                    && t'.gssr == t.gssr + mask && t'.drivers[a.d].held == t.drivers[a.d].held + mask
                  case Release(mask) =>
                    mask <= t.drivers[a.d].held
                    && t'.gssr == t.gssr - mask && t'.drivers[a.d].held == t.drivers[a.d].held - mask)
  {
    InitialInv(s);
    RunKeepsInv(s, actions);
    var t := Run(s, actions);
    match a
    case Step(d) => if t.drivers[d].pc.WriteGssr? { WriteStep(t, d); } else { QuietStep(t, d); }
    case _ =>
  }

  // ---- Firmware that looks before it takes ----

  /** The firmware sets a bit of its own only while software does not hold that resource. */
  predicate Polite(s: State, actions: seq<Action>)
    requires Proper(s, actions)
    decreases |actions|
  {
    actions == []
    || ((actions[0].FwWrite? ==> forall b :: b in actions[0].bits && b !in s.fwBits ==> b - RESOURCES !in s.gssr)
        && Polite(Apply(s, actions[0]), actions[1..]))
  }

  /** No resource is held by a driver and by the firmware. */
  predicate Apart(s: State) {
    forall b: nat :: b in s.gssr && b < RESOURCES ==> b + RESOURCES !in s.gssr
  }

  lemma PoliteStepKeepsApart(s: State, a: Action)
    requires Enabled(s, a) && !ReleaseGoesOnWithout(s, a) && Inv(s) && Apart(s)
    requires a.FwWrite? ==> forall b :: b in a.bits && b !in s.fwBits ==> b - RESOURCES !in s.gssr
    ensures Apart(Apply(s, a))
  {
    var s' := Apply(s, a);
    match a
    case Step(d) =>
      if s.drivers[d].pc.WriteGssr? {
        WriteStep(s, d);
        var call := s.drivers[d].pc.call;
        assert CallInv(s.drivers[d]);
        forall b: nat | b in s'.gssr && b < RESOURCES ensures b + RESOURCES !in s'.gssr {
          if b in call.mask && call.Acquire? {
            assert b + RESOURCES in FirmwareMask(call.mask);
          }
        }
      } else {
        QuietStep(s, d);
      }
    case FwWrite(bits) =>
      assert s.firmware.gssr == s.gssr;
      forall b: nat | b in s'.gssr && b < RESOURCES ensures b + RESOURCES !in s'.gssr {
        var f := b + RESOURCES;
        assert f in bits && f !in s.fwBits ==> f - RESOURCES !in s.gssr;
      }
    case _ =>
  }

  lemma {:induction false} RunKeepsApart(s: State, actions: seq<Action>)
    requires Proper(s, actions) && Polite(s, actions) && Inv(s) && Apart(s)
    ensures Apart(Run(s, actions))
    decreases |actions|
  {
    hide Inv, Apart, Apply, Enabled, ReleaseGoesOnWithout;
    if actions != [] {
      PoliteStepKeepsApart(s, actions[0]);
      StepKeepsInv(s, actions[0]);
      RunKeepsApart(Apply(s, actions[0]), actions[1..]);
    }
  }

  // ---- Why the unchecked acquisition matters ----

  /** Runs without the restriction on releases. */
  predicate Possible(s: State, actions: seq<Action>)
    decreases |actions|
  {
    actions == [] || (Enabled(s, actions[0]) && Possible(Apply(s, actions[0]), actions[1..]))
  }

  function Outcome(s: State, actions: seq<Action>): State
    requires Possible(s, actions)
    decreases |actions|
  {
    if actions == [] then s else Outcome(Apply(s, actions[0]), actions[1..])
  }

  /** SMBI stays set only as long as a driver has it. */
  predicate TakenInv(s: State) {
    s.swsm.smbi ==> exists d :: 0 <= d < |s.drivers| && Among(s.drivers[d].pc)
  }

  lemma StepKeepsTaken(s: State, a: Action)
    requires Enabled(s, a) && !ReleaseGoesOnWithout(s, a) && SemaphoreInv(s) && TakenInv(s)
    ensures TakenInv(Apply(s, a))
  {
    var s' := Apply(s, a);
    if s.swsm.smbi {
      var e :| 0 <= e < |s.drivers| && Among(s.drivers[e].pc);
      if a.Step? && a.d == e {
        assert s'.swsm.smbi ==> Among(s'.drivers[e].pc);
      } else {
        assert s'.drivers[e] == s.drivers[e];
      }
    } else if a.Step? {
      assert s'.swsm.smbi ==> Among(s'.drivers[a.d].pc);
    }
  }

  /** A step keeps the semaphore's discipline exactly when it is no release going on without the semaphore. */
  lemma StepExact(s: State, a: Action)
    requires Enabled(s, a) && SemaphoreInv(s) && TakenInv(s)
    ensures SemaphoreInv(Apply(s, a)) <==> !ReleaseGoesOnWithout(s, a)
  {
    if ReleaseGoesOnWithout(s, a) {
      UncheckedStep(s, a.d);
    } else {
      StepKeepsSemaphore(s, a);
    }
  }

  /** Such a release is among two drivers, or there without SMBI. */
  lemma UncheckedStep(s: State, d: nat)
    requires Enabled(s, Step(d)) && ReleaseGoesOnWithout(s, Step(d)) && SemaphoreInv(s) && TakenInv(s)
    ensures !SemaphoreInv(DriverStep(s, d))
  {
    var s' := DriverStep(s, d);
    assert Among(s'.drivers[d].pc);
    if s.drivers[d].pc.PollSmbi? {
      var e :| 0 <= e < |s.drivers| && Among(s.drivers[e].pc);
      assert e != d && s'.drivers[e] == s.drivers[e];
    } else {
      assert !s'.swsm.smbi;
    }
  }

  /** The discipline holds at the start and after every action. */
  predicate Disciplined(s: State, actions: seq<Action>)
    requires Possible(s, actions)
    decreases |actions|
  {
    SemaphoreInv(s) && (actions == [] || Disciplined(Apply(s, actions[0]), actions[1..]))
  }

  lemma {:induction false} DisciplinedIff(s: State, actions: seq<Action>)
    requires Possible(s, actions) && SemaphoreInv(s) && TakenInv(s)
    ensures Disciplined(s, actions) <==> Proper(s, actions)
    decreases |actions|
  {
    hide Enabled, Apply, ReleaseGoesOnWithout, SemaphoreInv, TakenInv;
    if actions != [] {
      var t := Apply(s, actions[0]);
      StepExact(s, actions[0]);
      if !ReleaseGoesOnWithout(s, actions[0]) {
        StepKeepsTaken(s, actions[0]);
        DisciplinedIff(t, actions[1..]);
      } else {
        assert !SemaphoreInv(t);
      }
    }
  }

  /** A run keeps the discipline throughout if and only if no release in it goes on without the semaphore. */
  lemma RunExact(s: State, actions: seq<Action>)
    requires Initial(s) && Possible(s, actions)
    ensures (forall k :: 0 <= k <= |actions| ==> Possible(s, actions[..k]) && SemaphoreInv(Outcome(s, actions[..k])))
            <==> Proper(s, actions)
  {
    InitialInv(s);
    hide Enabled, Apply, ReleaseGoesOnWithout, SemaphoreInv, Proper, Disciplined, Possible, Outcome;
    DisciplinedIff(s, actions);
    DisciplinedPrefixes(s, actions);
  }

  lemma {:induction false} PossiblePrefix(s: State, actions: seq<Action>, k: nat)
    requires Possible(s, actions) && k <= |actions|
    ensures Possible(s, actions[..k])
    decreases k
  {
    hide Enabled, Apply;
    if k > 0 {
      PossiblePrefix(Apply(s, actions[0]), actions[1..], k - 1);
      assert actions[..k][1..] == actions[1..][..k - 1];
    }
  }

  lemma {:induction false} DisciplinedPrefixes(s: State, actions: seq<Action>)
    requires Possible(s, actions)
    ensures Disciplined(s, actions)
            <==> (forall k :: 0 <= k <= |actions| ==>
                    Possible(s, actions[..k]) && SemaphoreInv(Outcome(s, actions[..k])))
    decreases |actions|
  {
    hide Enabled, Apply, SemaphoreInv;
    assert actions[..0] == [];
    if actions == [] {
      assert forall k :: 0 <= k <= |actions| ==> actions[..k] == [];
    } else {
      var t, rest := Apply(s, actions[0]), actions[1..];
      DisciplinedPrefixes(t, rest);
      forall k | 1 <= k <= |actions|
        ensures Possible(s, actions[..k]) && Possible(t, rest[..k - 1])
        ensures Outcome(s, actions[..k]) == Outcome(t, rest[..k - 1])
      {
        PossiblePrefix(s, actions, k);
        assert actions[..k][1..] == rest[..k - 1] && actions[..k][0] == actions[0];
      }
      if Disciplined(s, actions) {
        forall k | 0 <= k <= |actions| ensures Possible(s, actions[..k]) && SemaphoreInv(Outcome(s, actions[..k])) {
          if k == 0 {
            assert actions[..k] == [];
          } else {
            assert SemaphoreInv(Outcome(t, rest[..k - 1]));
          }
        }
      }
      if forall k :: 0 <= k <= |actions| ==> Possible(s, actions[..k]) && SemaphoreInv(Outcome(s, actions[..k])) {
        assert SemaphoreInv(Outcome(s, actions[..0]));
        forall k | 0 <= k <= |rest| ensures Possible(t, rest[..k]) && SemaphoreInv(Outcome(t, rest[..k])) {
          assert SemaphoreInv(Outcome(s, actions[..k + 1]));
          assert Outcome(s, actions[..k + 1]) == Outcome(t, rest[..k + 1 - 1]);
        }
      }
    }
  }

  ghost predicate Leads(s: State, t: State) {
    exists actions :: Possible(s, actions) && Outcome(s, actions) == t
  }

  lemma LeadsByOne(s: State, a: Action)
    requires Enabled(s, a)
    ensures Leads(s, Apply(s, a))
  {
    hide Enabled, Apply;
    var t, actions := Apply(s, a), [a];
    assert actions[0] == a && actions[1..] == [];
    assert Possible(t, []) && Outcome(t, []) == t;
    assert Possible(s, actions) && Outcome(s, actions) == Outcome(t, actions[1..]);
  }

  lemma {:induction false} Concatenated(s: State, xs: seq<Action>, ys: seq<Action>)
    requires Possible(s, xs) && Possible(Outcome(s, xs), ys)
    ensures Possible(s, xs + ys) && Outcome(s, xs + ys) == Outcome(Outcome(s, xs), ys)
    decreases |xs|
  {
    hide Enabled, Apply;
    if xs == [] {
      assert xs + ys == ys;
    } else {
      Concatenated(Apply(s, xs[0]), xs[1..], ys);
      assert (xs + ys)[0] == xs[0] && (xs + ys)[1..] == xs[1..] + ys;
    }
  }

  lemma LeadsOn(s: State, t: State, u: State)
    requires Leads(s, t) && Leads(t, u)
    ensures Leads(s, u)
  {
    var xs :| Possible(s, xs) && Outcome(s, xs) == t;
    var ys :| Possible(t, ys) && Outcome(t, ys) == u;
    Concatenated(s, xs, ys);
  }

  lemma Advance(s: State, t: State, d: nat)
    requires Leads(s, t) && Enabled(t, Step(d))
    ensures Leads(s, DriverStep(t, d))
  {
    hide Leads, DriverStep;
    LeadsByOne(t, Step(d));
    LeadsOn(s, t, DriverStep(t, d));
  }

  /** With nobody in the way, a try to acquire reaches its write of GSSR. */
  lemma FromPoll(s: State, d: nat) returns (t: State)
    requires d < |s.drivers| && s.drivers[d].pc.PollSmbi? && s.drivers[d].pc.call.Acquire?
    requires var mask := s.drivers[d].pc.call.mask; s.gssr * (mask + FirmwareMask(mask)) == {}
    requires s.swsm == CLEARED && s.firmware.Away?
    ensures Leads(s, t)
    ensures t == SetPc(s, d, WriteGssr(s.drivers[d].pc.call, s.gssr)).(swsm := Swsm(true, true))
  {
    hide Leads;
    LeadsByOne(s, Step(d));
    t := DriverStep(s, d);
    Advance(s, t, d);
    t := DriverStep(t, d);
    Advance(s, t, d);
    t := DriverStep(t, d);
    Advance(s, t, d);
    t := DriverStep(t, d);
    Advance(s, t, d);
    t := DriverStep(t, d);
  }

  lemma ToWrite(s: State, d: nat, mask: Bits) returns (t: State)
    requires d < |s.drivers| && s.drivers[d].pc.Idle? && IsMask(mask)
    requires s.swsm == CLEARED && s.firmware.Away? && s.gssr * (mask + FirmwareMask(mask)) == {}
    ensures Leads(s, t)
    ensures t == SetPc(s, d, WriteGssr(Acquire(mask, ACQUIRE_TRIES), s.gssr)).(swsm := Swsm(true, true))
  {
    hide Leads;
    LeadsByOne(s, CallAcquire(d, mask));
    var u := Apply(s, CallAcquire(d, mask));
    t := FromPoll(u, d);
    LeadsOn(s, u, t);
  }

  /** A driver that found the resource in use on a try before its last gets it once it is free. */
  lemma RetryReachesWrite(s: State, d: nat, mask: Bits, tries: nat) returns (t: State)
    requires d < |s.drivers| && tries > 1
    requires s.drivers[d].pc == BusyRead(Acquire(mask, tries)) || s.drivers[d].pc == BusyWrite(Acquire(mask, tries))
    requires s.firmware.Away? && s.gssr * (mask + FirmwareMask(mask)) == {}
    ensures Leads(s, t)
    ensures t == SetPc(s, d, WriteGssr(Acquire(mask, tries - 1), s.gssr)).(swsm := Swsm(true, true))
  {
    hide Leads;
    LeadsByOne(s, Step(d));
    var u := DriverStep(s, d);
    if s.drivers[d].pc.BusyRead? {
      Advance(s, u, d);
      u := DriverStep(u, d);
    }
    t := FromPoll(u, d);
    LeadsOn(s, u, t);
  }

  /** While another driver keeps SMBI, polling for it ends in failure. */
  lemma {:induction false} PollsRunOut(s: State, d: nat, call: Call, i: nat) returns (t: State)
    requires d < |s.drivers| && s.drivers[d].pc == PollSmbi(call, i) && i < SEMAPHORE_POLLS && s.swsm.smbi
    ensures Leads(s, t) && t == SetPc(s, d, NotGranted(call))
    decreases SEMAPHORE_POLLS - i
  {
    hide Leads;
    LeadsByOne(s, Step(d));
    t := DriverStep(s, d);
    if i + 1 < SEMAPHORE_POLLS {
      var next := t;
      t := PollsRunOut(next, d, call, i + 1);
      LeadsOn(s, next, t);
    }
  }

  /**
   * Without the restriction the theorem fails: a release whose polls run out writes an old copy of GSSR
   * back, an acquisition in between is lost, and a third driver then takes a resource that is in use.
   */
  lemma UncheckedReleaseBreaksExclusion()
    ensures exists s, t ::
              Initial(s) && Leads(s, t)
              && exists d, e :: 0 <= d < e < |t.drivers| && t.drivers[d].held * t.drivers[e].held != {}
  {
    hide Leads;
    var idle := Driver(Idle, {});
    var s := State(CLEARED, {}, [idle, idle, idle], Away, {});
    var t1 := ToWrite(s, 0, {0});
    Advance(s, t1, 0);
    Advance(s, DriverStep(t1, 0), 0);
    Advance(s, DriverStep(DriverStep(t1, 0), 0), 0);
    var t2 := DriverStep(DriverStep(DriverStep(t1, 0), 0), 0);
    SetFacts();
    assert t2.drivers == [Driver(Idle, {0}), idle, idle];
    assert t2 == State(CLEARED, {0}, [Driver(Idle, {0}), idle, idle], Away, {});
    var t3 := SecondAcquires(s, t2);
    var t4 := FirstReleasesUnchecked(s, t3);
    var t5 := ThirdAcquires(s, t4);
    assert 1 in t5.drivers[1].held * t5.drivers[2].held;
  }

  lemma SecondAcquires(s: State, t: State) returns (u: State)
    requires t == State(CLEARED, {0}, [Driver(Idle, {0}), Driver(Idle, {}), Driver(Idle, {})], Away, {})
    requires Leads(s, t)
    ensures Leads(s, u)
    ensures u == State(Swsm(true, true), {0},
                       [Driver(Idle, {0}), Driver(WriteGssr(Acquire({1}, ACQUIRE_TRIES), {0}), {}), Driver(Idle, {})],
                       Away, {})
  {
    hide Leads;
    assert {0} * ({1} + FirmwareMask({1})) == {};
    u := ToWrite(t, 1, {1});
    LeadsOn(s, t, u);
  }

  lemma FirstReleasesUnchecked(s: State, t: State) returns (u: State)
    requires t == State(Swsm(true, true), {0},
                        [Driver(Idle, {0}), Driver(WriteGssr(Acquire({1}, ACQUIRE_TRIES), {0}), {}), Driver(Idle, {})],
                       Away, {})
    requires Leads(s, t)
    ensures Leads(s, u)
    ensures u == State(CLEARED, {},
                       [Driver(Idle, {}), Driver(DoneRead(Acquire({1}, ACQUIRE_TRIES)), {1}), Driver(Idle, {})],
                       Away, {})
  {
    hide Leads;
    LeadsByOne(t, CallRelease(0, {0}));
    var t1 := Apply(t, CallRelease(0, {0}));
    LeadsOn(s, t, t1);
    var t2 := PollsRunOut(t1, 0, Release({0}), 0);
    LeadsOn(s, t1, t2);
    Advance(s, t2, 0);
    var t3 := DriverStep(t2, 0);
    Advance(s, t3, 1);
    var t4 := DriverStep(t3, 1);
    Advance(s, t4, 0);
    var t5 := DriverStep(t4, 0);
    Advance(s, t5, 0);
    var t6 := DriverStep(t5, 0);
    Advance(s, t6, 0);
    u := DriverStep(t6, 0);
    SetFacts();
    assert u.drivers == [Driver(Idle, {}), Driver(DoneRead(Acquire({1}, ACQUIRE_TRIES)), {1}), Driver(Idle, {})];
  }

  lemma SetFacts()
    ensures forall m: Bits :: {} + m == m && m - m == {}
  {
  }

  lemma ThirdAcquires(s: State, t: State) returns (u: State)
    requires t == State(CLEARED, {},
                        [Driver(Idle, {}), Driver(DoneRead(Acquire({1}, ACQUIRE_TRIES)), {1}), Driver(Idle, {})],
                       Away, {})
    requires Leads(s, t)
    ensures Leads(s, u) && |u.drivers| == 3 && u.drivers[1].held == {1} && u.drivers[2].held == {1}
  {
    hide Leads;
    var t1 := ToWrite(t, 2, {1});
    LeadsOn(s, t, t1);
    Advance(s, t1, 2);
    u := DriverStep(t1, 2);
  }
}

/** Any number of threads sharing the bus through src/drivers/i2c_driver.cc.

    A state holds the table, the clock and one program counter per thread; an
    action is one atomic move of one thread (a section under the reservation
    lock, the compare-and-sleep, or one transfer) or a move of the clock. An
    action its thread is not ready for changes nothing, so a run is any sequence
    of actions.

    Claims and calls carry identities, and the log records what happened; the
    driver has neither. They exist to state properties of whole runs. */
module BusProtocol {
  import opened Wrappers
  import opened Reservations
  import opened Batches

  /** One call into the driver. */
  datatype Call =
    | Batch(id: nat, thread: nat, cap: DeviceCap, steps: seq<Step>)
    | Lease(id: nat, thread: nat, cap: DeviceCap, holdMs: Word)

  /** One occupation of a slot, by the call that made it. */
  datatype Claim = Claim(id: nat, call: Call, since: Tick, deadline: Tick)

  datatype Pc =
    | Idle
    | Reserving(call: Call)
      // the slot of `blocker` was seen with the word at `word`, after `bumpsSeen` bumps
    | Snapped(call: Call, word: Word, bumpsSeen: nat, slot: nat, blocker: Claim)
    | Asleep(call: Call, word: Word, bumpsSeen: nat, slot: nat, blocker: Claim)
      // inside i2c_transact, holding `claim` since log entry `entry`
    | LookingUp(call: Call, claim: Claim, entry: nat)
    | Stepping(call: Call, claim: Claim, entry: nat, leased: bool, i: nat)
      // the check of step `i` passed at log entry `check`; the wire comes next
    | InGap(call: Call, claim: Claim, entry: nat, leased: bool, i: nat, check: nat)
    | Releasing(call: Call, claim: Claim, entry: nat, result: Status)

  datatype Event =
    | Rejected(thread: nat, status: Status)                              // before any call record exists
    | Entered(call: Call, claim: Claim)                                  // reserve_device returned 0
    | Passed(call: Call, claim: Claim, entry: nat, at: Tick)             // an ownership check passed
    | Wire(call: Call, i: nat, ok: bool, check: nat)                     // a transfer was put on the bus
    | Finished(call: Call, status: Status)                               // the call returned

  datatype BusState = BusState(
    msToTicks: nat -> nat,
    clock: Tick,
    slots: seq<Slot>,
    marks: seq<Claim>,    // the claim that last occupied each slot
    gen: Word,
    bumps: nat,           // how often gen was bumped, without wrap-around
    nextCall: nat,
    nextClaim: nat,
    threads: seq<Pc>,
    log: seq<Event>)

  /** Four slots, each with a mark. */
  type State = s: BusState | |s.slots| == |s.marks| == MAX_RESERVATIONS
    witness Start(x => x, 0)

  datatype Action =
    | ClockTo(now: Tick)
    | BeginBatch(t: nat, dev: Option<DeviceCap>, steps: seq<Step>)
    | BeginLease(t: nat, dev: Option<DeviceCap>, durationMs: Word)
    | TryReserve(t: nat)
    | Sleep(t: nat)
    | WakeEarly(t: nat)
    | TimeOut(t: nat)
    | LookUp(t: nat)
    | Advance(t: nat)
    | Transfer(t: nat, accepted: bool)
    | Release(t: nat)
    | DropLease(t: nat, dev: Option<DeviceCap>)

  function Start(msToTicks: nat -> nat, threads: nat): BusState {
    var noCap := DeviceCap(0, 0, 0, 0, 0, 0);
    BusState(msToTicks, 0,
      seq(MAX_RESERVATIONS, _ => Slot(false, 0, 0, 0, false)),
      seq(MAX_RESERVATIONS, _ => Claim(0, Lease(0, 0, noCap, 0), 0, 0)),
      0, 0, 0, 0, seq(threads, _ => Idle), [])
  }

  function HoldMs(call: Call): nat {
    match call
    case Batch(_, _, cap, _) => cap.maxBatchMs
    case Lease(_, _, _, holdMs) => holdMs
  }

  /** futex_wake on all waiters. */
  function WakeAll(threads: seq<Pc>): (r: seq<Pc>)
    ensures |r| == |threads|
    ensures forall t :: 0 <= t < |r| ==>
      r[t] == if threads[t].Asleep? then Reserving(threads[t].call) else threads[t]
  {
    seq(|threads|, t requires 0 <= t < |threads| =>
      if threads[t].Asleep? then Reserving(threads[t].call) else threads[t])
  }

  /** Slots were freed: bump the word and wake everybody. */
  function Freed(s: State, slots: seq<Slot>): State
    requires |slots| == MAX_RESERVATIONS
  {
    s.(slots := slots, gen := Bump(s.gen), bumps := s.bumps + 1, threads := WakeAll(s.threads))
  }

  function Sweep(s: State): State {
    if AnyStale(s.slots, s.clock) then Freed(s, Expire(s.slots, s.clock)) else s
  }

  function Drop(s: State, address: Address, t: nat): State {
    var r := Released(s.slots, address, t);
    if r.Some? then Freed(s, Dropped(s.slots, r)) else s
  }

  function SetPc(s: State, t: nat, pc: Pc): State
    requires t < |s.threads|
  {
    s.(threads := s.threads[t := pc])
  }

  function Log(s: State, e: Event): State {
    s.(log := s.log + [e])
  }

  /** reserve_device returned 0 to thread `t`. A lease call is over at that point. */
  function Enter(s: State, t: nat, call: Call, claim: Claim): State
    requires t < |s.threads|
  {
    var s1 := Log(s, Entered(call, claim));
    if call.Batch? then SetPc(s1, t, LookingUp(call, claim, |s.log|))
    else SetPc(Log(s1, Finished(call, Ok)), t, Idle)
  }

  /** One pass of the reserve loop. */
  function Reserve(s: State, t: nat, call: Call): State
    requires t < |s.threads|
  {
    Settle(Sweep(s), t, call)
  }

  /** The rest of the pass, on a swept table. */
  function Settle(s: State, t: nat, call: Call): State
    requires t < |s.threads|
  {
    match Decide(s.slots, call.cap.address, t)
    case Claimed(i) => Claiming(s, t, call, i)
    case Reentrant(i) => Enter(s, t, call, s.marks[i])
    case Blocked(i) => SetPc(s, t, Snapped(call, s.gen, s.bumps, i, s.marks[i]))
    case Full => Finish(s, t, call, Ebusy)
  }

  function Claiming(s: State, t: nat, call: Call, i: nat): State
    requires t < |s.threads| && i < MAX_RESERVATIONS
  {
    var deadline := Deadline(s.clock, s.msToTicks(HoldMs(call)));
    var claim := Claim(s.nextClaim, call, s.clock, deadline);
    var slot := Slot(true, call.cap.address, t, deadline, call.Lease?);
    Enter(s.(slots := s.slots[i := slot], marks := s.marks[i := claim], nextClaim := s.nextClaim + 1),
          t, call, claim)
  }

  function Finish(s: State, t: nat, call: Call, status: Status): State
    requires t < |s.threads|
  {
    SetPc(Log(s, Finished(call, status)), t, Idle)
  }

  /** The step loop is over: a lease holder just returns, anybody else releases first. */
  function Leave(s: State, t: nat, pc: Pc, result: Status): State
    requires t < |s.threads| && (pc.Stepping? || pc.InGap?)
  {
    if pc.leased then Finish(s, t, pc.call, result)
    else SetPc(s, t, Releasing(pc.call, pc.claim, pc.entry, result))
  }

  /** The part of the step loop in front of the wire, at step `i`. */
  function Check(s: State, t: nat, pc: Pc): State
    requires t < |s.threads| && pc.Stepping? && pc.call.Batch?
  {
    var steps := pc.call.steps;
    if pc.i >= |steps| then Leave(s, t, pc, Ok)
    else if steps[pc.i].kind == I2C_DELAY then
      SetPc(s, t, Stepping(pc.call, pc.claim, pc.entry, pc.leased, pc.i + 1))
    else if !steps[pc.i].hasBuffer then Leave(s, t, pc, Einval)
    else
      var s1 := Sweep(s);
      if Owned(s1.slots, pc.call.cap.address, t) then
        var mine := s1.marks[Find(s1.slots, pc.call.cap.address).value];
        SetPc(Log(s1, Passed(pc.call, mine, pc.entry, s.clock)), t,
              InGap(pc.call, pc.claim, pc.entry, pc.leased, pc.i, |s.log|))
      else Leave(s1, t, pc, Etimedout)
  }

  /** do_transfer, under the bus lock only. */
  function Put(s: State, t: nat, pc: Pc, accepted: bool): State
    requires t < |s.threads| && pc.InGap? && pc.call.Batch? && pc.i < |pc.call.steps|
  {
    if !pc.call.steps[pc.i].hasBuffer || pc.call.steps[pc.i].len == 0 then Leave(s, t, pc, Einval)
    else
      var s1 := Log(s, Wire(pc.call, pc.i, accepted, pc.check));
      if accepted then SetPc(s1, t, Stepping(pc.call, pc.claim, pc.entry, pc.leased, pc.i + 1))
      else Leave(s1, t, pc, Eio)
  }

  function Apply(s: State, a: Action): State {
    if a.ClockTo? then if a.now >= s.clock then s.(clock := a.now) else s
    else if a.t >= |s.threads| then s
    else
      var t, pc := a.t, s.threads[a.t];
      match a
      case ClockTo(_) => s
      case BeginBatch(_, dev, steps) =>
        if !pc.Idle? then s
        else if Admit(dev, steps) != Ok then Log(s, Rejected(t, Admit(dev, steps)))
        else SetPc(s.(nextCall := s.nextCall + 1), t, Reserving(Batch(s.nextCall, t, dev.value, steps)))
      case BeginLease(_, dev, durationMs) =>
        var (status, holdMs) := LeaseTerm(dev, durationMs);
        if !pc.Idle? then s
        else if status != Ok then Log(s, Rejected(t, status))
        else SetPc(s.(nextCall := s.nextCall + 1), t, Reserving(Lease(s.nextCall, t, dev.value, holdMs)))
      case TryReserve(_) => if pc.Reserving? then Reserve(s, t, pc.call) else s
      case Sleep(_) =>
        if !pc.Snapped? then s
        else if s.gen == pc.word then SetPc(s, t, Asleep(pc.call, pc.word, pc.bumpsSeen, pc.slot, pc.blocker))
        else SetPc(s, t, Reserving(pc.call))
      case WakeEarly(_) => if pc.Asleep? then SetPc(s, t, Reserving(pc.call)) else s
      case TimeOut(_) => if pc.Snapped? || pc.Asleep? then Finish(s, t, pc.call, Etimedout) else s
      case LookUp(_) =>
        if !pc.LookingUp? then s
        else SetPc(s, t, Stepping(pc.call, pc.claim, pc.entry, LeaseAt(s.slots, pc.call.cap.address), 0))
      case Advance(_) => if pc.Stepping? && pc.call.Batch? then Check(s, t, pc) else s
      case Transfer(_, accepted) =>
        if pc.InGap? && pc.call.Batch? && pc.i < |pc.call.steps| then Put(s, t, pc, accepted) else s
      case Release(_) =>
        if pc.Releasing? then Finish(Drop(s, pc.call.cap.address, t), t, pc.call, pc.result) else s
      case DropLease(_, dev) =>
        if !pc.Idle? then s
        else if dev.None? then Log(s, Rejected(t, Eperm))
        else Drop(s, dev.value.address, t)
  }

  /** A run. */
  function Exec(s: State, acts: seq<Action>): State
    decreases |acts|
  {
    if acts == [] then s else Exec(Apply(s, acts[0]), acts[1..])
  }
}

/** Batches of bus steps (src/drivers/i2c_driver.h, src/drivers/i2c_driver.cc):
    which ones a capability admits, what an admitted one may put on the wire, and
    the step loop of i2c_transact under arbitrary interference by other threads. */
module Batches {
  import opened Wrappers
  import opened Reservations

  const I2C_OP_READ: bv8 := 1
  const I2C_OP_WRITE: bv8 := 2
  const I2C_MAY_LEASE: bv8 := 1

  /** The step kinds with a name. The field is a byte, so others can occur. */
  const I2C_WRITE := 0
  const I2C_READ := 1
  const I2C_DELAY := 2

  type Half = h: int | 0 <= h < 0x1_0000

  datatype DeviceCap = DeviceCap(
    address: Address, opsMask: bv8, flags: bv8,
    maxTransferLen: Half, maxBatchMs: Half, maxLeaseMs: Word)

  datatype Step = Step(kind: Address, len: Half, delayMs: Half, hasBuffer: bool)

  datatype Status = Ok | Einval | Eperm | Ebusy | Etimedout | Eio

  // ---- Admission ---------------------------------------------------------

  function KindOps(step: Step): bv8 {
    match step.kind
    case 0 => I2C_OP_WRITE
    case 1 => I2C_OP_READ
    case _ => 0
  }

  /** The operations a batch needs: the union over its steps. */
  function NeedOps(steps: seq<Step>): bv8 {
    if steps == [] then 0 else NeedOps(steps[..|steps| - 1]) | KindOps(steps[|steps| - 1])
  }

  /** `dev` is what unsealing the handle yields: the capability, or nothing. */
  function Authorize(dev: Option<DeviceCap>, needOps: bv8): Status {
    if dev.None? || dev.value.opsMask & needOps != needOps then Eperm else Ok
  }

  predicate Oversized(cap: DeviceCap, step: Step) {
    (step.kind == I2C_WRITE || step.kind == I2C_READ) && step.len > cap.maxTransferLen
  }

  function Admit(dev: Option<DeviceCap>, steps: seq<Step>): Status {
    if steps == [] then Einval
    else if Authorize(dev, NeedOps(steps)) != Ok then Eperm
    else if exists i :: 0 <= i < |steps| && Oversized(dev.value, steps[i]) then Einval
    else if dev.value.maxBatchMs == 0 then Einval
    else Ok
  }

  /** The hold time of a lease request: clamped to the ceiling, 0 meaning the ceiling. */
  function LeaseTerm(dev: Option<DeviceCap>, durationMs: Word): (r: (Status, Word))
    ensures r.0 == Ok ==> dev.Some? && r.1 > 0
  {
    if dev.None? then (Eperm, 0)
    else if dev.value.flags & I2C_MAY_LEASE == 0 then (Eperm, 0)
    else
      var clamped := if dev.value.maxLeaseMs != 0 && durationMs > dev.value.maxLeaseMs
        then dev.value.maxLeaseMs else durationMs;
      var holdMs := if clamped == 0 then dev.value.maxLeaseMs else clamped;
      if holdMs == 0 then (Einval, 0) else (Ok, holdMs)
  }

  /** A term within those of the two bounds that are not 0. */
  predicate WithinBounds(t: nat, durationMs: Word, maxLeaseMs: Word) {
    (durationMs > 0 ==> t <= durationMs) && (maxLeaseMs > 0 ==> t <= maxLeaseMs)
  }

  /** What is granted, and when: the longest term within those of the two bounds,
      request and ceiling, that are not 0; refused if both are. */
  lemma LeaseTermMeans(dev: Option<DeviceCap>, durationMs: Word)
    ensures LeaseTerm(dev, durationMs).0 == Ok <==>
      dev.Some? && dev.value.flags & I2C_MAY_LEASE != 0 && (durationMs > 0 || dev.value.maxLeaseMs > 0)
    ensures LeaseTerm(dev, durationMs).0 == Eperm <==> dev.None? || dev.value.flags & I2C_MAY_LEASE == 0
    ensures LeaseTerm(dev, durationMs).0 == Einval <==>
      dev.Some? && dev.value.flags & I2C_MAY_LEASE != 0 && durationMs == 0 && dev.value.maxLeaseMs == 0
    ensures LeaseTerm(dev, durationMs).0 == Ok ==>
      WithinBounds(LeaseTerm(dev, durationMs).1, durationMs, dev.value.maxLeaseMs) &&
      forall t: nat :: WithinBounds(t, durationMs, dev.value.maxLeaseMs) ==> t <= LeaseTerm(dev, durationMs).1
  {
  }

  function Min(a: nat, b: nat): nat {
    if a <= b then a else b
  }

  /** The header promises at most the minimum of request and ceiling. A granted lease
      keeps that promise if and only if neither of them is 0: a ceiling of 0 skips the
      clamp, and a request of 0 stands for the ceiling. */
  lemma LeaseWithinMinimumIff(dev: Option<DeviceCap>, durationMs: Word)
    requires LeaseTerm(dev, durationMs).0 == Ok
    ensures LeaseTerm(dev, durationMs).1 <= Min(durationMs, dev.value.maxLeaseMs) <==>
      durationMs > 0 && dev.value.maxLeaseMs > 0
  {
  }

  /** One lease of each kind that exceeds the minimum. */
  lemma LeasesBeyondMinimum() returns (open: DeviceCap, capped: DeviceCap)
    ensures open.maxLeaseMs == 0 && LeaseTerm(Some(open), 5000) == (Ok, 5000)
    ensures capped.maxLeaseMs == 1000 && LeaseTerm(Some(capped), 0) == (Ok, 1000)
  {
    open := DeviceCap(0x36, 0, 1, 0, 0, 0);
    capped := DeviceCap(0x36, 0, 1, 0, 0, 1000);
  }

  predicate Granted(cap: DeviceCap, op: bv8) {
    cap.opsMask & op != 0
  }

  lemma UnionGranted(mask: bv8, a: bv8, b: bv8)
    ensures mask & (a | b) == a | b <==> mask & a == a && mask & b == b
  {
  }

  predicate KindGranted(mask: bv8, step: Step) {
    (step.kind == I2C_WRITE ==> mask & I2C_OP_WRITE != 0) && (step.kind == I2C_READ ==> mask & I2C_OP_READ != 0)
  }

  lemma KindNeeds(mask: bv8, step: Step)
    ensures mask & KindOps(step) == KindOps(step) <==> KindGranted(mask, step)
  {
    assert mask & I2C_OP_WRITE == I2C_OP_WRITE <==> mask & I2C_OP_WRITE != 0;
    assert mask & I2C_OP_READ == I2C_OP_READ <==> mask & I2C_OP_READ != 0;
    assert mask & 0 == 0;
  }

  lemma {:induction false} NeedOpsGranted(mask: bv8, steps: seq<Step>)
    ensures mask & NeedOps(steps) == NeedOps(steps) <==>
      forall i :: 0 <= i < |steps| ==> KindGranted(mask, steps[i])
  {
    if steps == [] {
      assert mask & 0 == 0;
    } else {
      var k := |steps| - 1;
      NeedOpsGranted(mask, steps[..k]);
      UnionGranted(mask, NeedOps(steps[..k]), KindOps(steps[k]));
      KindNeeds(mask, steps[k]);
      assert forall i :: 0 <= i < k ==> steps[..k][i] == steps[i];
    }
  }

  /** A transfer the capability grants: the operation and the length. */
  predicate Permitted(cap: DeviceCap, step: Step) {
    Granted(cap, if step.kind == I2C_WRITE then I2C_OP_WRITE else I2C_OP_READ) &&
    step.len <= cap.maxTransferLen
  }

  /** What admission amounts to, in terms of single steps. */
  lemma AdmitMeans(dev: Option<DeviceCap>, steps: seq<Step>)
    ensures Admit(dev, steps) == Ok <==>
      steps != [] && dev.Some? && dev.value.maxBatchMs > 0 &&
      forall i :: 0 <= i < |steps| && (steps[i].kind == I2C_WRITE || steps[i].kind == I2C_READ) ==>
        Permitted(dev.value, steps[i])
    ensures Admit(dev, steps) == Eperm <==>
      steps != [] && (dev.None? ||
        exists i :: 0 <= i < |steps| &&
          ((steps[i].kind == I2C_WRITE && !Granted(dev.value, I2C_OP_WRITE)) ||
           (steps[i].kind == I2C_READ && !Granted(dev.value, I2C_OP_READ))))
    ensures Admit(dev, steps) != Ok && Admit(dev, steps) != Eperm ==> Admit(dev, steps) == Einval
  {
    if dev.Some? {
      NeedOpsGranted(dev.value.opsMask, steps);
    }
  }

  // ---- Execution ---------------------------------------------------------

  /** One transfer attempt: the index of its step and whether the bus accepted it. */
  datatype Attempt = Attempt(step: nat, ok: bool)

  /** A transfer step do_transfer does not refuse. */
  predicate Sendable(step: Step) {
    step.hasBuffer && step.len > 0
  }

  /** None of the first `n` steps is a transfer that would be refused. */
  predicate Clear(steps: seq<Step>, n: nat)
    requires n <= |steps|
  {
    forall j :: 0 <= j < n && steps[j].kind != I2C_DELAY ==> Sendable(steps[j])
  }

  /** The attempts of the first `n` steps when all of them succeed. */
  function Attempts(steps: seq<Step>, n: nat): (r: seq<Attempt>)
    requires n <= |steps|
  {
    if n == 0 then []
    else if steps[n - 1].kind == I2C_DELAY then Attempts(steps, n - 1)
    else Attempts(steps, n - 1) + [Attempt(n - 1, true)]
  }

  /** The attempts `w` are exactly the read and write steps below `n`, in order,
      once each, and all of them accepted. */
  ghost predicate Exactly(steps: seq<Step>, n: nat, w: seq<Attempt>)
    requires n <= |steps|
  {
    InOrder(steps, w) &&
    (forall k :: 0 <= k < |w| ==> w[k].ok && w[k].step < n) &&
    (forall i {:trigger Attempted(w, i)} :: 0 <= i < n && steps[i].kind != I2C_DELAY ==> Attempted(w, i))
  }

  ghost predicate Attempted(w: seq<Attempt>, i: nat) {
    exists k :: 0 <= k < |w| && w[k].step == i
  }

  /** Attempts follow the step order, skip the delays, have a buffer and a length, and
      stop at a failure. */
  ghost predicate InOrder(steps: seq<Step>, w: seq<Attempt>) {
    (forall k :: 0 <= k < |w| ==>
      w[k].step < |steps| && steps[w[k].step].kind != I2C_DELAY && Sendable(steps[w[k].step])) &&
    (forall j, k :: 0 <= j < k < |w| ==> w[j].step < w[k].step && w[j].ok)
  }

  lemma {:induction false} AttemptsExact(steps: seq<Step>, n: nat)
    requires n <= |steps| && Clear(steps, n)
    ensures Exactly(steps, n, Attempts(steps, n))
  {
    if n > 0 {
      AttemptsExact(steps, n - 1);
      if steps[n - 1].kind == I2C_DELAY {
        ExactlyTheSame(steps, n - 1, Attempts(steps, n - 1));
      } else {
        ExactlyOneMore(steps, n - 1, Attempts(steps, n - 1));
      }
    }
  }

  lemma ExactlyTheSame(steps: seq<Step>, n: nat, w: seq<Attempt>)
    requires n < |steps| && steps[n].kind == I2C_DELAY && Exactly(steps, n, w)
    ensures Exactly(steps, n + 1, w)
  {
  }

  lemma ExactlyOneMore(steps: seq<Step>, n: nat, w: seq<Attempt>)
    requires n < |steps| && steps[n].kind != I2C_DELAY && Sendable(steps[n]) && Exactly(steps, n, w)
    ensures Exactly(steps, n + 1, w + [Attempt(n, true)])
  {
    var all := w + [Attempt(n, true)];
    forall i: nat | i <= n && steps[i].kind != I2C_DELAY
      ensures Attempted(all, i)
    {
      if i == n {
        assert all[|w|].step == i;
      } else {
        assert Attempted(w, i);
        var k :| 0 <= k < |w| && w[k].step == i;
        assert all[k].step == i;
      }
    }
  }

  /** How a transfer step may fail: without a buffer or a length, by a check that does
      not pass, or on the bus. */
  predicate StepFails(step: Step, r: Status) {
    step.kind != I2C_DELAY &&
    match r
    case Einval => !Sendable(step)
    case Etimedout => step.hasBuffer
    case Eio => Sendable(step)
    case _ => false
  }

  /** The batch stopped at step `i` with result `r`. */
  predicate StoppedAt(steps: seq<Step>, i: nat, r: Status, wire: seq<Attempt>)
    requires i < |steps|
  {
    Clear(steps, i) && StepFails(steps[i], r) &&
    wire == Attempts(steps, i) + if r == Eio then [Attempt(i, false)] else []
  }

  /** The specification of the step loop: success means every step ran, in order;
      otherwise it stopped at one step, after everything before it. */
  ghost predicate Outcome(steps: seq<Step>, r: Status, wire: seq<Attempt>) {
    if r == Ok then Clear(steps, |steps|) && wire == Attempts(steps, |steps|)
    else exists i :: 0 <= i < |steps| && StoppedAt(steps, i, r, wire)
  }

  lemma StoppedShape(steps: seq<Step>, i: nat, r: Status, wire: seq<Attempt>)
    requires i < |steps| && StoppedAt(steps, i, r, wire)
    ensures InOrder(steps, wire) && !Exactly(steps, |steps|, wire)
  {
    AttemptsExact(steps, i);
    assert forall k :: 0 <= k < |wire| && wire[k].ok ==> wire[k].step < i;
    assert Attempted(wire, i) ==> exists k :: 0 <= k < |wire| && !wire[k].ok;
  }

  /** The attempts are in order, each with a buffer and a length, and the result is 0
      if and only if every transfer was attempted and accepted. BusOutcomes.Reachable
      shows that there is no slack: every outcome happens in some run. */
  lemma OutcomeShape(steps: seq<Step>, r: Status, wire: seq<Attempt>)
    requires Outcome(steps, r, wire)
    ensures InOrder(steps, wire)
    ensures r == Ok <==> Exactly(steps, |steps|, wire)
  {
    if r == Ok {
      AttemptsExact(steps, |steps|);
    } else {
      var i :| 0 <= i < |steps| && StoppedAt(steps, i, r, wire);
      StoppedShape(steps, i, r, wire);
    }
  }

  // ---- Confinement -------------------------------------------------------

  /** Everything an admitted batch attempts has a buffer and a length of at least 1;
      and a step of named kind is granted and within the length limit. */
  lemma AttemptsPermitted(dev: Option<DeviceCap>, steps: seq<Step>, r: Status, wire: seq<Attempt>)
    requires Admit(dev, steps) == Ok && Outcome(steps, r, wire)
    ensures forall k :: 0 <= k < |wire| ==>
      var i := wire[k].step;
      i < |steps| && steps[i].kind != I2C_DELAY && Sendable(steps[i]) &&
      (steps[i].kind < I2C_DELAY ==> Permitted(dev.value, steps[i]))
  {
    OutcomeShape(steps, r, wire);
    AdmitMeans(dev, steps);
  }

  /** A step of unnamed kind outside the capability that the step loop can get to and
      will send: admission skips such a step, and do_transfer takes the read path. */
  predicate Exposed(cap: DeviceCap, steps: seq<Step>, i: nat) {
    i < |steps| && steps[i].kind > I2C_DELAY && !Permitted(cap, steps[i]) && Clear(steps, i) && Sendable(steps[i])
  }

  predicate WithinCapability(cap: DeviceCap, steps: seq<Step>, wire: seq<Attempt>) {
    forall k :: 0 <= k < |wire| ==> wire[k].step < |steps| && Permitted(cap, steps[wire[k].step])
  }

  lemma OutcomeIsClear(steps: seq<Step>, r: Status, wire: seq<Attempt>, k: nat)
    requires Outcome(steps, r, wire) && k < |wire|
    ensures wire[k].step < |steps| && Clear(steps, wire[k].step)
  {
    OutcomeShape(steps, r, wire);
    if r != Ok {
      var i :| 0 <= i < |steps| && StoppedAt(steps, i, r, wire);
      AttemptsExact(steps, i);
    }
  }

  lemma ExposedOutcome(cap: DeviceCap, steps: seq<Step>, i: nat) returns (wire: seq<Attempt>)
    requires Exposed(cap, steps, i)
    ensures Outcome(steps, Eio, wire) && |wire| > 0 && wire[|wire| - 1] == Attempt(i, false)
    ensures !WithinCapability(cap, steps, wire)
  {
    wire := Attempts(steps, i) + [Attempt(i, false)];
    assert StoppedAt(steps, i, Eio, wire);
  }

  /** Whatever the result, the transfers of an admitted batch stay within its
      capability if and only if no step of it is exposed. */
  lemma AdmittedIsPermittedIff(dev: Option<DeviceCap>, steps: seq<Step>)
    requires Admit(dev, steps) == Ok
    ensures (forall r, wire: seq<Attempt> :: Outcome(steps, r, wire) ==> WithinCapability(dev.value, steps, wire))
      <==> forall i :: !Exposed(dev.value, steps, i)
  {
    forall r, wire: seq<Attempt> | Outcome(steps, r, wire) && !WithinCapability(dev.value, steps, wire)
      ensures exists i :: Exposed(dev.value, steps, i)
    {
      AttemptsPermitted(dev, steps, r, wire);
      var k :| 0 <= k < |wire| && !Permitted(dev.value, steps[wire[k].step]);
      OutcomeIsClear(steps, r, wire, k);
      assert Exposed(dev.value, steps, wire[k].step);
    }
    forall i | Exposed(dev.value, steps, i)
      ensures exists r, wire: seq<Attempt> :: Outcome(steps, r, wire) && !WithinCapability(dev.value, steps, wire)
    {
      var wire := ExposedOutcome(dev.value, steps, i);
    }
  }

  // ---- The moves of one thread -------------------------------------------

  /** What i2c_transact itself does to the shared state, in order. */
  datatype Move =
    | Reserved(claimed: bool, since: Tick, slot: Slot)  // reserve_device succeeded; a fresh claim or not
    | LookedUp(leased: bool)
    | Checked(ours: bool)
    | Tried(attempt: Attempt)
    | LetGo

  /** The moves of the first `n` steps when all of them succeed: a passed check in
      front of every transfer. */
  function Moves(steps: seq<Step>, n: nat): seq<Move>
    requires n <= |steps|
  {
    if n == 0 then []
    else if steps[n - 1].kind == I2C_DELAY then Moves(steps, n - 1)
    else Moves(steps, n - 1) + [Checked(true), Tried(Attempt(n - 1, true))]
  }

  /** The moves of the step that fails with `r`. */
  function FailingMoves(step: Step, i: nat, r: Status): seq<Move> {
    match r
    case Einval => if step.hasBuffer then [Checked(true)] else []
    case Etimedout => [Checked(false)]
    case _ => [Checked(true), Tried(Attempt(i, false))]
  }

  /** The moves of the whole step loop, given where it stopped. */
  predicate LoopMoves(steps: seq<Step>, r: Status, n: nat, moves: seq<Move>) {
    if r == Ok then n == |steps| && Clear(steps, n) && moves == Moves(steps, n)
    else
      n < |steps| && Clear(steps, n) && StepFails(steps[n], r) &&
      moves == Moves(steps, n) + FailingMoves(steps[n], n, r)
  }

  /** A batch that got its reservation: the look-up, the loop, and a release exactly
      if the slot looked up was no lease. */
  predicate Course(steps: seq<Step>, r: Status, n: nat, first: Move, leased: bool,
                   moves: seq<Move>, course: seq<Move>) {
    LoopMoves(steps, r, n, moves) &&
    course == [first, LookedUp(leased)] + moves + (if leased then [] else [LetGo])
  }

  ghost predicate RanItsCourse(steps: seq<Step>, r: Status, course: seq<Move>) {
    exists n, first, leased, moves :: Course(steps, r, n, first, leased, moves, course)
  }

  /** The reservation `m` is of a slot of the caller's for the address; a fresh claim has
      the full term and the lease flag asked for. */
  predicate ReservedFor(m: Move, me: nat, address: Address, term: nat, isLease: bool) {
    m.Reserved? && Holds(m.slot, address) && m.slot.owner == me &&
    (m.claimed ==> GrantedInFull(m.slot, me, address, m.since, term, isLease))
  }

  /** The last move is the release, unless a lease was looked up. */
  lemma CourseEnds(steps: seq<Step>, r: Status, n: nat, first: Move, leased: bool,
                   moves: seq<Move>, course: seq<Move>)
    requires Course(steps, r, n, first, leased, moves, course)
    ensures RanItsCourse(steps, r, course)
    ensures course != [] && course[0] == first && (course[|course| - 1] == LetGo <==> !leased)
  {
    MovesLetNothingGo(steps, n);
    assert LetGo !in moves;
    if leased {
      assert course == [first, LookedUp(leased)] + moves;
      assert moves != [] ==> course[|course| - 1] == moves[|moves| - 1];
    }
  }

  lemma {:induction false} MovesLetNothingGo(steps: seq<Step>, n: nat)
    requires n <= |steps|
    ensures LetGo !in Moves(steps, n)
  {
    if n > 0 {
      MovesLetNothingGo(steps, n - 1);
    }
  }

  /** Thread `me` owns an active slot for `address`. */
  predicate HeldBy(slots: seq<Slot>, address: Address, me: nat) {
    exists i :: 0 <= i < |slots| && Holds(slots[i], address) && slots[i].owner == me
  }

  lemma ClaimUnambiguous(slots: seq<Slot>, i: nat, slot: Slot)
    requires Unambiguous(slots) && i < |slots|
    requires forall k :: 0 <= k < |slots| ==> !Holds(slots[k], slot.address)
    ensures Unambiguous(slots[i := slot])
  {
  }

  /** A thread's view of the bus: the table, the clock and the wire. Interfere
      stands for whatever the other threads do between two locked sections; that
      they keep the table unambiguous is part of BusInvariant.TableInv. */
  class Bus {
    const table: ReservationTable
    var clock: Tick
    ghost var wire: seq<Attempt>  // the attempts of the current batch
    ghost var course: seq<Move>   // the moves of the current batch

    ghost predicate Valid()
      reads this, table, table.slots
    {
      table.Valid() && Unambiguous(table.slots[..])
    }

    constructor ()
      ensures Valid() && fresh(table) && fresh(table.slots) && wire == [] && course == []
    {
      table := new ReservationTable();
      clock, wire, course := 0, [], [];
    }

    method Interfere()
      requires Valid()
      modifies table, table.slots, this`clock
      ensures Valid() && clock >= old(clock)
    {
      var later: Tick := *;
      if later > clock {
        clock := later;
      }
      table.gen := *;
      table.wakes := *;
      var slots: seq<Slot> := *;
      if |slots| == MAX_RESERVATIONS && Unambiguous(slots) {
        forall i | 0 <= i < table.slots.Length {
          table.slots[i] := slots[i];
        }
        assert table.slots[..] == slots;
      }
    }

    /** The wait loop. `patience` is the number of waits before the timeout ends. */
    method ReserveDevice(me: nat, address: Address, holdTicks: nat, isLease: bool, patience: nat)
      returns (r: Status, claimed: bool)
      requires Valid()
      modifies table, table.slots, this`clock, this`course
      ensures Valid() && (r == Ok || r == Ebusy || r == Etimedout)
      ensures r == Ok ==> Owned(table.slots[..], address, me)
      ensures r == Ok && claimed ==>
        GrantedInFull(table.slots[Find(table.slots[..], address).value], me, address, clock, holdTicks, isLease)
      ensures r == Ebusy ==> Decide(table.slots[..], address, me) == Full
      ensures r == Etimedout ==> Decide(table.slots[..], address, me).Blocked?
      ensures r != Ok ==> course == old(course)
      ensures r == Ok ==>
        course == old(course) + [Reserved(claimed, clock, table.slots[Find(table.slots[..], address).value])]
    {
      var waits := 0;
      claimed := false;
      while true
        invariant Valid() && waits <= patience
        invariant course == old(course)
        decreases patience - waits
      {
        Interfere();
        var d, snapshot := OnePass(me, address, holdTicks, isLease);
        match d {
          case Claimed(i) =>
            course := course + [Reserved(true, clock, table.slots[i])];
            return Ok, true;
          case Reentrant(i) =>
            course := course + [Reserved(false, clock, table.slots[i])];
            return Ok, false;
          case Full => return Ebusy, false;
          case Blocked(_) =>
        }
        if waits == patience {
          return Etimedout, false;
        }
        Interfere();
        waits := waits + 1;
      }
    }

    /** One pass of the loop, with what it decides seen on the table it leaves. */
    method OnePass(me: nat, address: Address, holdTicks: nat, isLease: bool) returns (d: Decision, snapshot: Word)
      requires Valid()
      modifies table, table.slots
      ensures Valid() && snapshot == table.gen
      ensures d.Claimed? ==> Find(table.slots[..], address) == Some(d.slot)
      ensures d.Claimed? ==> table.slots[d.slot] == Slot(true, address, me, Deadline(clock, holdTicks), isLease)
      ensures !d.Claimed? ==> d == Decide(table.slots[..], address, me)
    {
      ghost var swept := Expire(table.slots[..], clock);
      d, snapshot := table.ReserveLocked(address, me, holdTicks, isLease, clock);
      if d.Claimed? {
        ClaimUnambiguous(swept, d.slot, Slot(true, address, me, Deadline(clock, holdTicks), isLease));
        assert Holds(table.slots[..][d.slot], address);
      }
    }

    method LookUp(address: Address) returns (leased: bool)
      requires Valid()
      modifies this`course
      ensures leased == LeaseAt(table.slots[..], address)
      ensures course == old(course) + [LookedUp(leased)]
    {
      leased := table.LeaseLookup(address);
      course := course + [LookedUp(leased)];
    }

    /** The ownership check: on the table it leaves, it says who holds the address. */
    method Check(me: nat, address: Address) returns (ours: bool)
      requires Valid()
      modifies table, table.slots, this`course
      ensures Valid() && (ours <==> HeldBy(table.slots[..], address, me))
      ensures forall i :: 0 <= i < table.slots.Length ==> !Stale(table.slots[i], clock)
      ensures course == old(course) + [Checked(ours)]
    {
      ours := table.CheckLocked(address, me, clock);
      OwnedMeans(table.slots[..], address, me);
      course := course + [Checked(ours)];
    }

    /** The transfer. Something must have been put in `course` in front of it: a
        passed check, and nothing since. */
    method DoTransfer(step: Step, i: nat) returns (r: Status)
      requires course != [] && course[|course| - 1] == Checked(true)
      modifies this`wire, this`course
      ensures !step.hasBuffer || step.len == 0 ==> r == Einval && wire == old(wire) && course == old(course)
      ensures step.hasBuffer && step.len > 0 ==>
        (r == Ok || r == Eio) && wire == old(wire) + [Attempt(i, r == Ok)] &&
        course == old(course) + [Tried(Attempt(i, r == Ok))]
    {
      if !step.hasBuffer || step.len == 0 {
        return Einval;
      }
      var accepted: bool := *;
      wire := wire + [Attempt(i, accepted)];
      course := course + [Tried(Attempt(i, accepted))];
      r := if accepted then Ok else Eio;
    }

    method Release(me: nat, address: Address)
      requires Valid()
      modifies table, table.slots, this`course
      ensures Valid() && !HeldBy(table.slots[..], address, me)
      ensures table.slots[..] == Dropped(old(table.slots[..]), Released(old(table.slots[..]), address, me))
      ensures course == old(course) + [LetGo]
    {
      OwnedMeans(table.slots[..], address, me);
      table.ReleaseDevice(address, me);
      course := course + [LetGo];
    }

    /** The union of the operations, and the length check, in front of the reservation. */
    method Validate(dev: Option<DeviceCap>, steps: seq<Step>) returns (result: Status)
      ensures result == Admit(dev, steps)
    {
      if steps == [] {
        return Einval;
      }
      var needOps: bv8 := 0;
      for i := 0 to |steps|
        invariant needOps == NeedOps(steps[..i])
      {
        assert steps[..i + 1][..i] == steps[..i];
        if steps[i].kind == I2C_WRITE {
          needOps := needOps | I2C_OP_WRITE;
        } else if steps[i].kind == I2C_READ {
          needOps := needOps | I2C_OP_READ;
        }
      }
      assert steps[..|steps|] == steps;
      result := Authorize(dev, needOps);
      if result != Ok {
        return;
      }
      var cap := dev.value;
      for i := 0 to |steps|
        invariant forall k :: 0 <= k < i ==> !Oversized(cap, steps[k])
      {
        if (steps[i].kind == I2C_WRITE || steps[i].kind == I2C_READ) && steps[i].len > cap.maxTransferLen {
          assert Oversized(cap, steps[i]);
          return Einval;
        }
      }
      if cap.maxBatchMs == 0 {
        return Einval;
      }
    }

    /** The body of the step loop: wait, or check and transfer. */
    method RunStep(me: nat, address: Address, step: Step, i: nat) returns (result: Status, ghost moves: seq<Move>)
      requires Valid()
      modifies table, table.slots, this
      ensures Valid() && course == old(course) + moves
      ensures result == Ok && step.kind == I2C_DELAY ==> wire == old(wire) && moves == []
      ensures result == Ok && step.kind != I2C_DELAY ==>
        Sendable(step) && wire == old(wire) + [Attempt(i, true)] && moves == [Checked(true), Tried(Attempt(i, true))]
      ensures result != Ok ==> StepFails(step, result) && moves == FailingMoves(step, i, result)
      ensures result != Ok ==> wire == old(wire) + if result == Eio then [Attempt(i, false)] else []
    {
      result, moves := Ok, [];
      if step.kind != I2C_DELAY {
        if !step.hasBuffer {
          return Einval, [];
        }
        Interfere();
        var ours := Check(me, address);
        if !ours {
          return Etimedout, [Checked(false)];
        }
        Interfere();
        result := DoTransfer(step, i);
        moves := [Checked(true)] + if step.len > 0 then [Tried(Attempt(i, result == Ok))] else [];
      }
    }

    /** The step loop. */
    method RunSteps(me: nat, address: Address, steps: seq<Step>)
      returns (result: Status, ghost n: nat, ghost moves: seq<Move>)
      requires Valid() && wire == []
      modifies table, table.slots, this
      ensures Valid() && Outcome(steps, result, wire)
      ensures course == old(course) + moves && LoopMoves(steps, result, n, moves)
    {
      result := Ok;
      moves := [];
      var i := 0;
      while i < |steps| && result == Ok
        invariant Valid() && 0 <= i <= |steps|
        invariant course == old(course) + moves
        invariant result == Ok ==> Clear(steps, i) && wire == Attempts(steps, i) && moves == Moves(steps, i)
        invariant result != Ok ==> 0 < i && StoppedAt(steps, i - 1, result, wire)
        invariant result != Ok ==> LoopMoves(steps, result, i - 1, moves)
      {
        ghost var added: seq<Move>;
        result, added := RunStep(me, address, steps[i], i);
        moves := moves + added;
        i := i + 1;
      }
      n := if result == Ok then i else i - 1;
    }

    /** The batch proper, once the device is reserved. */
    method Serve(me: nat, address: Address, steps: seq<Step>) returns (result: Status)
      requires Valid() && wire == [] && |course| == 1
      modifies table, table.slots, this
      ensures Valid() && Outcome(steps, result, wire) && RanItsCourse(steps, result, course)
      ensures course != [] && course[0] == old(course[0])
      ensures course[|course| - 1] == LetGo ==> !HeldBy(table.slots[..], address, me)
    {
      ghost var first := course[0];
      Interfere();
      var weHoldLease := LookUp(address);
      ghost var n: nat, moves: seq<Move>;
      result, n, moves := RunSteps(me, address, steps);
      if !weHoldLease {
        Interfere();
        Release(me, address);
      }
      CourseEnds(steps, result, n, first, weHoldLease, moves, course);
    }

    /** i2c_transact: admission, reservation, the step loop, the release. A batch that
        is not admitted touches neither table nor wire; one that gets no reservation
        makes no other move; a fresh reservation is for the capability's full batch time. */
    method Transact(me: nat, dev: Option<DeviceCap>, steps: seq<Step>, ticks: nat -> nat, patience: nat)
      returns (result: Status)
      requires Valid()
      modifies table, table.slots, this
      ensures Valid()
      ensures Admit(dev, steps) != Ok ==>
        result == Admit(dev, steps) && wire == [] && course == [] &&
        table.slots[..] == old(table.slots[..]) && table.gen == old(table.gen)
      ensures Admit(dev, steps) == Ok ==>
        (Outcome(steps, result, wire) && RanItsCourse(steps, result, course)) ||
        (wire == [] && course == [] && (result == Ebusy || result == Etimedout))
      ensures course != [] ==>
        dev.Some? && ReservedFor(course[0], me, dev.value.address, ticks(dev.value.maxBatchMs), false)
      ensures course != [] && course[|course| - 1] == LetGo ==>
        !HeldBy(table.slots[..], dev.value.address, me)
    {
      wire, course := [], [];
      result := Validate(dev, steps);
      if result != Ok {
        return;
      }
      var cap := dev.value;
      var claimed: bool;
      result, claimed := ReserveDevice(me, cap.address, ticks(cap.maxBatchMs), false, patience);
      if result != Ok {
        return;
      }
      result := Serve(me, cap.address, steps);
    }

    /** i2c_lease_acquire: a slot of its own making is a lease, for the term granted. */
    method AcquireLease(me: nat, dev: Option<DeviceCap>, durationMs: Word, ticks: nat -> nat, patience: nat)
      returns (result: Status, claimed: bool)
      requires Valid()
      modifies table, table.slots, this`clock, this`course
      ensures Valid()
      ensures LeaseTerm(dev, durationMs).0 != Ok ==>
        result == LeaseTerm(dev, durationMs).0 && table.slots[..] == old(table.slots[..])
      ensures result == Ok ==>
        LeaseTerm(dev, durationMs).0 == Ok && Owned(table.slots[..], dev.value.address, me)
      ensures result == Ok && claimed ==>
        GrantedInFull(table.slots[Find(table.slots[..], dev.value.address).value], me, dev.value.address,
                      clock, ticks(LeaseTerm(dev, durationMs).1), true)
    {
      claimed := false;
      if dev.None? {
        return Eperm, false;
      }
      var cap := dev.value;
      if cap.flags & I2C_MAY_LEASE == 0 {
        return Eperm, false;
      }
      var holdMs := durationMs;
      if cap.maxLeaseMs != 0 && holdMs > cap.maxLeaseMs {
        holdMs := cap.maxLeaseMs;
      }
      if holdMs == 0 {
        holdMs := cap.maxLeaseMs;
      }
      if holdMs == 0 {
        return Einval, false;
      }
      result, claimed := ReserveDevice(me, cap.address, ticks(holdMs), true, patience);
    }

    /** i2c_lease_release. */
    method ReleaseLease(me: nat, dev: Option<DeviceCap>) returns (result: Status)
      requires Valid()
      modifies table, table.slots, this`course
      ensures Valid() && result == (if dev.None? then Eperm else Ok)
      ensures dev.None? ==> table.slots[..] == old(table.slots[..])
      ensures dev.Some? ==> !HeldBy(table.slots[..], dev.value.address, me)
      ensures dev.Some? ==>
        table.slots[..] == Dropped(old(table.slots[..]), Released(old(table.slots[..]), dev.value.address, me))
    {
      if dev.None? {
        return Eperm;
      }
      Release(me, dev.value.address);
      result := Ok;
    }
  }
}
